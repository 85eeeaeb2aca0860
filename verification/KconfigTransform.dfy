/** Negation normal form (expr_transform) and comparison push-down
    (expr_trans_compare) of external/kconfig/expr.c. */
module KconfigTransform {
  import opened KconfigExpr

  // ----- expr_transform -----

  /** Falls on every rewriting step of expr_transform; a negation doubles the
      weight because pushing it inwards may copy it. */
  function Weight(e: Expr): nat
    ensures Weight(e) >= 1
  {
    match e
    case Sym(_) => 1
    case Not(a) => 2 * Weight(a)
    case And(l, r) => 1 + Weight(l) + Weight(r)
    case Or(l, r) => 1 + Weight(l) + Weight(r)
    case Equal(_, _) => 2
    case Unequal(_, _) => 2
  }

  /** Comparison leaves: a boolean symbol against y, m or n becomes a literal. */
  function TransformEqual(a: Symbol, b: Symbol): (r: Expr)
    ensures Weight(r) <= 2
  {
    if TypeOf(a) != BooleanType then Equal(a, b)
    else if b == SymNo then Not(Sym(a))
    else if b == SymMod then Sym(SymNo)
    else if b == SymYes then Sym(a)
    else Equal(a, b)
  }

  function TransformUnequal(a: Symbol, b: Symbol): (r: Expr)
    ensures Weight(r) <= 2
  {
    if TypeOf(a) != BooleanType then Unequal(a, b)
    else if b == SymNo then Sym(a)
    else if b == SymMod then Sym(SymYes)
    else if b == SymYes then Not(Sym(a))
    else Unequal(a, b)
  }

  /** The E_NOT case of expr_transform on a symbol. */
  function NegateSymbol(s: Symbol): (r: Expr)
    ensures Weight(r) <= 2
  {
    if s == SymYes then Sym(SymNo)
    else if s == SymMod then Sym(SymMod)
    else if s == SymNo then Sym(SymYes)
    else Not(Sym(s))
  }

  lemma PushWeight(l: Expr, r: Expr)
    ensures Weight(And(Not(l), Not(r))) < Weight(Not(Or(l, r)))
    ensures Weight(Or(Not(l), Not(r))) < Weight(Not(And(l, r)))
  {
    assert Weight(Not(l)) == 2 * Weight(l) && Weight(Not(r)) == 2 * Weight(r);
  }

  /** Operands first; a negation that then stands above a connective is pushed
      through it and the whole new expression is transformed again. */
  function Transform(e: Expr): (r: Expr)
    ensures Weight(r) <= Weight(e)
    decreases Weight(e)
  {
    match e
    case Sym(_) => e
    case Equal(a, b) => TransformEqual(a, b)
    case Unequal(a, b) => TransformUnequal(a, b)
    case And(l, r) => And(Transform(l), Transform(r))
    case Or(l, r) => Or(Transform(l), Transform(r))
    case Not(a) =>
      var t := Transform(a);
      match t
      case Not(b) => Transform(b)
      case Equal(x, y) => Unequal(x, y)
      case Unequal(x, y) => Equal(x, y)
      case Or(l, r) => PushWeight(l, r); Transform(And(Not(l), Not(r)))
      case And(l, r) => PushWeight(l, r); Transform(Or(Not(l), Not(r)))
      case Sym(s) => NegateSymbol(s)
  }

  /** Negation stands only directly above a symbol other than y, m and n, and no
      boolean symbol is compared with y, m or n. */
  predicate Normal(e: Expr) {
    match e
    case Sym(_) => true
    case Not(a) => a.Sym? && a.sym != SymYes && a.sym != SymMod && a.sym != SymNo
    case And(l, r) => Normal(l) && Normal(r)
    case Or(l, r) => Normal(l) && Normal(r)
    case Equal(a, b) => NormalCompare(a, b)
    case Unequal(a, b) => NormalCompare(a, b)
  }

  predicate NormalCompare(a: Symbol, b: Symbol) {
    TypeOf(a) == BooleanType ==> b != SymYes && b != SymMod && b != SymNo
  }

  lemma {:induction false} TransformNormal(e: Expr)
    ensures Normal(Transform(e))
    decreases Weight(e)
  {
    match e
    case And(l, r) => TransformNormal(l); TransformNormal(r);
    case Or(l, r) => TransformNormal(l); TransformNormal(r);
    case Not(a) =>
      TransformNormal(a);
      var t := Transform(a);
      match t {
        case Not(b) => TransformNormal(b);
        case Or(l, r) => PushWeight(l, r); TransformNormal(And(Not(l), Not(r)));
        case And(l, r) => PushWeight(l, r); TransformNormal(Or(Not(l), Not(r)));
        case _ =>
      }
    case _ =>
  }

  lemma {:induction false} NormalIsFixed(e: Expr)
    requires Normal(e)
    ensures Transform(e) == e
  {
    if e.And? || e.Or? {
      NormalIsFixed(e.l);
      NormalIsFixed(e.r);
    }
  }

  /** The normal forms are exactly the fixed points, and one call reaches one. */
  lemma TransformIdempotent(e: Expr)
    ensures Transform(Transform(e)) == Transform(e)
    ensures Transform(e) == e <==> Normal(e)
  {
    TransformNormal(e);
    NormalIsFixed(Transform(e));
  }

  lemma CompareLeaf(a: Symbol, b: Symbol, v: Valuation)
    requires Typed(v)
    ensures Eval(TransformEqual(a, b), v) == Eval(Equal(a, b), v)
    ensures Eval(TransformUnequal(a, b), v) == Eval(Unequal(a, b), v)
  {
    assert TypedAt(v, a) && TypedAt(v, b);
    assert TypedAt(v, SymYes) && TypedAt(v, SymNo) && TypedAt(v, SymMod);
    TriNameInjective(v.tri(a), v.tri(b));
    assert TriName(YES) == "y" && TriName(MOD) == "m" && TriName(NO) == "n";
  }

  /** The full three-valued meaning is kept. */
  lemma {:induction false} TransformPreserves(e: Expr, v: Valuation)
    requires Typed(v)
    ensures Eval(Transform(e), v) == Eval(e, v)
    decreases Weight(e)
  {
    match e
    case Sym(_) =>
    case Equal(a, b) => CompareLeaf(a, b, v);
    case Unequal(a, b) => CompareLeaf(a, b, v);
    case And(l, r) => TransformPreserves(l, v); TransformPreserves(r, v);
    case Or(l, r) => TransformPreserves(l, v); TransformPreserves(r, v);
    case Not(a) =>
      TransformPreserves(a, v);
      var t := Transform(a);
      match t {
        case Not(b) => TransformPreserves(b, v);
        case Or(l, r) => PushWeight(l, r); TransformPreserves(And(Not(l), Not(r)), v);
        case And(l, r) => PushWeight(l, r); TransformPreserves(Or(Not(l), Not(r)), v);
        case Sym(s) => assert TypedAt(v, s) && TypedAt(v, SymYes) && TypedAt(v, SymNo);
        case _ =>
      }
  }

  // ----- expr_trans_compare -----

  datatype Comparison = CompareEqual | CompareUnequal {
    function Flip(): Comparison {
      if this == CompareEqual then CompareUnequal else CompareEqual
    }

    /** Whether `x` compares like this with `y`. */
    predicate Holds(x: Tri, y: Tri) {
      if this == CompareEqual then x == y else x != y
    }

    function Make(a: Symbol, b: Symbol): Expr {
      if this == CompareEqual then Equal(a, b) else Unequal(a, b)
    }
  }

  /** The value of one of the constants y and n. */
  function ConstVal(y: bool): Tri { if y then YES else NO }

  function ConstSym(y: bool): Symbol { if y then SymYes else SymNo }

  /** expr_trans_compare(e, op, y) for `toYes` and expr_trans_compare(e, op, n)
      otherwise. */
  function TransCompare(e: Expr, op: Comparison, toYes: bool): Expr
  {
    match e
    case And(l, r) =>
      var a := TransCompare(l, CompareEqual, toYes);
      var b := TransCompare(r, CompareEqual, toYes);
      NegateIf(op, if toYes then And(a, b) else Or(a, b))
    case Or(l, r) =>
      var a := TransCompare(l, CompareEqual, toYes);
      var b := TransCompare(r, CompareEqual, toYes);
      NegateIf(op, if toYes then Or(a, b) else And(a, b))
    case Not(a) => TransCompare(a, op.Flip(), toYes)
    case Equal(_, _) => if (op == CompareEqual) == toYes then e else Not(e)
    case Unequal(_, _) => if (op == CompareEqual) == toYes then e else Not(e)
    case Sym(s) => op.Make(s, ConstSym(toYes))
  }

  function NegateIf(op: Comparison, e: Expr): Expr {
    if op == CompareUnequal then Not(e) else e
  }

  /** Symbols whose string value is the name of their tristate. */
  predicate IsLogicalOrConstant(s: Symbol) {
    IsLogical(s) || s == SymYes || s == SymMod || s == SymNo
  }

  /** The value against a constant as the code takes it: an operand symbol counts
      as the constant exactly when its string is the constant's name. */
  function EvalAgainst(e: Expr, v: Valuation, toYes: bool): Tri {
    match e
    case Sym(s) => ConstVal(if v.str(s) == TriName(ConstVal(toYes)) then toYes else !toYes)
    case Not(a) => Neg(EvalAgainst(a, v, toYes))
    case And(l, r) => Min(EvalAgainst(l, v, toYes), EvalAgainst(r, v, toYes))
    case Or(l, r) => Max(EvalAgainst(l, v, toYes), EvalAgainst(r, v, toYes))
    case _ => Eval(e, v)
  }

  lemma {:induction false} AgainstIsTwoValued(e: Expr, v: Valuation, toYes: bool)
    ensures EvalAgainst(e, v, toYes) != MOD
  {
    match e
    case Not(a) => AgainstIsTwoValued(a, v, toYes);
    case And(l, r) => AgainstIsTwoValued(l, v, toYes); AgainstIsTwoValued(r, v, toYes);
    case Or(l, r) => AgainstIsTwoValued(l, v, toYes); AgainstIsTwoValued(r, v, toYes);
    case _ =>
  }

  /** What the code computes, for every expression and typed valuation. */
  lemma {:induction false} TransCompareMeaning(e: Expr, op: Comparison, toYes: bool, v: Valuation)
    requires Typed(v)
    ensures Eval(TransCompare(e, op, toYes), v) ==
            FromBool(op.Holds(EvalAgainst(e, v, toYes), ConstVal(toYes)))
  {
    match e
    case Sym(s) => assert TypedAt(v, ConstSym(toYes));
    case Not(a) =>
      TransCompareMeaning(a, op.Flip(), toYes, v);
      AgainstIsTwoValued(a, v, toYes);
    case And(l, r) =>
      TransCompareMeaning(l, CompareEqual, toYes, v);
      TransCompareMeaning(r, CompareEqual, toYes, v);
      AgainstIsTwoValued(l, v, toYes);
      AgainstIsTwoValued(r, v, toYes);
    case Or(l, r) =>
      TransCompareMeaning(l, CompareEqual, toYes, v);
      TransCompareMeaning(r, CompareEqual, toYes, v);
      AgainstIsTwoValued(l, v, toYes);
      AgainstIsTwoValued(r, v, toYes);
    case _ =>
  }

  /** The result says whether the value of `e` compares so with the constant. */
  ghost predicate ComparesRight(e: Expr, op: Comparison, toYes: bool, v: Valuation) {
    Eval(TransCompare(e, op, toYes), v) == FromBool(op.Holds(Eval(e, v), ConstVal(toYes)))
  }

  /** Being right does not depend on the comparison asked for. */
  lemma RightMeans(e: Expr, op: Comparison, toYes: bool, v: Valuation)
    requires Typed(v)
    ensures ComparesRight(e, op, toYes, v) <==>
            (EvalAgainst(e, v, toYes) == ConstVal(toYes) <==> Eval(e, v) == ConstVal(toYes))
  {
    TransCompareMeaning(e, op, toYes, v);
  }

  /** The symbol branch compares strings. It is right exactly for symbols whose
      string is the name of their tristate, and for other symbols, which are n, when
      their string is not "y" against y and is "n" against n. */
  lemma TransCompareSymbolExact(s: Symbol, op: Comparison, toYes: bool, v: Valuation)
    requires Typed(v)
    ensures ComparesRight(Sym(s), op, toYes, v) <==>
            IsLogicalOrConstant(s) || (if toYes then v.str(s) != "y" else v.str(s) == "n")
  {
    assert TypedAt(v, s) && TypedAt(v, ConstSym(toYes));
    RightMeans(Sym(s), op, toYes, v);
    TriNameInjective(v.tri(s), ConstVal(toYes));
    assert TriName(YES) == "y" && TriName(NO) == "n" && TriName(MOD) == "m";
    TriNameInjective(YES, NO);
  }

  /** Every operand symbol passes the condition of the symbol branch. */
  predicate SymbolsAgree(e: Expr, toYes: bool, v: Valuation) {
    match e
    case Sym(s) => IsLogicalOrConstant(s) || (if toYes then v.str(s) != "y" else v.str(s) == "n")
    case Not(a) => SymbolsAgree(a, toYes, v)
    case And(l, r) => SymbolsAgree(l, toYes, v) && SymbolsAgree(r, toYes, v)
    case Or(l, r) => SymbolsAgree(l, toYes, v) && SymbolsAgree(r, toYes, v)
    case _ => true
  }

  /** No operand of a negation is mod. */
  predicate NoModNegated(e: Expr, v: Valuation) {
    match e
    case Not(a) => Eval(a, v) != MOD && NoModNegated(a, v)
    case And(l, r) => NoModNegated(l, v) && NoModNegated(r, v)
    case Or(l, r) => NoModNegated(l, v) && NoModNegated(r, v)
    case _ => true
  }

  /** Under the two conditions a comparison of the whole is right. */
  lemma {:induction false} TransCompareCorrect(e: Expr, op: Comparison, toYes: bool, v: Valuation)
    requires Typed(v) && NoModNegated(e, v) && SymbolsAgree(e, toYes, v)
    ensures ComparesRight(e, op, toYes, v)
  {
    hide TransCompare;
    RightMeans(e, op, toYes, v);
    match e
    case Sym(s) => TransCompareSymbolExact(s, op, toYes, v);
    case Not(a) =>
      TransCompareCorrect(a, op, toYes, v);
      TransCompareNegationExact(a, op, toYes, v);
    case And(l, r) =>
      TransCompareCorrect(l, op, toYes, v);
      TransCompareCorrect(r, op, toYes, v);
      RightMeans(l, op, toYes, v);
      RightMeans(r, op, toYes, v);
    case Or(l, r) =>
      TransCompareCorrect(l, op, toYes, v);
      TransCompareCorrect(r, op, toYes, v);
      RightMeans(l, op, toYes, v);
      RightMeans(r, op, toYes, v);
    case _ =>
  }

  /** Above a negation the answer turns wrong, or right again, exactly when the
      negated operand is mod. */
  lemma TransCompareNegationExact(a: Expr, op: Comparison, toYes: bool, v: Valuation)
    requires Typed(v)
    ensures ComparesRight(Not(a), op, toYes, v) <==> (ComparesRight(a, op, toYes, v) <==> Eval(a, v) != MOD)
  {
    RightMeans(Not(a), op, toYes, v);
    RightMeans(a, op, toYes, v);
    AgainstIsTwoValued(a, v, toYes);
  }

  /** A symbol with no type is n, yet its comparison with n says it is not. */
  lemma TransCompareUntypedSymbol(name: string, v: Valuation)
    requires Typed(v)
    requires name != "n"
    ensures !ComparesRight(Sym(Config(name, UnknownType)), CompareUnequal, false, v)
  {
    assert TypedAt(v, Config(name, UnknownType));
    TransCompareSymbolExact(Config(name, UnknownType), CompareUnequal, false, v);
  }
}
