/** Kconfig dependency expressions: symbols, three-valued meaning and constant
    elimination (external/kconfig/expr.c, expr.h). */
module KconfigExpr {

  // ----- Three-valued logic -----

  /** no = 0, mod = 1, yes = 2, ordered as the source's enum. */
  type Tri = x: int | 0 <= x <= 2

  const NO: Tri := 0
  const MOD: Tri := 1
  const YES: Tri := 2

  function Min(x: Tri, y: Tri): Tri { if x < y then x else y }

  function Max(x: Tri, y: Tri): Tri { if x > y then x else y }

  function Neg(x: Tri): Tri { 2 - x }

  function FromBool(b: bool): Tri { if b then YES else NO }

  // ----- Symbols and valuations -----

  datatype SymbolType = UnknownType | BooleanType | TristateType | IntType | HexType | StringType

  /** The name of a constant other than y, m and n, which the symbol table maps
      to the three predefined symbols. */
  type ConstName = s: string | s != "y" && s != "m" && s != "n" witness ""

  /** Symbols are compared by identity; the table keeps one symbol per name and
      constness, so equality of these values is identity of symbols. */
  datatype Symbol =
    | SymYes
    | SymMod
    | SymNo
    | Const(constName: ConstName)
    | Config(name: string, kind: SymbolType)

  function TypeOf(s: Symbol): SymbolType {
    if s.Config? then s.kind else UnknownType
  }

  /** A current value for every symbol: its tristate and its string. */
  datatype Valuation = Valuation(tri: Symbol -> Tri, str: Symbol -> string)

  function TriName(x: Tri): string {
    if x == NO then "n" else if x == MOD then "m" else "y"
  }

  predicate IsLogical(s: Symbol) {
    TypeOf(s) == BooleanType || TypeOf(s) == TristateType
  }

  predicate TypedAt(v: Valuation, s: Symbol) {
    match s
    case SymYes => v.tri(s) == YES && v.str(s) == "y"
    case SymMod => v.tri(s) == MOD && v.str(s) == "m"
    case SymNo => v.tri(s) == NO && v.str(s) == "n"
    case Const(n) => v.tri(s) == NO && v.str(s) == n
    case Config(_, k) =>
      && (k == BooleanType ==> v.tri(s) != MOD)
      && (IsLogical(s) ==> v.str(s) == TriName(v.tri(s)))
      && (!IsLogical(s) ==> v.tri(s) == NO)
      && (k == UnknownType ==> v.str(s) == s.name)
  }

  /** The valuations that sym_calc_value can produce. */
  ghost predicate Typed(v: Valuation) {
    forall s: Symbol :: TypedAt(v, s)
  }

  lemma TriNameInjective(x: Tri, y: Tri)
    ensures TriName(x) == TriName(y) <==> x == y
  {
    assert "y"[0] != "n"[0] && "y"[0] != "m"[0] && "m"[0] != "n"[0];
  }

  // ----- Expressions -----

  datatype Expr =
    | Sym(sym: Symbol)
    | Not(arg: Expr)
    | And(l: Expr, r: Expr)
    | Or(l: Expr, r: Expr)
    | Equal(ls: Symbol, rs: Symbol)
    | Unequal(ls: Symbol, rs: Symbol)

  function Eval(e: Expr, v: Valuation): Tri {
    match e
    case Sym(s) => v.tri(s)
    case Not(a) => Neg(Eval(a, v))
    case And(l, r) => Min(Eval(l, v), Eval(r, v))
    case Or(l, r) => Max(Eval(l, v), Eval(r, v))
    case Equal(a, b) => FromBool(v.str(a) == v.str(b))
    case Unequal(a, b) => FromBool(v.str(a) != v.str(b))
  }

  /** Node count. */
  function Size(e: Expr): nat {
    match e
    case Not(a) => 1 + Size(a)
    case And(l, r) => 1 + Size(l) + Size(r)
    case Or(l, r) => 1 + Size(l) + Size(r)
    case _ => 1
  }

  // ----- The two connectives -----

  datatype Conn = AndConn | OrConn {
    function Other(): Conn { if this == AndConn then OrConn else AndConn }

    function Op(x: Tri, y: Tri): Tri { if this == AndConn then Min(x, y) else Max(x, y) }

    function UnitVal(): Tri { if this == AndConn then YES else NO }

    /** The neutral constant of the connective. */
    function Unit(): Expr { Sym(if this == AndConn then SymYes else SymNo) }

    /** The absorbing constant of the connective. */
    function Zero(): Expr { Sym(if this == AndConn then SymNo else SymYes) }

    function Make(l: Expr, r: Expr): Expr { if this == AndConn then And(l, r) else Or(l, r) }
  }

  predicate Is(t: Conn, e: Expr) {
    if t == AndConn then e.And? else e.Or?
  }

  predicate IsYes(e: Expr) { e == Sym(SymYes) }

  predicate IsNo(e: Expr) { e == Sym(SymNo) }

  predicate IsYesNo(e: Expr) { IsYes(e) || IsNo(e) }

  lemma EvalMake(t: Conn, l: Expr, r: Expr, v: Valuation)
    ensures Eval(t.Make(l, r), v) == t.Op(Eval(l, v), Eval(r, v))
  {
  }

  lemma EvalConn(t: Conn, e: Expr, v: Valuation)
    requires Is(t, e)
    ensures Eval(e, v) == t.Op(Eval(e.l, v), Eval(e.r, v))
  {
  }

  lemma EvalUnit(t: Conn, x: Tri, v: Valuation)
    requires Typed(v)
    ensures Eval(t.Unit(), v) == t.UnitVal()
    ensures t.Op(t.UnitVal(), x) == x == t.Op(x, t.UnitVal())
    ensures t.Op(x, x) == x
  {
    UnitValues(v);
  }

  lemma UnitValues(v: Valuation)
    requires Typed(v)
    ensures v.tri(SymYes) == YES && v.tri(SymNo) == NO
  {
    assert TypedAt(v, SymYes) && TypedAt(v, SymNo);
  }

  lemma OpLaws(t: Conn, x: Tri, y: Tri, z: Tri)
    ensures t.Op(x, y) == t.Op(y, x)
    ensures t.Op(t.Op(x, y), z) == t.Op(x, t.Op(y, z))
    ensures t.Op(x, x) == x
    ensures t.Op(t.UnitVal(), x) == x == t.Op(x, t.UnitVal())
  {
  }

  // ----- expr_eliminate_yn -----

  /** Folds y and n out of conjunctions and disjunctions; negations are not
      entered. */
  function EliminateYn(e: Expr): (r: Expr)
    ensures Size(r) <= Size(e)
  {
    match e
    case And(_, _) =>
      var l := EliminateYn(e.l);
      var r := EliminateYn(e.r);
      if IsNo(l) then Sym(SymNo)
      else if IsYes(l) then r
      else if IsNo(r) then Sym(SymNo)
      else if IsYes(r) then l
      else And(l, r)
    case Or(_, _) =>
      var l := EliminateYn(e.l);
      var r := EliminateYn(e.r);
      if IsNo(l) then r
      else if IsYes(l) then Sym(SymYes)
      else if IsNo(r) then l
      else if IsYes(r) then Sym(SymYes)
      else Or(l, r)
    case _ => e
  }

  lemma {:induction false} EliminateYnPreserves(e: Expr, v: Valuation)
    requires Typed(v)
    ensures Eval(EliminateYn(e), v) == Eval(e, v)
  {
    assert TypedAt(v, SymYes) && TypedAt(v, SymNo);
    if e.And? || e.Or? {
      EliminateYnPreserves(e.l, v);
      EliminateYnPreserves(e.r, v);
    }
  }

  /** Some conjunction or disjunction outside every negation has y or n as a
      direct operand. */
  predicate HasConst(e: Expr) {
    (e.And? || e.Or?) && (IsYesNo(e.l) || IsYesNo(e.r) || HasConst(e.l) || HasConst(e.r))
  }

  /** The elimination removes every y and n operand, changes nothing when there
      is none, and otherwise makes the expression smaller. */
  lemma {:induction false} EliminateYnExact(e: Expr)
    ensures !HasConst(EliminateYn(e))
    ensures HasConst(e) <==> Size(EliminateYn(e)) < Size(e)
    ensures !HasConst(e) <==> EliminateYn(e) == e
  {
    if e.And? || e.Or? {
      EliminateYnExact(e.l);
      EliminateYnExact(e.r);
    }
  }
}
