/** Joining two operands of one connective into one (expr_join_or and
    expr_join_and of external/kconfig/expr.c). */
module KconfigJoin {
  import opened KconfigExpr
  import opened KconfigEq

  /** The symbol an operand speaks about, when the join rules look at it.  The
      first operand may be a negated comparison, the second may not. */
  function JoinSymbol(e: Expr, first: bool): Option<Symbol> {
    match e
    case Sym(s) => Some(s)
    case Equal(s, _) => Some(s)
    case Unequal(s, _) => Some(s)
    case Not(Sym(s)) => Some(s)
    case Not(Equal(s, _)) => if first then Some(s) else None
    case Not(Unequal(s, _)) => if first then Some(s) else None
    case _ => None
  }

  /** One operand compares with x and the other with y, in either order. */
  predicate RightSides(e1: Expr, e2: Expr, x: Symbol, y: Symbol)
    requires (e1.Equal? || e1.Unequal?) && (e2.Equal? || e2.Unequal?)
  {
    (e1.rs == x && e2.rs == y) || (e1.rs == y && e2.rs == x)
  }

  /** e1 || e2 as one operand, if a rule applies. */
  function JoinOr(e1: Expr, e2: Expr): (r: Option<Expr>)
    ensures r.Some? ==> Size(r.value) + 1 <= Size(e1) + Size(e2)
  {
    if ExprEq(e1, e2) then Some(e1) else
    var s1 := JoinSymbol(e1, true);
    var s2 := JoinSymbol(e2, false);
    if s1.None? || s2.None? || s1 != s2 then None else
    var s := s1.value;
    if TypeOf(s) == TristateType && e1.Equal? && e2.Equal? then
      if RightSides(e1, e2, SymYes, SymMod) then Some(Unequal(s, SymNo))
      else if RightSides(e1, e2, SymYes, SymNo) then Some(Unequal(s, SymMod))
      else if RightSides(e1, e2, SymMod, SymNo) then Some(Unequal(s, SymYes))
      else None
    else if TypeOf(s) == BooleanType &&
            ((e1 == Not(Sym(s)) && e2 == Sym(s)) || (e2 == Not(Sym(s)) && e1 == Sym(s))) then
      Some(Sym(SymYes))
    else None
  }

  /** `a` is the symbol itself and `b` compares it, as `kind`, with c. */
  predicate SymbolWith(a: Expr, b: Expr, equal: bool, c: Symbol) {
    a.Sym? && (if equal then b.Equal? && b.rs == c else b.Unequal? && b.rs == c)
  }

  predicate EitherSymbolWith(e1: Expr, e2: Expr, equal: bool, c: Symbol) {
    SymbolWith(e1, e2, equal, c) || SymbolWith(e2, e1, equal, c)
  }

  /** (a = b) && (a != c), when both right sides are constants. */
  function JoinEqualUnequal(s: Symbol, b: Symbol, c: Symbol): Option<Expr> {
    if b.Config? || c.Config? then None
    else if b != c then Some(Equal(s, b))
    else Some(Sym(SymNo))
  }

  /** e1 && e2 as one operand, if a rule applies. */
  function JoinAnd(e1: Expr, e2: Expr): (r: Option<Expr>)
    ensures r.Some? ==> Size(r.value) + 1 <= Size(e1) + Size(e2)
  {
    if ExprEq(e1, e2) then Some(e1) else
    var s1 := JoinSymbol(e1, true);
    var s2 := JoinSymbol(e2, false);
    if s1.None? || s2.None? || s1 != s2 then None else
    var s := s1.value;
    if !IsLogical(s) then None
    else if EitherSymbolWith(e1, e2, true, SymYes) then Some(Equal(s, SymYes))
    else if EitherSymbolWith(e1, e2, false, SymNo) then Some(Sym(s))
    else if EitherSymbolWith(e1, e2, false, SymMod) then Some(Equal(s, SymYes))
    else if TypeOf(s) != TristateType then None
    else if e1.Equal? && e2.Unequal? then JoinEqualUnequal(s, e1.rs, e2.rs)
    else if e1.Unequal? && e2.Equal? then JoinEqualUnequal(s, e2.rs, e1.rs)
    else if e1.Unequal? && e2.Unequal? then
      if RightSides(e1, e2, SymYes, SymNo) then Some(Equal(s, SymMod))
      else if RightSides(e1, e2, SymYes, SymMod) then Some(Equal(s, SymNo))
      else if RightSides(e1, e2, SymMod, SymNo) then Some(Equal(s, SymYes))
      else None
    else None
  }

  function Join(t: Conn, e1: Expr, e2: Expr): (r: Option<Expr>)
    ensures r.Some? ==> Size(r.value) + 1 <= Size(e1) + Size(e2)
  {
    if t == AndConn then JoinAnd(e1, e2) else JoinOr(e1, e2)
  }

  lemma LogicalStrings(s: Symbol, v: Valuation)
    requires Typed(v) && IsLogical(s)
    ensures v.str(s) == v.str(SymYes) <==> v.tri(s) == YES
    ensures v.str(s) == v.str(SymMod) <==> v.tri(s) == MOD
    ensures v.str(s) == v.str(SymNo) <==> v.tri(s) == NO
  {
    assert TypedAt(v, s) && TypedAt(v, SymYes) && TypedAt(v, SymMod) && TypedAt(v, SymNo);
    TriNameInjective(v.tri(s), YES);
    TriNameInjective(v.tri(s), MOD);
    TriNameInjective(v.tri(s), NO);
  }

  lemma ConstantStringsDiffer(b: Symbol, c: Symbol, v: Valuation)
    requires Typed(v) && !b.Config? && !c.Config?
    ensures v.str(b) == v.str(c) <==> b == c
  {
    assert TypedAt(v, b) && TypedAt(v, c);
    TriNameInjective(YES, MOD);
    TriNameInjective(YES, NO);
    TriNameInjective(MOD, NO);
    assert TriName(YES) == "y" && TriName(NO) == "n" && TriName(MOD) == "m";
  }

  lemma JoinOrPreserves(e1: Expr, e2: Expr, v: Valuation)
    requires Typed(v) && JoinOr(e1, e2).Some?
    ensures Eval(JoinOr(e1, e2).value, v) == Max(Eval(e1, v), Eval(e2, v))
  {
    if ExprEq(e1, e2) {
      ExprEqSound(e1, e2, v);
    } else {
      var s := JoinSymbol(e1, true).value;
      assert TypedAt(v, s) && TypedAt(v, SymYes);
      LogicalStrings(s, v);
    }
  }

  lemma JoinAndPreserves(e1: Expr, e2: Expr, v: Valuation)
    requires Typed(v) && JoinAnd(e1, e2).Some?
    ensures Eval(JoinAnd(e1, e2).value, v) == Min(Eval(e1, v), Eval(e2, v))
  {
    if ExprEq(e1, e2) {
      ExprEqSound(e1, e2, v);
    } else {
      var s := JoinSymbol(e1, true).value;
      assert TypedAt(v, s) && TypedAt(v, SymNo);
      LogicalStrings(s, v);
      if (e1.Equal? && e2.Unequal?) || (e1.Unequal? && e2.Equal?) {
        if !e1.rs.Config? && !e2.rs.Config? {
          ConstantStringsDiffer(e1.rs, e2.rs, v);
        }
      }
    }
  }

  /** A joined operand has the value of the pair it replaces, in full
      three-valued logic, for every typed valuation. */
  lemma JoinPreserves(t: Conn, e1: Expr, e2: Expr, v: Valuation)
    requires Typed(v) && Join(t, e1, e2).Some?
    ensures Eval(Join(t, e1, e2).value, v) == t.Op(Eval(e1, v), Eval(e2, v))
  {
    if t == AndConn {
      JoinAndPreserves(e1, e2, v);
    } else {
      JoinOrPreserves(e1, e2, v);
    }
  }

  /** Joining yields an operand, never the connective whose operands it joins. */
  lemma JoinKeepsOperand(t: Conn, e1: Expr, e2: Expr)
    requires !Is(t, e1) && Join(t, e1, e2).Some?
    ensures !Is(t, Join(t, e1, e2).value)
  {
  }

  // ----- Which pairs are joined -----

  const CONSTANTS: set<Symbol> := {SymYes, SymMod, SymNo}

  /** s and !s for a boolean s. */
  predicate Complement(x: Expr, y: Expr) {
    x.Sym? && y == Not(x) && TypeOf(x.sym) == BooleanType
  }

  /** s=b and s=c for a tristate s and two of y, m, n. */
  predicate TwoEqual(x: Expr, y: Expr) {
    && x.Equal? && y.Equal? && x.ls == y.ls && TypeOf(x.ls) == TristateType
    && x.rs != y.rs && {x.rs, y.rs} <= CONSTANTS
  }

  /** s!=b and s!=c for a tristate s and two of y, m, n. */
  predicate TwoUnequal(x: Expr, y: Expr) {
    && x.Unequal? && y.Unequal? && x.ls == y.ls && TypeOf(x.ls) == TristateType
    && x.rs != y.rs && {x.rs, y.rs} <= CONSTANTS
  }

  /** s=b and s!=c for a tristate s and constants b and c. */
  predicate EqualAndUnequal(x: Expr, y: Expr) {
    x.Equal? && y.Unequal? && x.ls == y.ls && TypeOf(x.ls) == TristateType && !x.rs.Config? && !y.rs.Config?
  }

  /** s with s=y, s!=n or s!=m, for a boolean or tristate s. */
  predicate SymbolAndComparison(x: Expr, y: Expr) {
    && x.Sym? && IsLogical(x.sym)
    && y in {Equal(x.sym, SymYes), Unequal(x.sym, SymNo), Unequal(x.sym, SymMod)}
  }

  /** The pairs that the rules join, beside equal operands. */
  predicate Clash(t: Conn, x: Expr, y: Expr) {
    if t == OrConn then Complement(x, y) || Complement(y, x) || TwoEqual(x, y)
    else
      || SymbolAndComparison(x, y) || SymbolAndComparison(y, x)
      || EqualAndUnequal(x, y) || EqualAndUnequal(y, x) || TwoUnequal(x, y)
  }

  lemma LiteralsEqual(x: Expr, y: Expr)
    requires x.Sym? || x.Equal? || x.Unequal? || x.Not?
    ensures ExprEq(x, y) ==> (x.Sym? || x.Equal? || x.Unequal? ==> x == y) && (x.Not? <==> y.Not?)
  {
  }

  lemma OrJoinsExactly(x: Expr, y: Expr)
    ensures JoinOr(x, y).Some? <==> ExprEq(x, y) || Clash(OrConn, x, y)
    ensures Clash(OrConn, x, y) ==> !ExprEq(x, y) && JoinOr(x, y).Some? && var r := JoinOr(x, y).value;
                                    r.Sym? || r.Equal? || r.Unequal?
  {
    if Clash(OrConn, x, y) {
      LiteralsEqual(x, y);
    }
    hide ExprEq;
  }

  lemma AndJoinsExactly(x: Expr, y: Expr)
    ensures JoinAnd(x, y).Some? <==> ExprEq(x, y) || Clash(AndConn, x, y)
    ensures Clash(AndConn, x, y) ==> !ExprEq(x, y) && JoinAnd(x, y).Some? && var r := JoinAnd(x, y).value;
                                     r.Sym? || r.Equal? || r.Unequal?
  {
    if Clash(AndConn, x, y) {
      LiteralsEqual(x, y);
    }
    hide ExprEq;
  }

  /** Exactly these pairs are joined, into one symbol or comparison. */
  lemma JoinsExactly(t: Conn, x: Expr, y: Expr)
    ensures Join(t, x, y).Some? <==> ExprEq(x, y) || Clash(t, x, y)
    ensures Clash(t, x, y) ==> !ExprEq(x, y) && Join(t, x, y).Some? && var r := Join(t, x, y).value;
                               r.Sym? || r.Equal? || r.Unequal?
  {
    if t == OrConn {
      OrJoinsExactly(x, y);
    } else {
      AndJoinsExactly(x, y);
    }
  }
}
