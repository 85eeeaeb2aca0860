/** Structural equality modulo reordering, by cancelling common operands
    (expr_eq, expr_eliminate_eq, expr_extract_eq of external/kconfig/expr.c).
    The two expressions never share nodes, so a pair of slots is a pair of
    values. */
module KconfigEq {
  import opened KconfigExpr

  // ----- expr_eq, __expr_eliminate_eq and expr_eliminate_eq -----

  /** __expr_eliminate_eq: walks the operands of e1 against those of e2 and
      replaces each pair found equal by the unit of the connective. */
  function CancelOperands(t: Conn, e1: Expr, e2: Expr): (r: (Expr, Expr))
    ensures Size(r.0) <= Size(e1) && Size(r.1) <= Size(e2)
    decreases Size(e1) + Size(e2), if Is(t, e1) || Is(t, e2) then 0 else 4
  {
    if Is(t, e1) then
      var a := CancelOperands(t, e1.l, e2);
      var b := CancelOperands(t, e1.r, a.1);
      (t.Make(a.0, b.0), b.1)
    else if Is(t, e2) then
      var a := CancelOperands(t, e1, e2.l);
      var b := CancelOperands(t, a.0, e2.r);
      (b.0, t.Make(a.1, b.1))
    else if e1 == e2 && IsYesNo(e1) then (e1, e2)
    else if !ExprEq(e1, e2) then (e1, e2)
    else (t.Unit(), t.Unit())
  }

  function EliminateEq(e1: Expr, e2: Expr): (r: (Expr, Expr))
    ensures Size(r.0) <= Size(e1) && Size(r.1) <= Size(e2)
    decreases Size(e1) + Size(e2), 2
  {
    var a := CancelFirst(e1, e2);
    var b := CancelSecond(a.0, a.1);
    (EliminateYn(b.0), EliminateYn(b.1))
  }

  /** The first switch of expr_eliminate_eq: on the type of e1. */
  function CancelFirst(e1: Expr, e2: Expr): (r: (Expr, Expr))
    ensures Size(r.0) <= Size(e1) && Size(r.1) <= Size(e2)
    decreases Size(e1) + Size(e2), 1
  {
    if e1.Or? then CancelOperands(OrConn, e1, e2)
    else if e1.And? then CancelOperands(AndConn, e1, e2)
    else (e1, e2)
  }

  /** The second switch: on the type of e2, when it is not that of e1. */
  function CancelSecond(e1: Expr, e2: Expr): (r: (Expr, Expr))
    ensures Size(r.0) <= Size(e1) && Size(r.1) <= Size(e2)
    decreases Size(e1) + Size(e2), 1
  {
    if e2.Or? && !e1.Or? then CancelOperands(OrConn, e1, e2)
    else if e2.And? && !e1.And? then CancelOperands(AndConn, e1, e2)
    else (e1, e2)
  }

  predicate ExprEq(e1: Expr, e2: Expr)
    decreases Size(e1) + Size(e2), 3
  {
    match (e1, e2)
    case (Equal(_, _), Equal(_, _)) => e1 == e2
    case (Unequal(_, _), Unequal(_, _)) => e1 == e2
    case (Sym(_), Sym(_)) => e1 == e2
    case (Not(a), Not(b)) => ExprEq(a, b)
    case (And(_, _), And(_, _)) => BothSame(EliminateEq(e1, e2))
    case (Or(_, _), Or(_, _)) => BothSame(EliminateEq(e1, e2))
    case _ => false
  }

  predicate BothSame(p: (Expr, Expr)) {
    p.0.Sym? && p.0 == p.1
  }

  // ----- The cancelled factor -----

  /** The operand that CancelOperands removes from both sides. */
  function CancelledFactor(t: Conn, e1: Expr, e2: Expr): Expr
    decreases Size(e1) + Size(e2)
  {
    if Is(t, e1) then
      var a := CancelOperands(t, e1.l, e2);
      t.Make(CancelledFactor(t, e1.l, e2), CancelledFactor(t, e1.r, a.1))
    else if Is(t, e2) then
      var a := CancelOperands(t, e1, e2.l);
      t.Make(CancelledFactor(t, e1, e2.l), CancelledFactor(t, a.0, e2.r))
    else if (e1 == e2 && IsYesNo(e1)) || !ExprEq(e1, e2) then t.Unit()
    else e1
  }

  /** Two successive factors c1 and c2 combine: `a` loses c1, `b` loses c2, and
      the other side loses both. */
  lemma FactorsCombine(t: Conn, c1: Tri, c2: Tri, a: Tri, b: Tri, other: Tri)
    ensures t.Op(t.Op(c1, a), t.Op(c2, b)) == t.Op(t.Op(c1, c2), t.Op(a, b))
    ensures t.Op(c1, t.Op(c2, other)) == t.Op(t.Op(c1, c2), other)
  {
  }

  /** One common factor c with old1 = c OP new1 and old2 = c OP new2. */
  lemma {:induction false} CancelOperandsLaw(t: Conn, e1: Expr, e2: Expr, v: Valuation)
    requires Typed(v)
    ensures var r, c := CancelOperands(t, e1, e2), Eval(CancelledFactor(t, e1, e2), v);
            && Eval(e1, v) == t.Op(c, Eval(r.0, v))
            && Eval(e2, v) == t.Op(c, Eval(r.1, v))
    decreases Size(e1) + Size(e2), if Is(t, e1) || Is(t, e2) then 0 else 4
  {
    hide ExprEq, Typed, Eval, Conn.Op;
    if Is(t, e1) {
      var a := CancelOperands(t, e1.l, e2);
      var b := CancelOperands(t, e1.r, a.1);
      var f, g := CancelledFactor(t, e1.l, e2), CancelledFactor(t, e1.r, a.1);
      CancelOperandsLaw(t, e1.l, e2, v);
      CancelOperandsLaw(t, e1.r, a.1, v);
      EvalConn(t, e1, v);
      EvalMake(t, a.0, b.0, v);
      EvalMake(t, f, g, v);
      FactorsCombine(t, Eval(f, v), Eval(g, v), Eval(a.0, v), Eval(b.0, v), Eval(b.1, v));
    } else if Is(t, e2) {
      var a := CancelOperands(t, e1, e2.l);
      var b := CancelOperands(t, a.0, e2.r);
      var f, g := CancelledFactor(t, e1, e2.l), CancelledFactor(t, a.0, e2.r);
      CancelOperandsLaw(t, e1, e2.l, v);
      CancelOperandsLaw(t, a.0, e2.r, v);
      EvalConn(t, e2, v);
      EvalMake(t, a.1, b.1, v);
      EvalMake(t, f, g, v);
      FactorsCombine(t, Eval(f, v), Eval(g, v), Eval(a.1, v), Eval(b.1, v), Eval(b.0, v));
    } else {
      EvalUnit(t, Eval(e1, v), v);
      EvalUnit(t, Eval(e2, v), v);
      if !(e1 == e2 && IsYesNo(e1)) && ExprEq(e1, e2) {
        ExprEqSound(e1, e2, v);
      }
    }
  }

  /** Two expressions that expr_eq equates have the same value everywhere. */
  lemma {:induction false} ExprEqSound(e1: Expr, e2: Expr, v: Valuation)
    requires Typed(v) && ExprEq(e1, e2)
    ensures Eval(e1, v) == Eval(e2, v)
    decreases Size(e1) + Size(e2), 3
  {
    if e1.Not? {
      ExprEqSound(e1.arg, e2.arg, v);
    } else if e1.And? || e1.Or? {
      var t := if e1.And? then AndConn else OrConn;
      var a := CancelFirst(e1, e2);
      CancelOperandsLaw(t, e1, e2, v);
      CancelKeepsRoot(t, e1, e2);
      assert BothSame(EliminateEq(e1, e2));
      assert CancelSecond(a.0, a.1) == a;
      EliminateYnPreserves(a.0, v);
      EliminateYnPreserves(a.1, v);
    }
  }

  /** A slot whose node is the walked connective keeps that node. */
  lemma {:induction false} CancelKeepsRoot(t: Conn, e1: Expr, e2: Expr)
    ensures Is(t, e1) ==> Is(t, CancelOperands(t, e1, e2).0)
    ensures Is(t, e2) ==> Is(t, CancelOperands(t, e1, e2).1)
    decreases Size(e1) + Size(e2)
  {
    if Is(t, e1) {
      var a := CancelOperands(t, e1.l, e2);
      CancelKeepsRoot(t, e1.l, e2);
      CancelKeepsRoot(t, e1.r, a.1);
    }
  }

  /** No slot becomes a connective that it was not. */
  lemma {:induction false} CancelMakesNoRoot(t: Conn, e1: Expr, e2: Expr, u: Conn)
    ensures Is(u, CancelOperands(t, e1, e2).0) ==> Is(u, e1)
    ensures Is(u, CancelOperands(t, e1, e2).1) ==> Is(u, e2)
    decreases Size(e1) + Size(e2)
  {
    hide ExprEq;
    if Is(t, e1) {
      var a := CancelOperands(t, e1.l, e2);
      CancelMakesNoRoot(t, e1.l, e2, u);
      CancelMakesNoRoot(t, e1.r, a.1, u);
    } else if Is(t, e2) {
      var a := CancelOperands(t, e1, e2.l);
      CancelMakesNoRoot(t, e1, e2.l, u);
      CancelMakesNoRoot(t, a.0, e2.r, u);
    }
  }

  /** One of the two switches: a factor for the connective t, or nothing. */
  ghost predicate Factored(t: Conn, e1: Expr, e2: Expr, r: (Expr, Expr), v: Valuation, c: Tri) {
    Eval(e1, v) == t.Op(c, Eval(r.0, v)) && Eval(e2, v) == t.Op(c, Eval(r.1, v))
  }

  lemma CancelFirstLaw(e1: Expr, e2: Expr, t: Conn, v: Valuation) returns (c: Tri)
    requires Typed(v) && (e1.And? || e1.Or? ==> Is(t, e1))
    ensures Factored(t, e1, e2, CancelFirst(e1, e2), v, c)
  {
    hide ExprEq, CancelOperands, CancelledFactor;
    if e1.And? || e1.Or? {
      CancelOperandsLaw(t, e1, e2, v);
      c := Eval(CancelledFactor(t, e1, e2), v);
    } else {
      c := t.UnitVal();
    }
  }

  lemma CancelSecondLaw(e1: Expr, e2: Expr, t: Conn, v: Valuation) returns (c: Tri)
    requires Typed(v) && (e2.And? || e2.Or? ==> Is(t, e2))
    ensures Factored(t, e1, e2, CancelSecond(e1, e2), v, c)
  {
    hide ExprEq, CancelOperands, CancelledFactor;
    if (e2.And? || e2.Or?) && !Is(t, e1) {
      CancelOperandsLaw(t, e1, e2, v);
      c := Eval(CancelledFactor(t, e1, e2), v);
    } else {
      c := t.UnitVal();
    }
  }

  /** expr_eliminate_eq removes a factor for e1's connective and then one for
      e2's, the same from both expressions; t1 and t2 are free for an expression
      that is not a connective. */
  lemma EliminateEqLaw(e1: Expr, e2: Expr, t1: Conn, t2: Conn, v: Valuation)
    requires Typed(v)
    requires (e1.And? || e1.Or? ==> Is(t1, e1)) && (e2.And? || e2.Or? ==> Is(t2, e2))
    ensures exists c1: Tri, c2: Tri ::
              var r := EliminateEq(e1, e2);
              && Eval(e1, v) == t1.Op(c1, t2.Op(c2, Eval(r.0, v)))
              && Eval(e2, v) == t1.Op(c1, t2.Op(c2, Eval(r.1, v)))
  {
    var a := CancelFirst(e1, e2);
    if e1.And? || e1.Or? {
      CancelMakesNoRoot(t1, e1, e2, AndConn);
      CancelMakesNoRoot(t1, e1, e2, OrConn);
    }
    assert a.1.And? || a.1.Or? ==> Is(t2, a.1);
    hide ExprEq, CancelFirst, CancelSecond, EliminateYn;
    var b := CancelSecond(a.0, a.1);
    var c1 := CancelFirstLaw(e1, e2, t1, v);
    var c2 := CancelSecondLaw(a.0, a.1, t2, v);
    EliminateYnPreserves(b.0, v);
    EliminateYnPreserves(b.1, v);
    var r := EliminateEq(e1, e2);
    assert Eval(e1, v) == t1.Op(c1, t2.Op(c2, Eval(r.0, v)));
  }

  // ----- expr_extract_eq -----

  datatype Option<+T> = None | Some(value: T)

  datatype Extraction = Extraction(common: Option<Expr>, e1: Expr, e2: Expr)

  /** expr_extract_eq: like CancelOperands, but collects what it removes. */
  function ExtractOperands(t: Conn, acc: Option<Expr>, e1: Expr, e2: Expr): (r: Extraction)
    ensures Size(r.e1) <= Size(e1) && Size(r.e2) <= Size(e2)
    decreases Size(e1) + Size(e2)
  {
    if Is(t, e1) then
      var a := ExtractOperands(t, acc, e1.l, e2);
      var b := ExtractOperands(t, a.common, e1.r, a.e2);
      Extraction(b.common, t.Make(a.e1, b.e1), b.e2)
    else if Is(t, e2) then
      var a := ExtractOperands(t, acc, e1, e2.l);
      var b := ExtractOperands(t, a.common, a.e1, e2.r);
      Extraction(b.common, b.e1, t.Make(a.e2, b.e2))
    else if ExprEq(e1, e2) then
      Extraction(Some(if acc.Some? then t.Make(acc.value, e1) else e1), t.Unit(), t.Unit())
    else
      Extraction(acc, e1, e2)
  }

  /** expr_extract_eq_and and expr_extract_eq_or. */
  function ExtractEq(t: Conn, e1: Expr, e2: Expr): Extraction {
    var x := ExtractOperands(t, None, e1, e2);
    if x.common.Some? then Extraction(x.common, EliminateYn(x.e1), EliminateYn(x.e2)) else x
  }

  function EvalFactor(t: Conn, c: Option<Expr>, v: Valuation): Tri {
    if c.Some? then Eval(c.value, v) else t.UnitVal()
  }

  /** The factor grows from c0 to c1 to c2 while `a` and then `b` shrink. */
  lemma FactorsGrow(t: Conn, c0: Tri, c1: Tri, c2: Tri, a: Tri, a': Tri, b: Tri, b': Tri)
    requires t.Op(c0, a) == t.Op(c1, a') && t.Op(c1, b) == t.Op(c2, b')
    requires t.Op(c0, c1) == c1 && t.Op(c1, c2) == c2
    ensures t.Op(c0, t.Op(a, b)) == t.Op(c2, t.Op(a', b'))
    ensures t.Op(c0, c2) == c2
  {
  }

  lemma {:induction false} ExtractOperandsLaw(t: Conn, acc: Option<Expr>, e1: Expr, e2: Expr, v: Valuation)
    requires Typed(v)
    ensures var x := ExtractOperands(t, acc, e1, e2);
            var c0, c := EvalFactor(t, acc, v), EvalFactor(t, x.common, v);
            && t.Op(c0, Eval(e1, v)) == t.Op(c, Eval(x.e1, v))
            && t.Op(c0, Eval(e2, v)) == t.Op(c, Eval(x.e2, v))
            && t.Op(c0, c) == c
    decreases Size(e1) + Size(e2)
  {
    hide ExprEq, Typed, Eval, Conn.Op;
    var c0 := EvalFactor(t, acc, v);
    if Is(t, e1) {
      var a := ExtractOperands(t, acc, e1.l, e2);
      var b := ExtractOperands(t, a.common, e1.r, a.e2);
      ExtractOperandsLaw(t, acc, e1.l, e2, v);
      ExtractOperandsLaw(t, a.common, e1.r, a.e2, v);
      EvalConn(t, e1, v);
      EvalMake(t, a.e1, b.e1, v);
      FactorsGrow(t, c0, EvalFactor(t, a.common, v), EvalFactor(t, b.common, v),
                  Eval(e1.l, v), Eval(a.e1, v), Eval(e1.r, v), Eval(b.e1, v));
    } else if Is(t, e2) {
      var a := ExtractOperands(t, acc, e1, e2.l);
      var b := ExtractOperands(t, a.common, a.e1, e2.r);
      ExtractOperandsLaw(t, acc, e1, e2.l, v);
      ExtractOperandsLaw(t, a.common, a.e1, e2.r, v);
      EvalConn(t, e2, v);
      EvalMake(t, a.e2, b.e2, v);
      FactorsGrow(t, c0, EvalFactor(t, a.common, v), EvalFactor(t, b.common, v),
                  Eval(e2.l, v), Eval(a.e2, v), Eval(e2.r, v), Eval(b.e2, v));
    } else {
      EvalUnit(t, c0, v);
      if ExprEq(e1, e2) {
        ExprEqSound(e1, e2, v);
        EvalUnit(t, Eval(e1, v), v);
        EvalUnit(t, t.Op(c0, Eval(e1, v)), v);
        OpLaws(t, c0, c0, Eval(e1, v));
        if acc.Some? {
          EvalMake(t, acc.value, e1, v);
        }
      }
    }
  }

  /** The extracted expression is a common factor of both inputs. */
  lemma ExtractEqLaw(t: Conn, e1: Expr, e2: Expr, v: Valuation)
    requires Typed(v)
    ensures var x := ExtractEq(t, e1, e2);
            var c := EvalFactor(t, x.common, v);
            && Eval(e1, v) == t.Op(c, Eval(x.e1, v))
            && Eval(e2, v) == t.Op(c, Eval(x.e2, v))
  {
    var x := ExtractOperands(t, None, e1, e2);
    ExtractOperandsLaw(t, None, e1, e2, v);
    EliminateYnPreserves(x.e1, v);
    EliminateYnPreserves(x.e2, v);
  }
}
