/** When the rule of expr_eliminate_dups2 applies, and that its pass leaves no pair
    to which it does (external/kconfig/expr.c). */
module KconfigContradict {
  import opened KconfigExpr
  import opened KconfigEq
  import opened KconfigDups
  import opened KconfigEqExact
  import KconfigTransform

  // ----- What expr_extract_eq takes out -----

  /** Without the absorbing constant, each side keeps what the other does not have. */
  predicate Extracted(t: Conn, e1: Expr, e2: Expr, x: Extraction) {
    && Walkable(t, x.e1) && Live(t, x.e1) == Live(t, e1) - Live(t, e2) && !HasZero(t, x.e1)
    && Walkable(t, x.e2) && Live(t, x.e2) == Live(t, e2) - Live(t, e1) && !HasZero(t, x.e2)
  }

  lemma ExtractLeavesStep(t: Conn, acc: Option<Expr>, e1: Expr, e2: Expr)
    requires !Is(t, e1) && !Is(t, e2)
    ensures var x := ExtractOperands(t, acc, e1, e2);
            (x.e1, x.e2) == if ExprEq(e1, e2) then (t.Unit(), t.Unit()) else (e1, e2)
  {
    hide ExprEq;
  }

  lemma ExtractLeaves(t: Conn, acc: Option<Expr>, e1: Expr, e2: Expr)
    requires !Is(t, e1) && !Is(t, e2) && Walkable(t, e1) && Walkable(t, e2) && !HasZero(t, e1) && !HasZero(t, e2)
    ensures Extracted(t, e1, e2, ExtractOperands(t, acc, e1, e2))
  {
    LeafLive(t, e1);
    LeafLive(t, e2);
    ExprEqExact(e1, e2);
    ExtractLeavesStep(t, acc, e1, e2);
    hide ExprEq, ExtractOperands, Live, Walkable, HasZero, FormOf, Clean;
    if !ExprEq(e1, e2) {
      KeepLeaves(t, e1, e2);
    } else {
      LeafForm(e1, e2);
      if IsYesNo(e1) {
        UnitIsClean(t);
        LeafLive(t, t.Unit());
      } else {
        DropLeaves(t, e1, e2);
      }
    }
  }

  lemma {:induction false} ExtractExact(t: Conn, acc: Option<Expr>, e1: Expr, e2: Expr)
    requires Walkable(t, e1) && Walkable(t, e2) && !HasZero(t, e1) && !HasZero(t, e2)
    ensures Extracted(t, e1, e2, ExtractOperands(t, acc, e1, e2))
    decreases Size(e1) + Size(e2)
  {
    hide ExprEq, Clean;
    if Is(t, e1) {
      var a := ExtractOperands(t, acc, e1.l, e2);
      var b := ExtractOperands(t, a.common, e1.r, a.e2);
      ExtractExact(t, acc, e1.l, e2);
      ExtractExact(t, a.common, e1.r, a.e2);
      MadeLive(t, e1.l, e1.r);
      MadeLive(t, a.e1, b.e1);
      hide Live, Walkable, HasZero;
      Differences(Live(t, e1.l), Live(t, e1.r), Live(t, e2));
    } else if Is(t, e2) {
      var a := ExtractOperands(t, acc, e1, e2.l);
      var b := ExtractOperands(t, a.common, a.e1, e2.r);
      ExtractExact(t, acc, e1, e2.l);
      ExtractExact(t, a.common, a.e1, e2.r);
      MadeLive(t, e2.l, e2.r);
      MadeLive(t, a.e2, b.e2);
      hide Live, Walkable, HasZero;
      Differences(Live(t, e2.l), Live(t, e2.r), Live(t, e1));
    } else {
      ExtractLeaves(t, acc, e1, e2);
    }
  }

  /** With nothing collected nothing was taken out. */
  lemma {:induction false} ExtractNothing(t: Conn, acc: Option<Expr>, e1: Expr, e2: Expr)
    ensures var x := ExtractOperands(t, acc, e1, e2); x.common.None? ==> acc.None? && x.e1 == e1 && x.e2 == e2
    decreases Size(e1) + Size(e2)
  {
    hide ExprEq;
    if Is(t, e1) {
      var a := ExtractOperands(t, acc, e1.l, e2);
      ExtractNothing(t, acc, e1.l, e2);
      ExtractNothing(t, a.common, e1.r, a.e2);
    } else if Is(t, e2) {
      var a := ExtractOperands(t, acc, e1, e2.l);
      ExtractNothing(t, acc, e1, e2.l);
      ExtractNothing(t, a.common, a.e1, e2.r);
    }
  }

  lemma NothingMore(x: multiset<Form>, y: multiset<Form>)
    ensures x - y == multiset{} <==> x <= y
  {
    if x - y == multiset{} {
      forall f ensures x[f] <= y[f] {
        assert (x - y)[f] == 0;
      }
    }
  }

  /** e1 becomes the neutral constant exactly when all of its operands are in e2. */
  lemma ExtractsAll(t: Conn, e1: Expr, e2: Expr)
    requires Clean(e1) && Clean(e2) && !IsYesNo(e1) && !IsYesNo(e2)
    ensures ExtractEq(t, e1, e2).e1 == t.Unit() <==> FormsOf(t, e1) <= FormsOf(t, e2)
  {
    hide ExtractOperands, Live, Walkable, HasZero, FormOf, FormsOf, Clean, EliminateYn;
    var x := ExtractOperands(t, None, e1, e2);
    CleanIsWalkable(t, e1);
    CleanIsWalkable(t, e2);
    ExtractExact(t, None, e1, e2);
    NothingMore(FormsOf(t, e1), FormsOf(t, e2));
    UnitIsClean(t);
    if x.common.None? {
      ExtractNothing(t, None, e1, e2);
      HasForm(t, e1);
    } else {
      FoldKeepsLive(t, x.e1);
      NotUnit(t, EliminateYn(x.e1));
    }
  }

  lemma NotUnit(t: Conn, e: Expr)
    ensures !IsYesNo(e) ==> e != t.Unit()
  {
  }

  lemma {:induction false} HasForm(t: Conn, e: Expr)
    ensures FormsOf(t, e) != multiset{}
  {
    if Is(t, e) {
      HasForm(t, e.l);
    } else {
      assert FormOf(e) in FormsOf(t, e);
    }
  }

  /** The rule applies exactly when each operand of the negation of e1 is one of e2,
      up to order, as often. */
  lemma ContradictsExactly(t: Conn, e1: Expr, e2: Expr)
    requires var n := KconfigTransform.Transform(Not(e1)); Clean(n) && Clean(e2) && !IsYesNo(n) && !IsYesNo(e2)
    ensures Contradicts(t, e1, e2) <==> FormsOf(t, KconfigTransform.Transform(Not(e1))) <= FormsOf(t, e2)
  {
    ExtractsAll(t, KconfigTransform.Transform(Not(e1)), e2);
  }

  // ----- The pass leaves no such pair -----

  /** A second pass that changes nothing has compared every operand below p0 with every
      node of the connective below q0. */
  lemma {:induction false} QuietSecondWalk(t: Conn, e: Expr, p0: Path, q0: Path, p: Path, q: Path)
    requires Is(t, e) && OnSpine(t, e, p0) && OnSpine(t, e, q0) && Dups2(t, e, p0, q0).count == 0
    requires IsOperand(t, e, p) && OnSpine(t, e, q) && p != q && p0 <= p && q0 <= q
    ensures Is(t.Other(), At(t, e, p)) ==> !Contradicts(t, At(t, e, p), At(t, e, q))
    decreases |p| - |p0| + |q| - |q0|
  {
    hide Contradicts;
    if Is(t, At(t, e, p0)) {
      StepDown(t, e, p0, false);
      StepDown(t, e, p0, true);
      assert p != p0;
      var b := p[|p0|];
      assert p0 + [b] <= p;
      QuietSecondWalk(t, e, p0 + [b], q0, p, q);
    } else {
      PrefixOfOperand(t, e, p0, p);
      if Is(t, At(t, e, q0)) && q != q0 {
        StepDown(t, e, q0, false);
        StepDown(t, e, q0, true);
        var b := q[|q0|];
        assert q0 + [b] <= q;
        QuietSecondWalk(t, e, p0, q0 + [b], p, q);
      } else {
        if !Is(t, At(t, e, q0)) {
          PrefixOfOperand(t, e, q0, q);
        } else {
          StepDown(t, e, q0, false);
          StepDown(t, e, q0, true);
        }
        PutFacts(t, e, p, At(t, e, p));
      }
    }
  }

  /** In the result of expr_eliminate_dups the rule applies to no operand and no part of
      the connective. */
  lemma EliminateDupsNoContradiction(e: Expr, p: Path, q: Path)
    ensures var r := EliminateDups(e);
            var t := ConnOf(r);
            (r.And? || r.Or?) && IsOperand(t, r, p) && OnSpine(t, r, q) && p != q && Is(t.Other(), At(t, r, p)) ==>
              !Contradicts(t, At(t, r, p), At(t, r, q))
  {
    EliminateDupsQuiet(e);
    var r := EliminateDups(e);
    var t := ConnOf(r);
    if (r.And? || r.Or?) && IsOperand(t, r, p) && OnSpine(t, r, q) && p != q {
      QuietSecondWalk(t, r, [], [], p, q);
    }
  }
}
