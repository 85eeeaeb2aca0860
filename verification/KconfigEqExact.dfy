/** What expr_eq decides (external/kconfig/expr.c): on expressions without y and n
    operands, equality up to the order and grouping of operands at every depth. */
module KconfigEqExact {
  import opened KconfigExpr
  import opened KconfigEq
  import opened KconfigJoin
  import opened KconfigDups
  import opened KconfigReflexive

  // ----- Normal forms -----

  /** An expression with the operands of each connective as a multiset. */
  datatype Form = Atom(e: Expr) | Negation(arg: Form) | Operation(t: Conn, operands: multiset<Form>)

  function FormOf(e: Expr): Form
    decreases Size(e), 1
  {
    match e
    case Not(a) => Negation(FormOf(a))
    case And(_, _) => Operation(AndConn, FormsOf(AndConn, e))
    case Or(_, _) => Operation(OrConn, FormsOf(OrConn, e))
    case _ => Atom(e)
  }

  /** The operands of connective t in e. */
  function FormsOf(t: Conn, e: Expr): multiset<Form>
    decreases Size(e), if Is(t, e) then 0 else 2
  {
    if Is(t, e) then FormsOf(t, e.l) + FormsOf(t, e.r) else multiset{FormOf(e)}
  }

  /** No operand of a connective is y or n, at any depth. */
  predicate Clean(e: Expr) {
    match e
    case Not(a) => Clean(a)
    case And(l, r) => Clean(l) && Clean(r) && !IsYesNo(l) && !IsYesNo(r)
    case Or(l, r) => Clean(l) && Clean(r) && !IsYesNo(l) && !IsYesNo(r)
    case _ => true
  }

  // ----- The walk -----

  /** Every operand of connective t is y, n or clean. */
  predicate Walkable(t: Conn, e: Expr) {
    if Is(t, e) then Walkable(t, e.l) && Walkable(t, e.r) else Clean(e)
  }

  /** The operands that are not y or n. */
  function Live(t: Conn, e: Expr): multiset<Form> {
    if Is(t, e) then Live(t, e.l) + Live(t, e.r)
    else if IsYesNo(e) then multiset{}
    else multiset{FormOf(e)}
  }

  /** Some operand is the absorbing constant. */
  predicate HasZero(t: Conn, e: Expr) {
    if Is(t, e) then HasZero(t, e.l) || HasZero(t, e.r) else e == t.Zero()
  }

  lemma {:induction false} CleanIsWalkable(t: Conn, e: Expr)
    requires Clean(e)
    ensures Walkable(t, e)
    ensures !IsYesNo(e) ==> Live(t, e) == FormsOf(t, e) && !HasZero(t, e)
  {
    if Is(t, e) {
      CleanIsWalkable(t, e.l);
      CleanIsWalkable(t, e.r);
    }
  }

  lemma Differences(l: multiset<Form>, r: multiset<Form>, e: multiset<Form>)
    ensures (l - e) + (r - (e - l)) == (l + r) - e
    ensures (e - l) - r == e - (l + r)
  {
  }

  /** The walk leaves on each side what the other does not have. */
  predicate Cancelled(t: Conn, e1: Expr, e2: Expr, r: (Expr, Expr)) {
    && Walkable(t, r.0) && Live(t, r.0) == Live(t, e1) - Live(t, e2) && (HasZero(t, r.0) <==> HasZero(t, e1))
    && Walkable(t, r.1) && Live(t, r.1) == Live(t, e2) - Live(t, e1) && (HasZero(t, r.1) <==> HasZero(t, e2))
  }

  lemma LeafLive(t: Conn, e: Expr)
    requires !Is(t, e)
    ensures Live(t, e) == if IsYesNo(e) then multiset{} else multiset{FormOf(e)}
    ensures (Walkable(t, e) <==> Clean(e)) && (HasZero(t, e) <==> e == t.Zero())
    ensures IsYesNo(e) ==> FormOf(e) == Atom(e)
  {
  }

  lemma MadeLive(t: Conn, l: Expr, r: Expr)
    ensures var e := t.Make(l, r);
            && Live(t, e) == Live(t, l) + Live(t, r) && (Walkable(t, e) <==> Walkable(t, l) && Walkable(t, r))
            && (HasZero(t, e) <==> HasZero(t, l) || HasZero(t, r))
  {
  }

  lemma CancelLeavesStep(t: Conn, e1: Expr, e2: Expr)
    requires !Is(t, e1) && !Is(t, e2)
    ensures CancelOperands(t, e1, e2) ==
            if (e1 == e2 && IsYesNo(e1)) || !ExprEq(e1, e2) then (e1, e2) else (t.Unit(), t.Unit())
  {
    hide ExprEq;
  }

  lemma UnitIsClean(t: Conn)
    ensures var unit := t.Unit();
            !Is(t, unit) && Clean(unit) && IsYesNo(unit) && unit != t.Zero()
  {
  }

  lemma SingleDifference(f: Form, g: Form)
    ensures multiset{f} - multiset{g} == if f == g then multiset{} else multiset{f}
  {
  }

  /** Two operands that do not match stay as they are. */
  lemma KeepLeaves(t: Conn, e1: Expr, e2: Expr)
    requires !Is(t, e1) && !Is(t, e2) && Clean(e1) && Clean(e2)
    requires IsYesNo(e1) || IsYesNo(e2) || FormOf(e1) != FormOf(e2)
    ensures Cancelled(t, e1, e2, (e1, e2))
  {
    hide Live, Walkable, HasZero, FormOf, Clean;
    LeafLive(t, e1);
    LeafLive(t, e2);
    SingleDifference(FormOf(e1), FormOf(e2));
    SingleDifference(FormOf(e2), FormOf(e1));
  }

  /** Two that match leave the neutral constant. */
  lemma DropLeaves(t: Conn, e1: Expr, e2: Expr)
    requires !Is(t, e1) && !Is(t, e2) && Clean(e1) && Clean(e2)
    requires !IsYesNo(e1) && !IsYesNo(e2) && FormOf(e1) == FormOf(e2)
    ensures Cancelled(t, e1, e2, (t.Unit(), t.Unit()))
  {
    UnitIsClean(t);
    hide Live, Walkable, HasZero, FormOf, Clean;
    LeafLive(t, e1);
    LeafLive(t, e2);
    LeafLive(t, t.Unit());
    NoZero(t, e1);
    NoZero(t, e2);
  }

  lemma NoZero(t: Conn, e: Expr)
    ensures !IsYesNo(e) ==> e != t.Zero()
  {
  }

  lemma CancelLeaves(t: Conn, e1: Expr, e2: Expr)
    requires !Is(t, e1) && !Is(t, e2) && Clean(e1) && Clean(e2)
    requires ExprEq(e1, e2) <==> FormOf(e1) == FormOf(e2)
    ensures Cancelled(t, e1, e2, CancelOperands(t, e1, e2))
  {
    hide ExprEq, CancelOperands, Cancelled, FormOf, Clean;
    CancelLeavesStep(t, e1, e2);
    if !ExprEq(e1, e2) {
      KeepLeaves(t, e1, e2);
    } else {
      LeafForm(e1, e2);
      if IsYesNo(e1) {
        KeepLeaves(t, e1, e2);
      } else {
        DropLeaves(t, e1, e2);
      }
    }
  }

  lemma LeafForm(e1: Expr, e2: Expr)
    requires FormOf(e1) == FormOf(e2)
    ensures e1.Sym? || e2.Sym? ==> e1 == e2
  {
  }

  lemma CombineFirst(t: Conn, l: Expr, r: Expr, e2: Expr, a: (Expr, Expr), b: (Expr, Expr))
    requires Cancelled(t, l, e2, a) && Cancelled(t, r, a.1, b)
    ensures Cancelled(t, t.Make(l, r), e2, (t.Make(a.0, b.0), b.1))
  {
    MadeLive(t, l, r);
    MadeLive(t, a.0, b.0);
    hide Live, Walkable, HasZero;
    Differences(Live(t, l), Live(t, r), Live(t, e2));
  }

  lemma CombineSecond(t: Conn, e1: Expr, l: Expr, r: Expr, a: (Expr, Expr), b: (Expr, Expr))
    requires Cancelled(t, e1, l, a) && Cancelled(t, a.0, r, b)
    ensures Cancelled(t, e1, t.Make(l, r), (b.0, t.Make(a.1, b.1)))
  {
    MadeLive(t, l, r);
    MadeLive(t, a.1, b.1);
    hide Live, Walkable, HasZero;
    Differences(Live(t, l), Live(t, r), Live(t, e1));
  }

  lemma {:induction false} CancelExact(t: Conn, e1: Expr, e2: Expr)
    requires Walkable(t, e1) && Walkable(t, e2)
    ensures Cancelled(t, e1, e2, CancelOperands(t, e1, e2))
    decreases Size(e1) + Size(e2), if Is(t, e1) || Is(t, e2) then 0 else 4
  {
    hide ExprEq, Clean, Cancelled;
    if Is(t, e1) {
      var a := CancelOperands(t, e1.l, e2);
      var b := CancelOperands(t, e1.r, a.1);
      CancelExact(t, e1.l, e2);
      CancelledIsWalkable(t, e1.l, e2, a);
      CancelExact(t, e1.r, a.1);
      CombineFirst(t, e1.l, e1.r, e2, a, b);
    } else if Is(t, e2) {
      var a := CancelOperands(t, e1, e2.l);
      var b := CancelOperands(t, a.0, e2.r);
      CancelExact(t, e1, e2.l);
      CancelledIsWalkable(t, e1, e2.l, a);
      CancelExact(t, a.0, e2.r);
      CombineSecond(t, e1, e2.l, e2.r, a, b);
    } else {
      ExprEqExact(e1, e2);
      CancelLeaves(t, e1, e2);
    }
  }

  lemma CancelledIsWalkable(t: Conn, e1: Expr, e2: Expr, r: (Expr, Expr))
    requires Cancelled(t, e1, e2, r)
    ensures Walkable(t, r.0) && Walkable(t, r.1)
  {
  }

  // ----- What is left -----

  lemma {:induction false} CleanIsFolded(e: Expr)
    requires Clean(e)
    ensures EliminateYn(e) == e
  {
    if e.And? || e.Or? {
      CleanIsFolded(e.l);
      CleanIsFolded(e.r);
    }
  }

  lemma FoldStep(t: Conn, e: Expr)
    requires Is(t, e)
    ensures var l, r := EliminateYn(e.l), EliminateYn(e.r);
            EliminateYn(e) ==
            if l == t.Zero() then t.Zero() else if l == t.Unit() then r
            else if r == t.Zero() then t.Zero() else if r == t.Unit() then l
            else t.Make(l, r)
  {
  }

  lemma FormsMade(t: Conn, l: Expr, r: Expr)
    ensures FormsOf(t, t.Make(l, r)) == FormsOf(t, l) + FormsOf(t, r) && !IsYesNo(t.Make(l, r))
  {
  }

  /** Folding keeps the live operands, and a constant remains if there are none. */
  lemma {:induction false} FoldKeepsLive(t: Conn, e: Expr)
    requires Walkable(t, e)
    ensures var f := EliminateYn(e);
            if HasZero(t, e) then f == t.Zero()
            else if Live(t, e) == multiset{} then f == t.Unit()
            else !IsYesNo(f) && FormsOf(t, f) == Live(t, e)
  {
    if Is(t, e) {
      FoldKeepsLive(t, e.l);
      FoldKeepsLive(t, e.r);
      FoldStep(t, e);
      var l, r := EliminateYn(e.l), EliminateYn(e.r);
      FormsMade(t, l, r);
      hide EliminateYn, FormsOf, FormOf;
    } else {
      CleanIsFolded(e);
      assert Live(t, e) == if IsYesNo(e) then multiset{} else multiset{FormOf(e)};
      hide EliminateYn, FormOf, Clean;
    }
  }

  lemma NothingLeft(x: multiset<Form>, y: multiset<Form>)
    ensures x - y == multiset{} && y - x == multiset{} <==> x == y
    ensures forall f :: !(f in x - y && f in y - x)
  {
    if x - y == multiset{} && y - x == multiset{} {
      forall f ensures x[f] == y[f] {
        assert (x - y)[f] == 0 && (y - x)[f] == 0;
      }
    }
  }

  lemma ExprEqByWalk(t: Conn, e1: Expr, e2: Expr)
    requires Is(t, e1) && Is(t, e2)
    ensures var r := CancelOperands(t, e1, e2);
            ExprEq(e1, e2) <==> BothSame((EliminateYn(r.0), EliminateYn(r.1)))
  {
    CancelKeepsRoot(t, e1, e2);
    var r := CancelOperands(t, e1, e2);
    assert CancelFirst(e1, e2) == r && CancelSecond(r.0, r.1) == r;
  }

  /** A connective is equated with another exactly when the walk cancels all of
      their operands, or both fold to the absorbing constant. */
  lemma ConnectivesExact(t: Conn, e1: Expr, e2: Expr)
    requires Is(t, e1) && Is(t, e2) && Walkable(t, e1) && Walkable(t, e2)
    requires Cancelled(t, e1, e2, CancelOperands(t, e1, e2))
    ensures ExprEq(e1, e2) <==>
            (HasZero(t, e1) && HasZero(t, e2)) ||
            (!HasZero(t, e1) && !HasZero(t, e2) && Live(t, e1) == Live(t, e2))
  {
    var r := CancelOperands(t, e1, e2);
    ExprEqByWalk(t, e1, e2);
    FoldKeepsLive(t, r.0);
    FoldKeepsLive(t, r.1);
    NothingLeft(Live(t, e1), Live(t, e2));
    hide Walkable, EliminateYn, CancelOperands, HasZero, ExprEq;
    var f1, f2 := EliminateYn(r.0), EliminateYn(r.1);
    assert f1.Sym? ==> FormsOf(t, f1) == multiset{Atom(f1)};
  }

  lemma FormOfConnective(t: Conn, e: Expr)
    requires Is(t, e)
    ensures FormOf(e) == Operation(t, FormsOf(t, e)) && !IsYesNo(e)
  {
  }

  /** On clean expressions expr_eq decides equality of the normal forms. */
  lemma {:induction false} ExprEqExact(e1: Expr, e2: Expr)
    requires Clean(e1) && Clean(e2)
    ensures ExprEq(e1, e2) <==> FormOf(e1) == FormOf(e2)
    decreases Size(e1) + Size(e2), 3
  {
    if e1.Not? && e2.Not? {
      ExprEqExact(e1.arg, e2.arg);
    } else if (e1.And? && e2.And?) || (e1.Or? && e2.Or?) {
      var t := if e1.And? then AndConn else OrConn;
      CleanIsWalkable(t, e1);
      CleanIsWalkable(t, e2);
      CancelExact(t, e1, e2);
      ConnectivesExact(t, e1, e2);
      FormOfConnective(t, e1);
      FormOfConnective(t, e2);
      hide ExprEq, FormOf, FormsOf, Clean;
    } else {
      assert ExprEq(e1, e2) <==> e1 == e2 && !e1.Not? && !e1.And? && !e1.Or?;
      hide ExprEq, FormsOf;
    }
  }

  // ----- Reordering and regrouping -----

  function LiveAmong(s: seq<Expr>): multiset<Form> {
    if s == [] then multiset{}
    else LiveAmong(s[1..]) + if IsYesNo(s[0]) then multiset{} else multiset{FormOf(s[0])}
  }

  lemma {:induction false} LiveAmongConcat(x: seq<Expr>, y: seq<Expr>)
    ensures LiveAmong(x + y) == LiveAmong(x) + LiveAmong(y)
  {
    if x == [] {
      assert x + y == y;
    } else {
      assert (x + y)[1..] == x[1..] + y;
      LiveAmongConcat(x[1..], y);
    }
  }

  lemma WithoutOne(x: seq<Expr>, y: seq<Expr>, k: nat)
    requires multiset(x) == multiset(y) && x != [] && k < |y| && y[k] == x[0]
    ensures multiset(x[1..]) == multiset(y[..k] + y[k + 1..])
  {
    assert x == [x[0]] + x[1..] && y == y[..k] + [y[k]] + y[k + 1..];
    assert multiset(x) == multiset{x[0]} + multiset(x[1..]);
    assert multiset(y) == multiset(y[..k]) + multiset{x[0]} + multiset(y[k + 1..]);
    assert multiset(y[..k] + y[k + 1..]) == multiset(y[..k]) + multiset(y[k + 1..]);
    forall f ensures multiset(x[1..])[f] == multiset(y[..k] + y[k + 1..])[f] {
      assert multiset(x)[f] == multiset(y)[f];
    }
  }

  lemma LiveAmongAt(y: seq<Expr>, k: nat)
    requires k < |y|
    ensures LiveAmong(y) ==
            LiveAmong(y[..k] + y[k + 1..]) + if IsYesNo(y[k]) then multiset{} else multiset{FormOf(y[k])}
  {
    hide FormOf, IsYesNo;
    var front, tail, one := y[..k], y[k..], if IsYesNo(y[k]) then multiset{} else multiset{FormOf(y[k])};
    assert front + tail == y && tail[1..] == y[k + 1..] && tail[0] == y[k];
    assert LiveAmong(tail) == LiveAmong(tail[1..]) + one;
    LiveAmongConcat(front, y[k + 1..]);
    LiveAmongConcat(front, tail);
    hide LiveAmong;
    Regroup(LiveAmong(front), LiveAmong(tail[1..]), one);
  }

  lemma Regroup(x: multiset<Form>, y: multiset<Form>, z: multiset<Form>)
    ensures x + (y + z) == (x + y) + z
  {
  }

  lemma {:induction false} LiveAmongReordered(x: seq<Expr>, y: seq<Expr>)
    requires multiset(x) == multiset(y)
    ensures LiveAmong(x) == LiveAmong(y)
  {
    if x != [] {
      assert x[0] in multiset(x);
      var k :| 0 <= k < |y| && y[k] == x[0];
      WithoutOne(x, y, k);
      LiveAmongReordered(x[1..], y[..k] + y[k + 1..]);
      LiveAmongAt(y, k);
      hide FormOf, IsYesNo;
    } else {
      assert |y| == |multiset(y)| == 0;
    }
  }

  predicate AllClean(s: seq<Expr>) {
    forall i {:trigger s[i]} :: 0 <= i < |s| ==> Clean(s[i])
  }

  lemma AllCleanConcat(x: seq<Expr>, y: seq<Expr>)
    ensures AllClean(x + y) <==> AllClean(x) && AllClean(y)
  {
    hide Clean;
    assert forall i {:trigger x[i]} :: 0 <= i < |x| ==> x[i] == (x + y)[i];
    assert forall i {:trigger y[i]} :: 0 <= i < |y| ==> y[i] == (x + y)[|x| + i];
  }

  lemma {:induction false} WalkByOperands(t: Conn, e: Expr)
    ensures Live(t, e) == LiveAmong(Operands(t, e))
    ensures Walkable(t, e) <==> AllClean(Operands(t, e))
    ensures HasZero(t, e) <==> t.Zero() in Operands(t, e)
  {
    hide Clean, FormOf;
    if Is(t, e) {
      WalkByOperands(t, e.l);
      WalkByOperands(t, e.r);
      LiveAmongConcat(Operands(t, e.l), Operands(t, e.r));
      AllCleanConcat(Operands(t, e.l), Operands(t, e.r));
      hide AllClean;
    } else {
      OperandOnly(t, e);
      LeafLive(t, e);
      assert AllClean([e]) <==> Clean([e][0]);
    }
  }

  /** For connectives with clean operands, y and n among them: equal if and only if
      n (or y for an OR) is an operand of both, or of neither and the other
      operands are the same up to order, at every depth. */
  lemma ExprEqOfOperands(t: Conn, e1: Expr, e2: Expr)
    requires Is(t, e1) && Is(t, e2)
    requires AllClean(Operands(t, e1)) && AllClean(Operands(t, e2))
    ensures var s1, s2, zero := Operands(t, e1), Operands(t, e2), t.Zero();
            ExprEq(e1, e2) <==>
            (zero in s1 && zero in s2) || (zero !in s1 && zero !in s2 && LiveAmong(s1) == LiveAmong(s2))
  {
    WalkByOperands(t, e1);
    WalkByOperands(t, e2);
    CancelExact(t, e1, e2);
    ConnectivesExact(t, e1, e2);
  }

  lemma SameMembers(s1: seq<Expr>, s2: seq<Expr>, x: Expr)
    requires multiset(s1) == multiset(s2) && AllClean(s1)
    ensures AllClean(s2) && (x in s1 <==> x in s2)
  {
    hide Clean;
    assert x in s1 <==> x in multiset(s1);
    assert x in s2 <==> x in multiset(s2);
    forall i {:trigger s2[i]} | 0 <= i < |s2| ensures Clean(s2[i]) {
      assert s2[i] in multiset(s2);
      assert s2[i] in s1;
    }
  }

  /** The operands may come in any order and grouping. */
  lemma ReorderedEqual(t: Conn, e1: Expr, e2: Expr)
    requires Is(t, e1) && Is(t, e2) && multiset(Operands(t, e1)) == multiset(Operands(t, e2))
    requires AllClean(Operands(t, e1))
    ensures ExprEq(e1, e2)
  {
    var s1, s2 := Operands(t, e1), Operands(t, e2);
    SameMembers(s1, s2, t.Zero());
    LiveAmongReordered(s1, s2);
    hide AllClean, Operands, LiveAmong, ExprEq;
    ExprEqOfOperands(t, e1, e2);
  }

  // ----- What expr_eliminate_dups leaves -----

  /** Two operands that the source neither equates nor joins. */
  predicate Apart(t: Conn, x: Expr, y: Expr) {
    !ExprEq(x, y) && !Clash(t, x, y) && (Clean(x) && Clean(y) ==> FormOf(x) != FormOf(y))
  }

  /** In a settled connective all operands are apart, and each is settled itself. */
  lemma SettledApart(t: Conn, e: Expr, p: Path, q: Path)
    requires Is(t, e) && Settled(t, e) && IsOperand(t, e, p) && IsOperand(t, e, q) && p != q
    ensures Apart(t, At(t, e, p), At(t, e, q))
    ensures Is(t.Other(), At(t, e, p)) ==> Settled(t.Other(), At(t, e, p))
  {
    var x, y := At(t, e, p), At(t, e, q);
    QuietWalk(t, e, [], [], p, q);
    JoinsExactly(t, x, y);
    hide ExprEq, FormOf, Clash, Join, Settled;
    if Clean(x) && Clean(y) {
      ExprEqExact(x, y);
    }
  }

  /** No two operands of the result are equal up to order, and no rule of the
      source applies to two of them. */
  lemma EliminateDupsApart(e: Expr, p: Path, q: Path)
    ensures var r := EliminateDups(e);
            var t := ConnOf(r);
            (r.And? || r.Or?) && IsOperand(t, r, p) && IsOperand(t, r, q) && p != q ==>
              && Apart(t, At(t, r, p), At(t, r, q))
              && (Is(t.Other(), At(t, r, p)) ==> Settled(t.Other(), At(t, r, p)))
  {
    EliminateDupsQuiet(e);
    var r := EliminateDups(e);
    if (r.And? || r.Or?) && IsOperand(ConnOf(r), r, p) && IsOperand(ConnOf(r), r, q) && p != q {
      assert Settled(ConnOf(r), r);
      SettledApart(ConnOf(r), r, p, q);
    }
  }

  // ----- Operands that are not clean -----

  const A: Expr := Sym(Config("A", BooleanType))

  /** A || n, which is not clean. */
  const O: Expr := Or(A, Sym(SymNo))
  const AA: Expr := And(A, A)
  const AO: Expr := And(A, O)
  const OO: Expr := And(O, O)

  /** An operand that does not meet its match on the left goes on to the right. */
  lemma SkipLeft(t: Conn, x: Expr, l: Expr, r: Expr)
    requires !Is(t, x) && !Is(t, l) && !ExprEq(x, l)
    ensures CancelOperands(t, x, t.Make(l, r)) ==
            (CancelOperands(t, x, r).0, t.Make(l, CancelOperands(t, x, r).1))
  {
    hide ExprEq;
  }

  lemma MatchLeft(t: Conn, x: Expr, l: Expr, r: Expr)
    requires !Is(t, x) && !Is(t, l) && ExprEq(x, l) && !IsYesNo(x)
    ensures CancelOperands(t, x, t.Make(l, r)) == (t.Unit(), t.Make(t.Unit(), r))
  {
    hide ExprEq;
    ConstantCancelsNothing(t, t.Unit(), r);
  }

  lemma WalkBoth(t: Conn, l: Expr, r: Expr, e: Expr)
    ensures var a := CancelOperands(t, l, e);
            var b := CancelOperands(t, r, a.1);
            CancelOperands(t, t.Make(l, r), e) == (t.Make(a.0, b.0), b.1)
  {
    hide ExprEq;
  }

  lemma AtomsDiffer()
    ensures !ExprEq(A, O) && !ExprEq(O, A) && ExprEq(A, A) && ExprEq(O, O)
    ensures !ExprEq(A, Sym(SymYes)) && !ExprEq(O, Sym(SymYes)) && EliminateYn(O) == A
    ensures !ExprEq(AO, Sym(SymNo)) && !ExprEq(OO, Sym(SymNo)) && !IsYesNo(AO)
  {
    ExprEqReflexive(O);
  }

  lemma WalkOne()
    ensures CancelOperands(AndConn, AA, AO) == (And(Sym(SymYes), A), And(Sym(SymYes), O))
  {
    AtomsDiffer();
    WalkBoth(AndConn, A, A, AO);
    MatchLeft(AndConn, A, A, O);
    SkipLeft(AndConn, A, Sym(SymYes), O);
    CancelLeavesStep(AndConn, A, O);
    hide ExprEq, CancelOperands;
  }

  lemma WalkOther()
    ensures CancelOperands(AndConn, AO, OO) == (And(A, Sym(SymYes)), And(Sym(SymYes), O))
  {
    AtomsDiffer();
    WalkBoth(AndConn, A, O, OO);
    SkipLeft(AndConn, A, O, O);
    CancelLeavesStep(AndConn, A, O);
    MatchLeft(AndConn, O, O, O);
    hide ExprEq, CancelOperands;
  }

  lemma WalkNone(x: Expr, z: Expr)
    requires !x.And? && !z.And? && !ExprEq(x, z)
    ensures CancelOperands(AndConn, And(x, x), And(z, z)) == (And(x, x), And(z, z))
  {
    WalkBoth(AndConn, x, x, And(z, z));
    SkipLeft(AndConn, x, z, z);
    CancelLeavesStep(AndConn, x, z);
    hide ExprEq, CancelOperands;
  }

  /** expr_eq is not transitive there. */
  lemma NotTransitive()
    ensures ExprEq(AA, AO) && ExprEq(AO, OO) && !ExprEq(AA, OO) && !ExprEq(OO, AA)
  {
    AtomsDiffer();
    WalkOne();
    WalkOther();
    WalkNone(A, O);
    WalkNone(O, A);
    hide ExprEq, CancelOperands;
    ExprEqByWalk(AndConn, AA, AO);
    ExprEqByWalk(AndConn, AO, OO);
    ExprEqByWalk(AndConn, AA, OO);
    ExprEqByWalk(AndConn, OO, AA);
  }

  lemma WalkReordered()
    ensures var n, e1, e2 := Sym(SymNo), Or(AA, Or(AO, OO)), Or(AO, Or(OO, AA));
            CancelOperands(OrConn, e1, e2) == (Or(n, Or(n, OO)), Or(n, Or(n, AA)))
  {
    var n := Sym(SymNo);
    NotTransitive();
    AtomsDiffer();
    hide ExprEq, CancelOperands;
    WalkBoth(OrConn, AA, Or(AO, OO), Or(AO, Or(OO, AA)));
    MatchLeft(OrConn, AA, AO, Or(OO, AA));
    WalkBoth(OrConn, AO, OO, Or(n, Or(OO, AA)));
    SkipLeft(OrConn, AO, n, Or(OO, AA));
    MatchLeft(OrConn, AO, OO, AA);
    SkipLeft(OrConn, OO, n, Or(n, AA));
    SkipLeft(OrConn, OO, n, AA);
    CancelLeavesStep(OrConn, OO, AA);
  }

  lemma RestFolds()
    ensures EliminateYn(Or(Sym(SymNo), Or(Sym(SymNo), OO))) == AA
    ensures EliminateYn(Or(Sym(SymNo), Or(Sym(SymNo), AA))) == AA
  {
    assert EliminateYn(AA) == AA && EliminateYn(OO) == AA;
  }

  lemma SameOperands(x: Expr, y: Expr, z: Expr)
    requires !x.Or? && !y.Or? && !z.Or?
    ensures multiset(Operands(OrConn, Or(x, Or(y, z)))) == multiset(Operands(OrConn, Or(y, Or(z, x))))
  {
    ThreeOperands(x, y, z);
    ThreeOperands(y, z, x);
    hide Operands;
    Rotated(x, y, z);
  }

  lemma Rotated<T>(x: T, y: T, z: T)
    ensures multiset([x, y, z]) == multiset([y, z, x])
  {
    assert [x, y, z] == [x] + [y, z] && [y, z, x] == [y, z] + [x];
  }

  lemma ThreeOperands(x: Expr, y: Expr, z: Expr)
    requires !x.Or? && !y.Or? && !z.Or?
    ensures Operands(OrConn, Or(x, Or(y, z))) == [x, y, z]
  {
    OperandsMade(OrConn, x, Or(y, z));
    OperandsMade(OrConn, y, z);
    OperandOnly(OrConn, x);
    OperandOnly(OrConn, y);
    OperandOnly(OrConn, z);
    hide Operands;
  }

  /** Each operand is matched with the first that it equals, so a reordered
      expression can be found different. */
  lemma ReorderedDiffers()
    ensures var e1, e2 := Or(AA, Or(AO, OO)), Or(AO, Or(OO, AA));
            multiset(Operands(OrConn, e1)) == multiset(Operands(OrConn, e2)) && !ExprEq(e1, e2)
  {
    SameOperands(AA, AO, OO);
    WalkReordered();
    RestFolds();
    hide ExprEq, CancelOperands, EliminateYn, Operands;
    ExprEqByWalk(OrConn, Or(AA, Or(AO, OO)), Or(AO, Or(OO, AA)));
  }
}
