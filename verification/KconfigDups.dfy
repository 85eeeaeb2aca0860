/** Removal of duplicated and contradicting operands (expr_eliminate_dups and its
    two passes, external/kconfig/expr.c).

    The passes walk one tree against itself and overwrite operand slots while
    they walk.  A slot is a path from the root of the walk through nodes of the
    walked connective; two slots hold the same node exactly when the paths are
    equal. */
module KconfigDups {
  import opened KconfigExpr
  import opened KconfigEq
  import opened KconfigJoin
  import KconfigTransform

  // ----- Slots -----

  /** false steps to the left operand, true to the right one. */
  type Path = seq<bool>

  function Child(e: Expr, right: bool): Expr
    requires e.And? || e.Or?
  {
    if right then e.r else e.l
  }

  /** The path runs through nodes of connective t. */
  predicate OnSpine(t: Conn, e: Expr, p: Path) {
    p == [] || (Is(t, e) && OnSpine(t, Child(e, p[0]), p[1..]))
  }

  function At(t: Conn, e: Expr, p: Path): Expr
    requires OnSpine(t, e, p)
  {
    if p == [] then e else At(t, Child(e, p[0]), p[1..])
  }

  function Put(t: Conn, e: Expr, p: Path, x: Expr): Expr
    requires OnSpine(t, e, p)
  {
    if p == [] then x
    else if p[0] then t.Make(e.l, Put(t, e.r, p[1..], x))
    else t.Make(Put(t, e.l, p[1..], x), e.r)
  }

  /** The operands of a connective, with the tree they hang in forgotten or kept. */
  datatype Shape = Leaf | Fork(left: Shape, right: Shape)

  function ShapeOf(t: Conn, e: Expr): Shape {
    if Is(t, e) then Fork(ShapeOf(t, e.l), ShapeOf(t, e.r)) else Leaf
  }

  function Forks(s: Shape): nat {
    if s.Leaf? then 0 else 1 + Forks(s.left) + Forks(s.right)
  }

  lemma {:induction false} StepDown(t: Conn, e: Expr, p: Path, b: bool)
    requires OnSpine(t, e, p) && Is(t, At(t, e, p))
    ensures OnSpine(t, e, p + [b]) && At(t, e, p + [b]) == Child(At(t, e, p), b)
  {
    var q := p + [b];
    if p == [] {
      assert q[1..] == [];
    } else {
      assert q[1..] == p[1..] + [b];
      StepDown(t, Child(e, p[0]), p[1..], b);
    }
  }

  /** Trees of one shape have the same slots. */
  lemma {:induction false} SameShape(t: Conn, e: Expr, f: Expr, p: Path)
    requires ShapeOf(t, e) == ShapeOf(t, f) && OnSpine(t, e, p)
    ensures OnSpine(t, f, p) && ShapeOf(t, At(t, f, p)) == ShapeOf(t, At(t, e, p))
  {
    if p != [] {
      SameShape(t, Child(e, p[0]), Child(f, p[0]), p[1..]);
    }
  }

  /** Overwriting an operand by an operand: what it does to size, shape, other
      slots and constants. */
  lemma {:induction false} PutFacts(t: Conn, e: Expr, p: Path, x: Expr)
    requires OnSpine(t, e, p)
    requires !Is(t, At(t, e, p)) && !Is(t, x)
    ensures ShapeOf(t, Put(t, e, p, x)) == ShapeOf(t, e)
    ensures Size(Put(t, e, p, x)) == Size(e) - Size(At(t, e, p)) + Size(x)
    ensures OnSpine(t, Put(t, e, p, x), p) && At(t, Put(t, e, p, x), p) == x
    ensures p != [] && (IsYesNo(x) || HasConst(x)) ==> HasConst(Put(t, e, p, x))
    ensures HasConst(e) && !HasConst(At(t, e, p)) && !IsYesNo(At(t, e, p)) ==> HasConst(Put(t, e, p, x))
    ensures x == At(t, e, p) ==> Put(t, e, p, x) == e
    ensures p != [] ==> Size(At(t, e, p)) < Size(e)
  {
    if p != [] {
      PutFacts(t, Child(e, p[0]), p[1..], x);
    }
  }

  lemma {:induction false} PutElsewhere(t: Conn, e: Expr, p: Path, x: Expr, q: Path)
    requires OnSpine(t, e, p) && OnSpine(t, e, q) && p != q
    requires !Is(t, At(t, e, p)) && !Is(t, x) && !Is(t, At(t, e, q))
    ensures OnSpine(t, Put(t, e, p, x), q) && At(t, Put(t, e, p, x), q) == At(t, e, q)
  {
    if p != [] && q != [] && p[0] == q[0] {
      assert p[1..] != q[1..] by {
        assert p == [p[0]] + p[1..] && q == [q[0]] + q[1..];
      }
      PutElsewhere(t, Child(e, p[0]), p[1..], x, q[1..]);
    }
  }

  // ----- What overwriting a slot does to the value -----

  lemma Regroup(t: Conn, x: Tri, y: Tri, z: Tri)
    ensures t.Op(t.Op(x, y), z) == t.Op(x, t.Op(y, z))
    ensures t.Op(z, t.Op(x, y)) == t.Op(x, t.Op(z, y))
  {
  }

  /** The value of the whole is the value of the slot combined with the rest. */
  lemma {:induction false} SplitAt(t: Conn, e: Expr, p: Path, x: Expr, v: Valuation)
    requires Typed(v) && OnSpine(t, e, p)
    ensures Eval(e, v) == t.Op(Eval(At(t, e, p), v), Eval(Put(t, e, p, t.Unit()), v))
    ensures Eval(Put(t, e, p, x), v) == t.Op(Eval(x, v), Eval(Put(t, e, p, t.Unit()), v))
  {
    assert TypedAt(v, SymYes) && TypedAt(v, SymNo);
    if p == [] {
      OpLaws(t, Eval(e, v), Eval(x, v), NO);
      OpLaws(t, Eval(x, v), NO, NO);
    } else {
      var c, sib := Child(e, p[0]), Child(e, !p[0]);
      var rest := Put(t, c, p[1..], t.Unit());
      SplitAt(t, c, p[1..], x, v);
      Regroup(t, Eval(At(t, c, p[1..]), v), Eval(rest, v), Eval(sib, v));
      Regroup(t, Eval(x, v), Eval(rest, v), Eval(sib, v));
    }
  }

  /** Moving both values into one slot and leaving the unit in the other keeps
      the value of the whole. */
  lemma MergeSlots(t: Conn, e: Expr, p: Path, q: Path, x: Expr, v: Valuation)
    requires Typed(v) && OnSpine(t, e, p) && OnSpine(t, e, q) && p != q
    requires !Is(t, At(t, e, p)) && !Is(t, At(t, e, q)) && !Is(t, x)
    requires Eval(x, v) == t.Op(Eval(At(t, e, p), v), Eval(At(t, e, q), v))
    requires OnSpine(t, Put(t, e, p, t.Unit()), q)
    ensures Eval(Put(t, Put(t, e, p, t.Unit()), q, x), v) == Eval(e, v)
  {
    var f := Put(t, e, p, t.Unit());
    SplitAt(t, e, p, x, v);
    PutElsewhere(t, e, p, t.Unit(), q);
    SplitAt(t, f, q, x, v);
    OpLaws(t, Eval(At(t, e, p), v), Eval(At(t, e, q), v), Eval(Put(t, f, q, t.Unit()), v));
  }

  // ----- First pass: expr_eliminate_dups1 -----

  /** The rewritten expression and how many times trans_count was bumped. */
  datatype Pass = Pass(e: Expr, count: nat)

  /** What both passes promise about sizes, slots and constants. */
  ghost predicate PassOk(t: Conn, e: Expr, r: Pass) {
    && ShapeOf(t, r.e) == ShapeOf(t, e)
    && Size(r.e) <= Size(e)
    && (r.count == 0 ==> r.e == e)
    && (r.count > 0 || HasConst(e) ==> HasConst(r.e))
  }

  function ForksAt(t: Conn, e: Expr, p: Path): nat
    requires OnSpine(t, e, p)
  {
    Forks(ShapeOf(t, At(t, e, p)))
  }

  /** expr_eliminate_dups1(t, slot p, slot q) in the tree e. */
  function Dups1(t: Conn, e: Expr, p: Path, q: Path): (r: Pass)
    requires Is(t, e) && OnSpine(t, e, p) && OnSpine(t, e, q)
    ensures PassOk(t, e, r)
    decreases Size(e), ForksAt(t, e, p) + ForksAt(t, e, q), 1
  {
    if Is(t, At(t, e, p)) then
      StepDown(t, e, p, false);
      StepDown(t, e, p, true);
      var a := Dups1(t, e, p + [false], q);
      SameShape(t, e, a.e, p + [true]);
      SameShape(t, e, a.e, q);
      var b := Dups1(t, a.e, p + [true], q);
      Pass(b.e, a.count + b.count)
    else if Is(t, At(t, e, q)) then
      StepDown(t, e, q, false);
      StepDown(t, e, q, true);
      var a := Dups1(t, e, p, q + [false]);
      SameShape(t, e, a.e, p);
      SameShape(t, e, a.e, q + [true]);
      var b := Dups1(t, a.e, p, q + [true]);
      Pass(b.e, a.count + b.count)
    else if p == q then Pass(e, 0)
    else
      var a := Dups1Inside(t, e, p);
      SameShape(t, e, a.e, p);
      SameShape(t, e, a.e, q);
      JoinSlots(t, a, p, q)
  }

  /** The nested walk over the operand in slot p, if it is a connective. */
  function Dups1Inside(t: Conn, e: Expr, p: Path): (r: Pass)
    requires OnSpine(t, e, p) && p != [] && !Is(t, At(t, e, p))
    ensures PassOk(t, e, r)
    decreases Size(e), 0, 0
  {
    var x := At(t, e, p);
    if Is(t.Other(), x) then
      PutFacts(t, e, p, x);
      var a := Dups1(t.Other(), x, [], []);
      PutFacts(t, e, p, a.e);
      Pass(Put(t, e, p, a.e), a.count)
    else Pass(e, 0)
  }

  /** The join step: slot p receives the unit and slot q the joined operand. */
  function JoinSlots(t: Conn, a: Pass, p: Path, q: Path): (r: Pass)
    requires OnSpine(t, a.e, p) && OnSpine(t, a.e, q) && p != q && p != []
    requires !Is(t, At(t, a.e, p)) && !Is(t, At(t, a.e, q))
    ensures r.count >= a.count && PassOk(t, a.e, Pass(r.e, r.count - a.count))
  {
    match Join(t, At(t, a.e, p), At(t, a.e, q))
    case None => a
    case Some(x) =>
      JoinKeepsOperand(t, At(t, a.e, p), At(t, a.e, q));
      PutFacts(t, a.e, p, t.Unit());
      PutElsewhere(t, a.e, p, t.Unit(), q);
      var f := Put(t, a.e, p, t.Unit());
      PutFacts(t, f, q, x);
      PutElsewhere(t, f, q, x, p);
      PutFacts(t, Put(t, f, q, x), p, t.Unit());
      Pass(Put(t, f, q, x), a.count + 1)
  }

  lemma {:induction false} Dups1InsidePreserves(t: Conn, e: Expr, p: Path, v: Valuation)
    requires Typed(v)
    requires OnSpine(t, e, p) && p != [] && !Is(t, At(t, e, p))
    ensures Eval(Dups1Inside(t, e, p).e, v) == Eval(e, v)
    decreases Size(e), 0, 0
  {
    var x := At(t, e, p);
    if Is(t.Other(), x) {
      PutFacts(t, e, p, x);
      var y := Dups1(t.Other(), x, [], []).e;
      Dups1Preserves(t.Other(), x, [], [], v);
      SplitAt(t, e, p, y, v);
    }
  }

  lemma JoinSlotsPreserves(t: Conn, a: Pass, p: Path, q: Path, v: Valuation)
    requires Typed(v)
    requires OnSpine(t, a.e, p) && OnSpine(t, a.e, q) && p != q && p != []
    requires !Is(t, At(t, a.e, p)) && !Is(t, At(t, a.e, q))
    ensures Eval(JoinSlots(t, a, p, q).e, v) == Eval(a.e, v)
  {
    var x := Join(t, At(t, a.e, p), At(t, a.e, q));
    if x.Some? {
      JoinPreserves(t, At(t, a.e, p), At(t, a.e, q), v);
      JoinKeepsOperand(t, At(t, a.e, p), At(t, a.e, q));
      PutElsewhere(t, a.e, p, t.Unit(), q);
      MergeSlots(t, a.e, p, q, x.value, v);
    }
  }

  /** The joining pass keeps the full three-valued meaning, from any pair of
      slots. */
  lemma {:induction false} Dups1Preserves(t: Conn, e: Expr, p: Path, q: Path, v: Valuation)
    requires Typed(v)
    requires Is(t, e) && OnSpine(t, e, p) && OnSpine(t, e, q)
    ensures Eval(Dups1(t, e, p, q).e, v) == Eval(e, v)
    decreases Size(e), ForksAt(t, e, p) + ForksAt(t, e, q), 1
  {
    if Is(t, At(t, e, p)) {
      StepDown(t, e, p, false);
      StepDown(t, e, p, true);
      var a := Dups1(t, e, p + [false], q);
      SameShape(t, e, a.e, p + [true]);
      SameShape(t, e, a.e, q);
      Dups1Preserves(t, e, p + [false], q, v);
      Dups1Preserves(t, a.e, p + [true], q, v);
    } else if Is(t, At(t, e, q)) {
      StepDown(t, e, q, false);
      StepDown(t, e, q, true);
      var a := Dups1(t, e, p, q + [false]);
      SameShape(t, e, a.e, p);
      SameShape(t, e, a.e, q + [true]);
      Dups1Preserves(t, e, p, q + [false], v);
      Dups1Preserves(t, a.e, p, q + [true], v);
    } else if p != q {
      var a := Dups1Inside(t, e, p);
      SameShape(t, e, a.e, p);
      SameShape(t, e, a.e, q);
      Dups1InsidePreserves(t, e, p, v);
      JoinSlotsPreserves(t, a, p, q, v);
    }
  }

  /** Slot p holds an operand of the connective. */
  predicate IsOperand(t: Conn, e: Expr, p: Path) {
    OnSpine(t, e, p) && !Is(t, At(t, e, p))
  }

  predicate Settled(t: Conn, e: Expr)
    requires Is(t, e)
  {
    Dups1(t, e, [], []).count == 0
  }

  /** A walk that changes nothing has looked at every pair of operands below its
      two slots and found none to join, here or inside an operand. */
  lemma {:induction false} QuietWalk(t: Conn, e: Expr, p0: Path, q0: Path, p: Path, q: Path)
    requires Is(t, e) && OnSpine(t, e, p0) && OnSpine(t, e, q0)
    requires Dups1(t, e, p0, q0).count == 0
    requires IsOperand(t, e, p) && IsOperand(t, e, q) && p != q && p0 <= p && q0 <= q
    ensures Join(t, At(t, e, p), At(t, e, q)).None?
    ensures Is(t.Other(), At(t, e, p)) ==> Settled(t.Other(), At(t, e, p))
    decreases |p| - |p0| + |q| - |q0|
  {
    if Is(t, At(t, e, p0)) {
      StepDown(t, e, p0, false);
      StepDown(t, e, p0, true);
      assert p != p0;
      var b := p[|p0|];
      assert p0 + [b] <= p;
      QuietWalk(t, e, p0 + [b], q0, p, q);
    } else {
      PrefixOfOperand(t, e, p0, p);
      if Is(t, At(t, e, q0)) {
        StepDown(t, e, q0, false);
        StepDown(t, e, q0, true);
        assert q != q0;
        var b := q[|q0|];
        assert q0 + [b] <= q;
        QuietWalk(t, e, p0, q0 + [b], p, q);
      } else {
        PrefixOfOperand(t, e, q0, q);
        PutFacts(t, e, p, At(t, e, p));
      }
    }
  }

  /** Slots p and q hold distinct operands that no rule joins, and the operand in
      slot p is itself settled. */
  predicate Unjoinable(t: Conn, e: Expr, p: Path, q: Path) {
    IsOperand(t, e, p) && IsOperand(t, e, q) && p != q ==>
      && Join(t, At(t, e, p), At(t, e, q)).None?
      && (Is(t.Other(), At(t, e, p)) ==> Settled(t.Other(), At(t, e, p)))
  }

  lemma {:induction false} UnjoinableIsQuiet(t: Conn, e: Expr, p0: Path, q0: Path)
    requires Is(t, e) && OnSpine(t, e, p0) && OnSpine(t, e, q0)
    requires forall p, q :: p0 <= p && q0 <= q ==> Unjoinable(t, e, p, q)
    ensures Dups1(t, e, p0, q0) == Pass(e, 0)
    decreases ForksAt(t, e, p0) + ForksAt(t, e, q0)
  {
    if Is(t, At(t, e, p0)) {
      StepDown(t, e, p0, false);
      StepDown(t, e, p0, true);
      UnjoinableIsQuiet(t, e, p0 + [false], q0);
      UnjoinableIsQuiet(t, e, p0 + [true], q0);
    } else if Is(t, At(t, e, q0)) {
      StepDown(t, e, q0, false);
      StepDown(t, e, q0, true);
      UnjoinableIsQuiet(t, e, p0, q0 + [false]);
      UnjoinableIsQuiet(t, e, p0, q0 + [true]);
    } else {
      assert Unjoinable(t, e, p0, q0);
      PutFacts(t, e, p0, At(t, e, p0));
    }
  }

  /** The walk finds something to do exactly when some pair of distinct operands
      can be joined, here or inside an operand. */
  lemma SettledExact(t: Conn, e: Expr)
    requires Is(t, e)
    ensures Settled(t, e) <==> forall p, q :: Unjoinable(t, e, p, q)
  {
    if Settled(t, e) {
      forall p, q ensures Unjoinable(t, e, p, q) {
        if IsOperand(t, e, p) && IsOperand(t, e, q) && p != q {
          QuietWalk(t, e, [], [], p, q);
        }
      }
    } else if forall p, q :: Unjoinable(t, e, p, q) {
      UnjoinableIsQuiet(t, e, [], []);
    }
  }

  lemma {:induction false} PrefixOfOperand(t: Conn, e: Expr, p0: Path, p: Path)
    requires OnSpine(t, e, p0) && !Is(t, At(t, e, p0))
    requires OnSpine(t, e, p) && p0 <= p
    ensures p == p0
  {
    if p0 != [] {
      PrefixOfOperand(t, Child(e, p0[0]), p0[1..], p[1..]);
      assert p == [p[0]] + p[1..] && p0 == [p0[0]] + p0[1..];
    }
  }

  // ----- Second pass: expr_eliminate_dups2 -----

  /** Every operand of the negation of e1 is an operand of e2. */
  predicate Contradicts(t: Conn, e1: Expr, e2: Expr) {
    ExtractEq(t, KconfigTransform.Transform(Not(e1)), e2).e1 == t.Unit()
  }

  /** expr_eliminate_dups2(t, slot p, slot q) in the tree e.  When slot q holds
      the connective, its operands are visited first and then it is compared
      whole. */
  function Dups2(t: Conn, e: Expr, p: Path, q: Path): (r: Pass)
    requires Is(t, e) && OnSpine(t, e, p) && OnSpine(t, e, q)
    ensures PassOk(t, e, r)
    decreases Size(e), ForksAt(t, e, p) + ForksAt(t, e, q), 1
  {
    if Is(t, At(t, e, p)) then
      StepDown(t, e, p, false);
      StepDown(t, e, p, true);
      var a := Dups2(t, e, p + [false], q);
      SameShape(t, e, a.e, p + [true]);
      SameShape(t, e, a.e, q);
      var b := Dups2(t, a.e, p + [true], q);
      Pass(b.e, a.count + b.count)
    else if Is(t, At(t, e, q)) then
      StepDown(t, e, q, false);
      StepDown(t, e, q, true);
      var a := Dups2(t, e, p, q + [false]);
      SameShape(t, e, a.e, p);
      SameShape(t, e, a.e, q + [true]);
      var b := Dups2(t, a.e, p, q + [true]);
      SameShape(t, e, b.e, p);
      SameShape(t, e, b.e, q);
      var c := Dups2Slot(t, b.e, p, q);
      Pass(c.e, a.count + b.count + c.count)
    else if p == q then Pass(e, 0)
    else Dups2Slot(t, e, p, q)
  }

  /** The switch on the operand in slot p: the nested walk, then the rule that
      replaces an operand contradicted by slot q with the absorbing constant. */
  function Dups2Slot(t: Conn, e: Expr, p: Path, q: Path): (r: Pass)
    requires OnSpine(t, e, p) && OnSpine(t, e, q) && p != []
    requires !Is(t, At(t, e, p))
    ensures PassOk(t, e, r)
    decreases Size(e), 0, 0
  {
    var x := At(t, e, p);
    if Is(t.Other(), x) then
      PutFacts(t, e, p, x);
      var n := Dups2(t.Other(), x, [], []);
      PutFacts(t, e, p, n.e);
      var f := Put(t, e, p, n.e);
      SameShape(t, e, f, q);
      if Contradicts(t, n.e, At(t, f, q)) then
        PutFacts(t, f, p, t.Zero());
        Pass(Put(t, f, p, t.Zero()), n.count + 1)
      else Pass(f, n.count)
    else Pass(e, 0)
  }

  /** y is at least as informative as x: only mod may change. */
  predicate Refines(x: Tri, y: Tri) {
    x == MOD || x == y
  }

  lemma RefinesOp(t: Conn, x: Tri, y: Tri, rest: Tri)
    requires Refines(x, y)
    ensures Refines(t.Op(x, rest), t.Op(y, rest))
  {
  }

  /** If e2 contains the negation of e1, then e1 and e2 together are at most mod
      under a conjunction and at least mod under a disjunction. */
  lemma ContradictionBound(t: Conn, e1: Expr, e2: Expr, v: Valuation)
    requires Typed(v) && Contradicts(t, e1, e2)
    ensures t.Op(Neg(Eval(e1, v)), Eval(e2, v)) == Eval(e2, v)
  {
    var n := KconfigTransform.Transform(Not(e1));
    assert TypedAt(v, SymYes) && TypedAt(v, SymNo);
    KconfigTransform.TransformPreserves(Not(e1), v);
    ExtractEqLaw(t, n, e2, v);
    var x := ExtractEq(t, n, e2);
    OpLaws(t, EvalFactor(t, x.common, v), EvalFactor(t, x.common, v), Eval(x.e2, v));
    OpLaws(t, EvalFactor(t, x.common, v), NO, NO);
  }

  /** The rule (FOO || BAR) && (!FOO && !BAR) -> n and its dual keep the value
      exactly when the two sides are not both mod. */
  lemma ContradictionRuleExact(t: Conn, e1: Expr, e2: Expr, v: Valuation)
    requires Typed(v) && Contradicts(t, e1, e2)
    ensures Eval(t.Make(t.Zero(), e2), v) == Eval(t.Make(e1, e2), v)
            <==> !(Eval(e1, v) == MOD && Eval(e2, v) == MOD)
  {
    assert TypedAt(v, SymYes) && TypedAt(v, SymNo);
    ContradictionBound(t, e1, e2, v);
  }

  lemma RuleRefines(t: Conn, f: Expr, p: Path, q: Path, v: Valuation)
    requires Typed(v) && OnSpine(t, f, p) && OnSpine(t, f, q)
    requires Contradicts(t, At(t, f, p), At(t, f, q))
    ensures Refines(Eval(f, v), Eval(Put(t, f, p, t.Zero()), v))
  {
    assert TypedAt(v, SymYes) && TypedAt(v, SymNo);
    var x, y := Eval(At(t, f, p), v), Eval(At(t, f, q), v);
    ContradictionBound(t, At(t, f, p), At(t, f, q), v);
    SplitAt(t, f, p, t.Zero(), v);
    SplitAt(t, f, q, t.Zero(), v);
  }

  lemma {:induction false} Dups2SlotRefines(t: Conn, e: Expr, p: Path, q: Path, v: Valuation)
    requires Typed(v)
    requires OnSpine(t, e, p) && OnSpine(t, e, q) && p != [] && !Is(t, At(t, e, p))
    ensures Refines(Eval(e, v), Eval(Dups2Slot(t, e, p, q).e, v))
    decreases Size(e), 0, 0
  {
    var x := At(t, e, p);
    if Is(t.Other(), x) {
      PutFacts(t, e, p, x);
      var n := Dups2(t.Other(), x, [], []);
      Dups2Refines(t.Other(), x, [], [], v);
      PutFacts(t, e, p, n.e);
      SplitAt(t, e, p, n.e, v);
      RefinesOp(t, Eval(x, v), Eval(n.e, v), Eval(Put(t, e, p, t.Unit()), v));
      var f := Put(t, e, p, n.e);
      SameShape(t, e, f, q);
      if Contradicts(t, n.e, At(t, f, q)) {
        RuleRefines(t, f, p, q, v);
      }
    }
  }

  /** The second pass changes a value only where it was mod. */
  lemma {:induction false} Dups2Refines(t: Conn, e: Expr, p: Path, q: Path, v: Valuation)
    requires Typed(v)
    requires Is(t, e) && OnSpine(t, e, p) && OnSpine(t, e, q)
    ensures Refines(Eval(e, v), Eval(Dups2(t, e, p, q).e, v))
    decreases Size(e), ForksAt(t, e, p) + ForksAt(t, e, q), 1
  {
    if Is(t, At(t, e, p)) {
      StepDown(t, e, p, false);
      StepDown(t, e, p, true);
      var a := Dups2(t, e, p + [false], q);
      SameShape(t, e, a.e, p + [true]);
      SameShape(t, e, a.e, q);
      Dups2Refines(t, e, p + [false], q, v);
      Dups2Refines(t, a.e, p + [true], q, v);
    } else if Is(t, At(t, e, q)) {
      StepDown(t, e, q, false);
      StepDown(t, e, q, true);
      var a := Dups2(t, e, p, q + [false]);
      SameShape(t, e, a.e, p);
      SameShape(t, e, a.e, q + [true]);
      var b := Dups2(t, a.e, p, q + [true]);
      SameShape(t, e, b.e, p);
      SameShape(t, e, b.e, q);
      Dups2Refines(t, e, p, q + [false], v);
      Dups2Refines(t, a.e, p, q + [true], v);
      Dups2SlotRefines(t, b.e, p, q, v);
    } else if p != q {
      Dups2SlotRefines(t, e, p, q, v);
    }
  }

  // ----- expr_eliminate_dups -----

  function ConnOf(e: Expr): Conn { if e.And? then AndConn else OrConn }

  /** One round of the loop: both passes over the whole expression. */
  function Round(e: Expr): (r: Pass)
    ensures Size(r.e) <= Size(e)
    ensures r.count == 0 ==> r.e == e
    ensures r.count > 0 ==> HasConst(r.e)
  {
    if e.And? || e.Or? then
      var t := ConnOf(e);
      var a := Dups1(t, e, [], []);
      var b := Dups2(t, a.e, [], []);
      Pass(b.e, a.count + b.count)
    else Pass(e, 0)
  }

  /** Each round that counts a change leaves a constant operand behind, so that
      the constant elimination after it makes the expression smaller. */
  function EliminateDups(e: Expr): (r: Expr)
    ensures Size(r) <= Size(e)
    decreases Size(e)
  {
    var a := Round(e);
    if a.count == 0 then a.e
    else
      EliminateYnExact(a.e);
      EliminateDups(EliminateYn(a.e))
  }

  /** The loop of expr_eliminate_dups. */
  method EliminateDupsLoop(e0: Expr) returns (e: Expr)
    ensures e == EliminateDups(e0)
  {
    e := e0;
    while true
      invariant EliminateDups(e) == EliminateDups(e0)
      decreases Size(e)
    {
      var a := Round(e);
      e := a.e;
      if a.count == 0 {
        return;
      }
      EliminateYnExact(a.e);
      e := EliminateYn(e);
    }
  }

  lemma RoundRefines(e: Expr, v: Valuation)
    requires Typed(v)
    ensures Refines(Eval(e, v), Eval(Round(e).e, v))
  {
    if e.And? || e.Or? {
      var t := ConnOf(e);
      var a := Dups1(t, e, [], []);
      Dups1Preserves(t, e, [], [], v);
      Dups2Refines(t, a.e, [], [], v);
    }
  }

  /** In every typed three-valued valuation the result has the value of the
      input, unless that value was mod. */
  lemma {:induction false} EliminateDupsRefines(e: Expr, v: Valuation)
    requires Typed(v)
    ensures Eval(e, v) != MOD ==> Eval(EliminateDups(e), v) == Eval(e, v)
    decreases Size(e)
  {
    var a := Round(e);
    RoundRefines(e, v);
    if a.count > 0 {
      EliminateYnExact(a.e);
      EliminateYnPreserves(a.e, v);
      EliminateDupsRefines(EliminateYn(a.e), v);
    }
  }

  /** No symbol used as an operand is mod. */
  predicate NoModLeaf(e: Expr, v: Valuation) {
    match e
    case Sym(s) => v.tri(s) != MOD
    case Not(a) => NoModLeaf(a, v)
    case And(l, r) => NoModLeaf(l, v) && NoModLeaf(r, v)
    case Or(l, r) => NoModLeaf(l, v) && NoModLeaf(r, v)
    case _ => true
  }

  lemma {:induction false} NoModLeafValue(e: Expr, v: Valuation)
    requires NoModLeaf(e, v)
    ensures Eval(e, v) != MOD
  {
    match e
    case Not(a) => NoModLeafValue(a, v);
    case And(l, r) => NoModLeafValue(l, v); NoModLeafValue(r, v);
    case Or(l, r) => NoModLeafValue(l, v); NoModLeafValue(r, v);
    case _ =>
  }

  /** Two-valued inputs keep their value. */
  lemma EliminateDupsTwoValued(e: Expr, v: Valuation)
    requires Typed(v) && NoModLeaf(e, v)
    ensures Eval(EliminateDups(e), v) == Eval(e, v)
  {
    NoModLeafValue(e, v);
    EliminateDupsRefines(e, v);
  }

  lemma {:induction false} EliminateDupsQuiet(e: Expr)
    ensures Round(EliminateDups(e)).count == 0
    decreases Size(e)
  {
    var a := Round(e);
    if a.count > 0 {
      EliminateYnExact(a.e);
      EliminateDupsQuiet(EliminateYn(a.e));
    }
  }

  /** A second call changes nothing, and no two operands of the result's
      connective are left that a join rule would merge. */
  lemma EliminateDupsComplete(e: Expr, p: Path, q: Path)
    ensures EliminateDups(EliminateDups(e)) == EliminateDups(e)
    ensures var r := EliminateDups(e);
            var t := ConnOf(r);
            (r.And? || r.Or?) && IsOperand(t, r, p) && IsOperand(t, r, q) && p != q ==>
              Join(t, At(t, r, p), At(t, r, q)).None?
  {
    EliminateDupsQuiet(e);
    var r := EliminateDups(e);
    var t := ConnOf(r);
    if (r.And? || r.Or?) && IsOperand(t, r, p) && IsOperand(t, r, q) && p != q {
      QuietWalk(t, r, [], [], p, q);
    }
  }

  // ----- The three-valued counterexample -----

  /** Every tristate symbol is mod, every other one is n or empty. */
  function AllMod(): Valuation {
    Valuation(
      s => if s == SymYes then YES
           else if s == SymMod || TypeOf(s) == TristateType then MOD
           else NO,
      s => if s == SymYes then "y"
           else if s == SymMod || TypeOf(s) == TristateType then "m"
           else if s.Const? then s.constName
           else if s.Config? && s.kind == UnknownType then s.name
           else "n")
  }

  const FOO: Expr := Sym(Config("FOO", TristateType))
  const BAR: Expr := Sym(Config("BAR", TristateType))
  const CONTRADICTION: Expr := And(Or(FOO, BAR), And(Not(FOO), Not(BAR)))

  lemma FooIsNotBar()
    ensures FOO != BAR
  {
    assert "FOO"[0] != "BAR"[0];
  }

  lemma OperandBelow(t: Conn, e: Expr, p: Path)
    requires Is(t, e) && IsOperand(t, e, p)
    ensures p != [] && IsOperand(t, Child(e, p[0]), p[1..])
    ensures !Is(t, Child(e, p[0])) ==> p == [p[0]] && At(t, e, p) == Child(e, p[0])
  {
    assert p != [] && p == [p[0]] + p[1..];
  }

  lemma ContradictionOperands(p: Path)
    ensures IsOperand(AndConn, CONTRADICTION, p) ==> p == [false] || p == [true, false] || p == [true, true]
    ensures OnSpine(AndConn, CONTRADICTION, [true, false]) && OnSpine(AndConn, CONTRADICTION, [true, true])
    ensures At(AndConn, CONTRADICTION, [true, false]) == Not(FOO)
    ensures At(AndConn, CONTRADICTION, [true, true]) == Not(BAR)
  {
    assert [true, false][1..] == [false] && [true, true][1..] == [true];
    if IsOperand(AndConn, CONTRADICTION, p) {
      OperandBelow(AndConn, CONTRADICTION, p);
      if p[0] {
        OperandBelow(AndConn, CONTRADICTION.r, p[1..]);
        assert p == [p[0]] + p[1..];
      }
    }
  }

  lemma ContradictionFirstPass()
    ensures Dups1(AndConn, CONTRADICTION, [], []) == Pass(CONTRADICTION, 0)
  {
    FooIsNotBar();
    var x := Or(FOO, BAR);
    forall p: Path, q: Path ensures Unjoinable(OrConn, x, p, q) {
      if IsOperand(OrConn, x, p) && IsOperand(OrConn, x, q) {
        OperandBelow(OrConn, x, p);
        OperandBelow(OrConn, x, q);
      }
    }
    UnjoinableIsQuiet(OrConn, x, [], []);
    forall p: Path, q: Path ensures Unjoinable(AndConn, CONTRADICTION, p, q) {
      ContradictionOperands(p);
      ContradictionOperands(q);
      assert !ExprEq(Not(FOO), Not(BAR)) && !ExprEq(Not(BAR), Not(FOO));
    }
    UnjoinableIsQuiet(AndConn, CONTRADICTION, [], []);
  }

  lemma NegatedOr()
    ensures KconfigTransform.Transform(Not(Or(FOO, BAR))) == And(Not(FOO), Not(BAR))
  {
    KconfigTransform.NormalIsFixed(Or(FOO, BAR));
    KconfigTransform.NormalIsFixed(And(Not(FOO), Not(BAR)));
  }

  lemma OperandsDiffer()
    ensures ExprEq(Not(FOO), Not(FOO)) && ExprEq(Not(BAR), Not(BAR))
    ensures !ExprEq(Not(FOO), Not(BAR)) && !ExprEq(Not(BAR), Not(FOO))
    ensures !ExprEq(Sym(SymYes), Not(FOO)) && !ExprEq(Sym(SymYes), Not(BAR))
    ensures !ExprEq(Not(BAR), Sym(SymYes)) && !ExprEq(Not(FOO), Sym(SymYes))
  {
    FooIsNotBar();
  }

  lemma ContradictionNeedsBoth()
    ensures !Contradicts(AndConn, Or(FOO, BAR), Not(FOO))
    ensures !Contradicts(AndConn, Or(FOO, BAR), Not(BAR))
  {
    NegatedOr();
    OperandsDiffer();
    hide ExprEq, KconfigTransform.Transform;
    var n := And(Not(FOO), Not(BAR));
    assert ExtractOperands(AndConn, None, n, Not(FOO)) ==
           Extraction(Some(Not(FOO)), And(Sym(SymYes), Not(BAR)), Sym(SymYes));
    assert ExtractOperands(AndConn, None, n, Not(BAR)) ==
           Extraction(Some(Not(BAR)), And(Not(FOO), Sym(SymYes)), Sym(SymYes));
  }

  lemma ContradictionFires()
    ensures Contradicts(AndConn, Or(FOO, BAR), And(Not(FOO), Not(BAR)))
  {
    NegatedOr();
    OperandsDiffer();
    hide ExprEq, KconfigTransform.Transform;
    var n := And(Not(FOO), Not(BAR));
    assert ExtractOperands(AndConn, None, Not(FOO), n) ==
           Extraction(Some(Not(FOO)), Sym(SymYes), And(Sym(SymYes), Not(BAR)));
    assert ExtractOperands(AndConn, Some(Not(FOO)), Not(BAR), And(Sym(SymYes), Not(BAR))) ==
           Extraction(Some(And(Not(FOO), Not(BAR))), Sym(SymYes), And(Sym(SymYes), Sym(SymYes)));
  }

  /** The second pass has nothing to do below a slot without inner connectives. */
  lemma {:induction false} Dups2Flat(t: Conn, e: Expr, p0: Path, q0: Path)
    requires Is(t, e) && OnSpine(t, e, p0) && OnSpine(t, e, q0)
    requires forall p :: p0 <= p && IsOperand(t, e, p) ==> !Is(t.Other(), At(t, e, p))
    ensures Dups2(t, e, p0, q0) == Pass(e, 0)
    decreases ForksAt(t, e, p0) + ForksAt(t, e, q0)
  {
    if Is(t, At(t, e, p0)) {
      StepDown(t, e, p0, false);
      StepDown(t, e, p0, true);
      Dups2Flat(t, e, p0 + [false], q0);
      Dups2Flat(t, e, p0 + [true], q0);
    } else if Is(t, At(t, e, q0)) {
      StepDown(t, e, q0, false);
      StepDown(t, e, q0, true);
      Dups2Flat(t, e, p0, q0 + [false]);
      Dups2Flat(t, e, p0, q0 + [true]);
    }
  }

  lemma ContradictionSlot(q: Path)
    requires q == [true] || q == [true, false] || q == [true, true]
    ensures OnSpine(AndConn, CONTRADICTION, q)
    ensures Dups2Slot(AndConn, CONTRADICTION, [false], q) ==
            if q == [true] then Pass(And(Sym(SymNo), CONTRADICTION.r), 1) else Pass(CONTRADICTION, 0)
  {
    ContradictionOperands(q);
    NegatedOr();
    ContradictionFires();
    ContradictionNeedsBoth();
    hide Contradicts;
    var x := Or(FOO, BAR);
    forall p: Path | IsOperand(OrConn, x, p) ensures !Is(AndConn, At(OrConn, x, p)) {
      OperandBelow(OrConn, x, p);
    }
    Dups2Flat(OrConn, x, [], []);
    assert Put(AndConn, CONTRADICTION, [false], x) == CONTRADICTION;
  }

  const REDUCED: Expr := And(Sym(SymNo), CONTRADICTION.r)

  lemma ContradictionLeftSlot()
    ensures Dups2(AndConn, CONTRADICTION, [false], [true]) == Pass(REDUCED, 1)
  {
    hide Dups2Slot;
    ContradictionSlot([true]);
    ContradictionSlot([true, false]);
    ContradictionSlot([true, true]);
    assert [true] + [false] == [true, false] && [true] + [true] == [true, true];
    ContradictionOperands([true, false]);
  }

  lemma ContradictionLeftPart()
    ensures Dups2(AndConn, CONTRADICTION, [false], []) == Pass(REDUCED, 1)
  {
    ContradictionLeftSlot();
    assert [] + [false] == [false] && [] + [true] == [true];
    assert Dups2(AndConn, CONTRADICTION, [false], [false]) == Pass(CONTRADICTION, 0);
    assert Dups2Slot(AndConn, REDUCED, [false], []) == Pass(REDUCED, 0);
  }

  lemma ContradictionRightPart()
    ensures Dups2(AndConn, REDUCED, [true], []) == Pass(REDUCED, 0)
  {
    forall p: Path | [true] <= p && IsOperand(AndConn, REDUCED, p)
      ensures !Is(OrConn, At(AndConn, REDUCED, p))
    {
      OperandBelow(AndConn, REDUCED, p);
      OperandBelow(AndConn, REDUCED.r, p[1..]);
    }
    Dups2Flat(AndConn, REDUCED, [true], []);
  }

  lemma ContradictionRound()
    ensures Round(CONTRADICTION) == Pass(REDUCED, 1)
  {
    ContradictionFirstPass();
    ContradictionLeftPart();
    ContradictionRightPart();
    assert [] + [false] == [false] && [] + [true] == [true];
  }

  lemma AllModTyped()
    ensures Typed(AllMod())
    ensures Eval(CONTRADICTION, AllMod()) == MOD
  {
    forall s: Symbol ensures TypedAt(AllMod(), s) {}
  }

  /** With FOO at m, !FOO is m, which is not n; the comparison says it is. */
  lemma TransCompareNegatedMod()
    ensures Typed(AllMod())
    ensures Eval(Not(FOO), AllMod()) == MOD
    ensures !KconfigTransform.ComparesRight(Not(FOO), KconfigTransform.CompareUnequal, false, AllMod())
  {
    AllModTyped();
    KconfigTransform.TransCompareSymbolExact(FOO.sym, KconfigTransform.CompareUnequal, false, AllMod());
    KconfigTransform.TransCompareNegationExact(FOO, KconfigTransform.CompareUnequal, false, AllMod());
  }

  lemma SymbolUnchanged(s: Symbol)
    ensures EliminateDups(Sym(s)) == Sym(s)
  {
  }

  /** (FOO || BAR) && (!FOO && !BAR) is m when both symbols are, and becomes n. */
  lemma EliminateDupsLosesMod()
    ensures Typed(AllMod())
    ensures Eval(CONTRADICTION, AllMod()) == MOD
    ensures EliminateDups(CONTRADICTION) == Sym(SymNo)
  {
    hide Round, Dups1, Dups2;
    AllModTyped();
    ContradictionRound();
    assert EliminateYn(REDUCED) == Sym(SymNo);
    SymbolUnchanged(SymNo);
  }
}
