/** expr_eq equates every expression with itself, so that the joining pass leaves
    no operand twice (external/kconfig/expr.c). */
module KconfigReflexive {
  import opened KconfigExpr
  import opened KconfigEq
  import opened KconfigJoin
  import opened KconfigDups

  /** The operands of connective t in e, from left to right. */
  function Operands(t: Conn, e: Expr): (s: seq<Expr>)
    ensures |s| > 0
  {
    if Is(t, e) then Operands(t, e.l) + Operands(t, e.r) else [e]
  }

  /** e with every operand other than y and n cancelled. */
  function Blank(t: Conn, e: Expr): Expr {
    if Is(t, e) then t.Make(Blank(t, e.l), Blank(t, e.r))
    else if IsYesNo(e) then e
    else t.Unit()
  }

  predicate AllYesNo(s: seq<Expr>) {
    forall i :: 0 <= i < |s| ==> IsYesNo(s[i])
  }

  lemma {:induction false} ShapeAndOperands(t: Conn, e: Expr, f: Expr)
    requires ShapeOf(t, e) == ShapeOf(t, f) && Operands(t, e) == Operands(t, f)
    ensures e == f
  {
    if Is(t, e) {
      SameOperandCount(t, e.l, f.l);
      var n := |Operands(t, e.l)|;
      assert Operands(t, e)[..n] == Operands(t, e.l) && Operands(t, f)[..n] == Operands(t, f.l);
      assert Operands(t, e)[n..] == Operands(t, e.r) && Operands(t, f)[n..] == Operands(t, f.r);
      ShapeAndOperands(t, e.l, f.l);
      ShapeAndOperands(t, e.r, f.r);
    } else {
      assert Operands(t, e)[0] == Operands(t, f)[0];
    }
  }

  lemma {:induction false} SameOperandCount(t: Conn, e: Expr, f: Expr)
    requires ShapeOf(t, e) == ShapeOf(t, f)
    ensures |Operands(t, e)| == |Operands(t, f)|
  {
    if Is(t, e) {
      SameOperandCount(t, e.l, f.l);
      SameOperandCount(t, e.r, f.r);
    }
  }

  /** A constant meets nothing to cancel. */
  lemma {:induction false} ConstantCancelsNothing(t: Conn, c: Expr, e: Expr)
    requires IsYesNo(c)
    ensures CancelOperands(t, c, e) == (c, e)
  {
    if Is(t, e) {
      ConstantCancelsNothing(t, c, e.l);
      ConstantCancelsNothing(t, c, e.r);
    }
  }

  /** Constants give nothing to cancel. */
  lemma {:induction false} NothingAmongConstants(t: Conn, x: Expr, e: Expr)
    requires !Is(t, x) && AllYesNo(Operands(t, e))
    ensures CancelOperands(t, x, e) == (x, e)
  {
    if Is(t, e) {
      assert Operands(t, e)[..|Operands(t, e.l)|] == Operands(t, e.l);
      assert Operands(t, e)[|Operands(t, e.l)|..] == Operands(t, e.r);
      NothingAmongConstants(t, x, e.l);
      NothingAmongConstants(t, x, e.r);
    } else {
      assert IsYesNo(Operands(t, e)[0]);
    }
  }

  lemma OperandsOf(t: Conn, e: Expr)
    requires Is(t, e)
    ensures Operands(t, e) == Operands(t, e.l) + Operands(t, e.r)
    ensures ShapeOf(t, e) == Fork(ShapeOf(t, e.l), ShapeOf(t, e.r))
  {
  }

  lemma OperandsMade(t: Conn, l: Expr, r: Expr)
    ensures Operands(t, t.Make(l, r)) == Operands(t, l) + Operands(t, r)
    ensures ShapeOf(t, t.Make(l, r)) == Fork(ShapeOf(t, l), ShapeOf(t, r))
  {
  }

  lemma OperandOnly(t: Conn, e: Expr)
    requires !Is(t, e)
    ensures Operands(t, e) == [e] && ShapeOf(t, e) == Leaf
  {
  }

  lemma UpdateLeft(l: seq<Expr>, r: seq<Expr>, k: nat, x: Expr)
    requires k < |l|
    ensures (l + r)[k := x] == l[k := x] + r && (l + r)[..k] == l[..k] && (l + r)[k] == l[k]
  {
  }

  lemma UpdateRight(l: seq<Expr>, r: seq<Expr>, k: nat, x: Expr)
    requires |l| <= k < |l| + |r|
    ensures (l + r)[k := x] == l + r[k - |l| := x]
    ensures (l + r)[..k] == l + r[..k - |l|] && (l + r)[k] == r[k - |l|]
  {
  }

  lemma AllYesNoParts(l: seq<Expr>, r: seq<Expr>)
    ensures AllYesNo(l + r) <==> AllYesNo(l) && AllYesNo(r)
  {
    assert forall i :: 0 <= i < |l| ==> (l + r)[i] == l[i];
    assert forall i :: 0 <= i < |r| ==> (l + r)[|l| + i] == r[i];
  }

  /** What cancelling operand k of e against x leaves. */
  predicate CancelsAt(t: Conn, e: Expr, k: nat, r: (Expr, Expr))
    requires k < |Operands(t, e)|
  {
    && r.0 == t.Unit()
    && ShapeOf(t, r.1) == ShapeOf(t, e)
    && Operands(t, r.1) == Operands(t, e)[k := t.Unit()]
  }

  /** An operand cancels with its first copy when only constants precede it. */
  lemma {:induction false} CancelOne(t: Conn, x: Expr, e: Expr, k: nat)
    requires !Is(t, x) && !IsYesNo(x) && ExprEq(x, x)
    requires k < |Operands(t, e)| && Operands(t, e)[k] == x && AllYesNo(Operands(t, e)[..k])
    ensures CancelsAt(t, e, k, CancelOperands(t, x, e))
  {
    hide ExprEq, Operands, ShapeOf, AllYesNo;
    if Is(t, e) {
      var l, r := Operands(t, e.l), Operands(t, e.r);
      OperandsOf(t, e);
      if k < |l| {
        UpdateLeft(l, r, k, t.Unit());
        CancelOne(t, x, e.l, k);
        ConstantCancelsNothing(t, t.Unit(), e.r);
        OperandsMade(t, CancelOperands(t, x, e.l).1, e.r);
      } else {
        UpdateRight(l, r, k, t.Unit());
        AllYesNoParts(l, r[..k - |l|]);
        NothingAmongConstants(t, x, e.l);
        CancelOne(t, x, e.r, k - |l|);
        OperandsMade(t, e.l, CancelOperands(t, x, e.r).1);
      }
    } else {
      OperandOnly(t, e);
      OperandOnly(t, t.Unit());
    }
  }

  /** s with the m elements from k on replaced by b. */
  function Splice(s: seq<Expr>, k: nat, m: nat, b: seq<Expr>): seq<Expr>
    requires k + m <= |s|
  {
    s[..k] + b + s[k + m..]
  }

  lemma SpliceTwice(s: seq<Expr>, k: nat, m1: nat, b1: seq<Expr>, m2: nat, b2: seq<Expr>)
    requires k + m1 + m2 <= |s| && |b1| == m1 && |b2| == m2
    ensures |Splice(s, k, m1, b1)| == |s|
    ensures Splice(Splice(s, k, m1, b1), k + m1, m2, b2) == Splice(s, k, m1 + m2, b1 + b2)
  {
  }

  predicate AllReflexive(s: seq<Expr>) {
    forall i :: 0 <= i < |s| ==> ExprEq(s[i], s[i])
  }

  /** From index k on, s starts with x, and only constants come before. */
  predicate StartsAt(x: seq<Expr>, s: seq<Expr>, k: nat) {
    k + |x| <= |s| && s[k..k + |x|] == x && AllYesNo(s[..k])
  }

  lemma StartsAtSplit(x1: seq<Expr>, x2: seq<Expr>, s: seq<Expr>, k: nat, b: seq<Expr>)
    requires StartsAt(x1 + x2, s, k) && |b| == |x1| && AllYesNo(b)
    ensures StartsAt(x1, s, k) && k + |x1| + |x2| <= |s|
    ensures StartsAt(x2, Splice(s, k, |x1|, b), k + |x1|)
  {
    var x := x1 + x2;
    assert x1 == x[..|x1|] == s[k..k + |x|][..|x1|] == s[k..k + |x1|];
    var s' := Splice(s, k, |x1|, b);
    assert x2 == x[|x1|..] == s[k..k + |x|][|x1|..];
    assert forall i :: 0 <= i < |x2| ==> s'[k + |x1| + i] == s[k + |x1| + i] == x2[i];
    assert s'[k + |x1|..k + |x1| + |x2|] == x2;
    assert s'[..k + |x1|] == s[..k] + b;
  }

  predicate Aligned(t: Conn, x: Expr, e: Expr, k: nat) {
    AllReflexive(Operands(t, x)) && StartsAt(Operands(t, x), Operands(t, e), k)
  }

  predicate BlanksBoth(t: Conn, x: Expr, e: Expr, k: nat, r: (Expr, Expr))
    requires k + |Operands(t, x)| <= |Operands(t, e)|
  {
    && r.0 == Blank(t, x)
    && ShapeOf(t, r.1) == ShapeOf(t, e)
    && Operands(t, r.1) == Splice(Operands(t, e), k, |Operands(t, x)|, Operands(t, Blank(t, x)))
  }

  lemma {:induction false} BlankOperands(t: Conn, e: Expr)
    ensures |Operands(t, Blank(t, e))| == |Operands(t, e)|
    ensures AllYesNo(Operands(t, Blank(t, e)))
    ensures ShapeOf(t, Blank(t, e)) == ShapeOf(t, e)
  {
    if Is(t, e) {
      BlankOperands(t, e.l);
      BlankOperands(t, e.r);
    }
  }

  lemma CancelBlockLeaf(t: Conn, x: Expr, e: Expr, k: nat)
    requires !Is(t, x) && Aligned(t, x, e, k)
    ensures BlanksBoth(t, x, e, k, CancelOperands(t, x, e))
  {
    hide ExprEq, Operands, ShapeOf, CancelOperands;
    var ops := Operands(t, e);
    OperandOnly(t, x);
    OperandOnly(t, Blank(t, x));
    assert ops[k] == ops[k..k + 1][0] == x;
    if IsYesNo(x) {
      ConstantCancelsNothing(t, x, e);
      SpliceOne(ops, k, x);
    } else {
      CancelOne(t, x, e, k);
      SpliceOne(ops, k, t.Unit());
    }
  }

  lemma SpliceOne(s: seq<Expr>, k: nat, x: Expr)
    requires k < |s|
    ensures Splice(s, k, 1, [x]) == s[k := x]
    ensures s[k := s[k]] == s
  {
  }

  lemma ReflexiveParts(s1: seq<Expr>, s2: seq<Expr>)
    requires AllReflexive(s1 + s2)
    ensures AllReflexive(s1) && AllReflexive(s2)
  {
    assert forall i :: 0 <= i < |s1| ==> s1[i] == (s1 + s2)[i];
    assert forall i :: 0 <= i < |s2| ==> s2[i] == (s1 + s2)[|s1| + i];
  }

  /** Walking x along a copy of its operands blanks both, one by one. */
  lemma {:induction false} CancelBlock(t: Conn, x: Expr, e: Expr, k: nat)
    requires Aligned(t, x, e, k)
    ensures BlanksBoth(t, x, e, k, CancelOperands(t, x, e))
  {
    hide ExprEq, Operands, ShapeOf, AllYesNo, AllReflexive, StartsAt, Splice;
    if Is(t, x) {
      var x1, x2 := Operands(t, x.l), Operands(t, x.r);
      var b1, b2 := Operands(t, Blank(t, x.l)), Operands(t, Blank(t, x.r));
      OperandsOf(t, x);
      OperandsMade(t, Blank(t, x.l), Blank(t, x.r));
      BlankOperands(t, x.l);
      BlankOperands(t, x.r);
      ReflexiveParts(x1, x2);
      StartsAtSplit(x1, x2, Operands(t, e), k, b1);
      CancelBlock(t, x.l, e, k);
      CancelBlock(t, x.r, CancelOperands(t, x.l, e).1, k + |x1|);
      SpliceTwice(Operands(t, e), k, |x1|, b1, |x2|, b2);
    } else {
      CancelBlockLeaf(t, x, e, k);
    }
  }

  lemma {:induction false} ConstantsFold(t: Conn, e: Expr)
    requires AllYesNo(Operands(t, e))
    ensures IsYesNo(EliminateYn(e))
  {
    if Is(t, e) {
      assert Operands(t, e)[..|Operands(t, e.l)|] == Operands(t, e.l);
      assert Operands(t, e)[|Operands(t, e.l)|..] == Operands(t, e.r);
      ConstantsFold(t, e.l);
      ConstantsFold(t, e.r);
    } else {
      assert IsYesNo(Operands(t, e)[0]);
    }
  }

  lemma {:induction false} OperandsReflexive(t: Conn, e: Expr)
    ensures AllReflexive(Operands(t, e))
    decreases Size(e), 1
  {
    if Is(t, e) {
      OperandsReflexive(t, e.l);
      OperandsReflexive(t, e.r);
    } else {
      ExprEqReflexive(e);
    }
  }

  lemma SelfCancel(t: Conn, e: Expr)
    requires AllReflexive(Operands(t, e))
    ensures CancelOperands(t, e, e) == (Blank(t, e), Blank(t, e))
  {
    var ops, blank := Operands(t, e), Operands(t, Blank(t, e));
    assert ops[0..|ops|] == ops && ops[..0] == [];
    CancelBlock(t, e, e, 0);
    assert Splice(ops, 0, |ops|, blank) == blank;
    BlankOperands(t, e);
    ShapeAndOperands(t, CancelOperands(t, e, e).1, Blank(t, e));
  }

  lemma ConnectiveReflexive(e: Expr)
    requires e.And? || e.Or?
    requires AllReflexive(Operands(ConnOf(e), e))
    ensures ExprEq(e, e)
  {
    var t := ConnOf(e);
    var b := Blank(t, e);
    SelfCancel(t, e);
    BlankOperands(t, e);
    ConstantsFold(t, b);
    assert CancelFirst(e, e) == (b, b);
    assert CancelSecond(b, b) == (b, b);
    assert EliminateEq(e, e) == (EliminateYn(b), EliminateYn(b));
  }

  /** Every expression is equal to itself, duplicates and constants included. */
  lemma {:induction false} ExprEqReflexive(e: Expr)
    ensures ExprEq(e, e)
    decreases Size(e), 0
  {
    if e.Not? {
      ExprEqReflexive(e.arg);
    } else if e.And? || e.Or? {
      var t := ConnOf(e);
      OperandsReflexive(t, e.l);
      OperandsReflexive(t, e.r);
      assert Operands(t, e) == Operands(t, e.l) + Operands(t, e.r);
      ConnectiveReflexive(e);
    }
  }

  /** No operand is left twice in the result of expr_eliminate_dups. */
  lemma EliminateDupsDistinct(e: Expr, p: Path, q: Path)
    ensures var r := EliminateDups(e);
            var t := ConnOf(r);
            (r.And? || r.Or?) && IsOperand(t, r, p) && IsOperand(t, r, q) && p != q ==>
              At(t, r, p) != At(t, r, q)
  {
    EliminateDupsComplete(e, p, q);
    var r := EliminateDups(e);
    var t := ConnOf(r);
    if (r.And? || r.Or?) && IsOperand(t, r, p) && IsOperand(t, r, q) {
      ExprEqReflexive(At(t, r, p));
    }
  }
}
