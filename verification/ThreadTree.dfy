/** The thread tree as first-child/next-sibling links (kernel/thread.c). */
module ThreadTree {

  /** A pointer into the table of thread control blocks; 0 is NULL. */
  type Ptr = nat

  const NULL: Ptr := 0

  const WORD: nat := 0x1_0000_0000

  /** GLOBALID_TO_TID. */
  function TidOf(globalid: nat): nat { globalid / 16384 }

  datatype State = Inactive | Runnable | SvcBlocked | RecvBlocked | SendBlocked

  datatype Tcb = Tcb(globalid: nat, localid: nat, state: State, parent: Ptr, child: Ptr, sibling: Ptr)

  /** The allocated entries of the table. */
  type Table = map<Ptr, Tcb>

  /** The children of every thread, in sibling order. */
  type Kids = map<Ptr, seq<Ptr>>

  function At(s: seq<Ptr>, i: nat): Ptr { if i < |s| then s[i] else NULL }

  predicate Distinct(s: seq<Ptr>) {
    forall i, j :: 0 <= i < j < |s| ==> s[i] != s[j]
  }

  predicate Apart(a: seq<Ptr>, b: seq<Ptr>) {
    forall i, j :: 0 <= i < |a| && 0 <= j < |b| ==> a[i] != b[j]
  }

  /** The children list of p is what its links spell out. */
  predicate KidsOk(t: Table, p: Ptr, s: seq<Ptr>)
    requires p in t
  {
    && Distinct(s) && t[p].child == At(s, 0)
    && (forall i {:trigger s[i]} :: 0 <= i < |s| ==> s[i] in t && t[s[i]].parent == p)
    && (forall i {:trigger t[s[i]].sibling} :: 0 <= i < |s| ==> t[s[i]].sibling == At(s, i + 1))
  }

  predicate ParentOk(t: Table, kids: Kids, x: Ptr)
    requires x in t && kids.Keys == t.Keys
  {
    t[x].parent != NULL ==> t[x].parent in t && x in kids[t[x].parent]
  }

  /** The links of the table agree with the children lists. */
  predicate Linked(t: Table, kids: Kids) {
    && NULL !in t && kids.Keys == t.Keys
    && (forall p {:trigger KidsOk(t, p, kids[p])} :: p in t ==> KidsOk(t, p, kids[p]))
    && (forall x {:trigger ParentOk(t, kids, x)} :: x in t ==> ParentOk(t, kids, x))
  }

  /** Ranks grow from parent to child, so no thread is its own ancestor. */
  ghost predicate Ranked(t: Table, rank: Ptr -> nat) {
    forall x {:trigger RankOk(t, rank, x)} :: x in t ==> RankOk(t, rank, x)
  }

  ghost predicate RankOk(t: Table, rank: Ptr -> nat, x: Ptr)
    requires x in t
  {
    t[x].parent != NULL ==> rank(t[x].parent) < rank(x)
  }

  /** The parent, first-child and sibling links of the live threads form a forest. */
  ghost predicate IsForest(t: Table) {
    exists kids: Kids, rank: Ptr -> nat :: Forest(t, kids, rank).Ok()
  }

  /** A table with the children lists and ranks that show it to be a forest. */
  datatype Forest = Forest(t: Table, kids: Kids, rank: Ptr -> nat) {

    ghost predicate Ok() {
      Linked(t, kids) && Ranked(t, rank)
    }

    /** x is v or below v. */
    ghost predicate Under(v: Ptr, x: Ptr)
      requires Ok() && x in t
      decreases rank(x)
    {
      assert ParentOk(t, kids, x) && RankOk(t, rank, x);
      x == v || (t[x].parent != NULL && Under(v, t[x].parent))
    }

    ghost function Above(m: nat): set<Ptr> {
      set y | y in t && rank(y) > m
    }

    ghost predicate RanksAbove(s: seq<Ptr>, m: nat) {
      forall i {:trigger s[i]} :: 0 <= i < |s| ==> s[i] in t && rank(s[i]) > m
    }

    lemma KidsAbove(p: Ptr)
      requires Ok() && p in t
      ensures RanksAbove(kids[p], rank(p))
    {
      assert KidsOk(t, p, kids[p]);
      forall i {:trigger kids[p][i]} | 0 <= i < |kids[p]| ensures kids[p][i] in t && rank(kids[p][i]) > rank(p) {
        assert RankOk(t, rank, kids[p][i]);
      }
    }

    /** The thread and everything below it, in preorder. */
    ghost function Pre(p: Ptr): (r: seq<Ptr>)
      requires Ok() && p in t
      ensures |r| > 0
      ensures forall i {:trigger r[i]} :: 0 <= i < |r| ==> r[i] in t
      decreases Above(rank(p)), |kids[p]| + 1
    {
      KidsAbove(p);
      [p] + PreAll(kids[p], rank(p))
    }

    ghost function PreAll(s: seq<Ptr>, m: nat): (r: seq<Ptr>)
      requires Ok() && RanksAbove(s, m)
      ensures forall i {:trigger r[i]} :: 0 <= i < |r| ==> r[i] in t
      decreases Above(m), |s|
    {
      if s == [] then []
      else
        assert s[0] in Above(m) && s[0] !in Above(rank(s[0]));
        assert Above(rank(s[0])) <= Above(m);
        Pre(s[0]) + PreAll(s[1..], m)
    }

    /** The proper descendants of p, in preorder. */
    ghost function Descendants(p: Ptr): (r: seq<Ptr>)
      requires Ok() && p in t
      ensures forall i {:trigger r[i]} :: 0 <= i < |r| ==> r[i] in t
    {
      KidsAbove(p);
      PreAll(kids[p], rank(p))
    }

    /** The position of x among its siblings. */
    ghost function Place(x: Ptr): (i: nat)
      requires Ok() && x in t && t[x].parent != NULL
      ensures t[x].parent in t && i < |kids[t[x].parent]| && kids[t[x].parent][i] == x
    {
      assert ParentOk(t, kids, x) && RankOk(t, rank, x);
      var i :| 0 <= i < |kids[t[x].parent]| && kids[t[x].parent][i] == x;
      i
    }

    /** The younger siblings of x. */
    ghost function Younger(x: Ptr): (s: seq<Ptr>)
      requires Ok() && x in t && t[x].parent != NULL
      ensures RanksAbove(s, rank(t[x].parent)) && t[x].sibling == At(s, 0)
    {
      assert ParentOk(t, kids, x);
      KidsAbove(t[x].parent);
      assert KidsOk(t, t[x].parent, kids[t[x].parent]);
      kids[t[x].parent][Place(x) + 1..]
    }

    /** What follows the subtree of x in the preorder of top. */
    ghost function Rest(top: Ptr, x: Ptr): (r: seq<Ptr>)
      requires Ok() && x in t && x != top && Under(top, x)
      ensures forall i {:trigger r[i]} :: 0 <= i < |r| ==> r[i] in t
      decreases rank(x)
    {
      assert ParentOk(t, kids, x) && RankOk(t, rank, x);
      var p := t[x].parent;
      PreAll(Younger(x), rank(p)) + if p == top then [] else Rest(top, p)
    }
  }

  /** The first runnable thread of a list, or NULL. */
  function FirstRunnable(t: Table, s: seq<Ptr>): (r: Ptr)
    requires forall i {:trigger s[i]} :: 0 <= i < |s| ==> s[i] in t
  {
    if s == [] then NULL
    else if t[s[0]].state == Runnable then s[0]
    else FirstRunnable(t, s[1..])
  }

  lemma {:induction false} FirstRunnableExact(t: Table, s: seq<Ptr>)
    requires NULL !in t && forall i {:trigger s[i]} :: 0 <= i < |s| ==> s[i] in t
    ensures var r := FirstRunnable(t, s);
            if r == NULL then forall i :: 0 <= i < |s| ==> t[s[i]].state != Runnable
            else exists k :: 0 <= k < |s| && s[k] == r && t[r].state == Runnable
                             && forall i :: 0 <= i < k ==> t[s[i]].state != Runnable
  {
    if s != [] && t[s[0]].state != Runnable {
      var rest := s[1..];
      assert forall i :: 0 < i < |s| ==> s[i] == rest[i - 1];
      FirstRunnableExact(t, rest);
      var r := FirstRunnable(t, rest);
      if r != NULL {
        var k :| 0 <= k < |rest| && rest[k] == r && t[r].state == Runnable
                 && forall i :: 0 <= i < k ==> t[rest[i]].state != Runnable;
        assert s[k + 1] == r;
        assert forall i :: 0 <= i < k + 1 ==> t[s[i]].state != Runnable;
      }
    }
  }

  // ----- The preorder lists exactly the descendants -----

  lemma {:induction false} UnderParent(f: Forest, v: Ptr, w: Ptr, x: Ptr)
    requires f.Ok() && x in f.t && w in f.t && f.Under(w, x) && f.Under(v, w)
    ensures f.Under(v, x)
    decreases f.rank(x)
  {
    assert ParentOk(f.t, f.kids, x) && RankOk(f.t, f.rank, x);
    if x != w {
      UnderParent(f, v, w, f.t[x].parent);
    }
  }

  lemma {:induction false} PreSound(f: Forest, p: Ptr, x: Ptr)
    requires f.Ok() && p in f.t && x in f.Pre(p)
    ensures x in f.t && f.Under(p, x)
    decreases f.Above(f.rank(p)), |f.kids[p]| + 1
  {
    f.KidsAbove(p);
    assert KidsOk(f.t, p, f.kids[p]);
    if x != p {
      PreAllSound(f, p, f.kids[p], x);
    }
  }

  lemma {:induction false} PreAllSound(f: Forest, p: Ptr, s: seq<Ptr>, x: Ptr)
    requires f.Ok() && p in f.t && f.RanksAbove(s, f.rank(p)) && x in f.PreAll(s, f.rank(p))
    requires forall i {:trigger s[i]} :: 0 <= i < |s| ==> f.t[s[i]].parent == p
    ensures x in f.t && x != p && f.Under(p, x)
    decreases f.Above(f.rank(p)), |s|
  {
    assert s[0] in f.Above(f.rank(p)) && s[0] !in f.Above(f.rank(s[0]));
    assert f.Above(f.rank(s[0])) <= f.Above(f.rank(p));
    if x in f.Pre(s[0]) {
      PreSound(f, s[0], x);
      UnderParent(f, p, s[0], x);
      UnderRank(f, s[0], x);
    } else {
      PreAllSound(f, p, s[1..], x);
    }
  }

  lemma {:induction false} UnderRank(f: Forest, v: Ptr, x: Ptr)
    requires f.Ok() && x in f.t && f.Under(v, x)
    ensures f.rank(v) <= f.rank(x) && v in f.t
    decreases f.rank(x)
  {
    assert ParentOk(f.t, f.kids, x) && RankOk(f.t, f.rank, x);
    if x != v {
      UnderRank(f, v, f.t[x].parent);
    }
  }

  lemma {:induction false} PreAllHas(f: Forest, s: seq<Ptr>, m: nat, c: Ptr, x: Ptr)
    requires f.Ok() && f.RanksAbove(s, m) && c in s && x in f.Pre(c)
    ensures x in f.PreAll(s, m)
    decreases |s|
  {
    if c != s[0] {
      PreAllHas(f, s[1..], m, c, x);
    }
  }

  lemma {:induction false} PreClosed(f: Forest, p: Ptr, y: Ptr, x: Ptr)
    requires f.Ok() && p in f.t && y in f.t && x in f.kids[y] && y in f.Pre(p)
    ensures x in f.Pre(p)
    decreases f.Above(f.rank(p)), |f.kids[p]| + 1
  {
    f.KidsAbove(p);
    assert KidsOk(f.t, y, f.kids[y]);
    if y == p {
      PreAllHas(f, f.kids[p], f.rank(p), x, x);
    } else {
      PreAllClosed(f, f.kids[p], f.rank(p), y, x);
    }
  }

  lemma {:induction false} PreAllClosed(f: Forest, s: seq<Ptr>, m: nat, y: Ptr, x: Ptr)
    requires f.Ok() && f.RanksAbove(s, m) && y in f.t && x in f.kids[y] && y in f.PreAll(s, m)
    ensures x in f.PreAll(s, m)
    decreases f.Above(m), |s|
  {
    assert s[0] in f.Above(m) && s[0] !in f.Above(f.rank(s[0]));
    assert f.Above(f.rank(s[0])) <= f.Above(m);
    if y in f.Pre(s[0]) {
      PreClosed(f, s[0], y, x);
    } else {
      PreAllClosed(f, s[1..], m, y, x);
    }
  }

  lemma {:induction false} PreComplete(f: Forest, p: Ptr, x: Ptr)
    requires f.Ok() && p in f.t && x in f.t && f.Under(p, x)
    ensures x in f.Pre(p)
    decreases f.rank(x)
  {
    assert ParentOk(f.t, f.kids, x) && RankOk(f.t, f.rank, x);
    if x != p {
      PreComplete(f, p, f.t[x].parent);
      PreClosed(f, p, f.t[x].parent, x);
    }
  }

  /** The preorder of p lists its proper descendants and nothing else. */
  lemma DescendantsExact(f: Forest, p: Ptr, x: Ptr)
    requires f.Ok() && p in f.t && x in f.t
    ensures x in f.Descendants(p) <==> x != p && f.Under(p, x)
  {
    f.KidsAbove(p);
    assert KidsOk(f.t, p, f.kids[p]);
    if x in f.Descendants(p) {
      PreAllSound(f, p, f.kids[p], x);
    }
    if x != p && f.Under(p, x) {
      PreComplete(f, p, x);
    }
  }

  lemma {:induction false} SiblingsApart(f: Forest, c: Ptr, d: Ptr, x: Ptr)
    requires f.Ok() && c in f.t && d in f.t && x in f.t && c != d
    requires f.t[c].parent == f.t[d].parent != NULL
    requires f.Under(c, x)
    ensures !f.Under(d, x)
    decreases f.rank(x)
  {
    assert ParentOk(f.t, f.kids, x) && RankOk(f.t, f.rank, x) && RankOk(f.t, f.rank, c) && RankOk(f.t, f.rank, d);
    if x == c {
      if f.Under(d, f.t[c].parent) {
        UnderRank(f, d, f.t[c].parent);
      }
    } else if x == d {
      UnderRank(f, c, f.t[d].parent);
    } else {
      SiblingsApart(f, c, d, f.t[x].parent);
    }
  }

  lemma {:induction false} PreAllUnder(f: Forest, s: seq<Ptr>, m: nat, x: Ptr)
    requires f.Ok() && f.RanksAbove(s, m) && x in f.PreAll(s, m)
    ensures x in f.t && exists i :: 0 <= i < |s| && f.Under(s[i], x)
    decreases |s|
  {
    if x in f.Pre(s[0]) {
      PreSound(f, s[0], x);
      assert f.Under(s[0], x);
    } else {
      PreAllUnder(f, s[1..], m, x);
      var i :| 0 <= i < |s[1..]| && f.Under(s[1..][i], x);
      assert f.Under(s[i + 1], x);
    }
  }

  lemma {:induction false} PreDistinct(f: Forest, p: Ptr)
    requires f.Ok() && p in f.t
    ensures Distinct(f.Pre(p))
    decreases f.Above(f.rank(p)), |f.kids[p]| + 1
  {
    f.KidsAbove(p);
    assert KidsOk(f.t, p, f.kids[p]);
    PreAllDistinct(f, p, f.kids[p]);
    var rest := f.PreAll(f.kids[p], f.rank(p));
    forall i | 0 <= i < |rest| ensures rest[i] != p {
      PreAllSound(f, p, f.kids[p], rest[i]);
    }
  }

  lemma {:induction false} PreAllDistinct(f: Forest, p: Ptr, s: seq<Ptr>)
    requires f.Ok() && p in f.t && f.RanksAbove(s, f.rank(p)) && Distinct(s)
    requires forall i {:trigger s[i]} :: 0 <= i < |s| ==> f.t[s[i]].parent == p
    ensures Distinct(f.PreAll(s, f.rank(p)))
    decreases f.Above(f.rank(p)), |s|
  {
    if s != [] {
      assert s[0] in f.Above(f.rank(p)) && s[0] !in f.Above(f.rank(s[0]));
      assert f.Above(f.rank(s[0])) <= f.Above(f.rank(p));
      assert Distinct(s[1..]);
      PreDistinct(f, s[0]);
      PreAllDistinct(f, p, s[1..]);
      HeadApart(f, p, s);
      DistinctConcat(f.Pre(s[0]), f.PreAll(s[1..], f.rank(p)));
    }
  }

  lemma DistinctConcat(a: seq<Ptr>, b: seq<Ptr>)
    requires Distinct(a) && Distinct(b) && Apart(a, b)
    ensures Distinct(a + b)
  {
  }

  lemma HeadApart(f: Forest, p: Ptr, s: seq<Ptr>)
    requires f.Ok() && p in f.t && f.RanksAbove(s, f.rank(p)) && Distinct(s) && s != []
    requires forall i {:trigger s[i]} :: 0 <= i < |s| ==> f.t[s[i]].parent == p
    ensures Apart(f.Pre(s[0]), f.PreAll(s[1..], f.rank(p)))
  {
    var a, b := f.Pre(s[0]), f.PreAll(s[1..], f.rank(p));
    forall i, j | 0 <= i < |a| && 0 <= j < |b| ensures a[i] != b[j] {
      PreSound(f, s[0], a[i]);
      PreAllUnder(f, s[1..], f.rank(p), b[j]);
      var k :| 0 <= k < |s[1..]| && f.Under(s[1..][k], b[j]);
      assert s[1..][k] == s[k + 1];
      SiblingsApart(f, s[k + 1], s[0], b[j]);
    }
  }

  /** It lists each of them once. */
  lemma DescendantsDistinct(f: Forest, p: Ptr)
    requires f.Ok() && p in f.t
    ensures Distinct(f.Descendants(p))
  {
    f.KidsAbove(p);
    assert KidsOk(f.t, p, f.kids[p]);
    PreAllDistinct(f, p, f.kids[p]);
  }

  /** The first runnable descendant is NULL exactly when no descendant is runnable. */
  lemma NoneRunnableExact(f: Forest, p: Ptr)
    requires f.Ok() && p in f.t
    ensures FirstRunnable(f.t, f.Descendants(p)) == NULL <==>
            forall x {:trigger f.Under(p, x)} :: x in f.t && x != p && f.Under(p, x) ==> f.t[x].state != Runnable
  {
    var d := f.Descendants(p);
    FirstRunnableExact(f.t, d);
    if FirstRunnable(f.t, d) == NULL {
      forall x {:trigger f.Under(p, x)} | x in f.t && x != p && f.Under(p, x) ensures f.t[x].state != Runnable {
        DescendantsExact(f, p, x);
      }
    } else {
      DescendantsExact(f, p, FirstRunnable(f.t, d));
    }
  }

  // ----- The steps of the iterative walk -----

  lemma PreAllHead(f: Forest, s: seq<Ptr>, m: nat)
    requires f.Ok() && f.RanksAbove(s, m) && s != []
    ensures f.PreAll(s, m) == f.Pre(s[0]) + f.PreAll(s[1..], m)
  {
  }

  lemma PlaceUnique(f: Forest, x: Ptr, i: nat)
    requires f.Ok() && x in f.t && f.t[x].parent != NULL && f.t[x].parent in f.t
    requires i < |f.kids[f.t[x].parent]| && f.kids[f.t[x].parent][i] == x
    ensures f.Place(x) == i
  {
    assert KidsOk(f.t, f.t[x].parent, f.kids[f.t[x].parent]);
  }

  lemma FirstChild(f: Forest, p: Ptr)
    requires f.Ok() && p in f.t && f.t[p].child != NULL
    ensures var c := f.t[p].child;
            && c in f.t && f.t[c].parent == p != NULL && f.rank(p) < f.rank(c)
            && p in f.kids && f.kids[p] != [] && f.kids[p][0] == c && f.Younger(c) == f.kids[p][1..]
            && f.RanksAbove(f.kids[p], f.rank(p))
  {
    f.KidsAbove(p);
    assert KidsOk(f.t, p, f.kids[p]);
    PlaceUnique(f, f.kids[p][0], 0);
  }

  lemma WalkBegin(f: Forest, top: Ptr)
    requires f.Ok() && top in f.t && f.t[top].child != NULL
    ensures var c := f.t[top].child;
            && c in f.t && c != top && f.Under(top, c)
            && f.Descendants(top) == f.Pre(c) + f.Rest(top, c)
  {
    hide Linked, Ranked;
    FirstChild(f, top);
    assert f.Under(top, top);
    PreAllHead(f, f.kids[top], f.rank(top));
  }

  lemma WalkDown(f: Forest, top: Ptr, x: Ptr)
    requires f.Ok() && top in f.t && x in f.t && x != top && f.Under(top, x) && f.t[x].child != NULL
    ensures var c := f.t[x].child;
            && c in f.t && c != top && f.Under(top, c)
            && f.Pre(x) + f.Rest(top, x) == [x] + (f.Pre(c) + f.Rest(top, c))
  {
    hide Linked, Ranked;
    FirstChild(f, x);
    UnderRank(f, top, x);
    PreAllHead(f, f.kids[x], f.rank(x));
  }

  lemma NextSibling(f: Forest, x: Ptr)
    requires f.Ok() && x in f.t && f.t[x].parent != NULL && f.t[x].sibling != NULL
    ensures var c := f.t[x].sibling;
            && c in f.t && f.t[c].parent == f.t[x].parent && f.rank(f.t[c].parent) < f.rank(c)
            && f.t[c].parent in f.kids && f.Place(c) == f.Place(x) + 1
  {
    var p := f.t[x].parent;
    var i := f.Place(x);
    assert KidsOk(f.t, p, f.kids[p]);
    PlaceUnique(f, f.kids[p][i + 1], i + 1);
    f.KidsAbove(p);
  }

  lemma SliceStep(s: seq<Ptr>, i: nat)
    requires i + 1 < |s|
    ensures s[i + 1..] == [s[i + 1]] + s[i + 2..]
  {
  }

  lemma WalkAside(f: Forest, top: Ptr, x: Ptr)
    requires f.Ok() && top in f.t && x in f.t && x != top && f.Under(top, x) && f.t[x].sibling != NULL
    ensures var c := f.t[x].sibling;
            && c in f.t && c != top && f.Under(top, c)
            && f.Rest(top, x) == f.Pre(c) + f.Rest(top, c)
  {
    hide Linked, Ranked;
    var p, c := f.t[x].parent, f.t[x].sibling;
    NextSibling(f, x);
    SliceStep(f.kids[p], f.Place(x));
    UnderRank(f, top, p);
    PreAllHead(f, f.Younger(x), f.rank(p));
    assert f.Younger(x)[1..] == f.Younger(c);
  }

  lemma WalkUp(f: Forest, top: Ptr, x: Ptr)
    requires f.Ok() && top in f.t && x in f.t && x != top && f.Under(top, x) && f.t[x].sibling == NULL
    ensures var p := f.t[x].parent;
            && p in f.t && f.Under(top, p) && f.rank(p) < f.rank(x)
            && f.Rest(top, x) == if p == top then [] else f.Rest(top, p)
  {
    assert ParentOk(f.t, f.kids, x) && RankOk(f.t, f.rank, x);
    assert KidsOk(f.t, f.t[x].parent, f.kids[f.t[x].parent]);
    assert f.Younger(x) == [];
  }

  lemma Childless(f: Forest, x: Ptr)
    requires f.Ok() && x in f.t
    ensures f.t[x].child == NULL <==> f.kids[x] == []
    ensures f.t[x].child == NULL ==> f.Pre(x) == [x]
  {
    assert KidsOk(f.t, x, f.kids[x]);
  }

  /** What the walk has still to look at when it stands at x. */
  ghost function Remaining(f: Forest, top: Ptr, x: Ptr): (r: seq<Ptr>)
    requires f.Ok() && x in f.t && x != top && f.Under(top, x)
    ensures forall i {:trigger r[i]} :: 0 <= i < |r| ==> r[i] in f.t
  {
    f.Pre(x) + f.Rest(top, x)
  }

  lemma RunnableHere(f: Forest, top: Ptr, x: Ptr)
    requires f.Ok() && x in f.t && x != top && f.Under(top, x) && f.t[x].state == Runnable
    ensures FirstRunnable(f.t, Remaining(f, top, x)) == x
  {
    assert f.Pre(x)[0] == x;
  }

  lemma SkipOne(t: Table, x: Ptr, rest: seq<Ptr>)
    requires x in t && t[x].state != Runnable && forall i {:trigger rest[i]} :: 0 <= i < |rest| ==> rest[i] in t
    ensures FirstRunnable(t, [x] + rest) == FirstRunnable(t, rest)
  {
    assert ([x] + rest)[1..] == rest;
  }
}
