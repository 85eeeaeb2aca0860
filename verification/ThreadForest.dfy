/** What creating and destroying a thread does to the thread tree
    (thread_create and thread_destroy of kernel/thread.c). */
module ThreadForest {
  import opened ThreadTree

  // ----- A new last child -----

  /** The caller's links with a new thread behind its children. */
  function Adopt(t: Table, s: seq<Ptr>, caller: Ptr, slot: Ptr): Table
    requires caller in t && (s != [] ==> s[|s| - 1] in t)
  {
    if s == [] then t[caller := t[caller].(child := slot)]
    else t[s[|s| - 1] := t[s[|s| - 1]].(sibling := slot)]
  }

  /** A children list survives changes elsewhere. */
  lemma KidsFrame(t: Table, t2: Table, p: Ptr, s: seq<Ptr>)
    requires p in t && KidsOk(t, p, s) && p in t2 && t2[p].child == t[p].child
    requires forall i {:trigger s[i]} :: 0 <= i < |s| ==>
               s[i] in t2 && t2[s[i]].parent == t[s[i]].parent && t2[s[i]].sibling == t[s[i]].sibling
    ensures KidsOk(t2, p, s)
  {
  }

  lemma AdoptKids(t: Table, s: seq<Ptr>, caller: Ptr, slot: Ptr, rec: Tcb)
    requires caller in t && KidsOk(t, caller, s) && slot !in t && slot != NULL
    requires rec.parent == caller && rec.child == NULL && rec.sibling == NULL
    ensures s != [] ==> s[|s| - 1] in t
    ensures KidsOk(Adopt(t[slot := rec], s, caller, slot), caller, s + [slot])
  {
    var t2, s2 := Adopt(t[slot := rec], s, caller, slot), s + [slot];
    forall i {:trigger s2[i]} | 0 <= i < |s2|
      ensures s2[i] in t2 && t2[s2[i]].parent == caller && t2[s2[i]].sibling == At(s2, i + 1)
    {
      assert i < |s| ==> s2[i] == s[i];
    }
  }

  lemma AdoptOthers(t: Table, s: seq<Ptr>, caller: Ptr, slot: Ptr, rec: Tcb, q: Ptr, sq: seq<Ptr>)
    requires caller in t && KidsOk(t, caller, s) && slot !in t && q in t && q != caller && KidsOk(t, q, sq) &&
             Apart(s, sq)
    ensures s != [] ==> s[|s| - 1] in t
    ensures KidsOk(Adopt(t[slot := rec], s, caller, slot), q, sq)
  {
    KidsFrame(t, Adopt(t[slot := rec], s, caller, slot), q, sq);
  }

  lemma AdoptLinked(t: Table, kids: Kids, caller: Ptr, slot: Ptr, rec: Tcb)
    requires Linked(t, kids) && caller in t && slot !in t && slot != NULL
    requires rec.parent == caller && rec.child == NULL && rec.sibling == NULL
    ensures kids[caller] != [] ==> kids[caller][|kids[caller]| - 1] in t
    ensures Linked(Adopt(t[slot := rec], kids[caller], caller, slot), KidsWith(kids, caller, slot))
  {
    hide KidsOk;
    var s := kids[caller];
    AdoptKids(t, s, caller, slot, rec);
    var t2, kids2 := Adopt(t[slot := rec], kids[caller], caller, slot), KidsWith(kids, caller, slot);
    forall p {:trigger KidsOk(t2, p, kids2[p])} | p in t2 ensures KidsOk(t2, p, kids2[p]) {
      if p == slot {
        NoKids(t2, p);
      } else if p != caller {
        OtherLists(t, kids, caller, p);
        AdoptOthers(t, s, caller, slot, rec, p, kids[p]);
      }
    }
    forall x {:trigger ParentOk(t2, kids2, x)} | x in t2 ensures ParentOk(t2, kids2, x) {
      assert x != slot ==> ParentOk(t, kids, x);
    }
  }

  lemma NoKids(t: Table, p: Ptr)
    requires p in t && t[p].child == NULL
    ensures KidsOk(t, p, [])
  {
  }

  lemma OtherLists(t: Table, kids: Kids, p: Ptr, q: Ptr)
    requires Linked(t, kids) && p in t && q in t && p != q
    ensures Apart(kids[p], kids[q])
  {
    assert KidsOk(t, p, kids[p]) && KidsOk(t, q, kids[q]);
  }

  /** The children lists with a new thread behind the caller's children. */
  function KidsWith(kids: Kids, caller: Ptr, slot: Ptr): Kids
    requires caller in kids
  {
    kids[caller := kids[caller] + [slot]][slot := []]
  }

  /** Adoption changes links only. */
  lemma AdoptFields(t: Table, s: seq<Ptr>, caller: Ptr, slot: Ptr, rec: Tcb)
    requires caller in t && slot !in t && (s != [] ==> s[|s| - 1] in t)
    ensures var t2 := Adopt(t[slot := rec], s, caller, slot);
            t2.Keys == t.Keys + {slot} && t2[slot] == rec && SameFields(t, Remove(t2, slot))
  {
  }

  /** A new thread without a parent is a tree of its own. */
  lemma InitForest(f: Forest, slot: Ptr, rec: Tcb)
    requires f.Ok() && slot !in f.t && slot != NULL
    requires rec.parent == NULL && rec.child == NULL && rec.sibling == NULL
    ensures Forest(f.t[slot := rec], f.kids[slot := []], f.rank).Ok()
  {
    var t2, kids2 := f.t[slot := rec], f.kids[slot := []];
    forall p {:trigger KidsOk(t2, p, kids2[p])} | p in t2 ensures KidsOk(t2, p, kids2[p]) {
      if p != slot {
        assert KidsOk(f.t, p, f.kids[p]);
        KidsFrame(f.t, t2, p, f.kids[p]);
      }
    }
    forall x {:trigger ParentOk(t2, kids2, x)} | x in t2 ensures ParentOk(t2, kids2, x) {
      assert x != slot ==> ParentOk(f.t, f.kids, x);
    }
    forall x {:trigger RankOk(t2, f.rank, x)} | x in t2 ensures RankOk(t2, f.rank, x) {
      assert x != slot ==> RankOk(f.t, f.rank, x);
    }
  }

  /** Ranks for the table with the new thread. */
  ghost function Extended(f: Forest, caller: Ptr, slot: Ptr): Ptr -> nat {
    var next: nat := f.rank(caller) + 1;
    x => if x == slot then next else f.rank(x)
  }

  /** The tree stays a forest. */
  lemma AdoptForest(f: Forest, caller: Ptr, slot: Ptr, rec: Tcb)
    requires f.Ok() && caller in f.t && slot !in f.t && slot != NULL
    requires rec.parent == caller && rec.child == NULL && rec.sibling == NULL
    ensures f.kids[caller] != [] ==> f.kids[caller][|f.kids[caller]| - 1] in f.t
    ensures Forest(Adopt(f.t[slot := rec], f.kids[caller], caller, slot), KidsWith(f.kids, caller, slot),
                   Extended(f, caller, slot)).Ok()
  {
    AdoptLinked(f.t, f.kids, caller, slot, rec);
    var rank := Extended(f, caller, slot);
    var t2 := Adopt(f.t[slot := rec], f.kids[caller], caller, slot);
    forall x {:trigger RankOk(t2, rank, x)} | x in t2 ensures RankOk(t2, rank, x) {
      assert x != slot ==> ParentOk(f.t, f.kids, x) && RankOk(f.t, f.rank, x);
    }
  }

  // ----- Taking a thread out of its parent's list -----

  function Detached(t: Table, v: Ptr): Table
    requires v in t
  {
    t[v := t[v].(parent := NULL)]
  }

  /** The link that led to the k-th child of p now leads past it. */
  function Unlink(t: Table, s: seq<Ptr>, p: Ptr, k: nat): Table
    requires p in t && k < |s| && s[k] in t && (k > 0 ==> s[k - 1] in t)
  {
    if k == 0 then t[p := t[p].(child := t[s[k]].sibling)]
    else t[s[k - 1] := t[s[k - 1]].(sibling := t[s[k]].sibling)]
  }

  function Dropped(s: seq<Ptr>, k: nat): seq<Ptr>
    requires k < |s|
  {
    s[..k] + s[k + 1..]
  }

  lemma DroppedIndex(s: seq<Ptr>, k: nat, i: nat)
    requires k < |s| && i < |s| - 1
    ensures Dropped(s, k)[i] == s[if i < k then i else i + 1]
    ensures At(Dropped(s, k), i + 1) == At(s, if i + 1 < k then i + 1 else i + 2)
  {
  }

  lemma DroppedDistinct(s: seq<Ptr>, k: nat)
    requires k < |s| && Distinct(s)
    ensures Distinct(Dropped(s, k)) && At(Dropped(s, k), 0) == if k == 0 then At(s, 1) else s[0]
  {
    var d := Dropped(s, k);
    forall i, j | 0 <= i < j < |d| ensures d[i] != d[j] {
      DroppedIndex(s, k, i);
      DroppedIndex(s, k, j);
    }
  }

  lemma UnlinkKids(t: Table, s: seq<Ptr>, p: Ptr, k: nat)
    requires p in t && KidsOk(t, p, s) && k < |s| && s[k] != p
    ensures s[k] in t && (k > 0 ==> s[k - 1] in t)
    ensures KidsOk(Detached(Unlink(t, s, p, k), s[k]), p, Dropped(s, k))
  {
    var v := s[k];
    assert v in t && (k > 0 ==> s[k - 1] in t);
    var t2, d := Detached(Unlink(t, s, p, k), v), Dropped(s, k);
    DroppedDistinct(s, k);
    forall i {:trigger d[i]} | 0 <= i < |d|
      ensures d[i] in t2 && t2[d[i]].parent == p && t2[d[i]].sibling == At(d, i + 1)
    {
      UnlinkedKid(t, s, p, k, i);
    }
  }

  lemma DroppedNext(s: seq<Ptr>, k: nat, i: nat)
    requires k < |s| && i < |s| - 1
    ensures At(Dropped(s, k), i + 1) == At(s, if i + 1 < k then i + 1 else i + 2)
  {
    if i + 1 < |s| - 1 {
      DroppedIndex(s, k, i + 1);
    }
  }

  lemma UnlinkedKid(t: Table, s: seq<Ptr>, p: Ptr, k: nat, i: nat)
    requires p in t && KidsOk(t, p, s) && k < |s| && s[k] != p && i < |Dropped(s, k)|
    requires s[k] in t && (k > 0 ==> s[k - 1] in t)
    ensures var t2, d := Detached(Unlink(t, s, p, k), s[k]), Dropped(s, k);
            d[i] in t2 && t2[d[i]].parent == p && t2[d[i]].sibling == At(d, i + 1)
  {
    var j := if i < k then i else i + 1;
    DroppedIndex(s, k, i);
    DroppedNext(s, k, i);
    IndexApart(s, k, j);
    if 0 < k != i + 1 {
      IndexApart(s, k - 1, j);
    }
    assert s[j] in t && t[s[j]].parent == p && t[s[j]].sibling == At(s, j + 1) && t[s[k]].sibling == At(s, k + 1);
    hide Dropped, Distinct, KidsOk, At;
  }

  lemma IndexApart(s: seq<Ptr>, k: nat, j: nat)
    requires Distinct(s) && k < |s| && j < |s| && j != k
    ensures s[j] != s[k] && (k > 0 && s[j] == s[k - 1] ==> j == k - 1)
  {
  }

  lemma UnlinkOthers(t: Table, s: seq<Ptr>, p: Ptr, k: nat, q: Ptr, sq: seq<Ptr>)
    requires p in t && KidsOk(t, p, s) && k < |s| && s[k] != p && q in t && q != p && KidsOk(t, q, sq) && Apart(s, sq)
    ensures s[k] in t && (k > 0 ==> s[k - 1] in t)
    ensures KidsOk(Detached(Unlink(t, s, p, k), s[k]), q, sq)
  {
    hide Distinct;
    assert s[k] in t && (k > 0 ==> s[k - 1] in t);
    assert forall i {:trigger sq[i]} :: 0 <= i < |sq| ==> sq[i] != s[k] && (k > 0 ==> sq[i] != s[k - 1]);
    KidsFrame(t, Detached(Unlink(t, s, p, k), s[k]), q, sq);
  }

  lemma UnlinkLinked(t: Table, kids: Kids, p: Ptr, k: nat)
    requires Linked(t, kids) && p in t && k < |kids[p]| && kids[p][k] != p
    ensures kids[p][k] in t && (k > 0 ==> kids[p][k - 1] in t)
    ensures Linked(Detached(Unlink(t, kids[p], p, k), kids[p][k]), kids[p := Dropped(kids[p], k)])
  {
    hide KidsOk;
    var s, v := kids[p], kids[p][k];
    UnlinkKids(t, s, p, k);
    var t2, kids2 := Detached(Unlink(t, s, p, k), v), kids[p := Dropped(s, k)];
    forall q {:trigger KidsOk(t2, q, kids2[q])} | q in t2 ensures KidsOk(t2, q, kids2[q]) {
      if q != p {
        OtherLists(t, kids, p, q);
        UnlinkOthers(t, s, p, k, q, kids[q]);
      }
    }
    forall x {:trigger ParentOk(t2, kids2, x)} | x in t2 ensures ParentOk(t2, kids2, x) {
      assert ParentOk(t, kids, x);
      if x != v && t[x].parent == p {
        StillIn(s, k, x);
      }
    }
  }

  lemma StillIn(s: seq<Ptr>, k: nat, x: Ptr)
    requires k < |s| && x in s && x != s[k]
    ensures x in Dropped(s, k)
  {
    var i :| 0 <= i < |s| && s[i] == x;
    assert Dropped(s, k)[if i < k then i else i - 1] == x;
  }

  // ----- Handing the children of a detached thread to the caller -----

  function Reparent(t: Table, s: seq<Ptr>, caller: Ptr): Table {
    map x | x in t :: if x in s then t[x].(parent := caller) else t[x]
  }

  /** The children of v, re-parented, now precede the caller's children. */
  function Merge(t: Table, s: seq<Ptr>, caller: Ptr): Table
    requires caller in t && (s != [] ==> s[|s| - 1] in t)
  {
    if s == [] then t
    else
      var last := s[|s| - 1];
      var t1 := t[last := t[last].(sibling := t[caller].child)];
      t1[caller := t1[caller].(child := s[0])]
  }

  function Remove<V>(m: map<Ptr, V>, v: Ptr): map<Ptr, V> {
    map x | x in m && x != v :: m[x]
  }

  /** The whole hand-over, ending with the release of v. */
  function HandOver(t: Table, s: seq<Ptr>, v: Ptr, caller: Ptr): Table
    requires caller in t && (s != [] ==> s[|s| - 1] in t)
  {
    Remove(Merge(Reparent(t, s, caller), s, caller), v)
  }

  lemma HandOverFields(t: Table, s: seq<Ptr>, v: Ptr, caller: Ptr)
    requires caller in t && (s != [] ==> s[|s| - 1] in t)
    ensures var t2 := HandOver(t, s, v, caller);
            && t2.Keys == t.Keys - {v}
            && forall x {:trigger t2[x]} :: x in t2 ==>
                 && t2[x].parent == (if x in s then caller else t[x].parent)
                 && (x != caller || s == [] ==> t2[x].child == t[x].child)
                 && (x !in s ==> t2[x].sibling == t[x].sibling)
                 && t2[x].globalid == t[x].globalid && t2[x].localid == t[x].localid && t2[x].state == t[x].state
  {
  }

  lemma HandOverKids(t: Table, a: seq<Ptr>, b: seq<Ptr>, v: Ptr, caller: Ptr)
    requires v in t && caller in t && caller != v && t[v].parent == NULL != v && NULL != caller
    requires a != [] && KidsOk(t, v, a) && KidsOk(t, caller, b) && Apart(a, b)
    ensures a[|a| - 1] in t && KidsOk(HandOver(t, a, v, caller), caller, a + b)
  {
    var t2, ab := HandOver(t, a, v, caller), a + b;
    DistinctConcat(a, b);
    forall i {:trigger a[i]} | 0 <= i < |a|
      ensures a[i] in t2 && t2[a[i]].parent == caller && t2[a[i]].sibling == At(ab, i + 1)
    {
      assert a[i] != v;
    }
    forall i {:trigger b[i]} | 0 <= i < |b|
      ensures b[i] in t2 && t2[b[i]].parent == caller && t2[b[i]].sibling == At(b, i + 1)
    {
      assert b[i] != v && b[i] !in a;
    }
    JoinedKids(t2, a, b, caller);
  }

  lemma JoinedKids(t: Table, a: seq<Ptr>, b: seq<Ptr>, p: Ptr)
    requires p in t && a != [] && t[p].child == a[0] && Distinct(a + b)
    requires forall i {:trigger a[i]} :: 0 <= i < |a| ==>
               a[i] in t && t[a[i]].parent == p && t[a[i]].sibling == At(a + b, i + 1)
    requires forall i {:trigger b[i]} :: 0 <= i < |b| ==>
               b[i] in t && t[b[i]].parent == p && t[b[i]].sibling == At(b, i + 1)
    ensures KidsOk(t, p, a + b)
  {
    var ab := a + b;
    forall i {:trigger ab[i]} | 0 <= i < |ab|
      ensures ab[i] in t && t[ab[i]].parent == p && t[ab[i]].sibling == At(ab, i + 1)
    {
      assert ab[i] == if i < |a| then a[i] else b[i - |a|];
    }
  }

  lemma HandOverOthers(t: Table, a: seq<Ptr>, v: Ptr, caller: Ptr, q: Ptr, s: seq<Ptr>)
    requires v in t && caller in t && t[v].parent == NULL && (a != [] ==> a[|a| - 1] in t)
    requires q in t && q != NULL && q != v && (q != caller || a == []) && KidsOk(t, q, s) && Apart(a, s)
    ensures KidsOk(HandOver(t, a, v, caller), q, s)
  {
    HandOverFields(t, a, v, caller);
    hide HandOver;
    assert forall i {:trigger s[i]} :: 0 <= i < |s| ==> s[i] !in a && s[i] != v;
    KidsFrame(t, HandOver(t, a, v, caller), q, s);
  }

  lemma HandOverLinked(t: Table, kids: Kids, v: Ptr, caller: Ptr)
    requires Linked(t, kids) && v in t && caller in t && (caller != v || kids[v] == []) && t[v].parent == NULL
    ensures kids[v] != [] ==> kids[v][|kids[v]| - 1] in t
    ensures Linked(HandOver(t, kids[v], v, caller), Remove(kids[caller := kids[v] + kids[caller]], v))
  {
    assert KidsOk(t, v, kids[v]);
    var t2, kids2 := HandOver(t, kids[v], v, caller), Remove(kids[caller := kids[v] + kids[caller]], v);
    assert kids2.Keys == t2.Keys;
    forall q {:trigger KidsOk(t2, q, kids2[q])} | q in t2 ensures KidsOk(t2, q, kids2[q]) {
      if q == caller && kids[v] != [] {
        assert KidsOk(t, caller, kids[caller]);
        OtherLists(t, kids, v, caller);
        HandOverKids(t, kids[v], kids[caller], v, caller);
      } else {
        assert kids2[q] == kids[q];
        OtherLists(t, kids, v, q);
        HandOverOthers(t, kids[v], v, caller, q, kids[q]);
      }
    }
    forall x {:trigger ParentOk(t2, kids2, x)} | x in t2 ensures ParentOk(t2, kids2, x) {
      HandOverParent(t, kids, v, caller, x);
    }
  }

  lemma HandOverParent(t: Table, kids: Kids, v: Ptr, caller: Ptr, x: Ptr)
    requires Linked(t, kids) && v in t && caller in t && (caller != v || kids[v] == []) && t[v].parent == NULL
    requires x in t && x != v
    ensures kids[v] != [] ==> kids[v][|kids[v]| - 1] in t
    ensures var t2 := HandOver(t, kids[v], v, caller);
            && t2[x].parent == (if t[x].parent == v then caller else t[x].parent)
            && (t2[x].parent != NULL ==>
                  t2[x].parent in t2 && x in Remove(kids[caller := kids[v] + kids[caller]], v)[t2[x].parent])
  {
    assert KidsOk(t, v, kids[v]) && ParentOk(t, kids, x);
  }

  // ----- Destroying a thread -----

  /** The children lists once v is gone. */
  function KidsAfter(kids: Kids, p: Ptr, k: nat, v: Ptr, caller: Ptr): Kids
    requires p in kids && k < |kids[p]| && v in kids && caller in kids
  {
    var kids1 := kids[p := Dropped(kids[p], k)];
    Remove(kids1[caller := kids1[v] + kids1[caller]], v)
  }

  /** The table once v is gone. */
  function TableAfter(t: Table, kids: Kids, p: Ptr, k: nat, v: Ptr, caller: Ptr): Table
    requires p in kids && k < |kids[p]| && v in kids && p in t && caller in t
    requires kids[p][k] in t && (k > 0 ==> kids[p][k - 1] in t) && (kids[v] != [] ==> kids[v][|kids[v]| - 1] in t)
  {
    HandOver(Unlink(t, kids[p], p, k), kids[v], v, caller)
  }

  /** v is the k-th child of p. */
  predicate Victim(t: Table, kids: Kids, p: Ptr, k: nat, v: Ptr, caller: Ptr) {
    && Linked(t, kids) && p in t && p != v && k < |kids[p]| && kids[p][k] == v
    && caller in t
  }

  lemma VictimLinks(t: Table, kids: Kids, p: Ptr, k: nat, v: Ptr, caller: Ptr)
    requires Victim(t, kids, p, k, v, caller)
    ensures v in t && t[v].parent == p && (k > 0 ==> kids[p][k - 1] in t)
    ensures kids[v] != [] ==> kids[v][|kids[v]| - 1] in t
    ensures v !in kids[v]
  {
    assert KidsOk(t, p, kids[p]);
    assert KidsOk(t, v, kids[v]);
  }

  lemma DetachedOrNot(t: Table, s: seq<Ptr>, v: Ptr, caller: Ptr)
    requires v in t && caller in t && v !in s && (s != [] ==> s[|s| - 1] in t)
    ensures HandOver(Detached(t, v), s, v, caller) == HandOver(t, s, v, caller)
  {
  }

  /** The links are those of the new children lists. */
  lemma DestroyLinked(t: Table, kids: Kids, p: Ptr, k: nat, v: Ptr, caller: Ptr)
    requires Victim(t, kids, p, k, v, caller) && (caller != v || kids[v] == [])
    ensures v in t && (k > 0 ==> kids[p][k - 1] in t) && (kids[v] != [] ==> kids[v][|kids[v]| - 1] in t)
    ensures Linked(TableAfter(t, kids, p, k, v, caller), KidsAfter(kids, p, k, v, caller))
  {
    VictimLinks(t, kids, p, k, v, caller);
    UnlinkLinked(t, kids, p, k);
    hide Linked, HandOver;
    var t1, kids1 := Unlink(t, kids[p], p, k), kids[p := Dropped(kids[p], k)];
    DetachedOrNot(t1, kids[v], v, caller);
    HandOverLinked(Detached(t1, v), kids1, v, caller);
  }

  /** Only v is gone, its children belong to the caller, every other parent link
      and all identifiers and states are as before. */
  lemma DestroyFields(t: Table, kids: Kids, p: Ptr, k: nat, v: Ptr, caller: Ptr)
    requires Victim(t, kids, p, k, v, caller)
    ensures v in t && (k > 0 ==> kids[p][k - 1] in t) && (kids[v] != [] ==> kids[v][|kids[v]| - 1] in t)
    ensures var t2 := TableAfter(t, kids, p, k, v, caller);
            && t2.Keys == t.Keys - {v}
            && forall x {:trigger t2[x]} :: x in t2 ==>
                 && t2[x].parent == (if t[x].parent == v then caller else t[x].parent)
                 && t2[x].globalid == t[x].globalid && t2[x].localid == t[x].localid && t2[x].state == t[x].state
  {
    VictimLinks(t, kids, p, k, v, caller);
    ChildrenOf(t, kids, v);
    hide Linked;
    var t1 := Unlink(t, kids[p], p, k);
    assert SameFields(t, t1);
    HandOverFields(t1, kids[v], v, caller);
    hide HandOver, Unlink, SameFields;
    var t2 := HandOver(t1, kids[v], v, caller);
    forall x {:trigger t2[x]} | x in t2
      ensures x in t && t2[x].parent == (if t[x].parent == v then caller else t[x].parent)
      ensures t2[x].globalid == t[x].globalid && t2[x].localid == t[x].localid && t2[x].state == t[x].state
    {
      SameAt(t, t1, x);
    }
  }

  /** The tables differ in child and sibling links only. */
  predicate SameFields(t: Table, t1: Table) {
    && t1.Keys == t.Keys
    && forall x {:trigger t1[x]} :: x in t ==>
         && t1[x].parent == t[x].parent
         && t1[x].globalid == t[x].globalid && t1[x].localid == t[x].localid && t1[x].state == t[x].state
  }

  lemma SameAt(t: Table, t1: Table, x: Ptr)
    requires SameFields(t, t1) && (x in t || x in t1)
    ensures x in t && x in t1 && t1[x].parent == t[x].parent
    ensures t1[x].globalid == t[x].globalid && t1[x].localid == t[x].localid && t1[x].state == t[x].state
  {
  }

  lemma ChildrenOf(t: Table, kids: Kids, v: Ptr)
    requires Linked(t, kids) && v in t
    ensures forall x {:trigger t[x]} :: x in t ==> (x in kids[v] <==> t[x].parent == v)
  {
    forall x {:trigger t[x]} | x in t ensures x in kids[v] <==> t[x].parent == v {
      ChildOrNot(t, kids, v, x);
    }
  }

  lemma ChildOrNot(t: Table, kids: Kids, v: Ptr, x: Ptr)
    requires Linked(t, kids) && v in t && x in t
    ensures x in kids[v] <==> t[x].parent == v
  {
    assert KidsOk(t, v, kids[v]) && ParentOk(t, kids, x);
  }

  /** Ranks for the table after: the subtree of v moves below the caller. */
  ghost function Lifted(f: Forest, v: Ptr, caller: Ptr): Ptr -> nat
    requires f.Ok()
  {
    x => if x in f.t && f.Under(v, x) then f.rank(x) + f.rank(caller) + 1 else f.rank(x)
  }

  /** Parent links of a table from which v was removed in favour of the caller. */
  predicate Moved(t: Table, t2: Table, v: Ptr, caller: Ptr) {
    && t2.Keys == t.Keys - {v}
    && forall x {:trigger t2[x]} :: x in t2 ==> t2[x].parent == if t[x].parent == v then caller else t[x].parent
  }

  lemma LiftedRanks(f: Forest, t2: Table, v: Ptr, caller: Ptr)
    requires f.Ok() && v in f.t && caller in f.t && Moved(f.t, t2, v, caller) && !f.Under(v, caller)
    ensures Ranked(t2, Lifted(f, v, caller))
  {
    var rank := Lifted(f, v, caller);
    forall x {:trigger RankOk(t2, rank, x)} | x in t2 ensures RankOk(t2, rank, x) {
      assert ParentOk(f.t, f.kids, x) && RankOk(f.t, f.rank, x);
      if f.t[x].parent == v {
        assert f.Under(v, v) && f.Under(v, x);
      }
    }
  }

  /** Every thread between a child c of v and x keeps its parent, so c stays above x. */
  lemma {:induction false} StaysAbove(f: Forest, t2: Table, v: Ptr, caller: Ptr, rank: Ptr -> nat, c: Ptr, x: Ptr)
    requires f.Ok() && v in f.t && Moved(f.t, t2, v, caller) && Ranked(t2, rank)
    requires x in f.t && c in f.t && f.t[c].parent == v && f.Under(c, x)
    ensures x != v && rank(c) <= rank(x)
    decreases f.rank(x)
  {
    assert ParentOk(f.t, f.kids, x) && ParentOk(f.t, f.kids, c) && RankOk(f.t, f.rank, x) && RankOk(f.t, f.rank, c);
    UnderRank(f, c, x);
    if x != c {
      if f.t[x].parent == v {
        UnderRank(f, c, v);
        assert false;
      }
      StaysAbove(f, t2, v, caller, rank, c, f.t[x].parent);
      assert RankOk(t2, rank, x) && t2[x].parent == f.t[x].parent;
    }
  }

  /** A proper descendant of v is below one of its children. */
  lemma {:induction false} ThroughChild(f: Forest, v: Ptr, x: Ptr) returns (c: Ptr)
    requires f.Ok() && x in f.t && x != v && f.Under(v, x)
    ensures c in f.t && f.t[c].parent == v && f.Under(c, x)
    decreases f.rank(x)
  {
    assert ParentOk(f.t, f.kids, x) && RankOk(f.t, f.rank, x);
    if f.t[x].parent == v {
      c := x;
    } else {
      c := ThroughChild(f, v, f.t[x].parent);
    }
  }

  lemma RankAt(f: Forest, t2: Table, v: Ptr, caller: Ptr, rank: Ptr -> nat, c: Ptr)
    requires f.Ok() && Moved(f.t, t2, v, caller) && Ranked(t2, rank)
    requires v in f.t && caller in f.t && c in f.t && f.t[c].parent == v
    ensures rank(caller) < rank(c)
  {
    assert ParentOk(f.t, f.kids, c) && RankOk(f.t, f.rank, c);
    assert RankOk(t2, rank, c) && t2[c].parent == caller;
  }

  lemma NoRankBelowItself(f: Forest, t2: Table, v: Ptr, caller: Ptr, rank: Ptr -> nat)
    requires f.Ok() && v in f.t && caller in f.t && caller != v && f.Under(v, caller) && Moved(f.t, t2, v, caller)
    ensures !Ranked(t2, rank)
  {
    hide Linked, Ranked, Moved;
    if Ranked(t2, rank) {
      var c := ThroughChild(f, v, caller);
      StaysAbove(f, t2, v, caller, rank, c, caller);
      RankAt(f, t2, v, caller, rank, c);
      assert false;
    }
  }

  /** A thread without children leaves every other rank in order. */
  lemma ChildlessRanks(f: Forest, t2: Table, v: Ptr, caller: Ptr)
    requires f.Ok() && v in f.t && f.kids[v] == [] && Moved(f.t, t2, v, caller)
    ensures Ranked(t2, f.rank)
  {
    forall x {:trigger RankOk(t2, f.rank, x)} | x in t2 ensures RankOk(t2, f.rank, x) {
      assert ParentOk(f.t, f.kids, x) && RankOk(f.t, f.rank, x);
    }
  }

  /** The children of a thread that destroys itself are left with a dead parent. */
  lemma OrphansAreNoForest(f: Forest, t2: Table, v: Ptr, kids2: Kids)
    requires f.Ok() && v in f.t && f.kids[v] != [] && Moved(f.t, t2, v, v)
    ensures !Linked(t2, kids2)
  {
    var c := f.kids[v][0];
    assert KidsOk(f.t, v, f.kids[v]);
    assert RankOk(f.t, f.rank, c) && c in t2 && t2[c].parent == v;
    if Linked(t2, kids2) {
      ParentAlive(t2, kids2, c);
      assert false;
    }
  }

  lemma ParentAlive(t: Table, kids: Kids, x: Ptr)
    requires Linked(t, kids) && x in t && t[x].parent != NULL
    ensures t[x].parent in t
  {
    assert ParentOk(t, kids, x);
  }

  /** Exactly when thread_destroy leaves a forest: the victim has no children, or
      the caller is neither the victim nor below it. */
  lemma DestroyForestExact(f: Forest, p: Ptr, k: nat, v: Ptr, caller: Ptr)
    requires f.Ok() && Victim(f.t, f.kids, p, k, v, caller)
    ensures v in f.t && (k > 0 ==> f.kids[p][k - 1] in f.t) && (f.kids[v] != [] ==> f.kids[v][|f.kids[v]| - 1] in f.t)
    ensures IsForest(TableAfter(f.t, f.kids, p, k, v, caller)) <==> f.kids[v] == [] || !f.Under(v, caller)
  {
    DestroyFields(f.t, f.kids, p, k, v, caller);
    var t2, kids2 := TableAfter(f.t, f.kids, p, k, v, caller), KidsAfter(f.kids, p, k, v, caller);
    if caller != v || f.kids[v] == [] {
      DestroyLinked(f.t, f.kids, p, k, v, caller);
    }
    hide Linked, TableAfter, KidsAfter;
    if f.kids[v] == [] {
      ChildlessRanks(f, t2, v, caller);
      assert Forest(t2, kids2, f.rank).Ok();
    } else if !f.Under(v, caller) {
      assert f.Under(v, v);
      LiftedRanks(f, t2, v, caller);
      assert Forest(t2, kids2, Lifted(f, v, caller)).Ok();
    } else {
      forall kids: Kids, rank: Ptr -> nat ensures !Forest(t2, kids, rank).Ok() {
        if caller == v {
          OrphansAreNoForest(f, t2, v, kids);
        } else {
          NoRankBelowItself(f, t2, v, caller, rank);
        }
      }
    }
  }

  /** Thread 1 with its child 2, and its grandchild 3. */
  ghost function Family(): Forest {
    Forest(map[1 := Tcb(0, 0, Runnable, NULL, 2, NULL), 2 := Tcb(0, 0, Runnable, 1, 3, NULL),
               3 := Tcb(0, 0, Runnable, 2, NULL, NULL)],
           map[1 := [2], 2 := [3], 3 := []], (x: Ptr) => x)
  }

  lemma FamilyOk()
    ensures var f := Family(); f.Ok() && 3 in f.t && f.Under(2, 3) && Victim(f.t, f.kids, 1, 0, 2, 3)
  {
    var f := Family();
    assert Linked(f.t, f.kids);
    assert Ranked(f.t, f.rank);
    assert f.Under(2, 2) && f.t[3].parent == 2;
  }

  /** Thread 3 destroys its parent, thread 2: it becomes its own parent. */
  lemma DestroyBreaksTree()
    ensures var f := Family();
            && f.Ok() && Victim(f.t, f.kids, 1, 0, 2, 3)
            && 2 in f.kids && f.kids[2] == [3] && 2 in f.t && 3 in f.t
            && !IsForest(TableAfter(f.t, f.kids, 1, 0, 2, 3))
  {
    FamilyOk();
    hide Linked, Ranked, Victim, IsForest, TableAfter;
    DestroyForestExact(Family(), 1, 0, 2, 3);
  }
}
