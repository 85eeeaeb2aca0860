/** The table of threads: the sorted thread map, creation, destruction and
    selection (kernel/thread.c). */
module Threads {
  import opened ThreadTree
  import opened ThreadForest

  const THREAD_SYS: nat := 16
  const ANYTHREAD: nat := 0xFFFF_FFFF
  const ANYLOCALTHREAD: nat := 0xFFFF_FFC0

  /** The identifiers thread_create refuses. */
  predicate Refused(globalid: nat) {
    TidOf(globalid) < THREAD_SYS || globalid == ANYTHREAD || globalid == ANYLOCALTHREAD
  }

  // ----- The thread map as a sequence -----

  predicate AllIn(t: Table, s: seq<Ptr>) {
    forall i {:trigger s[i]} :: 0 <= i < |s| ==> s[i] in t
  }

  predicate SortedByTid(t: Table, s: seq<Ptr>)
    requires AllIn(t, s)
  {
    forall i, j :: 0 <= i < j < |s| ==> TidOf(t[s[i]].globalid) <= TidOf(t[s[j]].globalid)
  }

  /** The map lists every thread once, in the order of the thread numbers. */
  predicate Maps(t: Table, s: seq<Ptr>) {
    && AllIn(t, s) && SortedByTid(t, s) && Distinct(s)
    && forall x {:trigger x in t} :: x in t ==> x in s
  }

  /** Some thread has this number. */
  predicate Present(t: Table, tid: nat) {
    exists x :: x in t && TidOf(t[x].globalid) == tid
  }

  /** Index i is where a thread with this number belongs. */
  predicate Belongs(t: Table, s: seq<Ptr>, tid: nat, i: nat)
    requires AllIn(t, s)
  {
    && i <= |s|
    && (forall j {:trigger s[j]} :: 0 <= j < i ==> TidOf(t[s[j]].globalid) <= tid)
    && (forall j {:trigger s[j]} :: i <= j < |s| ==> tid <= TidOf(t[s[j]].globalid))
  }

  /** Where the binary search of thread_map_search ends on s[lo..hi]. */
  function Halve(t: Table, s: seq<Ptr>, tid: nat, lo: int, hi: int): nat
    requires AllIn(t, s) && 0 <= lo < hi <= |s|
    decreases hi - lo
  {
    var mid := lo + (hi - lo) / 2;
    if hi - lo <= 1 then hi
    else if TidOf(t[s[mid]].globalid) > tid then Halve(t, s, tid, lo, mid)
    else if TidOf(t[s[mid]].globalid) < tid then Halve(t, s, tid, mid, hi)
    else mid
  }

  function SearchPlace(t: Table, s: seq<Ptr>, tid: nat): nat
    requires AllIn(t, s)
  {
    if s == [] || TidOf(t[s[0]].globalid) >= tid then 0 else Halve(t, s, tid, 0, |s|)
  }

  /** The thread the search for this number ends at, NULL if it has another number. */
  function Found(t: Table, s: seq<Ptr>, tid: nat): Ptr
    requires AllIn(t, s)
  {
    var i := SearchPlace(t, s, tid);
    if i < |s| && TidOf(t[s[i]].globalid) == tid then s[i] else NULL
  }

  /** The search depends on the identifiers only. */
  lemma SearchFrame(t: Table, t2: Table, s: seq<Ptr>, tid: nat)
    requires AllIn(t, s) && IdsKept(t, t2)
    ensures AllIn(t2, s) && SearchPlace(t2, s, tid) == SearchPlace(t, s, tid) && Found(t2, s, tid) == Found(t, s, tid)
  {
    hide TidOf;
    if s != [] {
      HalveFrame(t, t2, s, tid, 0, |s|);
    }
  }

  lemma {:induction false} HalveFrame(t: Table, t2: Table, s: seq<Ptr>, tid: nat, lo: int, hi: int)
    requires AllIn(t, s) && AllIn(t2, s) && IdsKept(t, t2) && 0 <= lo < hi <= |s|
    ensures Halve(t2, s, tid, lo, hi) == Halve(t, s, tid, lo, hi)
    decreases hi - lo
  {
    hide TidOf;
    if hi - lo > 1 {
      var mid := lo + (hi - lo) / 2;
      HalveFrame(t, t2, s, tid, lo, mid);
      HalveFrame(t, t2, s, tid, mid, hi);
    }
  }

  /** The halving ends between smaller and greater numbers, or at the number. */
  lemma {:induction false} HalveSeparates(t: Table, s: seq<Ptr>, tid: nat, lo: int, hi: int)
    requires AllIn(t, s) && 0 <= lo < hi <= |s| && TidOf(t[s[lo]].globalid) < tid
    requires hi < |s| ==> tid < TidOf(t[s[hi]].globalid)
    ensures var i := Halve(t, s, tid, lo, hi);
            && 0 < i <= hi && (i < |s| ==> tid <= TidOf(t[s[i]].globalid))
            && (TidOf(t[s[i - 1]].globalid) < tid || (i < |s| && TidOf(t[s[i]].globalid) == tid))
    decreases hi - lo
  {
    hide TidOf;
    if hi - lo > 1 {
      var mid := lo + (hi - lo) / 2;
      if TidOf(t[s[mid]].globalid) > tid {
        HalveSeparates(t, s, tid, lo, mid);
      } else if TidOf(t[s[mid]].globalid) < tid {
        HalveSeparates(t, s, tid, mid, hi);
      }
    }
  }

  /** A place that separates smaller from greater numbers belongs, and shows
      whether the number is there. */
  lemma FoundAt(t: Table, s: seq<Ptr>, tid: nat, i: nat)
    requires Maps(t, s) && i <= |s|
    requires i > 0 ==> TidOf(t[s[i - 1]].globalid) < tid || (i < |s| && TidOf(t[s[i]].globalid) == tid)
    requires i < |s| ==> tid <= TidOf(t[s[i]].globalid)
    ensures Belongs(t, s, tid, i)
    ensures Present(t, tid) <==> (i < |s| && TidOf(t[s[i]].globalid) == tid)
  {
    forall j {:trigger s[j]} | 0 <= j < i ensures TidOf(t[s[j]].globalid) <= tid {
    }
    if x :| x in t && TidOf(t[x].globalid) == tid {
      var j :| 0 <= j < |s| && s[j] == x;
    }
  }

  /** The search ends where the number belongs, and at the number if it is there. */
  lemma SearchBelongs(t: Table, s: seq<Ptr>, tid: nat)
    requires Maps(t, s)
    ensures var i := SearchPlace(t, s, tid);
            && Belongs(t, s, tid, i)
            && (Present(t, tid) <==> (i < |s| && TidOf(t[s[i]].globalid) == tid))
  {
    hide TidOf, Halve;
    if s != [] && TidOf(t[s[0]].globalid) < tid {
      HalveSeparates(t, s, tid, 0, |s|);
    }
    FoundAt(t, s, tid, SearchPlace(t, s, tid));
  }

  function Inserted(s: seq<Ptr>, i: nat, slot: Ptr): seq<Ptr>
    requires i <= |s|
  {
    s[..i] + [slot] + s[i..]
  }

  lemma InsertedAll(s: seq<Ptr>, i: nat, slot: Ptr, s2: seq<Ptr>)
    requires i <= |s| && |s2| == |s| + 1 && s2[..i] == s[..i] && s2[i] == slot
    requires forall j :: i < j < |s2| ==> s2[j] == s[j - 1]
    ensures s2 == Inserted(s, i, slot)
  {
    assert s2[i + 1..] == s[i..];
    assert s2 == s2[..i] + [slot] + s2[i + 1..];
  }

  lemma DroppedAll(s: seq<Ptr>, i: nat, s2: seq<Ptr>)
    requires i < |s| && |s2| == |s| - 1
    requires forall j {:trigger s2[j]} :: 0 <= j < |s2| ==> s2[j] == s[if j < i then j else j + 1]
    ensures s2 == Dropped(s, i)
  {
    forall j | 0 <= j < |s2| ensures s2[j] == Dropped(s, i)[j] {
      DroppedIndex(s, i, j);
    }
  }

  lemma EmptyBelongs(t: Table, s: seq<Ptr>, tid: nat)
    requires |s| == 0
    ensures Belongs(t, s, tid, 0)
  {
  }

  lemma InsertKeepsMap(t: Table, s: seq<Ptr>, slot: Ptr, rec: Tcb, i: nat)
    requires Maps(t, s) && slot !in t && Belongs(t, s, TidOf(rec.globalid), i)
    ensures Maps(t[slot := rec], Inserted(s, i, slot))
  {
  }

  /** Same threads, same identifiers. */
  predicate IdsKept(t: Table, t2: Table) {
    t2.Keys == t.Keys && forall x {:trigger t2[x]} :: x in t ==> t2[x].globalid == t[x].globalid
  }

  /** The map depends on the identifiers only. */
  lemma MapsFrame(t: Table, t2: Table, s: seq<Ptr>)
    requires Maps(t, s) && IdsKept(t, t2)
    ensures Maps(t2, s)
  {
  }

  lemma DeleteKeepsMap(t: Table, s: seq<Ptr>, i: nat)
    requires Maps(t, s) && i < |s|
    ensures Maps(Remove(t, s[i]), Dropped(s, i))
  {
    hide SortedByTid;
    var t2, d := Remove(t, s[i]), Dropped(s, i);
    DroppedDistinct(s, i);
    forall j {:trigger d[j]} | 0 <= j < |d| ensures d[j] in t2 {
      hide Dropped;
      DroppedIndex(s, i, j);
      IndexApart(s, i, if j < i then j else j + 1);
    }
    DroppedSorted(t, s, i);
    forall x {:trigger x in t2} | x in t2 ensures x in d {
      StillIn(s, i, x);
    }
  }

  lemma DroppedSorted(t: Table, s: seq<Ptr>, i: nat)
    requires AllIn(t, s) && SortedByTid(t, s) && i < |s| && AllIn(Remove(t, s[i]), Dropped(s, i))
    ensures SortedByTid(Remove(t, s[i]), Dropped(s, i))
  {
    hide TidOf;
    var t2, d := Remove(t, s[i]), Dropped(s, i);
    forall j, k | 0 <= j < k < |d| ensures TidOf(t2[d[j]].globalid) <= TidOf(t2[d[k]].globalid) {
      DroppedIndex(s, i, j);
      DroppedIndex(s, i, k);
    }
  }

  class ThreadTable {
    var tcb: Table
    const threadMap: array<Ptr>
    var count: nat
    ghost var kids: Kids
    ghost var rank: Ptr -> nat

    ghost function Tree(): Forest
      reads this
    {
      Forest(tcb, kids, rank)
    }

    ghost predicate MapOk()
      reads this, threadMap
    {
      count <= threadMap.Length && Maps(tcb, threadMap[..count])
    }

    // ----- The thread map -----

    /** The binary search of thread_map_search. */
    method Search(tid: nat, ghost s: seq<Ptr>) returns (i: int)
      requires count <= threadMap.Length && s == threadMap[..count] && AllIn(tcb, s)
      ensures i == SearchPlace(tcb, s, tid)
    {
      hide TidOf;
      var from, to := 0, count;
      if to == from || TidOf(tcb[threadMap[from]].globalid) >= tid {
        return from;
      }
      while from <= to
        invariant 0 <= from < to <= count
        invariant SearchPlace(tcb, s, tid) == Halve(tcb, s, tid, from, to)
      {
        var mid := from + (to - from) / 2;
        if to - from <= 1 {
          return to;
        }
        var here := TidOf(tcb[threadMap[mid]].globalid);
        if here > tid {
          to := mid;
        } else if here < tid {
          from := mid;
        } else {
          return mid;
        }
      }
      i := -1;
    }

    /** thread_map_search. */
    method MapSearch(globalid: nat) returns (i: nat)
      requires MapOk()
      ensures Belongs(tcb, threadMap[..count], TidOf(globalid), i)
      ensures Present(tcb, TidOf(globalid)) <==>
              (i < count && TidOf(tcb[threadMap[i]].globalid) == TidOf(globalid))
      ensures i == SearchPlace(tcb, threadMap[..count], TidOf(globalid))
    {
      hide TidOf, Present, Belongs, SearchPlace;
      i := Search(TidOf(globalid), threadMap[..count]);
      SearchBelongs(tcb, threadMap[..count], TidOf(globalid));
    }

    /** thread_map_insert: everything from the place on moves up by one. */
    method MapInsert(globalid: nat, thr: Ptr) returns (ghost i: nat)
      requires MapOk() && count < threadMap.Length
      modifies this`count, threadMap
      ensures count == old(count) + 1 && Belongs(tcb, old(threadMap[..count]), TidOf(globalid), i)
      ensures threadMap[..count] == Inserted(old(threadMap[..count]), i, thr)
    {
      hide Maps, Inserted;
      ghost var s := threadMap[..count];
      var at := 0;
      if count == 0 {
        EmptyBelongs(tcb, s, TidOf(globalid));
      } else {
        at := MapSearch(globalid);
        OpenGap(at, s);
      }
      threadMap[at] := thr;
      count := count + 1;
      i := at;
      InsertedAll(s, at, thr, threadMap[..count]);
    }

    method OpenGap(at: nat, ghost s: seq<Ptr>)
      requires at <= count < threadMap.Length && s == threadMap[..count]
      modifies threadMap
      ensures threadMap[..at] == s[..at]
      ensures forall k {:trigger threadMap[k]} :: at < k <= count ==> threadMap[k] == s[k - 1]
    {
      var j := count;
      while j > at
        invariant at <= j <= count
        invariant threadMap[..j] == s[..j]
        invariant forall k {:trigger threadMap[k]} :: j < k <= count ==> threadMap[k] == s[k - 1]
      {
        threadMap[j] := threadMap[j - 1];
        j := j - 1;
      }
    }

    /** thread_map_delete: everything behind the thread moves down by one. */
    method MapDelete(globalid: nat) returns (ghost i: nat)
      requires MapOk() && Present(tcb, TidOf(globalid))
      modifies this`count, threadMap
      ensures i == old(SearchPlace(tcb, threadMap[..count], TidOf(globalid)))
      ensures i < old(count) && old(threadMap[i]) in tcb && TidOf(tcb[old(threadMap[i])].globalid) == TidOf(globalid)
      ensures count == old(count) - 1 && threadMap[..count] == Dropped(old(threadMap[..count]), i)
    {
      ghost var s := threadMap[..count];
      assert AllIn(tcb, s);
      hide Maps, Dropped, TidOf, Present, Belongs, Halve;
      if count == 1 {
        SearchBelongs(tcb, s, TidOf(globalid));
        i := 0;
        count := 0;
        DroppedAll(s, 0, []);
      } else {
        var at := MapSearch(globalid);
        i := at;
        count := count - 1;
        CloseGap(at, s);
      }
    }

    method CloseGap(at: nat, ghost s: seq<Ptr>)
      requires at <= count < threadMap.Length && s == threadMap[..count + 1]
      modifies threadMap
      ensures threadMap[..count] == Dropped(s, at)
    {
      var j := at;
      while j < count
        invariant at <= j <= count
        invariant forall k {:trigger threadMap[k]} :: 0 <= k < j ==> threadMap[k] == s[if k < at then k else k + 1]
        invariant forall k {:trigger threadMap[k]} :: j <= k <= count ==> threadMap[k] == s[k]
      {
        threadMap[j] := threadMap[j + 1];
        j := j + 1;
      }
      DroppedAll(s, at, threadMap[..count]);
    }

    /** thread_by_globalid. The source looks at the entry at the place found even
        when that is behind the last thread; `inside` tells when it is not. */
    method ByGlobalid(globalid: nat) returns (r: Ptr, inside: bool)
      requires MapOk() && NULL !in tcb
      ensures r == NULL <==> !Present(tcb, TidOf(globalid))
      ensures r != NULL ==> r in tcb && TidOf(tcb[r].globalid) == TidOf(globalid)
      ensures r == Found(tcb, threadMap[..count], TidOf(globalid))
      ensures inside <==> exists x :: x in tcb && TidOf(tcb[x].globalid) >= TidOf(globalid)
    {
      hide SearchPlace;
      var i := MapSearch(globalid);
      inside := i < count;
      if inside {
        assert threadMap[..count][i] in tcb;
      } else {
        AllBelow(tcb, threadMap[..count], TidOf(globalid));
      }
      if !inside || TidOf(tcb[threadMap[i]].globalid) != TidOf(globalid) {
        return NULL, inside;
      }
      return threadMap[i], inside;
    }

    // ----- Creation -----

    ghost predicate Valid()
      reads this, threadMap
    {
      Tree().Ok() && MapOk()
    }

    constructor (capacity: nat)
      ensures Valid() && tcb == map[] && count == 0 && threadMap.Length == capacity && fresh(threadMap)
    {
      tcb, kids, rank, count := map[], map[], _ => 0, 0;
      threadMap := new Ptr[capacity](_ => NULL);
    }

    /** thread_init: the slot is what the table allocator returned, NULL when the
        table is full. */
    method ThreadInit(globalid: nat, slot: Ptr) returns (r: Ptr)
      requires Valid() && slot !in tcb && (slot != NULL ==> count < threadMap.Length)
      modifies this, threadMap
      ensures Valid() && r == slot && rank == old(rank)
      ensures slot == NULL ==>
                tcb == old(tcb) && kids == old(kids) && threadMap[..] == old(threadMap[..]) && count == old(count)
      ensures slot != NULL ==>
                && tcb == old(tcb)[slot := Tcb(globalid, 0, Inactive, NULL, NULL, NULL)]
                && kids == old(kids)[slot := []] && count == old(count) + 1
    {
      if slot == NULL {
        return NULL;
      }
      r := slot;
      hide Linked, Ranked, Maps, Inserted;
      var rec := Tcb(globalid, 0, Inactive, NULL, NULL, NULL);
      ghost var s := threadMap[..count];
      ghost var i := MapInsert(globalid, slot);
      InitForest(Tree(), slot, rec);
      InsertKeepsMap(tcb, s, slot, rec, i);
      tcb := tcb[slot := rec];
      kids := kids[slot := []];
    }

    /** The loop to the last child of the caller. */
    method LastChild(caller: Ptr, ghost s: seq<Ptr>) returns (last: Ptr)
      requires NULL !in tcb && caller in tcb && KidsOk(tcb, caller, s) && s != []
      ensures last == s[|s| - 1]
    {
      ghost var i := 0;
      last := tcb[caller].child;
      while tcb[last].sibling != NULL
        invariant i < |s| && last == s[i]
        decreases |s| - i
      {
        assert tcb[s[i]].sibling == At(s, i + 1);
        last := tcb[last].sibling;
        i := i + 1;
      }
      assert tcb[s[i]].sibling == At(s, i + 1);
    }

    /** A created thread goes behind the children of the caller. */
    method PlaceUnder(caller: Ptr, slot: Ptr, ghost t: Table, ghost s: seq<Ptr>)
      requires caller in t && slot !in t && slot != NULL && NULL !in t && KidsOk(t, caller, s)
      requires slot in tcb && tcb == t[slot := tcb[slot]]
      modifies this`tcb
      ensures s != [] ==> s[|s| - 1] in t
      ensures tcb == Adopt(t[slot := old(tcb)[slot].(localid := NextLocalid(t, s))], s, caller, slot)
    {
      KidsFrame(t, tcb, caller, s);
      assert s != [] ==> s[0] in t && s[|s| - 1] in t;
      if tcb[caller].child != NULL {
        var last := LastChild(caller, s);
        tcb := tcb[last := tcb[last].(sibling := slot)];
        tcb := tcb[slot := tcb[slot].(localid := (tcb[last].localid + 64) % WORD)];
      } else {
        tcb := tcb[caller := tcb[caller].(child := slot)];
        tcb := tcb[slot := tcb[slot].(localid := 64)];
      }
    }

    /** The local identifier of the caller's next child. */
    ghost function NextIdUnder(caller: Ptr): nat
      reads this
      requires Tree().Ok() && caller in tcb
    {
      assert KidsOk(tcb, caller, kids[caller]);
      NextLocalid(tcb, kids[caller])
    }

    /** Puts the thread made by ThreadInit into the tree f as the caller's last child. */
    method LinkNew(caller: Ptr, slot: Ptr, ghost f: Forest, ghost rec: Tcb)
      requires f.Ok() && CanAdopt(f, caller, slot) && MapOk()
      requires rec.parent == NULL && rec.child == NULL && rec.sibling == NULL && tcb == f.t[slot := rec]
      modifies this`tcb, this`kids, this`rank
      ensures Valid() && kids == KidsWith(f.kids, caller, slot)
      ensures tcb == Created(f, caller, slot, rec)
    {
      assert KidsOk(f.t, caller, f.kids[caller]);
      hide Linked, Ranked, Maps, KidsOk, Adopt, KidsWith, NextLocalid, Forest.Ok;
      tcb := tcb[slot := tcb[slot].(parent := caller)];
      PlaceUnder(caller, slot, f.t, f.kids[caller]);
      CreateResult(f, caller, slot, rec, threadMap[..count]);
      kids := KidsWith(f.kids, caller, slot);
      rank := Extended(f, caller, slot);
    }

    /** thread_create. */
    method ThreadCreate(globalid: nat, caller: Ptr, slot: Ptr) returns (r: Ptr)
      requires Valid() && caller in tcb
      requires !Refused(globalid) ==> slot != NULL && slot !in tcb && count < threadMap.Length
      modifies this, threadMap
      ensures Valid() && caller in old(kids)
      ensures r == NULL <==> globalid / 0x4000 < 16 || globalid == 0xFFFF_FFFF || globalid == 0xFFFF_FFC0
      ensures Refused(globalid) ==>
                r == NULL && tcb == old(tcb) && kids == old(kids) && threadMap[..] == old(threadMap[..])
      ensures !Refused(globalid) ==>
                && r == slot && tcb.Keys == old(tcb).Keys + {slot}
                && tcb[slot] == Tcb(globalid, old(NextIdUnder(caller)), Inactive, caller, NULL, NULL)
                && kids == KidsWith(old(kids), caller, slot)
                && SameFields(old(tcb), Remove(tcb, slot))
    {
      if Refused(globalid) {
        return NULL;
      }
      KidsAllowAdoption(Tree(), caller, slot);
      hide Linked, Ranked, Maps, KidsOk, SameFields, Remove, KidsWith, NextLocalid, Forest.Ok, TidOf, Created;
      ghost var f := Tree();
      var thr := ThreadInit(globalid, slot);
      LinkNew(caller, slot, f, Tcb(globalid, 0, Inactive, NULL, NULL, NULL));
      CreatedFields(f, caller, slot, Tcb(globalid, 0, Inactive, NULL, NULL, NULL));
      return slot;
    }

    // ----- Selection -----

    /** The climb of thread_select: to the nearest ancestor with a younger sibling,
        or NULL when that would leave the subtree of the parent. */
    method Climb(top: Ptr, x: Ptr) returns (up: Ptr)
      requires Tree().Ok() && top in tcb && x in tcb && x != top && Tree().Under(top, x) && tcb[x].sibling == NULL
      ensures up == NULL ==> Tree().Rest(top, x) == []
      ensures up != NULL ==> up in tcb && up != top && Tree().Under(top, up) && tcb[up].sibling != NULL
      ensures up != NULL ==> Tree().Rest(top, x) == Tree().Rest(top, up)
    {
      assert NULL !in tcb;
      hide Linked, Ranked;
      ghost var f, rest := Tree(), Tree().Rest(top, x);
      up := x;
      while true
        invariant up in tcb && up != top && f.Under(top, up) && tcb[up].sibling == NULL && f.Rest(top, up) == rest
        decreases f.rank(up)
      {
        WalkUp(f, top, up);
        if tcb[up].parent == top {
          return NULL;
        }
        up := tcb[up].parent;
        if tcb[up].sibling != NULL {
          return up;
        }
      }
    }

    /** thread_select: the first runnable descendant in preorder. */
    method ThreadSelect(parent: Ptr) returns (r: Ptr)
      requires Tree().Ok() && parent in tcb
      ensures r == FirstRunnable(tcb, Tree().Descendants(parent))
    {
      hide Linked, Ranked, FirstRunnable;
      ghost var f := Tree();
      ghost var goal := FirstRunnable(tcb, f.Descendants(parent));
      var thr := tcb[parent].child;
      if thr == NULL {
        NothingBelow(f, parent);
        return NULL;
      }
      WalkBegin(f, parent);
      while true
        invariant thr in tcb && thr != parent && f.Under(parent, thr)
        invariant FirstRunnable(tcb, Remaining(f, parent, thr)) == goal
        decreases |Remaining(f, parent, thr)|
      {
        if tcb[thr].state == Runnable {
          RunnableHere(f, parent, thr);
          return thr;
        }
        ghost var x := thr;
        if tcb[thr].child != NULL {
          WalkDown(f, parent, thr);
          thr := tcb[thr].child;
          SkipOne(tcb, x, Remaining(f, parent, thr));
          continue;
        }
        Childless(f, thr);
        SkipOne(tcb, thr, f.Rest(parent, thr));
        if tcb[thr].sibling != NULL {
          WalkAside(f, parent, thr);
          thr := tcb[thr].sibling;
          continue;
        }
        var up := Climb(parent, thr);
        if up == NULL {
          NoneLeft(tcb);
          return NULL;
        }
        WalkAside(f, parent, up);
        thr := tcb[up].sibling;
      }
    }

    // ----- Destruction -----

    /** Takes the k-th child of its parent out of the sibling list. */
    method UnlinkFromParent(thr: Ptr, ghost s: seq<Ptr>, ghost k: nat)
      requires NULL !in tcb && thr in tcb && tcb[thr].parent in tcb
      requires KidsOk(tcb, tcb[thr].parent, s) && k < |s| && s[k] == thr
      modifies this`tcb
      ensures k > 0 ==> s[k - 1] in old(tcb)
      ensures tcb == Unlink(old(tcb), s, old(tcb)[thr].parent, k)
    {
      var parent := tcb[thr].parent;
      if tcb[parent].child == thr {
        tcb := tcb[parent := tcb[parent].(child := tcb[thr].sibling)];
      } else {
        var prev := PreviousSibling(thr, parent, s, k);
        tcb := tcb[prev := tcb[prev].(sibling := tcb[thr].sibling)];
      }
    }

    /** The loop to the elder sibling of the thread. */
    method PreviousSibling(thr: Ptr, parent: Ptr, ghost s: seq<Ptr>, ghost k: nat) returns (prev: Ptr)
      requires NULL !in tcb && parent in tcb && KidsOk(tcb, parent, s) && 0 < k < |s| && s[k] == thr
      ensures prev == s[k - 1] && prev in tcb
    {
      var child := tcb[parent].child;
      prev := NULL;
      ghost var i := 0;
      while child != thr
        invariant i <= k && child == s[i] && (i > 0 ==> prev == s[i - 1])
        decreases k - i
      {
        assert tcb[s[i]].sibling == At(s, i + 1);
        prev := child;
        child := tcb[child].sibling;
        i := i + 1;
      }
    }

    /** The loop that gives the children of thr their new parent. */
    method ReparentChildren(thr: Ptr, caller: Ptr, ghost s: seq<Ptr>) returns (last: Ptr)
      requires NULL !in tcb && thr in tcb && KidsOk(tcb, thr, s) && s != []
      modifies this`tcb
      ensures last == s[|s| - 1] && tcb == Reparent(old(tcb), s, caller)
    {
      ghost var t := tcb;
      last := tcb[thr].child;
      ghost var i := 0;
      NextInList(t, thr, s, 0);
      hide Reparent, KidsOk;
      ReparentStep(t, s, caller, 0);
      tcb := tcb[last := tcb[last].(parent := caller)];
      ReparentSame(t, s[..1], caller, last);
      while tcb[last].sibling != NULL
        invariant i < |s| && last == s[i] && last in t && tcb == Reparent(t, s[..i + 1], caller)
        invariant last in tcb && tcb[last].sibling == t[last].sibling
        decreases |s| - i
      {
        NextInList(t, thr, s, i);
        ReparentStep(t, s, caller, i + 1);
        last := tcb[last].sibling;
        tcb := tcb[last := tcb[last].(parent := caller)];
        i := i + 1;
        ReparentSame(t, s[..i + 1], caller, last);
      }
      NextInList(t, thr, s, i);
      assert s[..i + 1] == s;
    }

    /** The children of thr become the first children of the caller. */
    method MoveChildren(thr: Ptr, caller: Ptr, ghost s: seq<Ptr>)
      requires NULL !in tcb && thr in tcb && KidsOk(tcb, thr, s) && caller in tcb
      modifies this`tcb
      ensures s != [] ==> s[|s| - 1] in old(tcb)
      ensures tcb == Merge(Reparent(old(tcb), s, caller), s, caller)
    {
      ghost var t := tcb;
      assert s != [] ==> s[0] in t && s[|s| - 1] in t;
      if tcb[thr].child != NULL {
        var last := ReparentChildren(thr, caller, s);
        hide Reparent;
        ReparentLinks(t, s, caller, thr);
        tcb := tcb[last := tcb[last].(sibling := tcb[caller].child)];
        tcb := tcb[caller := tcb[caller].(child := tcb[thr].child)];
      } else {
        assert Reparent(t, s, caller) == t;
      }
    }

    /** The thread the search of the map finds under this identifier. */
    ghost function Finds(globalid: nat): Ptr
      reads this, threadMap
      requires MapOk()
    {
      Found(tcb, threadMap[..count], TidOf(globalid))
    }

    /** The map without the entry that the search finds under this identifier. */
    ghost function MapWithout(globalid: nat): (s: seq<Ptr>)
      reads this, threadMap
      requires MapOk() && Present(tcb, TidOf(globalid))
    {
      var s, i := threadMap[..count], SearchPlace(tcb, threadMap[..count], TidOf(globalid));
      SearchBelongs(tcb, s, TidOf(globalid));
      Dropped(s, i)
    }

    /** thread_deinit: the entry found under the thread's number leaves the map,
        then the thread is released. */
    method ThreadDeinit(thr: Ptr)
      requires MapOk() && thr in tcb
      modifies this`tcb, this`count, threadMap
      ensures tcb == Remove(old(tcb), thr) && count == old(count) - 1
      ensures threadMap[..count] == old(MapWithout(tcb[thr].globalid))
      ensures MapOk() <==> old(Finds(tcb[thr].globalid)) == thr
    {
      hide Maps, Dropped, Remove, SearchPlace;
      ghost var s := threadMap[..count];
      PresentItself(tcb, thr);
      ghost var i := MapDelete(tcb[thr].globalid);
      if s[i] == thr {
        DeleteKeepsMap(tcb, s, i);
      } else {
        OtherEntry(tcb, s, i, thr);
      }
      tcb := Remove(tcb, thr);
    }

    /** Unlinks the thread and hands its children over. */
    method TakeOut(thr: Ptr, caller: Ptr, ghost f: Forest)
      requires f.Ok() && f.t == tcb && thr in tcb && tcb[thr].parent != NULL && caller in tcb
      modifies this`tcb
      ensures tcb == BeforeRelease(f, thr, caller)
    {
      DestroyReady(f, thr, caller);
      hide Linked, Ranked, KidsOk, Forest.Ok, Unlink, Merge, Reparent, Victim;
      UnlinkFromParent(thr, f.kids[tcb[thr].parent], f.Place(thr));
      MoveChildren(thr, caller, f.kids[thr]);
    }

    /** Takes the thread out of the tree and releases it. */
    method Dismantle(thr: Ptr, caller: Ptr, ghost f: Forest)
      requires f.Ok() && f.t == tcb && MapOk() && thr in tcb
      requires tcb[thr].parent != NULL && caller in tcb
      modifies this`tcb, this`count, threadMap
      ensures tcb == Gone(f, thr, caller) && count == old(count) - 1
      ensures threadMap[..count] == old(MapWithout(tcb[thr].globalid))
      ensures MapOk() <==> old(Finds(tcb[thr].globalid)) == thr
    {
      ReleaseIsGone(f, thr, caller);
      hide Maps, Forest.Ok, Remove, BeforeRelease, Gone, SearchPlace, Found, Dropped;
      DestroyKeepsMap(f, thr, caller, threadMap[..count]);
      SearchFrame(tcb, BeforeRelease(f, thr, caller), threadMap[..count], TidOf(tcb[thr].globalid));
      TakeOut(thr, caller, f);
      ThreadDeinit(thr);
    }

    /** thread_destroy. */
    method ThreadDestroy(thr: Ptr, caller: Ptr)
      requires Valid() && thr in tcb && tcb[thr].parent != NULL && caller in tcb
      modifies this, threadMap
      ensures Moved(old(tcb), tcb, thr, caller) && SameIds(old(tcb), tcb)
      ensures kids == old(KidsGone(Tree(), thr, caller))
      ensures caller != thr || old(tcb)[thr].child == NULL ==> Linked(tcb, kids)
      ensures IsForest(tcb) <==> old(tcb)[thr].child == NULL || !old(Tree().Under(thr, caller))
      ensures count == old(count) - 1 && threadMap[..count] == old(MapWithout(tcb[thr].globalid))
      ensures MapOk() <==> old(Finds(tcb[thr].globalid)) == thr
      ensures Valid() <==> IsForest(tcb) && MapOk()
    {
      ghost var f := Tree();
      PresentItself(tcb, thr);
      hide Linked, Ranked, Maps, Forest.Ok, Gone, KidsGone, IsForest, Moved, SameIds, RanksGone;
      hide Found, SearchPlace, Dropped;
      Dismantle(thr, caller, f);
      GoneFields(f, thr, caller);
      if caller != thr || f.t[thr].child == NULL {
        GoneLinked(f, thr, caller);
      }
      if f.t[thr].child == NULL || !f.Under(thr, caller) {
        GoneForest(f, thr, caller);
      }
      kids := KidsGone(f, thr, caller);
      rank := RanksGone(f, thr, caller);
      OkIsForest(Tree());
    }

    /** The removal of a thread by ThreadControl: thread_destroy gets the thread that
        thread_by_globalid finds. */
    method RemoveThread(dest: nat, caller: Ptr) returns (thr: Ptr)
      requires Valid() && caller in tcb && Present(tcb, TidOf(dest))
      requires Finds(dest) in tcb ==> tcb[Finds(dest)].parent != NULL
      modifies this, threadMap
      ensures thr == old(Finds(dest)) && thr in old(tcb) && TidOf(old(tcb)[thr].globalid) == TidOf(dest)
      ensures Moved(old(tcb), tcb, thr, caller) && SameIds(old(tcb), tcb) && MapOk()
      ensures Valid() <==> old(tcb)[thr].child == NULL || !old(Tree().Under(thr, caller))
    {
      assert NULL !in tcb;
      hide Linked, Ranked, Maps, Forest.Ok, KidsGone, IsForest, Moved, SameIds, Found, SearchPlace;
      var inside;
      thr, inside := ByGlobalid(dest);
      ThreadDestroy(thr, caller);
    }
  }

  lemma OkIsForest(f: Forest)
    ensures f.Ok() ==> IsForest(f.t)
  {
    hide Forest.Ok;
    assert f == Forest(f.t, f.kids, f.rank);
  }

  /** No other thread has the same number. */
  predicate UniqueTid(t: Table, thr: Ptr)
    requires thr in t
  {
    forall x {:trigger t[x]} :: x in t && x != thr ==> TidOf(t[x].globalid) != TidOf(t[thr].globalid)
  }

  lemma PresentItself(t: Table, thr: Ptr)
    requires thr in t
    ensures Present(t, TidOf(t[thr].globalid))
  {
  }

  /** A thread with a number of its own is the one found. */
  lemma UniqueIsFound(t: Table, s: seq<Ptr>, thr: Ptr)
    requires Maps(t, s) && thr in t && UniqueTid(t, thr)
    ensures Found(t, s, TidOf(t[thr].globalid)) == thr
  {
    PresentItself(t, thr);
    SearchBelongs(t, s, TidOf(t[thr].globalid));
  }

  /** When another entry leaves the map, the released thread stays in it. */
  lemma OtherEntry(t: Table, s: seq<Ptr>, i: nat, thr: Ptr)
    requires Maps(t, s) && thr in t && i < |s| && s[i] != thr
    ensures !Maps(Remove(t, thr), Dropped(s, i))
  {
    StillIn(s, i, thr);
  }

  /** The record of an unlinked thread with this number. */
  function Numbered(tid: nat): Tcb {
    Tcb(tid * 0x4000, 0, Inactive, NULL, NULL, NULL)
  }

  /** Thread 3 shares its number with thread 2, which the search finds: releasing
      thread 3 takes thread 2 out of the map. */
  lemma SharedNumber()
    ensures var t, s := map[1 := Numbered(16), 2 := Numbered(17), 3 := Numbered(17)], [1, 2, 3];
            && Maps(t, s) && SearchPlace(t, s, 17) == 1 && Found(t, s, 17) == 2
            && !Maps(Remove(t, 3), Dropped(s, 1))
  {
    var t, s := map[1 := Numbered(16), 2 := Numbered(17), 3 := Numbered(17)], [1, 2, 3];
    assert Halve(t, s, 17, 0, 3) == 1;
    assert Maps(t, s);
    OtherEntry(t, s, 1, 3);
  }

  lemma ReparentSame(t: Table, s: seq<Ptr>, caller: Ptr, x: Ptr)
    requires x in t
    ensures x in Reparent(t, s, caller) && Reparent(t, s, caller)[x].sibling == t[x].sibling
  {
  }

  lemma ReparentLinks(t: Table, s: seq<Ptr>, caller: Ptr, thr: Ptr)
    requires thr in t
    ensures var t1 := Reparent(t, s, caller);
            t1.Keys == t.Keys && t1[thr].child == t[thr].child
  {
  }

  /** Identifiers and states of the surviving threads are unchanged. */
  predicate SameIds(t: Table, t2: Table) {
    forall x {:trigger t2[x]} :: x in t2 ==>
      && x in t && t2[x].globalid == t[x].globalid && t2[x].localid == t[x].localid && t2[x].state == t[x].state
  }

  /** The state of the table just before the thread is released. */
  ghost function BeforeRelease(f: Forest, thr: Ptr, caller: Ptr): Table
    requires f.Ok() && thr in f.t && f.t[thr].parent != NULL && caller in f.t
  {
    var p, k := f.t[thr].parent, f.Place(thr);
    DestroyReady(f, thr, caller);
    Merge(Reparent(Unlink(f.t, f.kids[p], p, k), f.kids[thr], caller), f.kids[thr], caller)
  }

  lemma DestroyReady(f: Forest, thr: Ptr, caller: Ptr)
    requires f.Ok() && thr in f.t && f.t[thr].parent != NULL && caller in f.t
    ensures var p, k := f.t[thr].parent, f.Place(thr);
            && NULL !in f.t && f.kids.Keys == f.t.Keys && p in f.t && p != thr
            && Victim(f.t, f.kids, p, k, thr, caller) && KidsOk(f.t, p, f.kids[p])
            && (k > 0 ==> f.kids[p][k - 1] in f.t)
            && Unlink(f.t, f.kids[p], p, k).Keys == f.t.Keys
            && KidsOk(Unlink(f.t, f.kids[p], p, k), thr, f.kids[thr])
            && (f.kids[thr] != [] ==> f.kids[thr][|f.kids[thr]| - 1] in f.t)
  {
    var p, k := f.t[thr].parent, f.Place(thr);
    assert ParentOk(f.t, f.kids, thr) && RankOk(f.t, f.rank, thr);
    assert KidsOk(f.t, p, f.kids[p]) && KidsOk(f.t, thr, f.kids[thr]);
    VictimLinks(f.t, f.kids, p, k, thr, caller);
    OtherLists(f.t, f.kids, p, thr);
    hide Linked, Ranked;
    KidsFrame(f.t, Unlink(f.t, f.kids[p], p, k), thr, f.kids[thr]);
  }

  lemma DestroyKeepsMap(f: Forest, thr: Ptr, caller: Ptr, s: seq<Ptr>)
    requires f.Ok() && thr in f.t && f.t[thr].parent != NULL && caller in f.t
    requires Maps(f.t, s)
    ensures var t2 := BeforeRelease(f, thr, caller);
            IdsKept(f.t, t2) && Maps(t2, s)
  {
    DestroyReady(f, thr, caller);
    hide Linked, Ranked, Maps, KidsOk, Forest.Ok, Victim;
    var t2, p, k := BeforeRelease(f, thr, caller), f.t[thr].parent, f.Place(thr);
    var t1 := Unlink(f.t, f.kids[p], p, k);
    assert IdsKept(f.t, t1);
    hide Unlink;
    MoveKeepsIds(t1, f.kids[thr], caller);
    hide Merge, Reparent;
    assert IdsKept(f.t, t2);
    MapsFrame(f.t, t2, s);
  }

  lemma MoveKeepsIds(t: Table, s: seq<Ptr>, caller: Ptr)
    requires caller in t && (s != [] ==> s[|s| - 1] in t)
    ensures IdsKept(t, Merge(Reparent(t, s, caller), s, caller))
  {
    var t1 := Reparent(t, s, caller);
    assert IdsKept(t, t1);
    hide Reparent;
    assert IdsKept(t1, Merge(t1, s, caller));
  }

  /** The table after the release. */
  ghost function Gone(f: Forest, thr: Ptr, caller: Ptr): Table
    requires f.Ok() && thr in f.t && f.t[thr].parent != NULL && caller in f.t
  {
    DestroyReady(f, thr, caller);
    TableAfter(f.t, f.kids, f.t[thr].parent, f.Place(thr), thr, caller)
  }

  lemma ReleaseIsGone(f: Forest, thr: Ptr, caller: Ptr)
    requires f.Ok() && thr in f.t && f.t[thr].parent != NULL && caller in f.t
    ensures Remove(BeforeRelease(f, thr, caller), thr) == Gone(f, thr, caller)
  {
    DestroyReady(f, thr, caller);
    hide Linked, Ranked, Unlink, Merge, Reparent, Remove;
  }

  /** The children lists after the release. */
  ghost function KidsGone(f: Forest, thr: Ptr, caller: Ptr): Kids
    requires f.Ok() && thr in f.t && f.t[thr].parent != NULL && caller in f.t
  {
    DestroyReady(f, thr, caller);
    KidsAfter(f.kids, f.t[thr].parent, f.Place(thr), thr, caller)
  }

  lemma GoneFields(f: Forest, thr: Ptr, caller: Ptr)
    requires f.Ok() && thr in f.t && f.t[thr].parent != NULL && caller in f.t
    ensures var t2 := Gone(f, thr, caller);
            && Moved(f.t, t2, thr, caller) && SameIds(f.t, t2)
            && (IsForest(t2) <==> f.t[thr].child == NULL || !f.Under(thr, caller))
  {
    var p, k := f.t[thr].parent, f.Place(thr);
    DestroyReady(f, thr, caller);
    Childless(f, thr);
    DestroyFields(f.t, f.kids, p, k, thr, caller);
    DestroyForestExact(f, p, k, thr, caller);
    hide Linked, Ranked, IsForest, TableAfter;
  }

  lemma GoneLinked(f: Forest, thr: Ptr, caller: Ptr)
    requires f.Ok() && thr in f.t && f.t[thr].parent != NULL && caller in f.t
    requires caller != thr || f.t[thr].child == NULL
    ensures Linked(Gone(f, thr, caller), KidsGone(f, thr, caller))
  {
    DestroyReady(f, thr, caller);
    Childless(f, thr);
    DestroyLinked(f.t, f.kids, f.t[thr].parent, f.Place(thr), thr, caller);
    hide Linked, Ranked, TableAfter, KidsAfter;
  }

  /** The ranks after the release. */
  ghost function RanksGone(f: Forest, thr: Ptr, caller: Ptr): Ptr -> nat
    requires f.Ok() && thr in f.t
  {
    if f.t[thr].child == NULL then f.rank else Lifted(f, thr, caller)
  }

  lemma GoneForest(f: Forest, thr: Ptr, caller: Ptr)
    requires f.Ok() && thr in f.t && f.t[thr].parent != NULL && caller in f.t
    requires f.t[thr].child == NULL || !f.Under(thr, caller)
    ensures Forest(Gone(f, thr, caller), KidsGone(f, thr, caller), RanksGone(f, thr, caller)).Ok()
  {
    Childless(f, thr);
    assert f.Under(thr, thr);
    GoneFields(f, thr, caller);
    GoneLinked(f, thr, caller);
    hide Linked, Ranked, Gone, KidsGone;
    if f.t[thr].child == NULL {
      ChildlessRanks(f, Gone(f, thr, caller), thr, caller);
    } else {
      LiftedRanks(f, Gone(f, thr, caller), thr, caller);
    }
  }

  lemma NextInList(t: Table, p: Ptr, s: seq<Ptr>, i: nat)
    requires NULL !in t && p in t && KidsOk(t, p, s) && i < |s|
    ensures s[i] in t && t[s[i]].sibling == At(s, i + 1) && t[p].child == s[0]
    ensures t[s[i]].sibling == NULL <==> i + 1 == |s|
    ensures i + 1 < |s| ==> s[i + 1] in t
  {
  }

  lemma ReparentStep(t: Table, s: seq<Ptr>, caller: Ptr, i: nat)
    requires i < |s| && s[i] in t
    ensures var t1 := Reparent(t, s[..i], caller);
            s[i] in t1 && Reparent(t, s[..i + 1], caller) == t1[s[i] := t1[s[i]].(parent := caller)]
    ensures i == 0 ==> Reparent(t, s[..i], caller) == t
  {
    assert s[..i + 1] == s[..i] + [s[i]];
  }

  lemma NothingBelow(f: Forest, p: Ptr)
    requires f.Ok() && p in f.t && f.t[p].child == NULL
    ensures FirstRunnable(f.t, f.Descendants(p)) == NULL
  {
    Childless(f, p);
  }

  lemma NoneLeft(t: Table)
    ensures FirstRunnable(t, []) == NULL
  {
  }

  /** A free slot can go under the caller. */
  predicate CanAdopt(f: Forest, caller: Ptr, slot: Ptr) {
    && caller in f.t && caller in f.kids && slot !in f.t && slot != NULL && NULL !in f.t
    && (f.kids[caller] != [] ==> f.kids[caller][|f.kids[caller]| - 1] in f.t)
  }

  lemma KidsAllowAdoption(f: Forest, caller: Ptr, slot: Ptr)
    requires f.Ok() && caller in f.t && slot !in f.t && slot != NULL
    ensures CanAdopt(f, caller, slot)
  {
    assert KidsOk(f.t, caller, f.kids[caller]);
  }

  /** The table after a thread was created under the caller. */
  function Created(f: Forest, caller: Ptr, slot: Ptr, rec: Tcb): Table
    requires CanAdopt(f, caller, slot)
  {
    var s := f.kids[caller];
    Adopt(f.t[slot := rec.(parent := caller, localid := NextLocalid(f.t, s))], s, caller, slot)
  }

  lemma CreatedFields(f: Forest, caller: Ptr, slot: Ptr, rec: Tcb)
    requires CanAdopt(f, caller, slot)
    ensures var t2 := Created(f, caller, slot, rec);
            && t2.Keys == f.t.Keys + {slot} && SameFields(f.t, Remove(t2, slot))
            && t2[slot] == rec.(parent := caller, localid := NextLocalid(f.t, f.kids[caller]))
  {
    hide NextLocalid;
    var s := f.kids[caller];
    AdoptFields(f.t, s, caller, slot, rec.(parent := caller, localid := NextLocalid(f.t, s)));
  }

  lemma CreateResult(f: Forest, caller: Ptr, slot: Ptr, rec: Tcb, s: seq<Ptr>)
    requires f.Ok() && CanAdopt(f, caller, slot)
    requires rec.parent == NULL && rec.child == NULL && rec.sibling == NULL && Maps(f.t[slot := rec], s)
    ensures Forest(Created(f, caller, slot, rec), KidsWith(f.kids, caller, slot), Extended(f, caller, slot)).Ok()
    ensures Maps(Created(f, caller, slot, rec), s)
  {
    var list := f.kids[caller];
    var rec2 := rec.(parent := caller, localid := NextLocalid(f.t, list));
    AdoptForest(f, caller, slot, rec2);
    hide Linked, Ranked, Maps, KidsOk, KidsWith;
    AdoptKeepsIds(f.t, list, caller, slot, rec2, f.t[slot := rec]);
    hide Adopt;
    MapsFrame(f.t[slot := rec], Adopt(f.t[slot := rec2], list, caller, slot), s);
  }

  lemma AdoptKeepsIds(t: Table, s: seq<Ptr>, caller: Ptr, slot: Ptr, rec: Tcb, t1: Table)
    requires caller in t && slot !in t && (s != [] ==> s[|s| - 1] in t)
    requires slot in t1 && t1 == t[slot := t1[slot]] && t1[slot].globalid == rec.globalid
    ensures IdsKept(t1, Adopt(t[slot := rec], s, caller, slot))
  {
  }

  /** The local identifier of the next child behind s. */
  function NextLocalid(t: Table, s: seq<Ptr>): nat
    requires s != [] ==> s[|s| - 1] in t
  {
    if s == [] then 64 else (t[s[|s| - 1]].localid + 64) % WORD
  }

  /** The local identifiers grow along the list by whole threads. */
  predicate LocalsGrow(t: Table, s: seq<Ptr>) {
    forall i {:trigger s[i]} :: 0 <= i < |s| ==>
      && s[i] in t && t[s[i]].localid > 0 && t[s[i]].localid % 64 == 0
      && forall j {:trigger s[j]} :: i < j < |s| && s[j] in t ==> t[s[i]].localid < t[s[j]].localid
  }

  /** While 32 bits last, the next child's local identifier is new among them. */
  lemma NextLocalidGrows(t: Table, s: seq<Ptr>, slot: Ptr, rec: Tcb)
    requires LocalsGrow(t, s) && slot !in t && (s != [] ==> t[s[|s| - 1]].localid < WORD - 64)
    requires rec.localid == NextLocalid(t, s)
    ensures LocalsGrow(t[slot := rec], s + [slot])
  {
    var t2, s2 := t[slot := rec], s + [slot];
    forall i {:trigger s2[i]} | 0 <= i < |s| ensures t2[s2[i]] == t[s[i]] && t[s[i]].localid < rec.localid {
      assert s2[i] == s[i] && s[i] in t;
      if i < |s| - 1 {
        assert s[|s| - 1] in t;
      }
    }
  }

  lemma AllBelow(t: Table, s: seq<Ptr>, tid: nat)
    requires Maps(t, s) && Belongs(t, s, tid, |s|) && !Present(t, tid)
    ensures forall x :: x in t ==> TidOf(t[x].globalid) < tid
  {
  }
}
