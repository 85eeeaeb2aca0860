/** mpu_select_lru (platform/stm32f4/mpu.c): after a memory fault, a page of the
    address space is put in front of the MPU list and programmed. */
module MpuFault {
  import opened Bits
  import opened FpageChain
  import opened Fpages
  import opened Mpu
  import opened MpuSetup

  /** The first page that holds the address, null if none does. */
  function PageOf(nodes: seq<Fpage>, addr: nat): Fpage? {
    if nodes == [] then null
    else if AddrInFpage(addr, nodes[0]) then nodes[0]
    else PageOf(nodes[1..], addr)
  }

  lemma {:induction false} PageOfHolds(nodes: seq<Fpage>, addr: nat)
    ensures PageOf(nodes, addr) == null <==> !InSome(nodes, addr)
    ensures var fp := PageOf(nodes, addr); fp != null ==> fp in nodes && AddrInFpage(addr, fp)
  {
    if nodes != [] {
      PageOfHolds(nodes[1..], addr);
      assert forall i :: 0 < i < |nodes| ==> nodes[i] == nodes[1..][i - 1];
      if InSome(nodes[1..], addr) {
        var i :| 0 <= i < |nodes[1..]| && AddrInFpage(addr, nodes[1..][i]);
        assert nodes[i + 1] == nodes[1..][i];
      }
    }
  }

  lemma PageOfStep(nodes: seq<Fpage>, j: nat, addr: nat)
    requires j < |nodes|
    ensures PageOf(nodes[j..], addr) == if AddrInFpage(addr, nodes[j]) then nodes[j] else PageOf(nodes[j + 1..], addr)
  {
    assert nodes[j..][0] == nodes[j] && nodes[j..][1..] == nodes[j + 1..];
  }

  method FindPage(space: AddressSpace, addr: nat) returns (fp: Fpage?)
    requires space.Valid()
    ensures fp == PageOf(space.nodes, addr)
  {
    hide AddrInFpage;
    fp := space.first;
    ghost var nodes, j := space.nodes, 0;
    assert nodes[0..] == nodes;
    while fp != null
      invariant j <= |nodes| && fp == NodeOr(nodes, j, null) && PageOf(nodes, addr) == PageOf(nodes[j..], addr)
      decreases |nodes| - j
    {
      PageOfStep(nodes, j, addr);
      if AddrInFpage(addr, fp) {
        return;
      }
      fp := fp.asNext;
      j := j + 1;
    }
  }

  /** The number of the first region behind the stack pages. */
  method CountStack(space: AddressSpace, ghost stack: seq<Fpage>) returns (i: nat)
    requires space.mpuStackFirst == NodeOr(stack, 0, null) && MpuLinked(stack, null)
    ensures i == |stack|
  {
    i := 0;
    var sfp := space.mpuStackFirst;
    while sfp != null
      invariant i <= |stack| && sfp == NodeOr(stack, i, null)
      decreases |stack| - i
    {
      assert stack[i].mpuNext == NodeOr(stack, i + 1, null);
      i := i + 1;
      sfp := sfp.mpuNext;
    }
  }

  // ----- The regions -----

  /** Pages that can be programmed, and no link leaves them. */
  ghost predicate Closed(pages: set<Fpage>)
    reads pages`mpuNext
  {
    forall n :: n in pages ==> Programmable(n) && (n.mpuNext == null || n.mpuNext in pages)
  }

  /** The regions from k on describe the pages of the walk; the others are as before. */
  predicate Rewritten(rbar: seq<nat>, rasr: seq<nat>, rbar2: seq<nat>, rasr2: seq<nat>, walk: seq<Fpage>, k: nat)
    requires |rbar| == |rasr| == REGIONS && AllProgrammable(walk)
  {
    && |rbar2| == |rasr2| == REGIONS && k + |walk| <= REGIONS
    && forall j {:trigger rbar2[j]} {:trigger rasr2[j]} :: 0 <= j < REGIONS ==>
         if k <= j < k + |walk| then rbar2[j] == BaseWord(walk[j - k].base, j) && rasr2[j] == AttrWord(walk[j - k])
         else rbar2[j] == rbar[j] && rasr2[j] == rasr[j]
  }

  /** The loop that programs the list from fp on, as far as the regions reach. */
  method WriteFrom(unit: MpuUnit, fp: Fpage, k: nat, ghost pages: set<Fpage>) returns (ghost walk: seq<Fpage>)
    requires unit.Valid() && k < REGIONS && Closed(pages) && fp in pages
    modifies unit
    ensures unit.Valid() && AllProgrammable(walk)
    ensures walk != [] && walk[0] == fp && LinkedRange(walk, 0, |walk|)
    ensures k + |walk| <= REGIONS && (k + |walk| == REGIONS || walk[|walk| - 1].mpuNext == null)
    ensures Rewritten(old(unit.rbar), old(unit.rasr), unit.rbar, unit.rasr, walk, k)
  {
    hide BaseWord, AttrWord, Programmable;
    unit.SetupRegion(k, fp);
    walk := [fp];
    var at, i := fp, k + 1;
    while i < REGIONS && at.mpuNext != null
      invariant k < i <= REGIONS && unit.Valid() && i == k + |walk| && at == walk[|walk| - 1] && at in pages
      invariant walk[0] == fp && LinkedRange(walk, 0, |walk|) && AllProgrammable(walk)
      invariant Rewritten(old(unit.rbar), old(unit.rasr), unit.rbar, unit.rasr, walk, k)
      decreases REGIONS - i
    {
      at := at.mpuNext;
      unit.SetupRegion(i, at);
      walk := walk + [at];
      i := i + 1;
    }
  }

  // ----- The list -----

  /** No list that follows a cycle ends. */
  lemma {:induction false} CycleHasNoEnd(c: seq<Fpage>, i: nat, list: seq<Fpage>)
    requires i < |c| && MpuLinked(c, c[0]) && list != [] && list[0] == c[i]
    ensures !MpuLinked(list, null)
    decreases |list|
  {
    if MpuLinked(list, null) {
      var next := if i + 1 < |c| then i + 1 else 0;
      assert c[i].mpuNext == NodeOr(c, i + 1, c[0]) == c[next];
      assert list[0].mpuNext == NodeOr(list, 1, null);
      MpuLinkedConcat(list[..1], list[1..], null);
      assert list == list[..1] + list[1..];
      CycleHasNoEnd(c, next, list[1..]);
    }
  }

  /** The links lead from fp through the front of the list back to fp. */
  ghost predicate Loops(fp: Fpage, list: seq<Fpage>)
    reads fp`mpuNext, (set n | n in list)`mpuNext
  {
    exists m :: 0 <= m < |list| && list[m] == fp && MpuLinked([fp] + list[..m], fp)
  }

  lemma LoopHasNoEnd(fp: Fpage, was: seq<Fpage>, list: seq<Fpage>)
    requires Loops(fp, was) && list != [] && list[0] == fp
    ensures !MpuLinked(list, null)
  {
    var m :| 0 <= m < |was| && was[m] == fp && MpuLinked([fp] + was[..m], fp);
    CycleHasNoEnd([fp] + was[..m], 0, list);
  }

  /** Puts the page in front of the list: it stays a list if and only if the page was
      not on it, and becomes a cycle otherwise. */
  method PutInFront(space: AddressSpace, fp: Fpage)
    requires space.MpuValid()
    modifies space`mpuFirst, space`mpuNodes, fp`mpuNext
    ensures space.mpuFirst == fp && fp.mpuNext == old(space.mpuFirst) && space.mpuNodes == [fp] + old(space.mpuNodes)
    ensures space.MpuValid() <==> fp !in old(space.mpuNodes)
    ensures fp in old(space.mpuNodes) ==> Loops(fp, old(space.mpuNodes))
  {
    ghost var was := space.mpuNodes;
    fp.mpuNext := space.mpuFirst;
    space.mpuFirst := fp;
    space.mpuNodes := [fp] + was;
    if fp !in was {
      FreshIsDistinct([fp], was);
      MpuLinkedConcat([fp], was, null);
    } else {
      ghost var m :| 0 <= m < |was| && was[m] == fp;
      ghost var c := [fp] + was[..m];
      forall i {:trigger c[i].mpuNext} | 0 <= i < |c| ensures c[i].mpuNext == NodeOr(c, i + 1, fp) {
        assert i > 0 ==> c[i] == was[i - 1] && was[i - 1] != fp;
      }
      LoopHasNoEnd(fp, was, space.mpuNodes);
    }
  }

  // ----- mpu_select_lru -----

  /** The stack pages have their regions and are linked to one another. */
  ghost predicate StackReady(space: AddressSpace, unit: MpuUnit, stack: seq<Fpage>)
    reads space`mpuStackFirst, unit, (set n | n in stack)`mpuNext
  {
    && space.mpuStackFirst == NodeOr(stack, 0, null) && MpuLinked(stack, null)
    && AllProgrammable(stack) && RegionsAre(unit.rbar, unit.rasr, stack, |stack|)
  }

  /** What as_setup_mpu leaves is what a fault needs. */
  lemma SetupIsReady(space: AddressSpace, unit: MpuUnit, list: seq<Fpage>, stack: seq<Fpage>, fifo: seq<Fpage>,
                     room: nat)
    requires space.mpuStackFirst == NodeOr(stack, 0, null) && MpuLinked(stack, null)
    requires AllProgrammable(stack + fifo) && RegionsAre(unit.rbar, unit.rasr, stack + fifo, REGIONS)
    requires AllProgrammable(list) && |stack + fifo| <= REGIONS
    ensures StackReady(space, unit, stack) && AllProgrammable(NewList(list, stack, room))
  {
    hide Programmable, BaseWord, AttrWord, Diverted, Behind, FifoPages;
    var mpu := stack + fifo;
    assert forall i {:trigger stack[i]} :: 0 <= i < |stack| ==> stack[i] == mpu[i];
    if FifoPages(list, stack, room) != [] {
      BehindSplit(list, stack, room);
      DivertedProgrammable(Behind(list, stack, room), stack);
    }
  }

  lemma {:induction false} DivertedProgrammable(b: seq<Fpage>, stack: seq<Fpage>)
    requires AllProgrammable(b) && AllProgrammable(stack)
    ensures AllProgrammable(Diverted(b, stack))
  {
    hide Programmable;
    if b != [] && b[0] !in stack {
      DivertedProgrammable(b[1..], stack);
    }
  }

  /** An address in a stack page is in the MPU. */
  lemma StackIsMapped(rbar: seq<nat>, rasr: seq<nat>, stack: seq<Fpage>, fp: Fpage, addr: nat)
    requires AllProgrammable(stack) && RegionsAre(rbar, rasr, stack, |stack|)
    requires fp in stack && AddrInFpage(addr, fp)
    ensures HoldsSome(rbar, rasr, addr)
  {
    hide AddrInFpage, BaseWord, AttrWord, RegionHolds;
    var i :| 0 <= i < |stack| && stack[i] == fp;
    RegionWordsRoundTrip(fp, i, addr);
    assert rbar[i] == WantedBase(stack, i);
  }

  lemma ListClosed(was: seq<Fpage>, fp: Fpage)
    requires AllProgrammable(was) && Programmable(fp) && fp.mpuNext == NodeOr(was, 0, null)
    requires forall i {:trigger was[i].mpuNext} :: 0 <= i < |was| && was[i] != fp ==>
               was[i].mpuNext == NodeOr(was, i + 1, null)
    ensures Closed({fp} + set n | n in was)
  {
    hide Programmable;
    var pages := {fp} + set n | n in was;
    forall n | n in pages ensures Programmable(n) && (n.mpuNext == null || n.mpuNext in pages) {
      if n != fp {
        var i :| 0 <= i < |was| && was[i] == n;
        assert was[i].mpuNext == NodeOr(was, i + 1, null);
      }
    }
  }

  /** The page is now in a region. */
  lemma WalkHolds(rbar: seq<nat>, rasr: seq<nat>, rbar2: seq<nat>, rasr2: seq<nat>, walk: seq<Fpage>, k: nat, addr: nat)
    requires |rbar| == |rasr| == REGIONS && AllProgrammable(walk) && walk != [] && AddrInFpage(addr, walk[0])
    requires Rewritten(rbar, rasr, rbar2, rasr2, walk, k)
    ensures HoldsSome(rbar2, rasr2, addr)
  {
    hide AddrInFpage, BaseWord, AttrWord, RegionHolds;
    RegionWordsRoundTrip(walk[0], k, addr);
    assert rbar2[k] == BaseWord(walk[0].base, k);
  }

  method IsMapped(unit: MpuUnit, addr: nat) returns (r: bool)
    requires unit.Valid()
    modifies unit`rnr
    ensures unit.Valid() && (r <==> HoldsSome(unit.rbar, unit.rasr, addr))
  {
    hide RegionHolds;
    r := unit.AddrInMpu(addr);
    if r {
      ghost var j :| 0 <= j < REGIONS && unit.Holds(j, addr);
      assert RegionHolds(unit.rbar[j], unit.rasr[j], addr);
    } else {
      forall j | 0 <= j < REGIONS ensures !RegionHolds(unit.rbar[j], unit.rasr[j], addr) {
        assert !unit.Holds(j, addr);
      }
    }
  }

  /** Brings a page into the MPU: in front of the list, and into the regions behind
      the stack pages. */
  method BringIn(space: AddressSpace, unit: MpuUnit, fp: Fpage, addr: nat, ghost stack: seq<Fpage>)
    returns (ghost walk: seq<Fpage>)
    requires unit.Valid() && space.MpuValid() && StackReady(space, unit, stack) && |stack| < REGIONS
    requires AllProgrammable(space.mpuNodes) && Programmable(fp) && AddrInFpage(addr, fp) && fp !in stack
    modifies unit, space`mpuFirst, space`mpuNodes, fp`mpuNext
    ensures unit.Valid() && StackReady(space, unit, stack) && HoldsSome(unit.rbar, unit.rasr, addr)
    ensures space.mpuFirst == fp && fp.mpuNext == old(space.mpuFirst) && space.mpuNodes == [fp] + old(space.mpuNodes)
    ensures space.MpuValid() <==> fp !in old(space.mpuNodes)
    ensures fp in old(space.mpuNodes) ==> Loops(fp, old(space.mpuNodes))
    ensures walk != [] && walk[0] == fp && LinkedRange(walk, 0, |walk|) && AllProgrammable(walk)
    ensures |stack| + |walk| <= REGIONS && (|stack| + |walk| == REGIONS || walk[|walk| - 1].mpuNext == null)
    ensures Rewritten(old(unit.rbar), old(unit.rasr), unit.rbar, unit.rasr, walk, |stack|)
  {
    hide AddrInFpage, BaseWord, AttrWord, Programmable, HoldsSome, Loops;
    PutInFront(space, fp);
    var k := CountStack(space, stack);
    ListClosed(old(space.mpuNodes), fp);
    walk := WriteFrom(unit, fp, k, {fp} + set n | n in old(space.mpuNodes));
    WalkHolds(old(unit.rbar), old(unit.rasr), unit.rbar, unit.rasr, walk, k, addr);
  }

  /** mpu_select_lru: true when it can do nothing about the fault. */
  method SelectLru(space: AddressSpace?, unit: MpuUnit, addr: nat, ghost stack: seq<Fpage>)
    returns (r: bool, ghost walk: seq<Fpage>)
    requires unit.Valid()
    requires space != null ==>
               && space.Valid() && space.MpuValid() && StackReady(space, unit, stack) && |stack| < REGIONS
               && AllProgrammable(space.nodes) && AllProgrammable(space.mpuNodes)
    modifies unit, (if space == null then {} else {space})`mpuFirst, (if space == null then {} else {space})`mpuNodes
    modifies (if space == null then {} else set n | n in space.nodes)`mpuNext
    ensures unit.Valid()
    ensures r <==> space == null || old(HoldsSome(unit.rbar, unit.rasr, addr)) || !InSome(space.nodes, addr)
    ensures r ==> unit.rbar == old(unit.rbar) && unit.rasr == old(unit.rasr)
    ensures r && space != null ==>
              space.mpuNodes == old(space.mpuNodes) && space.MpuValid() && StackReady(space, unit, stack)
    ensures !r ==>
              var fp := PageOf(space.nodes, addr);
              && space.Valid() && StackReady(space, unit, stack) && HoldsSome(unit.rbar, unit.rasr, addr)
              && space.mpuFirst == fp && space.mpuNodes == [fp] + old(space.mpuNodes)
              && (space.MpuValid() <==> fp !in old(space.mpuNodes))
              && (fp in old(space.mpuNodes) ==> Loops(fp, old(space.mpuNodes)))
              && walk != [] && walk[0] == fp && LinkedRange(walk, 0, |walk|) && AllProgrammable(walk)
              && (|stack| + |walk| == REGIONS || walk[|walk| - 1].mpuNext == null)
              && Rewritten(old(unit.rbar), old(unit.rasr), unit.rbar, unit.rasr, walk, |stack|)
  {
    if space == null {
      return true, [];
    }
    hide AddrInFpage, Programmable, Loops, InSome, HoldsSome, RegionsAre, Linked;
    var mapped := IsMapped(unit, addr);
    if mapped {
      return true, [];
    }
    var fp := FindPage(space, addr);
    PageOfHolds(space.nodes, addr);
    if fp == null {
      return true, [];
    }
    if fp in stack {
      StackIsMapped(unit.rbar, unit.rasr, stack, fp, addr);
    }
    walk := BringIn(space, unit, fp, addr, stack);
    r := false;
  }

  /** After as_setup_mpu, the page of a fault is on the list exactly when it is in
      the part behind the programmed pages. */
  lemma FaultOnList(rbar: seq<nat>, rasr: seq<nat>, list: seq<Fpage>, stack: seq<Fpage>, fp: Fpage, addr: nat)
    requires |stack| < REGIONS && FifoPages(list, stack, REGIONS - |stack|) != []
    requires AllProgrammable(stack + FifoPages(list, stack, REGIONS - |stack|))
    requires RegionsAre(rbar, rasr, stack + FifoPages(list, stack, REGIONS - |stack|), REGIONS)
    requires AddrInFpage(addr, fp) && !HoldsSome(rbar, rasr, addr)
    ensures var room := REGIONS - |stack|;
            fp in NewList(list, stack, room) <==> fp in Diverted(Behind(list, stack, room), stack)
  {
    hide AddrInFpage, Programmable, RegionHolds, FifoPages, Diverted, Behind;
    var fifo := FifoPages(list, stack, REGIONS - |stack|);
    var mpu := stack + fifo;
    RegionsHoldPages(rbar, rasr, mpu, addr);
    forall i | 0 <= i < |fifo| ensures fifo[i] != fp {
      assert fifo[i] == mpu[|stack| + i] && !AddrInFpage(addr, mpu[|stack| + i]);
    }
  }
}
