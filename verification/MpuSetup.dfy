/** as_setup_mpu as a whole (kernel/memory.c): the regions it programs and the
    MPU list it leaves behind. */
module MpuSetup {
  import opened Bits
  import opened FpageChain
  import opened FpageSpace
  import opened Fpages
  import opened Mpu
  import opened MpuPriority

  // ----- Writing the regions -----

  function WantedBase(mpu: seq<Fpage>, j: nat): nat {
    if j < |mpu| then BaseWord(mpu[j].base, j) else 16 + j
  }

  function WantedAttr(mpu: seq<Fpage>, j: nat): nat
    requires j < |mpu| ==> Programmable(mpu[j])
  {
    if j < |mpu| then AttrWord(mpu[j]) else 0
  }

  predicate AllProgrammable(mpu: seq<Fpage>) {
    forall i {:trigger mpu[i]} :: 0 <= i < |mpu| ==> Programmable(mpu[i])
  }

  /** The first j regions describe the pages in order, and nothing past the last. */
  predicate RegionsAre(rbar: seq<nat>, rasr: seq<nat>, mpu: seq<Fpage>, j: nat)
    requires AllProgrammable(mpu)
  {
    && |rbar| == REGIONS && |rasr| == REGIONS && j <= REGIONS
    && forall m {:trigger rbar[m]} {:trigger rasr[m]} ::
         0 <= m < j ==> rbar[m] == WantedBase(mpu, m) && rasr[m] == WantedAttr(mpu, m)
  }

  /** Consecutive pages from lo up to hi are linked. */
  ghost predicate LinkedRange(mpu: seq<Fpage>, lo: nat, hi: nat)
    requires hi <= |mpu|
    reads (set n | n in mpu)`mpuNext
  {
    forall m {:trigger mpu[m].mpuNext} :: lo <= m < hi - 1 ==> mpu[m].mpuNext == mpu[m + 1]
  }

  /** One region and, when `next` is given, one link. */
  method ProgramOne(unit: MpuUnit, mpu: seq<Fpage>, j: nat)
    requires unit.Valid() && j < |mpu| <= REGIONS && AllProgrammable(mpu) && RegionsAre(unit.rbar, unit.rasr, mpu, j)
    modifies unit
    ensures unit.Valid() && RegionsAre(unit.rbar, unit.rasr, mpu, j + 1)
  {
    unit.SetupRegion(j, mpu[j]);
  }

  /** The regions of the pages lo..hi, and their links: the last page ends the
      list for the stack and keeps its link otherwise. */
  method ProgramRange(unit: MpuUnit, mpu: seq<Fpage>, lo: nat, hi: nat, close: bool)
    requires unit.Valid() && lo <= hi <= |mpu| <= REGIONS && AllProgrammable(mpu) && Distinct(mpu)
    requires RegionsAre(unit.rbar, unit.rasr, mpu, lo)
    modifies unit, (set n | n in mpu[lo..hi])`mpuNext
    ensures unit.Valid() && RegionsAre(unit.rbar, unit.rasr, mpu, hi)
    ensures MpuLinked(mpu[lo..hi], if close || lo == hi then null else old(mpu[hi - 1].mpuNext))
  {
    hide RegionsAre, AllProgrammable;
    var j := lo;
    while j < hi
      invariant lo <= j <= hi && unit.Valid() && RegionsAre(unit.rbar, unit.rasr, mpu, j)
      invariant LinkedRange(mpu, lo, if j < hi then j + 1 else j)
      invariant lo < hi && (!close || j < hi) ==> mpu[hi - 1].mpuNext == old(mpu[hi - 1].mpuNext)
      invariant close && lo < hi && j == hi ==> mpu[hi - 1].mpuNext == null
    {
      ProgramOne(unit, mpu, j);
      InRange(mpu, lo, hi, j);
      if j < hi - 1 {
        mpu[j].mpuNext := mpu[j + 1];
      } else if close {
        mpu[j].mpuNext := null;
      }
      j := j + 1;
    }
    RangeLinked(mpu, lo, hi);
  }

  lemma InRange(mpu: seq<Fpage>, lo: nat, hi: nat, j: nat)
    requires lo <= j < hi <= |mpu|
    ensures mpu[j] in mpu[lo..hi]
  {
    assert mpu[j] == mpu[lo..hi][j - lo];
  }

  lemma RangeLinked(mpu: seq<Fpage>, lo: nat, hi: nat)
    requires lo <= hi <= |mpu| && LinkedRange(mpu, lo, hi)
    ensures MpuLinked(mpu[lo..hi], if lo == hi then null else mpu[hi - 1].mpuNext)
  {
    var s := mpu[lo..hi];
    forall i {:trigger s[i].mpuNext} | 0 <= i < |s|
      ensures s[i].mpuNext == NodeOr(s, i + 1, mpu[hi - 1].mpuNext)
    {
      assert s[i] == mpu[lo + i];
    }
  }

  /** The unused regions are switched off. */
  method ClearRegions(unit: MpuUnit, mpu: seq<Fpage>)
    requires unit.Valid() && |mpu| <= REGIONS && AllProgrammable(mpu) && RegionsAre(unit.rbar, unit.rasr, mpu, |mpu|)
    modifies unit
    ensures unit.Valid() && RegionsAre(unit.rbar, unit.rasr, mpu, REGIONS)
  {
    for j := |mpu| to REGIONS
      invariant unit.Valid() && RegionsAre(unit.rbar, unit.rasr, mpu, j)
    {
      unit.SetupRegion(j, null);
    }
  }

  /** An address is in some region exactly when some programmed page holds it. */
  lemma RegionsHoldPages(rbar: seq<nat>, rasr: seq<nat>, mpu: seq<Fpage>, addr: nat)
    requires AllProgrammable(mpu) && |mpu| <= REGIONS && RegionsAre(rbar, rasr, mpu, REGIONS)
    ensures (exists j :: 0 <= j < REGIONS && RegionHolds(rbar[j], rasr[j], addr)) <==>
            (exists i :: 0 <= i < |mpu| && AddrInFpage(addr, mpu[i]))
  {
    hide AddrInFpage, BaseWord, AttrWord, Programmable;
    forall i | 0 <= i < |mpu| ensures RegionHolds(rbar[i], rasr[i], addr) <==> AddrInFpage(addr, mpu[i]) {
      RegionWordsRoundTrip(mpu[i], i, addr);
    }
  }

  // ----- The list left behind -----

  /** The part of the list behind the last page picked for the fifo regions. */
  function Behind(list: seq<Fpage>, stack: seq<Fpage>, room: nat): (b: seq<Fpage>)
    requires FifoPages(list, stack, room) != []
    ensures |b| < |list|
  {
    if list[0] in stack then Behind(list[1..], stack, room)
    else if FifoPages(list[1..], stack, room - 1) == [] then list[1..]
    else Behind(list[1..], stack, room - 1)
  }

  /** The rest of the list after the stack pages have been linked to one another:
      it runs up to the first stack page and then follows the stack. */
  function Diverted(b: seq<Fpage>, stack: seq<Fpage>): seq<Fpage> {
    if b == [] then []
    else if b[0] in stack then From(stack, b[0])
    else [b[0]] + Diverted(b[1..], stack)
  }

  function From(stack: seq<Fpage>, fp: Fpage): (s: seq<Fpage>)
    requires fp in stack
    ensures s != [] && s[0] == fp && |s| <= |stack| && s == stack[|stack| - |s|..]
  {
    if stack[0] == fp then stack else From(stack[1..], fp)
  }

  /** The MPU list after as_setup_mpu. */
  function NewList(list: seq<Fpage>, stack: seq<Fpage>, room: nat): seq<Fpage> {
    var fifo := FifoPages(list, stack, room);
    if fifo == [] then [] else fifo + Diverted(Behind(list, stack, room), stack)
  }

  lemma {:induction false} BehindSplit(list: seq<Fpage>, stack: seq<Fpage>, room: nat)
    requires FifoPages(list, stack, room) != []
    ensures var fifo, b := FifoPages(list, stack, room), Behind(list, stack, room);
            var cut := |list| - |b|;
            && b == list[cut..] && list[cut - 1] == fifo[|fifo| - 1]
            && forall i :: 0 <= i < |fifo| ==> fifo[i] in list[..cut]
  {
    var fifo, b := FifoPages(list, stack, room), Behind(list, stack, room);
    var cut := |list| - |b|;
    assert list[1..][cut - 1..] == list[cut..] && list[..cut] == [list[0]] + list[1..][..cut - 1];
    if list[0] in stack {
      BehindSplit(list[1..], stack, room);
    } else if FifoPages(list[1..], stack, room - 1) != [] {
      BehindSplit(list[1..], stack, room - 1);
      var rest := FifoPages(list[1..], stack, room - 1);
      forall i | 0 <= i < |fifo| ensures fifo[i] in list[..cut] {
        assert i > 0 ==> fifo[i] == rest[i - 1];
      }
    }
  }

  ghost predicate Members(s: seq<Fpage>, a: seq<Fpage>, b: seq<Fpage>) {
    forall i {:trigger s[i]} :: 0 <= i < |s| ==> s[i] in a || s[i] in b
  }

  lemma {:induction false} DivertedDistinct(b: seq<Fpage>, stack: seq<Fpage>)
    requires Distinct(b) && Distinct(stack)
    ensures Distinct(Diverted(b, stack)) && Members(Diverted(b, stack), b, stack)
  {
    if b != [] && b[0] !in stack {
      assert Distinct(b[1..]);
      DivertedDistinct(b[1..], stack);
      var rest := Diverted(b[1..], stack);
      forall i | 0 <= i < |rest| ensures b[0] != rest[i] {
        assert rest[i] in b[1..] || rest[i] in stack;
      }
      FreshIsDistinct([b[0]], rest);
    }
  }

  /** Pages of the rest that are not stack pages still have their old links. */
  ghost predicate KeepsLinks(b: seq<Fpage>, stack: seq<Fpage>)
    reads (set n | n in b && n !in stack)`mpuNext
  {
    forall i {:trigger b[i].mpuNext} :: 0 <= i < |b| && b[i] !in stack ==> b[i].mpuNext == NodeOr(b, i + 1, null)
  }

  lemma {:induction false} DivertedLinked(b: seq<Fpage>, stack: seq<Fpage>)
    requires MpuLinked(stack, null) && KeepsLinks(b, stack)
    ensures MpuLinked(Diverted(b, stack), null) && NodeOr(Diverted(b, stack), 0, null) == NodeOr(b, 0, null)
  {
    if b != [] {
      if b[0] in stack {
        var s := From(stack, b[0]);
        MpuLinkedConcat(stack[..|stack| - |s|], s, null);
        assert stack == stack[..|stack| - |s|] + s;
      } else {
        var rest := b[1..];
        forall i {:trigger rest[i].mpuNext} | 0 <= i < |rest| && rest[i] !in stack
          ensures rest[i].mpuNext == NodeOr(rest, i + 1, null)
        {
          assert rest[i] == b[i + 1];
        }
        DivertedLinked(rest, stack);
        assert b[0].mpuNext == NodeOr(rest, 0, null);
        MpuLinkedConcat([b[0]], Diverted(rest, stack), null);
      }
    }
  }

  /** What the link writes leave: the stack and the fifo are chains, the last fifo
      page and the pages behind it keep their links. */
  lemma NewListOk(list: seq<Fpage>, stack: seq<Fpage>, room: nat)
    requires Distinct(list) && Distinct(stack) && FifoPages(list, stack, room) != []
    requires MpuLinked(stack, null)
    requires var b := Behind(list, stack, room);
             KeepsLinks(b, stack) && MpuLinked(FifoPages(list, stack, room), NodeOr(b, 0, null))
    ensures MpuLinked(NewList(list, stack, room), null) && Distinct(NewList(list, stack, room))
  {
    hide FifoPages, Behind;
    var fifo, b := FifoPages(list, stack, room), Behind(list, stack, room);
    var rest := Diverted(b, stack);
    BehindSplit(list, stack, room);
    FifoPagesPick(list, stack, room);
    PicksDistinct(fifo, list);
    assert Distinct(b);
    DivertedDistinct(b, stack);
    DivertedLinked(b, stack);
    MpuLinkedConcat(fifo, rest, null);
    forall i, j | 0 <= i < |fifo| && 0 <= j < |rest| ensures fifo[i] != rest[j] {
      assert fifo[i] in list[..|list| - |b|] && fifo[i] !in stack;
      assert rest[j] in b || rest[j] in stack;
    }
    FreshIsDistinct(fifo, rest);
  }

  lemma NewListEmpty(list: seq<Fpage>, stack: seq<Fpage>, room: nat)
    requires FifoPages(list, stack, room) == []
    ensures MpuLinked(NewList(list, stack, room), null) && Distinct(NewList(list, stack, room))
  {
  }

  /** Before the writes: the link of the last fifo page, and the links behind it. */
  lemma BehindLinks(list: seq<Fpage>, stack: seq<Fpage>, room: nat)
    requires MpuLinked(list, null) && Distinct(list) && FifoPages(list, stack, room) != []
    ensures var fifo, b := FifoPages(list, stack, room), Behind(list, stack, room);
            && KeepsLinks(b, stack) && fifo[|fifo| - 1].mpuNext == NodeOr(b, 0, null)
            && forall i, j :: 0 <= i < |fifo| && 0 <= j < |b| ==> fifo[i] != b[j]
  {
    hide FifoPages, Behind;
    var fifo, b := FifoPages(list, stack, room), Behind(list, stack, room);
    var cut := |list| - |b|;
    BehindSplit(list, stack, room);
    assert list == list[..cut] + b;
    MpuLinkedConcat(list[..cut], b, null);
    forall i, j | 0 <= i < |fifo| && 0 <= j < |b| ensures fifo[i] != b[j] {
      assert fifo[i] in list[..cut] && b[j] == list[cut + j];
    }
  }

  lemma ApartHalves(mpu: seq<Fpage>, k: nat)
    requires Distinct(mpu) && k <= |mpu|
    ensures Distinct(mpu[..k]) && (set n | n in mpu[..k]) !! (set n | n in mpu[k..])
    ensures forall i {:trigger mpu[i]} :: k <= i < |mpu| ==> mpu[i] !in mpu[..k]
  {
  }

  lemma OutsideBoth(b: seq<Fpage>, stack: seq<Fpage>, fifo: seq<Fpage>)
    requires forall i, j :: 0 <= i < |fifo| && 0 <= j < |b| ==> fifo[i] != b[j]
    ensures (set n | n in b && n !in stack) !! (set n | n in stack)
    ensures (set n | n in b && n !in stack) !! (set n | n in fifo)
  {
  }

  /** The loops that write the regions and relink the pages; `b` is what follows
      the last page. */
  method WriteLoops(unit: MpuUnit, mpu: seq<Fpage>, k: nat, ghost b: seq<Fpage>)
    requires unit.Valid() && k <= |mpu| <= REGIONS && AllProgrammable(mpu) && Distinct(mpu)
    requires k < |mpu| ==> mpu[|mpu| - 1].mpuNext == NodeOr(b, 0, null)
    requires KeepsLinks(b, mpu[..k])
    requires forall i, j :: 0 <= i < |mpu[k..]| && 0 <= j < |b| ==> mpu[k..][i] != b[j]
    modifies unit, (set n | n in mpu)`mpuNext
    ensures unit.Valid() && RegionsAre(unit.rbar, unit.rasr, mpu, REGIONS)
    ensures MpuLinked(mpu[..k], null) && KeepsLinks(b, mpu[..k])
    ensures k < |mpu| ==> MpuLinked(mpu[k..], NodeOr(b, 0, null))
  {
    hide RegionsAre, AllProgrammable, MpuLinked, Distinct, KeepsLinks;
    ghost var stack, fifo := mpu[..k], mpu[k..];
    assert mpu[0..k] == stack && mpu[k..|mpu|] == fifo;
    ApartHalves(mpu, k);
    OutsideBoth(b, stack, fifo);
    NothingYet(unit.rbar, unit.rasr, mpu);
    assert KeepsLinks(b, stack);
    ProgramRange(unit, mpu, 0, k, true);
    assert forall n :: n in b && n !in stack ==> n !in mpu[0..k];
    assert KeepsLinks(b, stack) && MpuLinked(stack, null);
    ProgramRange(unit, mpu, k, |mpu|, false);
    assert KeepsLinks(b, stack) && MpuLinked(stack, null);
    ClearRegions(unit, mpu);
  }

  method WriteRegions(unit: MpuUnit, mpu: seq<Fpage>, k: nat, ghost list: seq<Fpage>)
    requires unit.Valid() && k <= |mpu| <= REGIONS && AllProgrammable(mpu) && Distinct(mpu)
    requires MpuLinked(list, null) && Distinct(list) && mpu[k..] == FifoPages(list, mpu[..k], REGIONS - k)
    modifies unit, (set n | n in mpu)`mpuNext
    ensures unit.Valid() && RegionsAre(unit.rbar, unit.rasr, mpu, REGIONS)
    ensures MpuLinked(mpu[..k], null)
    ensures MpuLinked(NewList(list, mpu[..k], REGIONS - k), null) && Distinct(NewList(list, mpu[..k], REGIONS - k))
  {
    hide RegionsAre, FifoPages, Behind, Diverted, AllProgrammable, MpuLinked, Distinct, NewList;
    ghost var stack, fifo := mpu[..k], mpu[k..];
    ghost var b := if fifo == [] then [] else Behind(list, stack, REGIONS - k);
    ApartHalves(mpu, k);
    if k < |mpu| {
      BehindLinks(list, stack, REGIONS - k);
      assert mpu[|mpu| - 1] == fifo[|fifo| - 1];
    }
    WriteLoops(unit, mpu, k, b);
    if fifo != [] {
      NewListOk(list, stack, REGIONS - k);
    } else {
      NewListEmpty(list, stack, REGIONS - k);
    }
  }

  lemma NothingYet(rbar: seq<nat>, rasr: seq<nat>, mpu: seq<Fpage>)
    requires |rbar| == REGIONS && |rasr| == REGIONS && AllProgrammable(mpu)
    ensures RegionsAre(rbar, rasr, mpu, 0)
  {
  }

  /** The list the fifo regions are taken from. */
  function SourceList(nodes: seq<Fpage>, list: seq<Fpage>, pc: nat): seq<Fpage> {
    if list == [] then MpuOrder(nodes, pc) else list
  }

  /** The pages with an MPU link. */
  ghost function WithLinks(nodes: seq<Fpage>): set<Fpage>
    reads (set n | n in nodes)`mpuNext
  {
    set n | n in nodes && n.mpuNext != null
  }

  method EnsureMpuList(space: AddressSpace, pc: nat)
    requires space.Valid() && space.MpuValid()
    requires space.mpuFirst == null ==> StaleLink(space.nodes, pc) == null
    modifies space`mpuFirst, space`mpuNodes, (set n | n in space.nodes)`mpuNext
    ensures space.MpuValid() && space.mpuNodes == SourceList(space.nodes, old(space.mpuNodes), pc)
    ensures old(space.mpuFirst) != null ==> WithLinks(space.nodes) == old(WithLinks(space.nodes))
  {
    if space.mpuFirst == null {
      BuildMpuList(space, pc);
    }
  }

  /** The pages for the regions: the first k are the stack pages. */
  method ChoosePages(space: AddressSpace, pc: nat, start: nat, end: nat) returns (pages: seq<Fpage>, k: nat)
    requires space.Valid() && space.MpuValid()
    requires space.mpuFirst == null ==> StaleLink(space.nodes, pc) == null
    modifies space`mpuFirst, space`mpuNodes, space`mpuStackFirst, (set n | n in space.nodes)`mpuNext
    ensures space.Valid() && space.MpuValid() && space.mpuNodes == SourceList(space.nodes, old(space.mpuNodes), pc)
    ensures k <= |pages| <= REGIONS && pages[..k] == StackPages(space.nodes, start, end, REGIONS)
    ensures pages[k..] == FifoPages(space.mpuNodes, pages[..k], REGIONS - k)
    ensures pages == Programmed(space.nodes, space.mpuNodes, start, end)
    ensures space.mpuStackFirst == NodeOr(pages[..k], 0, null)
    ensures Distinct(pages) && Members(pages, space.nodes, old(space.mpuNodes))
    ensures old(space.mpuFirst) != null ==> WithLinks(space.nodes) == old(WithLinks(space.nodes))
  {
    hide StackPages, FifoPages, MpuOrder, StaleLink, MpuLinked, Linked, Distinct, WithLinks;
    pages := FindStackPages(space, start, end);
    k := |pages|;
    ghost var stack := pages;
    space.mpuStackFirst := if k > 0 then pages[0] else null;
    EnsureMpuList(space, pc);
    assert space.Valid();
    pages := CollectFifo(space, pages);
    ListMembers(space.nodes, old(space.mpuNodes), pc);
    ProgrammedDistinct(space.nodes, space.mpuNodes, start, end);
    StackThenFifo(pages, stack, FifoPages(space.mpuNodes, stack, REGIONS - k));
  }

  /** as_setup_mpu: the stack pages, then the MPU list, fill the regions; the MPU
      list stays a proper list. */
  method AsSetupMpu(space: AddressSpace, unit: MpuUnit, pc: nat, stackBase: nat, stackSize: nat)
    returns (ghost mpu: seq<Fpage>)
    requires space.Valid() && space.MpuValid() && unit.Valid()
    requires space.mpuFirst == null ==> StaleLink(space.nodes, pc) == null
    requires AllProgrammable(space.nodes) && AllProgrammable(space.mpuNodes)
    requires |StackPages(space.nodes, stackBase, (stackBase + stackSize) % LIMIT, REGIONS)| < REGIONS
    modifies unit, space`mpuFirst, space`mpuNodes, space`mpuStackFirst
    modifies (set n | n in space.nodes)`mpuNext, (set n | n in space.mpuNodes)`mpuNext
    ensures space.Valid() && space.MpuValid() && unit.Valid()
    ensures var list := SourceList(space.nodes, old(space.mpuNodes), pc);
            var stack := StackPages(space.nodes, stackBase, (stackBase + stackSize) % LIMIT, REGIONS);
            && mpu == Programmed(space.nodes, list, stackBase, (stackBase + stackSize) % LIMIT)
            && space.mpuStackFirst == NodeOr(stack, 0, null) && MpuLinked(stack, null)
            && space.mpuNodes == NewList(list, stack, REGIONS - |stack|)
    ensures Distinct(mpu) && AllProgrammable(mpu) && |mpu| <= REGIONS
    ensures RegionsAre(unit.rbar, unit.rasr, mpu, REGIONS)
    ensures forall addr: nat :: HoldsSome(unit.rbar, unit.rasr, addr) <==> InSome(mpu, addr)
    ensures var stack := StackPages(space.nodes, stackBase, (stackBase + stackSize) % LIMIT, REGIONS);
            old(space.mpuFirst) == null && |MustMap(space.nodes, pc, stack)| <= REGIONS - |stack| ==>
              forall n :: n in MustMap(space.nodes, pc, stack) ==> n in mpu
    ensures var list := SourceList(space.nodes, old(space.mpuNodes), pc);
            var stack := StackPages(space.nodes, stackBase, (stackBase + stackSize) % LIMIT, REGIONS);
            forall next: nat :: (space.mpuFirst == null ==> StaleLink(space.nodes, next) == null) <==>
                                Reusable(space.nodes, list, stack, old(WithLinks(space.nodes)), next)
  {
    hide StackPages, FifoPages, Programmed, SourceList, NewList, RegionsAre, StaleLink, MpuLinked, Linked, Distinct;
    hide AllProgrammable, HoldsSome, InSome, Members, KeepsLinks, Reusable, WithLinks, MustMap;
    var pages, k := ChoosePages(space, pc, stackBase, (stackBase + stackSize) % LIMIT);
    mpu := pages;
    ghost var list := space.mpuNodes;
    AllFromLists(pages, space.nodes, old(space.mpuNodes));
    MembersInSet(pages, space.nodes, old(space.mpuNodes));
    space.mpuFirst := if k < |pages| then pages[k] else null;
    LinksOf(space.nodes);
    WriteRegions(unit, pages, k, list);
    assert space.Valid();
    space.mpuNodes := NewList(list, pages[..k], REGIONS - k);
    NewListHead(list, pages[..k], REGIONS - k);
    AllAddresses(unit.rbar, unit.rasr, pages);
    NewListMaps(space.nodes, old(space.mpuNodes), pc, pages, k);
    PrefixDistinct(pages, k);
    if k == |pages| {
      assert pages[..k] == pages;
      if old(space.mpuFirst) == null {
        AllInStack(space.nodes, old(space.mpuNodes), pc, pages, REGIONS - k);
      }
    }
    forall next: nat
      ensures (space.mpuFirst == null ==> StaleLink(space.nodes, next) == null) <==>
              Reusable(space.nodes, list, pages[..k], old(WithLinks(space.nodes)), next)
    {
      NextCall(space.nodes, list, pages[..k], REGIONS - k, old(WithLinks(space.nodes)), next);
    }
  }

  // ----- The next call -----

  /** The list keeps a page, or the next program counter leaves no stale link: the
      last page of the lowest priority is the last of the stack, or lies outside it
      and had no link before. */
  predicate Reusable(nodes: seq<Fpage>, list: seq<Fpage>, stack: seq<Fpage>, was: set<Fpage>, next: nat) {
    || (exists i :: 0 <= i < |list| && list[i] !in stack)
    || var others := OfPriority(nodes, next, 2);
       others == [] ||
       var last := others[|others| - 1];
       if last in stack then last == stack[|stack| - 1] else last !in was
  }

  lemma {:induction false} FifoEmpty(list: seq<Fpage>, stack: seq<Fpage>, room: nat)
    requires room > 0
    ensures FifoPages(list, stack, room) == [] <==> forall i :: 0 <= i < |list| ==> list[i] in stack
  {
    if list != [] && list[0] in stack {
      var rest := list[1..];
      FifoEmpty(rest, stack, room);
      assert forall i {:trigger rest[i]} :: 0 <= i < |rest| ==> rest[i] == list[i + 1];
      if forall i :: 0 <= i < |rest| ==> rest[i] in stack {
        forall i | 0 <= i < |list| ensures list[i] in stack {
          assert i > 0 ==> list[i] == rest[i - 1];
        }
      }
    }
  }

  lemma LinksOf(nodes: seq<Fpage>)
    ensures forall i {:trigger nodes[i]} :: 0 <= i < |nodes| ==>
              (nodes[i].mpuNext != null <==> nodes[i] in WithLinks(nodes))
  {
  }

  lemma NewListMaps(nodes: seq<Fpage>, was: seq<Fpage>, pc: nat, mpu: seq<Fpage>, k: nat)
    requires Distinct(nodes) && k <= |mpu| <= REGIONS
    requires mpu[k..] == FifoPages(SourceList(nodes, was, pc), mpu[..k], REGIONS - k)
    ensures NodeOr(was, 0, null) == null && |MustMap(nodes, pc, mpu[..k])| <= REGIONS - k ==>
              forall n :: n in MustMap(nodes, pc, mpu[..k]) ==> n in mpu
  {
    hide MpuOrder, FifoPages, MustMap;
    if NodeOr(was, 0, null) == null && |MustMap(nodes, pc, mpu[..k])| <= REGIONS - k {
      MustMapProgrammed(nodes, pc, mpu[..k], REGIONS - k);
    }
  }

  /** A new MPU list gives no page only if every page is a stack page. */
  lemma AllInStack(nodes: seq<Fpage>, was: seq<Fpage>, pc: nat, stack: seq<Fpage>, room: nat)
    requires Distinct(nodes) && NodeOr(was, 0, null) == null && room > 0
    requires FifoPages(SourceList(nodes, was, pc), stack, room) == []
    ensures forall i {:trigger nodes[i]} :: 0 <= i < |nodes| ==> nodes[i] in stack
  {
    var list := MpuOrder(nodes, pc);
    hide MpuOrder;
    FifoEmpty(list, stack, room);
    forall i {:trigger nodes[i]} | 0 <= i < |nodes| ensures nodes[i] in stack {
      MpuOrderComplete(nodes, pc, nodes[i]);
    }
  }

  lemma PrefixDistinct(pages: seq<Fpage>, k: nat)
    requires Distinct(pages) && k <= |pages|
    ensures Distinct(pages[..k])
  {
  }

  /** After a call, the next call finds the space as it needs it exactly under
      this condition. */
  lemma NextCall(nodes: seq<Fpage>, list: seq<Fpage>, stack: seq<Fpage>, room: nat, was: set<Fpage>, next: nat)
    requires room > 0 && MpuLinked(stack, null) && Distinct(stack)
    requires FifoPages(list, stack, room) == [] ==>
               forall i {:trigger nodes[i]} :: 0 <= i < |nodes| && nodes[i] !in stack ==>
                 (nodes[i].mpuNext != null <==> nodes[i] in was)
    ensures (FifoPages(list, stack, room) == [] ==> StaleLink(nodes, next) == null) <==>
            Reusable(nodes, list, stack, was, next)
  {
    FifoEmpty(list, stack, room);
    OfPrioritySound(nodes, next, 2);
    hide FifoPages;
    var others := OfPriority(nodes, next, 2);
    hide OfPriority;
    if others != [] && others[|others| - 1] in stack {
      var j :| 0 <= j < |stack| && stack[j] == others[|others| - 1];
      assert stack[j].mpuNext == NodeOr(stack, j + 1, null);
    }
  }

  /** Three pages of 256 bytes in a row, none of them always mapped. */
  predicate ThreePages(a: Fpage, s1: Fpage, s2: Fpage) {
    && a.base == 256 && s1.base == 512 && s2.base == 768
    && a.shift == 8 && s1.shift == 8 && s2.shift == 8
    && !a.attr.always && !s1.attr.always && !s2.attr.always
  }

  lemma SharedSpaceOrders(a: Fpage, s1: Fpage, s2: Fpage)
    requires ThreePages(a, s1, s2)
    ensures var nodes := [a, s1, s2];
            && AllProgrammable(nodes) && MpuOrder(nodes, 256) == nodes && MpuOrder(nodes, 768) == [s2, a, s1]
            && OfPriority(nodes, 256, 2) == [s1, s2] && OfPriority(nodes, 768, 2) == [a, s1]
  {
    Pow2Is32();
    hide Pow2;
    var nodes := [a, s1, s2];
    assert nodes[..2] == [a, s1] && [a, s1][..1] == [a];
    forall pc: nat, k: nat
      ensures OfPriority(nodes, pc, k) ==
              (if Priority(a, pc) == k then [a] else []) + (if Priority(s1, pc) == k then [s1] else []) +
              (if Priority(s2, pc) == k then [s2] else [])
    {
      hide Priority;
      assert OfPriority([a], pc, k) == if Priority(a, pc) == k then [a] else [];
      assert OfPriority([a, s1], pc, k) == OfPriority([a], pc, k) + if Priority(s1, pc) == k then [s1] else [];
    }
  }

  lemma SharedSpaceStacks(a: Fpage, s1: Fpage, s2: Fpage)
    requires ThreePages(a, s1, s2)
    ensures StackPages([a, s1, s2], 256, 512, REGIONS) == [a] && StackPages([a, s1, s2], 512, 1024, REGIONS) == [s1, s2]
  {
    Pow2Is32();
    hide Pow2;
    assert [a, s1, s2][1..] == [s1, s2] && [s1, s2][1..] == [s2];
    assert StackPages([s2], 768, 1024, REGIONS - 1) == [s2] + StackPages([], 1024, 1024, REGIONS - 2);
    assert StackPages([s1, s2], 512, 1024, REGIONS) == [s1] + StackPages([s2], 768, 1024, REGIONS - 1);
    assert StackPages([a, s1, s2], 256, 512, REGIONS) == [a] + StackPages([s1, s2], 512, 512, REGIONS - 1);
  }

  /** A thread with stack and code in the first page leaves a list of the last two;
      a thread with its stack there empties the list. */
  lemma SharedSpaceLists(a: Fpage, s1: Fpage, s2: Fpage)
    requires ThreePages(a, s1, s2)
    ensures NewList([a, s1, s2], [a], REGIONS - 1) == [s1, s2] && NewList([s1, s2], [s1, s2], REGIONS - 2) == []
  {
    assert [a, s1, s2][1..] == [s1, s2] && [s1, s2][1..] == [s2];
    assert FifoPages([s2], [a], REGIONS - 2) == [s2] + FifoPages([], [a], REGIONS - 3);
    assert FifoPages([s1, s2], [a], REGIONS - 1) == [s1] + FifoPages([s2], [a], REGIONS - 2);
    assert Behind([s1, s2], [a], REGIONS - 1) == Behind([s2], [a], REGIONS - 2) == [];
    FifoEmpty([s1, s2], [s1, s2], REGIONS - 2);
  }

  /** The call for the first thread. */
  method CallInFirstPage(space: AddressSpace, unit: MpuUnit, a: Fpage, s1: Fpage, s2: Fpage)
    requires space.Valid() && space.MpuValid() && space.mpuFirst == null && unit.Valid()
    requires space.nodes == [a, s1, s2] && ThreePages(a, s1, s2) && s2.mpuNext == null
    modifies unit, space`mpuFirst, space`mpuNodes, space`mpuStackFirst, (set n | n in space.nodes)`mpuNext
    ensures space.Valid() && space.MpuValid() && unit.Valid() && space.mpuNodes == [s1, s2]
  {
    SharedSpaceOrders(a, s1, s2);
    SharedSpaceStacks(a, s1, s2);
    SharedSpaceLists(a, s1, s2);
    assert space.mpuNodes == [] && AllProgrammable(space.mpuNodes) && StaleLink(space.nodes, 256) == null;
    hide StackPages, NewList, Pow2, Reusable, HoldsSome, InSome, AllProgrammable, MpuLinked;
    hide OfPriority, MpuOrder, StaleLink, Programmed, AddressSpace.Valid, AddressSpace.MpuValid;
    ghost var mpu := AsSetupMpu(space, unit, 256, 256, 256);
  }

  /** The call for the second thread. */
  method CallInLastPages(space: AddressSpace, unit: MpuUnit, a: Fpage, s1: Fpage, s2: Fpage)
    requires space.Valid() && space.MpuValid() && unit.Valid()
    requires space.nodes == [a, s1, s2] && space.mpuNodes == [s1, s2] && ThreePages(a, s1, s2)
    modifies unit, space`mpuFirst, space`mpuNodes, space`mpuStackFirst, (set n | n in space.nodes)`mpuNext
    ensures space.Valid() && space.MpuValid() && space.mpuFirst == null && MpuLinked([s1, s2], null)
  {
    SharedSpaceOrders(a, s1, s2);
    SharedSpaceStacks(a, s1, s2);
    SharedSpaceLists(a, s1, s2);
    assert AllProgrammable(space.mpuNodes) && space.mpuFirst == s1;
    hide StackPages, NewList, Pow2, Reusable, HoldsSome, InSome, MpuLinked, AllProgrammable;
    hide OfPriority, MpuOrder, StaleLink, Programmed;
    ghost var mpu := AsSetupMpu(space, unit, 512, 512, 512);
  }

  /** Both calls and the next build, for a thread with its code in the last page: the
      MPU list is the cycle s2, a, s1. */
  method SharedSpaceCycle(space: AddressSpace, unit: MpuUnit, a: Fpage, s1: Fpage, s2: Fpage)
    requires space.Valid() && space.MpuValid() && space.mpuFirst == null && unit.Valid()
    requires space.nodes == [a, s1, s2] && ThreePages(a, s1, s2) && s2.mpuNext == null
    modifies unit, space`mpuFirst, space`mpuNodes, space`mpuStackFirst, (set n | n in space.nodes)`mpuNext
    ensures space.Valid() && space.mpuFirst == s2 && s2.mpuNext == a && a.mpuNext == s1 && s1.mpuNext == s2
  {
    CallInFirstPage(space, unit, a, s1, s2);
    CallInLastPages(space, unit, a, s1, s2);
    assert s1 == [s1, s2][0] && s1.mpuNext == s2;
    SharedSpaceOrders(a, s1, s2);
    BuildMpuList(space, 768);
    ghost var list := [s2, a, s1];
    assert s2 == list[0] && a == list[1] && s1 == list[2];
  }

  /** Some region holds the address. */
  predicate HoldsSome(rbar: seq<nat>, rasr: seq<nat>, addr: nat)
    requires |rbar| == REGIONS && |rasr| == REGIONS
  {
    exists j :: 0 <= j < REGIONS && RegionHolds(rbar[j], rasr[j], addr)
  }

  /** Some programmed page holds the address. */
  predicate InSome(mpu: seq<Fpage>, addr: nat) {
    exists i :: 0 <= i < |mpu| && AddrInFpage(addr, mpu[i])
  }

  lemma AllAddresses(rbar: seq<nat>, rasr: seq<nat>, mpu: seq<Fpage>)
    requires AllProgrammable(mpu) && |mpu| <= REGIONS && RegionsAre(rbar, rasr, mpu, REGIONS)
    ensures forall addr: nat :: HoldsSome(rbar, rasr, addr) <==> InSome(mpu, addr)
  {
    forall addr: nat ensures HoldsSome(rbar, rasr, addr) <==> InSome(mpu, addr) {
      RegionsHoldPages(rbar, rasr, mpu, addr);
    }
  }

  lemma StackThenFifo(mpu: seq<Fpage>, stack: seq<Fpage>, fifo: seq<Fpage>)
    requires mpu == stack + fifo
    ensures mpu[..|stack|] == stack && mpu[|stack|..] == fifo
  {
  }

  lemma NewListHead(list: seq<Fpage>, stack: seq<Fpage>, room: nat)
    ensures NodeOr(NewList(list, stack, room), 0, null) == NodeOr(FifoPages(list, stack, room), 0, null)
  {
  }

  lemma ListMembers(nodes: seq<Fpage>, was: seq<Fpage>, pc: nat)
    requires Distinct(nodes)
    ensures Members(SourceList(nodes, was, pc), nodes, was)
  {
    var s := SourceList(nodes, was, pc);
    forall i {:trigger s[i]} | 0 <= i < |s| ensures s[i] in nodes || s[i] in was {
      MpuOrderComplete(nodes, pc, s[i]);
    }
  }

  lemma MembersInSet(mpu: seq<Fpage>, nodes: seq<Fpage>, was: seq<Fpage>)
    requires Members(mpu, nodes, was)
    ensures forall n :: n in mpu ==> n in nodes || n in was
  {
  }

  lemma AllFromLists(mpu: seq<Fpage>, nodes: seq<Fpage>, was: seq<Fpage>)
    requires Members(mpu, nodes, was) && AllProgrammable(nodes) && AllProgrammable(was)
    ensures AllProgrammable(mpu)
  {
  }

  // ----- What the address-space invariant gives the MPU -----

  /** Every page of a well-formed address space fits one region. */
  lemma {:induction false} SpaceIsProgrammable(nodes: seq<Fpage>, lo: nat)
    requires Ordered(Views(nodes), lo)
    ensures AllProgrammable(nodes)
  {
    if nodes != [] {
      assert Views(nodes)[1..] == Views(nodes[1..]);
      SpaceIsProgrammable(nodes[1..], nodes[0].End());
      assert Views(nodes)[0] == nodes[0].View();
      AlignedDown(nodes[0].base, 5, nodes[0].shift);
      AlignedIsMultiple(nodes[0].base, 5);
      assert nodes == [nodes[0]] + nodes[1..];
    }
  }

  predicate StackMapped(nodes: seq<Fpage>, start: nat, end: nat) {
    forall a {:trigger Covers(Views(nodes), a)} :: start <= a < end ==> Covers(Views(nodes), a)
  }

  /** A stack that is mapped without holes and needs fewer pages than there are
      regions is wholly inside the pages found for it. */
  lemma {:induction false} StackPagesCover(nodes: seq<Fpage>, lo: nat, start: nat, end: nat, room: nat, a: nat)
    requires Ordered(Views(nodes), lo) && StackMapped(nodes, start, end)
    requires |StackPages(nodes, start, end, room)| < room && start <= a < end
    ensures InSome(StackPages(nodes, start, end, room), a)
    decreases |nodes|
  {
    var ps := Views(nodes);
    assert Covers(ps, start) && nodes != [];
    var rest := nodes[1..];
    assert ps[0] == nodes[0].View() && ps[1..] == Views(rest);
    if start < nodes[0].base {
      NothingBelow(Views(rest), nodes[0].End(), start);
    } else {
      var next := if start < nodes[0].End() then nodes[0].End() else start;
      forall x {:trigger Covers(Views(rest), x)} | next <= x < end ensures Covers(Views(rest), x) {
        assert Covers(ps, x);
      }
      var mine := StackPages(nodes, start, end, room);
      if start < nodes[0].End() {
        assert mine == [nodes[0]] + StackPages(rest, next, end, room - 1);
        if a < next {
          assert AddrInFpage(a, mine[0]);
        } else {
          StackPagesCover(rest, nodes[0].End(), next, end, room - 1, a);
          var sub := StackPages(rest, next, end, room - 1);
          var i :| 0 <= i < |sub| && AddrInFpage(a, sub[i]);
          assert mine[i + 1] == sub[i];
        }
      } else {
        StackPagesCover(rest, nodes[0].End(), start, end, room, a);
      }
    }
  }
}
