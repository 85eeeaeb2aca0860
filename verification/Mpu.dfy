/** Programming the memory protection unit from an address space
    (as_setup_mpu of kernel/memory.c, platform/stm32f4/mpu.c). */
module Mpu {
  import opened Bits
  import opened FpageChain
  import opened Fpages

  const REGIONS: nat := 8

  // ----- The region registers (section B3.5 of the ARMv7-M manual) -----

  /** FPAGE_END: 32-bit arithmetic. */
  function FpageEnd(fp: Fpage): nat { (fp.base + Pow2(fp.shift)) % LIMIT }

  /** addr_in_fpage without its end. */
  predicate AddrInFpage(addr: nat, fp: Fpage) {
    fp.base <= addr < FpageEnd(fp)
  }

  /** The MP_UX permission of the page's pool. */
  predicate Executable(fp: Fpage) { fp.attr.rwx / 4 % 2 == 1 }

  /** (base & 0xFFFFFFE0) | 0x10 | (n & 0xF). */
  function BaseWord(base: nat, n: nat): nat { base - base % 32 + 16 + n % 16 }

  /** XN bit, full access, region size and enable bit of one page. */
  function AttrWord(fp: Fpage): nat
    requires fp.shift > 0
  {
    (if Executable(fp) then 0 else 0x1000_0000) + 0x300_0000 + (fp.shift - 1) * 2 + 1
  }

  function RegionBase(rbar: nat): nat { rbar - rbar % 32 }

  predicate RegionEnabled(rasr: nat) { rasr % 2 == 1 }

  /** 1 << (((attr >> 1) & 0x1F) + 1) in 32 bits. */
  function RegionSize(rasr: nat): nat { Pow2(rasr / 2 % 32 + 1) % LIMIT }

  predicate RegionHolds(rbar: nat, rasr: nat, addr: nat) {
    RegionEnabled(rasr) && RegionBase(rbar) <= addr < (RegionBase(rbar) + RegionSize(rasr)) % LIMIT
  }

  /** A page that one region can describe: 32 bytes to 2 GB, on a 32-byte
      boundary. */
  predicate Programmable(fp: Fpage) {
    5 <= fp.shift <= 31 && fp.base % 32 == 0 && fp.base < LIMIT
  }

  /** The two words written for a page read back as that page. */
  lemma RegionWordsRoundTrip(fp: Fpage, n: nat, addr: nat)
    requires Programmable(fp)
    ensures RegionHolds(BaseWord(fp.base, n), AttrWord(fp), addr) <==> AddrInFpage(addr, fp)
  {
    BaseRoundTrip(fp.base, n);
    SizeRoundTrip(fp);
    hide BaseWord, AttrWord, RegionBase, RegionEnabled, RegionSize, Pow2;
  }

  lemma SizeRoundTrip(fp: Fpage)
    requires Programmable(fp)
    ensures RegionEnabled(AttrWord(fp)) && RegionSize(AttrWord(fp)) == Pow2(fp.shift)
  {
    AttrFields(fp);
    Pow2Is32();
    Pow2Order(fp.shift, 32);
    hide AttrWord, Pow2;
    SmallMod(Pow2(fp.shift), LIMIT);
  }

  lemma SmallMod(x: nat, m: nat)
    requires x < m
    ensures x % m == x
  {
  }

  lemma BaseRoundTrip(base: nat, n: nat)
    requires base % 32 == 0
    ensures RegionBase(BaseWord(base, n)) == base
  {
    assert BaseWord(base, n) % 32 == 16 + n % 16;
  }

  lemma AttrFields(fp: Fpage)
    requires 1 <= fp.shift <= 32
    ensures AttrWord(fp) % 2 == 1 && AttrWord(fp) / 2 % 32 == fp.shift - 1
  {
    var w := AttrWord(fp);
    var high := if Executable(fp) then 0 else 0x800_0000;
    assert w / 2 == high + 0x180_0000 + (fp.shift - 1);
  }

  /** Bit 28, execute-never, is clear exactly for pages of pools that user code may
      execute; bits 24 to 26 give full access; the rest is size and enable. */
  lemma AttrWordBits(fp: Fpage)
    requires Programmable(fp)
    ensures var w := AttrWord(fp);
            && w < LIMIT && (w / 0x1000_0000 % 2 == 0 <==> fp.attr.rwx / 4 % 2 == 1)
            && w / 0x100_0000 % 8 == 3 && w % 0x100_0000 == 2 * (fp.shift - 1) + 1 && w / 0x1000_0000 < 2
  {
    var w, low := AttrWord(fp), 2 * (fp.shift - 1) + 1;
    assert w == (if Executable(fp) then 0 else 16 * 0x100_0000) + 3 * 0x100_0000 + low;
  }

  class MpuUnit {
    /** The region number register and the words of the eight regions. */
    var rnr: nat
    var rbar: seq<nat>
    var rasr: seq<nat>

    constructor ()
      ensures Valid() && forall j :: 0 <= j < REGIONS ==> rasr[j] == 0
    {
      rnr := 0;
      rbar, rasr := [0, 0, 0, 0, 0, 0, 0, 0], [0, 0, 0, 0, 0, 0, 0, 0];
    }

    ghost predicate Valid()
      reads this
    {
      |rbar| == REGIONS && |rasr| == REGIONS && rnr < REGIONS
    }

    /** A write to the base register with the VALID bit selects the region. */
    method WriteBase(word: nat)
      requires Valid() && word / 16 % 2 == 1 && word % 16 < REGIONS
      modifies this
      ensures Valid() && rnr == word % 16
      ensures rbar == old(rbar)[word % 16 := word] && rasr == old(rasr)
    {
      rnr := word % 16;
      rbar := rbar[rnr := word];
    }

    method WriteAttr(word: nat)
      requires Valid()
      modifies this
      ensures Valid() && rnr == old(rnr) && rbar == old(rbar) && rasr == old(rasr)[rnr := word]
    {
      rasr := rasr[rnr := word];
    }

    /** mpu_setup_region. */
    method SetupRegion(n: nat, fp: Fpage?)
      requires Valid() && n < REGIONS
      requires fp != null ==> Programmable(fp)
      modifies this
      ensures Valid()
      ensures rbar == old(rbar)[n := if fp == null then 16 + n else BaseWord(fp.base, n)]
      ensures rasr == old(rasr)[n := if fp == null then 0 else AttrWord(fp)]
    {
      if fp != null {
        BaseWordFields(fp.base, n);
        WriteBase(BaseWord(fp.base, n));
        WriteAttr(AttrWord(fp));
      } else {
        WriteBase(16 + n);
        WriteAttr(0);
      }
    }

    /** Region j holds the address. */
    predicate Holds(j: nat, addr: nat)
      reads this`rbar, this`rasr
      requires j < |rbar| && j < |rasr|
    {
      RegionHolds(rbar[j], rasr[j], addr)
    }

    /** addr_in_mpu: the loop over the regions through the region number register. */
    method AddrInMpu(addr: nat) returns (r: bool)
      requires Valid()
      modifies this`rnr
      ensures Valid() && r == exists j :: 0 <= j < REGIONS && Holds(j, addr)
    {
      for i := 0 to REGIONS
        invariant Valid()
        invariant forall j :: 0 <= j < i ==> !Holds(j, addr)
      {
        rnr := i;
        if RegionEnabled(rasr[rnr]) {
          var base := RegionBase(rbar[rnr]);
          var size := RegionSize(rasr[rnr]);
          if base <= addr < (base + size) % LIMIT {
            assert Holds(i, addr);
            return true;
          }
        }
      }
      return false;
    }
  }

  lemma BaseWordFields(base: nat, n: nat)
    requires n < REGIONS
    ensures BaseWord(base, n) / 16 % 2 == 1 && BaseWord(base, n) % 16 == n
  {
    var q := base / 32;
    assert BaseWord(base, n) == 32 * q + 16 + n;
  }

  // ----- Which pages are programmed -----

  /** The pages that hold the stack, found in one pass over the list. */
  function StackPages(nodes: seq<Fpage>, start: nat, end: nat, room: nat): (s: seq<Fpage>)
    ensures |s| <= room
  {
    if room == 0 || nodes == [] || start >= end then []
    else if AddrInFpage(start, nodes[0]) then
      [nodes[0]] + StackPages(nodes[1..], FpageEnd(nodes[0]), end, room - 1)
    else StackPages(nodes[1..], start, end, room)
  }

  /** 0 for the page of the program counter, 1 for always-mapped pages, 2 for the
      others. */
  function Priority(fp: Fpage, pc: nat): (k: nat)
    ensures k < 3
  {
    if AddrInFpage(pc, fp) then 0 else if fp.attr.always then 1 else 2
  }

  /** The pages of one priority, in list order. */
  function OfPriority(nodes: seq<Fpage>, pc: nat, k: nat): seq<Fpage> {
    if nodes == [] then []
    else
      var head := OfPriority(nodes[..|nodes| - 1], pc, k);
      var fp := nodes[|nodes| - 1];
      if Priority(fp, pc) == k then head + [fp] else head
  }

  /** The MPU list of a space that has none yet. */
  function MpuOrder(nodes: seq<Fpage>, pc: nat): seq<Fpage> {
    OfPriority(nodes, pc, 0) + OfPriority(nodes, pc, 1) + OfPriority(nodes, pc, 2)
  }

  /** The first pages of the list that are not stack pages. */
  function FifoPages(list: seq<Fpage>, stack: seq<Fpage>, room: nat): (s: seq<Fpage>)
    ensures |s| <= room
  {
    if room == 0 || list == [] then []
    else if list[0] in stack then FifoPages(list[1..], stack, room)
    else [list[0]] + FifoPages(list[1..], stack, room - 1)
  }

  /** Everything as_setup_mpu programs, region by region. */
  function Programmed(nodes: seq<Fpage>, list: seq<Fpage>, start: nat, end: nat): (s: seq<Fpage>)
    ensures |s| <= REGIONS
  {
    var stack := StackPages(nodes, start, end, REGIONS);
    stack + FifoPages(list, stack, REGIONS - |stack|)
  }

  /** `part` picks some of the nodes, in their order. */
  predicate Picks(part: seq<Fpage>, nodes: seq<Fpage>) {
    part == [] || (nodes != [] && if part[0] == nodes[0] then Picks(part[1..], nodes[1..]) else Picks(part, nodes[1..]))
  }

  lemma {:induction false} PicksMember(part: seq<Fpage>, nodes: seq<Fpage>, n: Fpage)
    requires Picks(part, nodes) && n in part
    ensures n in nodes
  {
    if part[0] == nodes[0] {
      if n != part[0] {
        PicksMember(part[1..], nodes[1..], n);
      }
    } else {
      PicksMember(part, nodes[1..], n);
    }
  }

  lemma {:induction false} PicksDistinct(part: seq<Fpage>, nodes: seq<Fpage>)
    requires Picks(part, nodes) && Distinct(nodes)
    ensures Distinct(part)
  {
    if part != [] {
      assert Distinct(nodes[1..]);
      if part[0] == nodes[0] {
        PicksDistinct(part[1..], nodes[1..]);
        forall j | 0 < j < |part| ensures part[j] != part[0] {
          PicksMember(part[1..], nodes[1..], part[1..][j - 1]);
        }
        assert part == [part[0]] + part[1..];
      } else {
        PicksDistinct(part, nodes[1..]);
      }
    }
  }

  lemma {:induction false} StackPagesPick(nodes: seq<Fpage>, start: nat, end: nat, room: nat)
    requires Distinct(nodes)
    ensures Picks(StackPages(nodes, start, end, room), nodes)
  {
    if !(room == 0 || nodes == [] || start >= end) {
      assert Distinct(nodes[1..]);
      if AddrInFpage(start, nodes[0]) {
        StackPagesPick(nodes[1..], FpageEnd(nodes[0]), end, room - 1);
      } else {
        StackPagesPick(nodes[1..], start, end, room);
        PicksSkip(StackPages(nodes[1..], start, end, room), nodes);
      }
    }
  }

  lemma PicksSkip(part: seq<Fpage>, nodes: seq<Fpage>)
    requires nodes != [] && Distinct(nodes) && Picks(part, nodes[1..])
    ensures Picks(part, nodes)
  {
    if part != [] && part[0] == nodes[0] {
      PicksMember(part, nodes[1..], part[0]);
      assert false;
    }
  }

  lemma {:induction false} FifoPagesPick(list: seq<Fpage>, stack: seq<Fpage>, room: nat)
    requires Distinct(list)
    ensures Picks(FifoPages(list, stack, room), list)
    ensures forall i :: 0 <= i < |FifoPages(list, stack, room)| ==> FifoPages(list, stack, room)[i] !in stack
  {
    if !(room == 0 || list == []) {
      assert Distinct(list[1..]);
      if list[0] in stack {
        FifoPagesPick(list[1..], stack, room);
        PicksSkip(FifoPages(list[1..], stack, room), list);
      } else {
        FifoPagesPick(list[1..], stack, room - 1);
      }
    }
  }

  /** At most eight distinct pages are programmed, all of them pages of the space
      or of its MPU list. */
  lemma ProgrammedDistinct(nodes: seq<Fpage>, list: seq<Fpage>, start: nat, end: nat)
    requires Distinct(nodes) && Distinct(list)
    ensures var s := Programmed(nodes, list, start, end);
            Distinct(s) && forall i :: 0 <= i < |s| ==> s[i] in nodes || s[i] in list
  {
    var stack := StackPages(nodes, start, end, REGIONS);
    var fifo := FifoPages(list, stack, REGIONS - |stack|);
    StackPagesPick(nodes, start, end, REGIONS);
    FifoPagesPick(list, stack, REGIONS - |stack|);
    PicksDistinct(stack, nodes);
    PicksDistinct(fifo, list);
    forall i | 0 <= i < |stack| ensures stack[i] in nodes {
      PicksMember(stack, nodes, stack[i]);
    }
    forall i | 0 <= i < |fifo| ensures fifo[i] in list {
      PicksMember(fifo, list, fifo[i]);
    }
    FreshIsDistinct(stack, fifo);
  }

  predicate AllOfPriority(s: seq<Fpage>, nodes: seq<Fpage>, pc: nat, k: nat) {
    forall i {:trigger s[i]} :: 0 <= i < |s| ==> s[i] in nodes && Priority(s[i], pc) == k
  }

  lemma {:induction false} OfPrioritySound(nodes: seq<Fpage>, pc: nat, k: nat)
    ensures AllOfPriority(OfPriority(nodes, pc, k), nodes, pc, k)
  {
    if nodes != [] {
      var head := nodes[..|nodes| - 1];
      OfPrioritySound(head, pc, k);
      assert nodes == head + [nodes[|nodes| - 1]];
    }
  }

  lemma {:induction false} OfPriorityHas(nodes: seq<Fpage>, pc: nat, n: Fpage)
    requires n in nodes
    ensures n in OfPriority(nodes, pc, Priority(n, pc))
  {
    if n != nodes[|nodes| - 1] {
      assert nodes == nodes[..|nodes| - 1] + [nodes[|nodes| - 1]];
      OfPriorityHas(nodes[..|nodes| - 1], pc, n);
    }
  }

  lemma {:induction false} OfPriorityDistinct(nodes: seq<Fpage>, pc: nat, k: nat)
    requires Distinct(nodes)
    ensures Distinct(OfPriority(nodes, pc, k))
  {
    if nodes != [] {
      var head, fp := nodes[..|nodes| - 1], nodes[|nodes| - 1];
      OfPriorityDistinct(head, pc, k);
      OfPrioritySound(head, pc, k);
      assert fp !in head;
      FreshIsDistinct(OfPriority(head, pc, k), [fp]);
    }
  }

  /** A fresh MPU list holds every page of the space once. */
  lemma MpuOrderComplete(nodes: seq<Fpage>, pc: nat, n: Fpage)
    requires Distinct(nodes)
    ensures Distinct(MpuOrder(nodes, pc))
    ensures n in MpuOrder(nodes, pc) <==> n in nodes
  {
    var a, b, c := OfPriority(nodes, pc, 0), OfPriority(nodes, pc, 1), OfPriority(nodes, pc, 2);
    OfPrioritySound(nodes, pc, 0);
    OfPrioritySound(nodes, pc, 1);
    OfPrioritySound(nodes, pc, 2);
    OfPriorityDistinct(nodes, pc, 0);
    OfPriorityDistinct(nodes, pc, 1);
    OfPriorityDistinct(nodes, pc, 2);
    FreshIsDistinct(a, b);
    assert forall i :: 0 <= i < |a + b| ==> Priority((a + b)[i], pc) != 2;
    FreshIsDistinct(a + b, c);
    if n in nodes {
      OfPriorityHas(nodes, pc, n);
    }
  }

  // ----- as_setup_mpu, step by step -----

  lemma StackStep(nodes: seq<Fpage>, j: nat, start: nat, end: nat, room: nat)
    requires j < |nodes| && 0 < room && start < end
    ensures var fp := nodes[j];
            StackPages(nodes[j..], start, end, room) ==
            if AddrInFpage(start, fp) then [fp] + StackPages(nodes[j + 1..], FpageEnd(fp), end, room - 1)
            else StackPages(nodes[j + 1..], start, end, room)
  {
    assert nodes[j..][0] == nodes[j] && nodes[j..][1..] == nodes[j + 1..];
  }

  lemma AppendOne(a: seq<Fpage>, n: Fpage, b: seq<Fpage>)
    ensures a + ([n] + b) == (a + [n]) + b
  {
  }

  /** The walk for the stack pages. */
  method FindStackPages(space: AddressSpace, start: nat, end: nat) returns (mpu: seq<Fpage>)
    requires space.Valid()
    ensures mpu == StackPages(space.nodes, start, end, REGIONS)
  {
    hide StackPages, AddrInFpage, FpageEnd;
    mpu := [];
    var fp: Fpage?, at: nat := space.first, start;
    ghost var j := 0;
    ghost var all := StackPages(space.nodes, start, end, REGIONS);
    assert space.nodes[0..] == space.nodes && [] + all == all;
    while |mpu| < REGIONS && fp != null && at < end
      invariant j <= |space.nodes| && fp == NodeOr(space.nodes, j, null) && |mpu| <= REGIONS
      invariant mpu + StackPages(space.nodes[j..], at, end, REGIONS - |mpu|) == all
      decreases |space.nodes| - j
    {
      StackStep(space.nodes, j, at, end, REGIONS - |mpu|);
      if AddrInFpage(at, fp) {
        AppendOne(mpu, fp, StackPages(space.nodes[j + 1..], FpageEnd(fp), end, REGIONS - |mpu| - 1));
        mpu := mpu + [fp];
        at := FpageEnd(fp);
      }
      fp := fp.asNext;
      j := j + 1;
    }
    StackDone(space.nodes[j..], at, end, REGIONS - |mpu|);
    assert mpu + [] == mpu;
  }

  lemma StackDone(nodes: seq<Fpage>, start: nat, end: nat, room: nat)
    requires room == 0 || nodes == [] || start >= end
    ensures StackPages(nodes, start, end, room) == []
  {
  }

  lemma FifoStep(list: seq<Fpage>, j: nat, stack: seq<Fpage>, room: nat)
    requires j < |list| && 0 < room
    ensures var fp := list[j];
            FifoPages(list[j..], stack, room) ==
            if fp in stack then FifoPages(list[j + 1..], stack, room)
            else [fp] + FifoPages(list[j + 1..], stack, room - 1)
  {
    assert list[j..][0] == list[j] && list[j..][1..] == list[j + 1..];
  }

  lemma FifoDone(list: seq<Fpage>, stack: seq<Fpage>, room: nat)
    requires room == 0 || list == []
    ensures FifoPages(list, stack, room) == []
  {
  }

  /** The inner loop: is the page one of the stack pages? */
  method IsStackPage(fp: Fpage, stack: seq<Fpage>) returns (r: bool)
    ensures r == (fp in stack)
  {
    for j := 0 to |stack|
      invariant forall i :: 0 <= i < j ==> stack[i] != fp
    {
      if fp == stack[j] {
        return true;
      }
    }
    return false;
  }

  /** The walk over the MPU list behind the stack pages. */
  method CollectFifo(space: AddressSpace, stack: seq<Fpage>) returns (mpu: seq<Fpage>)
    requires space.MpuValid() && |stack| <= REGIONS
    ensures mpu == stack + FifoPages(space.mpuNodes, stack, REGIONS - |stack|)
    ensures |mpu| <= REGIONS
  {
    hide FifoPages;
    mpu := stack;
    var fp := space.mpuFirst;
    ghost var list, j := space.mpuNodes, 0;
    ghost var all := stack + FifoPages(list, stack, REGIONS - |stack|);
    assert list[0..] == list;
    while |mpu| < REGIONS && fp != null
      invariant j <= |list| && fp == NodeOr(list, j, null) && |mpu| <= REGIONS
      invariant mpu + FifoPages(list[j..], stack, REGIONS - |mpu|) == all
      decreases |list| - j
    {
      FifoStep(list, j, stack, REGIONS - |mpu|);
      var isStack := IsStackPage(fp, stack);
      if !isStack {
        AppendOne(mpu, fp, FifoPages(list[j + 1..], stack, REGIONS - |mpu| - 1));
        mpu := mpu + [fp];
      }
      fp := fp.mpuNext;
      j := j + 1;
    }
    FifoDone(list[j..], stack, REGIONS - |mpu|);
    assert mpu + [] == mpu;
  }

  // ----- Building the MPU list -----

  /** One of the three lists under construction: its head, its tail and its pages. */
  datatype Sublist = Sublist(head: Fpage?, tail: Fpage?)

  /** The links of some pages. */
  type Links = map<Fpage, Fpage?>

  ghost predicate LinksAre(nodes: seq<Fpage>, was: Links)
    reads (set n | n in nodes)`mpuNext
  {
    forall i {:trigger nodes[i]} :: 0 <= i < |nodes| ==> nodes[i] in was && nodes[i].mpuNext == was[nodes[i]]
  }

  /** The link of the last page. */
  ghost function EndLink(pages: seq<Fpage>, was: Links): Fpage? {
    if pages == [] || pages[|pages| - 1] !in was then null else was[pages[|pages| - 1]]
  }

  /** The last page of the list still has the link it had before. */
  ghost predicate SublistOk(l: Sublist, pages: seq<Fpage>, was: Links)
    reads (set n | n in pages)`mpuNext
  {
    && l.head == NodeOr(pages, 0, null)
    && l.tail == (if pages == [] then null else pages[|pages| - 1])
    && MpuLinked(pages, EndLink(pages, was)) && Distinct(pages)
  }

  /** Puts a page behind one of the lists. */
  method AppendTo(l: Sublist, fp: Fpage, ghost pages: seq<Fpage>, ghost was: Links) returns (r: Sublist)
    requires SublistOk(l, pages, was) && fp !in pages && fp.mpuNext == EndLink([fp], was)
    modifies (if l.tail == null then {} else {l.tail})`mpuNext
    ensures SublistOk(r, pages + [fp], was)
  {
    FreshIsDistinct(pages, [fp]);
    if l.head == null {
      r := Sublist(fp, fp);
    } else {
      SetMpuTail(l.tail, fp, pages, EndLink(pages, was));
      MpuLinkedConcat(pages, [fp], EndLink([fp], was));
      r := Sublist(l.head, fp);
    }
  }

  /** Hangs list b behind list a. */
  method ConcatLists(a: Sublist, b: Fpage?, ghost pages: seq<Fpage>, ghost more: seq<Fpage>, ghost was: Links,
                     ghost z: Fpage?)
    returns (head: Fpage?)
    requires SublistOk(a, pages, was) && b == NodeOr(more, 0, null) && MpuLinked(more, z) && (more == [] ==> z == null)
    requires forall i, j :: 0 <= i < |pages| && 0 <= j < |more| ==> pages[i] != more[j]
    modifies (if a.tail == null then {} else {a.tail})`mpuNext
    ensures head == NodeOr(pages + more, 0, null) && MpuLinked(pages + more, z)
  {
    if a.head != null {
      SetMpuTail(a.tail, b, pages, EndLink(pages, was));
      MpuLinkedConcat(pages, more, z);
      head := a.head;
    } else {
      assert pages + more == more;
      head := b;
    }
  }

  lemma OfPriorityStep(nodes: seq<Fpage>, j: nat, pc: nat, k: nat)
    requires j < |nodes|
    ensures OfPriority(nodes[..j + 1], pc, k) ==
            if Priority(nodes[j], pc) == k then OfPriority(nodes[..j], pc, k) + [nodes[j]]
            else OfPriority(nodes[..j], pc, k)
  {
    assert nodes[..j + 1][..j] == nodes[..j];
  }

  /** List k holds the pages of priority k among the first j. */
  ghost predicate ListOk(nodes: seq<Fpage>, j: nat, pc: nat, lists: seq<Sublist>, k: nat, was: Links)
    requires j <= |nodes| && k < |lists|
    reads (set n | n in OfPriority(nodes[..j], pc, k))`mpuNext
  {
    SublistOk(lists[k], OfPriority(nodes[..j], pc, k), was)
  }

  lemma NotAmongEarlier(nodes: seq<Fpage>, j: nat, pc: nat, k: nat)
    requires Distinct(nodes) && j < |nodes|
    ensures var s := OfPriority(nodes[..j], pc, k);
            nodes[j] !in s && forall i, m :: 0 <= i < |s| && j <= m < |nodes| ==> s[i] != nodes[m]
  {
    var s := OfPriority(nodes[..j], pc, k);
    OfPrioritySound(nodes[..j], pc, k);
    forall i, m | 0 <= i < |s| && j <= m < |nodes| ensures s[i] != nodes[m] {
      assert s[i] in nodes[..j];
    }
  }

  lemma TailInList(l: Sublist, pages: seq<Fpage>, was: Links)
    requires SublistOk(l, pages, was)
    ensures l.tail != null ==> l.tail in pages
  {
  }

  /** A page of one priority is in no list of another, and not among the pages to come. */
  lemma TailApart(nodes: seq<Fpage>, j: nat, pc: nat, k: nat, n: Fpage)
    requires Distinct(nodes) && j < |nodes| && n in OfPriority(nodes[..j], pc, k)
    ensures n in nodes[..j]
    ensures forall m {:trigger OfPriority(nodes[..j], pc, m)} :: m != k ==> n !in OfPriority(nodes[..j], pc, m)
    ensures n !in nodes[j..]
  {
    OfPrioritySound(nodes[..j], pc, k);
    forall m: nat {:trigger OfPriority(nodes[..j], pc, m)} | m != k ensures n !in OfPriority(nodes[..j], pc, m) {
      OfPrioritySound(nodes[..j], pc, m);
    }
    NotAmongEarlier(nodes, j, pc, k);
  }

  /** One page of the walk goes behind the list of its priority. */
  method FileByPriority(ghost nodes: seq<Fpage>, ghost j: nat, fp: Fpage, pc: nat, lists: seq<Sublist>,
                        ghost was: Links)
    returns (r: seq<Sublist>)
    requires |lists| == 3 && j < |nodes| && fp == nodes[j] && Distinct(nodes) && LinksAre(nodes[j..], was)
    requires ListOk(nodes, j, pc, lists, 0, was) && ListOk(nodes, j, pc, lists, 1, was) &&
             ListOk(nodes, j, pc, lists, 2, was)
    modifies (set n | n in nodes[..j])`mpuNext
    ensures |r| == 3 && LinksAre(nodes[j..], was)
    ensures ListOk(nodes, j + 1, pc, r, 0, was) && ListOk(nodes, j + 1, pc, r, 1, was) &&
            ListOk(nodes, j + 1, pc, r, 2, was)
  {
    hide OfPriority, SublistOk, Distinct, LinksAre;
    var priv := Priority(fp, pc);
    ghost var pages := OfPriority(nodes[..j], pc, priv);
    FirstLink(nodes, j, was);
    NotAmongEarlier(nodes, j, pc, priv);
    TailInList(lists[priv], pages, was);
    if lists[priv].tail != null {
      TailApart(nodes, j, pc, priv, lists[priv].tail);
    }
    ghost var at0, at1 := OfPriority(nodes[..j], pc, 0), OfPriority(nodes[..j], pc, 1);
    ghost var at2 := OfPriority(nodes[..j], pc, 2);
    assert SublistOk(lists[0], at0, was) && SublistOk(lists[1], at1, was) && SublistOk(lists[2], at2, was);
    assert lists[priv].tail != null && priv != 0 ==> lists[priv].tail !in at0;
    assert lists[priv].tail != null && priv != 1 ==> lists[priv].tail !in at1;
    assert lists[priv].tail != null && priv != 2 ==> lists[priv].tail !in at2;
    var l := AppendTo(lists[priv], fp, pages, was);
    r := lists[priv := l];
    assert priv != 0 ==> SublistOk(lists[0], OfPriority(nodes[..j], pc, 0), was);
    assert priv != 1 ==> SublistOk(lists[1], OfPriority(nodes[..j], pc, 1), was);
    assert priv != 2 ==> SublistOk(lists[2], OfPriority(nodes[..j], pc, 2), was);
    OfPriorityStep(nodes, j, pc, 0);
    OfPriorityStep(nodes, j, pc, 1);
    OfPriorityStep(nodes, j, pc, 2);
  }

  lemma FirstLink(nodes: seq<Fpage>, j: nat, was: Links)
    requires j < |nodes| && LinksAre(nodes[j..], was)
    ensures nodes[j].mpuNext == EndLink([nodes[j]], was)
  {
    assert nodes[j] == nodes[j..][0];
  }

  /** The link of the last page of the lowest priority, the one link that building
      the MPU list does not write. */
  ghost function StaleLink(nodes: seq<Fpage>, pc: nat): Fpage?
    reads (set n | n in nodes)`mpuNext
  {
    OfPrioritySound(nodes, pc, 2);
    var others := OfPriority(nodes, pc, 2);
    if others == [] then null else others[|others| - 1].mpuNext
  }

  lemma StaleLinkIs(nodes: seq<Fpage>, pc: nat, was: Links)
    requires LinksAre(nodes, was)
    ensures StaleLink(nodes, pc) == EndLink(OfPriority(nodes, pc, 2), was)
  {
    OfPrioritySound(nodes, pc, 2);
  }

  /** The MPU list of a space that has none: program counter, always-mapped, others.
      It ends, and is a proper list, if and only if the stale link is null. */
  method BuildMpuList(space: AddressSpace, pc: nat)
    requires space.Valid() && space.mpuFirst == null
    modifies space`mpuFirst, space`mpuNodes, (set n | n in space.nodes)`mpuNext
    ensures space.mpuNodes == MpuOrder(space.nodes, pc) && space.mpuFirst == NodeOr(space.mpuNodes, 0, null)
    ensures MpuLinked(space.mpuNodes, old(StaleLink(space.nodes, pc))) && Distinct(space.mpuNodes)
    ensures space.MpuValid() <==> old(StaleLink(space.nodes, pc)) == null
  {
    ghost var was: Links := map n | n in space.nodes :: n.mpuNext;
    StaleLinkIs(space.nodes, pc, was);
    var lists := FileAll(space, pc, was);
    var head := JoinLists(space.nodes, pc, lists, was);
    MpuOrderDistinct(space.nodes, pc);
    space.mpuFirst := head;
    space.mpuNodes := MpuOrder(space.nodes, pc);
    EndsOnce(space.nodes, pc, old(StaleLink(space.nodes, pc)));
  }

  /** The list ends where its last page points. */
  lemma EndsOnce(nodes: seq<Fpage>, pc: nat, z: Fpage?)
    requires MpuLinked(MpuOrder(nodes, pc), z) && (OfPriority(nodes, pc, 2) == [] ==> z == null)
    ensures MpuLinked(MpuOrder(nodes, pc), null) <==> z == null
  {
    var list := MpuOrder(nodes, pc);
    hide OfPriority;
    if OfPriority(nodes, pc, 2) != [] {
      assert list[|list| - 1].mpuNext == NodeOr(list, |list|, z);
    }
  }

  lemma MpuOrderDistinct(nodes: seq<Fpage>, pc: nat)
    requires Distinct(nodes)
    ensures Distinct(MpuOrder(nodes, pc))
  {
    if nodes != [] {
      MpuOrderComplete(nodes, pc, nodes[0]);
    }
  }

  /** The walk that files every page under its priority. */
  method FileAll(space: AddressSpace, pc: nat, ghost was: Links) returns (lists: seq<Sublist>)
    requires space.Valid() && LinksAre(space.nodes, was)
    modifies (set n | n in space.nodes)`mpuNext
    ensures |lists| == 3
    ensures var all := |space.nodes|;
            && ListOk(space.nodes, all, pc, lists, 0, was) && ListOk(space.nodes, all, pc, lists, 1, was)
            && ListOk(space.nodes, all, pc, lists, 2, was)
  {
    hide LinksAre, ListOk;
    ghost var nodes, j := space.nodes, 0;
    lists := [Sublist(null, null), Sublist(null, null), Sublist(null, null)];
    EmptyLists(nodes, pc, lists, was);
    assert nodes[0..] == nodes;
    var fp := space.first;
    while fp != null
      invariant |lists| == 3 && j <= |nodes| && fp == NodeOr(nodes, j, null) && LinksAre(nodes[j..], was)
      invariant ListOk(nodes, j, pc, lists, 0, was) && ListOk(nodes, j, pc, lists, 1, was) &&
                ListOk(nodes, j, pc, lists, 2, was)
      decreases |nodes| - j
    {
      lists := FileByPriority(nodes, j, fp, pc, lists, was);
      LinksBehind(nodes, j, was);
      fp := fp.asNext;
      j := j + 1;
    }
  }

  lemma EmptyLists(nodes: seq<Fpage>, pc: nat, lists: seq<Sublist>, was: Links)
    requires |lists| == 3 && forall k :: 0 <= k < 3 ==> lists[k] == Sublist(null, null)
    ensures ListOk(nodes, 0, pc, lists, 0, was) && ListOk(nodes, 0, pc, lists, 1, was) &&
            ListOk(nodes, 0, pc, lists, 2, was)
  {
  }

  lemma LinksBehind(nodes: seq<Fpage>, j: nat, was: Links)
    requires j < |nodes| && LinksAre(nodes[j..], was)
    ensures LinksAre(nodes[j + 1..], was)
  {
    var rest := nodes[j + 1..];
    forall i {:trigger rest[i]} | 0 <= i < |rest| ensures rest[i] in was && rest[i].mpuNext == was[rest[i]] {
      assert rest[i] == nodes[j..][i + 1];
    }
  }

  /** The three lists one behind the other. */
  method JoinLists(ghost nodes: seq<Fpage>, pc: nat, lists: seq<Sublist>, ghost was: Links) returns (head: Fpage?)
    requires |lists| == 3
    requires ListOk(nodes, |nodes|, pc, lists, 0, was) && ListOk(nodes, |nodes|, pc, lists, 1, was) &&
             ListOk(nodes, |nodes|, pc, lists, 2, was)
    modifies (set n | n in nodes)`mpuNext
    ensures head == NodeOr(MpuOrder(nodes, pc), 0, null)
    ensures MpuLinked(MpuOrder(nodes, pc), EndLink(OfPriority(nodes, pc, 2), was))
  {
    hide OfPriority, NodeOr, MpuLinked;
    ghost var a, b, c := OfPriority(nodes, pc, 0), OfPriority(nodes, pc, 1), OfPriority(nodes, pc, 2);
    assert nodes[..|nodes|] == nodes;
    OfPrioritySound(nodes, pc, 0);
    OfPrioritySound(nodes, pc, 1);
    OfPrioritySound(nodes, pc, 2);
    ghost var z := EndLink(c, was);
    head := ConcatLists(lists[1], lists[2].head, b, c, was, z);
    assert SublistOk(lists[0], a, was);
    head := ConcatLists(lists[0], head, a, b + c, was, z);
    assert a + (b + c) == a + b + c;
  }
}
