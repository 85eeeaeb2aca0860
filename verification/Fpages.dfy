/** Flexible pages and address spaces as linked lists (kernel/fpage.c). */
module Fpages {
  import opened Bits
  import opened FpageChain
  import opened FpageSpace
  import opened FpageAssign

  /** A memory pool: its range, whether pages may be made from it, whether they
      are always mapped, and the user permissions. */
  datatype Mempool = Mempool(start: nat, end: nat, mappable: bool, always: bool, rwx: nat)

  function PoolAttr(pools: seq<Mempool>, mpid: nat): Attr
    requires mpid < |pools|
  {
    Attr(mpid, pools[mpid].always, pools[mpid].rwx)
  }

  class Fpage {
    const base: nat
    const shift: nat
    const attr: Attr
    var asNext: Fpage?
    var mpuNext: Fpage?
    /** The ring of mappings of this page; a page mapped nowhere else points to
        itself. */
    var mapNext: Fpage?

    /** create_fpage. */
    constructor (base: nat, shift: nat, attr: Attr)
      ensures this.base == base && this.shift == shift && this.attr == attr
      ensures asNext == null && mpuNext == null && mapNext == this
    {
      this.base, this.shift, this.attr := base, shift, attr;
      asNext, mpuNext, mapNext := null, null, this;
    }

    function View(): Page { Page(base, shift, attr) }

    function End(): nat { base + Pow2(shift) }
  }

  function Views(nodes: seq<Fpage>): (ps: seq<Page>)
    ensures |ps| == |nodes|
    ensures forall i :: 0 <= i < |nodes| ==> ps[i] == nodes[i].View()
  {
    seq(|nodes|, i requires 0 <= i < |nodes| => nodes[i].View())
  }

  predicate Distinct(nodes: seq<Fpage>) {
    forall i, j :: 0 <= i < j < |nodes| ==> nodes[i] != nodes[j]
  }

  /** The node at index i, or `tail` past the end. */
  function NodeOr(nodes: seq<Fpage>, i: nat, tail: Fpage?): Fpage? {
    if i < |nodes| then nodes[i] else tail
  }

  /** The as_next links run through the nodes and end in `tail`. */
  ghost predicate Linked(nodes: seq<Fpage>, tail: Fpage?)
    reads (set n | n in nodes)`asNext
  {
    forall i {:trigger nodes[i].asNext} :: 0 <= i < |nodes| ==> nodes[i].asNext == NodeOr(nodes, i + 1, tail)
  }

  ghost predicate MpuLinked(nodes: seq<Fpage>, tail: Fpage?)
    reads (set n | n in nodes)`mpuNext
  {
    forall i {:trigger nodes[i].mpuNext} :: 0 <= i < |nodes| ==> nodes[i].mpuNext == NodeOr(nodes, i + 1, tail)
  }

  class AddressSpace {
    var first: Fpage?
    var mpuFirst: Fpage?
    var mpuStackFirst: Fpage?
    /** The pages on the two lists. */
    ghost var nodes: seq<Fpage>
    ghost var mpuNodes: seq<Fpage>

    constructor ()
      ensures Valid() && MpuValid() && nodes == [] && mpuNodes == []
    {
      first, mpuFirst, mpuStackFirst := null, null, null;
      nodes, mpuNodes := [], [];
    }

    ghost predicate Valid()
      reads this`first, this`nodes, (set n | n in nodes)`asNext
    {
      first == NodeOr(nodes, 0, null) && Linked(nodes, null) && Distinct(nodes)
    }

    ghost predicate MpuValid()
      reads this`mpuFirst, this`mpuNodes, (set n | n in mpuNodes)`mpuNext
    {
      mpuFirst == NodeOr(mpuNodes, 0, null) && MpuLinked(mpuNodes, null) && Distinct(mpuNodes)
    }

    ghost function Pages(): seq<Page>
      reads this`nodes
    {
      Views(nodes)
    }
  }

  // ----- create_fpage_chain -----

  /** The shift of the next page, from the two bit scans. */
  method SelectShift(base: nat, size: nat) returns (shift: nat)
    requires base < LIMIT && 0 < size < LIMIT
    ensures shift == PickShift(base, size)
  {
    var bshift := FpAddrLog2(base);
    var sshift := FpAddrLog2(size);
    shift := if Pow2(bshift) > size then sshift else bshift;
  }

  /** The pages are mapped nowhere else and on no MPU list. */
  ghost predicate Unshared(c: seq<Fpage>)
    reads c
  {
    forall i :: 0 <= i < |c| ==> c[i].mapNext == c[i] && c[i].mpuNext == null
  }

  ghost predicate IsChain(c: seq<Fpage>, first: Fpage?, last: Fpage?)
    reads c
  {
    && Distinct(c) && Linked(c, null) && Unshared(c)
    && first == NodeOr(c, 0, null)
    && last == if c == [] then null else c[|c| - 1]
  }

  /** One turn of the loop: a fresh page behind the last one. */
  method AppendPage(b: nat, left: nat, attr: Attr, first: Fpage?, last: Fpage?, ghost c: seq<Fpage>)
    returns (page: Fpage)
    requires b < LIMIT && 0 < left < LIMIT && IsChain(c, first, last)
    modifies if last == null then {} else {last}`asNext
    ensures fresh(page) && page.View() == NextPage(b, left, attr)
    ensures IsChain(c + [page], if first == null then page else first, page)
  {
    var shift := SelectShift(b, left);
    page := new Fpage(b, shift, attr);
    if last != null {
      last.asNext := page;
    }
  }

  lemma ViewsAppend(c: seq<Fpage>, page: Fpage)
    ensures Views(c + [page]) == Views(c) + [page.View()]
  {
  }

  /** Builds the chain for [base, base + size) out of fresh pages. */
  method CreateFpageChain(pools: seq<Mempool>, base: nat, size: nat, mpid: nat)
    returns (first: Fpage?, last: Fpage?, ghost c: seq<Fpage>)
    requires mpid < |pools| && base + size <= LIMIT && size < LIMIT
    ensures fresh(c) && IsChain(c, first, last)
    ensures Views(c) == PagesFor(base, size, PoolAttr(pools, mpid))
    ensures forall i {:trigger c[i]} :: 0 <= i < |c| ==>
              c[i].attr.mpid == mpid && c[i].attr.always == pools[mpid].always && c[i].attr.rwx == pools[mpid].rwx
  {
    hide Built, Chain, PickShift;
    var attr := PoolAttr(pools, mpid);
    first, last, c := null, null, [];
    var b: nat, left: nat := base, size;
    ghost var done: seq<Page> := [];
    BuiltNone(base, size, attr);
    while left != 0
      invariant b + left == base + size && left <= size
      invariant Built(done, b, left, base, size, attr)
      invariant fresh(c) && IsChain(c, first, last) && Views(c) == done
      invariant forall i {:trigger c[i]} :: 0 <= i < |c| ==>
                  c[i].attr.mpid == mpid && c[i].attr.always == pools[mpid].always && c[i].attr.rwx == pools[mpid].rwx
      decreases left
    {
      var page := AppendPage(b, left, attr, first, last, c);
      BuiltMore(done, b, left, base, size, attr);
      ViewsAppend(c, page);
      first := if first == null then page else first;
      last, c, done := page, c + [page], done + [page.View()];
      b, left := page.End(), left - Pow2(page.shift);
    }
    BuiltIsChain(done, b, left, base, size, attr);
  }

  // ----- Splicing lists -----

  lemma LinkedConcat(a: seq<Fpage>, b: seq<Fpage>, tail: Fpage?)
    ensures Linked(a + b, tail) <==> Linked(a, NodeOr(b, 0, tail)) && Linked(b, tail)
  {
    var ab := a + b;
    if Linked(ab, tail) {
      forall i | 0 <= i < |a| ensures a[i].asNext == NodeOr(a, i + 1, NodeOr(b, 0, tail)) {
        assert ab[i] == a[i] && NodeOr(ab, i + 1, tail) == NodeOr(a, i + 1, NodeOr(b, 0, tail));
      }
      forall i | 0 <= i < |b| ensures b[i].asNext == NodeOr(b, i + 1, tail) {
        assert ab[|a| + i] == b[i] && NodeOr(ab, |a| + i + 1, tail) == NodeOr(b, i + 1, tail);
      }
    }
  }

  lemma DistinctParts(a: seq<Fpage>, b: seq<Fpage>)
    requires Distinct(a + b)
    ensures Distinct(a) && Distinct(b)
    ensures forall i, j :: 0 <= i < |a| && 0 <= j < |b| ==> a[i] != b[j]
  {
    var s := a + b;
    assert forall i :: 0 <= i < |a| ==> s[i] == a[i];
    assert forall j :: 0 <= j < |b| ==> s[|a| + j] == b[j];
  }

  lemma DistinctSplice(nodes: seq<Fpage>, c: seq<Fpage>, k: nat)
    requires Distinct(nodes + c) && k <= |nodes|
    ensures Distinct(nodes[..k] + c + nodes[k..])
  {
    var s, t := nodes + c, nodes[..k] + c + nodes[k..];
    forall i, j | 0 <= i < j < |t| ensures t[i] != t[j] {
      var i' := if i < k then i else if i < k + |c| then |nodes| + i - k else i - |c|;
      var j' := if j < k then j else if j < k + |c| then |nodes| + j - k else j - |c|;
      assert t[i] == s[i'] && t[j] == s[j'];
    }
  }

  lemma LinkedThree(a: seq<Fpage>, b: seq<Fpage>, c: seq<Fpage>)
    requires b != [] && Linked(a, b[0]) && Linked(b, NodeOr(c, 0, null)) && Linked(c, null)
    ensures Linked(a + b + c, null)
  {
    LinkedConcat(b, c, null);
    LinkedConcat(a, b + c, null);
    assert a + b + c == a + (b + c);
  }

  /** A chain that can be put into a space. */
  ghost predicate Insertable(space: AddressSpace, c: seq<Fpage>, first: Fpage, last: Fpage)
    reads space`nodes, (set n | n in c)`asNext
  {
    c != [] && first == c[0] && last == c[|c| - 1] && Linked(c, null) && Distinct(space.nodes + c)
  }

  /** Points the last node of a chain somewhere else. */
  method SetTail(last: Fpage, next: Fpage?, ghost c: seq<Fpage>, ghost tail: Fpage?)
    requires c != [] && last == c[|c| - 1] && Linked(c, tail) && Distinct(c)
    modifies last`asNext
    ensures Linked(c, next)
  {
    last.asNext := next;
  }

  /** Hangs the chain between two neighbours of the list. */
  method Splice(space: AddressSpace, prev: Fpage?, cur: Fpage?, first: Fpage, last: Fpage,
                ghost c: seq<Fpage>, ghost k: nat)
    requires space.Valid() && Insertable(space, c, first, last)
    requires k <= |space.nodes|
    requires prev == if k == 0 then null else space.nodes[k - 1]
    requires cur == NodeOr(space.nodes, k, null)
    modifies space`first, space`nodes, last`asNext, (if prev == null then {} else {prev})`asNext
    ensures space.Valid() && space.nodes == old(space.nodes)[..k] + c + old(space.nodes)[k..]
  {
    ghost var pre, post := space.nodes[..k], space.nodes[k..];
    assert space.nodes == pre + post;
    LinkedConcat(pre, post, null);
    DistinctSplice(space.nodes, c, k);
    DistinctParts(space.nodes, c);
    SetTail(last, cur, c, null);
    if prev == null {
      space.first := first;
    } else {
      SetTail(prev, first, pre, NodeOr(post, 0, null));
    }
    space.nodes := pre + c + post;
    LinkedThree(pre, c, post);
  }

  // ----- insert_fpage_chain_to_as -----

  lemma ViewsConcat(a: seq<Fpage>, b: seq<Fpage>)
    ensures Views(a + b) == Views(a) + Views(b)
  {
  }

  lemma ViewsSplice(nodes: seq<Fpage>, c: seq<Fpage>, k: nat)
    requires k <= |nodes|
    ensures Views(nodes[..k] + c + nodes[k..]) == Views(nodes)[..k] + Views(c) + Views(nodes)[k..]
  {
  }

  /** The index found by the scan is the one the specification names. */
  lemma ScanIndex(nodes: seq<Fpage>, b: nat, k: nat)
    requires k <= |nodes|
    requires forall i :: 0 <= i < k ==> nodes[i].base <= b
    requires k < |nodes| ==> b < nodes[k].base
    ensures InsertIndex(Views(nodes), b) == k
  {
    var ps := Views(nodes);
    assert ps == ps[..k] + ps[k..];
    InsertIndexBetween(ps[..k], ps[k..], b);
  }

  method InsertFpageChain(space: AddressSpace, first: Fpage, last: Fpage, ghost c: seq<Fpage>)
    requires space.Valid() && Insertable(space, c, first, last)
    modifies space`first, space`nodes, last`asNext, (set n | n in space.nodes)`asNext
    ensures space.Valid()
    ensures var k := InsertIndex(old(space.Pages()), last.base);
            space.nodes == old(space.nodes)[..k] + c + old(space.nodes)[k..]
    ensures space.Pages() == InsertChain(old(space.Pages()), Views(c))
  {
    var fp := space.first;
    ghost var k := 0;
    if fp == null {
      Splice(space, null, null, first, last, c, 0);
    } else if last.base < fp.base {
      Splice(space, null, fp, first, last, c, 0);
    } else {
      k := 1;
      while fp.asNext != null
        invariant 1 <= k <= |space.nodes| && fp == space.nodes[k - 1]
        invariant forall i :: 0 <= i < k ==> space.nodes[i].base <= last.base
        decreases |space.nodes| - k
      {
        if last.base < fp.asNext.base {
          break;
        }
        fp := fp.asNext;
        k := k + 1;
      }
      Splice(space, fp, fp.asNext, first, last, c, k);
    }
    ScanIndex(old(space.nodes), last.base, k);
    ViewsSplice(old(space.nodes), c, k);
  }

  // ----- remove_fpage_from_as -----

  /** The list without one node. */
  function Without(nodes: seq<Fpage>, fp: Fpage): seq<Fpage> {
    if nodes == [] then []
    else if nodes[0] == fp then nodes[1..]
    else [nodes[0]] + Without(nodes[1..], fp)
  }

  lemma {:induction false} WithoutAt(nodes: seq<Fpage>, k: nat)
    requires Distinct(nodes) && k < |nodes|
    ensures Without(nodes, nodes[k]) == nodes[..k] + nodes[k + 1..]
  {
    if k > 0 {
      assert Distinct(nodes[1..]);
      WithoutAt(nodes[1..], k - 1);
      assert nodes[..k] == [nodes[0]] + nodes[1..][..k - 1];
      assert nodes[1..][k..] == nodes[k + 1..];
    }
  }

  lemma {:induction false} WithoutAbsent(nodes: seq<Fpage>, fp: Fpage)
    requires forall i :: 0 <= i < |nodes| ==> nodes[i] != fp
    ensures Without(nodes, fp) == nodes
  {
    if nodes != [] {
      assert forall i :: 0 <= i < |nodes[1..]| ==> nodes[1..][i] == nodes[i + 1];
      WithoutAbsent(nodes[1..], fp);
    }
  }

  lemma DistinctWithout(nodes: seq<Fpage>, k: nat)
    requires Distinct(nodes) && k < |nodes|
    ensures Distinct(nodes[..k] + nodes[k + 1..])
    ensures nodes[k] !in nodes[..k] + nodes[k + 1..]
  {
    var t := nodes[..k] + nodes[k + 1..];
    forall i | 0 <= i < |t| ensures t[i] == nodes[if i < k then i else i + 1] {}
  }

  lemma LinkedAt(nodes: seq<Fpage>, k: nat)
    requires Linked(nodes, null) && k < |nodes|
    ensures Linked(nodes[..k], nodes[k]) && Linked(nodes[k + 1..], null)
    ensures nodes[k].asNext == NodeOr(nodes[k + 1..], 0, null)
  {
    var pre, post := nodes[..k], nodes[k + 1..];
    assert nodes == pre + nodes[k..] && nodes == nodes[..k + 1] + post;
    LinkedConcat(pre, nodes[k..], null);
    LinkedConcat(nodes[..k + 1], post, null);
  }

  /** Takes the node at index k out of the list by linking around it. */
  method LinkAround(space: AddressSpace, prev: Fpage?, fp: Fpage, ghost k: nat)
    requires space.Valid() && k < |space.nodes| && fp == space.nodes[k]
    requires prev == if k == 0 then null else space.nodes[k - 1]
    modifies space`first, space`nodes, (if prev == null then {} else {prev})`asNext
    ensures space.Valid() && space.nodes == old(space.nodes)[..k] + old(space.nodes)[k + 1..]
  {
    ghost var pre, post := space.nodes[..k], space.nodes[k + 1..];
    LinkedAt(space.nodes, k);
    DistinctWithout(space.nodes, k);
    DistinctParts(pre, post);
    if prev == null {
      space.first := fp.asNext;
    } else {
      prev.asNext := fp.asNext;
    }
    space.nodes := pre + post;
    assert Linked(pre, NodeOr(post, 0, null));
    assert Linked(post, null);
    LinkedConcat(pre, post, null);
  }

  /** remove_fpage_from_list on the address space list: a page that is not on the
      list is left alone. There the source follows a null pointer; `found` tells
      when it does not. */
  method RemoveFromSpace(space: AddressSpace, fp: Fpage) returns (found: bool)
    requires space.Valid()
    modifies space`first, space`nodes, (set n | n in space.nodes)`asNext
    ensures space.Valid() && space.nodes == Without(old(space.nodes), fp)
    ensures found <==> fp in old(space.nodes)
  {
    found := false;
    ghost var nodes := space.nodes;
    var prev := space.first;
    if prev == fp {
      WithoutAt(nodes, 0);
      LinkAround(space, null, fp, 0);
      found := true;
    } else if prev != null {
      ghost var k := 1;
      while prev.asNext != null && prev.asNext != fp
        invariant 1 <= k <= |nodes| && prev == nodes[k - 1]
        invariant forall i :: 0 <= i < k ==> nodes[i] != fp
        decreases |nodes| - k
      {
        prev := prev.asNext;
        k := k + 1;
      }
      if prev.asNext == fp {
        WithoutAt(nodes, k);
        LinkAround(space, prev, fp, k);
        found := true;
      } else {
        WithoutAbsent(nodes, fp);
      }
    }
  }

  lemma MpuLinkedConcat(a: seq<Fpage>, b: seq<Fpage>, tail: Fpage?)
    ensures MpuLinked(a + b, tail) <==> MpuLinked(a, NodeOr(b, 0, tail)) && MpuLinked(b, tail)
  {
    var ab := a + b;
    if MpuLinked(ab, tail) {
      forall i | 0 <= i < |a| ensures a[i].mpuNext == NodeOr(a, i + 1, NodeOr(b, 0, tail)) {
        assert ab[i] == a[i] && NodeOr(ab, i + 1, tail) == NodeOr(a, i + 1, NodeOr(b, 0, tail));
      }
      forall i | 0 <= i < |b| ensures b[i].mpuNext == NodeOr(b, i + 1, tail) {
        assert ab[|a| + i] == b[i] && NodeOr(ab, |a| + i + 1, tail) == NodeOr(b, i + 1, tail);
      }
    }
  }

  lemma MpuLinkedAt(nodes: seq<Fpage>, k: nat)
    requires MpuLinked(nodes, null) && k < |nodes|
    ensures MpuLinked(nodes[..k], nodes[k]) && MpuLinked(nodes[k + 1..], null)
    ensures nodes[k].mpuNext == NodeOr(nodes[k + 1..], 0, null)
  {
    var pre, post := nodes[..k], nodes[k + 1..];
    assert nodes == pre + nodes[k..] && nodes == nodes[..k + 1] + post;
    MpuLinkedConcat(pre, nodes[k..], null);
    MpuLinkedConcat(nodes[..k + 1], post, null);
  }

  method SetMpuTail(last: Fpage, next: Fpage?, ghost c: seq<Fpage>, ghost tail: Fpage?)
    requires c != [] && last == c[|c| - 1] && MpuLinked(c, tail) && Distinct(c)
    modifies last`mpuNext
    ensures MpuLinked(c, next)
  {
    last.mpuNext := next;
  }

  method MpuLinkAround(space: AddressSpace, prev: Fpage?, fp: Fpage, ghost k: nat)
    requires space.MpuValid() && k < |space.mpuNodes| && fp == space.mpuNodes[k]
    requires prev == if k == 0 then null else space.mpuNodes[k - 1]
    modifies space`mpuFirst, space`mpuNodes, (if prev == null then {} else {prev})`mpuNext
    ensures space.MpuValid() && space.mpuNodes == old(space.mpuNodes)[..k] + old(space.mpuNodes)[k + 1..]
  {
    ghost var pre, post := space.mpuNodes[..k], space.mpuNodes[k + 1..];
    MpuLinkedAt(space.mpuNodes, k);
    DistinctWithout(space.mpuNodes, k);
    DistinctParts(pre, post);
    if prev == null {
      space.mpuFirst := fp.mpuNext;
    } else {
      prev.mpuNext := fp.mpuNext;
    }
    space.mpuNodes := pre + post;
    assert MpuLinked(pre, NodeOr(post, 0, null));
    assert MpuLinked(post, null);
    MpuLinkedConcat(pre, post, null);
  }

  /** remove_fpage_from_list on the MPU list. */
  method RemoveFromMpu(space: AddressSpace, fp: Fpage) returns (found: bool)
    requires space.MpuValid()
    modifies space`mpuFirst, space`mpuNodes, (set n | n in space.mpuNodes)`mpuNext
    ensures space.MpuValid() && space.mpuNodes == Without(old(space.mpuNodes), fp)
    ensures found <==> fp in old(space.mpuNodes)
  {
    found := false;
    ghost var nodes := space.mpuNodes;
    var prev := space.mpuFirst;
    if prev == fp {
      WithoutAt(nodes, 0);
      MpuLinkAround(space, null, fp, 0);
      found := true;
    } else if prev != null {
      ghost var k := 1;
      while prev.mpuNext != null && prev.mpuNext != fp
        invariant 1 <= k <= |nodes| && prev == nodes[k - 1]
        invariant forall i :: 0 <= i < k ==> nodes[i] != fp
        decreases |nodes| - k
      {
        prev := prev.mpuNext;
        k := k + 1;
      }
      if prev.mpuNext == fp {
        WithoutAt(nodes, k);
        MpuLinkAround(space, prev, fp, k);
        found := true;
      } else {
        WithoutAbsent(nodes, fp);
      }
    }
  }

  /** remove_fpage_from_as: both lists lose the page; `found` tells when it was on
      both. */
  method RemoveFpage(space: AddressSpace, fp: Fpage) returns (found: bool)
    requires space.Valid() && space.MpuValid()
    modifies space`first, space`nodes, space`mpuFirst, space`mpuNodes
    modifies (set n | n in space.nodes)`asNext, (set n | n in space.mpuNodes)`mpuNext
    ensures space.Valid() && space.nodes == Without(old(space.nodes), fp)
    ensures space.MpuValid() && space.mpuNodes == Without(old(space.mpuNodes), fp)
    ensures space.mpuStackFirst == old(space.mpuStackFirst)
    ensures found <==> fp in old(space.nodes) && fp in old(space.mpuNodes)
  {
    var first := RemoveFromSpace(space, fp);
    var second := RemoveFromMpu(space, fp);
    found := first && second;
  }

  // ----- split_fpage -----

  /** mempool_align: only pools that make pages have a granule. */
  function MempoolAlign(pools: seq<Mempool>, mpid: nat, addr: nat): nat
    requires mpid < |pools|
  {
    if pools[mpid].mappable then AlignUp(addr) else 0xFFFF_FFFF
  }

  lemma FreshIsDistinct(nodes: seq<Fpage>, c: seq<Fpage>)
    requires Distinct(nodes) && Distinct(c)
    requires forall i, j :: 0 <= i < |nodes| && 0 <= j < |c| ==> nodes[i] != c[j]
    ensures Distinct(nodes + c)
  {
  }

  /** Replaces a page by two chains that meet at the rounded split point. `found`
      is false when the page to take out was not on both lists. */
  method SplitFpage(pools: seq<Mempool>, space: AddressSpace?, fpage: Fpage, split: nat, rl: int,
                    ghost k: nat)
    returns (r: Fpage?, found: bool)
    requires fpage.attr.mpid < |pools| && pools[fpage.attr.mpid].mappable
    requires space != null ==>
               && space.Valid() && space.MpuValid() && SpaceOk(space.Pages())
               && k < |space.nodes| && space.nodes[k] == fpage
               && split < LIMIT && fpage.base <= AlignUp(split) <= fpage.End()
    modifies (if space == null then {} else {space})`first, (if space == null then {} else {space})`nodes
    modifies (if space == null then {} else {space})`mpuFirst, (if space == null then {} else {space})`mpuNodes
    modifies (if space == null then {} else set n | n in space.nodes)`asNext
    modifies (if space == null then {} else set n | n in space.mpuNodes)`mpuNext
    ensures space == null ==> r == null && found
    ensures space != null ==>
              var at := AlignUp(split);
              var ps := old(space.Pages());
              && space.Valid() && space.MpuValid() && SpaceOk(space.Pages())
              && (at == fpage.base || at == fpage.End() ==> r == fpage && space.nodes == old(space.nodes))
              && (at != fpage.base && at != fpage.End() && old(fpage.mapNext) != fpage ==>
                    r == null && space.nodes == old(space.nodes))
              && (at != fpage.base && at != fpage.End() && old(fpage.mapNext) == fpage ==>
                    && fpage.base < at < fpage.End() < LIMIT
                    && space.Pages() == Split(ps, k, at, PoolAttr(pools, fpage.attr.mpid))
                    && space.mpuNodes == Without(old(space.mpuNodes), fpage)
                    && r != null && r in space.nodes
                    && (if rl == 0 then r.End() == at else r.base == at))
              && (found <==> at == fpage.base || at == fpage.End() || old(fpage.mapNext) != fpage ||
                             fpage in old(space.mpuNodes))
  {
    if space == null {
      return null, true;
    }
    var at := MempoolAlign(pools, fpage.attr.mpid, split);
    OrderedBounds(space.Pages(), 0, k);
    AlignUpAligned(split);
    if at == fpage.base || at == fpage.End() {
      return fpage, true;
    }
    if fpage.mapNext != fpage {
      return null, true;
    }
    SplitKeeps(space.Pages(), k, at, PoolAttr(pools, fpage.attr.mpid), 0);
    r, found := SplitUnshared(pools, space, fpage, at, rl, k);
  }

  lemma SplicedMember(nodes: seq<Fpage>, c: seq<Fpage>, k: nat, n: Fpage)
    requires k <= |nodes| && (n in nodes || n in c)
    ensures n in nodes[..k] + c + nodes[k..]
  {
    assert nodes == nodes[..k] + nodes[k..];
  }

  lemma DisjointSplice(nodes: seq<Fpage>, c: seq<Fpage>, d: seq<Fpage>, k: nat)
    requires k <= |nodes| && Distinct(nodes + c) && Distinct(d)
    requires forall i, j :: 0 <= i < |nodes| && 0 <= j < |d| ==> nodes[i] != d[j]
    requires forall i, j :: 0 <= i < |c| && 0 <= j < |d| ==> c[i] != d[j]
    ensures Distinct((nodes[..k] + c + nodes[k..]) + d)
  {
    DistinctSplice(nodes, c, k);
    FreshIsDistinct(nodes[..k] + c + nodes[k..], d);
  }

  /** Two chains put into the space one after the other. */
  method InsertTwoChains(space: AddressSpace, lfirst: Fpage, llast: Fpage, ghost lc: seq<Fpage>,
                         rfirst: Fpage, rlast: Fpage, ghost rc: seq<Fpage>)
    requires space.Valid()
    requires Insertable(space, lc, lfirst, llast) && Insertable(space, rc, rfirst, rlast)
    requires forall i, j :: 0 <= i < |lc| && 0 <= j < |rc| ==> lc[i] != rc[j]
    modifies space`first, space`nodes
    modifies (set n | n in lc)`asNext, rlast`asNext, (set n | n in space.nodes)`asNext
    ensures space.Valid()
    ensures space.Pages() == InsertChain(InsertChain(old(space.Pages()), Views(lc)), Views(rc))
    ensures llast in space.nodes && rfirst in space.nodes
  {
    ghost var nodes := space.nodes;
    DistinctParts(nodes, rc);
    ghost var k := InsertIndex(space.Pages(), llast.base);
    InsertFpageChain(space, lfirst, llast, lc);
    DisjointSplice(nodes, lc, rc, k);
    SplicedMember(nodes, lc, k, llast);
    nodes := space.nodes;
    k := InsertIndex(space.Pages(), rlast.base);
    InsertFpageChain(space, rfirst, rlast, rc);
    SplicedMember(nodes, rc, k, llast);
    SplicedMember(nodes, rc, k, rfirst);
  }

  lemma ViewsWithout(nodes: seq<Fpage>, k: nat)
    requires Distinct(nodes) && k < |nodes|
    ensures Views(Without(nodes, nodes[k])) == Views(nodes)[..k] + Views(nodes)[k + 1..]
  {
    WithoutAt(nodes, k);
    ViewsConcat(nodes[..k], nodes[k + 1..]);
    ViewsTakeDrop(nodes, k);
    ViewsTakeDrop(nodes, k + 1);
  }

  lemma ViewsTakeDrop(nodes: seq<Fpage>, k: nat)
    requires k <= |nodes|
    ensures Views(nodes[..k]) == Views(nodes)[..k] && Views(nodes[k..]) == Views(nodes)[k..]
  {
  }

  lemma WithoutIsDistinct(nodes: seq<Fpage>, k: nat, c: seq<Fpage>)
    requires k < |nodes| && Distinct(nodes + c)
    ensures Distinct(Without(nodes, nodes[k]) + c)
  {
    DistinctParts(nodes, c);
    WithoutAt(nodes, k);
    DistinctWithout(nodes, k);
    FreshIsDistinct(nodes[..k] + nodes[k + 1..], c);
  }

  /** The page leaves both lists and the two chains come in. */
  method ReplaceByChains(space: AddressSpace, fpage: Fpage, ghost k: nat, ghost ps: seq<Page>,
                         lfirst: Fpage, llast: Fpage, ghost lc: seq<Fpage>,
                         rfirst: Fpage, rlast: Fpage, ghost rc: seq<Fpage>)
    returns (found: bool)
    requires space.Valid() && space.MpuValid() && k < |space.nodes| && space.nodes[k] == fpage
    requires ps == space.Pages()
    requires Insertable(space, lc, lfirst, llast) && Insertable(space, rc, rfirst, rlast)
    requires forall i, j :: 0 <= i < |lc| && 0 <= j < |rc| ==> lc[i] != rc[j]
    modifies space`first, space`nodes, space`mpuFirst, space`mpuNodes
    modifies (set n | n in lc)`asNext, rlast`asNext
    modifies (set n | n in space.nodes)`asNext, (set n | n in space.mpuNodes)`mpuNext
    ensures space.Valid() && space.MpuValid()
    ensures space.mpuNodes == Without(old(space.mpuNodes), fpage)
    ensures space.Pages() == InsertForPage(ps, k, Views(lc), Views(rc))
    ensures llast in space.nodes && rfirst in space.nodes && (found <==> fpage in old(space.mpuNodes))
  {
    hide InsertChain, Distinct;
    ghost var nodes := space.nodes;
    DistinctParts(nodes, lc);
    DistinctParts(nodes, rc);
    WithoutAt(nodes, k);
    ViewsWithout(nodes, k);
    WithoutIsDistinct(nodes, k, lc);
    WithoutIsDistinct(nodes, k, rc);
    found := RemoveFpage(space, fpage);
    assert forall n :: n in space.nodes ==> n in nodes;
    InsertTwoChains(space, lfirst, llast, lc, rfirst, rlast, rc);
  }

  /** The two calls of create_fpage_chain: both chains are new to the space. */
  method CreateTwoChains(pools: seq<Mempool>, base: nat, at: nat, end: nat, mpid: nat, ghost nodes: seq<Fpage>)
    returns (lfirst: Fpage?, llast: Fpage?, ghost lc: seq<Fpage>, rfirst: Fpage?, rlast: Fpage?, ghost rc: seq<Fpage>)
    requires mpid < |pools| && base < at < end < LIMIT && Distinct(nodes)
    ensures fresh(lc) && fresh(rc) && IsChain(lc, lfirst, llast) && IsChain(rc, rfirst, rlast)
    ensures Views(lc) == PagesFor(base, at - base, PoolAttr(pools, mpid))
    ensures Views(rc) == PagesFor(at, end - at, PoolAttr(pools, mpid))
    ensures Distinct(nodes + lc) && Distinct(nodes + rc)
    ensures forall i, j :: 0 <= i < |lc| && 0 <= j < |rc| ==> lc[i] != rc[j]
  {
    hide PagesFor;
    lfirst, llast, lc := CreateFpageChain(pools, base, at - base, mpid);
    rfirst, rlast, rc := CreateFpageChain(pools, at, end - at, mpid);
    FreshIsDistinct(nodes, lc);
    FreshIsDistinct(nodes, rc);
  }

  /** The splitting itself, when there is something to split. */
  method SplitUnshared(pools: seq<Mempool>, space: AddressSpace, fpage: Fpage, at: nat, rl: int, ghost k: nat)
    returns (r: Fpage, found: bool)
    requires fpage.attr.mpid < |pools|
    requires space.Valid() && space.MpuValid() && SpaceOk(space.Pages())
    requires k < |space.nodes| && space.nodes[k] == fpage
    requires fpage.base < at < fpage.End() < LIMIT && Aligned(at, GRANULE_SHIFT)
    modifies space`first, space`nodes, space`mpuFirst, space`mpuNodes
    modifies (set n | n in space.nodes)`asNext, (set n | n in space.mpuNodes)`mpuNext
    ensures space.Valid() && space.MpuValid()
    ensures space.Pages() == Split(old(space.Pages()), k, at, PoolAttr(pools, fpage.attr.mpid))
    ensures space.mpuNodes == Without(old(space.mpuNodes), fpage)
    ensures r in space.nodes && (if rl == 0 then r.End() == at else r.base == at)
    ensures found <==> fpage in old(space.mpuNodes)
  {
    hide SpaceOk, Split, PagesFor, InsertForPage, Without;
    ghost var ps := space.Pages();
    ghost var attr := PoolAttr(pools, fpage.attr.mpid);
    assert ps[k] == fpage.View();
    SplitEnds(ps, k, fpage.base, fpage.End(), at, attr);
    var lfirst, llast, lc, rfirst, rlast, rc :=
      CreateTwoChains(pools, fpage.base, at, fpage.End(), fpage.attr.mpid, space.nodes);
    found := ReplaceByChains(space, fpage, k, ps, lfirst, llast, lc, rfirst, rlast, rc);
    SplitOutcome(ps, k, fpage.base, fpage.End(), at, attr, Views(lc), Views(rc), space.Pages());
    r := if rl == 0 then llast else rfirst;
  }

  lemma SplitOutcome(ps: seq<Page>, k: nat, base: nat, end: nat, at: nat, attr: Attr,
                     l: seq<Page>, r: seq<Page>, qs: seq<Page>)
    requires SpaceOk(ps) && k < |ps| && ps[k].base == base < at < end == ps[k].End() && end < LIMIT
    requires Aligned(at, GRANULE_SHIFT) && l != [] && r != []
    requires l == PagesFor(base, at - base, attr)
    requires r == PagesFor(at, end - at, attr)
    requires qs == InsertForPage(ps, k, l, r)
    ensures qs == Split(ps, k, at, attr)
  {
    SplitByInsertion(ps, k, at, attr);
  }

  lemma SplitEnds(ps: seq<Page>, k: nat, base: nat, end: nat, at: nat, attr: Attr)
    requires SpaceOk(ps) && k < |ps| && ps[k].base == base < at < end == ps[k].End() && end < LIMIT
    requires Aligned(at, GRANULE_SHIFT)
    ensures var l, r := PagesFor(base, at - base, attr), PagesFor(at, end - at, attr);
            l != [] && r != [] && l[|l| - 1].End() == at && r[0].base == at
  {
    OrderedBounds(ps, 0, k);
    SplitPieces(ps[k], at, attr);
    TilesCover(PagesFor(base, at - base, attr), base, at, 0);
  }

  // ----- mempool_search and assign_fpages_ext -----

  predicate PoolHolds(pool: Mempool, base: nat, size: nat) {
    pool.start <= base && base + size <= pool.end
  }

  /** The index of the first pool that holds the range, or -1. */
  function SearchFrom(pools: seq<Mempool>, base: nat, size: nat, i: nat): int
    requires i <= |pools|
    decreases |pools| - i
  {
    if i == |pools| then -1
    else if PoolHolds(pools[i], base, size) then i
    else SearchFrom(pools, base, size, i + 1)
  }

  method MempoolSearch(pools: seq<Mempool>, base: nat, size: nat) returns (r: int)
    ensures r == SearchFrom(pools, base, size, 0)
    ensures -1 <= r < |pools|
    ensures r == -1 <==> forall i :: 0 <= i < |pools| ==> !PoolHolds(pools[i], base, size)
    ensures r != -1 ==> PoolHolds(pools[r], base, size) && forall i :: 0 <= i < r ==> !PoolHolds(pools[i], base, size)
  {
    for i := 0 to |pools|
      invariant SearchFrom(pools, base, size, 0) == SearchFrom(pools, base, size, i)
      invariant forall j :: 0 <= j < i ==> !PoolHolds(pools[j], base, size)
    {
      if PoolHolds(pools[i], base, size) {
        return i;
      }
    }
    return -1;
  }

  /** Where the list stands: `prev` and `cur` are neighbours around index i. */
  ghost predicate CursorAt(space: AddressSpace, prev: Fpage?, cur: Fpage?, i: nat)
    reads space`nodes
  {
    && i <= |space.nodes|
    && prev == (if i == 0 then null else space.nodes[i - 1])
    && cur == NodeOr(space.nodes, i, null)
  }

  /** Makes the pages for a hole and hangs them between prev and cur. */
  method FillHole(pools: seq<Mempool>, mpid: nat, space: AddressSpace, prev: Fpage?, cur: Fpage?,
                  b: nat, hi: nat, ghost i: nat)
    returns (first: Fpage, last: Fpage, ghost c: seq<Fpage>)
    requires mpid < |pools| && pools[mpid].mappable && b < hi <= TOP
    requires space.Valid() && CursorAt(space, prev, cur, i)
    modifies space`first, space`nodes, (if prev == null then {} else {prev})`asNext
    ensures space.Valid() && space.nodes == old(space.nodes)[..i] + c + old(space.nodes)[i..]
    ensures fresh(c) && Views(c) == Fill(b, hi, PoolAttr(pools, mpid))
    ensures c != [] && first == c[0] && last == c[|c| - 1]
  {
    AlignUpLeast(b);
    AlignUpLeast(hi - b);
    FillNonEmpty(b, hi, PoolAttr(pools, mpid));
    var f, l, d := CreateFpageChain(pools, MempoolAlign(pools, mpid, b), MempoolAlign(pools, mpid, hi - b), mpid);
    c := d;
    first, last := f, l;
    FreshIsDistinct(space.nodes, c);
    Splice(space, prev, cur, first, last, c, i);
  }

  /** The walk of assign_fpages_ext stands at address b, with `prev` and `cur`
      around index i, and will end in the pages `whole`. */
  ghost predicate WalkState(space: AddressSpace, prev: Fpage?, cur: Fpage?, i: nat, b: nat,
                            end: nat, attr: Attr, whole: seq<Page>)
    requires end <= TOP
    reads space`nodes
  {
    CursorAt(space, prev, cur, i) && WalkResult(space.Pages(), i, b, end, attr) == whole
  }

  lemma SplicedNodes(nodes: seq<Fpage>, i: nat, c: seq<Fpage>)
    requires i < |nodes|
    ensures var t := nodes[..i] + c + nodes[i..];
            |t| == |nodes| + |c| && t[i + |c|] == nodes[i]
    ensures forall n :: n in nodes[..i] + c + nodes[i..] ==> n in nodes || n in c
  {
  }

  lemma HoleFilled(nodes: seq<Fpage>, i: nat, c: seq<Fpage>, b: nat, end: nat, attr: Attr, hi: nat, t: seq<Fpage>)
    requires i < |nodes| && b < end <= TOP && b < nodes[i].base
    requires hi == (if end < nodes[i].base then end else nodes[i].base) && Views(c) == Fill(b, hi, attr)
    requires t == nodes[..i] + c + nodes[i..]
    ensures i + |c| + 1 <= |t|
    ensures WalkResult(Views(t), i + |c| + 1, nodes[i].End(), end, attr) == WalkResult(Views(nodes), i, b, end, attr)
  {
    hide WalkResult, Fill;
    ViewsSplice(nodes, c, i);
    WalkHole(Views(nodes), i, b, end, attr, hi, Views(c));
  }

  /** The turn that finds a hole before the page: it is filled and the page passed. */
  method WalkOverHole(pools: seq<Mempool>, mpid: nat, space: AddressSpace, prev: Fpage?, cur: Fpage,
                      b: nat, end: nat, ghost i: nat, ghost whole: seq<Page>)
    returns (first: Fpage, last: Fpage, ghost i': nat)
    requires mpid < |pools| && pools[mpid].mappable && b < end <= TOP && b < cur.base
    requires space.Valid() && WalkState(space, prev, cur, i, b, end, PoolAttr(pools, mpid), whole)
    modifies space`first, space`nodes, (if prev == null then {} else {prev})`asNext
    ensures space.Valid() && |space.nodes| - i' < |old(space.nodes)| - i
    ensures WalkState(space, cur, cur.asNext, i', cur.End(), end, PoolAttr(pools, mpid), whole)
    ensures forall n :: n in space.nodes ==> n in old(space.nodes) || fresh(n)
  {
    hide WalkResult, Fill;
    ghost var nodes := space.nodes;
    var hi := if end < cur.base then end else cur.base;
    ghost var c;
    first, last, c := FillHole(pools, mpid, space, prev, cur, b, hi, i);
    HoleFilled(nodes, i, c, b, end, PoolAttr(pools, mpid), hi, space.nodes);
    SplicedNodes(nodes, i, c);
    i' := i + |c| + 1;
  }

  /** One turn of the walk: fill the hole before the page, or pass the page. */
  method WalkOn(pools: seq<Mempool>, mpid: nat, space: AddressSpace, prev: Fpage?, cur: Fpage,
                b: nat, end: nat, ghost i: nat, ghost whole: seq<Page>)
    returns (b': nat, first: Fpage?, last: Fpage?, ghost i': nat)
    requires mpid < |pools| && pools[mpid].mappable && b < end <= TOP
    requires space.Valid() && WalkState(space, prev, cur, i, b, end, PoolAttr(pools, mpid), whole)
    modifies space`first, space`nodes, (if prev == null then {} else {prev})`asNext
    ensures space.Valid() && |space.nodes| - i' < |old(space.nodes)| - i
    ensures WalkState(space, cur, cur.asNext, i', b', end, PoolAttr(pools, mpid), whole)
    ensures forall n :: n in space.nodes ==> n in old(space.nodes) || fresh(n)
  {
    hide WalkResult;
    if b < cur.base {
      first, last, i' := WalkOverHole(pools, mpid, space, prev, cur, b, end, i, whole);
      b' := cur.End();
    } else {
      WalkPage(space.Pages(), i, b, end, PoolAttr(pools, mpid));
      first, last, b' := null, null, b;
      if b < cur.End() {
        first, last, b' := cur, cur, cur.End();
      }
      i' := i + 1;
    }
  }

  /** What is left of the range behind the last page. */
  method FillRest(pools: seq<Mempool>, mpid: nat, space: AddressSpace, prev: Fpage?, b: nat, end: nat, ghost i: nat)
    returns (first: Fpage, last: Fpage)
    requires mpid < |pools| && pools[mpid].mappable && b < end <= TOP
    requires space.Valid() && CursorAt(space, prev, null, i) && i == |space.nodes|
    modifies space`first, space`nodes, (if prev == null then {} else {prev})`asNext
    ensures space.Valid()
    ensures space.Pages() == old(space.Pages()) + Fill(b, end, PoolAttr(pools, mpid))
  {
    hide Fill, Distinct;
    ghost var c;
    first, last, c := FillHole(pools, mpid, space, prev, null, b, end, i);
    assert space.nodes == old(space.nodes) + c;
    ViewsConcat(old(space.nodes), c);
  }

  /** The walk of assign_fpages_ext over an address space. */
  method AssignInSpace(pools: seq<Mempool>, mpid: nat, space: AddressSpace, base: nat, end: nat)
    returns (first: Fpage?, last: Fpage?)
    requires mpid < |pools| && pools[mpid].mappable && base < end <= TOP
    requires space.Valid()
    modifies space`first, space`nodes, (set n | n in space.nodes)`asNext
    ensures space.Valid()
    ensures space.Pages() == Assign(old(space.Pages()), base, end, PoolAttr(pools, mpid))
  {
    hide Assign, Fill, WalkResult;
    ghost var attr := PoolAttr(pools, mpid);
    ghost var whole := Assign(space.Pages(), base, end, attr);
    WalkStart(space.Pages(), base, end, attr);
    first, last := null, null;
    var prev: Fpage?, cur: Fpage? := null, space.first;
    var b: nat := base;
    ghost var i: nat := 0;
    while b < end && cur != null
      invariant space.Valid() && WalkState(space, prev, cur, i, b, end, attr, whole)
      invariant forall n :: n in space.nodes ==> n in old(space.nodes) || fresh(n)
      decreases |space.nodes| - i
    {
      var f, l;
      b, f, l, i := WalkOn(pools, mpid, space, prev, cur, b, end, i, whole);
      if first == null {
        first := f;
      }
      if l != null {
        last := l;
      }
      prev, cur := cur, cur.asNext;
    }
    WalkEnd(space.Pages(), i, b, end, attr);
    if b < end {
      var f, l := FillRest(pools, mpid, space, prev, b, end, i);
      if first == null {
        first := f;
      }
      last := l;
    }
  }

  /** The pool assign_fpages_ext works with: the given one, or a search. */
  function PoolFor(pools: seq<Mempool>, mpid: int, base: nat, size: nat): int {
    if mpid == -1 then SearchFrom(pools, base, size, 0) else mpid
  }

  /** Returns -1, changing nothing, on an empty range or without a pool. */
  method AssignFpagesExt(pools: seq<Mempool>, mpid: int, space: AddressSpace?, base: nat, size: nat)
    returns (status: int, first: Fpage?, last: Fpage?, ghost c: seq<Fpage>)
    requires -1 <= mpid < |pools| && base + size <= TOP
    requires -1 <= PoolFor(pools, mpid, base, size) < |pools|
    requires PoolFor(pools, mpid, base, size) != -1 ==> pools[PoolFor(pools, mpid, base, size)].mappable
    requires space != null ==> space.Valid()
    modifies (if space == null then {} else {space})`first, (if space == null then {} else {space})`nodes
    modifies (if space == null then {} else set n | n in space.nodes)`asNext
    ensures status == if size == 0 || PoolFor(pools, mpid, base, size) == -1 then -1 else 0
    ensures space != null ==> space.Valid()
    ensures space != null ==>
              space.Pages() ==
              if status == -1 then old(space.Pages())
              else Assign(old(space.Pages()), base, base + size, PoolAttr(pools, PoolFor(pools, mpid, base, size)))
    ensures space == null && status == 0 ==>
              && IsChain(c, first, last) && fresh(c)
              && Views(c) == Fill(base, base + size, PoolAttr(pools, PoolFor(pools, mpid, base, size)))
  {
    hide Assign, AddrAlign, Chain;
    status, first, last, c := -1, null, null, [];
    if size == 0 {
      return;
    }
    var pool := mpid;
    if pool == -1 {
      pool := MempoolSearch(pools, base, size);
      if pool == -1 {
        return;
      }
    }
    status := 0;
    if space != null {
      first, last := AssignInSpace(pools, pool, space, base, base + size);
    } else {
      AlignUpLeast(base);
      AlignUpLeast(size);
      first, last, c := CreateFpageChain(pools, MempoolAlign(pools, pool, base), MempoolAlign(pools, pool, size), pool);
    }
  }
}
