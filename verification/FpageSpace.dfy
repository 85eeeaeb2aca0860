/** Address spaces as ordered lists of pages, and what inserting, splitting and
    assigning pages do to the covered addresses (kernel/fpage.c, kernel/memory.c). */
module FpageSpace {
  import opened Bits
  import opened FpageChain

  /** The smallest page is two to this power (CONFIG_SMALLEST_FPAGE_SHIFT). */
  const GRANULE_SHIFT: nat := 8
  const GRANULE: nat := 256

  /** Ranges end at or below this address, so that rounding up stays in 32 bits. */
  const TOP: nat := 0xFFFF_FE00

  // ----- addr_align -----

  /** (addr + (size - 1)) & ~(size - 1) in 32 bits, for a power of two size. */
  function AddrAlign(addr: nat, size: nat): nat
    requires size > 0
  {
    var x := (addr + (size - 1)) % LIMIT;
    x - x % size
  }

  function AlignUp(addr: nat): nat { AddrAlign(addr, GRANULE) }

  lemma GranuleAligned(a: nat)
    ensures Aligned(a, GRANULE_SHIFT) <==> a % GRANULE == 0
  {
    Pow2Is32();
    AlignedIsMultiple(a, GRANULE_SHIFT);
  }

  lemma AlignUpValue(addr: nat)
    requires addr <= LIMIT - GRANULE
    ensures AlignUp(addr) == (addr + 255) / 256 * 256
  {
    assert (addr + 255) % LIMIT == addr + 255;
  }

  /** In the last granule the 32-bit sum wraps around, and rounding gives 0. */
  lemma AlignUpWraps(addr: nat)
    requires addr < LIMIT
    ensures addr <= AlignUp(addr) <==> addr <= LIMIT - GRANULE
    ensures addr > LIMIT - GRANULE ==> AlignUp(addr) == 0
  {
    if addr <= LIMIT - GRANULE {
      AlignUpValue(addr);
    } else {
      assert (addr + 255) % LIMIT == addr + 255 - LIMIT < 256;
    }
  }

  lemma CeilFacts(a: nat, up: nat)
    requires up == (a + 255) / 256 * 256
    ensures a <= up < a + 256 && up % 256 == 0 && (a % 256 == 0 <==> up == a)
  {
  }

  lemma CeilLeast(a: nat, up: nat, m: nat)
    requires up == (a + 255) / 256 * 256 && a <= m && m % 256 == 0
    ensures up <= m
  {
  }

  lemma AlignUpAligned(addr: nat)
    requires addr < LIMIT
    ensures Aligned(AlignUp(addr), GRANULE_SHIFT)
  {
    AlignUpWraps(addr);
    GranuleAligned(0);
    hide Aligned, AlignUp;
    if addr <= LIMIT - GRANULE {
      AlignUpLeast(addr);
    }
  }

  /** The least multiple of the granule that is not below the address. */
  lemma AlignUpLeast(addr: nat)
    requires addr <= LIMIT - GRANULE
    ensures addr <= AlignUp(addr) < addr + GRANULE
    ensures Aligned(AlignUp(addr), GRANULE_SHIFT)
    ensures forall m: nat :: addr <= m && Aligned(m, GRANULE_SHIFT) ==> AlignUp(addr) <= m
    ensures Aligned(addr, GRANULE_SHIFT) <==> AlignUp(addr) == addr
  {
    AlignUpValue(addr);
    var up := AlignUp(addr);
    CeilFacts(addr, up);
    GranuleAligned(up);
    GranuleAligned(addr);
    hide AlignUp, Aligned;
    forall m: nat | addr <= m && Aligned(m, GRANULE_SHIFT) ensures up <= m {
      GranuleAligned(m);
      CeilLeast(addr, up, m);
    }
  }

  /** Rounding both ends of a range is rounding its start and its length. */
  lemma AlignUpDifference(base: nat, end: nat)
    requires Aligned(base, GRANULE_SHIFT) && base <= end <= TOP
    ensures base + AlignUp(end - base) == AlignUp(end)
  {
    GranuleAligned(base);
    AlignUpValue(end);
    AlignUpValue(end - base);
    ModShift(base, end - base + 255);
  }

  lemma ModShift(base: nat, x: nat)
    requires base % 256 == 0
    ensures (base + x) % 256 == x % 256
  {
  }

  // ----- Ordered lists of pages -----

  /** Sorted, disjoint, granule-aligned pages from lo on, below 2^32. */
  predicate Ordered(ps: seq<Page>, lo: nat) {
    ps == [] ||
    (&& lo <= ps[0].base
     && PageOk(ps[0], GRANULE_SHIFT)
     && ps[0].End() < LIMIT
     && Ordered(ps[1..], ps[0].End()))
  }

  /** An address space as the kernel keeps it. */
  predicate SpaceOk(ps: seq<Page>) { Ordered(ps, 0) }

  predicate Within(p: Page, a: nat) { p.base <= a < p.End() }

  predicate Covers(ps: seq<Page>, a: nat) {
    ps != [] && (Within(ps[0], a) || Covers(ps[1..], a))
  }

  /** Where the last page ends. */
  function EndOf(ps: seq<Page>, lo: nat): nat {
    if ps == [] then lo else ps[|ps| - 1].End()
  }

  lemma {:induction false} CoversByIndex(ps: seq<Page>, a: nat)
    ensures Covers(ps, a) <==> exists i :: 0 <= i < |ps| && Within(ps[i], a)
  {
    if ps != [] {
      CoversByIndex(ps[1..], a);
      if Covers(ps[1..], a) {
        var i :| 0 <= i < |ps[1..]| && Within(ps[1..][i], a);
        assert Within(ps[i + 1], a);
      }
      if i :| 0 < i < |ps| && Within(ps[i], a) {
        assert Within(ps[1..][i - 1], a);
      }
    }
  }

  lemma {:induction false} OrderedBounds(ps: seq<Page>, lo: nat, i: nat)
    requires Ordered(ps, lo) && i < |ps|
    ensures lo <= ps[i].base && PageOk(ps[i], GRANULE_SHIFT) && ps[i].End() < LIMIT
    ensures lo <= EndOf(ps, lo) && (Aligned(lo, GRANULE_SHIFT) ==> Aligned(EndOf(ps, lo), GRANULE_SHIFT))
  {
    PageEndAligned(ps[0]);
    if i > 0 {
      OrderedBounds(ps[1..], ps[0].End(), i - 1);
    } else if |ps| > 1 {
      OrderedBounds(ps[1..], ps[0].End(), 0);
    }
  }

  /** The pages are pairwise disjoint and in order. */
  lemma {:induction false} OrderedPairs(ps: seq<Page>, lo: nat, i: nat, j: nat)
    requires Ordered(ps, lo) && i < j < |ps|
    ensures ps[i].End() <= ps[j].base
  {
    if i == 0 {
      OrderedBounds(ps[1..], ps[0].End(), j - 1);
    } else {
      OrderedPairs(ps[1..], ps[0].End(), i - 1, j - 1);
    }
  }

  lemma PageEndAligned(p: Page)
    requires PageOk(p, GRANULE_SHIFT)
    ensures Aligned(p.base, GRANULE_SHIFT) && Aligned(p.End(), GRANULE_SHIFT)
  {
    AlignedDown(p.base, GRANULE_SHIFT, p.shift);
    Pow2Aligned(p.shift, GRANULE_SHIFT);
    AlignedSum(p.base, Pow2(p.shift), GRANULE_SHIFT);
  }

  lemma {:induction false} OrderedConcat(a: seq<Page>, b: seq<Page>, lo: nat)
    ensures Ordered(a + b, lo) <==> Ordered(a, lo) && Ordered(b, EndOf(a, lo))
  {
    if a == [] {
      assert a + b == b;
    } else {
      assert (a + b)[1..] == a[1..] + b;
      OrderedConcat(a[1..], b, a[0].End());
      assert EndOf(a, lo) == EndOf(a[1..], a[0].End());
    }
  }

  lemma {:induction false} CoversConcat(a: seq<Page>, b: seq<Page>, x: nat)
    ensures Covers(a + b, x) <==> Covers(a, x) || Covers(b, x)
  {
    if a == [] {
      assert a + b == b;
    } else {
      assert (a + b)[1..] == a[1..] + b;
      CoversConcat(a[1..], b, x);
    }
  }

  lemma {:induction false} OrderedLower(ps: seq<Page>, lo: nat, lo': nat)
    requires Ordered(ps, lo) && (lo' <= lo || (ps != [] && lo' <= ps[0].base))
    ensures Ordered(ps, lo')
  {
  }

  lemma {:induction false} NothingBelow(ps: seq<Page>, lo: nat, a: nat)
    requires Ordered(ps, lo) && Covers(ps, a)
    ensures lo <= a
  {
    if !Within(ps[0], a) {
      NothingBelow(ps[1..], ps[0].End(), a);
    }
  }

  /** A tiling is ordered and covers exactly its range. */
  lemma {:induction false} TilesCover(c: seq<Page>, lo: nat, hi: nat, a: nat)
    requires Tiles(c, lo, hi) && AllPagesOk(c, GRANULE_SHIFT) && hi < LIMIT
    ensures lo <= hi && Ordered(c, lo) && EndOf(c, lo) == hi
    ensures Covers(c, a) <==> lo <= a < hi
  {
    if c != [] {
      assert forall i :: 0 <= i < |c[1..]| ==> c[1..][i] == c[i + 1];
      TilesCover(c[1..], c[0].End(), hi, a);
      assert PageOk(c[0], GRANULE_SHIFT);
      assert EndOf(c, lo) == EndOf(c[1..], c[0].End());
    }
  }

  // ----- insert_fpage_chain_to_as -----

  /** Where a chain whose last page starts at b goes: before the first page that
      starts above b. */
  function InsertIndex(ps: seq<Page>, b: nat): (k: nat)
    ensures k <= |ps|
  {
    if ps == [] || b < ps[0].base then 0 else 1 + InsertIndex(ps[1..], b)
  }

  function InsertChain(ps: seq<Page>, c: seq<Page>): seq<Page>
    requires c != []
  {
    var k := InsertIndex(ps, c[|c| - 1].base);
    ps[..k] + c + ps[k..]
  }

  lemma {:induction false} InsertIndexBetween(a: seq<Page>, b: seq<Page>, x: nat)
    requires forall i :: 0 <= i < |a| ==> a[i].base <= x
    requires b != [] ==> x < b[0].base
    ensures InsertIndex(a + b, x) == |a|
  {
    if a == [] {
      assert a + b == b;
    } else {
      assert (a + b)[1..] == a[1..] + b;
      assert forall i :: 0 <= i < |a[1..]| ==> a[1..][i] == a[i + 1];
      InsertIndexBetween(a[1..], b, x);
    }
  }

  /** A chain that lies in a gap of the space is inserted into that gap. */
  lemma InsertIntoGap(a: seq<Page>, b: seq<Page>, c: seq<Page>)
    requires c != [] && SpaceOk(a + c + b)
    ensures InsertChain(a + b, c) == a + c + b
  {
    var last := c[|c| - 1];
    var all := a + c + b;
    forall i | 0 <= i < |a| ensures a[i].base <= last.base {
      assert all[i] == a[i] && all[|a| + |c| - 1] == last;
      OrderedPairs(all, 0, i, |a| + |c| - 1);
    }
    if b != [] {
      assert all[|a| + |c| - 1] == last && all[|a| + |c|] == b[0];
      OrderedPairs(all, 0, |a| + |c| - 1, |a| + |c|);
    }
    InsertIndexBetween(a, b, last.base);
    assert (a + b)[..|a|] == a && (a + b)[|a|..] == b;
  }

  // ----- split_fpage -----

  /** The space after page k has been split at address `at`. */
  function Split(ps: seq<Page>, k: nat, at: nat, attr: Attr): seq<Page>
    requires k < |ps| && ps[k].base < at < ps[k].End() < LIMIT
  {
    var p := ps[k];
    ps[..k] + (PagesFor(p.base, at - p.base, attr) + PagesFor(at, p.End() - at, attr)) + ps[k + 1..]
  }

  /** Page k goes and the chains l and r come in, as split_fpage does it. */
  function InsertForPage(ps: seq<Page>, k: nat, l: seq<Page>, r: seq<Page>): seq<Page>
    requires k < |ps| && l != [] && r != []
  {
    InsertChain(InsertChain(ps[..k] + ps[k + 1..], l), r)
  }

  lemma SplitPieces(p: Page, at: nat, attr: Attr)
    requires PageOk(p, GRANULE_SHIFT) && p.base < at < p.End() < LIMIT && Aligned(at, GRANULE_SHIFT)
    ensures var l, r := PagesFor(p.base, at - p.base, attr), PagesFor(at, p.End() - at, attr);
            && l != [] && r != []
            && Tiles(l, p.base, at) && AllPagesOk(l, GRANULE_SHIFT)
            && Tiles(r, at, p.End()) && AllPagesOk(r, GRANULE_SHIFT)
  {
    hide Chain;
    PageEndAligned(p);
    AlignedSum(at, p.base, GRANULE_SHIFT);
    AlignedSum(p.End(), at, GRANULE_SHIFT);
    ChainTiles(p.base, at - p.base, attr, GRANULE_SHIFT);
    ChainTiles(at, p.End() - at, attr, GRANULE_SHIFT);
  }

  lemma {:induction false} TilesConcat(a: seq<Page>, b: seq<Page>, lo: nat, mid: nat, hi: nat)
    requires Tiles(a, lo, mid) && Tiles(b, mid, hi)
    ensures Tiles(a + b, lo, hi)
  {
    if a == [] {
      assert a + b == b;
    } else {
      assert (a + b)[1..] == a[1..] + b;
      TilesConcat(a[1..], b, a[0].End(), mid, hi);
    }
  }

  /** Putting a tiling in the place of the page it tiles. */
  lemma ReplacePage(pre: seq<Page>, p: Page, post: seq<Page>, c: seq<Page>, a: nat)
    requires SpaceOk(pre + ([p] + post))
    requires Tiles(c, p.base, p.End()) && AllPagesOk(c, GRANULE_SHIFT)
    ensures SpaceOk(pre + (c + post))
    ensures Covers(pre + (c + post), a) <==> Covers(pre + ([p] + post), a)
  {
    OrderedConcat(pre, [p] + post, 0);
    assert ([p] + post)[1..] == post && [p][1..] == [];
    TilesCover(c, p.base, p.End(), a);
    OrderedConcat(c, post, p.base);
    OrderedLower(c + post, p.base, EndOf(pre, 0));
    OrderedConcat(pre, c + post, 0);
    CoversConcat(pre, [p] + post, a);
    CoversConcat(pre, c + post, a);
    CoversConcat(c, post, a);
    CoversConcat([p], post, a);
  }

  lemma Associate(a: seq<Page>, b: seq<Page>, c: seq<Page>)
    ensures a + b + c == a + (b + c)
  {
  }

  /** Splitting keeps the space in order and covers the same addresses. */
  lemma SplitKeeps(ps: seq<Page>, k: nat, at: nat, attr: Attr, a: nat)
    requires SpaceOk(ps) && k < |ps| && ps[k].base < at < ps[k].End() < LIMIT
    requires Aligned(at, GRANULE_SHIFT)
    ensures SpaceOk(Split(ps, k, at, attr))
    ensures Covers(Split(ps, k, at, attr), a) <==> Covers(ps, a)
  {
    hide PagesFor, Tiles, Covers, Ordered;
    var p := ps[k];
    var l, r := PagesFor(p.base, at - p.base, attr), PagesFor(at, p.End() - at, attr);
    var pre, post := ps[..k], ps[k + 1..];
    assert ps == pre + ([p] + post);
    OrderedBounds(ps, 0, k);
    SplitPieces(p, at, attr);
    TilesConcat(l, r, p.base, at, p.End());
    ReplacePage(pre, p, post, l + r, a);
    Associate(pre, l + r, post);
  }

  /** Every other page stays, and the split point is a page boundary. */
  lemma SplitBoundary(ps: seq<Page>, k: nat, at: nat, attr: Attr)
    requires SpaceOk(ps) && k < |ps| && ps[k].base < at < ps[k].End() < LIMIT
    requires Aligned(at, GRANULE_SHIFT)
    ensures var qs := Split(ps, k, at, attr);
            var m := |PagesFor(ps[k].base, at - ps[k].base, attr)|;
            var n := m + |PagesFor(at, ps[k].End() - at, attr)|;
            && qs[..k] == ps[..k] && |qs| == |ps| - 1 + n && qs[k + n..] == ps[k + 1..]
            && 0 < m < n && qs[k + m - 1].End() == at == qs[k + m].base
  {
    var p := ps[k];
    var l, r := PagesFor(p.base, at - p.base, attr), PagesFor(at, p.End() - at, attr);
    OrderedBounds(ps, 0, k);
    SplitPieces(p, at, attr);
    TilesCover(l, p.base, at, 0);
    FourParts(ps[..k], l, r, ps[k + 1..]);
  }

  lemma FourParts(a: seq<Page>, b: seq<Page>, c: seq<Page>, d: seq<Page>)
    requires b != [] && c != []
    ensures var s, k := a + (b + c) + d, |a|;
            && |s| == k + |b| + |c| + |d|
            && s[..k] == a && s[k + |b| + |c|..] == d
            && s[k + |b| - 1] == b[|b| - 1] && s[k + |b|] == c[0]
  {
  }

  /** The two insertions of split_fpage put the pieces where the page was. */
  lemma SplitByInsertion(ps: seq<Page>, k: nat, at: nat, attr: Attr)
    requires SpaceOk(ps) && k < |ps| && ps[k].base < at < ps[k].End() < LIMIT
    requires Aligned(at, GRANULE_SHIFT)
    ensures var l, r := PagesFor(ps[k].base, at - ps[k].base, attr), PagesFor(at, ps[k].End() - at, attr);
            && l != [] && r != []
            && InsertForPage(ps, k, l, r) == Split(ps, k, at, attr)
  {
    hide PagesFor;
    var p := ps[k];
    var l, r := PagesFor(p.base, at - p.base, attr), PagesFor(at, p.End() - at, attr);
    var pre, post := ps[..k], ps[k + 1..];
    OrderedBounds(ps, 0, k);
    SplitPieces(p, at, attr);
    SplitKeeps(ps, k, at, attr, 0);
    assert Split(ps, k, at, attr) == (pre + l) + r + post;
    InsertTwice(pre, l, r, post);
  }

  lemma InsertTwice(pre: seq<Page>, l: seq<Page>, r: seq<Page>, post: seq<Page>)
    requires l != [] && r != [] && SpaceOk((pre + l) + r + post)
    ensures InsertChain(InsertChain(pre + post, l), r) == (pre + l) + r + post
  {
    DropMiddle(pre + l, r, post);
    InsertIntoGap(pre, post, l);
    InsertIntoGap(pre + l, post, r);
  }

  lemma DropMiddle(a: seq<Page>, b: seq<Page>, c: seq<Page>)
    requires SpaceOk(a + b + c) && b != []
    ensures SpaceOk(a + c)
  {
    OrderedConcat(a + b, c, 0);
    OrderedConcat(a, b, 0);
    OrderedBounds(b, EndOf(a, 0), 0);
    assert EndOf(a + b, 0) == EndOf(b, EndOf(a, 0));
    OrderedLower(c, EndOf(a + b, 0), EndOf(a, 0));
    OrderedConcat(a, c, 0);
  }
}
