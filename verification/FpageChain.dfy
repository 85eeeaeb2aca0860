/** Tiling an address range with aligned power-of-two pages
    (create_fpage_chain, kernel/fpage.c). */
module FpageChain {
  import opened Bits

  /** What a page takes from its memory pool. */
  datatype Attr = Attr(mpid: nat, always: bool, rwx: nat)

  datatype Page = Page(base: nat, shift: nat, attr: Attr) {
    function Bytes(): nat { Pow2(shift) }

    function End(): nat { base + Pow2(shift) }
  }

  // ----- One step -----

  /** The lesser of log2(base) and log2(size), as the source selects it. */
  function PickShift(base: nat, size: nat): nat {
    var bshift := AddrLog2(base);
    var sshift := AddrLog2(size);
    if Pow2(bshift) > size then sshift else bshift
  }

  lemma PickShiftFits(base: nat, size: nat)
    requires 0 < size && base + size <= LIMIT && size < LIMIT && base < LIMIT
    ensures Pow2(PickShift(base, size)) <= size
    ensures Aligned(base, PickShift(base, size))
    ensures PickShift(base, size) <= 31
  {
    TzBound(size);
    AlignedTz(size, Tz(size));
    Pow2Aligned(0, 31);
    if base > 0 {
      TzBound(base);
      AlignedTz(base, Tz(base));
    }
    var b, s := AddrLog2(base), Tz(size);
    if Pow2(b) > size {
      Pow2Order(s, b);
      AlignedDown(base, s, b);
    }
  }

  /** The picked shift is no smaller than any common alignment. */
  lemma PickShiftCoarse(base: nat, size: nat, k: nat)
    requires 0 < size < LIMIT && base < LIMIT
    requires Aligned(base, k) && Aligned(size, k)
    ensures k <= PickShift(base, size)
  {
    TzBound(size);
    AlignedTz(size, k);
    if base > 0 {
      AlignedTz(base, k);
    }
  }

  // ----- The chain -----

  /** The pages that create_fpage_chain makes for [base, base + size). */
  function Chain(base: nat, size: nat, attr: Attr): (c: seq<Page>)
    requires base + size <= LIMIT && size < LIMIT
    decreases size
  {
    if size == 0 then []
    else
      PickShiftFits(base, size);
      var shift := PickShift(base, size);
      [Page(base, shift, attr)] + Chain(base + Pow2(shift), size - Pow2(shift), attr)
  }

  /** Chain under a name that unfolds only on demand. */
  function PagesFor(base: nat, size: nat, attr: Attr): seq<Page>
    requires base + size <= LIMIT && size < LIMIT
  {
    Chain(base, size, attr)
  }

  /** The pages lie end to end from lo to hi. */
  predicate Tiles(c: seq<Page>, lo: nat, hi: nat) {
    if c == [] then lo == hi
    else c[0].base == lo && Tiles(c[1..], c[0].End(), hi)
  }

  /** A page an MPU region can describe, no finer than two to the k. */
  predicate PageOk(p: Page, k: nat) {
    k <= p.shift <= 31 && Aligned(p.base, p.shift)
  }

  predicate AllPagesOk(c: seq<Page>, k: nat) {
    forall i :: 0 <= i < |c| ==> PageOk(c[i], k)
  }

  /** The chain tiles the range exactly, with pages aligned to their own size and
      no finer than the common alignment k of base and size. */
  lemma {:induction false} ChainTiles(base: nat, size: nat, attr: Attr, k: nat)
    requires base + size <= LIMIT && size < LIMIT
    requires Aligned(base, k) && Aligned(size, k)
    ensures Tiles(Chain(base, size, attr), base, base + size)
    ensures AllPagesOk(Chain(base, size, attr), k)
    ensures forall i :: 0 <= i < |Chain(base, size, attr)| ==> Chain(base, size, attr)[i].attr == attr
    ensures size > 0 ==> |Chain(base, size, attr)| > 0
    decreases size
  {
    if size > 0 {
      PickShiftFits(base, size);
      PickShiftCoarse(base, size, k);
      var shift := PickShift(base, size);
      var p := Pow2(shift);
      Pow2Aligned(shift, k);
      AlignedSum(base, p, k);
      AlignedSum(size, p, k);
      var rest := Chain(base + p, size - p, attr);
      assert Chain(base, size, attr)[1..] == rest;
      ChainTiles(base + p, size - p, attr, k);
    }
  }

  // ----- The chain, page by page -----

  function NextPage(b: nat, left: nat, attr: Attr): Page {
    Page(b, PickShift(b, left), attr)
  }

  /** Making `done` from (base, size) leads to (b, left). */
  predicate Built(done: seq<Page>, b: nat, left: nat, base: nat, size: nat, attr: Attr) {
    if done == [] then b == base && left == size
    else
      var p := done[|done| - 1];
      && p == NextPage(p.base, left + p.Bytes(), attr)
      && b == p.End()
      && Built(done[..|done| - 1], p.base, left + p.Bytes(), base, size, attr)
  }

  lemma BuiltNone(base: nat, size: nat, attr: Attr)
    ensures Built([], base, size, base, size, attr)
  {
  }

  lemma BuiltMore(done: seq<Page>, b: nat, left: nat, base: nat, size: nat, attr: Attr)
    requires Built(done, b, left, base, size, attr)
    requires 0 < left < LIMIT && b + left <= LIMIT
    ensures var p := NextPage(b, left, attr);
            p.Bytes() <= left && Built(done + [p], p.End(), left - p.Bytes(), base, size, attr)
  {
    var p := NextPage(b, left, attr);
    PickShiftFits(b, left);
    assert (done + [p])[..|done|] == done;
  }

  lemma ChainUnfold(b: nat, left: nat, attr: Attr)
    requires 0 < left < LIMIT && b + left <= LIMIT
    ensures var p := NextPage(b, left, attr);
            p.Bytes() <= left && Chain(b, left, attr) == [p] + Chain(p.End(), left - p.Bytes(), attr)
  {
    PickShiftFits(b, left);
  }

  lemma {:induction false} BuiltIsChain(done: seq<Page>, b: nat, left: nat, base: nat, size: nat, attr: Attr)
    requires base + size <= LIMIT && size < LIMIT && b + left <= LIMIT && left < LIMIT
    requires Built(done, b, left, base, size, attr)
    ensures done + Chain(b, left, attr) == Chain(base, size, attr)
    ensures left == 0 ==> done == Chain(base, size, attr)
  {
    hide Chain;
    if done == [] {
      assert done + Chain(b, left, attr) == Chain(base, size, attr);
    } else {
      var n := |done| - 1;
      var p := done[n];
      BuiltBounds(done[..n], p.base, left + p.Bytes(), base, size, attr);
      BuiltIsChain(done[..n], p.base, left + p.Bytes(), base, size, attr);
      ChainUnfold(p.base, left + p.Bytes(), attr);
      assert done == done[..n] + [p];
      Regroup(done[..n], p, Chain(b, left, attr));
    }
    if left == 0 {
      ChainEmpty(b, attr);
      assert done + [] == done;
    }
  }

  lemma Regroup(a: seq<Page>, p: Page, c: seq<Page>)
    ensures a + ([p] + c) == (a + [p]) + c
  {
  }

  lemma {:induction false} BuiltBounds(done: seq<Page>, b: nat, left: nat, base: nat, size: nat, attr: Attr)
    requires Built(done, b, left, base, size, attr)
    ensures b + left == base + size && left <= size
  {
    if done != [] {
      var p := done[|done| - 1];
      BuiltBounds(done[..|done| - 1], p.base, left + p.Bytes(), base, size, attr);
    }
  }

  // ----- How long a chain can get -----

  /** 0 + 1 + ... + n. */
  function Triangle(n: nat): nat {
    if n == 0 then 0 else n + Triangle(n - 1)
  }

  lemma {:induction false} TriangleClosed(n: nat)
    ensures 2 * Triangle(n) == n * (n + 1)
  {
    if n > 0 {
      TriangleClosed(n - 1);
      assert n * (n + 1) == (n - 1) * n + 2 * n;
    }
  }

  lemma {:induction false} TriangleGrows(m: nat, n: nat)
    requires m <= n
    ensures Triangle(m) <= Triangle(n)
  {
    if m < n {
      TriangleGrows(m, n - 1);
    }
  }

  lemma ChainEmpty(base: nat, attr: Attr)
    requires base <= LIMIT
    ensures Chain(base, 0, attr) == []
  {
  }

  lemma ChainStep(base: nat, size: nat, attr: Attr)
    requires 0 < size < LIMIT && base + size <= LIMIT
    ensures Pow2(PickShift(base, size)) <= size
    ensures |Chain(base, size, attr)| ==
            1 + |Chain(base + Pow2(PickShift(base, size)), size - Pow2(PickShift(base, size)), attr)|
  {
    PickShiftFits(base, size);
  }

  /** From a base aligned above the size, the chain climbs from the lowest bit of
      the size to its highest and then is left with fewer bits. */
  lemma {:induction false} ChainLengthAligned(base: nat, size: nat, attr: Attr, m: nat)
    requires m <= 31 && Aligned(base, m) && size < Pow2(m) && size < LIMIT && base + size <= LIMIT
    ensures |Chain(base, size, attr)| <= Triangle(m)
    decreases m, 1, 0
  {
    hide Chain;
    if size == 0 {
      ChainEmpty(base, attr);
    } else if size < Pow2(m - 1) {
      AlignedDown(base, m - 1, m);
      ChainLengthAligned(base, size, attr, m - 1);
    } else {
      var s := Tz(size);
      AlignedTz(size, s);
      Pow2Order(s, m);
      PickOfAligned(base, size, m);
      ChainStep(base, size, attr);
      AlignedDown(base, s + 1, m);
      TzOfSum(base, s);
      ChainLengthClimb(base, size - Pow2(s), attr, m, s);
    }
  }

  lemma PickOfAligned(base: nat, size: nat, m: nat)
    requires m <= 31 && Aligned(base, m) && 0 < size < Pow2(m)
    ensures PickShift(base, size) == Tz(size)
  {
    if base > 0 {
      AlignedTz(base, m);
      Pow2Order(Tz(base), m);
    } else {
      Pow2Order(31, m);
    }
  }

  /** One climbing step: at base + 2^j, with 2^j taken from the total. */
  lemma {:induction false} ChainLengthClimb(base: nat, size: nat, attr: Attr, m: nat, j: nat)
    requires 0 < m <= 31 && j < m && Aligned(base, m)
    requires Pow2(m - 1) <= size + Pow2(j) < Pow2(m)
    requires base + Pow2(j) + size <= LIMIT && size < LIMIT
    ensures |Chain(base + Pow2(j), size, attr)| <= m - 1 - j + Triangle(m - 1)
    decreases m, 0, m - j
  {
    hide Chain;
    var at := base + Pow2(j);
    if j == m - 1 {
      AlignedDown(base, m - 1, m);
      Pow2Aligned(m - 1, m - 1);
      AlignedSum(base, Pow2(m - 1), m - 1);
      ChainLengthAligned(at, size, attr, m - 1);
    } else if size == 0 {
      ChainEmpty(at, attr);
    } else {
      Pow2Order(j, m - 1);
      Pow2Order(j + 1, m);
      assert Pow2(j + 1) <= Pow2(m - 1) by { if j + 1 < m - 1 { Pow2Order(j + 1, m - 1); } }
      AlignedDown(base, j + 1, m);
      TzOfSum(base, j);
      assert PickShift(at, size) == j;
      ChainStep(at, size, attr);
      ChainLengthClimb(base, size - Pow2(j), attr, m, j + 1);
    }
  }

  lemma AddrLog2Aligned(base: nat)
    requires base < LIMIT
    ensures AddrLog2(base) <= 31 && Aligned(base, AddrLog2(base))
  {
    Pow2Aligned(0, 31);
    if base > 0 {
      TzBound(base);
      AlignedTz(base, Tz(base));
    }
  }

  lemma ChainLengthBelow(base: nat, size: nat, attr: Attr, n: nat)
    requires n <= 32 && 0 < size < Pow2(n) && size < LIMIT && base + size <= LIMIT
    requires size < Pow2(AddrLog2(base))
    ensures |Chain(base, size, attr)| <= Triangle(n)
  {
    AddrLog2Aligned(base);
    var k := AddrLog2(base);
    var m := if k < n then k else n;
    AlignedDown(base, m, k);
    ChainLengthAligned(base, size, attr, m);
    TriangleGrows(m, n);
  }

  /** The first ascent: each page doubles the alignment of the base, until what is
      left is smaller than that. */
  lemma {:induction false} ChainLengthFrom(base: nat, size: nat, attr: Attr, n: nat)
    requires n <= 32 && size < Pow2(n) && size < LIMIT && base + size <= LIMIT
    ensures |Chain(base, size, attr)| <=
            (if AddrLog2(base) < n then n - AddrLog2(base) else 0) + Triangle(n)
    decreases size
  {
    hide Chain;
    if size == 0 {
      ChainEmpty(base, attr);
    } else {
      var k := AddrLog2(base);
      if Pow2(k) > size {
        ChainLengthBelow(base, size, attr, n);
      } else {
        Pow2Order(k, n);
        ChainStep(base, size, attr);
        var next, left := base + Pow2(k), size - Pow2(k);
        if left == 0 {
          ChainEmpty(next, attr);
        } else if base > 0 {
          TzGrows(base);
          ChainLengthFrom(next, left, attr, n);
        } else {
          assert left < Pow2(31) by { Pow2Is32(); }
          assert AddrLog2(next) == 31 by { Pow2Aligned(31, 31); }
          ChainLengthBelow(next, left, attr, n);
        }
      }
    }
  }

  /** A range of fewer than 2^n bytes needs at most n + n(n+1)/2 pages. */
  lemma ChainLength(base: nat, size: nat, attr: Attr, n: nat)
    requires n <= 32 && size < Pow2(n) && size < LIMIT && base + size <= LIMIT
    ensures |Chain(base, size, attr)| <= n + n * (n + 1) / 2
  {
    ChainLengthFrom(base, size, attr, n);
    TriangleClosed(n);
  }
}
