/** Filling the unmapped part of a range with fresh pages
    (assign_fpages_ext, kernel/fpage.c). */
module FpageAssign {
  import opened Bits
  import opened FpageChain
  import opened FpageSpace

  /** The fresh pages for a hole [lo, hi): both the start and the length are
      rounded up to the granule. */
  function Fill(lo: nat, hi: nat, attr: Attr): seq<Page>
    requires lo < hi <= TOP
  {
    AlignUpLeast(lo);
    AlignUpLeast(hi - lo);
    PagesFor(AlignUp(lo), AlignUp(hi - lo), attr)
  }

  /** The space after the walk from address `base`, with pages ps still ahead. */
  function Assign(ps: seq<Page>, base: nat, end: nat, attr: Attr): seq<Page>
    requires end <= TOP
  {
    if base >= end then ps
    else if ps == [] then Fill(base, end, attr)
    else
      var p := ps[0];
      if base < p.base then
        Fill(base, if end < p.base then end else p.base, attr) + [p] + Assign(ps[1..], p.End(), end, attr)
      else if base < p.End() then [p] + Assign(ps[1..], p.End(), end, attr)
      else [p] + Assign(ps[1..], base, end, attr)
  }

  /** The start of the range is on a page boundary or already mapped. */
  predicate StartOk(ps: seq<Page>, base: nat) {
    Aligned(base, GRANULE_SHIFT) || Covers(ps, base)
  }

  lemma FillTiles(lo: nat, hi: nat, attr: Attr, a: nat)
    requires lo < hi <= TOP && Aligned(lo, GRANULE_SHIFT)
    ensures lo < AlignUp(hi) < LIMIT && Fill(lo, hi, attr) != []
    ensures Tiles(Fill(lo, hi, attr), lo, AlignUp(hi)) && AllPagesOk(Fill(lo, hi, attr), GRANULE_SHIFT)
    ensures Ordered(Fill(lo, hi, attr), lo) && EndOf(Fill(lo, hi, attr), lo) == AlignUp(hi)
    ensures Covers(Fill(lo, hi, attr), a) <==> lo <= a < AlignUp(hi)
  {
    hide Chain;
    AlignUpLeast(lo);
    AlignUpLeast(hi);
    AlignUpLeast(hi - lo);
    AlignUpDifference(lo, hi);
    ChainTiles(lo, AlignUp(hi - lo), attr, GRANULE_SHIFT);
    TilesCover(Fill(lo, hi, attr), lo, AlignUp(hi), a);
  }

  /** The result is in order, covers exactly what was covered plus the rounded
      range, and starts no lower than its inputs. */
  lemma {:induction false} AssignCovers(ps: seq<Page>, lo: nat, base: nat, end: nat, attr: Attr, a: nat)
    requires end <= TOP && Ordered(ps, lo) && lo <= base && StartOk(ps, base)
    ensures Ordered(Assign(ps, base, end, attr), lo)
    ensures base < end ==>
              (Covers(Assign(ps, base, end, attr), a) <==> Covers(ps, a) || base <= a < AlignUp(end))
    decreases |ps|
  {
    if base >= end {
    } else if ps == [] {
      FillTiles(base, end, attr, a);
      OrderedLower(Fill(base, end, attr), base, lo);
    } else {
      var p := ps[0];
      PageEndAligned(p);
      if base < p.base {
        AssignGap(ps, lo, base, end, attr, a);
      } else if base < p.End() {
        AssignCovers(ps[1..], p.End(), p.End(), end, attr, a);
        AssignPast(p.End(), end);
        assert ([p] + Assign(ps[1..], p.End(), end, attr))[1..] == Assign(ps[1..], p.End(), end, attr);
      } else {
        AssignCovers(ps[1..], p.End(), base, end, attr, a);
        assert ([p] + Assign(ps[1..], base, end, attr))[1..] == Assign(ps[1..], base, end, attr);
      }
    }
  }

  /** A page boundary that is not below the end is not below the rounded end. */
  lemma AssignPast(x: nat, end: nat)
    requires end <= TOP && Aligned(x, GRANULE_SHIFT)
    ensures end <= x ==> AlignUp(end) <= x
    ensures end <= AlignUp(end)
  {
    AlignUpLeast(end);
  }

  /** The hole before the first page is filled. */
  lemma {:induction false} AssignGap(ps: seq<Page>, lo: nat, base: nat, end: nat, attr: Attr, a: nat)
    requires end <= TOP && Ordered(ps, lo) && lo <= base && StartOk(ps, base)
    requires base < end && ps != [] && base < ps[0].base
    ensures Ordered(Assign(ps, base, end, attr), lo)
    ensures Covers(Assign(ps, base, end, attr), a) <==> Covers(ps, a) || base <= a < AlignUp(end)
    decreases |ps|, 0
  {
    hide Fill;
    var p := ps[0];
    PageEndAligned(p);
    if Covers(ps, base) {
      NothingBelow(ps, p.base, base);
    }
    var hi := if end < p.base then end else p.base;
    var fill := Fill(base, hi, attr);
    var rest := Assign(ps[1..], p.End(), end, attr);
    FillTiles(base, hi, attr, a);
    AssignPast(p.base, hi);
    AssignCovers(ps[1..], p.End(), p.End(), end, attr, a);
    AssignPast(p.End(), end);
    assert ([p] + rest)[1..] == rest;
    OrderedLower([p] + rest, p.base, AlignUp(hi));
    OrderedConcat(fill, [p] + rest, base);
    assert fill + ([p] + rest) == fill + [p] + rest;
    OrderedLower(fill + [p] + rest, base, lo);
    CoversConcat(fill, [p] + rest, a);
  }

  /** The old pages are all kept, in their order. */
  predicate IsSubsequence(ps: seq<Page>, qs: seq<Page>) {
    ps == [] || (qs != [] && if ps[0] == qs[0] then IsSubsequence(ps[1..], qs[1..]) else IsSubsequence(ps, qs[1..]))
  }

  lemma {:induction false} SubsequenceReflexive(ps: seq<Page>)
    ensures IsSubsequence(ps, ps)
  {
    if ps != [] {
      SubsequenceReflexive(ps[1..]);
    }
  }

  lemma {:induction false} SubsequenceTail(ps: seq<Page>, qs: seq<Page>)
    requires ps != [] && IsSubsequence(ps, qs)
    ensures IsSubsequence(ps[1..], qs)
    decreases |qs|, 1
  {
    if ps[0] == qs[0] {
      SubsequenceMore(ps[1..], qs);
    } else {
      SubsequenceTail(ps, qs[1..]);
      SubsequenceMore(ps[1..], qs);
    }
  }

  /** A page in front does no harm. */
  lemma {:induction false} SubsequenceMore(ps: seq<Page>, qs: seq<Page>)
    requires qs != [] && IsSubsequence(ps, qs[1..])
    ensures IsSubsequence(ps, qs)
    decreases |qs|, 0
  {
    if ps != [] && ps[0] == qs[0] {
      SubsequenceTail(ps, qs[1..]);
    }
  }

  lemma {:induction false} SubsequenceSkip(ps: seq<Page>, c: seq<Page>, qs: seq<Page>)
    requires IsSubsequence(ps, qs)
    ensures IsSubsequence(ps, c + qs)
  {
    if c == [] {
      assert c + qs == qs;
    } else {
      assert (c + qs)[1..] == c[1..] + qs;
      SubsequenceSkip(ps, c[1..], qs);
      SubsequenceMore(ps, c + qs);
    }
  }

  /** Every old page stays, in order, whatever the start. */
  lemma {:induction false} AssignKeepsPages(ps: seq<Page>, base: nat, end: nat, attr: Attr)
    requires end <= TOP
    ensures IsSubsequence(ps, Assign(ps, base, end, attr))
    decreases |ps|
  {
    if base >= end {
      SubsequenceReflexive(ps);
    } else if ps != [] {
      hide Fill;
      var p := ps[0];
      var from := if base < p.End() then p.End() else base;
      var rest := Assign(ps[1..], from, end, attr);
      AssignKeepsPages(ps[1..], from, end, attr);
      assert ([p] + rest)[1..] == rest;
      if base < p.base {
        var fill := Fill(base, if end < p.base then end else p.base, attr);
        SubsequenceSkip(ps, fill, [p] + rest);
        assert fill + ([p] + rest) == fill + [p] + rest;
      }
    }
  }

  /** Nothing is created when the whole range is mapped already. */
  lemma {:induction false} AssignCovered(ps: seq<Page>, lo: nat, base: nat, end: nat, attr: Attr)
    requires end <= TOP && Ordered(ps, lo)
    requires forall a :: base <= a < end ==> Covers(ps, a)
    ensures Assign(ps, base, end, attr) == ps
    decreases |ps|
  {
    if base < end {
      assert Covers(ps, base);
      NothingBelow(ps, ps[0].base, base);
      var p := ps[0];
      var from := if base < p.End() then p.End() else base;
      forall a | from <= a < end ensures Covers(ps[1..], a) {
        assert Covers(ps, a);
      }
      AssignCovered(ps[1..], p.End(), from, end, attr);
      assert [p] + ps[1..] == ps;
    }
  }

  lemma {:induction false} AssignGrows(ps: seq<Page>, base: nat, end: nat, attr: Attr)
    requires end <= TOP
    ensures |Assign(ps, base, end, attr)| >= |ps|
    ensures base < end && !Covers(ps, base) ==> |Assign(ps, base, end, attr)| > |ps|
    decreases |ps|
  {
    if base < end {
      hide Fill;
      if ps == [] {
        FillNonEmpty(base, end, attr);
      } else {
        var p := ps[0];
        AssignGrows(ps[1..], if base < p.End() then p.End() else base, end, attr);
        if base < p.base {
          FillNonEmpty(base, if end < p.base then end else p.base, attr);
        }
      }
    }
  }

  /** A second identical call creates no page if and only if the start is on a
      page boundary or mapped. */
  lemma AssignIdempotent(ps: seq<Page>, base: nat, end: nat, attr: Attr)
    requires base < end <= TOP && SpaceOk(ps)
    ensures var qs := Assign(ps, base, end, attr);
            Assign(qs, base, end, attr) == qs <==> StartOk(ps, base)
  {
    var qs := Assign(ps, base, end, attr);
    if StartOk(ps, base) {
      AssignCovers(ps, 0, base, end, attr, 0);
      AlignUpLeast(end);
      forall a | base <= a < end ensures Covers(qs, a) {
        AssignCovers(ps, 0, base, end, attr, a);
      }
      AssignCovered(qs, 0, base, end, attr);
    } else {
      AssignMissesStart(ps, base, end, attr, base);
      AssignGrows(qs, base, end, attr);
    }
  }

  // ----- The space invariant -----

  /** The pages made for the range end at or below every page above its start. */
  predicate RoomFor(ps: seq<Page>, base: nat, end: nat)
    requires base < end
  {
    forall i {:trigger ps[i]} :: 0 <= i < |ps| && base < ps[i].base ==>
      AlignUp(base) + AlignUp(end - base) <= ps[i].base
  }

  /** What is made for a hole, whatever its start: a tiling above it. */
  lemma FillFromAnywhere(lo: nat, hi: nat, attr: Attr)
    requires lo < hi <= TOP
    ensures var fill, from := Fill(lo, hi, attr), AlignUp(lo);
            && fill != [] && Ordered(fill, lo) && lo <= from && EndOf(fill, lo) == from + AlignUp(hi - lo) < LIMIT
  {
    hide Chain;
    AlignUpLeast(lo);
    AlignUpLeast(hi - lo);
    var fill, from := Fill(lo, hi, attr), AlignUp(lo);
    ChainTiles(from, AlignUp(hi - lo), attr, GRANULE_SHIFT);
    TilesCover(fill, from, from + AlignUp(hi - lo), lo);
    OrderedLower(fill, from, lo);
  }

  /** Rounding an odd start and an odd length overshoots the page behind the hole. */
  lemma OddHoleOvershoots(base: nat, hi: nat, end: nat)
    requires base < hi <= end <= TOP && Aligned(hi, GRANULE_SHIFT) && !Aligned(base, GRANULE_SHIFT)
    ensures AlignUp(base) + AlignUp(hi - base) > hi && AlignUp(hi - base) <= AlignUp(end - base)
  {
    AlignUpLeast(base);
    AlignUpLeast(hi - base);
    AlignUpLeast(end - base);
  }

  /** The hole in front of the first page, when the start is odd. */
  lemma OddGap(ps: seq<Page>, lo: nat, base: nat, end: nat, attr: Attr)
    requires base < end <= TOP && Ordered(ps, lo) && lo <= base && !Aligned(base, GRANULE_SHIFT)
    requires ps != [] && base < ps[0].base
    ensures Ordered(Assign(ps, base, end, attr), lo) <==> AlignUp(base) + AlignUp(end - base) <= ps[0].base
  {
    hide Fill, AlignUp, Aligned, Pow2;
    var p := ps[0];
    PageEndAligned(p);
    AlignUpLeast(base);
    AlignUpLeast(end - base);
    var hi := if end < p.base then end else p.base;
    if p.base <= end {
      OddHoleOvershoots(base, p.base, end);
    }
    FillFromAnywhere(base, hi, attr);
    var fill, rest := Fill(base, hi, attr), Assign(ps[1..], p.End(), end, attr);
    OrderedLower(fill, base, lo);
    OrderedConcat(fill, [p] + rest, lo);
    assert fill + ([p] + rest) == fill + [p] + rest && ([p] + rest)[1..] == rest;
  }

  /** The space stays sorted, disjoint and aligned if and only if the start is on a
      page boundary or mapped, or the fresh pages end below the next page. */
  lemma {:induction false} AssignKeepsSpace(ps: seq<Page>, lo: nat, base: nat, end: nat, attr: Attr)
    requires base < end <= TOP && Ordered(ps, lo) && lo <= base
    ensures Ordered(Assign(ps, base, end, attr), lo) <==> StartOk(ps, base) || RoomFor(ps, base, end)
    decreases |ps|
  {
    if StartOk(ps, base) {
      AssignCovers(ps, lo, base, end, attr, 0);
    } else if ps == [] {
      FillFromAnywhere(base, end, attr);
      OrderedLower(Fill(base, end, attr), base, lo);
    } else {
      var p := ps[0];
      if base < p.base {
        OddGap(ps, lo, base, end, attr);
        RoomBelowFirst(ps, lo, base, end);
      } else {
        AssignKeepsSpace(ps[1..], p.End(), base, end, attr);
        RoomBehind(ps, base, end);
        var rest := Assign(ps[1..], base, end, attr);
        assert ([p] + rest)[1..] == rest;
      }
    }
  }

  lemma RoomBelowFirst(ps: seq<Page>, lo: nat, base: nat, end: nat)
    requires base < end && ps != [] && Ordered(ps, lo) && base < ps[0].base
    ensures RoomFor(ps, base, end) <==> AlignUp(base) + AlignUp(end - base) <= ps[0].base
  {
    forall i {:trigger ps[i]} | 0 <= i < |ps| ensures ps[0].base <= ps[i].base {
      if i > 0 {
        OrderedPairs(ps, lo, 0, i);
      }
    }
  }

  lemma RoomBehind(ps: seq<Page>, base: nat, end: nat)
    requires base < end && ps != [] && ps[0].base <= base
    ensures RoomFor(ps, base, end) <==> RoomFor(ps[1..], base, end)
  {
    var rest := ps[1..];
    assert forall i {:trigger rest[i]} :: 0 <= i < |rest| ==> rest[i] == ps[i + 1];
    if RoomFor(rest, base, end) {
      forall i {:trigger ps[i]} | 0 <= i < |ps| && base < ps[i].base
        ensures AlignUp(base) + AlignUp(end - base) <= ps[i].base
      {
        assert ps[i] == rest[i - 1];
      }
    }
  }

  /** An odd start can put a page over the page behind it. */
  lemma AssignOverlaps(attr: Attr)
    ensures var ps := [Page(256, 8, attr)];
            SpaceOk(ps) && !SpaceOk(Assign(ps, 1, 300, attr))
  {
    var ps := [Page(256, 8, attr)];
    Pow2Is32();
    GranuleAligned(256);
    GranuleAligned(1);
    assert SpaceOk(ps);
    AssignKeepsSpace(ps, 0, 1, 300, attr);
    AlignUpLeast(1);
    AlignUpLeast(299);
    assert ps[0].base == 256;
  }

  /** Without a page boundary or a mapped start, the start stays unmapped. */
  lemma {:induction false} AssignMissesStart(ps: seq<Page>, base: nat, end: nat, attr: Attr, a: nat)
    requires end <= TOP && a <= base && (a < base || !Aligned(a, GRANULE_SHIFT)) && !Covers(ps, a)
    ensures !Covers(Assign(ps, base, end, attr), a)
    decreases |ps|
  {
    if base >= end {
    } else if ps == [] {
      FillAbove(base, end, attr, a);
    } else {
      var p := ps[0];
      var from := if base < p.End() then p.End() else base;
      var rest := Assign(ps[1..], from, end, attr);
      AssignMissesStart(ps[1..], from, end, attr, a);
      assert ([p] + rest)[1..] == rest;
      if base < p.base {
        var hi := if end < p.base then end else p.base;
        FillAbove(base, hi, attr, a);
        FrontMisses(Fill(base, hi, attr), p, rest, a);
      }
    }
  }

  lemma FrontMisses(fill: seq<Page>, p: Page, rest: seq<Page>, a: nat)
    requires !Covers(fill, a) && !Within(p, a) && !Covers(rest, a)
    ensures !Covers(fill + [p] + rest, a)
  {
    assert fill + [p] + rest == fill + ([p] + rest) && ([p] + rest)[1..] == rest;
    CoversConcat(fill, [p] + rest, a);
  }

  lemma FillAbove(lo: nat, hi: nat, attr: Attr, a: nat)
    requires lo < hi <= TOP && a <= lo && (a < lo || !Aligned(a, GRANULE_SHIFT))
    ensures !Covers(Fill(lo, hi, attr), a)
  {
    hide Chain;
    AlignUpLeast(lo);
    AlignUpLeast(hi - lo);
    ChainTiles(AlignUp(lo), AlignUp(hi - lo), attr, 0);
    TilesAbove(Fill(lo, hi, attr), AlignUp(lo), AlignUp(lo) + AlignUp(hi - lo), a);
  }

  lemma {:induction false} TilesAbove(c: seq<Page>, lo: nat, hi: nat, a: nat)
    requires Tiles(c, lo, hi) && a < lo
    ensures !Covers(c, a)
  {
    if c != [] {
      TilesAbove(c[1..], c[0].End(), hi, a);
    }
  }

  /** Exactly the old coverage and the rounded range, on every address, if and only
      if the start is on a page boundary or already mapped. */
  lemma AssignExact(ps: seq<Page>, base: nat, end: nat, attr: Attr)
    requires base < end <= TOP && SpaceOk(ps)
    ensures (forall a: nat :: Covers(Assign(ps, base, end, attr), a) <==> Covers(ps, a) || base <= a < AlignUp(end))
            <==> StartOk(ps, base)
  {
    if StartOk(ps, base) {
      forall a: nat
        ensures Covers(Assign(ps, base, end, attr), a) <==> Covers(ps, a) || base <= a < AlignUp(end)
      {
        AssignCovers(ps, 0, base, end, attr, a);
      }
    } else {
      AlignUpLeast(end);
      AssignMissesStart(ps, base, end, attr, base);
    }
  }

  // ----- The walk, page by page -----

  /** The outcome of the walk when it stands at address b before page i. */
  function WalkResult(ps: seq<Page>, i: nat, b: nat, end: nat, attr: Attr): seq<Page>
    requires i <= |ps| && end <= TOP
  {
    ps[..i] + Assign(ps[i..], b, end, attr)
  }

  lemma WalkStart(ps: seq<Page>, base: nat, end: nat, attr: Attr)
    requires end <= TOP
    ensures WalkResult(ps, 0, base, end, attr) == Assign(ps, base, end, attr)
  {
    assert ps[0..] == ps && ps[..0] == [];
  }

  /** Passing a page that does not start above b. */
  lemma WalkPage(ps: seq<Page>, i: nat, b: nat, end: nat, attr: Attr)
    requires i < |ps| && b < end <= TOP && ps[i].base <= b
    ensures WalkResult(ps, i + 1, if b < ps[i].End() then ps[i].End() else b, end, attr) ==
            WalkResult(ps, i, b, end, attr)
  {
    var from := if b < ps[i].End() then ps[i].End() else b;
    var tail := Assign(ps[i + 1..], from, end, attr);
    assert ps[i..][0] == ps[i] && ps[i..][1..] == ps[i + 1..];
    assert ps[..i + 1] == ps[..i] + [ps[i]];
    assert ps[..i] + ([ps[i]] + tail) == (ps[..i] + [ps[i]]) + tail;
  }

  /** Filling the hole before a page and passing the page. */
  lemma WalkHole(ps: seq<Page>, i: nat, b: nat, end: nat, attr: Attr, hi: nat, fill: seq<Page>)
    requires i < |ps| && b < end <= TOP && b < ps[i].base
    requires hi == (if end < ps[i].base then end else ps[i].base) && fill == Fill(b, hi, attr)
    ensures WalkResult(ps[..i] + fill + ps[i..], i + |fill| + 1, ps[i].End(), end, attr) ==
            WalkResult(ps, i, b, end, attr)
  {
    hide Fill;
    var qs := ps[..i] + fill + ps[i..];
    var tail := Assign(ps[i + 1..], ps[i].End(), end, attr);
    assert ps[i..][0] == ps[i] && ps[i..][1..] == ps[i + 1..];
    assert Assign(ps[i..], b, end, attr) == fill + [ps[i]] + tail;
    WalkHoleSlices(ps, i, fill);
    assert ps[..i] + (fill + [ps[i]] + tail) == (ps[..i] + fill + [ps[i]]) + tail;
  }

  lemma WalkHoleSlices(ps: seq<Page>, i: nat, fill: seq<Page>)
    requires i < |ps|
    ensures var qs := ps[..i] + fill + ps[i..];
            qs[..i + |fill| + 1] == ps[..i] + fill + [ps[i]] && qs[i + |fill| + 1..] == ps[i + 1..]
  {
  }

  lemma WalkEnd(ps: seq<Page>, i: nat, b: nat, end: nat, attr: Attr)
    requires i <= |ps| && end <= TOP && (b < end ==> i == |ps|)
    ensures WalkResult(ps, i, b, end, attr) == if b < end then ps + Fill(b, end, attr) else ps
  {
  }

  lemma FillNonEmpty(lo: nat, hi: nat, attr: Attr)
    requires lo < hi <= TOP
    ensures Fill(lo, hi, attr) != []
  {
    AlignUpLeast(lo);
    AlignUpLeast(hi - lo);
    ChainTiles(AlignUp(lo), AlignUp(hi - lo), attr, 0);
  }
}
