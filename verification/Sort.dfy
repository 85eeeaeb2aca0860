/** The in-place heapsort (kernel/lib/sort.c). */
module Sort {

  /** A comparison function in the manner of C, seen as the order it gives. */
  type Compare<!T> = (T, T) -> int

  predicate Leq<T>(cmp: Compare<T>, x: T, y: T) { cmp(x, y) <= 0 }

  /** Any two elements compare, consistently in both directions, and the order is
      transitive. Distinct elements may compare equal. */
  ghost predicate TotalPreorder<T(!new)>(cmp: Compare<T>) {
    && (forall x, y :: cmp(x, y) < 0 <==> cmp(y, x) > 0)
    && (forall x, y, z :: Leq(cmp, x, y) && Leq(cmp, y, z) ==> Leq(cmp, x, z))
  }

  predicate Sorted<T>(cmp: Compare<T>, s: seq<T>) {
    forall i, j :: 0 <= i < j < |s| ==> Leq(cmp, s[i], s[j])
  }

  function Parent(c: nat): nat
    requires c > 0
  {
    (c - 1) / 2
  }

  /** Child c is not above its parent. */
  predicate Under<T>(cmp: Compare<T>, s: seq<T>, c: nat)
    requires 0 < c < |s|
  {
    Leq(cmp, s[c], s[Parent(c)])
  }

  /** The heap order among the first n elements, for parents from lo on. */
  predicate Heap<T>(cmp: Compare<T>, s: seq<T>, lo: nat, n: nat)
    requires n <= |s|
  {
    forall c {:trigger Under(cmp, s, c)} :: 0 < c < n && lo <= Parent(c) ==> Under(cmp, s, c)
  }

  /** The same, but for the children of r; these are not above the parent of r. */
  predicate HeapBut<T>(cmp: Compare<T>, s: seq<T>, lo: nat, n: nat, r: nat)
    requires n <= |s|
  {
    && (forall c {:trigger Under(cmp, s, c)} :: 0 < c < n && lo <= Parent(c) && Parent(c) != r ==> Under(cmp, s, c))
    && (0 < r < n && lo <= Parent(r) ==>
          forall c {:trigger s[c]} :: 0 < c < n && Parent(c) == r ==> Leq(cmp, s[c], s[Parent(r)]))
  }

  /** The first n elements are rearranged, the others are as before. */
  ghost predicate Rearranged<T(!new)>(s: seq<T>, t: seq<T>, n: nat) {
    && |s| == |t| && n <= |s| && s[n..] == t[n..] && multiset(s[..n]) == multiset(t[..n])
  }

  method Swap<T(!new)>(a: array<T>, i: nat, j: nat, n: nat)
    requires i < n <= a.Length && j < n
    modifies a
    ensures a[..] == old(a[..])[i := old(a[j])][j := old(a[i])]
    ensures Rearranged(old(a[..]), a[..], n)
  {
    ghost var s := a[..];
    a[i], a[j] := a[j], a[i];
    SwapRearranges(s, a[..], i, j, n);
  }

  lemma SwapRearranges<T(!new)>(s: seq<T>, t: seq<T>, i: nat, j: nat, n: nat)
    requires i < n <= |s| && j < n && t == s[i := s[j]][j := s[i]]
    ensures Rearranged(s, t, n)
  {
    assert t[..n] == s[..n][i := s[..n][j]][j := s[..n][i]];
    assert t[n..] == s[n..];
  }

  lemma RearrangedTrans<T(!new)>(s: seq<T>, t: seq<T>, u: seq<T>, n: nat)
    requires Rearranged(s, t, n) && Rearranged(t, u, n)
    ensures Rearranged(s, u, n)
  {
  }

  /** The larger child of r. */
  predicate Larger<T>(cmp: Compare<T>, s: seq<T>, r: nat, n: nat, c: nat)
    requires n <= |s|
  {
    && 0 < c < n && Parent(c) == r
    && forall d {:trigger s[d]} :: 0 < d < n && Parent(d) == r ==> Leq(cmp, s[d], s[c])
  }

  /** One step down keeps the heap order everywhere but below the new place. */
  lemma SwapDown<T(!new)>(cmp: Compare<T>, s: seq<T>, lo: nat, n: nat, r: nat, c: nat)
    requires TotalPreorder(cmp) && n <= |s| && lo <= r && HeapBut(cmp, s, lo, n, r)
    requires Larger(cmp, s, r, n, c) && cmp(s[r], s[c]) < 0
    ensures HeapBut(cmp, s[r := s[c]][c := s[r]], lo, n, c)
  {
    var t := s[r := s[c]][c := s[r]];
    forall d {:trigger Under(cmp, t, d)} | 0 < d < n && lo <= Parent(d) && Parent(d) != c ensures Under(cmp, t, d) {
      if Parent(d) == r {
        assert Leq(cmp, s[d], s[c]);
      } else {
        assert Under(cmp, s, d);
        if d == r {
          assert Leq(cmp, s[c], s[Parent(r)]);
        }
      }
    }
    forall d {:trigger t[d]} | 0 < d < n && Parent(d) == c ensures Leq(cmp, t[d], t[Parent(c)]) {
      assert Under(cmp, s, d);
    }
  }

  /** At the end of the way down the heap order is complete. */
  lemma SettledHeap<T(!new)>(cmp: Compare<T>, s: seq<T>, lo: nat, n: nat, r: nat)
    requires TotalPreorder(cmp) && n <= |s| && lo <= r && HeapBut(cmp, s, lo, n, r)
    requires forall c {:trigger s[c]} :: 0 < c < n && Parent(c) == r ==> Leq(cmp, s[c], s[r])
    ensures Heap(cmp, s, lo, n)
  {
  }

  /** The larger of the one or two children of r. */
  method LargerChild<T(!new)>(a: array<T>, cmp: Compare<T>, r: nat, n: nat) returns (c: nat)
    requires TotalPreorder(cmp) && n <= a.Length && r * 2 + 1 < n
    ensures Larger(cmp, a[..], r, n, c)
  {
    c := r * 2 + 1;
    assert cmp(a[c], a[c]) <= 0;
    if c < n - 1 && cmp(a[c], a[c + 1]) < 0 {
      c := c + 1;
      assert cmp(a[c], a[c]) <= 0;
    }
  }

  /** The inner loop of both phases. */
  method SiftDown<T(!new)>(a: array<T>, cmp: Compare<T>, start: nat, n: nat)
    requires TotalPreorder(cmp) && start < n <= a.Length && HeapBut(cmp, a[..], start, n, start)
    modifies a
    ensures Heap(cmp, a[..], start, n) && Rearranged(old(a[..]), a[..], n)
  {
    ghost var s := a[..];
    var r := start;
    while r * 2 + 1 < n
      invariant start <= r < n && HeapBut(cmp, a[..], start, n, r) && Rearranged(s, a[..], n)
      decreases n - r
    {
      var c := LargerChild(a, cmp, r, n);
      ghost var t := a[..];
      if cmp(a[r], a[c]) >= 0 {
        AboveChildren(cmp, t, r, n, c);
        SettledHeap(cmp, t, start, n, r);
        return;
      }
      SwapDown(cmp, t, start, n, r, c);
      Swap(a, r, c, n);
      RearrangedTrans(s, t, a[..], n);
      r := c;
    }
    SettledHeap(cmp, a[..], start, n, r);
  }

  lemma AboveChildren<T(!new)>(cmp: Compare<T>, s: seq<T>, r: nat, n: nat, c: nat)
    requires TotalPreorder(cmp) && n <= |s| && r < n && Larger(cmp, s, r, n, c) && cmp(s[r], s[c]) >= 0
    ensures forall d {:trigger s[d]} :: 0 < d < n && Parent(d) == r ==> Leq(cmp, s[d], s[r])
  {
    assert Leq(cmp, s[c], s[r]);
  }

  /** The root of a heap is a greatest element. */
  lemma {:induction false} RootGreatest<T(!new)>(cmp: Compare<T>, s: seq<T>, n: nat, k: nat)
    requires TotalPreorder(cmp) && n <= |s| && Heap(cmp, s, 0, n) && k < n
    ensures Leq(cmp, s[k], s[0])
  {
    if k == 0 {
      assert cmp(s[0], s[0]) <= 0;
    } else {
      RootGreatest(cmp, s, n, Parent(k));
      assert Under(cmp, s, k);
    }
  }

  /** Everything before index i is not above anything from i on, which is sorted. */
  predicate Split<T>(cmp: Compare<T>, s: seq<T>, i: nat)
    requires i <= |s|
  {
    && Sorted(cmp, s[i..])
    && forall p, q :: 0 <= p < i <= q < |s| ==> Leq(cmp, s[p], s[q])
  }

  lemma MemberOfPrefix<T(!new)>(s: seq<T>, t: seq<T>, n: nat, p: nat) returns (q: nat)
    requires Rearranged(s, t, n) && p < n
    ensures q < n && s[q] == t[p]
  {
    assert t[..n][p] in multiset(t[..n]);
    assert t[p] in s[..n];
    q :| 0 <= q < n && s[..n][q] == t[p];
  }

  /** Rearranging the front keeps the split. */
  lemma SplitKept<T(!new)>(cmp: Compare<T>, s: seq<T>, t: seq<T>, i: nat)
    requires i <= |s| && Split(cmp, s, i) && Rearranged(s, t, i)
    ensures Split(cmp, t, i)
  {
    forall p, q | 0 <= p < i <= q < |t| ensures Leq(cmp, t[p], t[q]) {
      var k := MemberOfPrefix(s, t, i, p);
      assert t[q] == t[i..][q - i] == s[i..][q - i] == s[q];
    }
  }

  /** The root of the heap moves to its final place. */
  lemma ExtractRoot<T(!new)>(cmp: Compare<T>, s: seq<T>, i: nat)
    requires TotalPreorder(cmp) && 0 < i < |s| && Heap(cmp, s, 0, i + 1) && Split(cmp, s, i + 1)
    ensures var t := s[0 := s[i]][i := s[0]];
            Split(cmp, t, i) && HeapBut(cmp, t, 0, i, 0)
  {
    var t := s[0 := s[i]][i := s[0]];
    forall p, q | 0 <= p < i <= q < |t| ensures Leq(cmp, t[p], t[q]) {
      RootGreatest(cmp, s, i + 1, if p == 0 then i else p);
      if q > i {
        assert Leq(cmp, s[if p == 0 then i else p], s[q]);
      }
    }
    SuffixSorted(cmp, s, t, i);
    forall c {:trigger Under(cmp, t, c)} | 0 < c < i && Parent(c) != 0 ensures Under(cmp, t, c) {
      assert Under(cmp, s, c);
    }
  }

  lemma SuffixSorted<T(!new)>(cmp: Compare<T>, s: seq<T>, t: seq<T>, i: nat)
    requires 0 < i < |s| && Split(cmp, s, i + 1) && t == s[0 := s[i]][i := s[0]]
    ensures Sorted(cmp, t[i..])
  {
    var u, v := s[i + 1..], t[i..];
    assert forall j {:trigger v[j]} :: 0 < j < |v| ==> v[j] == u[j - 1] == s[i + j];
    forall j, k | 0 <= j < k < |v| ensures Leq(cmp, v[j], v[k]) {
      if j == 0 {
        assert Leq(cmp, s[0], s[i + k]);
      } else {
        assert Leq(cmp, u[j - 1], u[k - 1]);
      }
    }
  }

  /** The first phase: the whole array becomes a heap. */
  method BuildHeap<T(!new)>(a: array<T>, cmp: Compare<T>)
    requires TotalPreorder(cmp)
    modifies a
    ensures Heap(cmp, a[..], 0, a.Length) && Rearranged(old(a[..]), a[..], a.Length)
  {
    ghost var s := a[..];
    var n := a.Length;
    var i := n / 2 - 1;
    while i >= 0
      invariant -1 <= i < n && Heap(cmp, a[..], i + 1, n) && Rearranged(s, a[..], n)
    {
      ghost var t := a[..];
      assert HeapBut(cmp, t, i, n, i);
      SiftDown(a, cmp, i, n);
      RearrangedTrans(s, t, a[..], n);
      i := i - 1;
    }
  }

  lemma Widen<T(!new)>(s: seq<T>, t: seq<T>, i: nat, n: nat)
    requires Rearranged(s, t, i) && i <= n <= |s|
    ensures Rearranged(s, t, n)
  {
    assert s[..n] == s[..i] + s[i..][..n - i] && t[..n] == t[..i] + t[i..][..n - i];
    assert s[n..] == s[i..][n - i..] && t[n..] == t[i..][n - i..];
  }

  /** One turn of the second phase. */
  method MoveRoot<T(!new)>(a: array<T>, cmp: Compare<T>, i: nat)
    requires TotalPreorder(cmp) && 0 < i < a.Length && Heap(cmp, a[..], 0, i + 1) && Split(cmp, a[..], i + 1)
    modifies a
    ensures Heap(cmp, a[..], 0, i) && Split(cmp, a[..], i) && Rearranged(old(a[..]), a[..], a.Length)
  {
    ghost var s := a[..];
    ExtractRoot(cmp, s, i);
    Swap(a, 0, i, a.Length);
    ghost var t := a[..];
    SiftDown(a, cmp, 0, i);
    SplitKept(cmp, t, a[..], i);
    Widen(t, a[..], i, a.Length);
    RearrangedTrans(s, t, a[..], a.Length);
  }

  /** sort: ordered, and a permutation of the input, for every length. */
  method HeapSort<T(!new)>(a: array<T>, cmp: Compare<T>)
    requires TotalPreorder(cmp)
    modifies a
    ensures Sorted(cmp, a[..]) && multiset(a[..]) == multiset(old(a[..]))
  {
    ghost var s := a[..];
    BuildHeap(a, cmp);
    var i := a.Length - 1;
    while i > 0
      invariant -1 <= i < a.Length && (i == -1 ==> a.Length == 0)
      invariant Rearranged(s, a[..], a.Length)
      invariant Heap(cmp, a[..], 0, i + 1) && Split(cmp, a[..], i + 1)
    {
      ghost var t := a[..];
      MoveRoot(a, cmp, i);
      RearrangedTrans(s, t, a[..], a.Length);
      i := i - 1;
    }
    WholeSorted(cmp, a[..]);
    assert s[..a.Length] == s && a[..][..a.Length] == a[..];
  }

  lemma WholeSorted<T(!new)>(cmp: Compare<T>, s: seq<T>)
    requires |s| > 0 ==> Split(cmp, s, 1)
    ensures Sorted(cmp, s)
  {
    forall i, j | 0 <= i < j < |s| ensures Leq(cmp, s[i], s[j]) {
      if i > 0 {
        var u := s[1..];
        assert Leq(cmp, u[i - 1], u[j - 1]);
      }
    }
  }
}
