/** The word-shifting memcpy, little-endian path (kernel/lib/memcpy.c). Addresses
    are indices of one byte array. */
module Memcpy {
  import opened Bits

  type Byte = x: int | 0 <= x < 256

  // ----- 32-bit words -----

  /** A word by its bytes, lowest first. */
  datatype Word = Word(b0: Byte, b1: Byte, b2: Byte, b3: Byte)

  function Value(w: Word): nat { w.b0 + 0x100 * w.b1 + 0x1_0000 * w.b2 + 0x100_0000 * w.b3 }

  /** w >> 8 * q. */
  function ShiftRight(w: Word, q: nat): Word
    requires 1 <= q <= 3
  {
    if q == 1 then Word(w.b1, w.b2, w.b3, 0) else if q == 2 then Word(w.b2, w.b3, 0, 0) else Word(w.b3, 0, 0, 0)
  }

  /** w << 8 * q, in 32 bits. */
  function ShiftLeft(w: Word, q: nat): Word
    requires 1 <= q <= 3
  {
    if q == 1 then Word(0, w.b0, w.b1, w.b2) else if q == 2 then Word(0, 0, w.b0, w.b1) else Word(0, 0, 0, w.b0)
  }

  /** v | w of words that have no byte in common. */
  function Or(v: Word, w: Word): Word
    requires (v.b0 == 0 || w.b0 == 0) && (v.b1 == 0 || w.b1 == 0) && (v.b2 == 0 || w.b2 == 0) &&
             (v.b3 == 0 || w.b3 == 0)
  {
    Word(v.b0 + w.b0, v.b1 + w.b1, v.b2 + w.b2, v.b3 + w.b3)
  }

  /** 2 to the 8 * q. */
  function Scale(q: nat): (r: nat)
    requires 1 <= q <= 3
  {
    if q == 1 then 0x100 else if q == 2 then 0x1_0000 else 0x100_0000
  }

  lemma Quotient(low: nat, high: nat, m: nat)
    requires low < m
    ensures (low + m * high) / m == high && (low + m * high) % m == low
  {
    var x := low + m * high;
    var k := x / m;
    if k < high {
      NextMultiple(m, k, high);
      assert false;
    } else if high < k {
      NextMultiple(m, high, k);
      assert false;
    }
  }

  lemma ShiftRightValue(w: Word, q: nat)
    requires 1 <= q <= 3
    ensures Value(ShiftRight(w, q)) == Value(w) / Scale(q)
  {
    if q == 1 {
      Quotient(w.b0, w.b1 + 0x100 * w.b2 + 0x1_0000 * w.b3, 0x100);
    } else if q == 2 {
      Quotient(w.b0 + 0x100 * w.b1, w.b2 + 0x100 * w.b3, 0x1_0000);
    } else {
      Quotient(w.b0 + 0x100 * w.b1 + 0x1_0000 * w.b2, w.b3, 0x100_0000);
    }
  }

  lemma ShiftLeftValue(w: Word, q: nat)
    requires 1 <= q <= 3
    ensures Value(ShiftLeft(w, q)) == Value(w) * Scale(q) % 0x1_0000_0000
  {
    var low := Value(ShiftLeft(w, q));
    var high := if q == 1 then w.b3 else if q == 2 then w.b2 + 0x100 * w.b3 else w.b1 + 0x100 * w.b2 + 0x1_0000 * w.b3;
    assert Value(w) * Scale(q) == low + 0x1_0000_0000 * high;
    hide Value, ShiftLeft, Scale;
    Quotient(low, high, 0x1_0000_0000);
  }

  /** The byte operations are the arithmetic of 32-bit words: the merge is
      (w >> 8q) | (x << 32 - 8q), whose two parts share no bit. */
  lemma MergeValue(w: Word, x: Word, q: nat)
    requires 1 <= q <= 3
    ensures Value(Or(ShiftRight(w, q), ShiftLeft(x, 4 - q))) ==
            Value(w) / Scale(q) + Value(x) * Scale(4 - q) % 0x1_0000_0000
  {
    ShiftRightValue(w, q);
    ShiftLeftValue(x, 4 - q);
  }

  function WordAt(m: seq<Byte>, p: nat): Word
    requires p + 4 <= |m|
  {
    Word(m[p], m[p + 1], m[p + 2], m[p + 3])
  }

  /** The merge of two neighbouring words is the word in between. */
  lemma MergedWord(m: seq<Byte>, p: nat, q: nat)
    requires 1 <= q <= 3 && p + 8 <= |m|
    ensures Or(ShiftRight(WordAt(m, p), q), ShiftLeft(WordAt(m, p + 4), 4 - q)) == WordAt(m, p + q)
  {
  }

  // ----- Progress of the copy -----

  /** The first i bytes have arrived, and nothing else has changed. */
  predicate Done(m0: seq<Byte>, m: seq<Byte>, d: nat, s: nat, i: nat)
    requires s + i <= |m0|
  {
    && |m| == |m0| && d + i <= |m|
    && (forall p {:trigger m[p]} :: d <= p < d + i ==> m[p] == m0[s + (p - d)])
    && (forall p {:trigger m[p]} :: 0 <= p < |m| && !(d <= p < d + i) ==> m[p] == m0[p])
  }

  /** The buffers lie in memory and do not overlap. */
  predicate Buffers(size: nat, d: nat, s: nat, n: nat) {
    d + n <= size && s + n <= size && (d + n <= s || s + n <= d)
  }

  /** One byte. */
  method CopyByte(mem: array<Byte>, ghost m0: seq<Byte>, d: nat, s: nat, n: nat, i: nat)
    requires Buffers(mem.Length, d, s, n) && |m0| == mem.Length && i < n && Done(m0, mem[..], d, s, i)
    modifies mem
    ensures Done(m0, mem[..], d, s, i + 1)
  {
    assert mem[..][s + i] == m0[s + i];
    mem[d + i] := mem[s + i];
  }

  /** k bytes in a row. */
  method CopyBytes(mem: array<Byte>, ghost m0: seq<Byte>, d: nat, s: nat, n: nat, i: nat, k: nat)
    requires Buffers(mem.Length, d, s, n) && |m0| == mem.Length && i + k <= n && Done(m0, mem[..], d, s, i)
    modifies mem
    ensures Done(m0, mem[..], d, s, i + k)
  {
    for j := 0 to k
      invariant Done(m0, mem[..], d, s, i + j)
    {
      CopyByte(mem, m0, d, s, n, i + j);
    }
  }

  /** An address at which a word may be loaded or stored. */
  predicate WordAligned(p: nat) { p % 4 == 0 }

  lemma WordAlignedAdd(p: nat, k: nat)
    ensures WordAligned(p + 4 * k) <==> WordAligned(p)
  {
  }

  /** An aligned load inside the source buffer. */
  method LoadWord(mem: array<Byte>, ghost m0: seq<Byte>, ghost d: nat, ghost s: nat, ghost n: nat, ghost i: nat,
                  p: nat)
    returns (w: Word)
    requires Buffers(mem.Length, d, s, n) && |m0| == mem.Length && i <= n && Done(m0, mem[..], d, s, i)
    requires s <= p && p + 4 <= s + n && WordAligned(p)
    ensures w == WordAt(m0, p)
  {
    ghost var m := mem[..];
    assert m[p] == m0[p] && m[p + 1] == m0[p + 1] && m[p + 2] == m0[p + 2] && m[p + 3] == m0[p + 3];
    w := Word(mem[p], mem[p + 1], mem[p + 2], mem[p + 3]);
  }

  /** An aligned store of the next four bytes of the source. */
  method StoreWord(mem: array<Byte>, ghost m0: seq<Byte>, d: nat, ghost s: nat, ghost n: nat, i: nat, w: Word)
    requires Buffers(mem.Length, d, s, n) && |m0| == mem.Length && i + 4 <= n && Done(m0, mem[..], d, s, i)
    requires WordAligned(d + i) && w == WordAt(m0, s + i)
    modifies mem
    ensures Done(m0, mem[..], d, s, i + 4)
  {
    mem[d + i], mem[d + i + 1], mem[d + i + 2], mem[d + i + 3] := w.b0, w.b1, w.b2, w.b3;
  }

  // ----- The aligned path -----

  /** k words. */
  method CopyWords(mem: array<Byte>, ghost m0: seq<Byte>, d: nat, s: nat, n: nat, i: nat, k: nat)
    requires Buffers(mem.Length, d, s, n) && |m0| == mem.Length && i + 4 * k <= n && Done(m0, mem[..], d, s, i)
    requires WordAligned(d + i) && WordAligned(s + i)
    modifies mem
    ensures Done(m0, mem[..], d, s, i + 4 * k)
  {
    hide Done, WordAligned;
    for j := 0 to k
      invariant Done(m0, mem[..], d, s, i + 4 * j)
    {
      WordAlignedAdd(d + i, j);
      WordAlignedAdd(s + i, j);
      var w := LoadWord(mem, m0, d, s, n, i + 4 * j, s + i + 4 * j);
      StoreWord(mem, m0, d, s, n, i + 4 * j, w);
    }
  }

  /** n & 2^k. */
  predicate Bit(n: nat, power: nat)
    requires power > 0
  {
    n / power % 2 == 1
  }

  function BitPart(n: nat, power: nat): nat
    requires power > 0
  {
    if Bit(n, power) then power else 0
  }

  lemma LowBits(n: nat)
    ensures n < 16 ==> n == BitPart(n, 8) + BitPart(n, 4) + BitPart(n, 2) + BitPart(n, 1)
    ensures n < 32 ==> n == BitPart(n, 16) + BitPart(n, 8) + BitPart(n, 4) + BitPart(n, 2) + BitPart(n, 1)
  {
  }

  /** The bit-tested end of the aligned path. */
  method AlignedTail(mem: array<Byte>, ghost m0: seq<Byte>, d: nat, s: nat, n: nat, start: nat)
    requires Buffers(mem.Length, d, s, n) && |m0| == mem.Length && start <= n < start + 16 &&
             Done(m0, mem[..], d, s, start)
    requires WordAligned(d + start) && (start < n ==> WordAligned(s + start))
    modifies mem
    ensures Done(m0, mem[..], d, s, n)
  {
    hide Done, Bit, WordAligned;
    var i, left := start, n - start;
    LowBits(left);
    if Bit(left, 8) {
      CopyWords(mem, m0, d, s, n, i, 2);
      WordAlignedAdd(d + i, 2);
      WordAlignedAdd(s + i, 2);
      i := i + 8;
    }
    if Bit(left, 4) {
      CopyWords(mem, m0, d, s, n, i, 1);
      i := i + 4;
    }
    if Bit(left, 2) {
      CopyBytes(mem, m0, d, s, n, i, 2);
      i := i + 2;
    }
    if Bit(left, 1) {
      CopyBytes(mem, m0, d, s, n, i, 1);
    }
  }

  method AlignedPath(mem: array<Byte>, ghost m0: seq<Byte>, d: nat, s: nat, n: nat, start: nat)
    requires Buffers(mem.Length, d, s, n) && |m0| == mem.Length && start <= n && Done(m0, mem[..], d, s, start)
    requires WordAligned(d + start) && (start < n ==> WordAligned(s + start))
    modifies mem
    ensures Done(m0, mem[..], d, s, n)
  {
    hide Done, WordAligned;
    var i := start;
    while n - i >= 16
      invariant start <= i <= n && Done(m0, mem[..], d, s, i)
      invariant WordAligned(d + i) && (i < n ==> WordAligned(s + i))
    {
      CopyWords(mem, m0, d, s, n, i, 4);
      WordAlignedAdd(d + i, 4);
      WordAlignedAdd(s + i, 4);
      i := i + 16;
    }
    AlignedTail(mem, m0, d, s, n, i);
  }

  // ----- The shifted path -----

  /** One merged word: q bytes of w have been used, the next word gives the rest. */
  method MergeWord(mem: array<Byte>, ghost m0: seq<Byte>, d: nat, s: nat, n: nat, i: nat, q: nat, w: Word)
    returns (x: Word)
    requires Buffers(mem.Length, d, s, n) && |m0| == mem.Length && 1 <= q <= 3 && q <= i && i + 8 - q <= n
    requires Done(m0, mem[..], d, s, i) && WordAligned(d + i) && WordAligned(s + i - q)
    requires w == WordAt(m0, s + i - q)
    modifies mem
    ensures Done(m0, mem[..], d, s, i + 4) && x == WordAt(m0, s + i + 4 - q)
  {
    WordAlignedAdd(s + i - q, 1);
    x := LoadWord(mem, m0, d, s, n, i, s + i + 4 - q);
    MergedWord(m0, s + i - q, q);
    StoreWord(mem, m0, d, s, n, i, Or(ShiftRight(w, q), ShiftLeft(x, 4 - q)));
  }

  /** Four merged words. */
  method MergeBlock(mem: array<Byte>, ghost m0: seq<Byte>, d: nat, s: nat, n: nat, i: nat, q: nat, v: Word)
    returns (w: Word)
    requires Buffers(mem.Length, d, s, n) && |m0| == mem.Length && 1 <= q <= 3 && q <= i && i + 20 - q <= n
    requires Done(m0, mem[..], d, s, i) && WordAligned(d + i) && WordAligned(s + i - q)
    requires v == WordAt(m0, s + i - q)
    modifies mem
    ensures Done(m0, mem[..], d, s, i + 16) && w == WordAt(m0, s + i + 16 - q)
  {
    hide Done, WordAt, WordAligned;
    WordAlignedAdd(d + i, 1);
    WordAlignedAdd(d + i, 2);
    WordAlignedAdd(d + i, 3);
    WordAlignedAdd(s + i - q, 1);
    WordAlignedAdd(s + i - q, 2);
    WordAlignedAdd(s + i - q, 3);
    var x := MergeWord(mem, m0, d, s, n, i, q, v);
    w := MergeWord(mem, m0, d, s, n, i + 4, q, x);
    x := MergeWord(mem, m0, d, s, n, i + 8, q, w);
    w := MergeWord(mem, m0, d, s, n, i + 12, q, x);
  }

  /** The three shift cases: d is 4 - q bytes past a word boundary. */
  method ShiftedPath(mem: array<Byte>, ghost m0: seq<Byte>, d: nat, s: nat, n: nat, start: nat) returns (i: nat)
    requires Buffers(mem.Length, d, s, n) && |m0| == mem.Length && start + 32 <= n && Done(m0, mem[..], d, s, start)
    requires (d + start) % 4 != 0 && WordAligned(s + start)
    modifies mem
    ensures start <= i <= n < i + 32 && Done(m0, mem[..], d, s, i)
  {
    var q := 4 - (d + start) % 4;
    assert WordAligned(d + start + q);
    hide Done, WordAt, WordAligned;
    var w := LoadWord(mem, m0, d, s, n, start, s + start);
    CopyBytes(mem, m0, d, s, n, start, q);
    i := start + q;
    while n - i >= 20 - q
      invariant start + q <= i <= n && Done(m0, mem[..], d, s, i)
      invariant WordAligned(d + i) && WordAligned(s + i - q) && s + i - q + 4 <= |m0| && w == WordAt(m0, s + i - q)
    {
      w := MergeBlock(mem, m0, d, s, n, i, q, w);
      WordAlignedAdd(d + i, 4);
      WordAlignedAdd(s + i - q, 4);
      i := i + 16;
    }
  }

  /** The byte tail. */
  method Tail(mem: array<Byte>, ghost m0: seq<Byte>, d: nat, s: nat, n: nat, start: nat)
    requires Buffers(mem.Length, d, s, n) && |m0| == mem.Length && start <= n < start + 32 &&
             Done(m0, mem[..], d, s, start)
    modifies mem
    ensures Done(m0, mem[..], d, s, n)
  {
    hide Done, Bit;
    var i, left := start, n - start;
    LowBits(left);
    if Bit(left, 16) {
      CopyBytes(mem, m0, d, s, n, i, 16);
      i := i + 16;
    }
    if Bit(left, 8) {
      CopyBytes(mem, m0, d, s, n, i, 8);
      i := i + 8;
    }
    if Bit(left, 4) {
      CopyBytes(mem, m0, d, s, n, i, 4);
      i := i + 4;
    }
    if Bit(left, 2) {
      CopyBytes(mem, m0, d, s, n, i, 2);
      i := i + 2;
    }
    if Bit(left, 1) {
      CopyBytes(mem, m0, d, s, n, i, 1);
    }
  }

  /** memcpy: exactly the n bytes of the destination change, into those of the
      source. */
  method Copy(mem: array<Byte>, dest: nat, src: nat, n: nat) returns (r: nat)
    requires Buffers(mem.Length, dest, src, n)
    modifies mem
    ensures r == dest && mem[dest..dest + n] == old(mem[src..src + n])
    ensures forall p :: 0 <= p < mem.Length && !(dest <= p < dest + n) ==> mem[p] == old(mem[p])
  {
    ghost var m0 := mem[..];
    var i := 0;
    while (src + i) % 4 != 0 && i < n
      invariant i <= n && Done(m0, mem[..], dest, src, i)
      decreases n - i
    {
      CopyByte(mem, m0, dest, src, n, i);
      i := i + 1;
    }
    if (dest + i) % 4 == 0 {
      AlignedPath(mem, m0, dest, src, n, i);
    } else {
      if n - i >= 32 {
        i := ShiftedPath(mem, m0, dest, src, n, i);
      }
      Tail(mem, m0, dest, src, n, i);
    }
    DoneMeans(m0, mem[..], dest, src, n);
    return dest;
  }

  lemma DoneMeans(m0: seq<Byte>, m: seq<Byte>, d: nat, s: nat, n: nat)
    requires s + n <= |m0| && Done(m0, m, d, s, n)
    ensures m[d..d + n] == m0[s..s + n]
    ensures forall p :: 0 <= p < |m| && !(d <= p < d + n) ==> m[p] == m0[p]
  {
    var a, b := m[d..d + n], m0[s..s + n];
    forall j | 0 <= j < n ensures a[j] == b[j] {
      assert m[d + j] == m0[s + j];
    }
  }
}
