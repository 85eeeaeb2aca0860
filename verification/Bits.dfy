/** Powers of two, alignment and trailing zeros of natural numbers. */
module Bits {
  const LIMIT: nat := 0x1_0000_0000

  function Pow2(n: nat): (p: nat)
    ensures p > 0
  {
    if n == 0 then 1 else 2 * Pow2(n - 1)
  }

  /** a is a multiple of two to the k: its k low bits are zero. */
  predicate Aligned(a: nat, k: nat) {
    k == 0 || (a % 2 == 0 && Aligned(a / 2, k - 1))
  }

  /** The number of trailing zero bits. */
  function Tz(a: nat): nat
    requires a > 0
  {
    if a % 2 == 1 then 0 else 1 + Tz(a / 2)
  }

  lemma {:induction false} AlignedIsMultiple(a: nat, k: nat)
    ensures Aligned(a, k) <==> a % Pow2(k) == 0
  {
    if k > 0 {
      var m := Pow2(k - 1);
      AlignedIsMultiple(a / 2, k - 1);
      if a % (2 * m) == 0 {
        HalfOfMultiple(a, m);
      }
      if a % 2 == 0 && a / 2 % m == 0 {
        TwiceMultiple(a / 2, m);
      }
    }
  }

  lemma HalfOfMultiple(a: nat, m: nat)
    requires m > 0 && a % (2 * m) == 0
    ensures a % 2 == 0 && a / 2 % m == 0
  {
    var q := a / (2 * m);
    assert a == (2 * m) * q == 2 * (m * q);
    MultipleMod(m, q);
  }

  lemma TwiceMultiple(h: nat, m: nat)
    requires m > 0 && h % m == 0
    ensures 2 * h % (2 * m) == 0
  {
    var q := h / m;
    assert 2 * h == 2 * (m * q) == (2 * m) * q;
    MultipleMod(2 * m, q);
  }

  lemma MultipleMod(m: nat, q: nat)
    requires m > 0
    ensures (m * q) % m == 0
  {
    var x := m * q;
    QuotientOf(m, q, x / m, x % m);
  }

  /** A remainder below m of a multiple of m is zero. */
  lemma QuotientOf(m: nat, q: nat, d: nat, r: nat)
    requires r < m && m * q == m * d + r
    ensures d == q && r == 0
  {
    if d < q {
      NextMultiple(m, d, q);
      assert false;
    } else if q < d {
      NextMultiple(m, q, d);
      assert false;
    }
  }

  lemma {:induction false} NextMultiple(m: nat, a: nat, b: nat)
    requires a < b
    ensures m * a + m <= m * b
  {
    if a + 1 < b {
      NextMultiple(m, a, b - 1);
    }
  }

  lemma {:induction false} Pow2Order(j: nat, k: nat)
    ensures j < k <==> Pow2(j) < Pow2(k)
  {
    if j > 0 && k > 0 {
      Pow2Order(j - 1, k - 1);
    }
  }

  lemma Pow2Is32()
    ensures Pow2(5) == 32 && Pow2(8) == 256 && Pow2(31) == 0x8000_0000 && Pow2(32) == LIMIT
  {
    assert Pow2(4) == 16;
    assert Pow2(8) == 256;
    assert Pow2(16) == 65536;
    assert Pow2(24) == 0x100_0000;
  }

  lemma {:induction false} Pow2Aligned(n: nat, k: nat)
    ensures Aligned(Pow2(n), k) <==> k <= n
    ensures Aligned(0, k)
    ensures Tz(Pow2(n)) == n
  {
    if k > 0 {
      if n > 0 {
        Pow2Aligned(n - 1, k - 1);
      } else {
        Pow2Aligned(0, k - 1);
      }
    } else if n > 0 {
      Pow2Aligned(n - 1, 0);
    }
  }

  lemma {:induction false} AlignedSum(a: nat, b: nat, k: nat)
    requires Aligned(b, k)
    ensures Aligned(a + b, k) <==> Aligned(a, k)
    ensures b <= a ==> (Aligned(a - b, k) <==> Aligned(a, k))
  {
    if k > 0 {
      assert (a + b) / 2 == a / 2 + b / 2;
      AlignedSum(a / 2, b / 2, k - 1);
      if b <= a {
        assert (a - b) % 2 == a % 2;
        assert (a - b) / 2 == a / 2 - b / 2;
      }
    }
  }

  lemma {:induction false} AlignedTz(a: nat, k: nat)
    requires a > 0
    ensures Aligned(a, k) <==> k <= Tz(a)
    ensures Aligned(a, k) ==> a >= Pow2(k)
  {
    if k > 0 && a % 2 == 0 {
      AlignedTz(a / 2, k - 1);
    }
  }

  lemma {:induction false} AlignedDown(a: nat, j: nat, k: nat)
    requires j <= k && Aligned(a, k)
    ensures Aligned(a, j)
  {
    if j > 0 {
      AlignedDown(a / 2, j - 1, k - 1);
    }
  }

  /** Distinct multiples of two to the k are at least that far apart. */
  lemma AlignedGap(a: nat, b: nat, k: nat)
    requires Aligned(a, k) && Aligned(b, k) && a < b
    ensures a + Pow2(k) <= b
  {
    AlignedSum(b, a, k);
    AlignedTz(b - a, k);
  }

  /** Adding a lower power than any in a sets the lowest bit to it. */
  lemma TzOfSum(a: nat, s: nat)
    requires Aligned(a, s + 1)
    ensures Tz(a + Pow2(s)) == s
  {
    AlignedDown(a, s, s + 1);
    Pow2Aligned(s, s);
    Pow2Aligned(s, s + 1);
    AlignedSum(a, Pow2(s), s);
    AlignedSum(Pow2(s), a, s + 1);
    AlignedTz(a + Pow2(s), s);
    AlignedTz(a + Pow2(s), s + 1);
  }

  /** Adding its own lowest bit to a number clears that bit. */
  lemma {:induction false} TzGrows(a: nat)
    requires a > 0
    ensures Tz(a + Pow2(Tz(a))) > Tz(a)
  {
    if a % 2 == 0 {
      TzGrows(a / 2);
      var t := Tz(a / 2);
      assert (a + 2 * Pow2(t)) / 2 == a / 2 + Pow2(t);
    }
  }

  // ----- fp_addr_log2 -----

  /** What fp_addr_log2 computes: trailing zeros, and 31 for zero. */
  function AddrLog2(a: nat): nat {
    if a == 0 then 31 else Tz(a)
  }

  lemma TzBound(a: nat)
    requires 0 < a < LIMIT
    ensures Tz(a) <= 31
  {
    Pow2Is32();
    AlignedTz(a, Tz(a));
    Pow2Order(Tz(a), 32);
  }

  lemma WrappedDouble(a: nat)
    requires a < LIMIT
    ensures 2 * a % LIMIT == if 2 * a < LIMIT then 2 * a else 2 * a - LIMIT
  {
  }

  /** Taking away a higher power of two leaves the lowest bit alone. */
  lemma TzOfDifference(a: nat, n: nat)
    requires a > Pow2(n) && Tz(a) < n
    ensures Tz(a - Pow2(n)) == Tz(a)
  {
    var t, b := Tz(a), a - Pow2(n);
    Pow2Aligned(n, t);
    Pow2Aligned(n, t + 1);
    AlignedSum(a, Pow2(n), t);
    AlignedSum(a, Pow2(n), t + 1);
    AlignedTz(a, t);
    AlignedTz(a, t + 1);
    AlignedTz(b, t);
    AlignedTz(b, t + 1);
  }

  /** Only half the range has its lowest bit at the top. */
  lemma TopBit(a: nat)
    requires 0 < a < LIMIT
    ensures Tz(a) == 31 <==> 2 * a == LIMIT
  {
    hide Tz, Aligned;
    Pow2Is32();
    if Tz(a) == 31 {
      AlignedTz(a, 31);
      Pow2Aligned(31, 31);
      if a > Pow2(31) {
        AlignedGap(Pow2(31), a, 31);
      }
    }
    Pow2Aligned(31, 0);
  }

  lemma ShiftLeftWraps(a: nat)
    requires LIMIT < 2 * a < 2 * LIMIT
    ensures Tz(2 * a - LIMIT) == Tz(a) + 1
  {
    DoubledTz(a);
    TopBit(a);
    TzBound(a);
    Pow2Is32();
    TzOfDifference(2 * a, 32);
  }

  /** One left shift of a 32-bit word moves the lowest bit up or out. */
  lemma ShiftLeft(a: nat, b: nat)
    requires 0 < a < LIMIT && b == 2 * a % LIMIT
    ensures b == 0 <==> Tz(a) == 31
    ensures b != 0 ==> Tz(b) == Tz(a) + 1
  {
    TopBit(a);
    WrappedDouble(a);
    if 2 * a > LIMIT {
      ShiftLeftWraps(a);
    } else if 2 * a < LIMIT {
      assert b == 2 * a;
      DoubledTz(a);
    }
  }

  lemma DoubledTz(a: nat)
    requires a > 0
    ensures Tz(2 * a) == Tz(a) + 1
  {
    assert 2 * a % 2 == 0 && 2 * a / 2 == a;
  }

  /** The shift loop of fp_addr_log2 on a 32-bit word. */
  method FpAddrLog2(addr: nat) returns (r: int)
    requires addr < LIMIT
    ensures r == AddrLog2(addr)
  {
    var shift := 0;
    var a := addr;
    if a != 0 {
      TzBound(a);
      ShiftLeft(a, 2 * a % LIMIT);
    }
    a := 2 * a % LIMIT;
    while a != 0
      invariant 0 <= a < LIMIT
      invariant addr == 0 ==> a == 0 && shift == 0
      invariant a != 0 ==> addr != 0 && Tz(a) == Tz(addr) + shift + 1
      invariant a == 0 && addr != 0 ==> Tz(addr) + shift == 31
      decreases if a == 0 then 0 else 32 - Tz(a)
    {
      TzBound(a);
      ShiftLeft(a, 2 * a % LIMIT);
      shift := shift + 1;
      a := 2 * a % LIMIT;
      if a != 0 {
        TzBound(a);
      }
    }
    r := 31 - shift;
  }
}
