/** Powers of two, alignment and bit counting, all defined by halving so that every fact
    about them is an induction that peels the lowest bit. */
module Bits {

  const TOP_BIT: nat := 0x8000_0000
  const U32_LIMIT: nat := 0x1_0000_0000
  const U64_LIMIT: nat := 0x1_0000_0000_0000_0000

  /** The chunks of 2^64 bytes. */
  const MAX_CHUNKS: nat := 0x40_0000_0000_0000

  predicate IsPow2(n: nat) {
    n == 1 || (n > 1 && n % 2 == 0 && IsPow2(n / 2))
  }

  /** The largest power of two that is at most n (and 1 for n == 0, as the C code has it). */
  function LargestPow2(n: nat): nat {
    if n <= 1 then 1 else 2 * LargestPow2(n / 2)
  }

  /** The smallest power of two that is at least n. */
  function NextPow2(n: nat): nat {
    if n <= 1 then 1 else 2 * NextPow2((n + 1) / 2)
  }

  /** The number of one bits. */
  function PopCount(n: nat): nat {
    if n == 0 then 0 else n % 2 + PopCount(n / 2)
  }

  /** Bitwise conjunction. */
  function And(a: nat, b: nat): nat {
    if a == 0 || b == 0 then 0 else 2 * And(a / 2, b / 2) + (if a % 2 == 1 && b % 2 == 1 then 1 else 0)
  }

  /** n is a multiple of the power of two s; AlignedIsDivisible is the connection. */
  predicate Aligned(n: nat, s: nat)
    requires IsPow2(s)
  {
    s == 1 || (n % 2 == 0 && Aligned(n / 2, s / 2))
  }

  function Max(a: nat, b: nat): nat {
    if a < b then b else a
  }

  lemma Pow2Double(p: nat)
    requires IsPow2(p)
    ensures IsPow2(2 * p)
  {
    assert (2 * p) / 2 == p && (2 * p) % 2 == 0;
  }

  lemma {:induction false} LargestPow2Spec(n: nat)
    requires n > 0
    ensures IsPow2(LargestPow2(n))
    ensures LargestPow2(n) <= n < 2 * LargestPow2(n)
  {
    if n > 1 {
      var h := n / 2;
      LargestPow2Spec(h);
      Pow2Double(LargestPow2(h));
      assert 2 * h <= n <= 2 * h + 1;
    }
  }

  lemma LargestPow2Half(n: nat, h: nat)
    requires n >= 2 && 2 * h <= n <= 2 * h + 1
    ensures LargestPow2(n) == 2 * LargestPow2(h)
  {}

  /** Only one power of two lies in the interval (n/2, n]. */
  lemma {:induction false} LargestPow2Unique(n: nat, p: nat)
    requires IsPow2(p) && p <= n < 2 * p
    ensures LargestPow2(n) == p
  {
    if n > 1 { LargestPow2Unique(n / 2, p / 2); }
  }

  lemma {:induction false} Pow2Compare(a: nat, b: nat)
    requires IsPow2(a) && IsPow2(b) && a < b
    ensures 2 * a <= b
  {
    if a > 1 { Pow2Compare(a / 2, b / 2); }
  }

  lemma {:induction false} AlignedIsDivisible(n: nat, s: nat)
    requires IsPow2(s)
    ensures Aligned(n, s) <==> n % s == 0
  {
    if s > 1 {
      var h, b, t := n / 2, n % 2, s / 2;
      AlignedIsDivisible(h, t);
      DoubleRemainder(h, b, t);
      assert n == 2 * h + b && s == 2 * t;
    }
  }

  lemma DoubleRemainder(h: nat, b: nat, t: nat)
    requires t > 0 && b < 2
    ensures (2 * h + b) % (2 * t) == 2 * (h % t) + b
  {
    var q, r := h / t, h % t;
    assert h == t * q + r;
    assert (2 * t) * q == 2 * (t * q);
    RemainderIs(2 * h + b, 2 * t, q, 2 * r + b);
  }

  lemma RemainderIs(n: nat, s: nat, q: nat, r: nat)
    requires s > 0 && r < s && n == s * q + r
    ensures n % s == r && n / s == q
  {
    var d := n / s - q;
    assert n == s * (n / s) + n % s;
    assert s * d == r - n % s;
    assert d >= 1 ==> s * d >= s;
    assert d <= -1 ==> s * (-d) >= s;
  }

  /** Wrapping a sum early makes no difference. */
  lemma WrapTwice(c: nat, k: nat)
    ensures (c % U64_LIMIT + k) % U64_LIMIT == (c + k) % U64_LIMIT
  {
    var q, r := c / U64_LIMIT, c % U64_LIMIT;
    var p, s := (r + k) / U64_LIMIT, (r + k) % U64_LIMIT;
    assert c + k == U64_LIMIT * (q + p) + s;
    RemainderIs(c + k, U64_LIMIT, q + p, s);
  }

  /** The bit-masking test of the update loop is a divisibility test. */
  lemma {:induction false} MaskTest(c: nat, s: nat)
    requires IsPow2(s)
    ensures And(s - 1, c) == 0 <==> Aligned(c, s)
  {
    if s > 1 {
      MaskTest(c / 2, s / 2);
      AndZero(s / 2 - 1);
      assert (s - 1) / 2 == s / 2 - 1 && (s - 1) % 2 == 1;
    }
  }

  lemma AndZero(a: nat)
    ensures And(a, 0) == 0 && And(0, a) == 0
  {}

  lemma {:induction false} AlignedSelf(s: nat)
    requires IsPow2(s)
    ensures Aligned(s, s)
  {
    if s > 1 { AlignedSelf(s / 2); }
  }

  lemma {:induction false} AlignedWeaken(n: nat, s: nat, t: nat)
    requires IsPow2(s) && IsPow2(t) && t <= s && Aligned(n, s)
    ensures Aligned(n, t)
  {
    if t > 1 { AlignedWeaken(n / 2, s / 2, t / 2); }
  }

  lemma {:induction false} AlignedSum(a: nat, b: nat, s: nat)
    requires IsPow2(s) && Aligned(a, s)
    ensures Aligned(a + b, s) <==> Aligned(b, s)
  {
    if s > 1 && b % 2 == 0 {
      AlignedSum(a / 2, b / 2, s / 2);
      assert (a + b) / 2 == a / 2 + b / 2;
    }
  }

  /** A positive multiple of s is at least s. */
  lemma {:induction false} AlignedAtLeast(n: nat, s: nat)
    requires IsPow2(s) && Aligned(n, s) && n > 0
    ensures n >= s
  {
    if s > 1 { AlignedAtLeast(n / 2, s / 2); }
  }

  /** Adding an aligned power of two below every bit already there adds one bit and leaves
      the highest bit alone. */
  lemma {:induction false} AddLowBit(x: nat, s: nat)
    requires IsPow2(s) && Aligned(x, 2 * s)
    ensures PopCount(x + s) == PopCount(x) + 1
    ensures x > 0 ==> LargestPow2(x) >= 2 * s && LargestPow2(x + s) == LargestPow2(x)
  {
    if s == 1 {
      assert (x + 1) / 2 == x / 2 && (x + 1) % 2 == 1;
      if x > 0 { LargestPow2Spec(x / 2); }
    } else {
      AddLowBit(x / 2, s / 2);
      assert (x + s) / 2 == x / 2 + s / 2 && (x + s) % 2 == 0;
    }
  }

  /** Of two neighbouring multiples of s, exactly one is a multiple of 2s. */
  lemma {:induction false} AlignedParity(x: nat, s: nat)
    requires IsPow2(s) && Aligned(x, s)
    ensures Aligned(x, 2 * s) <==> !Aligned(x + s, 2 * s)
  {
    if s > 1 {
      AlignedParity(x / 2, s / 2);
      assert (x + s) / 2 == x / 2 + s / 2 && (x + s) % 2 == 0;
    }
  }

  /** Adding a power of two adds at most one bit. */
  lemma {:induction false} PopCountAdd(x: nat, t: nat)
    requires IsPow2(t)
    ensures PopCount(x + t) <= PopCount(x) + 1
    decreases x + t
  {
    var h := x / 2;
    if t > 1 {
      PopCountAdd(h, t / 2);
      assert (x + t) / 2 == h + t / 2 && (x + t) % 2 == x % 2;
    } else if x % 2 == 1 {
      PopCountAdd(h, 1);
      assert (x + 1) / 2 == h + 1;
    } else {
      assert (x + 1) / 2 == h;
    }
  }

  /** Below an aligned number there is room: its bits and those of a smaller number add up. */
  lemma {:induction false} PopCountSum(x: nat, r: nat, s: nat)
    requires IsPow2(s) && Aligned(x, s) && r < s
    ensures PopCount(x + r) == PopCount(x) + PopCount(r)
    decreases s
  {
    if s > 1 {
      PopCountSum(x / 2, r / 2, s / 2);
      assert (x + r) / 2 == x / 2 + r / 2 && (x + r) % 2 == r % 2;
    }
  }

  lemma {:induction false} PopCountOne(s: nat)
    requires IsPow2(s)
    ensures PopCount(s) == 1
  {
    if s > 1 { PopCountOne(s / 2); }
  }

  /** Counting bits tells whether the bit at s is set below an aligned sum. */
  lemma PopCountTest(a: nat, s: nat)
    requires IsPow2(s) && Aligned(a, s)
    ensures IsPow2(2 * s)
    ensures Aligned(a, 2 * s) <==> PopCount(a + s) == PopCount(a) + 1
    ensures !Aligned(a, 2 * s) ==> PopCount(a + s) <= PopCount(a)
  {
    Pow2Double(s);
    PopCountOne(s);
    if Aligned(a, 2 * s) {
      PopCountSum(a, s, 2 * s);
    } else {
      LowBitSet(a, s);
      PopCountSum(a - s, s, 2 * s);
      PopCountAdd(a - s, 2 * s);
    }
  }

  /** A multiple of s that is not one of 2s ends in a one bit at s. */
  lemma {:induction false} LowBitSet(n: nat, s: nat)
    requires IsPow2(s) && Aligned(n, s) && !Aligned(n, 2 * s)
    ensures s <= n && Aligned(n - s, 2 * s)
  {
    if s > 1 {
      LowBitSet(n / 2, s / 2);
      assert (n - s) / 2 == n / 2 - s / 2;
    }
  }

  /** Removing the highest bit: what is left is smaller, has one bit less, and stays aligned. */
  lemma {:induction false} DropHighBit(n: nat)
    requires n > 0
    ensures LargestPow2(n) <= n
    ensures PopCount(n) == 1 + PopCount(n - LargestPow2(n))
  {
    LargestPow2Spec(n);
    if n > 1 {
      DropHighBit(n / 2);
      assert (n - LargestPow2(n)) / 2 == n / 2 - LargestPow2(n / 2);
    }
  }

  lemma DropHighBitAligned(n: nat, s: nat)
    requires n > 0 && IsPow2(s) && Aligned(n, s)
    ensures LargestPow2(n) <= n && s <= LargestPow2(n)
    ensures Aligned(n - LargestPow2(n), s) && Aligned(LargestPow2(n), s)
  {
    LargestPow2Spec(n);
    AlignedAtLeast(n, s);
    var p := LargestPow2(n);
    if p < s { Pow2Compare(p, s); }
    AlignedSelf(p);
    AlignedWeaken(p, p, s);
    AlignedSum(p, n - p, s);
  }

  /** Room left below the next power of two is a multiple of s as well. */
  lemma RoomBelowDouble(n: nat, s: nat)
    requires n > 0 && IsPow2(s) && Aligned(n, s)
    ensures n + s <= 2 * LargestPow2(n)
  {
    DropHighBitAligned(n, s);
    LargestPow2Spec(n);
    var p := LargestPow2(n);
    AlignedSum(p, p, s);
    AlignedSum(n, 2 * p - n, s);
    AlignedAtLeast(2 * p - n, s);
  }

  lemma {:induction false} PopCountBound(n: nat, e: nat)
    requires n < Shift(1, e)
    ensures PopCount(n) <= e
  {
    if n > 0 {
      assert n / 2 < Shift(1, e - 1) by { assert Shift(1, e) == 2 * Shift(1, e - 1); }
      PopCountBound(n / 2, e - 1);
    }
  }

  function Shift(x: nat, e: nat): nat {
    if e == 0 then x else 2 * Shift(x, e - 1)
  }

  lemma Shift10(x: nat)
    ensures Shift(x, 10) == 1024 * x
  {
    assert Shift(x, 1) == 2 * x;
    assert Shift(x, 2) == 4 * x;
    assert Shift(x, 4) == 16 * x;
    assert Shift(x, 6) == 64 * x;
    assert Shift(x, 8) == 256 * x;
  }

  lemma {:induction false} ShiftAdd(x: nat, a: nat, b: nat)
    ensures Shift(Shift(x, a), b) == Shift(x, a + b)
    decreases b
  {
    if b > 0 { ShiftAdd(x, a, b - 1); }
  }

  lemma Shift31()
    ensures Shift(1, 8) == 0x100 && Shift(1, 31) == TOP_BIT && Shift(1, 32) == U32_LIMIT
  {
    Shift10(1);
    assert Shift(1, 2) == 4;
    assert Shift(1, 4) == 16;
    assert Shift(1, 6) == 64;
    assert Shift(1, 8) == 256;
    Shift10(0x400);
    Shift10(0x10_0000);
    ShiftAdd(1, 10, 10);
    ShiftAdd(1, 20, 10);
    assert Shift(1, 31) == 2 * Shift(1, 30);
    assert Shift(1, 32) == 2 * Shift(1, 31);
  }

  /** 2^54 chunks of 1024 bytes are 2^64 bytes. */
  lemma Shift54()
    ensures Shift(1, 54) == 0x40_0000_0000_0000
  {
    Shift10(1);
    Shift10(0x400);
    Shift10(0x10_0000);
    Shift10(0x4000_0000);
    Shift10(0x100_0000_0000);
    ShiftAdd(1, 10, 10);
    ShiftAdd(1, 20, 10);
    ShiftAdd(1, 30, 10);
    ShiftAdd(1, 40, 10);
    assert Shift(1, 51) == 2 * Shift(1, 50);
    assert Shift(1, 52) == 2 * Shift(1, 51);
    assert Shift(1, 53) == 2 * Shift(1, 52);
    assert Shift(1, 54) == 2 * Shift(1, 53);
  }

  /** Clearing the lowest one bit, as the portable popcnt loop does. */
  lemma {:induction false} ClearLowestBit(x: nat)
    requires x > 0
    ensures And(x, x - 1) < x
    ensures PopCount(And(x, x - 1)) == PopCount(x) - 1
  {
    var h := x / 2;
    if x % 2 == 0 {
      ClearLowestBit(h);
      assert x == 2 * h && (x - 1) / 2 == h - 1;
      assert And(x, x - 1) == 2 * And(h, h - 1);
    } else {
      AndSelf(h);
      assert x == 2 * h + 1 && (x - 1) / 2 == h;
      assert And(x, x - 1) == 2 * h;
    }
  }

  lemma {:induction false} AndSelf(a: nat)
    ensures And(a, a) == a
  {
    if a > 0 { AndSelf(a / 2); }
  }

  /** popcnt: the portable loop of the C header counts the one bits. */
  method PopCnt(x: nat) returns (count: nat)
    ensures count == PopCount(x)
  {
    count := 0;
    var rest := x;
    while rest != 0
      invariant count + PopCount(rest) == PopCount(x)
    {
      ClearLowestBit(rest);
      count := count + 1;
      rest := And(rest, rest - 1);
    }
  }

  /** n divided by the power of two s. */
  function Quotient(n: nat, s: nat): nat
    requires IsPow2(s)
  {
    if s == 1 then n else Quotient(n / 2, s / 2)
  }

  /** The lowest bit of the quotient by s tells whether a multiple of s is one of 2s. */
  lemma {:induction false} QuotientParity(n: nat, s: nat)
    requires IsPow2(s) && Aligned(n, s)
    ensures IsPow2(2 * s)
    ensures Quotient(n, s) % 2 == 0 <==> Aligned(n, 2 * s)
    ensures Quotient(n, 2 * s) == Quotient(n, s) / 2
    ensures n > 0 ==> Quotient(n, s) > 0
  {
    Pow2Double(s);
    assert (2 * s) / 2 == s;
    if s > 1 {
      QuotientParity(n / 2, s / 2);
      assert 2 * (s / 2) == s;
    }
  }
}
