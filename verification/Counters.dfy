/** Per-lane 64-bit counters in 32-bit lanes, with the carry made by hand in two ways. */
module Counters {
  import opened Bits

  /** A 32-bit lane's value read as a signed number. */
  function Signed(x: nat): int
    requires x < U32_LIMIT
  {
    if x < TOP_BIT then x else x - U32_LIMIT
  }

  /** x ^ 0x80000000. */
  function FlipTop(x: nat): nat
    requires x < U32_LIMIT
  {
    if x < TOP_BIT then x + TOP_BIT else x - TOP_BIT
  }

  /** The 64-bit counter that input number i of a call is hashed with. */
  function InputCounter(counter: nat, increment: bool, i: nat): nat {
    if increment then (counter + i) % U64_LIMIT else counter
  }

  /** The two halves of what lane i should hold. */
  predicate IsCounter(counter: nat, increment: bool, i: nat, low: nat, high: nat) {
    low < U32_LIMIT && high < U32_LIMIT && InputCounter(counter, increment, i) == low + U32_LIMIT * high
  }

  /** The SSE2 way: compare with the top bits flipped, because the instruction compares signed
      numbers, and subtract the all-ones result of the comparison. */
  method LoadCountersSse2(counter: nat, increment: bool, lanes: nat) returns (low: seq<nat>, high: seq<nat>)
    requires counter < U64_LIMIT && lanes <= 4
    ensures |low| == |high| == lanes
    ensures forall i :: 0 <= i < lanes ==> IsCounter(counter, increment, i, low[i], high[i])
  {
    hide IsCounter;
    low, high := [], [];
    for i := 0 to lanes
      invariant |low| == |high| == i
      invariant forall k :: 0 <= k < i ==> IsCounter(counter, increment, k, low[k], high[k])
    {
      var add := if increment then i else 0;
      var l := (counter % U32_LIMIT + add) % U32_LIMIT;
      var carry := if Signed(FlipTop(add)) > Signed(FlipTop(l)) then U32_LIMIT - 1 else 0;
      var h := (counter / U32_LIMIT + U32_LIMIT - carry) % U32_LIMIT;
      Sse2Lane(counter, increment, i, add, l, carry, h);
      low, high := low + [l], high + [h];
    }
  }

  lemma Sse2Lane(counter: nat, increment: bool, i: nat, add: nat, l: nat, carry: nat, h: nat)
    requires counter < U64_LIMIT && i < 16 && add == if increment then i else 0
    requires l == (counter % U32_LIMIT + add) % U32_LIMIT
    requires carry == if Signed(FlipTop(add)) > Signed(FlipTop(l)) then U32_LIMIT - 1 else 0
    requires h == (counter / U32_LIMIT + U32_LIMIT - carry) % U32_LIMIT
    ensures IsCounter(counter, increment, i, l, h)
  {
    hide Signed, FlipTop;
    var lo, hi := Apart(counter);
    CarryByCompare(lo, add, l);
    MinusAllOnes(hi, if lo + add >= U32_LIMIT then 1 else 0);
    SplitCounter(counter, lo, hi, add, l, h);
  }

  /** The flipped numbers compare as the numbers themselves, and the sum is less than what was added just
      when it wrapped. */
  lemma CarryByCompare(lo: nat, d: nat, l: nat)
    requires lo < U32_LIMIT && d < 16 && l == (lo + d) % U32_LIMIT
    ensures Signed(FlipTop(d)) > Signed(FlipTop(l)) <==> lo + d >= U32_LIMIT
  {
    assert l == if lo + d >= U32_LIMIT then lo + d - U32_LIMIT else lo + d;
  }

  /** Subtracting the all-ones word adds one. */
  lemma MinusAllOnes(hi: nat, one: nat)
    requires hi < U32_LIMIT && one <= 1
    ensures (hi + U32_LIMIT - (if one == 1 then U32_LIMIT - 1 else 0)) % U32_LIMIT == (hi + one) % U32_LIMIT
  {}

  /** The narrower AVX-512 way: add in 64-bit lanes, then take the halves apart. */
  method LoadCounters64(counter: nat, increment: bool, lanes: nat) returns (low: seq<nat>, high: seq<nat>)
    requires counter < U64_LIMIT && lanes <= 8
    ensures |low| == |high| == lanes
    ensures forall i :: 0 <= i < lanes ==> IsCounter(counter, increment, i, low[i], high[i])
  {
    low, high := [], [];
    for i := 0 to lanes
      invariant |low| == |high| == i
      invariant forall k :: 0 <= k < i ==> IsCounter(counter, increment, k, low[k], high[k])
    {
      var sum := (counter + (if increment then i else 0)) % U64_LIMIT;
      assert sum == InputCounter(counter, increment, i);
      ghost var lo, hi := Apart(sum);
      hide IsCounter, InputCounter;
      low, high := low + [sum % U32_LIMIT], high + [sum / U32_LIMIT % U32_LIMIT];
      SumIsCounter(counter, increment, i, sum, lo, hi);
    }
  }

  lemma SumIsCounter(counter: nat, increment: bool, i: nat, sum: nat, lo: nat, hi: nat)
    requires sum == InputCounter(counter, increment, i) == lo + U32_LIMIT * hi && lo < U32_LIMIT && hi < U32_LIMIT
    ensures IsCounter(counter, increment, i, sum % U32_LIMIT, sum / U32_LIMIT % U32_LIMIT)
  {
    hide InputCounter;
    Halves(sum, lo, hi);
  }

  /** The AVX-512 way: the carry is the top bit that was set before the addition and is not after. */
  method LoadCountersAvx512(counter: nat, increment: bool, lanes: nat) returns (low: seq<nat>, high: seq<nat>)
    requires counter < U64_LIMIT && lanes <= 16
    ensures |low| == |high| == lanes
    ensures forall i :: 0 <= i < lanes ==> IsCounter(counter, increment, i, low[i], high[i])
  {
    hide And, IsCounter;
    low, high := [], [];
    for i := 0 to lanes
      invariant |low| == |high| == i
      invariant forall k :: 0 <= k < i ==> IsCounter(counter, increment, k, low[k], high[k])
    {
      var delta := if increment then i else 0;
      var l := (counter % U32_LIMIT + delta) % U32_LIMIT;
      var carry := And(U32_LIMIT - 1 - l, counter % U32_LIMIT) / TOP_BIT;
      var h := (counter / U32_LIMIT + carry) % U32_LIMIT;
      Avx512Lane(counter, increment, i, delta, l, carry, h);
      low, high := low + [l], high + [h];
    }
  }

  lemma Avx512Lane(counter: nat, increment: bool, i: nat, delta: nat, l: nat, carry: nat, h: nat)
    requires counter < U64_LIMIT && i < 16 && delta == if increment then i else 0
    requires l == (counter % U32_LIMIT + delta) % U32_LIMIT
    requires carry == And(U32_LIMIT - 1 - l, counter % U32_LIMIT) / TOP_BIT
    requires h == (counter / U32_LIMIT + carry) % U32_LIMIT
    ensures IsCounter(counter, increment, i, l, h)
  {
    hide And;
    var lo, hi := Apart(counter);
    CarryByTopBits(lo, delta, l);
    SplitCounter(counter, lo, hi, delta, l, h);
  }

  /** Reading the halves back. */
  lemma Halves(c: nat, l: nat, h: nat)
    requires l < U32_LIMIT && h < U32_LIMIT && c == l + U32_LIMIT * h
    ensures c % U32_LIMIT == l && c / U32_LIMIT % U32_LIMIT == h
  {}

  lemma Apart(c: nat) returns (lo: nat, hi: nat)
    requires c < U64_LIMIT
    ensures lo == c % U32_LIMIT && hi == c / U32_LIMIT && lo < U32_LIMIT && hi < U32_LIMIT && c == lo + U32_LIMIT * hi
  {
    lo, hi := c % U32_LIMIT, c / U32_LIMIT;
  }

  /** A low half that wraps and a high half that takes the carry are the 64-bit sum. */
  lemma SplitCounter(counter: nat, lo: nat, hi: nat, d: nat, l: nat, h: nat)
    requires lo < U32_LIMIT && hi < U32_LIMIT && counter == lo + U32_LIMIT * hi && d < 16
    requires l == (lo + d) % U32_LIMIT
    requires h == (hi + (if lo + d >= U32_LIMIT then 1 else 0)) % U32_LIMIT
    ensures l < U32_LIMIT && h < U32_LIMIT && (counter + d) % U64_LIMIT == l + U32_LIMIT * h
    ensures d == 0 ==> counter == l + U32_LIMIT * h
  {
    if lo + d < U32_LIMIT {
      assert l == lo + d && h == hi;
      Once(counter + d, l + U32_LIMIT * h, 0);
    } else {
      assert l == lo + d - U32_LIMIT;
      if hi + 1 < U32_LIMIT {
        assert h == hi + 1;
        Once(counter + d, l + U32_LIMIT * h, 0);
      } else {
        assert h == 0;
        Once(counter + d, l, 1);
      }
    }
  }

  /** A number below the modulus, with the quotient named. */
  lemma Once(n: nat, r: nat, q: nat)
    requires r < U64_LIMIT && q <= 1 && n == U64_LIMIT * q + r
    ensures n % U64_LIMIT == r
  {}

  /** A top bit that was set before a small addition and is not after: exactly then it overflowed. */
  lemma CarryByTopBits(lo: nat, d: nat, l: nat)
    requires lo < U32_LIMIT && d < 16 && l == (lo + d) % U32_LIMIT
    ensures And(U32_LIMIT - 1 - l, lo) / TOP_BIT == (if lo + d >= U32_LIMIT then 1 else 0)
  {
    TopBitOfAnd(U32_LIMIT - 1 - l, lo);
  }

  /** The top bit of a conjunction of two 32-bit numbers. */
  lemma TopBitOfAnd(a: nat, b: nat)
    requires a < U32_LIMIT && b < U32_LIMIT
    ensures And(a, b) / TOP_BIT == (if a >= TOP_BIT && b >= TOP_BIT then 1 else 0)
  {
    Shift31();
    TopBit(a, b, 31);
  }

  lemma {:induction false} TopBit(a: nat, b: nat, e: nat)
    requires a < Shift(1, e + 1) && b < Shift(1, e + 1)
    ensures var top := Shift(1, e);
            && (a >= top && b >= top ==> top <= And(a, b) < 2 * top)
            && (a < top || b < top ==> And(a, b) < top)
    decreases e
  {
    if e > 0 {
      TopBit(a / 2, b / 2, e - 1);
      AndZero(a);
      AndZero(b);
    } else {
      assert a <= 1 && b <= 1;
    }
  }
}
