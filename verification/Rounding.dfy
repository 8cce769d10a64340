/** Rounding down to a power of two through the index of the highest one bit. */
module Rounding {
  import opened Bits

  /** Shifting right by k bits. */
  function Drop(x: nat, k: nat): nat
    decreases k
  {
    if k == 0 then x else Drop(x / 2, k - 1)
  }

  lemma {:induction false} DropSpec(x: nat, k: nat)
    ensures Shift(Drop(x, k), k) <= x < Shift(Drop(x, k) + 1, k)
    decreases k
  {
    if k > 0 { DropSpec(x / 2, k - 1); }
  }

  lemma {:induction false} DropZero(x: nat, k: nat)
    ensures Drop(x, k) == 0 <==> x < Shift(1, k)
    decreases k
  {
    if k > 0 { DropZero(x / 2, k - 1); }
  }

  lemma {:induction false} DropBelow(x: nat, k: nat, e: nat)
    requires x < Shift(1, k + e)
    ensures Drop(x, k) < Shift(1, e)
    decreases k
  {
    if k > 0 { DropBelow(x / 2, k - 1, e); }
  }

  lemma {:induction false} ShiftMonotonic(a: nat, b: nat, e: nat)
    requires a <= b
    ensures Shift(a, e) <= Shift(b, e)
    decreases e
  {
    if e > 0 { ShiftMonotonic(a, b, e - 1); }
  }

  /** One step: what is left after dropping k more bits is x without c + k bits. */
  lemma DropMore(x: nat, rest: nat, c: nat, k: nat)
    requires Shift(rest, c) <= x < Shift(rest + 1, c)
    ensures Shift(Drop(rest, k), c + k) <= x < Shift(Drop(rest, k) + 1, c + k)
  {
    hide Shift, Drop;
    var q := Drop(rest, k);
    DropSpec(rest, k);
    ShiftAdd(q, k, c);
    ShiftAdd(q + 1, k, c);
    ShiftMonotonic(Shift(q, k), rest, c);
    ShiftMonotonic(rest + 1, Shift(q + 1, k), c);
  }

  /** The portable search for the highest one bit: by halves of 32, 16, 8, 4, 2 and 1 bits. */
  method HighestOne(x: nat) returns (c: nat)
    requires 0 < x < Shift(1, 64)
    ensures c < 64 && Shift(1, c) <= x < Shift(1, c + 1)
  {
    hide Shift;
    ShiftNone(x);
    ShiftNone(x + 1);
    ShiftNone(1);
    var rest;
    rest, c := Narrow(x, x, 0, 32);
    rest, c := Narrow(x, rest, c, 16);
    rest, c := Narrow(x, rest, c, 8);
    rest, c := Narrow(x, rest, c, 4);
    rest, c := Narrow(x, rest, c, 2);
    rest, c := Narrow(x, rest, c, 1);
    ShiftAdd(1, 1, c);
  }

  lemma ShiftNone(x: nat)
    ensures Shift(x, 0) == x && Shift(x, 1) == 2 * x
  {}

  /** Of 2 * k bits left, is there a one in the upper k? If so, drop the lower k and count them. */
  method Narrow(ghost x: nat, rest: nat, c: nat, k: nat) returns (next: nat, count: nat)
    requires 0 < rest < Shift(1, 2 * k) && Shift(rest, c) <= x < Shift(rest + 1, c)
    ensures 0 < next < Shift(1, k) && Shift(next, count) <= x < Shift(next + 1, count)
    ensures c <= count <= c + k
  {
    hide Shift, Drop;
    DropBelow(rest, k, k);
    DropZero(rest, k);
    if Drop(rest, k) != 0 {
      DropMore(x, rest, c, k);
      next, count := Drop(rest, k), c + k;
    } else {
      next, count := rest, c;
    }
  }

  lemma {:induction false} ShiftIsPow2(e: nat)
    ensures IsPow2(Shift(1, e))
    decreases e
  {
    if e > 0 {
      ShiftIsPow2(e - 1);
      Pow2Double(Shift(1, e - 1));
    }
  }

  /** 1 << highest_one(x | 1): the largest power of two that is at most x, or 1 when x is 0. */
  method RoundDownToPowerOf2(x: nat) returns (p: nat)
    requires x < U64_LIMIT
    ensures p == LargestPow2(x)
    ensures IsPow2(p) && (x > 0 ==> p <= x < 2 * p) && (x == 0 ==> p == 1)
  {
    Shift64();
    var odd := if x % 2 == 0 then x + 1 else x;
    var c := HighestOne(odd);
    p := Shift(1, c);
    assert Shift(1, c + 1) == 2 * p;
    ShiftIsPow2(c);
    hide Shift, IsPow2;
    LargestPow2Unique(odd, p);
    SetLowBit(x);
    if x > 0 { LargestPow2Spec(x); }
  }

  lemma Shift64()
    ensures Shift(1, 64) == U64_LIMIT
  {
    Shift54();
    ShiftAdd(1, 54, 10);
    Shift10(Shift(1, 54));
  }

  /** Setting the lowest bit does not move the highest. */
  lemma SetLowBit(x: nat)
    ensures LargestPow2(if x % 2 == 0 then x + 1 else x) == LargestPow2(x)
  {
    if x > 1 && x % 2 == 0 {
      assert (x + 1) / 2 == x / 2;
    }
  }
}
