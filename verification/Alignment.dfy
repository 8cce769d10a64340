/** Chunk alignment: relating byte counts to chunk counts, and how far a subtree that starts at a
    given chunk may extend. */
module Alignment {
  import opened Bits

  lemma {:induction false} ShiftAligned(c: nat, s: nat, e: nat)
    requires IsPow2(s)
    ensures IsPow2(Shift(s, e))
    ensures Aligned(Shift(c, e), Shift(s, e)) <==> Aligned(c, s)
    decreases e
  {
    if e > 0 {
      var c', s' := Shift(c, e - 1), Shift(s, e - 1);
      ShiftAligned(c, s, e - 1);
      Pow2Double(s');
      assert (2 * c') / 2 == c' && (2 * c') % 2 == 0 && (2 * s') / 2 == s';
    }
  }

  /** A power of two that is not below 2^e is a multiple of it. */
  lemma {:induction false} ShiftSplit(p: nat, e: nat) returns (s: nat)
    requires IsPow2(p) && p >= Shift(1, e)
    ensures IsPow2(s) && p == Shift(s, e)
    decreases e
  {
    if e == 0 {
      s := p;
    } else {
      ShiftPositive(e - 1);
      assert p > 1 && p == 2 * (p / 2);
      s := ShiftSplit(p / 2, e - 1);
    }
  }

  lemma {:induction false} ShiftPositive(e: nat)
    ensures Shift(1, e) >= 1
  {
    if e > 0 { ShiftPositive(e - 1); }
  }

  /** Bytes and chunks: a power of two of at least 1024 bytes is a power of two of chunks, and it
      divides a whole number of chunks just when the chunk counts divide. */
  lemma ChunkAligned(c: nat, len: nat)
    requires IsPow2(len) && len >= 1024
    ensures len % 1024 == 0 && IsPow2(len / 1024)
    ensures Aligned(1024 * c, len) <==> Aligned(c, len / 1024)
  {
    Shift10(1);
    var s := ShiftSplit(len, 10);
    Shift10(s);
    Shift10(c);
    ShiftAligned(c, s, 10);
    assert len / 1024 == s;
  }

  /** The update loop's choice: start from the largest power of two that the input allows and halve
      it until it divides what has been hashed so far. */
  method SubtreeLen(inputLen: nat, countSoFar: nat) returns (len: nat)
    requires inputLen > 1024 && countSoFar % 1024 == 0
    ensures IsPow2(len) && 1024 <= len <= inputLen
    ensures Aligned(countSoFar, len)
    ensures forall s: nat :: IsPow2(s) && s <= inputLen && Aligned(countSoFar, s) ==> s <= len
  {
    hide And;
    LargestPow2Spec(inputLen);
    len := LargestPow2(inputLen);
    Shift10(1);
    ShiftAligned(0, 1, 10);
    AlignedIsDivisible(countSoFar, 1024);
    if len < 1024 { Pow2Compare(len, 1024); }
    forall s: nat | IsPow2(s) && s <= inputLen
      ensures s <= len
    {
      if s > len { Pow2Compare(len, s); }
    }
    MaskTest(countSoFar, len);
    while And(len - 1, countSoFar) != 0
      invariant IsPow2(len) && 1024 <= len <= inputLen
      invariant And(len - 1, countSoFar) == 0 <==> Aligned(countSoFar, len)
      invariant forall s: nat :: IsPow2(s) && s <= inputLen && Aligned(countSoFar, s) ==> s <= len
      decreases len
    {
      Pow2Compare(1024, len);
      forall s: nat | IsPow2(s) && s <= inputLen && Aligned(countSoFar, s)
        ensures s <= len / 2
      {
        Pow2Compare(s, len);
      }
      len := len / 2;
      MaskTest(countSoFar, len);
    }
  }

  /** 1 << trailing_zeros(n), the lowest one bit. */
  function LowBit(n: nat): nat
    requires n > 0
  {
    if n % 2 == 1 then 1 else 2 * LowBit(n / 2)
  }

  /** The lowest one bit is the largest power of two that divides n. */
  lemma {:induction false} LowBitSpec(n: nat)
    requires n > 0
    ensures IsPow2(LowBit(n)) && Aligned(n, LowBit(n))
    ensures LowBit(n) <= n
  {
    if n % 2 == 0 {
      LowBitSpec(n / 2);
      Pow2Double(LowBit(n / 2));
      assert (2 * LowBit(n / 2)) / 2 == LowBit(n / 2);
    }
  }

  lemma {:induction false} LowBitMax(n: nat, s: nat)
    requires n > 0 && IsPow2(s) && Aligned(n, s)
    ensures s <= LowBit(n)
  {
    if s > 1 { LowBitMax(n / 2, s / 2); } else { LowBitSpec(n); }
  }

  /** Whether `len` more bytes fit the subtree that starts at chunk `start`; chunk 0 starts the
      whole message, of which there may be up to 2^64 - 1 bytes. */
  predicate Fits(start: nat, len: nat) {
    && 1024 * start + len <= U64_LIMIT
    && (start == 0 ==> len < U64_LIMIT)
    && (start > 0 ==> len <= 1024 * LowBit(start))
  }

  /** Inside the subtree that starts at `start`, alignment from the start of the message and from
      the start of the subtree is the same thing for any subtree that still fits. */
  lemma RelativeAligned(start: nat, done: nat, s: nat)
    requires IsPow2(s) && Aligned(start + done, s)
    requires start > 0 ==> s <= LowBit(start)
    ensures Aligned(done, s)
  {
    if start > 0 {
      LowBitSpec(start);
      AlignedWeaken(start, LowBit(start), s);
      AlignedSum(start, done, s);
    }
  }
}
