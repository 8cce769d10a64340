/** CRC-32C over bytes, and why it notices every change of a single byte. */
module Crc32c {
  import opened Bits
  import opened Encoding

  const POLYNOMIAL: nat := 0x82F63B78

  /** Exclusive or. */
  function Xor(a: nat, b: nat): nat {
    if a == 0 && b == 0 then 0 else 2 * Xor(a / 2, b / 2) + (a + b) % 2
  }

  /** Xor by its last bit and the rest. */
  lemma XorHalves(a: nat, b: nat)
    ensures Xor(a, b) / 2 == Xor(a / 2, b / 2)
    ensures Xor(a, b) % 2 == (a + b) % 2
  {}

  lemma {:induction false} XorCancel(a: nat, b: nat)
    ensures Xor(a, Xor(a, b)) == b
    decreases a + b
  {
    if a != 0 || b != 0 {
      XorCancel(a / 2, b / 2);
      hide Xor;
      XorHalves(a, b);
      XorHalves(a, Xor(a, b));
      LastBits(a, b, Xor(a, b), Xor(a, Xor(a, b)));
    }
  }

  lemma LastBits(a: nat, b: nat, x: nat, y: nat)
    requires x % 2 == (a + b) % 2 && y % 2 == (a + x) % 2 && y / 2 == b / 2
    ensures y == b
  {
    assert (a + (a + b)) % 2 == b % 2;
  }

  lemma XorInjective(a: nat, b: nat, c: nat)
    requires Xor(a, b) == Xor(a, c)
    ensures b == c
  {
    XorCancel(a, b);
    XorCancel(a, c);
  }

  lemma {:induction false} XorSymmetric(a: nat, b: nat)
    ensures Xor(a, b) == Xor(b, a)
    decreases a + b
  {
    if a != 0 || b != 0 { XorSymmetric(a / 2, b / 2); }
  }

  lemma {:induction false} XorBound(a: nat, b: nat, e: nat)
    requires a < Shift(1, e) && b < Shift(1, e)
    ensures Xor(a, b) < Shift(1, e)
    decreases e
  {
    if a != 0 || b != 0 {
      assert e > 0;
      XorBound(a / 2, b / 2, e - 1);
    }
  }

  /** The top bit comes from the operand that has it. */
  lemma {:induction false} XorTop(a: nat, b: nat, e: nat)
    requires a < Shift(1, e) <= b < 2 * Shift(1, e)
    ensures Shift(1, e) <= Xor(a, b)
    decreases e
  {
    if e > 0 { XorTop(a / 2, b / 2, e - 1); }
  }

  /** One bit: shift right, and subtract the polynomial if a one fell out. */
  function BitStep(crc: nat): nat {
    if crc % 2 == 1 then Xor(crc / 2, POLYNOMIAL) else crc / 2
  }

  function BitSteps(crc: nat, n: nat): nat {
    if n == 0 then crc else BitStep(BitSteps(crc, n - 1))
  }

  function ByteStep(crc: nat, b: U8): nat {
    BitSteps(Xor(crc, b), 8)
  }

  function Update(crc: nat, bytes: seq<U8>): nat {
    if |bytes| == 0 then crc else ByteStep(Update(crc, bytes[..|bytes| - 1]), bytes[|bytes| - 1])
  }

  function Crc(bytes: seq<U8>): nat {
    Xor(Update(U32_LIMIT - 1, bytes), U32_LIMIT - 1)
  }

  /** The register stays a 32-bit number, and its top bit tells which bit fell out. */
  lemma BitStepRange(crc: nat)
    requires crc < U32_LIMIT
    ensures BitStep(crc) < U32_LIMIT
    ensures crc % 2 == 1 <==> BitStep(crc) >= TOP_BIT
  {
    Shift31();
    if crc % 2 == 1 {
      XorTop(crc / 2, POLYNOMIAL, 31);
      XorBound(crc / 2, POLYNOMIAL, 32);
    }
  }

  lemma BitStepInjective(x: nat, y: nat)
    requires x < U32_LIMIT && y < U32_LIMIT && BitStep(x) == BitStep(y)
    ensures x == y
  {
    BitStepRange(x);
    BitStepRange(y);
    if x % 2 == 1 {
      XorSymmetric(x / 2, POLYNOMIAL);
      XorSymmetric(y / 2, POLYNOMIAL);
      XorInjective(POLYNOMIAL, x / 2, y / 2);
    }
  }

  lemma {:induction false} BitStepsRange(crc: nat, n: nat)
    requires crc < U32_LIMIT
    ensures BitSteps(crc, n) < U32_LIMIT
    decreases n
  {
    hide BitStep;
    if n > 0 {
      BitStepsRange(crc, n - 1);
      BitStepRange(BitSteps(crc, n - 1));
    }
  }

  lemma {:induction false} BitStepsInjective(x: nat, y: nat, n: nat)
    requires x < U32_LIMIT && y < U32_LIMIT && BitSteps(x, n) == BitSteps(y, n)
    ensures x == y
    decreases n
  {
    hide BitStep;
    if n > 0 {
      BitStepsRange(x, n - 1);
      BitStepsRange(y, n - 1);
      BitStepInjective(BitSteps(x, n - 1), BitSteps(y, n - 1));
      BitStepsInjective(x, y, n - 1);
    }
  }

  lemma ByteStepRange(crc: nat, b: U8)
    requires crc < U32_LIMIT
    ensures Xor(crc, b) < U32_LIMIT && ByteStep(crc, b) < U32_LIMIT
  {
    Shift31();
    XorBound(crc, b, 32);
    BitStepsRange(Xor(crc, b), 8);
  }

  /** A step with the same byte keeps different registers different ... */
  lemma ByteStepInjectiveInRegister(x: nat, y: nat, b: U8)
    requires x < U32_LIMIT && y < U32_LIMIT && ByteStep(x, b) == ByteStep(y, b)
    ensures x == y
  {
    hide BitSteps, Xor;
    ByteStepRange(x, b);
    ByteStepRange(y, b);
    BitStepsInjective(Xor(x, b), Xor(y, b), 8);
    XorSymmetric(x, b);
    XorSymmetric(y, b);
    XorInjective(b, x, y);
  }

  /** ... and a step from the same register makes different bytes show. */
  lemma ByteStepInjectiveInByte(crc: nat, b: U8, c: U8)
    requires crc < U32_LIMIT && ByteStep(crc, b) == ByteStep(crc, c)
    ensures b == c
  {
    hide BitSteps, Xor;
    ByteStepRange(crc, b);
    ByteStepRange(crc, c);
    BitStepsInjective(Xor(crc, b), Xor(crc, c), 8);
    XorInjective(crc, b, c);
  }

  lemma {:induction false} UpdateRange(crc: nat, bytes: seq<U8>)
    requires crc < U32_LIMIT
    ensures Update(crc, bytes) < U32_LIMIT
  {
    hide ByteStep;
    if |bytes| > 0 {
      UpdateRange(crc, bytes[..|bytes| - 1]);
      ByteStepRange(Update(crc, bytes[..|bytes| - 1]), bytes[|bytes| - 1]);
    }
  }

  lemma {:induction false} UpdateNoticesOneByte(crc: nat, a: seq<U8>, k: nat, b: U8)
    requires crc < U32_LIMIT && k < |a| && a[k] != b
    ensures Update(crc, a) != Update(crc, a[k := b])
    decreases |a|
  {
    hide ByteStep;
    var c := a[k := b];
    var front := a[..|a| - 1];
    UpdateRange(crc, front);
    UpdateRange(crc, c[..|c| - 1]);
    if k == |a| - 1 {
      assert c[..|c| - 1] == front;
      if Update(crc, a) == Update(crc, c) {
        ByteStepInjectiveInByte(Update(crc, front), a[k], b);
      }
    } else {
      assert c[..|c| - 1] == front[k := b];
      UpdateNoticesOneByte(crc, front, k, b);
      if Update(crc, a) == Update(crc, c) {
        ByteStepInjectiveInRegister(Update(crc, front), Update(crc, front[k := b]), a[|a| - 1]);
      }
    }
  }

  /** Every change of a single byte changes the checksum. */
  lemma CrcNoticesOneByte(a: seq<U8>, k: nat, b: U8)
    requires k < |a| && a[k] != b
    ensures Crc(a) != Crc(a[k := b])
  {
    hide Update, Xor;
    UpdateNoticesOneByte(U32_LIMIT - 1, a, k, b);
    var x, y := Update(U32_LIMIT - 1, a), Update(U32_LIMIT - 1, a[k := b]);
    XorSymmetric(x, U32_LIMIT - 1);
    XorSymmetric(y, U32_LIMIT - 1);
    if Crc(a) == Crc(a[k := b]) { XorInjective(U32_LIMIT - 1, x, y); }
  }

  lemma CrcRange(bytes: seq<U8>)
    ensures Crc(bytes) < U32_LIMIT
  {
    hide Update;
    Shift31();
    UpdateRange(U32_LIMIT - 1, bytes);
    XorBound(Update(U32_LIMIT - 1, bytes), U32_LIMIT - 1, 32);
  }

  lemma {:induction false} UpdateConcat(crc: nat, a: seq<U8>, b: seq<U8>)
    ensures Update(crc, a + b) == Update(Update(crc, a), b)
    decreases |b|
  {
    hide ByteStep;
    if |b| == 0 {
      assert a + b == a;
    } else {
      assert (a + b)[..|a + b| - 1] == a + b[..|b| - 1];
      UpdateConcat(crc, a, b[..|b| - 1]);
    }
  }

  /** The nested loop: whole bytes outside, their bits inside. */
  method UpdateLoop(crc: nat, bytes: seq<U8>) returns (next: nat)
    ensures next == Update(crc, bytes)
  {
    hide BitStep, Xor;
    next := crc;
    for n := 0 to |bytes|
      invariant next == Update(crc, bytes[..n])
    {
      ghost var start := Xor(next, bytes[n]);
      next := Xor(next, bytes[n]);
      for i := 0 to 8
        invariant next == BitSteps(start, i)
      {
        next := BitStep(next);
      }
      assert bytes[..n + 1][..n] == bytes[..n];
    }
    assert bytes[..|bytes|] == bytes;
  }

  method Checksum(bytes: seq<U8>) returns (crc: nat)
    ensures crc == Crc(bytes) && crc < U32_LIMIT
  {
    hide Update, Xor;
    crc := UpdateLoop(U32_LIMIT - 1, bytes);
    crc := Xor(crc, U32_LIMIT - 1);
    CrcRange(bytes);
  }

  // ---- Steering the checksum with one word ----

  lemma {:induction false} XorAssociative(a: nat, b: nat, c: nat)
    ensures Xor(Xor(a, b), c) == Xor(a, Xor(b, c))
    decreases a + b + c
  {
    if a != 0 || b != 0 || c != 0 {
      XorAssociative(a / 2, b / 2, c / 2);
      hide Xor;
      XorHalves(a, b);
      XorHalves(Xor(a, b), c);
      XorHalves(b, c);
      XorHalves(a, Xor(b, c));
      ThreeLastBits(a, b, c, Xor(a, b), Xor(b, c));
      SameHalves(Xor(Xor(a, b), c), Xor(a, Xor(b, c)));
    }
  }

  lemma ThreeLastBits(a: nat, b: nat, c: nat, x: nat, y: nat)
    requires x % 2 == (a + b) % 2 && y % 2 == (b + c) % 2
    ensures (x + c) % 2 == (a + y) % 2
  {}

  lemma SameHalves(x: nat, y: nat)
    requires x / 2 == y / 2 && x % 2 == y % 2
    ensures x == y
  {}

  /** A bit that has not reached the bottom passes through a step. */
  lemma BitStepAbove(x: nat, y: nat)
    ensures BitStep(Xor(x, 2 * y)) == Xor(BitStep(x), y)
  {
    hide Xor;
    XorHalves(x, 2 * y);
    assert (2 * y) / 2 == y && (x + 2 * y) % 2 == x % 2;
    if x % 2 == 1 {
      XorAssociative(x / 2, y, POLYNOMIAL);
      XorSymmetric(y, POLYNOMIAL);
      XorAssociative(x / 2, POLYNOMIAL, y);
    }
  }

  lemma {:induction false} BitStepsAbove(x: nat, y: nat, n: nat)
    ensures BitSteps(Xor(x, Shift(y, n)), n) == Xor(BitSteps(x, n), y)
    decreases n
  {
    hide BitStep, Xor;
    if n > 0 {
      ShiftAdd(y, 1, n - 1);
      assert Shift(y, 1) == 2 * y;
      BitStepsAbove(x, 2 * y, n - 1);
      BitStepAbove(BitSteps(x, n - 1), y);
    }
  }

  /** A number is its low bits and the others, side by side. */
  lemma {:induction false} XorApart(low: nat, y: nat, n: nat)
    requires low < Shift(1, n)
    ensures Xor(low, Shift(y, n)) == low + Shift(y, n)
    decreases n
  {
    if n > 0 {
      XorApart(low / 2, y, n - 1);
      hide Xor;
      XorHalves(low, Shift(y, n));
      SameHalves(Xor(low, Shift(y, n)), low + Shift(y, n));
    } else {
      XorNothing(y);
    }
  }

  lemma {:induction false} XorNothing(a: nat)
    ensures Xor(0, a) == a && Xor(a, 0) == a
  {
    if a > 0 { XorNothing(a / 2); }
  }

  lemma {:induction false} BitStepsAdd(x: nat, a: nat, b: nat)
    ensures BitSteps(x, a + b) == BitSteps(BitSteps(x, a), b)
    decreases b
  {
    hide BitStep;
    if b > 0 { BitStepsAdd(x, a, b - 1); }
  }

  lemma Shift8(y: nat)
    ensures Shift(y, 8) == 256 * y
  {
    assert Shift(y, 1) == 2 * y;
    assert Shift(y, 2) == 4 * y;
    assert Shift(y, 4) == 16 * y;
    assert Shift(y, 6) == 64 * y;
  }

  /** Eight steps take in the low byte of a word that was mixed in whole. */
  lemma ByteOfWord(crc: nat, w: nat)
    ensures BitSteps(Xor(crc, w), 8) == Xor(ByteStep(crc, w % 256), w / 256)
  {
    hide BitSteps, Xor, Shift;
    Shift8(1);
    Shift8(w / 256);
    XorApart(w % 256, w / 256, 8);
    XorAssociative(crc, w % 256, Shift(w / 256, 8));
    BitStepsAbove(Xor(crc, w % 256), w / 256, 8);
  }

  function DropBytes(w: nat, k: nat): nat
    decreases k
  {
    if k == 0 then w else DropBytes(w / 256, k - 1)
  }

  /** Taking in the bytes of a word, lowest first, is mixing the word in whole. */
  lemma {:induction false} UpdateWord(crc: nat, w: nat, k: nat)
    ensures BitSteps(Xor(crc, w), 8 * k) == Xor(Update(crc, Le(w, k)), DropBytes(w, k))
    decreases k
  {
    hide BitSteps, Xor, ByteStep;
    if k == 0 {
      NoSteps(Xor(crc, w));
    } else {
      var first := ByteStep(crc, w % 256);
      ByteOfWord(crc, w);
      BitStepsAdd(Xor(crc, w), 8, 8 * (k - 1));
      UpdateWord(first, w / 256, k - 1);
      UpdateConcat(crc, [w % 256], Le(w / 256, k - 1));
      OneByte(crc, w % 256);
    }
  }

  lemma NoSteps(crc: nat)
    ensures BitSteps(crc, 0) == crc
  {}

  lemma OneByte(crc: nat, b: U8)
    ensures Update(crc, [b]) == ByteStep(crc, b)
  {
    hide ByteStep;
    assert [b][..0] == [];
  }

  /** The register before one bit step: its top bit says whether a one fell out. */
  function BitBack(crc: nat): nat
    requires crc < U32_LIMIT
  {
    if crc >= TOP_BIT then 2 * Xor(crc, POLYNOMIAL) + 1 else 2 * crc
  }

  lemma {:induction false} XorTopOut(a: nat, b: nat, e: nat)
    requires Shift(1, e) <= a < 2 * Shift(1, e) && Shift(1, e) <= b < 2 * Shift(1, e)
    ensures Xor(a, b) < Shift(1, e)
    decreases e
  {
    if e > 0 { XorTopOut(a / 2, b / 2, e - 1); } else { assert Xor(1, 1) == 0; }
  }

  lemma BitBackSteps(crc: nat)
    requires crc < U32_LIMIT
    ensures BitBack(crc) < U32_LIMIT && BitStep(BitBack(crc)) == crc
  {
    Shift31();
    if crc >= TOP_BIT {
      XorTopOut(crc, POLYNOMIAL, 31);
      hide Xor;
      XorSymmetric(crc, POLYNOMIAL);
      XorCancel(POLYNOMIAL, crc);
      XorSymmetric(Xor(POLYNOMIAL, crc), POLYNOMIAL);
    }
  }

  function BitsBack(crc: nat, n: nat): (before: nat)
    requires crc < U32_LIMIT
    ensures before < U32_LIMIT
    decreases n
  {
    BitBackSteps(crc);
    if n == 0 then crc else BitsBack(BitBack(crc), n - 1)
  }

  lemma {:induction false} BitsBackSteps(crc: nat, n: nat)
    requires crc < U32_LIMIT
    ensures BitSteps(BitsBack(crc, n), n) == crc
    decreases n
  {
    hide BitStep, BitBack;
    if n > 0 {
      BitBackSteps(crc);
      BitsBackSteps(BitBack(crc), n - 1);
    }
  }

  /** The register before a byte string. */
  function Before(crc: nat, bytes: seq<U8>): (before: nat)
    requires crc < U32_LIMIT
    ensures before < U32_LIMIT
    decreases |bytes|
  {
    if |bytes| == 0 then crc
    else
      Shift31();
      XorBound(BitsBack(crc, 8), bytes[|bytes| - 1], 32);
      Before(Xor(BitsBack(crc, 8), bytes[|bytes| - 1]), bytes[..|bytes| - 1])
  }

  lemma {:induction false} UpdateBefore(crc: nat, bytes: seq<U8>)
    requires crc < U32_LIMIT
    ensures Update(Before(crc, bytes), bytes) == crc
    decreases |bytes|
  {
    hide BitSteps, Xor, BitsBack;
    if |bytes| > 0 {
      var b, v := bytes[|bytes| - 1], BitsBack(crc, 8);
      Shift31();
      XorBound(v, b, 32);
      UpdateBefore(Xor(v, b), bytes[..|bytes| - 1]);
      XorSymmetric(Xor(v, b), b);
      XorSymmetric(v, b);
      XorCancel(b, v);
      BitsBackSteps(crc, 8);
    }
  }

  lemma {:induction false} UpdateInjective(x: nat, y: nat, bytes: seq<U8>)
    requires x < U32_LIMIT && y < U32_LIMIT && Update(x, bytes) == Update(y, bytes)
    ensures x == y
    decreases |bytes|
  {
    hide ByteStep;
    if |bytes| > 0 {
      var front := bytes[..|bytes| - 1];
      UpdateRange(x, front);
      UpdateRange(y, front);
      ByteStepInjectiveInRegister(Update(x, front), Update(y, front), bytes[|bytes| - 1]);
      UpdateInjective(x, y, front);
    }
  }

  /** The word that makes the checksum of a text with a gap of four bytes come out as zero. */
  function ZeroWord(before: seq<U8>, after: seq<U8>): (w: Word32)
  {
    UpdateRange(U32_LIMIT - 1, before);
    var crc, wanted := Update(U32_LIMIT - 1, before), BitsBack(Before(U32_LIMIT - 1, after), 32);
    Shift31();
    XorBound(crc, wanted, 32);
    Xor(crc, wanted)
  }

  /** For any text there is exactly one such word. */
  lemma ZeroWordOnly(before: seq<U8>, after: seq<U8>, w: Word32)
    ensures Crc(before + Le(w, 4) + after) == 0 <==> w == ZeroWord(before, after)
  {
    hide Update, Xor, BitSteps, BitsBack, Before, Le;
    var crc, goal := Update(U32_LIMIT - 1, before), Before(U32_LIMIT - 1, after);
    var wanted := BitsBack(goal, 32);
    UpdateRange(U32_LIMIT - 1, before);
    UpdateConcat(U32_LIMIT - 1, before, Le(w, 4));
    UpdateConcat(U32_LIMIT - 1, before + Le(w, 4), after);
    var here := Update(crc, Le(w, 4));
    UpdateWholeWord(crc, w);
    ZeroChecksum(before + Le(w, 4) + after);
    Shift31();
    XorBound(crc, w, 32);
    BitsBackSteps(goal, 32);
    UpdateBefore(U32_LIMIT - 1, after);
    BitStepsRange(Xor(crc, w), 32);
    if Update(here, after) == U32_LIMIT - 1 {
      UpdateInjective(here, goal, after);
      BitStepsInjective(Xor(crc, w), wanted, 32);
      XorCancel(crc, w);
    }
    if w == ZeroWord(before, after) {
      assert w == Xor(crc, wanted);
      XorCancel(crc, wanted);
    }
  }

  lemma UpdateWholeWord(crc: nat, w: Word32)
    ensures Update(crc, Le(w, 4)) == BitSteps(Xor(crc, w), 32)
  {
    hide Update, Xor, BitSteps, Le;
    assert DropBytes(w, 4) == w / 256 / 256 / 256 / 256 == 0;
    UpdateWord(crc, w, 4);
    XorNothing(Update(crc, Le(w, 4)));
  }

  lemma ZeroChecksum(bytes: seq<U8>)
    ensures Crc(bytes) == 0 <==> Update(U32_LIMIT - 1, bytes) == U32_LIMIT - 1
  {
    hide Update, Xor;
    var crc := Update(U32_LIMIT - 1, bytes);
    XorSymmetric(crc, U32_LIMIT - 1);
    XorCancel(U32_LIMIT - 1, crc);
    XorNothing(U32_LIMIT - 1);
    XorNothing(0);
    XorCancel(U32_LIMIT - 1, U32_LIMIT - 1);
    XorSelf(U32_LIMIT - 1);
  }

  lemma {:induction false} XorSelf(a: nat)
    ensures Xor(a, a) == 0
  {
    if a > 0 { XorSelf(a / 2); }
  }
}
