/** Laws of the checksum over whole messages: the parity of its bits, and the residue of a message that
    ends with its own checksum. */
module CrcLaws {
  import opened Bits
  import opened Encoding
  import opened Crc32c
  import opened WordBits
  import opened Spec
  import Compression

  // ---- Parity ----

  /** Whether the number has an odd number of one bits. */
  predicate Odd(n: nat) {
    PopCount(n) % 2 == 1
  }

  lemma {:induction false} OddXor(a: nat, b: nat)
    ensures Odd(Xor(a, b)) <==> Odd(a) != Odd(b)
    decreases a + b
  {
    if a != 0 || b != 0 {
      OddXor(a / 2, b / 2);
      XorHalves(a, b);
      OddBit(a, b);
      hide Xor, Odd;
      OddHalf(a);
      OddHalf(b);
      OddHalf(Xor(a, b));
    }
  }

  lemma OddHalf(n: nat)
    ensures Odd(n) <==> (n % 2 == 1) != Odd(n / 2)
  {
    var p := PopCount(n / 2);
    assert PopCount(n) == n % 2 + p;
    hide PopCount;
    assert (1 + p) % 2 == 1 <==> p % 2 != 1;
  }

  lemma OddBit(a: nat, b: nat)
    ensures (a + b) % 2 == 1 <==> (a % 2 == 1) != (b % 2 == 1)
  {}

  lemma OneBit(n: nat, b: nat)
    requires b < 2
    ensures Odd(2 * n + b) <==> Odd(n) != (b == 1)
  {
    OddHalf(2 * n + b);
    hide Odd;
    assert (2 * n + b) / 2 == n && (2 * n + b) % 2 == b;
  }

  /** Four more bits at the low end. */
  lemma FourBits(n: nat, d: nat)
    requires d < 16
    ensures Odd(16 * n + d) <==> Odd(n) != Odd(d)
  {
    var b3, b2, b1, b0 := Bits4(d);
    OneDigit();
    hide Odd;
    OneBit(n, b3);
    OneBit(2 * n + b3, b2);
    OneBit(4 * n + 2 * b3 + b2, b1);
    OneBit(8 * n + 4 * b3 + 2 * b2 + b1, b0);
    OneBit(0, b3);
    OneBit(b3, b2);
    OneBit(2 * b3 + b2, b1);
    OneBit(4 * b3 + 2 * b2 + b1, b0);
  }

  lemma Bits4(d: nat) returns (b3: nat, b2: nat, b1: nat, b0: nat)
    requires d < 16
    ensures b3 < 2 && b2 < 2 && b1 < 2 && b0 < 2 && d == 8 * b3 + 4 * b2 + 2 * b1 + b0
  {
    b3, b2, b1, b0 := d / 8, d / 4 % 2, d / 2 % 2, d % 2;
  }

  lemma OneDigit()
    ensures !Odd(0) && Odd(2) && !Odd(3) && !Odd(6) && Odd(7) && Odd(8) && Odd(11) && !Odd(15)
  {}

  /** The polynomial has an odd number of one bits. */
  lemma OddPolynomial()
    ensures Odd(POLYNOMIAL) && !Odd(U32_LIMIT - 1)
  {
    OneDigit();
    hide Odd;
    FourBits(0x0, 8);
    FourBits(0x8, 2);
    FourBits(0x82, 15);
    FourBits(0x82F, 6);
    FourBits(0x82F6, 3);
    FourBits(0x82F63, 11);
    FourBits(0x82F63B, 7);
    FourBits(0x82F63B7, 8);
    FourBits(0x0, 15);
    FourBits(0xF, 15);
    FourBits(0xFF, 15);
    FourBits(0xFFF, 15);
    FourBits(0xFFFF, 15);
    FourBits(0xFFFFF, 15);
    FourBits(0xFFFFFF, 15);
    FourBits(0xFFFFFFF, 15);
  }

  /** A bit step keeps the parity: the polynomial has an odd number of one bits, to make up for the one that
      fell out. */
  lemma BitStepKeepsParity(x: nat)
    ensures Odd(BitStep(x)) == Odd(x)
  {
    hide Xor, Odd;
    OddHalf(x);
    OddPolynomial();
    OddXor(x / 2, POLYNOMIAL);
  }

  lemma {:induction false} BitStepsKeepParity(x: nat, n: nat)
    ensures Odd(BitSteps(x, n)) == Odd(x)
    decreases n
  {
    hide BitStep, Odd;
    if n > 0 {
      BitStepsKeepParity(x, n - 1);
      BitStepKeepsParity(BitSteps(x, n - 1));
    }
  }

  /** Whether a message has an odd number of one bits. */
  predicate OddMessage(bytes: seq<U8>) {
    |bytes| > 0 && OddMessage(bytes[..|bytes| - 1]) != Odd(bytes[|bytes| - 1])
  }

  lemma {:induction false} UpdateParity(crc: nat, bytes: seq<U8>)
    ensures Odd(Update(crc, bytes)) <==> Odd(crc) != OddMessage(bytes)
    decreases |bytes|
  {
    hide Xor, BitSteps, Odd;
    if |bytes| > 0 {
      var front, b := bytes[..|bytes| - 1], bytes[|bytes| - 1];
      UpdateParity(crc, front);
      OddXor(Update(crc, front), b);
      BitStepsKeepParity(Xor(Update(crc, front), b), 8);
    }
  }

  /** The checksum has an odd number of one bits just when the message has. */
  lemma CrcParity(bytes: seq<U8>)
    ensures Odd(Crc(bytes)) == OddMessage(bytes)
  {
    hide Xor, Update, Odd;
    OddPolynomial();
    UpdateParity(U32_LIMIT - 1, bytes);
    OddXor(Update(U32_LIMIT - 1, bytes), U32_LIMIT - 1);
  }

  /** Whether two messages of one length differ in an odd number of bits. */
  predicate OddDifference(a: seq<U8>, b: seq<U8>)
    requires |a| == |b|
  {
    |a| > 0 && OddDifference(a[..|a| - 1], b[..|b| - 1]) != Odd(Xor(a[|a| - 1], b[|b| - 1]))
  }

  lemma {:induction false} OddDifferences(a: seq<U8>, b: seq<U8>)
    requires |a| == |b|
    ensures OddDifference(a, b) <==> OddMessage(a) != OddMessage(b)
    decreases |a|
  {
    hide Xor, Odd;
    if |a| > 0 {
      OddDifferences(a[..|a| - 1], b[..|b| - 1]);
      OddXor(a[|a| - 1], b[|b| - 1]);
    }
  }

  /** Every change of an odd number of bits, anywhere in the message, changes the checksum. */
  lemma CrcNoticesOddChange(a: seq<U8>, b: seq<U8>)
    requires |a| == |b| && OddDifference(a, b)
    ensures Crc(a) != Crc(b)
  {
    hide Crc, Odd;
    OddDifferences(a, b);
    CrcParity(a);
    CrcParity(b);
  }

  // ---- The register as a 32-bit word ----

  /** One more bit at the low end. */
  function Twice(w: Word, b: bv1): Word {
    (w << 1) | (b as Word)
  }

  lemma TwiceValue(w: Word, b: bv1)
    requires w < 0x8000_0000
    ensures Value(Twice(w, b)) == 2 * Value(w) + b as nat && b as nat < 2
  {}

  lemma LastBit(w: Word) returns (h: Word, b: bv1)
    ensures h < 0x8000_0000 && w == Twice(h, b)
  {
    h, b := w >> 1, (w & 1) as bv1;
  }

  lemma XorTwice(v: Word, w: Word, b: bv1, c: bv1)
    ensures Compression.Xor(Twice(v, b), Twice(w, c)) == Twice(Compression.Xor(v, w), b ^ c)
    ensures v < 0x8000_0000 && w < 0x8000_0000 ==> Compression.Xor(v, w) < 0x8000_0000
    ensures (b ^ c) as nat == (b as nat + c as nat) % 2
  {}

  /** Exclusive or of numbers is exclusive or of words. */
  lemma {:induction false} XorValue(v: Word, w: Word)
    ensures Value(Compression.Xor(v, w)) == Xor(Value(v), Value(w))
    decreases Value(v) + Value(w)
  {
    hide Twice, Value, Compression.Xor, Xor;
    var g, b := LastBit(v);
    var h, c := LastBit(w);
    XorTwice(g, h, b, c);
    TwiceValue(g, b);
    TwiceValue(h, c);
    TwiceValue(Compression.Xor(g, h), b ^ c);
    XorDoubled(Value(g), Value(h), b as nat, c as nat);
    if Value(v) != 0 || Value(w) != 0 {
      XorValue(g, h);
    } else {
      ZeroValue(v);
      ZeroValue(w);
      NoBits();
    }
  }

  lemma XorDoubled(m: nat, n: nat, b: nat, c: nat)
    requires b < 2 && c < 2
    ensures Xor(2 * m + b, 2 * n + c) == 2 * Xor(m, n) + (b + c) % 2
  {
    XorHalves(2 * m + b, 2 * n + c);
    hide Xor;
    assert (2 * m + b) / 2 == m && (2 * n + c) / 2 == n && (2 * m + b + (2 * n + c)) % 2 == (b + c) % 2;
  }

  lemma NoBits()
    ensures Compression.Xor(0, 0) == 0 && Value(0) == 0 && Xor(0, 0) == 0
  {}

  lemma ZeroValue(w: Word)
    ensures Value(w) == 0 <==> w == 0
  {}

  /** The step as a 32-bit register takes it: the mask is all ones if a one falls out. */
  function StepWord(w: Word): Word {
    (w >> 1) ^ (0x82F6_3B78 & (0 - (w & 1)))
  }

  lemma StepWordCases(h: Word, b: bv1)
    requires h < 0x8000_0000
    ensures StepWord(Twice(h, b)) == if b == 1 then Compression.Xor(h, 0x82F6_3B78) else h
    ensures b as nat == (if b == 1 then 1 else 0) && Value(0x82F6_3B78) == POLYNOMIAL
  {}

  /** That is the bit step on numbers. */
  lemma StepValue(w: Word)
    ensures Value(StepWord(w)) == BitStep(Value(w))
  {
    hide Twice, Value, Compression.Xor, Xor, StepWord;
    var h, b := LastBit(w);
    StepWordCases(h, b);
    TwiceValue(h, b);
    XorValue(h, 0x82F6_3B78);
  }

  function StepWords(w: Word, n: nat): Word {
    if n == 0 then w else StepWord(StepWords(w, n - 1))
  }

  lemma {:induction false} StepsValue(w: Word, n: nat)
    ensures Value(StepWords(w, n)) == BitSteps(Value(w), n)
    decreases n
  {
    hide Value, StepWord, BitStep;
    if n > 0 {
      StepsValue(w, n - 1);
      StepValue(StepWords(w, n - 1));
    }
  }

  // ---- Residue ----

  /** The checksum of every message that ends with its checksum. */
  const RESIDUE: nat := 0x48674BC7

  lemma FullRegister0()
    ensures StepWords(0xFFFF_FFFF, 0) == 0xFFFFFFFF ==> StepWords(0xFFFF_FFFF, 8) == 0xAD82ACAE
  {
    Stepped(0, 0xFFFFFFFF, 0xFD09C487);
    Stepped(1, 0xFD09C487, 0xFC72D93B);
    Stepped(2, 0xFC72D93B, 0xFCCF57E5);
    Stepped(3, 0xFCCF57E5, 0xFC91908A);
    Stepped(4, 0xFC91908A, 0x7E48C845);
    Stepped(5, 0x7E48C845, 0xBDD25F5A);
    Stepped(6, 0xBDD25F5A, 0x5EE92FAD);
    Stepped(7, 0x5EE92FAD, 0xAD82ACAE);
  }

  lemma FullRegister8()
    ensures StepWords(0xFFFF_FFFF, 8) == 0xAD82ACAE ==> StepWords(0xFFFF_FFFF, 16) == 0x0E9E882D
  {
    Stepped(8, 0xAD82ACAE, 0x56C15657);
    Stepped(9, 0x56C15657, 0xA9969053);
    Stepped(10, 0xA9969053, 0xD63D7351);
    Stepped(11, 0xD63D7351, 0xE9E882D0);
    Stepped(12, 0xE9E882D0, 0x74F44168);
    Stepped(13, 0x74F44168, 0x3A7A20B4);
    Stepped(14, 0x3A7A20B4, 0x1D3D105A);
    Stepped(15, 0x1D3D105A, 0x0E9E882D);
  }

  lemma FullRegister16()
    ensures StepWords(0xFFFF_FFFF, 16) == 0x0E9E882D ==> StepWords(0xFFFF_FFFF, 24) == 0x9F9B5C85
  {
    Stepped(16, 0x0E9E882D, 0x85B97F6E);
    Stepped(17, 0x85B97F6E, 0x42DCBFB7);
    Stepped(18, 0x42DCBFB7, 0xA39864A3);
    Stepped(19, 0xA39864A3, 0xD33A0929);
    Stepped(20, 0xD33A0929, 0xEB6B3FEC);
    Stepped(21, 0xEB6B3FEC, 0x75B59FF6);
    Stepped(22, 0x75B59FF6, 0x3ADACFFB);
    Stepped(23, 0x3ADACFFB, 0x9F9B5C85);
  }

  lemma FullRegister24()
    ensures StepWords(0xFFFF_FFFF, 24) == 0x9F9B5C85 ==> StepWords(0xFFFF_FFFF, 32) == 0xB798B438
  {
    Stepped(24, 0x9F9B5C85, 0xCD3B953A);
    Stepped(25, 0xCD3B953A, 0x669DCA9D);
    Stepped(26, 0x669DCA9D, 0xB1B8DE36);
    Stepped(27, 0xB1B8DE36, 0x58DC6F1B);
    Stepped(28, 0x58DC6F1B, 0xAE980CF5);
    Stepped(29, 0xAE980CF5, 0xD5BA3D02);
    Stepped(30, 0xD5BA3D02, 0x6ADD1E81);
    Stepped(31, 0x6ADD1E81, 0xB798B438);
  }

  lemma Stepped(n: nat, v: Word, w: Word)
    requires StepWord(v) == w
    ensures StepWords(0xFFFF_FFFF, n) == v ==> StepWords(0xFFFF_FFFF, n + 1) == w
  {}

  /** Thirty-two steps of the register that is all ones. */
  lemma FullRegister()
    ensures Xor(BitSteps(U32_LIMIT - 1, 32), U32_LIMIT - 1) == RESIDUE
  {
    FullRegister0();
    FullRegister8();
    FullRegister16();
    FullRegister24();
    StepsValue(0xFFFF_FFFF, 32);
    XorValue(0xB798B438, 0xFFFF_FFFF);
    LastValues();
    hide StepWords, BitSteps, Xor, Value, Compression.Xor;
  }

  lemma LastValues()
    ensures Value(0xFFFF_FFFF) == U32_LIMIT - 1
    ensures Value(Compression.Xor(0xB798B438, 0xFFFF_FFFF)) == RESIDUE
  {}

  /** A message followed by its own checksum has one and the same checksum, whatever the message. */
  lemma CrcResidue(bytes: seq<U8>)
    ensures Crc(bytes) < U32_LIMIT && Crc(bytes + Le(Crc(bytes), 4)) == RESIDUE
  {
    hide Update, Xor, BitSteps, Le;
    CrcRange(bytes);
    var crc := Update(U32_LIMIT - 1, bytes);
    UpdateConcat(U32_LIMIT - 1, bytes, Le(Crc(bytes), 4));
    UpdateWholeWord(crc, Crc(bytes));
    XorCancel(crc, U32_LIMIT - 1);
    FullRegister();
  }
}
