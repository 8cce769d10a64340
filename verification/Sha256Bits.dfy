/** What the logical functions of SHA-256 do to single bits (section 4.1.2 of FIPS 180-4), and the numbers
    that its blocks, lengths and digests spell, highest byte first. */
module Sha256Bits {
  import opened Bits
  import opened Encoding
  import opened Pieces
  import opened WordBits
  import opened Sha256
  import opened Sha256Blocks
  import Spec
  import Compression

  /** One word chooses between the bits of the two others. */
  lemma ChBits(x: Word, y: Word, z: Word, i: bv5)
    ensures BitOf(Ch(x, y, z), i) <==> if BitOf(x, i) then BitOf(y, i) else BitOf(z, i)
  {
    ChParts(x, y, z);
    hide BitOf, Ch, Both, Not, Compression.Xor;
    BothBits(x, y, i);
    NotBits(x, i);
    BothBits(Not(x), z, i);
    XorBits(Both(x, y), Both(Not(x), z), i);
  }

  lemma ChParts(x: Word, y: Word, z: Word)
    ensures Ch(x, y, z) == Compression.Xor(Both(x, y), Both(Not(x), z))
  {}

  /** A bit is set where at least two of the three words have it. */
  lemma MajBits(x: Word, y: Word, z: Word, i: bv5)
    ensures BitOf(Maj(x, y, z), i) <==>
      (BitOf(x, i) && BitOf(y, i)) || (BitOf(x, i) && BitOf(z, i)) || (BitOf(y, i) && BitOf(z, i))
  {
    MajParts(x, y, z);
    hide BitOf, Maj, Both, Compression.Xor;
    BothBits(x, y, i);
    BothBits(x, z, i);
    BothBits(y, z, i);
    ParityBits(Both(x, y), Both(x, z), Both(y, z), i);
  }

  lemma MajParts(x: Word, y: Word, z: Word)
    ensures Maj(x, y, z) == Parity(Both(x, y), Both(x, z), Both(y, z))
  {}

  /** Whether an odd number of the three hold. */
  predicate Odd(a: bool, b: bool, c: bool) {
    (a != b) != c
  }

  lemma ParityBits(a: Word, b: Word, c: Word, i: bv5)
    ensures BitOf(Parity(a, b, c), i) <==> Odd(BitOf(a, i), BitOf(b, i), BitOf(c, i))
  {
    hide BitOf;
    ThreeBits(a, b, c, i);
  }

  lemma ThreeBits(a: Word, b: Word, c: Word, i: bv5)
    ensures BitOf(a ^ b ^ c, i) <==> Odd(BitOf(a, i), BitOf(b, i), BitOf(c, i))
  {}

  lemma BigSigma0Bits(x: Word, i: bv5)
    ensures BitOf(BigSigma0(x), i) <==> Odd(BitOf(x, i + 2), BitOf(x, i + 13), BitOf(x, i + 22))
  {
    SigmaParts(x);
    Turned2(x, i);
    Turned13(x, i);
    Turned22(x, i);
    hide BitOf, Compression.Rotr, Odd, Parity, BigSigma0;
    ParityBits(Compression.Rotr(x, 2), Compression.Rotr(x, 13), Compression.Rotr(x, 22), i);
  }

  lemma BigSigma1Bits(x: Word, i: bv5)
    ensures BitOf(BigSigma1(x), i) <==> Odd(BitOf(x, i + 6), BitOf(x, i + 11), BitOf(x, i + 25))
  {
    SigmaParts(x);
    Turned6(x, i);
    Turned11(x, i);
    Turned25(x, i);
    hide BitOf, Compression.Rotr, Odd, Parity, BigSigma1;
    ParityBits(Compression.Rotr(x, 6), Compression.Rotr(x, 11), Compression.Rotr(x, 25), i);
  }

  /** The last operand is shifted, not turned: past the end it has no bits. */
  lemma SmallSigma0Bits(x: Word, i: bv5)
    ensures BitOf(SmallSigma0(x), i) <==> Odd(BitOf(x, i + 7), BitOf(x, i + 18), i <= 28 && BitOf(x, i + 3))
  {
    SigmaParts(x);
    RotrBits(x, i);
    Turned18(x, i);
    Shifted3(x, i);
    hide BitOf, Compression.Rotr, Odd, Parity, SmallSigma0;
    ParityBits(Compression.Rotr(x, 7), Compression.Rotr(x, 18), Right3(x), i);
  }

  lemma SmallSigma1Bits(x: Word, i: bv5)
    ensures BitOf(SmallSigma1(x), i) <==> Odd(BitOf(x, i + 17), BitOf(x, i + 19), i <= 21 && BitOf(x, i + 10))
  {
    SigmaParts(x);
    Turned17(x, i);
    Turned19(x, i);
    Shifted10(x, i);
    hide BitOf, Compression.Rotr, Odd, Parity, SmallSigma1;
    ParityBits(Compression.Rotr(x, 17), Compression.Rotr(x, 19), Right10(x), i);
  }

  function Right3(x: Word): Word { x >> 3 }

  function Right10(x: Word): Word { x >> 10 }

  lemma SigmaParts(x: Word)
    ensures BigSigma0(x) == Parity(Compression.Rotr(x, 2), Compression.Rotr(x, 13), Compression.Rotr(x, 22))
    ensures BigSigma1(x) == Parity(Compression.Rotr(x, 6), Compression.Rotr(x, 11), Compression.Rotr(x, 25))
    ensures SmallSigma0(x) == Parity(Compression.Rotr(x, 7), Compression.Rotr(x, 18), Right3(x))
    ensures SmallSigma1(x) == Parity(Compression.Rotr(x, 17), Compression.Rotr(x, 19), Right10(x))
  {}

  lemma Shifted3(x: Word, i: bv5)
    ensures BitOf(Right3(x), i) <==> i <= 28 && BitOf(x, i + 3)
  {}

  lemma Shifted10(x: Word, i: bv5)
    ensures BitOf(Right10(x), i) <==> i <= 21 && BitOf(x, i + 10)
  {}

  lemma Turned2(w: Word, i: bv5)
    ensures BitOf(Compression.Rotr(w, 2), i) <==> BitOf(w, i + 2)
  {}

  lemma Turned13(w: Word, i: bv5)
    ensures BitOf(Compression.Rotr(w, 13), i) <==> BitOf(w, i + 13)
  {}

  lemma Turned22(w: Word, i: bv5)
    ensures BitOf(Compression.Rotr(w, 22), i) <==> BitOf(w, i + 22)
  {}

  lemma Turned6(w: Word, i: bv5)
    ensures BitOf(Compression.Rotr(w, 6), i) <==> BitOf(w, i + 6)
  {}

  lemma Turned11(w: Word, i: bv5)
    ensures BitOf(Compression.Rotr(w, 11), i) <==> BitOf(w, i + 11)
  {}

  lemma Turned25(w: Word, i: bv5)
    ensures BitOf(Compression.Rotr(w, 25), i) <==> BitOf(w, i + 25)
  {}

  lemma Turned18(w: Word, i: bv5)
    ensures BitOf(Compression.Rotr(w, 18), i) <==> BitOf(w, i + 18)
  {}

  lemma Turned17(w: Word, i: bv5)
    ensures BitOf(Compression.Rotr(w, 17), i) <==> BitOf(w, i + 17)
  {}

  lemma Turned19(w: Word, i: bv5)
    ensures BitOf(Compression.Rotr(w, 19), i) <==> BitOf(w, i + 19)
  {}

  /** Addition modulo 2^32. */
  lemma PlusValue(a: Word, b: Word)
    ensures Value(Plus(a, b)) == (Value(a) + Value(b)) % U32_LIMIT
  {
    PlusIsAdd(a, b);
    AddValue(a, b);
  }

  lemma PlusIsAdd(a: Word, b: Word)
    ensures Plus(a, b) == Compression.Add(a, b)
  {}

  // ---- Bytes, highest first ----

  /** The number that bytes spell, highest first. */
  function OfBe(bytes: seq<Byte>): nat {
    if |bytes| == 0 then 0 else 256 * OfBe(bytes[..|bytes| - 1]) + bytes[|bytes| - 1] as nat
  }

  lemma OfFour(b: seq<Byte>)
    requires |b| == 4
    ensures OfBe(b) == 256 * (256 * (256 * (b[0] as nat) + b[1] as nat) + b[2] as nat) + b[3] as nat
  {
    assert b[..3][..2] == b[..2] && b[..2][..1] == b[..1] && b[..1][..0] == [];
    assert OfBe(b[..1]) == b[0] as nat;
    assert OfBe(b[..2]) == 256 * OfBe(b[..1]) + b[1] as nat;
    assert OfBe(b[..3]) == 256 * OfBe(b[..2]) + b[2] as nat;
  }

  /** A word of the block is the number that its four bytes spell. */
  lemma BlockWordValue(block: Block, i: nat)
    requires i < 16
    ensures Value(BlockWord(block, i)) == OfBe(block[4 * i..4 * i + 4])
  {
    hide Value, Append, OfBe, BlockWord;
    var b := block[4 * i..4 * i + 4];
    BlockWordDigits(block, i);
    BytesValue(b[0], b[1], b[2], b[3]);
    OfFour(b);
  }

  lemma BlockWordDigits(block: Block, i: nat)
    requires i < 16
    ensures BlockWord(block, i)
         == Append(Append(Append(block[4 * i] as Word, block[4 * i + 1]), block[4 * i + 2]), block[4 * i + 3])
  {
    hide Append, BigWord;
    FourDigits(block[4 * i], block[4 * i + 1], block[4 * i + 2], block[4 * i + 3]);
  }

  lemma FourDigits(b3: Byte, b2: Byte, b1: Byte, b0: Byte)
    ensures BigWord(b3, b2, b1, b0)
         == Append(Append(Append(b3 as Word, b2), b1), b0)
  {}

  /** The four bytes of a word spell its number, so that what is stored is what is loaded. */
  lemma BigEndianValue(w: Word)
    ensures |BigEndian(w)| == 4 && OfBe(BigEndian(w)) == Value(w)
  {
    hide Value, Append, OfBe;
    var b := BigEndian(w);
    BigEndianDigits(w);
    BytesValue(b[0], b[1], b[2], b[3]);
    OfFour(b);
  }

  lemma BigEndianDigits(w: Word)
    ensures var b := BigEndian(w); w == Append(Append(Append(b[0] as Word, b[1]), b[2]), b[3])
  {}

  lemma BlockWordBack(block: Block, i: nat, w: Word)
    requires i < 16 && block[4 * i..4 * i + 4] == BigEndian(w)
    ensures BlockWord(block, i) == w
  {
    hide Value, OfBe;
    BlockWordValue(block, i);
    BigEndianValue(w);
    ValueInjective(BlockWord(block, i), w);
  }

  lemma ValueInjective(v: Word, w: Word)
    requires Value(v) == Value(w)
    ensures v == w
  {
    assert (v as nat) as Word == v && (w as nat) as Word == w;
  }

  // ---- The length at the end ----

  lemma NextDigit(x: nat, k: nat)
    ensures x / Pow256(k) == 256 * (x / Pow256(k + 1)) + x / Pow256(k) % 256
  {
    var p := Pow256(k);
    var d, s := x / p, x % p;
    var q, b := d / 256, d % 256;
    Distribute(p, q, b);
    RemainderIs(x, 256 * p, q, p * b + s);
  }

  lemma Distribute(p: nat, q: nat, b: nat)
    requires b < 256
    ensures p * (256 * q + b) == (256 * p) * q + p * b
    ensures p * b + p <= 256 * p
  {
    Regroup(p, q);
    assert p * b <= p * 255;
  }

  /** Every number below 256 is that of a byte. */
  lemma {:induction false} SomeByte(n: nat) returns (b: Byte)
    requires n < 256
    ensures b as nat == n
  {
    if n == 0 {
      b := 0;
    } else {
      var c := SomeByte(n - 1);
      TopByte();
      NextByte(c);
      b := c + 1;
    }
  }

  lemma TopByte()
    ensures (0xff as Byte) as nat == 255
  {}

  lemma ByteBack(b: Byte)
    ensures (b as nat) as Byte == b
  {}

  lemma SmallByte(n: nat)
    requires n < 256
    ensures (n as Byte) as nat == n
  {
    var b := SomeByte(n);
    ByteBack(b);
  }

  lemma {:induction false} LengthPrefix(bits: nat, n: nat)
    requires n <= 8 && bits < U64_LIMIT
    ensures OfBe(LengthBytes(bits)[..n]) == bits / Pow256(8 - n)
    decreases n
  {
    hide Pow256;
    Widths();
    if n > 0 {
      LengthPrefix(bits, n - 1);
      var b := LengthBytes(bits)[..n];
      assert b[..n - 1] == LengthBytes(bits)[..n - 1];
      NextDigit(bits, 8 - n);
      SmallByte(bits / Pow256(8 - n) % 256);
    }
  }

  /** The last eight bytes of a padded message spell its length in bits. */
  lemma LengthValue(bits: nat)
    requires bits < U64_LIMIT
    ensures OfBe(LengthBytes(bits)) == bits
  {
    LengthPrefix(bits, 8);
    assert LengthBytes(bits)[..8] == LengthBytes(bits);
  }

  /** The digest is the eight words, each highest byte first. */
  lemma DigestValue(h: State, i: nat)
    requires i < 8
    ensures |DigestBytes(h)| == 32 && OfBe(DigestBytes(h)[4 * i..4 * i + 4]) == Value(h[i])
  {
    hide BigEndian, Value, OfBe;
    forall k | 0 <= k < 8 ensures |BigEndian(h[k])| == 4 && OfBe(BigEndian(h[k])) == Value(h[k]) {
      BigEndianValue(h[k]);
    }
    var d := DigestBytes(h);
    var b1 := BigEndian(h[0]) + BigEndian(h[1]);
    var b2 := b1 + BigEndian(h[2]);
    var b3 := b2 + BigEndian(h[3]);
    var b4 := b3 + BigEndian(h[4]);
    var b5 := b4 + BigEndian(h[5]);
    var b6 := b5 + BigEndian(h[6]);
    assert d == b6 + BigEndian(h[7]) && d[0..32] == d;
    SliceIsSum(d, 0, b6, BigEndian(h[7]));
    SliceIsSum(d, 0, b5, BigEndian(h[6]));
    SliceIsSum(d, 0, b4, BigEndian(h[5]));
    SliceIsSum(d, 0, b3, BigEndian(h[4]));
    SliceIsSum(d, 0, b2, BigEndian(h[3]));
    SliceIsSum(d, 0, b1, BigEndian(h[2]));
    SliceIsSum(d, 0, BigEndian(h[0]), BigEndian(h[1]));
  }

  /** A padded message is the message, the byte 128, zeros, and the message's length in bits; whole blocks. */
  lemma PaddedLayout(message: seq<Byte>)
    requires 8 * |message| < U64_LIMIT
    ensures var p, n := Padded(message), |message|;
      && |p| % 64 == 0 && n + 9 <= |p| < n + 9 + 64
      && p[..n] == message && p[n] as nat == 128
      && (forall i :: n < i < |p| - 8 ==> p[i] == 0)
      && OfBe(p[|p| - 8..]) == 8 * n
  {
    hide LengthBytes, OfBe, PadZeros;
    var n, k := |message|, PadZeros(|message|);
    var zeros, tail := Spec.Zeros(k), LengthBytes(8 * n);
    LengthValue(8 * n);
    var p := Padded(message);
    assert p == message + [0x80] + zeros + tail;
    assert p[n + 1 + k..] == tail;
    assert forall i :: n < i < n + 1 + k ==> p[i] == zeros[i - n - 1];
  }
}
