/** What the operations on 32-bit words do to single bits, to bytes and to the numbers that words
    stand for. */
module WordBits {
  import opened Bits
  import opened Spec
  import opened Compression

  /** Bit i of a word; an index past the last bit starts again at the first. */
  predicate BitOf(w: Word, i: bv5) {
    (w >> i) & 1 == 1
  }

  function Both(x: Word, y: Word): Word { x & y }

  function Not(x: Word): Word { !x }

  lemma BothBits(x: Word, y: Word, i: bv5)
    ensures BitOf(Both(x, y), i) <==> BitOf(x, i) && BitOf(y, i)
  {}

  lemma NotBits(x: Word, i: bv5)
    ensures BitOf(Not(x), i) <==> !BitOf(x, i)
  {}

  /** Exclusive or: a bit is set just where exactly one of the two words has it. */
  lemma XorBits(x: Word, y: Word, i: bv5)
    ensures BitOf(Xor(x, y), i) <==> BitOf(x, i) != BitOf(y, i)
  {
    hide BitOf;
    DifferentBits(x, y, i);
  }

  lemma DifferentBits(x: Word, y: Word, i: bv5)
    ensures BitOf(x ^ y, i) <==> BitOf(x, i) != BitOf(y, i)
  {}

  /** The rotations of the mixing function: bit i is the bit that stood c places higher, around the end. */
  lemma RotrBits(w: Word, i: bv5)
    ensures BitOf(Rotr(w, 16), i) <==> BitOf(w, i + 16)
    ensures BitOf(Rotr(w, 12), i) <==> BitOf(w, i + 12)
    ensures BitOf(Rotr(w, 8), i) <==> BitOf(w, i + 8)
    ensures BitOf(Rotr(w, 7), i) <==> BitOf(w, i + 7)
  {
    hide BitOf;
    assert Rotr(w, 16) == (w >> 16) | (w << 16) && Rotr(w, 12) == (w >> 12) | (w << 20);
    assert Rotr(w, 8) == (w >> 8) | (w << 24) && Rotr(w, 7) == (w >> 7) | (w << 25);
    Turned16(w, i);
    Turned12(w, i);
    Turned8(w, i);
    Turned7(w, i);
  }

  lemma Turned16(w: Word, i: bv5)
    ensures BitOf((w >> 16) | (w << 16), i) <==> BitOf(w, i + 16)
  {}

  lemma Turned12(w: Word, i: bv5)
    ensures BitOf((w >> 12) | (w << 20), i) <==> BitOf(w, i + 12)
  {}

  lemma Turned8(w: Word, i: bv5)
    ensures BitOf((w >> 8) | (w << 24), i) <==> BitOf(w, i + 8)
  {}

  lemma Turned7(w: Word, i: bv5)
    ensures BitOf((w >> 7) | (w << 25), i) <==> BitOf(w, i + 7)
  {}

  // ---- Numbers ----

  /** The number that a word stands for. */
  function Value(w: Word): (n: nat)
    ensures n < U32_LIMIT
  {
    w as nat
  }

  /** A byte appended at the low end. */
  function Append(h: Word, l: Byte): Word {
    (h << 8) | (l as Word)
  }

  function Next(w: Word): Word {
    w + 1
  }

  /** A byte appended is one more digit to the base 256. */
  lemma AppendValue(h: Word, l: Byte)
    requires h < 0x100_0000
    ensures Value(Append(h, l)) == 256 * Value(h) + l as nat
  {}

  lemma ByteValue(b: Byte)
    ensures Value(b as Word) == b as nat < 256
  {}

  /** The word with these bytes, highest first, is the number they spell to the base 256. */
  lemma BytesValue(b3: Byte, b2: Byte, b1: Byte, b0: Byte)
    ensures Value(Append(Append(Append(b3 as Word, b2), b1), b0))
         == 256 * (256 * (256 * (b3 as nat) + b2 as nat) + b1 as nat) + b0 as nat
  {
    var x := Append(b3 as Word, b2);
    var y := Append(x, b1);
    assert b3 as Word < 0x100_0000 && x < 0x100_0000 && y < 0x100_0000;
    hide Append, Value;
    ByteValue(b3);
    AppendValue(b3 as Word, b2);
    AppendValue(x, b1);
    AppendValue(y, b0);
  }

  /** Words are loaded with the lowest byte first. */
  lemma LoadWordValue(bytes: seq<Byte>, at: nat)
    requires at + 4 <= |bytes|
    ensures Value(LoadWord(bytes, at))
         == 256 * (256 * (256 * (bytes[at + 3] as nat) + bytes[at + 2] as nat) + bytes[at + 1] as nat)
            + bytes[at] as nat
  {
    hide Append, Value, WordOf;
    WordOfDigits(bytes[at], bytes[at + 1], bytes[at + 2], bytes[at + 3]);
    BytesValue(bytes[at + 3], bytes[at + 2], bytes[at + 1], bytes[at]);
  }

  lemma WordOfDigits(b0: Byte, b1: Byte, b2: Byte, b3: Byte)
    ensures WordOf(b0, b1, b2, b3) == Append(Append(Append(b3 as Word, b2), b1), b0)
  {}

  lemma NextByte(b: Byte)
    requires b != 0xff
    ensures (b + 1) as nat == b as nat + 1
  {}

  /** The carry of one more, passed on from byte to byte. */
  lemma NextAppended(h: Word, l: Byte)
    requires h < 0x100_0000
    ensures l != 0xff ==> Next(Append(h, l)) == Append(h, l + 1)
    ensures l == 0xff && Append(h, l) != 0xffff_ffff ==>
      Next(h) < 0x100_0000 && Next(Append(h, l)) == Append(Next(h), 0)
  {
    Carried(h, l);
    assert (h << 8) | 0xff == 0xffff_ffff <==> h == 0xff_ffff;
  }

  lemma Carried(h: Word, l: Byte)
    requires h < 0x100_0000
    ensures l != 0xff ==> ((h << 8) | (l as Word)) + 1 == (h << 8) | ((l + 1) as Word)
    ensures l == 0xff && h != 0xff_ffff ==>
      h + 1 < 0x100_0000 && ((h << 8) | (l as Word)) + 1 == ((h + 1) << 8) | ((0 as Byte) as Word)
  {}

  lemma LastByte(x: Word) returns (h: Word, l: Byte)
    ensures h < 0x100_0000 && x == Append(h, l)
    ensures l == 0xff && x != 0xffff_ffff ==> h != 0xffff_ffff
    ensures l == 0xff ==> l as nat == 255
  {
    h, l := x >> 8, (x & 0xff) as Byte;
  }

  /** The next word stands for the next number. */
  lemma {:induction false} NextValue(x: Word)
    requires x != 0xffff_ffff
    ensures Value(Next(x)) == Value(x) + 1
    decreases Value(x)
  {
    hide Append, Value, Next;
    var h, l := LastByte(x);
    NextAppended(h, l);
    AppendValue(h, l);
    if l != 0xff {
      AppendValue(h, l + 1);
      NextByte(l);
    } else {
      NextValue(h);
      AppendValue(Next(h), 0);
    }
  }

  /** Addition is addition of the numbers, modulo 2^32. */
  lemma {:induction false} AddValue(a: Word, b: Word)
    ensures Value(Add(a, b)) == (Value(a) + Value(b)) % U32_LIMIT
    decreases Value(b)
  {
    hide Add, Value, Next;
    if b == 0 {
      AddNothing(a);
    } else {
      var c := b - 1;
      NextOfBefore(b);
      NextValue(c);
      AddValue(a, c);
      AddNext(a, b);
      var sum := Add(a, c);
      if sum != 0xffff_ffff { NextValue(sum); } else { AllOnes(); }
    }
  }

  /** The same for the sums of three that the mixing function takes. */
  lemma {:induction false} SumValue(a: Word, b: Word, c: Word)
    ensures Value(Sum(a, b, c)) == (Value(a) + Value(b) + Value(c)) % U32_LIMIT
    decreases Value(c)
  {
    hide Sum, Add, Value, Next;
    if c == 0 {
      SumNothing(a, b);
      AddValue(a, b);
    } else {
      NextOfBefore(c);
      NextValue(c - 1);
      SumValue(a, b, c - 1);
      SumNext(a, b, c);
      var sum := Sum(a, b, c - 1);
      if sum != 0xffff_ffff { NextValue(sum); } else { AllOnes(); }
    }
  }

  lemma SumNothing(a: Word, b: Word)
    ensures Sum(a, b, 0) == Add(a, b) && Value(0) == 0
  {}

  lemma SumNext(a: Word, b: Word, c: Word)
    ensures Sum(a, b, c) == Next(Sum(a, b, c - 1))
  {
    hide Next;
    OneMoreSummed(a, b, c);
    OneMore(Sum(a, b, c - 1));
  }

  lemma OneMoreSummed(a: Word, b: Word, c: Word)
    ensures Sum(a, b, c) == Sum(a, b, c - 1) + 1
  {}

  lemma NextOfBefore(b: Word)
    requires b != 0
    ensures b == Next(b - 1) && b - 1 != 0xffff_ffff
  {}

  lemma AddNothing(a: Word)
    ensures Add(a, 0) == a && Value(0) == 0
  {}

  lemma AddNext(a: Word, b: Word)
    ensures Add(a, b) == Next(Add(a, b - 1))
  {
    hide Next;
    OneMoreAdded(a, b);
    OneMore(Add(a, b - 1));
  }

  lemma OneMoreAdded(a: Word, b: Word)
    ensures Add(a, b) == Add(a, b - 1) + 1
  {}

  lemma OneMore(w: Word)
    ensures Next(w) == w + 1
  {}

  lemma AllOnes()
    ensures Value(0xffff_ffff) == U32_LIMIT - 1 && Value(Next(0xffff_ffff)) == 0
  {}

  // ---- The words of the initial state ----

  /** Every number below 2^32 is that of a word. */
  lemma {:induction false} SomeWord(n: nat) returns (w: Word)
    requires n < U32_LIMIT
    ensures Value(w) == n
  {
    hide Value, Next;
    AllOnes();
    if n == 0 {
      AddNothing(0);
      w := 0;
    } else {
      var v := SomeWord(n - 1);
      NextValue(v);
      w := Next(v);
    }
  }

  lemma WordBack(w: Word)
    ensures ToWord(Value(w)) == w
  {}

  lemma ToWordValue(n: nat)
    requires n < U32_LIMIT
    ensures Value(ToWord(n)) == n
  {
    hide Value, ToWord;
    var w := SomeWord(n);
    WordBack(w);
  }

  /** The initial state ends with the two halves of the counter, the length of the block and the flags. */
  lemma StartValues(cv: Words8, counter: nat, blockLen: nat, flags: bv8)
    requires counter < U64_LIMIT && blockLen <= 64
    ensures var s := Start(cv, counter, blockLen, flags);
      && s[..8] == cv && s[8..12] == IV[..4]
      && Value(s[12]) + U32_LIMIT * Value(s[13]) == counter
      && Value(s[14]) == blockLen && Value(s[15]) == flags as nat
  {
    hide Value, ToWord, IV;
    ToWordValue(counter % U32_LIMIT);
    ToWordValue(counter / U32_LIMIT);
    ToWordValue(blockLen);
    ByteValue(flags);
    StartParts(cv, counter, blockLen, flags);
  }

  lemma StartParts(cv: Words8, counter: nat, blockLen: nat, flags: bv8)
    requires counter < U64_LIMIT && blockLen <= 64
    ensures var s := Start(cv, counter, blockLen, flags);
      && s[..8] == cv && s[8..12] == IV[..4]
      && s[12] == ToWord(counter % U32_LIMIT) && s[13] == ToWord(counter / U32_LIMIT)
      && s[14] == ToWord(blockLen) && s[15] == flags as Word
  {
    hide ToWord, IV;
    assert counter / U32_LIMIT % U32_LIMIT == counter / U32_LIMIT;
    assert blockLen % U32_LIMIT == blockLen;
    var s := Start(cv, counter, blockLen, flags);
    assert s[8..12] == [IV[0], IV[1], IV[2], IV[3]] == IV[..4];
  }
}
