/** The SHA-256 block function: the message schedule and the working variables of section 6.2.2 of
    FIPS 180-4 as recurrences, and the loops that shift eight variables along. */
module Sha256Blocks {
  import opened Pieces
  import opened Sha256
  import Compression

  type Word = bv32

  /** The constants of the 64 rounds, eight at a time. */
  const K0: seq<Word> :=
    [0x428a2f98, 0x71374491, 0xb5c0fbcf, 0xe9b5dba5, 0x3956c25b, 0x59f111f1, 0x923f82a4, 0xab1c5ed5]
  const K1: seq<Word> :=
    [0xd807aa98, 0x12835b01, 0x243185be, 0x550c7dc3, 0x72be5d74, 0x80deb1fe, 0x9bdc06a7, 0xc19bf174]
  const K2: seq<Word> :=
    [0xe49b69c1, 0xefbe4786, 0x0fc19dc6, 0x240ca1cc, 0x2de92c6f, 0x4a7484aa, 0x5cb0a9dc, 0x76f988da]
  const K3: seq<Word> :=
    [0x983e5152, 0xa831c66d, 0xb00327c8, 0xbf597fc7, 0xc6e00bf3, 0xd5a79147, 0x06ca6351, 0x14292967]
  const K4: seq<Word> :=
    [0x27b70a85, 0x2e1b2138, 0x4d2c6dfc, 0x53380d13, 0x650a7354, 0x766a0abb, 0x81c2c92e, 0x92722c85]
  const K5: seq<Word> :=
    [0xa2bfe8a1, 0xa81a664b, 0xc24b8b70, 0xc76c51a3, 0xd192e819, 0xd6990624, 0xf40e3585, 0x106aa070]
  const K6: seq<Word> :=
    [0x19a4c116, 0x1e376c08, 0x2748774c, 0x34b0bcb5, 0x391c0cb3, 0x4ed8aa4a, 0x5b9cca4f, 0x682e6ff3]
  const K7: seq<Word> :=
    [0x748f82ee, 0x78a5636f, 0x84c87814, 0x8cc70208, 0x90befffa, 0xa4506ceb, 0xbef9a3f7, 0xc67178f2]

  const K: seq<Word> := K0 + K1 + K2 + K3 + K4 + K5 + K6 + K7

  function Ch(x: Word, y: Word, z: Word): Word { (x & y) ^ (!x & z) }

  function Parity(x: Word, y: Word, z: Word): Word { x ^ y ^ z }

  function Maj(x: Word, y: Word, z: Word): Word { Parity(x & y, x & z, y & z) }

  function BigSigma0(x: Word): Word {
    Parity(Compression.Rotr(x, 2), Compression.Rotr(x, 13), Compression.Rotr(x, 22))
  }

  function BigSigma1(x: Word): Word {
    Parity(Compression.Rotr(x, 6), Compression.Rotr(x, 11), Compression.Rotr(x, 25))
  }

  function SmallSigma0(x: Word): Word { Parity(Compression.Rotr(x, 7), Compression.Rotr(x, 18), x >> 3) }

  function SmallSigma1(x: Word): Word { Parity(Compression.Rotr(x, 17), Compression.Rotr(x, 19), x >> 10) }

  function Plus(a: Word, b: Word): Word { a + b }

  function BigWord(b3: Byte, b2: Byte, b1: Byte, b0: Byte): Word {
    ((b3 as Word) << 24) | ((b2 as Word) << 16) | ((b1 as Word) << 8) | (b0 as Word)
  }

  function BlockWord(block: Block, i: nat): Word
    requires i < 16
  {
    BigWord(block[4 * i], block[4 * i + 1], block[4 * i + 2], block[4 * i + 3])
  }

  /** Word t of the message schedule. */
  function Schedule(block: Block, t: nat): Word {
    if t < 16 then BlockWord(block, t)
    else Plus(Plus(Plus(SmallSigma1(Schedule(block, t - 2)), Schedule(block, t - 7)),
                   SmallSigma0(Schedule(block, t - 15))), Schedule(block, t - 16))
  }

  /** The values that the first and the fifth working variable take, one after another: the other six
      are these, one to three rounds late. The first four are the initial d, c, b, a and h, g, f, e. */
  function First(h: State, block: Block, i: nat): Word
    decreases i, 1
  {
    if i < 4 then h[3 - i]
    else if i >= 68 then 0
    else Plus(Temp1(h, block, i - 4), Temp2(First(h, block, i - 1), First(h, block, i - 2), First(h, block, i - 3)))
  }

  function Fifth(h: State, block: Block, i: nat): Word
    decreases i, 1
  {
    if i < 4 then h[7 - i]
    else if i >= 68 then 0
    else Plus(First(h, block, i - 4), Temp1(h, block, i - 4))
  }

  function Temp1(h: State, block: Block, t: nat): Word
    requires t < 64
    decreases t + 4, 0
  {
    T1(Fifth(h, block, t + 3), Fifth(h, block, t + 2), Fifth(h, block, t + 1), Fifth(h, block, t), t,
       Schedule(block, t))
  }

  function T1(e: Word, f: Word, g: Word, h: Word, t: nat, w: Word): Word
    requires t < 64
  {
    Plus(Plus(Plus(Plus(h, BigSigma1(e)), Ch(e, f, g)), K[t]), w)
  }

  function Temp2(a: Word, b: Word, c: Word): Word {
    Plus(BigSigma0(a), Maj(a, b, c))
  }

  /** The block function: after 64 rounds, add the working variables to the state. */
  function BlockStep(h: State, block: Block): State {
    Added(h, i requires 0 <= i < 68 => First(h, block, i), i requires 0 <= i < 68 => Fifth(h, block, i))
  }

  function Added(h: State, first: nat --> Word, fifth: nat --> Word): State
    requires forall i: nat :: i < 68 ==> first.requires(i) && fifth.requires(i)
  {
    [Plus(h[0], first(67)), Plus(h[1], first(66)), Plus(h[2], first(65)), Plus(h[3], first(64)),
     Plus(h[4], fifth(67)), Plus(h[5], fifth(66)), Plus(h[6], fifth(65)), Plus(h[7], fifth(64))]
  }

  method MessageSchedule(block: Block) returns (w: array<Word>)
    ensures fresh(w) && w.Length == 64
    ensures forall t :: 0 <= t < 64 ==> w[t] == Schedule(block, t)
  {
    hide BlockWord, SmallSigma0, SmallSigma1, Plus;
    w := new Word[64];
    for i := 0 to 16
      invariant forall t :: 0 <= t < i ==> w[t] == Schedule(block, t)
    {
      w[i] := BlockWord(block, i);
    }
    for i := 16 to 64
      invariant forall t :: 0 <= t < i ==> w[t] == Schedule(block, t)
    {
      w[i] := Plus(Plus(Plus(SmallSigma1(w[i - 2]), w[i - 7]), SmallSigma0(w[i - 15])), w[i - 16]);
    }
  }

  lemma Initially(h: State, block: Block)
    ensures h == [First(h, block, 3), First(h, block, 2), First(h, block, 1), First(h, block, 0),
                  Fifth(h, block, 3), Fifth(h, block, 2), Fifth(h, block, 1), Fifth(h, block, 0)]
  {}

  lemma NextRound(h: State, block: Block, i: nat)
    requires i < 64
    ensures var t1 := T1(Fifth(h, block, i + 3), Fifth(h, block, i + 2), Fifth(h, block, i + 1), Fifth(h, block, i),
                         i, Schedule(block, i));
      && Fifth(h, block, i + 4) == Plus(First(h, block, i), t1)
      && First(h, block, i + 4)
         == Plus(t1, Temp2(First(h, block, i + 3), First(h, block, i + 2), First(h, block, i + 1)))
  {
    hide Plus, T1, Temp2, Schedule;
  }

  /** The loop over eight variables that move along. */
  method ProcessBlock(state: State, block: Block) returns (next: State)
    ensures next == BlockStep(state, block)
  {
    hide Plus, BigSigma0, BigSigma1, Ch, Maj, Temp1, Schedule, First, Fifth;
    Initially(state, block);
    var w := MessageSchedule(block);
    var a, b, c, d := state[0], state[1], state[2], state[3];
    var e, f, g, h := state[4], state[5], state[6], state[7];
    for i := 0 to 64
      invariant a == First(state, block, i + 3) && b == First(state, block, i + 2)
      invariant c == First(state, block, i + 1) && d == First(state, block, i)
      invariant e == Fifth(state, block, i + 3) && f == Fifth(state, block, i + 2)
      invariant g == Fifth(state, block, i + 1) && h == Fifth(state, block, i)
      invariant forall t :: 0 <= t < 64 ==> w[t] == Schedule(block, t)
    {
      NextRound(state, block, i);
      var t1 := Plus(Plus(Plus(Plus(h, BigSigma1(e)), Ch(e, f, g)), K[i]), w[i]);
      var t2 := Plus(BigSigma0(a), Maj(a, b, c));
      h := g;
      g := f;
      f := e;
      e := Plus(d, t1);
      d := c;
      c := b;
      b := a;
      a := Plus(t1, t2);
    }
    next := [Plus(state[0], a), Plus(state[1], b), Plus(state[2], c), Plus(state[3], d),
             Plus(state[4], e), Plus(state[5], f), Plus(state[6], g), Plus(state[7], h)];
  }

  /** SHA-256 of a message in any pieces. */
  method Digest(pieces: seq<seq<Byte>>) returns (out: seq<Byte>)
    ensures var padded := Padded(Flatten(pieces)); out == DigestBytes(Fold(BlockStep, padded, |padded| / 64))
  {
    hide BlockStep, Fold, DigestBytes;
    out := DigestPieces(BlockStep, pieces);
  }
}
