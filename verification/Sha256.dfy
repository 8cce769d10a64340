/** SHA-256 as a stream: bytes go into a 64-byte buffer that is processed whenever it is full, and
    finishing pads the message in that buffer. The block function is a parameter. */
module Sha256 {
  import opened Bits
  import opened Pieces
  import opened Encoding
  import Spec

  type Byte = bv8
  type State = s: seq<bv32> | |s| == 8 witness seq(8, _ => 0)
  type Block = s: seq<Byte> | |s| == 64 witness seq(64, _ => 0)
  type BlockFunction = (State, Block) -> State

  const INITIAL: State := [0x6a09e667, 0xbb67ae85, 0x3c6ef372, 0xa54ff53a, 0x510e527f, 0x9b05688c, 0x1f83d9ab,
      0x5be0cd19]

  /** Processing the first `blocks` blocks, one after the other. */
  function Fold(f: BlockFunction, data: seq<Byte>, blocks: nat): State
    requires 64 * blocks <= |data|
    decreases blocks
  {
    if blocks == 0 then INITIAL else f(Fold(f, data, blocks - 1), data[64 * (blocks - 1)..64 * blocks])
  }

  /** Processing looks only at the blocks it processes. */
  lemma {:induction false} FoldPrefix(f: BlockFunction, data: seq<Byte>, more: seq<Byte>, blocks: nat)
    requires 64 * blocks <= |data|
    ensures Fold(f, data + more, blocks) == Fold(f, data, blocks)
    decreases blocks
  {
    if blocks > 0 {
      FoldPrefix(f, data, more, blocks - 1);
      assert (data + more)[64 * (blocks - 1)..64 * blocks] == data[64 * (blocks - 1)..64 * blocks];
    }
  }

  function LengthByte(bits: nat, i: nat): Byte {
    (bits / Pow256(i) % 256) as Byte
  }

  /** The 64-bit length, highest byte first. */
  function LengthBytes(bits: nat): (b: seq<Byte>)
    ensures |b| == 8
  {
    seq(8, i requires 0 <= i < 8 => LengthByte(bits, 7 - i))
  }

  /** Section 5.1.1 of FIPS 180-4: a one bit, the fewest zero bits that leave room for 64 bits, and
      the message length in those. */
  function PadZeros(len: nat): (k: nat)
    ensures (len + 1 + k) % 64 == 56 && k < 64
  {
    (119 - len % 64) % 64
  }

  function Padded(message: seq<Byte>): (p: seq<Byte>)
    ensures |p| % 64 == 0
  {
    var k := PadZeros(|message|);
    EightMore(|message| + 1 + k);
    message + [0x80] + Spec.Zeros(k) + LengthBytes(8 * |message| % U64_LIMIT)
  }

  lemma PaddedParts(message: seq<Byte>, bits: nat)
    requires bits == 8 * |message| % U64_LIMIT
    ensures Padded(message) == message + [0x80] + Spec.Zeros(PadZeros(|message|)) + LengthBytes(bits)
  {
    hide PadZeros;
  }

  lemma EightMore(n: nat)
    requires n % 64 == 56
    ensures (n + 8) % 64 == 0
  {}

  /** No smaller number of zeros would do. */
  lemma PadZerosFewest(len: nat, k: nat)
    requires (len + 1 + k) % 64 == 56
    ensures PadZeros(len) <= k
  {}

  lemma FillOf(blocks: nat, fill: nat)
    ensures (64 * blocks + fill) % 64 == fill % 64
  {}

  /** While padding, the fill of the buffer tells whether enough zeros are there. */
  lemma BufferTells(len: nat, zeros: nat, fill: nat, blocks: nat)
    requires 0 < fill <= 64 && len + 1 + zeros == 64 * blocks + fill
    requires zeros <= PadZeros(len)
    ensures fill == 56 <==> zeros == PadZeros(len)
  {
    FillOf(blocks, fill);
    if fill == 56 { PadZerosFewest(len, zeros); }
  }

  lemma LengthSum(a: nat, b: nat)
    ensures (8 * a % U64_LIMIT + b * 8) % U64_LIMIT == 8 * (a + b) % U64_LIMIT
  {
    WrapTwice(8 * a, 8 * b);
  }

  function BigEndian(w: bv32): seq<Byte> {
    [((w >> 24) & 0xff) as Byte, ((w >> 16) & 0xff) as Byte, ((w >> 8) & 0xff) as Byte, (w & 0xff) as Byte]
  }

  function DigestBytes(h: State): seq<Byte> {
    BigEndian(h[0]) + BigEndian(h[1]) + BigEndian(h[2]) + BigEndian(h[3])
    + BigEndian(h[4]) + BigEndian(h[5]) + BigEndian(h[6]) + BigEndian(h[7])
  }

  class Context {
    const f: BlockFunction
    var h: State
    var len: nat
    const buf: array<Byte>
    var bufLen: nat
    /** How many blocks have gone into h. */
    ghost var blocks: nat

    /** The fields stand for this byte string: whole blocks in h, the rest in the buffer. */
    ghost predicate Holds(data: seq<Byte>)
      reads this, buf
    {
      && buf.Length == 64 && bufLen <= 64 && |data| == 64 * blocks + bufLen
      && buf[..bufLen] == data[64 * blocks..]
      && h == Fold(f, data, blocks)
    }

    ghost predicate Valid(message: seq<Byte>)
      reads this, buf
    {
      Holds(message) && bufLen < 64 && len == 8 * |message| % U64_LIMIT
    }

    constructor (f: BlockFunction)
      ensures Valid([]) && fresh(buf) && this.f == f
    {
      this.f := f;
      h := INITIAL;
      len, bufLen, blocks := 0, 0, 0;
      buf := new Byte[64](_ => 0);
    }

    /** buf[buf_len++] = byte. */
    method Put(byte: Byte, ghost data: seq<Byte>)
      requires Holds(data) && bufLen < 64
      modifies this`bufLen, buf
      ensures Holds(data + [byte]) && bufLen == old(bufLen) + 1
    {
      hide Fold;
      FoldPrefix(f, data, [byte], blocks);
      buf[bufLen] := byte;
      bufLen := bufLen + 1;
      assert (data + [byte])[64 * blocks..] == data[64 * blocks..] + [byte];
      assert buf[..bufLen] == buf[..bufLen - 1] + [byte];
    }

    /** If the buffer is full, process it. */
    method Flush(ghost data: seq<Byte>)
      requires Holds(data)
      modifies this`h, this`bufLen, this`blocks
      ensures Holds(data) && bufLen == (if old(bufLen) == 64 then 0 else old(bufLen))
    {
      if bufLen == 64 {
        assert buf[..] == buf[..bufLen] == data[64 * blocks..64 * (blocks + 1)];
        h := f(h, buf[..]);
        bufLen := 0;
        blocks := blocks + 1;
      }
    }

    method Update(input: seq<Byte>, ghost message: seq<Byte>)
      requires Valid(message)
      modifies this`h, this`len, this`bufLen, this`blocks, buf
      ensures Valid(message + input)
    {
      hide Fold;
      LengthSum(|message|, |input|);
      len := (len + |input| * 8) % U64_LIMIT;
      var i := 0;
      assert message + input[..0] == message;
      while i < |input|
        invariant i <= |input| && len == 8 * (|message| + |input|) % U64_LIMIT
        invariant Holds(message + input[..i]) && bufLen < 64
      {
        ghost var so := message + input[..i];
        Put(input[i], so);
        OneMore(message, input, i);
        Flush(message + input[..i + 1]);
        i := i + 1;
      }
      assert input[..|input|] == input;
    }

    /** Padding in place and processing: the digest is that of the padded message. */
    method Final(ghost message: seq<Byte>) returns (out: seq<Byte>)
      requires Valid(message)
      modifies this`h, this`bufLen, this`blocks, buf
      ensures out == DigestBytes(Fold(f, Padded(message), |Padded(message)| / 64))
    {
      hide Fold, LengthBytes, PadZeros, Padded, DigestBytes;
      ghost var bits := len;
      PaddedParts(message, bits);
      Put(0x80, message);
      PadWithZeros(message);
      AppendLength(message + [0x80] + Spec.Zeros(PadZeros(|message|)), bits);
      Flush(Padded(message));
      out := DigestBytes(h);
    }

    /** Zeros until eight bytes are left in the block, going on to another block if need be. */
    method PadWithZeros(ghost message: seq<Byte>)
      requires Holds(message + [0x80]) && 0 < bufLen
      modifies this`h, this`bufLen, this`blocks, buf
      ensures bufLen == 56 && Holds(message + [0x80] + Spec.Zeros(PadZeros(|message|)))
    {
      hide Fold, PadZeros;
      ghost var zeros: nat := 0;
      ghost var head := message + [0x80];
      assert head + Spec.Zeros(0) == head;
      while bufLen != 56
        invariant Holds(head + Spec.Zeros(zeros)) && 0 < bufLen && zeros <= PadZeros(|message|)
        decreases PadZeros(|message|) - zeros
      {
        ghost var so := head + Spec.Zeros(zeros);
        BufferTells(|message|, zeros, bufLen, blocks);
        Flush(so);
        Put(0, so);
        assert so + [0] == head + Spec.Zeros(zeros + 1);
        zeros := zeros + 1;
      }
      BufferTells(|message|, zeros, bufLen, blocks);
    }

    method AppendLength(ghost data: seq<Byte>, ghost bits: nat)
      requires Holds(data) && bufLen == 56 && len == bits
      modifies this`bufLen, buf
      ensures Holds(data + LengthBytes(bits)) && bufLen == 64
    {
      hide Fold, LengthByte;
      var i := 0;
      ghost var tail := LengthBytes(bits);
      assert data + tail[..0] == data;
      while i < 8
        invariant i <= 8 && bufLen == 56 + i && Holds(data + tail[..i])
      {
        ghost var so := data + tail[..i];
        Put(LengthByte(len, 7 - i), so);
        assert so + [LengthByte(bits, 7 - i)] == data + tail[..i + 1];
        i := i + 1;
      }
      assert tail[..8] == tail;
    }
  }

  /** Any way of cutting the message into updates gives the digest of the padded message. */
  method DigestPieces(f: BlockFunction, pieces: seq<seq<Byte>>) returns (out: seq<Byte>)
    ensures var padded := Padded(Flatten(pieces)); out == DigestBytes(Fold(f, padded, |padded| / 64))
  {
    hide Fold, DigestBytes, LengthBytes, PadZeros;
    var ctx := new Context(f);
    for i := 0 to |pieces|
      invariant ctx.Valid(Flatten(pieces[..i])) && fresh(ctx) && fresh(ctx.buf) && ctx.f == f
    {
      assert pieces[..i + 1][..i] == pieces[..i];
      ctx.Update(pieces[i], Flatten(pieces[..i]));
    }
    assert pieces[..|pieces|] == pieces;
    out := ctx.Final(Flatten(pieces));
  }
}
