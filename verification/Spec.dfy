/** What BLAKE3 computes, as a recursive definition over the whole message. The compression
    function is a parameter: everything below and everything proved from it holds for any. */
module Spec {
  import opened Bits
  import opened Forest
  import opened Pieces

  type Byte = bv8
  type Word = bv32
  type Words8 = s: seq<Word> | |s| == 8 witness seq(8, _ => 0)
  type Words16 = s: seq<Word> | |s| == 16 witness seq(16, _ => 0)
  type Cv = s: seq<Byte> | |s| == 32 witness seq(32, _ => 0)
  type Block = s: seq<Byte> | |s| == 64 witness seq(64, _ => 0)
  type Chunk = s: seq<Byte> | |s| <= 1024

  const CHUNK_START: bv8 := 1
  const CHUNK_END: bv8 := 2
  const PARENT: bv8 := 4
  const ROOT: bv8 := 8

  /** chaining value, message words, counter, block length, flags |-> all sixteen output words */
  type Compressor = (Words8, Words16, nat, nat, bv8) -> Words16

  /** Key and flags are what code works with. The compression function stands beside them for the
      specification only: code that runs cannot take it from here. */
  datatype Mode = Mode(ghost compress: Compressor, key: Words8, flags: bv8)

  /** The state just before choosing between a chaining value and root output. */
  datatype Output = Output(inputCv: Words8, block: Block, blockLen: nat, counter: nat, flags: bv8)

  /** Four bytes as a word, lowest first. */
  function WordOf(b0: Byte, b1: Byte, b2: Byte, b3: Byte): Word {
    b0 as Word | (b1 as Word << 8) | (b2 as Word << 16) | (b3 as Word << 24)
  }

  function LoadWord(bytes: seq<Byte>, at: nat): Word
    requires at + 4 <= |bytes|
  {
    WordOf(bytes[at], bytes[at + 1], bytes[at + 2], bytes[at + 3])
  }

  function StoreWord(w: Word): (b: seq<Byte>)
    ensures |b| == 4
  {
    [(w & 0xff) as Byte, ((w >> 8) & 0xff) as Byte, ((w >> 16) & 0xff) as Byte, ((w >> 24) & 0xff) as Byte]
  }

  function LoadWords(bytes: seq<Byte>): (ws: seq<Word>)
    requires |bytes| % 4 == 0
    ensures |ws| == |bytes| / 4
  {
    if |bytes| == 0 then [] else [LoadWord(bytes, 0)] + LoadWords(bytes[4..])
  }

  function StoreWords(ws: seq<Word>): (bytes: seq<Byte>)
    ensures |bytes| == 4 * |ws|
  {
    if |ws| == 0 then [] else StoreWord(ws[0]) + StoreWords(ws[1..])
  }

  function Zeros(n: nat): (z: seq<Byte>)
    ensures |z| == n
    ensures forall i :: 0 <= i < n ==> z[i] == 0
  {
    Repeat(0, n)
  }

  function Pad(data: seq<Byte>): Block
    requires |data| <= 64
  {
    data + Zeros(64 - |data|)
  }

  ghost function CompressInPlace(c: Compressor, cv: Words8, block: Block, blockLen: nat, counter: nat,
      flags: bv8): Words8 {
    c(cv, LoadWords(block), counter, blockLen, flags)[..8]
  }

  ghost function ChainingValue(c: Compressor, o: Output): Cv {
    StoreWords(CompressInPlace(c, o.inputCv, o.block, o.blockLen, o.counter, o.flags))
  }

  /** Flags are or-ed together. */
  function With(flags: bv8, more: bv8): bv8 {
    flags | more
  }

  function StartFlag(blocksBefore: nat): bv8 {
    if blocksBefore == 0 then CHUNK_START else 0
  }

  /** The first `blocks` blocks of a chunk, chained from the key. */
  ghost function ChainBlocks(m: Mode, blocks: nat, data: seq<Byte>, counter: nat): Words8
    requires 64 * blocks <= |data|
    decreases blocks
  {
    if blocks == 0 then m.key
    else
      CompressInPlace(m.compress, ChainBlocks(m, blocks - 1, data, counter), data[64 * (blocks - 1)..64 * blocks],
                      64, counter, With(m.flags, StartFlag(blocks - 1)))
  }

  /** How many blocks of a chunk precede the last one; the empty chunk has one empty block. */
  function FullBlocks(len: nat): (n: nat)
    ensures 64 * n <= len <= 64 * n + 64
    ensures len > 0 ==> 64 * n < len
  {
    if len == 0 then 0 else (len - 1) / 64
  }

  ghost function ChunkOutput(m: Mode, data: Chunk, counter: nat): Output {
    var n := FullBlocks(|data|);
    Output(ChainBlocks(m, n, data, counter), Pad(data[64 * n..]), |data| - 64 * n, counter,
           With(With(m.flags, StartFlag(n)), CHUNK_END))
  }

  function ParentBytes(left: Cv, right: Cv): Block {
    left + right
  }

  function ParentOutput(m: Mode, left: Cv, right: Cv): Output {
    Output(m.key, ParentBytes(left, right), 64, 0, With(m.flags, PARENT))
  }

  ghost function ChunkCv(m: Mode, data: Chunk, counter: nat): Cv {
    ChainingValue(m.compress, ChunkOutput(m, data, counter))
  }

  ghost function ParentCv(m: Mode, left: Cv, right: Cv): Cv {
    ChainingValue(m.compress, ParentOutput(m, left, right))
  }

  ghost function Joiner(m: Mode): Join<Cv> {
    (left, right) => ParentCv(m, left, right)
  }

  /** The number of chunks of an input. */
  function ChunkCount(len: nat): nat {
    (len + 1023) / 1024
  }

  /** The bytes that go to the left child: the largest power-of-two number of chunks that leaves
      at least one byte for the right child. */
  function LeftLen(len: nat): (l: nat)
    requires len > 1024
    ensures 1024 <= l < len && l % 1024 == 0
  {
    LargestPow2Spec((len - 1) / 1024);
    1024 * LargestPow2((len - 1) / 1024)
  }

  /** The node over an input that starts at chunk number `counter` of the whole message. */
  ghost function SubtreeOutput(m: Mode, input: seq<Byte>, counter: nat): Output
    decreases |input|
  {
    if |input| <= 1024 then ChunkOutput(m, input, counter)
    else
      var l := LeftLen(|input|);
      ParentOutput(m, ChainingValue(m.compress, SubtreeOutput(m, input[..l], counter)),
                   ChainingValue(m.compress, SubtreeOutput(m, input[l..], counter + l / 1024)))
  }

  ghost function SubtreeCv(m: Mode, input: seq<Byte>, counter: nat): Cv {
    ChainingValue(m.compress, SubtreeOutput(m, input, counter))
  }

  /** Block number `index` of the root's output stream. */
  ghost function RootBlock(c: Compressor, o: Output, index: nat): Block {
    StoreWords(c(o.inputCv, LoadWords(o.block), index, o.blockLen, With(o.flags, ROOT)))
  }

  /** Byte `position` of the root's infinite output stream. */
  ghost function RootByte(c: Compressor, o: Output, position: nat): Byte {
    RootBlock(c, o, position / 64)[position % 64]
  }

  ghost function RootWindow(c: Compressor, o: Output, position: nat, len: nat): seq<Byte> {
    seq(len, i requires 0 <= i => RootByte(c, o, position + i))
  }

  /** BLAKE3 of a whole message: `len` bytes of output from `seek` on. */
  ghost function Hash(m: Mode, message: seq<Byte>, seek: nat, len: nat): seq<Byte> {
    RootWindow(m.compress, SubtreeOutput(m, message, 0), seek, len)
  }

  /** The chaining values of the chunks of an input, numbered from `counter`. */
  ghost function ChunkCvs(m: Mode, input: seq<Byte>, counter: nat): (cvs: seq<Cv>)
    ensures |cvs| == ChunkCount(|input|)
    decreases |input|
  {
    if |input| == 0 then []
    else if |input| <= 1024 then [ChunkCv(m, input, counter)]
    else [ChunkCv(m, input[..1024], counter)] + ChunkCvs(m, input[1024..], counter + 1)
  }

  lemma FirstChunk(m: Mode, a: seq<Byte>, counter: nat)
    requires |a| >= 1024
    ensures ChunkCvs(m, a, counter) == [ChunkCv(m, a[..1024], counter)] + ChunkCvs(m, a[1024..], counter + 1)
  {
    hide ChunkCv;
    if |a| == 1024 { assert a[..1024] == a; }
  }

  lemma {:induction false} ChunkCvsConcat(m: Mode, a: seq<Byte>, b: seq<Byte>, counter: nat)
    requires |a| % 1024 == 0
    ensures ChunkCvs(m, a + b, counter) == ChunkCvs(m, a, counter) + ChunkCvs(m, b, counter + |a| / 1024)
    decreases |a|
  {
    if |a| == 0 {
      hide ChunkCv;
      assert a + b == b;
      assert ChunkCvs(m, a, counter) == [];
    } else {
      hide ChunkCvs, ChunkCv;
      var rest := a[1024..];
      ChunkCvsConcat(m, rest, b, counter + 1);
      FirstOfSum(a, b, 1024);
      RestOfSum(a, b, 1024);
      FirstChunk(m, a, counter);
      FirstChunk(m, a + b, counter);
      OneChunkLess(|a|);
      assert counter + 1 + |rest| / 1024 == counter + |a| / 1024;
    }
  }

  lemma OneChunkLess(len: nat)
    requires len >= 1024
    ensures (len - 1024) / 1024 + 1 == len / 1024
  {}

  /** The recursive definition on bytes is the tree over the list of chunk values. */
  lemma {:induction false} SubtreeIsTree(m: Mode, input: seq<Byte>, counter: nat)
    requires |input| > 0
    ensures SubtreeCv(m, input, counter) == Tree(Joiner(m), ChunkCvs(m, input, counter))
    decreases |input|
  {
    hide ChunkCvs, SubtreeCv, Joiner, Tree, LargestPow2;
    if |input| > 1024 {
      var l := LeftLen(|input|);
      SubtreeSplit(m, input, counter);
      SubtreeCvJoin(m, input, counter);
      TreeStep(Joiner(m), ChunkCvs(m, input, counter));
      SubtreeIsTree(m, input[..l], counter);
      SubtreeIsTree(m, input[l..], counter + l / 1024);
    } else {
      ChunkIsTree(m, input, counter);
    }
  }

  lemma ChunkIsTree(m: Mode, input: seq<Byte>, counter: nat)
    requires 0 < |input| <= 1024
    ensures SubtreeCv(m, input, counter) == Tree(Joiner(m), ChunkCvs(m, input, counter))
  {
    hide ChunkOutput, ChainingValue, Joiner;
  }

  lemma SubtreeCvJoin(m: Mode, input: seq<Byte>, counter: nat)
    requires |input| > 1024
    ensures var l := LeftLen(|input|);
      SubtreeCv(m, input, counter)
      == Joiner(m)(SubtreeCv(m, input[..l], counter), SubtreeCv(m, input[l..], counter + l / 1024))
  {
    hide SubtreeOutput, ParentOutput, ChainingValue, LeftLen;
    SubtreeJoin(m, input, counter);
  }

  /** The chunk values of the two children are the two sides of the tree's split. */
  lemma SubtreeSplit(m: Mode, input: seq<Byte>, counter: nat)
    requires |input| > 1024
    ensures var l := LeftLen(|input|);
            var cvs := ChunkCvs(m, input, counter);
            && l / 1024 == LargestPow2(|cvs| - 1) <= |cvs|
            && cvs[..l / 1024] == ChunkCvs(m, input[..l], counter)
            && cvs[l / 1024..] == ChunkCvs(m, input[l..], counter + l / 1024)
  {
    hide ChunkCv, ChunkCvs;
    var l := LeftLen(|input|);
    ChunkCvsConcat(m, input[..l], input[l..], counter);
    assert input[..l] + input[l..] == input;
  }

  /** Above one chunk the node is the parent of its two parts' values. */
  lemma SubtreeJoin(m: Mode, input: seq<Byte>, counter: nat)
    requires |input| > 1024
    ensures var l := LeftLen(|input|);
      SubtreeOutput(m, input, counter)
      == ParentOutput(m, SubtreeCv(m, input[..l], counter), SubtreeCv(m, input[l..], counter + l / 1024))
  {
    hide ParentOutput, ChainingValue, LeftLen, ChunkOutput;
  }

  /** Above one chunk the node is the parent of the two sides. */
  lemma SubtreeOutputIsPair(m: Mode, input: seq<Byte>, counter: nat)
    requires |input| > 1024
    ensures var pair := TopPair(Joiner(m), ChunkCvs(m, input, counter));
            SubtreeOutput(m, input, counter) == ParentOutput(m, pair.0, pair.1)
  {
    hide ChunkOutput, ParentOutput, ChainingValue, ChunkCvs, Tree, LargestPow2;
    var l := LeftLen(|input|);
    SubtreeSplit(m, input, counter);
    SubtreeIsTree(m, input[..l], counter);
    SubtreeIsTree(m, input[l..], counter + l / 1024);
  }

  lemma {:induction false} LoadStore(ws: seq<Word>)
    ensures LoadWords(StoreWords(ws)) == ws
  {
    if |ws| > 0 {
      LoadStore(ws[1..]);
      var bytes := StoreWords(ws);
      assert bytes[4..] == StoreWords(ws[1..]);
      LoadStoreWord(ws[0], StoreWords(ws[1..]));
    }
  }

  lemma LoadStoreWord(w: Word, rest: seq<Byte>)
    ensures LoadWord(StoreWord(w) + rest, 0) == w
  {}

  lemma LoadWordPrefix(a: seq<Byte>, b: seq<Byte>)
    requires |a| >= 4
    ensures LoadWord(a + b, 0) == LoadWord(a, 0)
  {
    hide WordOf;
  }

  lemma LoadFirst(a: seq<Byte>)
    requires |a| % 4 == 0 && |a| > 0
    ensures LoadWords(a) == [LoadWord(a, 0)] + LoadWords(a[4..])
  {
    hide LoadWord;
  }

  lemma {:induction false} LoadConcat(a: seq<Byte>, b: seq<Byte>)
    requires |a| % 4 == 0 && |b| % 4 == 0
    ensures LoadWords(a + b) == LoadWords(a) + LoadWords(b)
  {
    hide LoadWord;
    if |a| == 0 {
      assert a + b == b && LoadWords(a) == [];
    } else {
      LoadWordPrefix(a, b);
      LoadConcat(a[4..], b);
      assert (a + b)[4..] == a[4..] + b;
      LoadFirst(a);
      LoadFirst(a + b);
      hide LoadWords;
    }
  }
}
