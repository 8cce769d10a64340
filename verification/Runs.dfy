/** Whole runs: a message given in any pieces, to either hasher. */
module Runs {
  import opened Bits
  import opened Forest
  import opened Spec
  import opened Traces
  import opened ChunkStates
  import opened Subtrees
  import opened Hashers
  import opened Xof
  import opened Reference
  import opened Pieces

  /** The optimised hasher: for every mode, every SIMD degree, every way to cut the message into
      updates and every window of output, what comes out is that window of the message's hash. */
  method HashPieces(run: Compressor, m: Mode, platform: Platform, pieces: seq<seq<Byte>>, seek: nat, len: nat,
      strides: seq<nat>)
    returns (out: seq<Byte>)
    requires run == m.compress && platform.Valid() && Strides(strides) && |Flatten(pieces)| < U64_LIMIT
    ensures out == Hash(m, Flatten(pieces), seek, len)
  {
    hide Hash, Hashers.Hasher.Valid;
    var hasher := new Hasher(run, platform, m.key, m.flags);
    Feed(hasher, pieces);
    out := Window(hasher, seek, len, strides);
  }

  method Window(hasher: Hasher, seek: nat, len: nat, strides: seq<nat>) returns (out: seq<Byte>)
    requires hasher.Valid() && hasher.initialChunkCounter == 0 && Strides(strides)
    modifies hasher.trace`spans, hasher.trace`rootBlocks
    ensures out == Hash(hasher.M(), hasher.message, seek, len)
  {
    hide Hash, Hashers.Hasher.Valid;
    var buffer := new Byte[len];
    hasher.FinalizeSeek(seek, buffer, len, strides);
    out := buffer[..len];
  }

  /** Any number of updates. */
  method Feed(hasher: Hasher, pieces: seq<seq<Byte>>)
    requires hasher.Valid() && hasher.message == []
    requires Alignment.Fits(hasher.initialChunkCounter, |Flatten(pieces)|)
    modifies hasher`cvStackLen, hasher`message, hasher.cvStack, hasher.chunk, hasher.chunk.buf, hasher.trace`spans
    ensures hasher.Valid() && hasher.M() == old(hasher.M()) && hasher.message == Flatten(pieces)
    ensures Added(old(hasher.trace.spans), hasher.trace.spans, hasher.Start(),
        hasher.Start() + |hasher.message|, false)
  {
    hide Hashers.Hasher.Valid, Hashers.Hasher.M;
    for i := 0 to |pieces|
      invariant hasher.Valid() && hasher.M() == old(hasher.M())
      invariant hasher.message == Flatten(pieces[..i])
      invariant Added(old(hasher.trace.spans), hasher.trace.spans, hasher.Start(),
          hasher.Start() + |hasher.message|, false)
    {
      FlattenPrefix(pieces, i + 1);
      assert pieces[..i + 1][..i] == pieces[..i];
      hasher.Update(pieces[i]);
    }
    assert pieces[..|pieces|] == pieces;
  }

  /** The reference hasher on the same message, cut in any other way, agrees. */
  method ReferencePieces(run: Compressor, m: Mode, pieces: seq<seq<Byte>>, len: nat) returns (out: seq<Byte>)
    requires run == m.compress && |Flatten(pieces)| < U64_LIMIT
    ensures out == Hash(m, Flatten(pieces), 0, len)
  {
    hide Stack, Joiner, ChunkCvs, RootWindow, SubtreeOutput, ChainBlocks, Pad, RootBlock;
    var hasher := new RefHasher(run, m.key, m.flags);
    for i := 0 to |pieces|
      invariant hasher.Valid() && hasher.M() == m && hasher.message == Flatten(pieces[..i])
      invariant fresh(hasher) && fresh(hasher.chunkState) && fresh(hasher.chunkState.block) && fresh(hasher.cvStack)
    {
      FlattenPrefix(pieces, i + 1);
      assert pieces[..i + 1][..i] == pieces[..i];
      hasher.Update(pieces[i]);
    }
    assert pieces[..|pieces|] == pieces;
    var o := hasher.FinalOutput();
    out := RefRootBytes(run, o, SubtreeOutput(m, Flatten(pieces), 0), len);
  }

  /** The two hashers side by side on the same message. With bytes in the lazy hasher's chunk state
      both hold the same bytes there and the same values on their stacks. Without, the lazy hasher is
      one step ahead: the chunk that the reference still holds is a leaf already, and the value that
      covers it lies open on top of what the reference has merged, wherever that subtree starts. */
  lemma SideBySide(h: Hasher, r: RefHasher)
    requires h.Valid() && r.Valid() && h.M() == r.M() && h.initialChunkCounter == 0
    requires h.message == r.message != []
    ensures h.Done() >= 0 && 1024 * h.Done() <= |h.message| && h.cvStackLen <= h.cvStack.Length
    ensures r.cvStackLen <= r.cvStack.Length && 1024 * r.chunkState.chunkCounter <= |r.message|
    ensures h.chunk.data != [] ==>
      && r.chunkState.data == h.chunk.data && r.chunkState.chunkCounter == h.chunk.counter
      && Stores(r.cvStack[..r.cvStackLen], h.cvStack[..h.cvStackLen])
    ensures h.chunk.data == [] ==>
      && |r.chunkState.data| == 1024 && r.chunkState.chunkCounter == h.chunk.counter - 1
      && h.Leaves() == r.Leaves() + [ChunkCv(h.M(), r.chunkState.data, r.chunkState.chunkCounter)]
      && Stores(r.cvStack[..r.cvStackLen], Stack(Joiner(h.M()), h.Leaves()[..|h.Leaves()| - 1]))
      && exists a: nat :: LazyStack.Unmerged(Joiner(h.M()), h.cvStack[..h.cvStackLen], h.Leaves(), a)
  {
    hide Stack, Joiner, ChunkCvs, Represents, ChunkCv, Stores, LazyStack.Unmerged, Alignment.LowBit;
    var m, n := h.M(), r.chunkState.chunkCounter;
    AtMostOneChunk(h, r);
    SameCut(h.Done(), |h.chunk.data|, n, |r.chunkState.data|);
    if h.chunk.data == [] {
      assert h.message[..1024 * h.Done()] == r.message[..1024 * n] + r.chunkState.data;
      ChunkCvsConcat(m, r.message[..1024 * n], r.chunkState.data, 0);
      SingleLeaf(m, r.chunkState.data, n);
      assert h.Leaves()[..|h.Leaves()| - 1] == r.Leaves();
    }
  }

  lemma AtMostOneChunk(h: Hasher, r: RefHasher)
    requires h.Valid() && r.Valid()
    ensures |h.chunk.data| <= 1024 && |r.chunkState.data| <= 1024
  {
    hide Stack, Joiner, ChunkCvs, Stores, ChainBlocks, Pad, LazyStack.Unmerged, Alignment.LowBit;
  }

  /** Two ways to cut a length into whole chunks and a rest. */
  lemma SameCut(a: int, x: nat, b: int, y: nat)
    requires 1024 * a + x == 1024 * b + y && x <= 1024 && 0 < y <= 1024
    ensures x > 0 ==> a == b && x == y
    ensures x == 0 ==> a == b + 1 && y == 1024
  {}

  /** The reference code's output loop: block after block, the last one cut short. */
  method RefRootBytes(c: Compressor, o: WordOutput, ghost node: Output, len: nat) returns (out: seq<Byte>)
    requires o == OfBytes(node)
    ensures out == RootWindow(c, node, 0, len)
  {
    hide RootBlock, OfBytes;
    out := [];
    var counter := 0;
    while |out| < len
      invariant |out| == (if 64 * counter <= len then 64 * counter else len)
      invariant out == RootWindow(c, node, 0, |out|)
      decreases len - |out|
    {
      hide RootWindow;
      var block := RootBlockOf(c, o, node, counter);
      var take := if len - |out| < 64 then len - |out| else 64;
      WindowOfBlock(c, node, counter, 0, take);
      WindowConcat(c, node, 0, 64 * counter, take);
      out := out + block[..take];
      counter := counter + 1;
    }
  }

  method RootBlockOf(c: Compressor, o: WordOutput, ghost node: Output, counter: nat) returns (block: Block)
    requires o == OfBytes(node)
    ensures block == RootBlock(c, node, counter)
  {
    var words := c(o.inputCv, o.blockWords, counter, o.blockLen, With(o.flags, ROOT));
    block := StoreWords(words);
  }

  /** Hashing a whole input at once, without a hasher. */
  method HashAllAtOnce(t: Trace, m: Mode, platform: Platform, input: seq<Byte>) returns (o: Output)
    requires t.run == m.compress && platform.Valid() && |input| < U64_LIMIT
    modifies t`spans
    ensures o == SubtreeOutput(m, input, 0)
    ensures Added(old(t.spans), t.spans, 0, |input|, false)
  {
    hide ChunkOutput, ChainBlocks, Pad, ChunkCvs, Tree, TopPair;
    if |input| <= 1024 {
      var state := new ChunkState(m.key, m.flags, t);
      state.Update(input);
      assert [] + input == input;
      o := state.Output();
    } else {
      var left, right := CompressSubtreeToParentNode(t, m, platform, input, 0);
      o := ParentOutput(m, left, right);
    }
  }
}
