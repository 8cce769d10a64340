/** The reference implementation: chunk by chunk, merging eagerly by the trailing zeros of the chunk
    count, with chaining values kept as words. It computes the same recursive definition. */
module Reference {
  import opened Bits
  import opened Forest
  import opened Pieces
  import opened Spec
  import opened ChunkStates

  /** The reference code's node: message words instead of bytes. */
  datatype WordOutput = WordOutput(inputCv: Words8, blockWords: Words16, blockLen: nat, counter: nat, flags: bv8)

  function OfBytes(o: Output): WordOutput {
    WordOutput(o.inputCv, LoadWords(o.block), o.blockLen, o.counter, o.flags)
  }

  function WordCv(c: Compressor, o: WordOutput): Words8 {
    c(o.inputCv, o.blockWords, o.counter, o.blockLen, o.flags)[..8]
  }

  function WordParent(m: Mode, left: Words8, right: Words8): WordOutput {
    WordOutput(m.key, left + right, 64, 0, With(m.flags, PARENT))
  }

  lemma WordCvIsCv(c: Compressor, o: Output)
    ensures StoreWords(WordCv(c, OfBytes(o))) == ChainingValue(c, o)
  {
    hide StoreWords, LoadWords;
  }

  lemma WordParentIsParent(m: Mode, left: Words8, right: Words8)
    ensures WordParent(m, left, right) == OfBytes(ParentOutput(m, StoreWords(left), StoreWords(right)))
  {
    hide With, LoadWords, StoreWords;
    LoadConcat(StoreWords(left), StoreWords(right));
    LoadStore(left);
    LoadStore(right);
  }

  /** Joining words is joining the stored bytes. */
  lemma WordJoin(m: Mode, left: Words8, right: Words8)
    ensures StoreWords(WordCv(m.compress, WordParent(m, left, right)))
         == Joiner(m)(StoreWords(left), StoreWords(right))
  {
    hide StoreWords, LoadWords, ParentOutput, WordParent, WordCv, ChainingValue;
    WordParentIsParent(m, left, right);
    WordCvIsCv(m.compress, ParentOutput(m, StoreWords(left), StoreWords(right)));
  }

  /** The words on a stack are those of these chaining values. */
  ghost predicate Stores(words: seq<Words8>, cvs: seq<Cv>) {
    |words| == |cvs| && forall i :: 0 <= i < |words| ==> StoreWords(words[i]) == cvs[i]
  }

  /** One turn of the eager merge: the number of chunks, shifted right so far, is even, so the top of
      the stack and the new value are the children of a complete subtree. */
  lemma EagerStep(join: Join<Cv>, all: seq<Cv>, a: nat, s: nat) returns (b: nat)
    requires a + s == |all| && IsPow2(s) && Aligned(a, s) && Aligned(|all|, s)
    requires Quotient(|all|, s) % 2 == 0
    ensures b + s == a && IsPow2(2 * s) && Aligned(b, 2 * s) && Aligned(|all|, 2 * s)
    ensures Quotient(|all|, 2 * s) == Quotient(|all|, s) / 2
    ensures Stack(join, all[..a]) == Stack(join, all[..b]) + [Tree(join, all[b..a])]
    ensures s > 0 && Tree(join, all[b..]) == join(Tree(join, all[b..a]), Tree(join, all[a..]))
  {
    assert s > 0;
    hide Aligned, IsPow2, Quotient, Stack, Tree;
    QuotientParity(|all|, s);
    AlignedParity(a, s);
    StackTop(join, all[..a], s);
    b := a - s;
    EagerSlices(all, b, a);
    TreeOfParts(join, all[b..a], all[a..]);
  }

  lemma EagerSlices<T>(all: seq<T>, b: nat, a: nat)
    requires b <= a <= |all|
    ensures all[..a][..b] == all[..b] && all[..a][b..] == all[b..a] && all[b..a] + all[a..] == all[b..]
  {}

  /** When the shifted count is odd, nothing is left to merge. */
  lemma EagerDone(join: Join<Cv>, all: seq<Cv>, a: nat, s: nat)
    requires a + s == |all| && IsPow2(s) && Aligned(a, s) && Aligned(|all|, s)
    requires Quotient(|all|, s) % 2 == 1
    ensures s > 0 && Stack(join, all) == Stack(join, all[..a]) + [Tree(join, all[a..])]
  {
    assert s > 0;
    hide Aligned, IsPow2, Quotient, Stack, Tree;
    QuotientParity(|all|, s);
    AlignedParity(a, s);
    StackPush(join, all[..a], all[a..]);
    assert all[..a] + all[a..] == all;
  }

  class RefChunkState {
    const compress: Compressor
    const key: Words8
    var chainingValue: Words8
    var chunkCounter: nat
    const block: array<Byte>
    var blockLen: nat
    var blocksCompressed: nat
    var flags: bv8
    ghost var data: seq<Byte>

    function M(): Mode
      reads this
    {
      Mode(compress, key, flags)
    }

    ghost predicate Valid()
      reads this, block
    {
      Represents(M(), chunkCounter, data, chainingValue, block[..], blockLen, blocksCompressed)
    }

    constructor (compress: Compressor, key: Words8, chunkCounter: nat, flags: bv8)
      ensures Valid() && fresh(block)
      ensures M() == Mode(compress, key, flags) && this.chunkCounter == chunkCounter && data == []
      ensures this.compress == compress && this.key == key && this.flags == flags
    {
      this.compress, this.key, this.chunkCounter, this.flags := compress, key, chunkCounter, flags;
      chainingValue, blockLen, blocksCompressed := key, 0, 0;
      block := new Byte[64](_ => 0);
      data := [];
      new;
      assert block[..] == Pad([]);
    }

    /** A full buffer is compressed only when more input is there. */
    method MakeRoom()
      requires Valid() && |data| < 1024
      modifies this`chainingValue, this`blockLen, this`blocksCompressed, block
      ensures blockLen < 64 && |data| == 64 * blocksCompressed + blockLen
      ensures chainingValue == ChainBlocks(M(), blocksCompressed, data, chunkCounter)
      ensures block[..] == Pad(data[64 * blocksCompressed..])
    {
      hide With, ChainBlocks, LoadWords;
      if blockLen == 64 {
        ChainStep(M(), blocksCompressed, data, chunkCounter);
        var full: Block := block[..];
        assert full == data[64 * blocksCompressed..64 * (blocksCompressed + 1)];
        chainingValue := compress(chainingValue, LoadWords(full), chunkCounter, 64,
                                         With(flags, StartFlag(blocksCompressed)))[..8];
        blocksCompressed := blocksCompressed + 1;
        forall i | 0 <= i < 64 { block[i] := 0; }
        blockLen := 0;
        assert block[..] == Pad(data[64 * blocksCompressed..]);
      }
    }

    /** Copy input bytes into the block buffer. */
    method TakeBytes(input: seq<Byte>) returns (take: nat)
      requires blockLen < 64 && 0 < |input| && |data| + |input| <= 1024 && |data| == 64 * blocksCompressed + blockLen
      requires chainingValue == ChainBlocks(M(), blocksCompressed, data, chunkCounter)
      requires block[..] == Pad(data[64 * blocksCompressed..])
      modifies this`blockLen, this`data, block
      ensures 0 < take <= |input| && data == old(data) + input[..take] && Valid()
    {
      hide CompressInPlace, ChainBlocks;
      var want := 64 - blockLen;
      take := if want < |input| then want else |input|;
      ghost var held := data[64 * blocksCompressed..];
      ghost var before := block[..];
      RestOfSum(data, input[..take], 64 * blocksCompressed);
      PadExtend(held, input[..take]);
      ChainPrefix(M(), blocksCompressed, data, input[..take], chunkCounter);
      forall i | 0 <= i < take { block[blockLen + i] := input[i]; }
      assert block[..] == before[..blockLen] + input[..take] + before[blockLen + take..];
      blockLen := blockLen + take;
      data := data + input[..take];
    }

    method Update(input: seq<Byte>)
      requires Valid() && |data| + |input| <= 1024
      modifies this`chainingValue, this`blockLen, this`blocksCompressed, this`data, block
      ensures Valid() && data == old(data) + input
    {
      hide CompressInPlace, ChainBlocks, Pad;
      var rest := input;
      while |rest| > 0
        invariant Valid() && data + rest == old(data) + input
        decreases |rest|
      {
        MakeRoom();
        ghost var before := data;
        var take := TakeBytes(rest);
        TakeOver(before, rest, take);
        rest := rest[take..];
      }
    }

    method Output() returns (o: WordOutput)
      requires Valid()
      ensures o == OfBytes(ChunkOutput(M(), data, chunkCounter))
    {
      hide LoadWords, ChainBlocks, Pad;
      o := WordOutput(chainingValue, LoadWords(block[..]), blockLen, chunkCounter,
                      With(With(flags, StartFlag(blocksCompressed)), CHUNK_END));
    }
  }

  class RefHasher {
    const compress: Compressor
    const keyWords: Words8
    const flags: bv8
    var chunkState: RefChunkState
    const cvStack: array<Words8>
    var cvStackLen: nat
    ghost var message: seq<Byte>

    function M(): Mode
      reads this
    {
      Mode(compress, keyWords, flags)
    }

    ghost predicate Shape()
      reads this, chunkState, chunkState.block
    {
      && chunkState.Valid() && chunkState.M() == M()
      && cvStack.Length == 54 && cvStackLen <= 54
      && 1024 * chunkState.chunkCounter + |chunkState.data| == |message| < U64_LIMIT
      && message[1024 * chunkState.chunkCounter..] == chunkState.data
    }

    ghost function Leaves(): seq<Cv>
      requires 1024 * chunkState.chunkCounter <= |message|
      reads this, chunkState
    {
      ChunkCvs(M(), message[..1024 * chunkState.chunkCounter], 0)
    }

    /** The stack always holds exactly the complete subtrees before the current chunk. */
    ghost predicate Valid()
      reads this, chunkState, chunkState.block, cvStack
    {
      && Shape()
      && Stores(cvStack[..cvStackLen], Stack(Joiner(M()), Leaves()))
      && (message != [] ==> chunkState.data != [])
    }

    constructor (compress: Compressor, keyWords: Words8, flags: bv8)
      ensures Valid() && fresh(chunkState) && fresh(chunkState.block) && fresh(cvStack)
      ensures M() == Mode(compress, keyWords, flags) && message == []
    {
      this.compress, this.keyWords, this.flags := compress, keyWords, flags;
      chunkState := new RefChunkState(compress, keyWords, 0, flags);
      cvStack := new Words8[54](_ => seq(8, _ => 0));
      cvStackLen := 0;
      message := [];
    }

    method PushStack(cv: Words8)
      requires cvStackLen < cvStack.Length
      modifies this`cvStackLen, cvStack
      ensures cvStackLen == old(cvStackLen) + 1
      ensures cvStack[..cvStackLen] == old(cvStack[..cvStackLen]) + [cv]
    {
      cvStack[cvStackLen] := cv;
      cvStackLen := cvStackLen + 1;
    }

    method PopStack() returns (cv: Words8)
      requires 0 < cvStackLen <= cvStack.Length
      modifies this`cvStackLen
      ensures cvStackLen == old(cvStackLen) - 1
      ensures old(cvStack[..cvStackLen]) == cvStack[..cvStackLen] + [cv]
    {
      cvStackLen := cvStackLen - 1;
      cv := cvStack[cvStackLen];
    }

    /** A new chunk completes one subtree for every trailing zero of the new number of chunks. */
    method AddChunkChainingValue(newCv: Words8, totalChunks: nat, ghost all: seq<Cv>)
      requires cvStack.Length == 54 && cvStackLen <= 54
      requires 0 < totalChunks == |all| < MAX_CHUNKS
      requires Stores(cvStack[..cvStackLen], Stack(Joiner(M()), all[..|all| - 1]))
      requires StoreWords(newCv) == all[|all| - 1]
      modifies this`cvStackLen, cvStack
      ensures cvStackLen <= 54
      ensures Stores(cvStack[..cvStackLen], Stack(Joiner(M()), all))
    {
      hide StoreWords, Stack, Tree, WordCv, WordParent, Joiner, IsPow2, Aligned, Quotient, PopCount;
      ghost var join, a: nat, s: nat := Joiner(M()), |all| - 1, 1;
      var cv, total := newCv, totalChunks;
      OneLeaf(join, all);
      while total % 2 == 0
        invariant total > 0 && cvStackLen <= 54
        invariant a + s == |all| && s > 0 && IsPow2(s) && Aligned(a, s) && Aligned(|all|, s)
        invariant total == Quotient(|all|, s)
        invariant Stores(cvStack[..cvStackLen], Stack(join, all[..a]))
        invariant StoreWords(cv) == Tree(join, all[a..])
        decreases total
      {
        ghost var b := EagerStep(join, all, a, s);
        var left := PopStack();
        WordJoin(M(), left, cv);
        assert StoreWords(left) == Tree(join, all[b..a]);
        cv := WordCv(compress, WordParent(M(), left, cv));
        total := total / 2;
        a, s := b, 2 * s;
      }
      EagerDone(join, all, a, s);
      StackLength(join, all);
      Shift54();
      PopCountBound(|all|, 54);
      PushStack(cv);
    }

    /** If the current chunk is complete, put its value on the stack; more input is coming. */
    method MakeRoom()
      requires Valid() && |message| + 1 < U64_LIMIT
      modifies this`chunkState, this`cvStackLen, cvStack
      ensures Shape() && M() == old(M()) && |chunkState.data| < 1024
      ensures Stores(cvStack[..cvStackLen], Stack(Joiner(M()), Leaves()))
      ensures chunkState == old(chunkState) || (fresh(chunkState) && fresh(chunkState.block))
    {
      hide ChunkCvs, ChunkOutput, Joiner, Stack, Tree, ChainBlocks, Pad, CompressInPlace, WordCv, ChainingValue,
        Stores, StoreWords, OfBytes;
      if 64 * chunkState.blocksCompressed + chunkState.blockLen == 1024 {
        ghost var m, n, data := M(), chunkState.chunkCounter, chunkState.data;
        ghost var whole := message[..1024 * n];
        assert whole + data == message;
        ChunkCvsConcat(m, whole, data, 0);
        OneChunk(m, data, n);
        ghost var all := ChunkCvs(m, message, 0);
        var o := chunkState.Output();
        WordCvIsCv(compress, ChunkOutput(m, data, n));
        var chunkCv := WordCv(compress, o);
        var totalChunks := chunkState.chunkCounter + 1;
        assert all[..|all| - 1] == ChunkCvs(m, whole, 0);
        AddChunkChainingValue(chunkCv, totalChunks, all);
        chunkState := new RefChunkState(compress, keyWords, totalChunks, flags);
        assert message[..1024 * totalChunks] == message;
      }
    }

    method Update(input: seq<Byte>)
      requires Valid() && |message| + |input| < U64_LIMIT
      modifies this`chunkState, this`cvStackLen, this`message, cvStack, chunkState, chunkState.block
      ensures Valid() && M() == old(M()) && message == old(message) + input
      ensures chunkState == old(chunkState) || (fresh(chunkState) && fresh(chunkState.block))
    {
      hide ChunkCvs, Joiner, Stack, ChainBlocks, Pad, Stores;
      var rest := input;
      while |rest| > 0
        invariant Valid() && M() == old(M()) && message + rest == old(message) + input
        invariant chunkState == old(chunkState) || (fresh(chunkState) && fresh(chunkState.block))
        invariant chunkState == old(chunkState) ==> chunkState.block == old(chunkState.block)
        decreases |rest|
      {
        MakeRoom();
        ghost var before := message;
        var take := TakeBytes(rest);
        TakeOver(before, rest, take);
        rest := rest[take..];
      }
    }

    /** Compress input bytes into the current chunk state. */
    method TakeBytes(input: seq<Byte>) returns (take: nat)
      requires Shape() && |chunkState.data| < 1024 && |input| > 0 && |message| + |input| < U64_LIMIT
      requires Stores(cvStack[..cvStackLen], Stack(Joiner(M()), Leaves()))
      modifies this`message, chunkState, chunkState.block
      ensures 0 < take <= |input| && Valid() && M() == old(M()) && message == old(message) + input[..take]
    {
      hide ChunkCvs, Joiner, Stack, ChainBlocks, Pad, Stores;
      var want := 1024 - (64 * chunkState.blocksCompressed + chunkState.blockLen);
      take := if want < |input| then want else |input|;
      ghost var n := 1024 * chunkState.chunkCounter;
      chunkState.Update(input[..take]);
      assert (message + input[..take])[..n] == message[..n];
      message := message + input[..take];
    }

    /** Roll the stack up onto the current chunk, whatever it holds. */
    method FinalOutput() returns (o: WordOutput)
      requires Valid()
      ensures o == OfBytes(SubtreeOutput(M(), message, 0))
    {
      hide ChunkCvs, Joiner, Stack, ChainBlocks, Pad, StoreWords, OfBytes, ChunkOutput, ParentOutput, WordParent,
        WordCv, ChainingValue, SubtreeOutput, RollUp, Tree;
      ghost var m, node := M(), ChunkOutput(M(), chunkState.data, chunkState.chunkCounter);
      ghost var cvs := Stack(Joiner(m), Leaves());
      ghost var top := ChainingValue(compress, node);
      o := chunkState.Output();
      var remaining := cvStackLen;
      while remaining > 0
        invariant 0 <= remaining <= cvStackLen && o == OfBytes(node)
        invariant remaining == cvStackLen ==> node == ChunkOutput(m, chunkState.data, chunkState.chunkCounter)
        invariant remaining < cvStackLen ==>
            node == ParentOutput(m, cvs[remaining], RollUp(Joiner(m), cvs[remaining + 1..], top))
      {
        WordCvIsCv(compress, node);
        RollUpStep(m, cvs, remaining, top, node);
        node := ParentOutput(m, cvs[remaining - 1], ChainingValue(compress, node));
        WordParentIsParent(m, cvStack[remaining - 1], WordCv(compress, o));
        remaining := remaining - 1;
        o := WordParent(M(), cvStack[remaining], WordCv(compress, o));
      }
      FinalRoot(m, message, chunkState.chunkCounter);
    }
  }

  lemma OneChunk(m: Mode, data: seq<Byte>, counter: nat)
    requires 0 < |data| <= 1024
    ensures ChunkCvs(m, data, counter) == [ChainingValue(m.compress, ChunkOutput(m, data, counter))]
  {
    hide ChainingValue, ChunkOutput;
  }

  /** The chaining value of the node reached so far is the roll-up so far. */
  lemma RollUpStep(m: Mode, cvs: seq<Cv>, n: nat, top: Cv, node: Output)
    requires n <= |cvs|
    requires n == |cvs| ==> ChainingValue(m.compress, node) == top
    requires n < |cvs| ==> node == ParentOutput(m, cvs[n], RollUp(Joiner(m), cvs[n + 1..], top))
    ensures ChainingValue(m.compress, node) == RollUp(Joiner(m), cvs[n..], top)
  {
    hide ChainingValue, ParentOutput;
    if n < |cvs| { assert cvs[n..][1..] == cvs[n + 1..]; }
  }

  /** What the roll-up of the eager stack amounts to. */
  lemma FinalRoot(m: Mode, message: seq<Byte>, n: nat)
    requires 1024 * n <= |message| <= 1024 * n + 1024 && (|message| > 0 ==> 1024 * n < |message|)
    ensures var cvs := Stack(Joiner(m), ChunkCvs(m, message[..1024 * n], 0));
            var last := ChunkOutput(m, message[1024 * n..], n);
            && (|cvs| == 0 ==> SubtreeOutput(m, message, 0) == last)
            && (|cvs| > 0 ==>
                  SubtreeOutput(m, message, 0)
                  == ParentOutput(m, cvs[0], RollUp(Joiner(m), cvs[1..], ChainingValue(m.compress, last))))
  {
    hide ChunkCvs, Joiner, ChainingValue, ChunkOutput, ParentOutput, Tree, RollUp, LargestPow2;
    var whole, data := message[..1024 * n], message[1024 * n..];
    var leaves := ChunkCvs(m, whole, 0);
    if n == 0 {
      assert data == message;
    } else {
      assert whole + data == message;
      ChunkCvsConcat(m, whole, data, 0);
      OneChunk(m, data, n);
      RollUpIsTree(Joiner(m), leaves, ChunkCvs(m, data, n), 1);
      assert Tree(Joiner(m), ChunkCvs(m, data, n)) == ChunkCvs(m, data, n)[0] by { OneValue(Joiner(m),
          ChunkCvs(m, data, n)); }
      SubtreeOutputIsPair(m, message, 0);
    }
  }

  lemma OneValue(join: Join<Cv>, row: seq<Cv>)
    requires |row| == 1
    ensures Tree(join, row) == row[0]
  {}

  lemma OneLeaf(join: Join<Cv>, all: seq<Cv>)
    requires |all| > 0
    ensures IsPow2(1) && Aligned(|all| - 1, 1) && Aligned(|all|, 1) && Quotient(|all|, 1) == |all|
    ensures Tree(join, all[|all| - 1..]) == all[|all| - 1]
  {}
}
