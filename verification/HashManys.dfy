/** Hashing many equally long inputs: the interface that the SIMD code implements. The portable
    code does them one by one; a full chunk or a parent block comes out as the tree needs it. */
module HashManys {
  import opened Bits
  import opened Spec
  import opened Traces
  import opened Counters

  /** The flags and shape shared by every input of one call. */
  datatype Job = Job(ghost compress: Compressor, key: Words8, blocks: nat, flags: bv8, flagsStart: bv8, flagsEnd: bv8)

  function BlockFlags(j: Job, index: nat): bv8 {
    var f := if index == 0 then With(j.flags, j.flagsStart) else j.flags;
    if index + 1 == j.blocks then With(f, j.flagsEnd) else f
  }

  /** The chaining value after the first `done` blocks of one input. */
  ghost function HashBlocks(j: Job, input: seq<Byte>, done: nat, counter: nat): Words8
    requires 64 * done <= |input|
    decreases done
  {
    if done == 0 then j.key
    else
      CompressInPlace(j.compress, HashBlocks(j, input, done - 1, counter), input[64 * (done - 1)..64 * done],
                      64, counter, BlockFlags(j, done - 1))
  }

  ghost function HashInput(j: Job, input: seq<Byte>, counter: nat): Cv
    requires 64 * j.blocks <= |input|
  {
    StoreWords(HashBlocks(j, input, j.blocks, counter))
  }

  function ChunkJob(m: Mode): Job {
    Job(m.compress, m.key, 16, m.flags, CHUNK_START, CHUNK_END)
  }

  function ParentJob(m: Mode): Job {
    Job(m.compress, m.key, 1, With(m.flags, PARENT), 0, 0)
  }

  lemma ChunkFlags(m: Mode, index: nat)
    requires index < 16
    ensures BlockFlags(ChunkJob(m), index)
         == (var f := With(m.flags, StartFlag(index)); if index == 15 then With(f, CHUNK_END) else f)
  {}

  lemma {:induction false} ChunkJobChains(m: Mode, chunk: seq<Byte>, done: nat, counter: nat)
    requires |chunk| == 1024 && done < 16
    ensures HashBlocks(ChunkJob(m), chunk, done, counter) == ChainBlocks(m, done, chunk, counter)
    decreases done
  {
    hide CompressInPlace, With, BlockFlags;
    if done > 0 {
      ChunkJobChains(m, chunk, done - 1, counter);
      ChunkFlags(m, done - 1);
    }
  }

  /** A full chunk hashed block by block is the chunk's chaining value. */
  lemma FullChunk(m: Mode, chunk: seq<Byte>, counter: nat)
    requires |chunk| == 1024
    ensures HashInput(ChunkJob(m), chunk, counter) == ChunkCv(m, chunk, counter)
  {
    hide CompressInPlace, With, BlockFlags;
    ChunkJobChains(m, chunk, 15, counter);
    assert Pad(chunk[960..]) == chunk[960..1024];
    ChunkFlags(m, 15);
  }

  /** A parent block hashed as a one-block input is the parent's chaining value. */
  lemma ParentBlock(m: Mode, left: Cv, right: Cv)
    ensures HashInput(ParentJob(m), ParentBytes(left, right), 0) == ParentCv(m, left, right)
  {
    hide CompressInPlace;
    var block := ParentBytes(left, right);
    assert block[64 * 0..64 * 1] == block;
    assert BlockFlags(ParentJob(m), 0) == With(m.flags, PARENT);
    assert HashBlocks(ParentJob(m), block, 0, 0) == m.key;
  }

  /** The input is a node as its parent sees it: a full chunk, or the two values of a parent. */
  ghost predicate IsNode(m: Mode, j: Job, input: seq<Byte>, counter: nat, node: Node) {
    || (j == ChunkJob(m) && |input| == 1024 && node == Node(input, counter))
    || (j == ParentJob(m) && |input| == 64 && counter == 0
        && SubtreeOutput(m, node.data, node.counter) == ParentOutput(m, input[..32], input[32..]))
  }

  /** Before the last block of a chunk the job is still chaining; the last block ends the node. */
  lemma JobStep(m: Mode, j: Job, input: seq<Byte>, counter: nat, node: Node, done: nat)
    requires IsNode(m, j, input, counter, node) && done < j.blocks
    ensures |input| == 64 * j.blocks
    ensures done + 1 < j.blocks ==>
      && node == Node(input, counter) && BlockFlags(j, done) == With(m.flags, StartFlag(done))
      && HashBlocks(j, input, done, counter) == ChainBlocks(m, done, input, counter)
      && HashBlocks(j, input, done + 1, counter) == ChainBlocks(m, done + 1, input, counter)
    ensures done + 1 == j.blocks ==>
      SubtreeOutput(m, node.data, node.counter)
      == Output(HashBlocks(j, input, done, counter), input[64 * done..64 * (done + 1)], 64, counter,
                BlockFlags(j, done))
  {
    if j.blocks == 16 {
      ChunkStep(m, input, counter, done);
    } else {
      hide CompressInPlace, ChainBlocks, HashBlocks, ChunkOutput;
      assert input[..32] + input[32..] == input[0..64];
      assert BlockFlags(j, 0) == With(m.flags, PARENT);
      NoBlocks(j, input, counter);
    }
  }

  lemma ChunkStep(m: Mode, input: seq<Byte>, counter: nat, done: nat)
    requires |input| == 1024 && done < 16
    ensures done + 1 < 16 ==>
      && BlockFlags(ChunkJob(m), done) == With(m.flags, StartFlag(done))
      && HashBlocks(ChunkJob(m), input, done, counter) == ChainBlocks(m, done, input, counter)
      && HashBlocks(ChunkJob(m), input, done + 1, counter) == ChainBlocks(m, done + 1, input, counter)
    ensures done + 1 == 16 ==>
      SubtreeOutput(m, input, counter)
      == Output(HashBlocks(ChunkJob(m), input, done, counter), input[64 * done..64 * (done + 1)], 64, counter,
                BlockFlags(ChunkJob(m), done))
  {
    hide CompressInPlace, ChainBlocks, HashBlocks, With, BlockFlags;
    ChunkFlags(m, done);
    ChunkJobChains(m, input, done, counter);
    if done < 15 {
      ChunkJobChains(m, input, done + 1, counter);
    } else {
      assert Pad(input[960..]) == input[960..1024];
    }
  }

  /** The flags of block number `done`, as the loop over the blocks of one input finds them. */
  lemma NextFlags(j: Job, done: nat)
    ensures var f := if done == 0 then With(j.flags, j.flagsStart) else j.flags;
      BlockFlags(j, done) == if done + 1 == j.blocks then With(f, j.flagsEnd) else f
  {
    hide With;
  }

  lemma NoBlocks(j: Job, input: seq<Byte>, counter: nat)
    ensures HashBlocks(j, input, 0, counter) == j.key
  {}

  /** What hashing the input yields is the node's chaining value. */
  lemma JobValue(m: Mode, j: Job, input: seq<Byte>, counter: nat, node: Node)
    requires IsNode(m, j, input, counter, node)
    ensures j.compress == m.compress && j.blocks > 0 && |input| == 64 * j.blocks
    ensures HashInput(j, input, counter) == SubtreeCv(m, node.data, node.counter)
  {
    hide HashInput, ChainingValue, ChunkOutput;
    if j.blocks == 16 {
      FullChunk(m, input, counter);
    } else {
      assert input[..32] + input[32..] == input;
      ParentBlock(m, input[..32], input[32..]);
    }
  }

  method HashOne(t: Trace, j: Job, input: seq<Byte>, counter: nat, ghost m: Mode, ghost node: Node) returns (out: Cv)
    requires t.run == m.compress && IsNode(m, j, input, counter, node)
    modifies t`spans
    ensures |input| == 64 * j.blocks && out == HashInput(j, input, counter)
    ensures out == SubtreeCv(m, node.data, node.counter)
    ensures Added(old(t.spans), t.spans, node.Range().lo, node.Range().hi, true) && node.Range() in t.spans
  {
    hide With, ChainBlocks, HashBlocks, BlockFlags, HashInput, IsNode, SubtreeOutput, ParentOutput, SubtreeCv,
      ChainingValue;
    NoBlocks(j, input, counter);
    JobValue(m, j, input, counter, node);
    var cv := j.key;
    out := Zeros(32);
    var blockFlags := With(j.flags, j.flagsStart);
    var blocks: nat := j.blocks;
    var at: nat := 0;
    ghost var done: nat := 0;
    while blocks > 0
      invariant blocks + done == j.blocks && at == 64 * done
      invariant blocks > 0 ==> cv == HashBlocks(j, input, done, counter)
      invariant blocks == 0 ==> out == SubtreeCv(m, node.data, node.counter) && node.Range() in t.spans
      invariant blockFlags == (if done == 0 then With(j.flags, j.flagsStart) else j.flags)
      invariant Added(old(t.spans), t.spans, node.Range().lo, node.Range().hi, true)
      decreases blocks
    {
      if blocks == 1 {
        blockFlags := With(blockFlags, j.flagsEnd);
      }
      NextFlags(j, done);
      JobStep(m, j, input, counter, node, done);
      if blocks == 1 {
        out := t.Finish(Output(cv, input[at..at + 64], 64, counter, blockFlags), m, node);
      } else {
        cv := t.Chain(cv, input[at..at + 64], counter, blockFlags, m, done, input);
      }
      at := at + 64;
      blocks := blocks - 1;
      blockFlags := j.flags;
      done := done + 1;
    }
  }

  lemma CountFrom(counter: nat, increment: bool)
    requires counter < U64_LIMIT
    ensures InputCounter(counter, increment, 0) == counter
  {}

  /** Counting on from a later input of the same call. */
  lemma CounterOf(counter: nat, increment: bool, n: nat, k: nat)
    requires counter < U64_LIMIT
    ensures InputCounter(InputCounter(counter, increment, n), increment, k) == InputCounter(counter, increment, n + k)
  {
    if increment { WrapTwice(counter + n, k); }
  }

  /** if (increment_counter) counter += lanes. */
  method NextCounter(ghost counter: nat, current: nat, increment: bool, ghost n: nat, lanes: nat) returns (next: nat)
    requires counter < U64_LIMIT && current == InputCounter(counter, increment, n)
    ensures next == InputCounter(counter, increment, n + lanes) && next < U64_LIMIT
  {
    CounterOf(counter, increment, n, lanes);
    next := if increment then (current + lanes) % U64_LIMIT else current;
  }

  lemma JobLengths(m: Mode, j: Job, inputs: seq<seq<Byte>>, nodes: seq<Node>, counter: nat, increment: bool)
    requires |nodes| == |inputs| && counter < U64_LIMIT
    requires forall i :: 0 <= i < |inputs| ==> IsNode(m, j, inputs[i], InputCounter(counter, increment, i), nodes[i])
    ensures forall i :: 0 <= i < |inputs| ==> |inputs[i]| == 64 * j.blocks
  {
    hide IsNode, InputCounter;
    forall i | 0 <= i < |inputs| ensures |inputs[i]| == 64 * j.blocks {
      JobValue(m, j, inputs[i], InputCounter(counter, increment, i), nodes[i]);
    }
  }

  /** Every implementation of hash_many writes, for each input, what hashing it alone gives. The nodes
      say what the inputs are; all that is recorded lies inside lo..hi if they do. */
  method HashMany(t: Trace, j: Job, inputs: seq<seq<Byte>>, counter: nat, increment: bool, out: array<Cv>, at: nat,
                  ghost m: Mode, ghost nodes: seq<Node>, ghost lo: nat, ghost hi: nat, ghost whole: bool)
    requires t.run == m.compress
    requires |nodes| == |inputs| && at + |inputs| <= out.Length && counter < U64_LIMIT
    requires forall i :: 0 <= i < |inputs| ==>
      IsNode(m, j, inputs[i], InputCounter(counter, increment, i), nodes[i]) && In(nodes[i].Range(), lo, hi, whole)
    modifies out, t`spans
    ensures forall i :: 0 <= i < |inputs| ==> |inputs[i]| == 64 * j.blocks
    ensures forall k :: at <= k < at + |inputs| ==>
              out[k] == HashInput(j, inputs[k - at], InputCounter(counter, increment, k - at))
    ensures forall i :: 0 <= i < out.Length && !(at <= i < at + |inputs|) ==> out[i] == old(out[i])
    ensures Added(old(t.spans), t.spans, lo, hi, whole)
  {
    hide HashInput, IsNode, InputCounter, In;
    JobLengths(m, j, inputs, nodes, counter, increment);
    CountFrom(counter, increment);
    var next := counter;
    var n := 0;
    while n < |inputs|
      invariant n <= |inputs|
      invariant next == InputCounter(counter, increment, n)
      invariant forall k :: at <= k < at + n ==>
                  out[k] == HashInput(j, inputs[k - at], InputCounter(counter, increment, k - at))
      invariant forall i :: 0 <= i < out.Length && !(at <= i < at + n) ==> out[i] == old(out[i])
      invariant Added(old(t.spans), t.spans, lo, hi, whole)
    {
      ghost var before := t.spans;
      var cv := HashOne(t, j, inputs[n], next, m, nodes[n]);
      AddedWithin(before, t.spans, nodes[n].Range(), lo, hi, whole);
      out[at + n] := cv;
      next := NextCounter(counter, next, increment, n, 1);
      n := n + 1;
    }
  }
}
