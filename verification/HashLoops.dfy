/** hash_many with its loops: as many full groups of every width as there are inputs, and single inputs
    at the end, written to the output one after the other. For any job. */
module HashLoops {
  import opened Bits
  import opened Spec
  import opened Compression
  import opened RowForm
  import opened HashManys
  import opened Counters
  import opened Lanes

  /** The compression function of one input: the array form or the row form. */
  method CompressWords(code: CounterCode, cv: Words8, m: Words16, counter: nat, blockLen: nat, flags: bv8)
    returns (out: Words16)
    ensures out == Compress(cv, m, counter, blockLen, flags)
  {
    hide Compress;
    if code.Portable? {
      out := PortableCompress(cv, m, counter, blockLen, flags);
    } else {
      out := RowCompress(cv, m, counter, blockLen, flags);
    }
  }

  /** One more block of the input taken into the chaining value. */
  method ChainWords(ghost j: Job, code: CounterCode, ghost input: seq<Byte>, ghost done: nat, h: Words8, block: Block,
                    counter: nat, flags: bv8)
    returns (next: Words8)
    requires j.compress == Blake3() && 64 * (done + 1) <= |input|
    requires h == HashBlocks(j, input, done, counter)
    requires block == input[64 * done..64 * (done + 1)] && flags == BlockFlags(j, done)
    ensures next == HashBlocks(j, input, done + 1, counter)
  {
    hide Compress, Blake3, HashBlocks, LoadWords, BlockFlags;
    BlockStep(j, input, done, counter);
    var out := CompressWords(code, h, LoadWords(block), counter, 64, flags);
    next := out[..8];
  }

  /** One input by itself, block after block with changing flags. */
  method HashSingle(j: Job, code: CounterCode, input: seq<Byte>, counter: nat) returns (cv: Cv)
    requires j.compress == Blake3() && 64 * j.blocks <= |input|
    ensures cv == HashInput(j, input, counter)
  {
    hide Blake3, With, HashBlocks, StoreWords, BlockFlags;
    NoBlocks(j, input, counter);
    var h := j.key;
    var blockFlags := With(j.flags, j.flagsStart);
    var blocks: nat := j.blocks;
    var at: nat := 0;
    ghost var done: nat := 0;
    while blocks > 0
      invariant blocks + done == j.blocks && at == 64 * done
      invariant h == HashBlocks(j, input, done, counter)
      invariant blockFlags == (if done == 0 then With(j.flags, j.flagsStart) else j.flags)
      decreases blocks
    {
      if blocks == 1 {
        blockFlags := With(blockFlags, j.flagsEnd);
      }
      NextFlags(j, done);
      h := ChainWords(j, code, input, done, h, input[at..at + 64], counter, blockFlags);
      at := at + 64;
      blocks := blocks - 1;
      blockFlags := j.flags;
      done := done + 1;
    }
    cv := StoreWords(h);
  }

  /** One group on lanes, or one input by itself. */
  method HashGroup(j: Job, code: CounterCode, group: seq<seq<Byte>>, counter: nat, increment: bool)
    returns (cvs: seq<Cv>)
    requires j.compress == Blake3() && counter < U64_LIMIT && 0 < |group| <= code.MaxLanes()
    requires forall i :: 0 <= i < |group| ==> 64 * j.blocks <= |group[i]|
    ensures |cvs| == |group|
    ensures forall i :: 0 <= i < |group| ==> cvs[i] == HashInput(j, group[i], InputCounter(counter, increment, i))
  {
    hide HashInput;
    if |group| == 1 {
      var cv := HashSingle(j, code, group[0], counter);
      cvs := [cv];
    } else {
      cvs := HashLanes(j, code, group, counter, increment);
    }
  }

  /** Full groups of `lanes` inputs, as long as there are that many. */
  method HashStride(j: Job, code: CounterCode, inputs: seq<seq<Byte>>, ghost counter: nat, increment: bool,
                    lanes: nat, out: array<Cv>, at: nat, start: nat, current: nat)
    returns (done: nat, next: nat)
    requires j.compress == Blake3() && counter < U64_LIMIT && 0 < lanes <= code.MaxLanes()
    requires start <= |inputs| && at + |inputs| <= out.Length
    requires forall i :: 0 <= i < |inputs| ==> 64 * j.blocks <= |inputs[i]|
    requires current == InputCounter(counter, increment, start) < U64_LIMIT
    modifies out
    ensures start <= done <= |inputs| < done + lanes
    ensures next == InputCounter(counter, increment, done) < U64_LIMIT
    ensures forall k :: at + start <= k < at + done ==>
              out[k] == HashInput(j, inputs[k - at], InputCounter(counter, increment, k - at))
    ensures forall i :: 0 <= i < out.Length && !(at + start <= i < at + done) ==> out[i] == old(out[i])
  {
    hide HashInput, InputCounter;
    done, next := start, current;
    while |inputs| - done >= lanes
      invariant start <= done <= |inputs| && next == InputCounter(counter, increment, done) < U64_LIMIT
      invariant forall k :: at + start <= k < at + done ==>
                  out[k] == HashInput(j, inputs[k - at], InputCounter(counter, increment, k - at))
      invariant forall i :: 0 <= i < out.Length && !(at + start <= i < at + done) ==> out[i] == old(out[i])
      decreases |inputs| - done
    {
      var cvs := HashGroup(j, code, inputs[done..done + lanes], next, increment);
      forall k | at + done <= k < at + done + lanes { out[k] := cvs[k - (at + done)]; }
      forall k | at + done <= k < at + done + lanes
        ensures out[k] == HashInput(j, inputs[k - at], InputCounter(counter, increment, k - at))
      {
        CounterOf(counter, increment, done, k - (at + done));
      }
      next := NextCounter(counter, next, increment, done, lanes);
      done := done + lanes;
    }
  }

  /** hash_many as all implementations do it: groups of 16, then 8, 4 and single inputs; or of 4 and single
      ones; or only single ones. The result does not depend on the grouping. */
  method HashManyLanes(j: Job, code: CounterCode, inputs: seq<seq<Byte>>, counter: nat, increment: bool,
                       strides: seq<nat>, out: array<Cv>, at: nat)
    requires j.compress == Blake3() && counter < U64_LIMIT && at + |inputs| <= out.Length
    requires |strides| > 0 && strides[|strides| - 1] == 1
    requires forall k :: 0 <= k < |strides| ==> 0 < strides[k] <= code.MaxLanes()
    requires forall i :: 0 <= i < |inputs| ==> 64 * j.blocks <= |inputs[i]|
    modifies out
    ensures forall k :: at <= k < at + |inputs| ==>
              out[k] == HashInput(j, inputs[k - at], InputCounter(counter, increment, k - at))
    ensures forall i :: 0 <= i < out.Length && !(at <= i < at + |inputs|) ==> out[i] == old(out[i])
  {
    CountFrom(counter, increment);
    hide HashInput, InputCounter;
    var done, next := 0, counter;
    for s := 0 to |strides|
      invariant done <= |inputs| && next == InputCounter(counter, increment, done) < U64_LIMIT
      invariant s > 0 ==> |inputs| < done + strides[s - 1]
      invariant forall k :: at <= k < at + done ==>
                  out[k] == HashInput(j, inputs[k - at], InputCounter(counter, increment, k - at))
      invariant forall i :: 0 <= i < out.Length && !(at <= i < at + done) ==> out[i] == old(out[i])
    {
      done, next := HashStride(j, code, inputs, counter, increment, strides[s], out, at, done, next);
    }
  }
}
