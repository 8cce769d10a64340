/** The incremental hasher of c/blake3.c and src/lib.rs. The Rust hasher has one more field,
    `initialChunkCounter`, for hashing a subtree that does not start the message; it is 0 in C. */
module Hashers {
  import opened Bits
  import opened Forest
  import opened Pieces
  import opened LazyStack
  import opened Alignment
  import opened Spec
  import opened Traces
  import opened StackNodes
  import opened ChunkStates
  import opened Subtrees
  import opened Xof

  const STACK_SLOTS: nat := 55

  /** Leaves for whole chunks only: adding whole chunks appends their values. */
  lemma LeavesGrow(m: Mode, a: seq<Byte>, b: seq<Byte>, start: nat)
    requires |a| % 1024 == 0
    ensures ChunkCvs(m, a + b, start) == ChunkCvs(m, a, start) + ChunkCvs(m, b, start + |a| / 1024)
  {
    ChunkCvsConcat(m, a, b, start);
  }

  class Hasher {
    const platform: Platform
    const key: Words8
    const trace: Trace
    const chunk: ChunkState
    var initialChunkCounter: nat
    const cvStack: array<Cv>
    var cvStackLen: nat
    /** Everything given to the hasher so far. */
    ghost var message: seq<Byte>

    function M(): Mode
      reads this, chunk
    {
      Mode(trace.run, key, chunk.flags)
    }

    /** How many whole chunks are on the stack. */
    ghost function Done(): int
      reads this, chunk
    {
      chunk.counter - initialChunkCounter
    }

    /** Where in the whole message this hasher's bytes begin. */
    ghost function Start(): nat
      reads this
    {
      1024 * initialChunkCounter
    }

    ghost predicate Shape()
      reads this, chunk, chunk.buf
    {
      && platform.Valid()
      && chunk.Valid() && chunk.key == key && chunk.trace == trace
      && cvStack.Length == STACK_SLOTS && cvStackLen <= STACK_SLOTS
      && initialChunkCounter <= chunk.counter
      && 1024 * Done() + |chunk.data| == |message|
      && message[1024 * Done()..] == chunk.data
    }

    ghost function Leaves(): seq<Cv>
      requires 0 <= Done() && 1024 * Done() <= |message|
      reads this, chunk
    {
      ChunkCvs(M(), message[..1024 * Done()], initialChunkCounter)
    }

    ghost predicate TopIsOpen()
      requires 0 <= Done() && 1024 * Done() <= |message|
      requires cvStackLen <= cvStack.Length
      reads this, chunk, cvStack
    {
      exists a: nat :: 0 < a && Unmerged(Joiner(M()), cvStack[..cvStackLen], Leaves(), a)
    }

    /** The invariant between calls. With bytes in the chunk state the stack is merged: it holds
        exactly the complete subtrees. Without, the last subtree is still unmerged on top. */
    ghost predicate Valid()
      reads this, chunk, chunk.buf, cvStack
    {
      && Shape()
      && Fits(initialChunkCounter, |message|)
      && (chunk.data != [] ==> Merged(Joiner(M()), cvStack[..cvStackLen], Leaves()))
      && (chunk.data == [] ==> if Done() == 0 then cvStackLen == 0 else TopIsOpen())
    }

    /** Midway through an update to a message of `total` bytes: the chunk state is empty. */
    ghost predicate Ready(total: nat)
      reads this, chunk, chunk.buf, cvStack
    {
      && Shape()
      && chunk.data == []
      && |message| <= total && Fits(initialChunkCounter, total)
      && Holds(Joiner(M()), cvStack[..cvStackLen], Leaves())
    }

    constructor (run: Compressor, platform: Platform, key: Words8, flags: bv8)
      requires platform.Valid()
      ensures Valid() && fresh(chunk) && fresh(chunk.buf) && fresh(cvStack) && fresh(trace) && trace.spans == {}
      ensures M() == Mode(run, key, flags) && message == [] && initialChunkCounter == 0
    {
      this.platform, this.key := platform, key;
      var t := new Trace(run);
      trace := t;
      chunk := new ChunkState(key, flags, t);
      initialChunkCounter, cvStackLen := 0, 0;
      cvStack := new Cv[STACK_SLOTS](_ => Zeros(32));
      message := [];
    }

    /** Merge what lies on the stack over `data`, as far as that is complete: every node compressed
        here ends where `data` ends. */
    method MergeCvStack(chunkCounter: nat, ghost data: seq<Byte>)
      requires cvStack.Length == STACK_SLOTS && cvStackLen <= STACK_SLOTS
      requires initialChunkCounter <= chunkCounter && |data| == 1024 * (chunkCounter - initialChunkCounter)
      requires Holds(Joiner(M()), cvStack[..cvStackLen], ChunkCvs(M(), data, initialChunkCounter))
      modifies this`cvStackLen, cvStack, trace`spans
      ensures cvStackLen <= STACK_SLOTS
      ensures Merged(Joiner(M()), cvStack[..cvStackLen], ChunkCvs(M(), data, initialChunkCounter))
      ensures Added(old(trace.spans), trace.spans, Start(), Start() + |data|, true)
    {
      hide Merged, Unmerged, PopCount, ChunkCvs, Joiner, In;
      ghost var m, leaves := M(), ChunkCvs(M(), data, initialChunkCounter);
      ghost var join := Joiner(m);
      ghost var merged := Merged(join, cvStack[..cvStackLen], leaves);
      ghost var a: nat := 0;
      if !merged {
        a :| Unmerged(join, cvStack[..cvStackLen], leaves, a);
      } else {
        MergedLength(join, cvStack[..cvStackLen], leaves);
      }
      var postMergeStackLen := PopCnt(chunkCounter - initialChunkCounter);
      while cvStackLen > postMergeStackLen
        invariant cvStackLen <= STACK_SLOTS
        invariant merged ==> cvStackLen == postMergeStackLen && Merged(join, cvStack[..cvStackLen], leaves)
        invariant !merged ==> Unmerged(join, cvStack[..cvStackLen], leaves, a)
        invariant Added(old(trace.spans), trace.spans, Start(), Start() + |data|, true)
      {
        a := MergeTopTwo(data, a);
      }
      if !merged {
        MergeDone(join, cvStack[..cvStackLen], leaves, a);
      }
    }

    /** The two values on top are siblings: put their parent in their place. */
    method MergeTopTwo(ghost data: seq<Byte>, ghost a: nat) returns (ghost b: nat)
      requires cvStackLen <= cvStack.Length && |data| % 1024 == 0 && cvStackLen > PopCount(|data| / 1024)
      requires Unmerged(Joiner(M()), cvStack[..cvStackLen], ChunkCvs(M(), data, initialChunkCounter), a)
      modifies this`cvStackLen, cvStack, trace`spans
      ensures cvStackLen == old(cvStackLen) - 1
      ensures Unmerged(Joiner(M()), cvStack[..cvStackLen], ChunkCvs(M(), data, initialChunkCounter), b)
      ensures Added(old(trace.spans), trace.spans, Start(), Start() + |data|, true)
    {
      hide Unmerged, ParentOutput, ChainingValue, PopCount, ChunkCvs, SubtreeOutput;
      ghost var m, stack := M(), cvStack[..cvStackLen];
      ghost var from := MergeNode(m, stack, data, initialChunkCounter, a);
      b := MergeStep(Joiner(m), stack, ChunkCvs(m, data, initialChunkCounter), a);
      var parent := ParentOutput(M(), cvStack[cvStackLen - 2], cvStack[cvStackLen - 1]);
      var cv := trace.Finish(parent, m, Node(data[1024 * from..], initialChunkCounter + from));
      cvStack[cvStackLen - 2] := cv;
      cvStackLen := cvStackLen - 1;
      assert cvStack[..cvStackLen] == stack[..|stack| - 2] + [Joiner(m)(stack[|stack| - 2], stack[|stack| - 1])];
    }

    /** Merge what is on the stack, then put the new value on top, unmerged. */
    method PushCv(newCv: Cv, chunkCounter: nat, ghost data: seq<Byte>, ghost more: seq<Cv>)
      requires cvStack.Length == STACK_SLOTS && cvStackLen <= STACK_SLOTS
      requires initialChunkCounter <= chunkCounter && |data| == 1024 * (chunkCounter - initialChunkCounter)
      requires chunkCounter - initialChunkCounter < MAX_CHUNKS
      requires Holds(Joiner(M()), cvStack[..cvStackLen], ChunkCvs(M(), data, initialChunkCounter))
      requires IsPow2(|more|) && Aligned(chunkCounter - initialChunkCounter, |more|)
      requires newCv == Tree(Joiner(M()), more)
      modifies this`cvStackLen, cvStack, trace`spans
      ensures cvStackLen <= STACK_SLOTS
      ensures Unmerged(Joiner(M()), cvStack[..cvStackLen], ChunkCvs(M(), data, initialChunkCounter) + more,
                       chunkCounter - initialChunkCounter)
      ensures Added(old(trace.spans), trace.spans, Start(), Start() + |data|, true)
    {
      hide Merged, Unmerged, Tree, Aligned, IsPow2, Shift, ChunkCvs;
      MergeCvStack(chunkCounter, data);
      ghost var stack, leaves := cvStack[..cvStackLen], ChunkCvs(M(), data, initialChunkCounter);
      Shift54();
      Depth(Joiner(M()), stack, leaves);
      PushUnmerged(Joiner(M()), stack, leaves, more);
      cvStack[cvStackLen] := newCv;
      cvStackLen := cvStackLen + 1;
      assert cvStack[..cvStackLen] == stack + [newCv];
    }

    /** The chunk state is full and more input follows, so this chunk is not the root. */
    method FinishChunk(ghost total: nat)
      requires Shape() && |chunk.data| == 1024 && |message| < total
      requires Fits(initialChunkCounter, total)
      requires Merged(Joiner(M()), cvStack[..cvStackLen], Leaves())
      modifies this`cvStackLen, cvStack, chunk, chunk.buf, trace`spans
      ensures Ready(total) && M() == old(M())
      ensures Added(old(trace.spans), trace.spans, Start(), Start() + total, false)
    {
      hide Merged, Unmerged, ChunkCvs, ChunkOutput, Joiner, ParentCv, ChainingValue, ChainBlocks, Pad,
        CompressInPlace, Tree, IsPow2, Aligned, LowBit;
      ghost var m, n, leaves := M(), Done(), Leaves();
      ghost var data := chunk.data;
      LeavesGrow(m, message[..1024 * n], data, initialChunkCounter);
      assert message[..1024 * n] + data == message;
      SingleLeaf(m, data, chunk.counter);
      var output := chunk.Output();
      var chunkCv := trace.Finish(output, m, Node(data, chunk.counter));
      AlignedOne(|leaves|);
      PushCv(chunkCv, chunk.counter, message[..1024 * n], [chunkCv]);
      chunk.Reset(key, chunk.counter + 1);
      assert message[..1024 * Done()] == message;
      assert Unmerged(Joiner(M()), cvStack[..cvStackLen], Leaves(), n);
    }

    /** Hash the largest whole subtree that the input holds and that fits what is there already. */
    method PushSubtree(input: seq<Byte>, ghost total: nat) returns (subtreeLen: nat)
      requires Ready(total) && |input| > 1024 && |message| + |input| == total
      modifies this`cvStackLen, this`message, cvStack, chunk`counter, trace`spans
      ensures 1024 <= subtreeLen <= |input|
      ensures IsPow2(subtreeLen) && Aligned(old(chunk.counter) * 1024, subtreeLen)
      ensures forall s: nat :: IsPow2(s) && s <= |input| && Aligned(old(chunk.counter) * 1024, s) ==> s <= subtreeLen
      ensures Added(old(trace.spans), trace.spans, Start(), Start() + total, false)
      ensures Ready(total) && M() == old(M()) && message == old(message) + input[..subtreeLen]
      ensures subtreeLen == |input| ==> TopIsOpen()
    {
      hide Merged, Unmerged, ChunkCvs, ChunkOutput, Joiner, ParentCv, ChainingValue, ChainBlocks, Pad,
        CompressInPlace, Tree, TopPair, LowBit, Aligned, IsPow2;
      var countSoFar := chunk.counter * 1024;
      subtreeLen := SubtreeLen(|input|, countSoFar);
      ChunkAligned(chunk.counter, subtreeLen);
      var subtreeChunks := subtreeLen / 1024;
      FitsAligned(initialChunkCounter, Done(), subtreeChunks, total);
      if subtreeLen <= 1024 {
        PushOneChunk(input[..subtreeLen], total);
      } else {
        PushPair(input[..subtreeLen], subtreeChunks, total);
      }
    }

    /** One chunk straight from the input; more input follows. */
    method PushOneChunk(input: seq<Byte>, ghost total: nat)
      requires Ready(total) && |input| == 1024 && |message| + |input| < total
      modifies this`cvStackLen, this`message, cvStack, chunk`counter, trace`spans
      ensures Ready(total) && M() == old(M()) && message == old(message) + input
      ensures Added(old(trace.spans), trace.spans, Start(), Start() + total, false)
    {
      hide Merged, Unmerged, ChunkCvs, ChunkOutput, Joiner, ParentCv, ChainingValue, ChainBlocks, Pad,
        CompressInPlace, ChunkCv, In, Tree, IsPow2, Aligned, LowBit, SubtreeOutput;
      ghost var m, n, leaves := M(), Done(), Leaves();
      LeavesGrow(m, message, input, initialChunkCounter);
      assert message[..1024 * n] == message;
      SingleLeaf(m, input, chunk.counter);
      var cv := HashChunk(trace, M(), input, chunk.counter);
      AddedInside(old(trace.spans), trace.spans, 1024 * chunk.counter, 1024 * chunk.counter + |input|, true,
                  Start(), Start() + total);
      AlignedOne(|leaves|);
      ghost var spans := trace.spans;
      PushCv(cv, chunk.counter, message, [cv]);
      AddedInside(spans, trace.spans, Start(), Start() + |message|, true, Start(), Start() + total);
      Advance(input, 1, n, total);
    }

    /** The values of `input` are on the stack: count its chunks as done. */
    method Advance(input: seq<Byte>, chunks: nat, ghost a: nat, ghost total: nat)
      requires Shape() && chunk.data == [] && |input| == 1024 * chunks && |message| + |input| <= total
      requires Fits(initialChunkCounter, total)
      requires Unmerged(Joiner(M()), cvStack[..cvStackLen], ChunkCvs(M(), message + input, initialChunkCounter), a)
      modifies this`message, chunk`counter
      ensures Ready(total) && M() == old(M()) && message == old(message) + input
      ensures Unmerged(Joiner(M()), cvStack[..cvStackLen], Leaves(), a)
    {
      hide Merged, Unmerged, ChunkCvs, Joiner, ChainBlocks, Pad, LowBit;
      chunk.Skip(chunks);
      message := message + input;
      assert message[..1024 * Done()] == message;
    }

    /** A larger subtree goes in as its two halves, so that its own top node stays open. */
    method PushPair(input: seq<Byte>, chunks: nat, ghost total: nat)
      requires Ready(total) && |input| == 1024 * chunks && |message| + |input| <= total
      requires chunks > 1 && IsPow2(chunks) && Aligned(Done(), chunks)
      modifies this`cvStackLen, this`message, cvStack, chunk`counter, trace`spans
      ensures Ready(total) && M() == old(M()) && message == old(message) + input
      ensures TopIsOpen()
      ensures Added(old(trace.spans), trace.spans, Start(), Start() + total, false)
    {
      hide Merged, Unmerged, ChunkCvs, ChunkOutput, Joiner, ParentCv, ChainingValue, ChainBlocks, Pad, ChunkCv,
        Tree, TopPair, LowBit, Aligned, SubtreeOutput, IsPow2, In;
      ghost var n := Done();
      assert message[..1024 * n] == message;
      var h := chunks / 2;
      Halves(Joiner(M()), ChunkCvs(M(), input, chunk.counter), chunks, n);
      var left, right := CompressSubtreeToParentNode(trace, M(), platform, input, chunk.counter);
      AddedInside(old(trace.spans), trace.spans, 1024 * chunk.counter, 1024 * chunk.counter + |input|, false,
                  Start(), Start() + total);
      ghost var spans := trace.spans;
      PushHalves(left, right, h, input);
      AddedInside(spans, trace.spans, Start(), Start() + |message| + 1024 * h, true, Start(), Start() + total);
      Advance(input, chunks, n + h, total);
    }

    /** The values of two adjacent complete subtrees of h chunks each, one after the other. */
    method PushHalves(left: Cv, right: Cv, h: nat, ghost input: seq<Byte>)
      requires cvStack.Length == STACK_SLOTS && cvStackLen <= STACK_SLOTS
      requires initialChunkCounter <= chunk.counter && |message| == 1024 * Done() && |input| == 2048 * h
      requires Done() + h < MAX_CHUNKS
      requires Holds(Joiner(M()), cvStack[..cvStackLen], ChunkCvs(M(), message, initialChunkCounter))
      requires IsPow2(h) && Aligned(Done(), h) && Aligned(Done() + h, h)
      requires var more := ChunkCvs(M(), input, chunk.counter);
        left == Tree(Joiner(M()), more[..h]) && right == Tree(Joiner(M()), more[h..])
      modifies this`cvStackLen, cvStack, trace`spans
      ensures cvStackLen <= STACK_SLOTS
      ensures Unmerged(Joiner(M()), cvStack[..cvStackLen], ChunkCvs(M(), message + input, initialChunkCounter),
          Done() + h)
      ensures Added(old(trace.spans), trace.spans, Start(), Start() + |message| + 1024 * h, true)
    {
      hide Merged, Unmerged, Tree, Aligned, IsPow2, ChunkCvs, Joiner;
      ghost var m, n, first := M(), Done(), input[..1024 * h];
      ghost var leaves, more := ChunkCvs(m, message, initialChunkCounter), ChunkCvs(m, input, chunk.counter);
      LeavesSlice(m, input, chunk.counter, 0, h);
      assert more[0..h] == more[..h] && input[1024 * 0..1024 * h] == first;
      LeavesGrow(m, message, first, initialChunkCounter);
      LeavesGrow(m, message, input, initialChunkCounter);
      PushCv(left, chunk.counter, message, more[..h]);
      assert Unmerged(Joiner(m), cvStack[..cvStackLen], leaves + more[..h], n);
      PushCv(right, chunk.counter + h, message + first, more[h..]);
      assert leaves + more[..h] + more[h..] == leaves + more;
    }

    method Update(input: seq<Byte>)
      requires Valid() && Fits(initialChunkCounter, |message| + |input|)
      modifies this`cvStackLen, this`message, cvStack, chunk, chunk.buf, trace`spans
      ensures Valid() && M() == old(M()) && message == old(message) + input
      ensures Added(old(trace.spans), trace.spans, Start(), Start() + |message|, false)
    {
      hide Unmerged, Merged, ChunkCvs, Joiner, Represents, LowBit;
      if |input| == 0 {
        return;
      }
      ghost var total := |message| + |input|;
      var rest := CompleteChunk(input, total);
      if |rest| == 0 {
        return;
      }
      rest := PushSubtrees(rest, total);
      KeepRest(rest, total);
    }

    /** Bytes in the chunk state come first: fill it, and finish it if more input follows. */
    method CompleteChunk(input: seq<Byte>, ghost total: nat) returns (rest: seq<Byte>)
      requires Valid() && Fits(initialChunkCounter, total) && |input| > 0 && total == |message| + |input|
      modifies this`cvStackLen, this`message, cvStack, chunk, chunk.buf, trace`spans
      ensures M() == old(M())
      ensures Added(old(trace.spans), trace.spans, Start(), Start() + total, false)
      ensures |message| + |rest| == total && message + rest == old(message) + input
      ensures if |rest| == 0 then Valid() else Ready(total)
    {
      hide Unmerged, ChunkCvs, ChunkOutput, Joiner, ParentCv, ChainingValue, ChainBlocks, Pad, CompressInPlace,
        LowBit, Merged;
      rest := input;
      var chunkLen := chunk.Len();
      if chunkLen > 0 {
        var take := 1024 - chunkLen;
        if take > |input| { take := |input|; }
        FillChunk(rest[..take]);
        rest := rest[take..];
        TakeOver(old(message), input, take);
        if |rest| > 0 {
          FinishChunk(total);
        }
      } else if Done() == 0 {
        assert Leaves() == [] && cvStack[..cvStackLen] == [];
        NothingMerged(Joiner(M()));
      }
    }

    /** Whole subtrees, as long as more than one chunk is left. */
    method PushSubtrees(input: seq<Byte>, ghost total: nat) returns (rest: seq<Byte>)
      requires Ready(total) && |input| > 0 && |message| + |input| == total
      modifies this`cvStackLen, this`message, cvStack, chunk`counter, trace`spans
      ensures Ready(total) && M() == old(M()) && |rest| <= 1024
      ensures Added(old(trace.spans), trace.spans, Start(), Start() + total, false)
      ensures |message| + |rest| == total && message + rest == old(message) + input
      ensures |rest| == 0 ==> TopIsOpen()
    {
      hide Merged, Unmerged, ChunkCvs, ChunkOutput, Joiner, ChainBlocks, Pad, LowBit, In, Aligned, IsPow2, Max;
      rest := input;
      while |rest| > 1024
        invariant Ready(total) && M() == old(M())
        invariant |message| + |rest| == total && message + rest == old(message) + input
        invariant |rest| == 0 ==> TopIsOpen()
        invariant Added(old(trace.spans), trace.spans, Start(), Start() + total, false)
        decreases |rest|
      {
        ghost var before := message;
        var subtreeLen := PushSubtree(rest, total);
        TakeOver(before, rest, subtreeLen);
        rest := rest[subtreeLen..];
      }
    }

    /** What is left, at most one chunk, stays in the chunk state; it shows that nothing on the stack
        is the root, so the stack can be merged. */
    method KeepRest(rest: seq<Byte>, ghost total: nat)
      requires Ready(total) && |rest| <= 1024 && |message| + |rest| == total
      requires |rest| == 0 ==> TopIsOpen()
      modifies this`cvStackLen, this`message, cvStack, chunk, chunk.buf, trace`spans
      ensures Valid() && M() == old(M()) && message == old(message) + rest
      ensures Added(old(trace.spans), trace.spans, Start(), Start() + total, false)
    {
      hide Merged, ChunkCvs, ChunkOutput, Joiner, ChainBlocks, Pad, LowBit, Tree, Stack;
      if |rest| > 0 {
        FillChunk(rest);
        MergeCvStack(chunk.counter, message[..1024 * Done()]);
      }
    }

    /** Join an output with the values on the stack, from the top down, without compressing the last
        node. The `from` entries are those of the merged stack over the first n chunks; the output is
        the node over what follows them. */
    method RollUpOutput(start: Output, from: nat, ghost n: nat, ghost t: nat) returns (o: Output)
      requires from <= PopCount(n) <= cvStackLen <= cvStack.Length
      requires 1024 * n < |message| <= 1024 * (n + t) && IsPow2(t) && Aligned(n, t)
      requires Merged(Joiner(M()), cvStack[..PopCount(n)], ChunkCvs(M(), message[..1024 * n], initialChunkCounter))
      requires var b := Offset(n, from); start == SubtreeOutput(M(), message[1024 * b..], initialChunkCounter + b)
      modifies trace`spans
      ensures o == SubtreeOutput(M(), message, initialChunkCounter)
      ensures Added(old(trace.spans), trace.spans, Start(), Start() + |message|, false)
    {
      hide ChainingValue, ParentOutput, SubtreeOutput, Merged, ChunkCvs, Joiner, PopCount, Offset, IsPow2, Aligned;
      ghost var m, stack := M(), cvStack[..PopCount(n)];
      var remaining: nat := from;
      o := start;
      OffsetZero(n);
      while remaining > 0
        invariant remaining <= PopCount(n)
        invariant var b := Offset(n, remaining); o == SubtreeOutput(m, message[1024 * b..], initialChunkCounter + b)
        invariant Added(old(trace.spans), trace.spans, Start(), Start() + |message|, false)
      {
        ghost var e := Offset(n, remaining);
        RollStep(m, stack, message, initialChunkCounter, n, t, remaining - 1);
        var cv := trace.Finish(o, m, Node(message[1024 * e..], initialChunkCounter + e));
        remaining := remaining - 1;
        o := ParentOutput(M(), cvStack[remaining], cv);
      }
      assert Offset(n, remaining) == 0 && message[1024 * 0..] == message;
    }

    /** The root node of everything hashed so far (or, from an input offset, the subtree's top). Only
        nodes below it are compressed. */
    method FinalOutput() returns (o: Output)
      requires Valid()
      modifies trace`spans
      ensures o == SubtreeOutput(M(), message, initialChunkCounter)
      ensures Added(old(trace.spans), trace.spans, Start(), Start() + |message|, false)
    {
      hide ChunkOutput, ParentOutput, ChunkCvs, ChainBlocks, Pad, Tree, Stack, Joiner, LowBit, Unmerged,
        SubtreeOutput, Offset, PopCount, IsPow2, Aligned;
      ghost var m, stack := M(), cvStack[..cvStackLen];
      if cvStackLen == 0 {
        EmptyStack();
        o := chunk.Output();
        return;
      }
      var chunkLen := chunk.Len();
      if chunkLen > 0 {
        o := chunk.Output();
        ghost var n := Done();
        ChunkIsNode(n);
        o := RollUpOutput(o, cvStackLen, n, 1);
      } else {
        assert message[..1024 * Done()] == message;
        ghost var a: nat :| 0 < a && Unmerged(Joiner(m), stack, Leaves(), a);
        OpenTop(a);
        var remaining := cvStackLen - 2;
        o := ParentOutput(M(), cvStack[remaining], cvStack[remaining + 1]);
        o := RollUpOutput(o, remaining, a, Done() - a);
      }
    }

    /** An empty stack means that the current chunk is the whole message. */
    lemma EmptyStack()
      requires Valid() && cvStackLen == 0
      ensures Done() == 0 && message == chunk.data
      ensures SubtreeOutput(M(), message, initialChunkCounter) == ChunkOutput(M(), chunk.data, chunk.counter)
    {
      hide ChunkCvs, Joiner, LowBit, ChunkOutput;
      if chunk.data != [] {
        StackLength(Joiner(M()), Leaves());
      }
    }

    /** The chunk in progress is the node over what follows the complete chunks. */
    lemma ChunkIsNode(n: nat)
      requires Valid() && chunk.data != [] && n == Done()
      ensures PopCount(n) == cvStackLen && Offset(n, cvStackLen) == n && IsPow2(1) && Aligned(n, 1)
      ensures ChunkOutput(M(), chunk.data, chunk.counter)
          == SubtreeOutput(M(), message[1024 * n..], initialChunkCounter + n)
    {
      hide ChunkCvs, Joiner, LowBit, ChunkOutput, ChainBlocks, Pad, Unmerged;
      MergedLength(Joiner(M()), cvStack[..cvStackLen], Leaves());
      OffsetAll(n);
      AlignedOne(n);
    }

    /** With the last subtree still open, the two top entries make the first node. */
    lemma OpenTop(a: nat)
      requires Shape() && chunk.data == [] && 0 < a && message[..1024 * Done()] == message
      requires Unmerged(Joiner(M()), cvStack[..cvStackLen], Leaves(), a)
      ensures PopCount(a) >= 1 && cvStackLen == PopCount(a) + 1 && a < Done()
      ensures IsPow2(Done() - a) && Aligned(a, Done() - a)
      ensures Merged(Joiner(M()), cvStack[..PopCount(a)], ChunkCvs(M(), message[..1024 * a], initialChunkCounter))
      ensures var r := PopCount(a) - 1; var b := Offset(a, r);
        ParentOutput(M(), cvStack[r], cvStack[r + 1])
        == SubtreeOutput(M(), message[1024 * b..], initialChunkCounter + b)
    {
      hide ChunkCvs, Joiner, ChunkOutput, ParentOutput, ChainBlocks, Pad, Stack, Tree, SubtreeOutput, SubtreeCv,
        Offset, Represents, Aligned, IsPow2;
      var stack := cvStack[..cvStackLen];
      OpenParts(M(), stack, message, initialChunkCounter, Done(), a);
      var r := PopCount(a);
      assert cvStack[..r] == stack[..r] && cvStack[r] == stack[r];
      OpenTopNode(M(), cvStack[..r], cvStack[r], message, initialChunkCounter, Done(), a);
    }

    /** Any window of the output of everything hashed so far; the hasher itself does not change. */
    method FinalizeSeek(seek: nat, out: array<Byte>, outLen: nat, strides: seq<nat>)
      requires Valid() && initialChunkCounter == 0
      requires outLen <= out.Length && out != chunk.buf && Strides(strides)
      modifies out, trace`spans, trace`rootBlocks
      ensures out[..outLen] == Hash(M(), message, seek, outLen)
      ensures OnlyBytes(out, 0, outLen)
      ensures Added(old(trace.spans), trace.spans, Start(), Start() + |message|, false)
    {
      hide RootWindow, SubtreeOutput;
      if outLen == 0 {
        NoOutput(M(), message, seek);
        return;
      }
      var o := FinalOutput();
      OutputRootBytes(trace, o, seek, out, outLen, strides);
    }

    /** The number of bytes hashed, as a 64-bit number. */
    method Count() returns (n: nat)
      requires Valid()
      ensures n == |message|
    {
      n := (chunk.counter - initialChunkCounter) * 1024 + (64 * chunk.blocksCompressed + chunk.bufLen);
    }

    /** Start somewhere else than at the beginning of the message. */
    method SetInputOffset(offset: nat)
      requires Valid() && message == [] && offset % 1024 == 0 && offset < U64_LIMIT
      modifies this`initialChunkCounter, chunk`counter
      ensures Valid() && M() == old(M()) && message == [] && initialChunkCounter == offset / 1024
    {
      hide ChunkCvs, Joiner;
      chunk.counter := offset / 1024;
      initialChunkCounter := offset / 1024;
    }

    /** The chaining value of the subtree hashed, which is then not the root. */
    method FinalizeNonRoot() returns (cv: Cv)
      requires Valid() && message != []
      modifies trace`spans
      ensures cv == SubtreeCv(M(), message, initialChunkCounter)
    {
      hide SubtreeOutput, ChainingValue;
      var o := FinalOutput();
      cv := trace.Finish(o, M(), Node(message, initialChunkCounter));
    }

    /** Back to the state of a new hasher. */
    method Reset()
      requires Valid() && initialChunkCounter == 0
      modifies this`cvStackLen, this`message, chunk, chunk.buf
      ensures Valid() && M() == old(M()) && message == [] && initialChunkCounter == 0
    {
      hide ChunkCvs, Joiner;
      chunk.Reset(key, 0);
      cvStackLen := 0;
      message := [];
    }

    /** Bytes that stay in the chunk state. */
    method FillChunk(input: seq<Byte>)
      requires Shape() && |chunk.data| + |input| <= 1024
      modifies this`message, chunk`cv, chunk`bufLen, chunk`blocksCompressed, chunk`data, chunk.buf, trace`spans
      ensures Shape() && M() == old(M()) && message == old(message) + input
      ensures chunk.data == old(chunk.data) + input
      ensures Leaves() == old(Leaves())
      ensures Added(old(trace.spans), trace.spans, Start(), Start() + |message|, false)
    {
      hide ChunkCvs, ChainBlocks, Pad;
      chunk.Update(input);
      message := message + input;
      assert message[..1024 * Done()] == old(message[..1024 * Done()]);
    }
  }

  lemma NoOutput(m: Mode, message: seq<Byte>, seek: nat)
    ensures Hash(m, message, seek, 0) == []
  {}

  lemma SingleLeaf(m: Mode, data: seq<Byte>, counter: nat)
    requires 0 < |data| <= 1024
    ensures ChunkCvs(m, data, counter) == [ChunkCv(m, data, counter)]
    ensures ChunkCv(m, data, counter) == Tree(Joiner(m), [ChunkCv(m, data, counter)])
  {
    hide ChunkCv;
  }

  /** The two halves of a complete aligned subtree. */
  lemma Halves(join: Join<Cv>, more: seq<Cv>, chunks: nat, n: nat)
    requires chunks > 1 && IsPow2(chunks) && |more| == chunks && Aligned(n, chunks)
    ensures var h := chunks / 2;
      && chunks == 2 * h && IsPow2(h) && Aligned(n, h) && Aligned(n + h, h)
      && TopPair(join, more) == (Tree(join, more[..h]), Tree(join, more[h..]))
  {
    var h := chunks / 2;
    assert IsPow2(h);
    AlignedWeaken(n, 2 * h, h);
    AlignedSelf(h);
    AlignedSum(n, h, h);
    hide IsPow2, Aligned, Tree, TopPair;
    TreeOfParts(join, more[..h], more[h..]);
    assert more[..h] + more[h..] == more;
  }

  lemma FitsAligned(start: nat, done: nat, chunks: nat, total: nat)
    requires IsPow2(chunks) && Aligned(start + done, chunks)
    requires Fits(start, total) && 1024 * chunks <= total
    ensures Aligned(done, chunks)
  {
    hide Aligned, LowBit, IsPow2;
    RelativeAligned(start, done, chunks);
  }

  lemma AlignedOne(n: nat)
    ensures IsPow2(1) && Aligned(n, 1)
  {}
}
