/** The incremental chunk hasher: at most 1024 bytes in any number of pieces. The last non-empty
    block stays in the buffer, because only the end of the chunk decides its flags. */
module ChunkStates {
  import opened Pieces
  import opened Spec
  import opened Traces

  /** What the fields of a chunk hasher mean: `data` is what it has been given so far. */
  ghost predicate Represents(m: Mode, counter: nat, data: seq<Byte>,
                             cv: Words8, buf: seq<Byte>, bufLen: nat, blocks: nat)
  {
    && |data| <= 1024
    && blocks == FullBlocks(|data|)
    && bufLen == |data| - 64 * blocks
    && cv == ChainBlocks(m, blocks, data, counter)
    && buf == Pad(data[64 * blocks..])
  }

  /** Chaining looks only at the blocks it chains. */
  lemma {:induction false} ChainPrefix(m: Mode, blocks: nat, data: seq<Byte>, more: seq<Byte>, counter: nat)
    requires 64 * blocks <= |data|
    ensures ChainBlocks(m, blocks, data + more, counter) == ChainBlocks(m, blocks, data, counter)
    decreases blocks
  {
    hide CompressInPlace, With;
    if blocks > 0 {
      ChainPrefix(m, blocks - 1, data, more, counter);
      assert (data + more)[64 * (blocks - 1)..64 * blocks] == data[64 * (blocks - 1)..64 * blocks];
    }
  }

  lemma ChainStep(m: Mode, blocks: nat, data: seq<Byte>, counter: nat)
    requires 64 * (blocks + 1) <= |data|
    ensures ChainBlocks(m, blocks + 1, data, counter)
         == CompressInPlace(m.compress, ChainBlocks(m, blocks, data, counter), data[64 * blocks..64 * (blocks + 1)],
                            64, counter, With(m.flags, StartFlag(blocks)))
  {
    hide CompressInPlace, With, StartFlag;
  }

  /** Writing after the bytes of a zero-padded buffer keeps it zero-padded. */
  lemma PadExtend(x: seq<Byte>, y: seq<Byte>)
    requires |x| + |y| <= 64
    ensures Pad(x)[..|x|] + y + Pad(x)[|x| + |y|..] == Pad(x + y)
  {}

  class ChunkState {
    const trace: Trace
    var cv: Words8
    var counter: nat
    const buf: array<Byte>
    var bufLen: nat
    var blocksCompressed: nat
    var flags: bv8
    ghost var key: Words8
    ghost var data: seq<Byte>

    ghost function M(): Mode
      reads this
    {
      Mode(trace.run, key, flags)
    }

    ghost predicate Valid()
      reads this, buf
    {
      Represents(M(), counter, data, cv, buf[..], bufLen, blocksCompressed)
    }

    constructor (key: Words8, flags: bv8, trace: Trace)
      ensures Valid() && fresh(buf) && this.trace == trace
      ensures M() == Mode(trace.run, key, flags) && counter == 0 && data == []
    {
      this.trace := trace;
      cv, counter, bufLen, blocksCompressed := key, 0, 0, 0;
      this.flags := flags;
      buf := new Byte[64](_ => 0);
      this.key, data := key, [];
      new;
      assert buf[..] == Pad([]);
    }

    method Reset(key: Words8, counter: nat)
      requires Valid()
      modifies this, buf
      ensures Valid()
      ensures M() == Mode(trace.run, key, old(flags)) && this.counter == counter && data == []
    {
      cv := key;
      this.counter := counter;
      blocksCompressed := 0;
      forall i | 0 <= i < 64 { buf[i] := 0; }
      bufLen := 0;
      this.key, data := key, [];
      assert buf[..] == Pad([]);
    }

    /** Move an empty chunk state past chunks that were hashed elsewhere. */
    method Skip(chunks: nat)
      requires Valid() && data == []
      modifies this`counter
      ensures Valid() && counter == old(counter) + chunks
    {
      counter := counter + chunks;
    }

    method Len() returns (n: nat)
      requires Valid()
      ensures n == |data|
    {
      n := 64 * blocksCompressed + bufLen;
    }

    /** Copy as much of the input as fits after the bytes already held. */
    method FillBuf(input: seq<Byte>, ghost held: seq<Byte>) returns (take: nat)
      requires bufLen == |held| <= 64 && buf[..] == Pad(held)
      modifies this`bufLen, buf
      ensures take == (if 64 - old(bufLen) > |input| then |input| else 64 - old(bufLen))
      ensures bufLen == old(bufLen) + take
      ensures buf[..] == Pad(held + input[..take])
    {
      take := 64 - bufLen;
      if take > |input| { take := |input|; }
      PadExtend(held, input[..take]);
      ghost var before := buf[..];
      forall i | 0 <= i < take { buf[bufLen + i] := input[i]; }
      assert buf[..] == before[..bufLen] + input[..take] + before[bufLen + take..];
      bufLen := bufLen + take;
    }

    /** Midway through an update: `rest` is the part of `all` not yet taken in, and the buffer
        may be empty although more bytes follow. */
    ghost predicate Taken(m: Mode, all: seq<Byte>, rest: seq<Byte>)
      reads this, buf
    {
      var used := 64 * blocksCompressed + bufLen;
      && used <= |all| && bufLen <= 64
      && cv == ChainBlocks(m, blocksCompressed, all, counter)
      && buf[..] == Pad(all[64 * blocksCompressed..used])
      && rest == all[used..]
      && (bufLen > 0 ==> rest == [])
      && (|all| > 0 ==> bufLen + |rest| > 0)
    }

    /** The buffer is full and more input follows. */
    method CompressBuffer(ghost all: seq<Byte>, ghost rest: seq<Byte>)
      requires bufLen == 64 && 64 * blocksCompressed + 64 < |all| && rest == all[64 * blocksCompressed + 64..]
      requires cv == ChainBlocks(M(), blocksCompressed, all, counter)
      requires buf[..] == Pad(all[64 * blocksCompressed..64 * blocksCompressed + 64])
      modifies this`cv, this`bufLen, this`blocksCompressed, buf, trace`spans
      ensures Taken(M(), all, rest)
      ensures Added(old(trace.spans), trace.spans, 1024 * counter, 1024 * counter + |all|, false)
    {
      hide With, ChainBlocks;
      ghost var start := 64 * blocksCompressed;
      var block: Block := buf[..];
      assert block == all[start..start + 64];
      cv := trace.Chain(cv, block, counter, With(flags, StartFlag(blocksCompressed)),
        M(), blocksCompressed, all);
      blocksCompressed := blocksCompressed + 1;
      bufLen := 0;
      forall i | 0 <= i < 64 { buf[i] := 0; }
      assert buf[..] == Pad(all[start + 64..start + 64]);
    }

    /** If the buffer holds bytes, fill it, and compress it when more input follows. */
    method TopUp(input: seq<Byte>, ghost all: seq<Byte>) returns (rest: seq<Byte>)
      requires Valid() && all == data + input
      modifies this`cv, this`bufLen, this`blocksCompressed, buf, trace`spans
      ensures Taken(M(), all, rest)
      ensures Added(old(trace.spans), trace.spans, 1024 * counter, 1024 * counter + |all|, false)
    {
      hide With, ChainBlocks, Pad, In, StartFlag;
      rest := input;
      ghost var start := 64 * blocksCompressed;
      ChainPrefix(M(), blocksCompressed, data, input, counter);
      AcrossSum(data, input, start, 0);
      assert all[|data|..] == input;
      if bufLen > 0 {
        var take := FillBuf(rest, data[start..]);
        rest := rest[take..];
        AcrossSum(data, input, start, take);
        RestOfRest(all, |data|, take);
        if |rest| > 0 {
          CompressBuffer(all, rest);
        }
      } else {
        assert data == [] && all == input;
      }
    }

    /** Compress whole blocks straight from the input, always leaving at least one byte. */
    method TakeBlocks(input: seq<Byte>, ghost all: seq<Byte>) returns (rest: seq<Byte>)
      requires Taken(M(), all, input)
      modifies this`cv, this`blocksCompressed, trace`spans
      ensures |rest| <= 64 && Taken(M(), all, rest)
      ensures Added(old(trace.spans), trace.spans, 1024 * counter, 1024 * counter + |all|, false)
    {
      hide With, ChainBlocks, Pad, In;
      rest := input;
      while |rest| > 64
        invariant Taken(M(), all, rest)
        invariant Added(old(trace.spans), trace.spans, 1024 * counter, 1024 * counter + |all|, false)
        decreases |rest|
      {
        rest := TakeBlock(rest, all);
      }
    }

    /** One block straight from the input; more input follows. */
    method TakeBlock(input: seq<Byte>, ghost all: seq<Byte>) returns (rest: seq<Byte>)
      requires Taken(M(), all, input) && |input| > 64
      modifies this`cv, this`blocksCompressed, trace`spans
      ensures |rest| == |input| - 64 && Taken(M(), all, rest)
      ensures Added(old(trace.spans), trace.spans, 1024 * counter, 1024 * counter + |all|, false)
    {
      hide With, ChainBlocks, Pad;
      ghost var used := 64 * blocksCompressed;
      assert input[..64] == all[used..used + 64];
      cv := trace.Chain(cv, input[..64], counter, With(flags, StartFlag(blocksCompressed)),
        M(), blocksCompressed, all);
      blocksCompressed := blocksCompressed + 1;
      rest := input[64..];
      RestOfRest(all, used, 64);
      assert all[used + 64..used + 64] == [] == all[used..used];
    }

    /** What is left, at most one block, stays in the buffer. */
    method KeepTail(rest: seq<Byte>, ghost all: seq<Byte>)
      requires Taken(M(), all, rest) && |rest| <= 64 && |all| <= 1024
      modifies this`bufLen, this`data, buf
      ensures Valid() && data == all
    {
      hide ChainBlocks;
      ghost var start := 64 * blocksCompressed;
      ghost var held := all[start..start + bufLen];
      assert held + rest == all[start..];
      var take := FillBuf(rest, held);
      assert rest[..take] == rest;
      data := all;
    }

    /** Any split of the chunk into pieces leads to the same state. */
    method Update(input: seq<Byte>)
      requires Valid() && |data| + |input| <= 1024
      modifies this`cv, this`bufLen, this`blocksCompressed, this`data, buf, trace`spans
      ensures Valid() && data == old(data) + input
      ensures Added(old(trace.spans), trace.spans, 1024 * counter, 1024 * counter + |data|, false)
    {
      hide Taken, Represents, ChunkState.Valid;
      ghost var all := data + input;
      var rest := TopUp(input, all);
      rest := TakeBlocks(rest, all);
      KeepTail(rest, all);
    }

    method Output() returns (o: Output)
      requires Valid()
      ensures o == ChunkOutput(M(), data, counter)
    {
      var block: Block := buf[..];
      o := Spec.Output(cv, block, bufLen, counter, With(With(flags, StartFlag(blocksCompressed)), CHUNK_END));
    }
  }
}
