/** Extendable output: every reader sees windows of one infinite stream of root blocks. */
module Xof {
  import opened Bits
  import opened Pieces
  import opened Spec
  import opened Traces

  lemma WindowConcat(c: Compressor, o: Output, position: nat, a: nat, b: nat)
    ensures RootWindow(c, o, position, a + b) == RootWindow(c, o, position, a) + RootWindow(c, o, position + a, b)
  {
    hide RootByte;
  }

  lemma ByteOfBlock(c: Compressor, o: Output, index: nat, k: nat)
    requires k < 64
    ensures RootByte(c, o, 64 * index + k) == RootBlock(c, o, index)[k]
  {
    hide RootBlock;
    assert (64 * index + k) / 64 == index && (64 * index + k) % 64 == k;
  }

  lemma WindowOfBlock(c: Compressor, o: Output, index: nat, skip: nat, n: nat)
    requires skip + n <= 64
    ensures RootWindow(c, o, 64 * index + skip, n) == RootBlock(c, o, index)[skip..skip + n]
  {
    hide RootBlock, RootByte;
    var window, part := RootWindow(c, o, 64 * index + skip, n), RootBlock(c, o, index)[skip..skip + n];
    forall i | 0 <= i < n
      ensures window[i] == part[i]
    {
      ByteOfBlock(c, o, index, skip + i);
    }
  }

  /** Nothing outside the n bytes from `at` on has changed. */
  twostate predicate OnlyBytes(out: array<Byte>, at: nat, n: nat)
    reads out
  {
    forall i :: 0 <= i < out.Length && !(at <= i < at + n) ==> out[i] == old(out[i])
  }

  /** What lies before the bytes just written is as it was. */
  lemma BytesBefore(before: seq<Byte>, after: seq<Byte>, from: nat, at: nat)
    requires from <= at <= |before| == |after|
    requires forall i :: 0 <= i < at ==> after[i] == before[i]
    ensures after[from..at] == before[from..at]
  {}

  /** Two adjacent windows of the stream make one. */
  lemma Adjacent(c: Compressor, o: Output, position: nat, out: array<Byte>, from: nat, mid: nat, to: nat)
    requires from <= mid <= to <= out.Length
    requires out[from..mid] == RootWindow(c, o, position, mid - from)
    requires out[mid..to] == RootWindow(c, o, position + (mid - from), to - mid)
    ensures out[from..to] == RootWindow(c, o, position, to - from)
  {
    hide RootWindow;
    WindowConcat(c, o, position, mid - from, to - mid);
    SliceConcat(out[..], from, mid, to);
  }

  /** Part of one block of the stream. */
  method CopyBlock(t: Trace, o: Output, index: nat, skip: nat, n: nat, out: array<Byte>, at: nat)
    requires skip + n <= 64 && at + n <= out.Length
    modifies out, t`rootBlocks
    ensures out[at..at + n] == RootWindow(t.run, o, 64 * index + skip, n)
    ensures OnlyBytes(out, at, n)
  {
    hide RootBlock, RootByte;
    var block := t.Root(o, index);
    forall i | 0 <= i < n { out[at + i] := block[skip + i]; }
    WindowOfBlock(t.run, o, index, skip, n);
    assert out[at..at + n] == block[skip..skip + n];
  }

  /** The next whole block after those that are there. */
  method AppendBlock(t: Trace, o: Output, counter: nat, out: array<Byte>, at: nat, done: nat)
    requires at + 64 * (done + 1) <= out.Length
    requires out[at..at + 64 * done] == RootWindow(t.run, o, 64 * counter, 64 * done)
    modifies out, t`rootBlocks
    ensures out[at..at + 64 * (done + 1)] == RootWindow(t.run, o, 64 * counter, 64 * (done + 1))
    ensures OnlyBytes(out, at + 64 * done, 64)
  {
    hide RootBlock, RootByte, RootWindow;
    var next := at + 64 * done;
    ghost var before := out[..];
    CopyBlock(t, o, counter + done, 0, 64, out, next);
    BytesBefore(before, out[..], at, next);
    Adjacent(t.run, o, 64 * counter, out, at, next, next + 64);
  }

  /** Whole blocks in groups of `lanes`, as long as that many are left. */
  method XofStride(t: Trace, o: Output, counter: nat, out: array<Byte>, at: nat, blocks: nat, lanes: nat)
    returns (done: nat)
    requires lanes > 0 && at + 64 * blocks <= out.Length
    modifies out, t`rootBlocks
    ensures done <= blocks < done + lanes
    ensures out[at..at + 64 * done] == RootWindow(t.run, o, 64 * counter, 64 * done)
    ensures OnlyBytes(out, at, 64 * done)
  {
    hide RootBlock, RootByte, RootWindow;
    done := 0;
    WindowOfBlock(t.run, o, counter, 0, 0);
    while blocks - done >= lanes
      invariant done <= blocks
      invariant out[at..at + 64 * done] == RootWindow(t.run, o, 64 * counter, 64 * done)
      invariant OnlyBytes(out, at, 64 * done)
    {
      var lane := 0;
      var start := done;
      while lane < lanes
        invariant lane <= lanes && done == start + lane <= blocks
        invariant start + lanes <= blocks
        invariant out[at..at + 64 * done] == RootWindow(t.run, o, 64 * counter, 64 * done)
        invariant OnlyBytes(out, at, 64 * done)
      {
        AppendBlock(t, o, counter, out, at, done);
        done := done + 1;
        lane := lane + 1;
      }
    }
  }

  /** Sixteen blocks at a time, then eight, then four, then one: the strides do not show. */
  method XofMany(t: Trace, o: Output, counter: nat, out: array<Byte>, at: nat, blocks: nat, strides: seq<nat>)
    requires Strides(strides)
    requires at + 64 * blocks <= out.Length
    modifies out, t`rootBlocks
    ensures out[at..at + 64 * blocks] == RootWindow(t.run, o, 64 * counter, 64 * blocks)
    ensures OnlyBytes(out, at, 64 * blocks)
    decreases |strides|
  {
    hide RootWindow;
    var done := XofStride(t, o, counter, out, at, blocks, strides[0]);
    if |strides| > 1 {
      var next := at + 64 * done;
      ghost var before := out[..];
      XofMany(t, o, counter + done, out, next, blocks - done, strides[1..]);
      BytesBefore(before, out[..], at, next);
      Adjacent(t.run, o, 64 * counter, out, at, next, at + 64 * blocks);
    }
  }

  /** A list of strides as the loops have it: it ends with single blocks. */
  predicate Strides(strides: seq<nat>) {
    |strides| > 0 && strides[|strides| - 1] == 1 && forall i :: 0 <= i < |strides| ==> strides[i] > 0
  }

  /** Whole blocks and then part of one, starting at a block boundary. */
  method AlignedBytes(t: Trace, o: Output, counter: nat, out: array<Byte>, at: nat, len: nat, strides: seq<nat>)
    requires at + len <= out.Length && Strides(strides)
    modifies out, t`rootBlocks
    ensures out[at..at + len] == RootWindow(t.run, o, 64 * counter, len)
    ensures OnlyBytes(out, at, len)
  {
    hide RootWindow, RootBlock;
    var blocks, rest := len / 64, len % 64;
    XofMany(t, o, counter, out, at, blocks, strides);
    var next := at + 64 * blocks;
    ghost var before := out[..];
    CopyBlock(t, o, counter + blocks, 0, rest, out, next);
    BytesBefore(before, out[..], at, next);
    Adjacent(t.run, o, 64 * counter, out, at, next, at + len);
  }

  /** Any window of the stream: a partial first block, whole blocks, a partial last block. */
  method OutputRootBytes(t: Trace, o: Output, seek: nat, out: array<Byte>, outLen: nat, strides: seq<nat>)
    requires outLen <= out.Length && Strides(strides)
    modifies out, t`rootBlocks
    ensures out[..outLen] == RootWindow(t.run, o, seek, outLen)
    ensures OnlyBytes(out, 0, outLen)
  {
    hide RootBlock;
    if outLen == 0 {
      return;
    }
    hide RootWindow;
    var counter, offset := seek / 64, seek % 64;
    var bytes := 0;
    if offset != 0 {
      var available := 64 - offset;
      bytes := if outLen > available then available else outLen;
      CopyBlock(t, o, counter, offset, bytes, out, 0);
      counter := counter + 1;
    } else {
      WindowOfBlock(t.run, o, counter, 0, 0);
    }
    ghost var before := out[..];
    if outLen > bytes {
      AlignedBytes(t, o, counter, out, bytes, outLen - bytes, strides);
      BytesBefore(before, out[..], 0, bytes);
      Adjacent(t.run, o, seek, out, 0, bytes, outLen);
    }
  }

  /** The seekable reader of the Rust code. */
  class OutputReader {
    const trace: Trace
    var inner: Output
    var positionWithinBlock: nat
    /** The node whose stream is read; only `inner.counter` moves. */
    ghost const root: Output

    ghost predicate Valid()
      reads this
    {
      positionWithinBlock < 64 && inner == root.(counter := inner.counter)
    }

    /** Where in the stream the reader stands. */
    ghost function At(): nat
      reads this
    {
      64 * inner.counter + positionWithinBlock
    }

    constructor (inner: Output, trace: Trace)
      ensures Valid() && root == inner && this.trace == trace
      ensures At() == 64 * inner.counter
    {
      this.trace, this.inner, positionWithinBlock := trace, inner, 0;
      root := inner;
    }

    /** Reads at most to the end of the current block. */
    method FillOneBlock(buf: array<Byte>, at: nat) returns (take: nat)
      requires Valid() && at <= buf.Length
      modifies this, buf, trace`rootBlocks
      ensures Valid() && take == (if buf.Length - at < 64 - old(positionWithinBlock) then buf.Length - at
                                  else 64 - old(positionWithinBlock))
      ensures At() == old(At()) + take
      ensures buf[at..at + take] == RootWindow(trace.run, root, old(At()), take)
      ensures OnlyBytes(buf, at, take)
    {
      hide RootWindow, RootBlock;
      take := 64 - positionWithinBlock;
      if buf.Length - at < take { take := buf.Length - at; }
      SameStream(trace.run, root, inner.counter, At(), take);
      CopyBlock(trace, inner, inner.counter, positionWithinBlock, take, buf, at);
      positionWithinBlock := positionWithinBlock + take;
      if positionWithinBlock == 64 {
        inner := inner.(counter := inner.counter + 1);
        positionWithinBlock := 0;
      }
    }

    /** However the stream is cut into reads, each read continues where the last one ended. */
    method Fill(buf: array<Byte>, strides: seq<nat>)
      requires Valid() && Strides(strides)
      modifies this, buf, trace`rootBlocks
      ensures Valid() && At() == old(At()) + buf.Length
      ensures buf[..] == RootWindow(trace.run, root, old(At()), buf.Length)
    {
      hide RootBlock;
      if buf.Length == 0 {
        return;
      }
      hide RootWindow;
      var at := 0;
      ghost var start := At();
      if positionWithinBlock != 0 {
        at := FillOneBlock(buf, 0);
      } else {
        WindowOfBlock(trace.run, root, inner.counter, 0, 0);
      }
      ghost var before := buf[..];
      if at < buf.Length {
        FillRest(buf, at, strides);
        BytesBefore(before, buf[..], 0, at);
        Adjacent(trace.run, root, start, buf, 0, at, buf.Length);
      }
      WholeArray(buf);
    }

    /** From a block boundary on: whole blocks, then part of one. */
    method FillRest(buf: array<Byte>, at: nat, strides: seq<nat>)
      requires Valid() && Strides(strides) && at <= buf.Length && positionWithinBlock == 0
      modifies this, buf, trace`rootBlocks
      ensures Valid() && At() == old(At()) + (buf.Length - at)
      ensures buf[at..buf.Length] == RootWindow(trace.run, root, old(At()), buf.Length - at)
      ensures OnlyBytes(buf, at, buf.Length - at)
    {
      hide RootWindow, RootBlock;
      var fullBlocks := (buf.Length - at) / 64;
      ghost var start := At();
      SameStream(trace.run, root, inner.counter, start, 64 * fullBlocks);
      XofMany(trace, inner, inner.counter, buf, at, fullBlocks, strides);
      inner := inner.(counter := inner.counter + fullBlocks);
      var next := at + 64 * fullBlocks;
      ghost var before := buf[..];
      var take := FillOneBlock(buf, next);
      BytesBefore(before, buf[..], at, next);
      Adjacent(trace.run, root, start, buf, at, next, buf.Length);
    }

    /** The position is a 64-bit number. */
    method Position() returns (position: nat)
      requires Valid()
      ensures position == At() % U64_LIMIT
    {
      position := (inner.counter * 64 + positionWithinBlock) % U64_LIMIT;
    }

    method SetPosition(position: nat)
      requires Valid() && position < U64_LIMIT
      modifies this
      ensures Valid() && At() == position
    {
      positionWithinBlock := position % 64;
      inner := inner.(counter := position / 64);
    }
  }

  // ---- Runs of a reader ----

  datatype Request = Seek(position: nat) | Read(len: nat)

  /** Where the reader stands after the first n requests. */
  function PositionAfter(requests: seq<Request>, n: nat, start: nat): nat
    requires n <= |requests|
  {
    if n == 0 then start
    else
      match requests[n - 1]
      case Seek(position) => position
      case Read(len) => PositionAfter(requests, n - 1, start) + len
  }

  /** What request n should yield. */
  ghost function Answer(c: Compressor, o: Output, requests: seq<Request>, n: nat, start: nat): seq<Byte>
    requires n < |requests|
  {
    match requests[n]
    case Seek(_) => []
    case Read(len) => RootWindow(c, o, PositionAfter(requests, n, start), len)
  }

  /** Any seeks and reads, in any order and of any lengths: every read yields the window of the one stream
      that begins where the requests before it lead. */
  method Serve(reader: OutputReader, requests: seq<Request>, strides: seq<nat>) returns (outs: seq<seq<Byte>>)
    requires reader.Valid() && Strides(strides)
    requires forall i :: 0 <= i < |requests| && requests[i].Seek? ==> requests[i].position < U64_LIMIT
    modifies reader, reader.trace`rootBlocks
    ensures reader.Valid() && reader.At() == PositionAfter(requests, |requests|, old(reader.At()))
    ensures |outs| == |requests|
    ensures forall i :: 0 <= i < |requests| ==>
      outs[i] == Answer(reader.trace.run, reader.root, requests, i, old(reader.At()))
  {
    hide RootWindow;
    outs := [];
    for n := 0 to |requests|
      invariant reader.Valid() && reader.At() == PositionAfter(requests, n, old(reader.At()))
      invariant |outs| == n
      invariant forall i :: 0 <= i < n ==>
        outs[i] == Answer(reader.trace.run, reader.root, requests, i, old(reader.At()))
    {
      match requests[n] {
        case Seek(position) =>
          reader.SetPosition(position);
          outs := outs + [[]];
        case Read(len) =>
          var buf := new Byte[len];
          reader.Fill(buf, strides);
          outs := outs + [buf[..]];
      }
    }
  }

  lemma SameBlock(c: Compressor, o: Output, counter: nat, index: nat)
    ensures RootBlock(c, o.(counter := counter), index) == RootBlock(c, o, index)
  {
    hide StoreWords, LoadWords;
  }

  /** A node's stream does not depend on the counter it happens to carry. */
  lemma SameStream(c: Compressor, o: Output, counter: nat, position: nat, n: nat)
    ensures RootWindow(c, o.(counter := counter), position, n) == RootWindow(c, o, position, n)
  {
    var a, b := RootWindow(c, o.(counter := counter), position, n), RootWindow(c, o, position, n);
    hide RootBlock;
    forall i | 0 <= i < n
      ensures a[i] == b[i]
    {
      assert a[i] == RootByte(c, o.(counter := counter), position + i) && b[i] == RootByte(c, o, position + i);
      SameBlock(c, o, counter, (position + i) / 64);
    }
  }
}
