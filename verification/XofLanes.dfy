/** Extended output on several lanes: one block of the root's stream in each. */
module XofLanes {
  import opened Bits
  import opened Spec
  import opened Compression
  import opened Transposes
  import opened Lanes
  import opened HashLoops
  import opened Xof

  /** A single block, without lanes. */
  method XofSingle(o: Output, code: CounterCode, index: nat) returns (block: Block)
    ensures block == RootBlock(Blake3(), o, index)
  {
    hide Compress, StoreWords, LoadWords, With;
    var words := CompressWords(code, o.inputCv, LoadWords(o.block), index, o.blockLen, With(o.flags, ROOT));
    block := StoreWords(words);
  }

  /** Consecutive blocks of the stream, one per lane, with counters from the lane code. */
  method XofGroup(o: Output, code: CounterCode, counter: nat, lanes: nat) returns (blocks: seq<Block>)
    requires counter + lanes <= U64_LIMIT && 0 < lanes <= code.MaxLanes()
    ensures |blocks| == lanes
    ensures forall i :: 0 <= i < lanes ==> blocks[i] == RootBlock(Blake3(), o, counter + i)
  {
    hide RootBlock;
    if lanes == 1 {
      var block := XofSingle(o, code, counter);
      blocks := [block];
    } else {
      blocks := XofOnLanes(o, code, counter, lanes);
    }
  }

  method XofOnLanes(o: Output, code: CounterCode, counter: nat, lanes: nat) returns (blocks: seq<Block>)
    requires counter + lanes <= U64_LIMIT && 0 < lanes <= code.MaxLanes()
    ensures |blocks| == lanes
    ensures forall i :: 0 <= i < lanes ==> blocks[i] == RootBlock(Blake3(), o, counter + i)
  {
    hide Compress, StoreWords, LoadWords, Low32, High32, With, LaneOf;
    var low, high := CounterRegisters(code, counter, true, lanes);
    var words := LoadWords(o.block);
    var h := seq(8, k requires 0 <= k < 8 => Set1(o.inputCv[k], lanes));
    var m := seq(16, k requires 0 <= k < 16 => Set1(words[k], lanes));
    ghost var counters := seq(lanes, i => counter + i);
    var out := CompressAllLanes(h, m, low, high, o.blockLen, With(o.flags, ROOT), lanes, counters);
    var stored := UnloadBlocks(out, lanes);
    blocks := seq(lanes, i requires 0 <= i < lanes => StoreWords(stored[i]));
    forall i | 0 <= i < lanes
      ensures blocks[i] == RootBlock(Blake3(), o, counter + i)
    {
      SameInAllLanes(o.inputCv, h, lanes, i);
      SameInAllLanes(words, m, lanes, i);
    }
  }

  lemma SameInAllLanes(ws: seq<Word>, vs: seq<Register>, lanes: nat, i: nat)
    requires |vs| == |ws| && Wide(vs, lanes) && i < lanes
    requires forall k :: 0 <= k < |ws| ==> vs[k] == Set1(ws[k], lanes)
    ensures LaneOf(vs, i) == ws
  {}

  /** The sixteen words of every lane: one 16x16 transposition, or two halves of eight registers. */
  method UnloadBlocks(words: seq<Register>, lanes: nat) returns (blocks: seq<Words16>)
    requires |words| == 16 && Wide(words, lanes) && lanes > 0
    ensures |blocks| == lanes && forall i :: 0 <= i < lanes ==> blocks[i] == LaneOf(words, i)
  {
    if lanes == 16 {
      blocks := UnloadBlocks16(words);
    } else {
      var first := UnloadLanes(words[..8], lanes);
      var second := UnloadLanes(words[8..], lanes);
      blocks := seq(lanes, i requires 0 <= i < lanes => Both(first[i], second[i]));
      forall i | 0 <= i < lanes ensures blocks[i] == LaneOf(words, i) {
        assert LaneOf(words, i) == LaneOf(words[..8], i) + LaneOf(words[8..], i);
      }
    }
  }

  function Both(a: Words8, b: Words8): Words16 {
    a + b
  }

  method UnloadBlocks16(words: seq<Register>) returns (blocks: seq<Words16>)
    requires |words| == 16 && Wide(words, 16)
    ensures |blocks| == 16 && forall i :: 0 <= i < 16 ==> blocks[i] == LaneOf(words, i)
  {
    hide Zmm.At, ZmmOf;
    var vecs := seq(16, k requires 0 <= k < 16 => ZmmOf(words[k]));
    var t := TransposeVecs512(vecs);
    blocks := seq(16, i requires 0 <= i < 16 => OfZmm(t[i]));
    forall i | 0 <= i < 16
      ensures blocks[i] == LaneOf(words, i)
    {
      forall k | 0 <= k < 16 ensures blocks[i][k] == words[k][i] {
        assert vecs[k] == ZmmOf(words[k]) && blocks[i] == OfZmm(t[i]);
        ZmmOfAt(words[k], i);
        assert blocks[i][k] == t[i].At(k) == vecs[k].At(i);
      }
    }
  }

  function Joined(blocks: seq<Block>): (bytes: seq<Byte>)
    ensures |bytes| == 64 * |blocks|
  {
    if |blocks| == 0 then [] else Joined(blocks[..|blocks| - 1]) + blocks[|blocks| - 1]
  }

  lemma {:induction false} JoinedWindow(o: Output, counter: nat, blocks: seq<Block>)
    requires forall i :: 0 <= i < |blocks| ==> blocks[i] == RootBlock(Blake3(), o, counter + i)
    ensures Joined(blocks) == RootWindow(Blake3(), o, 64 * counter, 64 * |blocks|)
    decreases |blocks|
  {
    hide RootWindow, RootBlock;
    if |blocks| == 0 {
      WindowOfBlock(Blake3(), o, counter, 0, 0);
    } else {
      var n := |blocks| - 1;
      JoinedWindow(o, counter, blocks[..n]);
      WindowOfBlock(Blake3(), o, counter + n, 0, 64);
      WindowConcat(Blake3(), o, 64 * counter, 64 * n, 64);
      assert blocks[n][0..64] == blocks[n];
    }
  }

  /** Full groups of `lanes` blocks, as long as there are that many. */
  method XofStride(o: Output, code: CounterCode, counter: nat, blocks: nat, lanes: nat, out: array<Byte>, at: nat,
                   start: nat)
    returns (done: nat)
    requires counter + blocks <= U64_LIMIT && 0 < lanes <= code.MaxLanes()
    requires start <= blocks && at + 64 * blocks <= out.Length
    requires out[at..at + 64 * start] == RootWindow(Blake3(), o, 64 * counter, 64 * start)
    modifies out
    ensures start <= done <= blocks < done + lanes
    ensures out[at..at + 64 * done] == RootWindow(Blake3(), o, 64 * counter, 64 * done)
    ensures OnlyBytes(out, at + 64 * start, 64 * (done - start))
  {
    hide RootWindow, RootBlock, Joined;
    done := start;
    while blocks - done >= lanes
      invariant start <= done <= blocks
      invariant out[at..at + 64 * done] == RootWindow(Blake3(), o, 64 * counter, 64 * done)
      invariant OnlyBytes(out, at + 64 * start, 64 * (done - start))
    {
      StoreGroup(o, code, counter, lanes, out, at, done);
      done := done + lanes;
    }
  }

  method StoreGroup(o: Output, code: CounterCode, counter: nat, lanes: nat, out: array<Byte>, at: nat, done: nat)
    requires counter + done + lanes <= U64_LIMIT && 0 < lanes <= code.MaxLanes()
    requires at + 64 * (done + lanes) <= out.Length
    requires out[at..at + 64 * done] == RootWindow(Blake3(), o, 64 * counter, 64 * done)
    modifies out
    ensures out[at..at + 64 * (done + lanes)] == RootWindow(Blake3(), o, 64 * counter, 64 * (done + lanes))
    ensures OnlyBytes(out, at + 64 * done, 64 * lanes)
  {
    hide RootWindow, RootBlock, Joined;
    ghost var before := out[at..at + 64 * done];
    var group := XofGroup(o, code, counter + done, lanes);
    var bytes := Joined(group);
    forall i | 0 <= i < 64 * lanes { out[at + 64 * done + i] := bytes[i]; }
    JoinedWindow(o, counter + done, group);
    WindowConcat(Blake3(), o, 64 * counter, 64 * done, 64 * lanes);
    assert out[at..at + 64 * done] == before;
    assert out[at + 64 * done..at + 64 * (done + lanes)] == bytes;
    assert out[at..at + 64 * (done + lanes)] == before + bytes;
  }

  /** xof_many as the vector code does it: full groups of every stride in turn, each group on lanes. */
  method XofManyLanes(o: Output, code: CounterCode, counter: nat, blocks: nat, strides: seq<nat>,
                      out: array<Byte>, at: nat)
    requires counter + blocks <= U64_LIMIT && Strides(strides) && at + 64 * blocks <= out.Length
    requires forall k :: 0 <= k < |strides| ==> strides[k] <= code.MaxLanes()
    modifies out
    ensures out[at..at + 64 * blocks] == RootWindow(Blake3(), o, 64 * counter, 64 * blocks)
    ensures OnlyBytes(out, at, 64 * blocks)
  {
    hide RootWindow, RootBlock;
    var done := 0;
    WindowOfBlock(Blake3(), o, counter, 0, 0);
    for s := 0 to |strides|
      invariant done <= blocks && (s > 0 ==> blocks < done + strides[s - 1])
      invariant out[at..at + 64 * done] == RootWindow(Blake3(), o, 64 * counter, 64 * done)
      invariant OnlyBytes(out, at, 64 * done)
    {
      done := XofStride(o, code, counter, blocks, strides[s], out, at, done);
    }
  }
}
