/** Hashing a whole subtree: rows of chunks and of parents through hash_many, the wide recursion
    over private buffers, and the condensing loop that leaves the two children of the top node. */
module Subtrees {
  import opened Bits
  import opened Forest
  import opened Pieces
  import opened Spec
  import opened ChunkStates
  import opened Counters
  import opened HashManys
  import opened WideRows
  import opened Traces
  import opened Cuts

  /** The SIMD degree found at run time and the compile-time bound on it. */
  datatype Platform = Platform(degree: nat, maxDegree: nat) {
    predicate Valid() {
      IsPow2(degree) && IsPow2(maxDegree) && degree <= maxDegree
    }

    function Slots(): nat {
      Max(maxDegree, 2)
    }
  }

  /** Nothing outside the n slots from `at` on has changed. */
  twostate predicate OnlySlots(out: array<Cv>, at: nat, n: nat)
    reads out
  {
    forall i :: 0 <= i < out.Length && !(at <= i < at + n) ==> out[i] == old(out[i])
  }

  lemma {:induction false} ChunkCvsAt(m: Mode, input: seq<Byte>, counter: nat, i: nat)
    requires i < ChunkCount(|input|)
    ensures 1024 * i < |input|
    ensures var end := if 1024 * i + 1024 <= |input| then 1024 * i + 1024 else |input|;
            ChunkCvs(m, input, counter)[i] == ChunkCv(m, input[1024 * i..end], counter + i)
    decreases |input|
  {
    hide ChunkCv;
    var end := if 1024 * i + 1024 <= |input| then 1024 * i + 1024 else |input|;
    if |input| <= 1024 {
      assert input[0..|input|] == input;
    } else if i > 0 {
      hide ChunkCvs;
      FirstChunk(m, input, counter);
      ChunkCvsAt(m, input[1024..], counter + 1, i - 1);
      SliceOfRest(input, 1024, 1024 * (i - 1), end - 1024);
    }
  }

  lemma FullChunkAt(m: Mode, input: seq<Byte>, counter: nat, i: nat)
    requires 1024 * i + 1024 <= |input| && counter + ChunkCount(|input|) < U64_LIMIT
    ensures i < ChunkCount(|input|)
    ensures HashInput(ChunkJob(m), input[1024 * i..1024 * i + 1024], InputCounter(counter, true, i))
         == ChunkCvs(m, input, counter)[i]
  {
    hide ChunkCv, ChunkCvs, HashInput;
    ChunkCvsAt(m, input, counter, i);
    FullChunk(m, input[1024 * i..1024 * i + 1024], counter + i);
  }

  /** The chaining value of one chunk, full or partial. */
  method HashChunk(t: Trace, m: Mode, chunk: seq<Byte>, counter: nat) returns (cv: Cv)
    requires t.run == m.compress
    requires |chunk| <= 1024
    modifies t`spans
    ensures cv == ChunkCv(m, chunk, counter)
    ensures Added(old(t.spans), t.spans, 1024 * counter, 1024 * counter + |chunk|, true)
  {
    hide ChainBlocks, Pad, ChunkOutput, ChainingValue, Represents, ChunkStates.ChunkState.Valid;
    var state := new ChunkState(m.key, m.flags, t);
    state.Skip(counter);
    state.Update(chunk);
    assert [] + chunk == chunk;
    var output := state.Output();
    cv := t.Finish(output, m, Node(chunk, counter));
  }

  /** The full chunks of the input, as hash_many takes them. */
  ghost function ChunkNodes(input: seq<Byte>, counter: nat, n: nat): (nodes: seq<Node>)
    requires 1024 * n <= |input|
    ensures |nodes| == n
    ensures forall i :: 0 <= i < n ==> nodes[i] == Node(input[1024 * i..1024 * i + 1024], counter + i)
  {
    seq(n, i requires 0 <= i < n => Node(input[1024 * i..1024 * i + 1024], counter + i))
  }

  method CompressChunksParallel(t: Trace, m: Mode, input: seq<Byte>, counter: nat, out: array<Cv>, at: nat)
    returns (n: nat)
    requires t.run == m.compress
    requires 0 < |input| && at + ChunkCount(|input|) <= out.Length
    requires counter + ChunkCount(|input|) < U64_LIMIT
    modifies out, t`spans
    ensures n == ChunkCount(|input|)
    ensures out[at..at + n] == ChunkCvs(m, input, counter)
    ensures OnlySlots(out, at, n)
    ensures Added(old(t.spans), t.spans, 1024 * counter, 1024 * counter + |input|, n == 1)
  {
    hide ChunkCv, ChunkCvs, HashInput;
    var chunks: seq<seq<Byte>> := [];
    var position: nat := 0;
    while |input| - position >= 1024
      invariant position == 1024 * |chunks| <= |input|
      invariant forall i :: 0 <= i < |chunks| ==> chunks[i] == input[1024 * i..1024 * i + 1024]
    {
      chunks := chunks + [input[position..position + 1024]];
      position := position + 1024;
    }
    n := HashFullChunks(t, m, input, counter, chunks, out, at);
    if |input| > position {
      ChunkCvsAt(m, input, counter, n);
      assert input[position..] == input[1024 * n..|input|];
      var cv := HashChunk(t, m, input[position..], counter + n);
      out[at + n] := cv;
      n := n + 1;
    }
  }

  method HashFullChunks(t: Trace, m: Mode, ghost input: seq<Byte>, counter: nat, chunks: seq<seq<Byte>>,
                        out: array<Cv>, at: nat)
    returns (n: nat)
    requires t.run == m.compress
    requires 0 < |input| && at + |chunks| <= out.Length && |chunks| == |input| / 1024
    requires forall i :: 0 <= i < |chunks| ==> chunks[i] == input[1024 * i..1024 * i + 1024]
    requires counter + ChunkCount(|input|) < U64_LIMIT
    modifies out, t`spans
    ensures n == |chunks| <= ChunkCount(|input|)
    ensures forall i :: 0 <= i < n ==> out[at + i] == ChunkCvs(m, input, counter)[i]
    ensures OnlySlots(out, at, n)
    ensures Added(old(t.spans), t.spans, 1024 * counter, 1024 * counter + |input|, ChunkCount(|input|) == 1)
  {
    hide ChunkCv, ChunkCvs, HashInput;
    n := |chunks|;
    HashMany(t, ChunkJob(m), chunks, counter, true, out, at, m, ChunkNodes(input, counter, n),
      1024 * counter, 1024 * counter + |input|, ChunkCount(|input|) == 1);
    ghost var cvs := ChunkCvs(m, input, counter);
    forall i | 0 <= i < n
      ensures out[at + i] == cvs[i]
    {
      FullChunkAt(m, input, counter, i);
    }
  }

  /** The nodes that pairs of neighbours in a row are the children of. */
  ghost function PairNodes(n: nat, input: seq<Byte>, counter: nat): (nodes: seq<Node>)
    requires Cut(n, |input|) && n >= 2
    ensures |nodes| == n / 2 && Cut((n + 1) / 2, |input|)
    ensures forall i :: 0 <= i < n / 2 ==> nodes[i] == NodeAt((n + 1) / 2, input, counter, i)
  {
    CutHalf(n, |input|);
    seq(n / 2, i requires 0 <= i < n / 2 => NodeAt((n + 1) / 2, input, counter, i))
  }

  lemma PairIsNode(m: Mode, children: seq<Cv>, input: seq<Byte>, counter: nat, i: nat)
    requires Row(m, children, input, counter) && 2 * i + 1 < |children|
    ensures IsNode(m, ParentJob(m), ParentBytes(children[2 * i], children[2 * i + 1]), 0,
                   PairNodes(|children|, input, counter)[i])
    ensures In(PairNodes(|children|, input, counter)[i].Range(), 1024 * counter, 1024 * counter + |input|,
               (|children| + 1) / 2 == 1)
  {
    hide Cut, NodeAt, SubtreeOutput, Value;
    var n, bytes := |children|, ParentBytes(children[2 * i], children[2 * i + 1]);
    CutHalf(n, |input|);
    PairNode(m, n, input, counter, i);
    NodeInside((n + 1) / 2, input, counter, i);
    assert bytes[..32] == children[2 * i] && bytes[32..] == children[2 * i + 1];
  }

  /** For any row of values, of the tree or not: hashing a pair as a one-block job gives the value one
      layer up, and an odd last value is its own. */
  lemma LayerOfJobs(m: Mode, row: seq<Cv>, i: nat)
    requires 2 * i < |row|
    ensures i < |PairUp(Joiner(m), row)|
    ensures PairUp(Joiner(m), row)[i] ==
      if 2 * i + 1 < |row| then HashInput(ParentJob(m), ParentBytes(row[2 * i], row[2 * i + 1]), 0) else row[2 * i]
  {
    hide ParentCv, PairUp, HashInput;
    PairUpAt(Joiner(m), row, i);
    if 2 * i + 1 < |row| { ParentBlock(m, row[2 * i], row[2 * i + 1]); }
  }

  /** One layer of parents over a row of the tree. */
  method CompressParentsParallel(t: Trace, m: Mode, children: seq<Cv>, out: array<Cv>, at: nat,
                                 ghost input: seq<Byte>, ghost counter: nat)
    returns (n: nat)
    requires t.run == m.compress
    requires 2 <= |children| && at + (|children| + 1) / 2 <= out.Length
    requires Row(m, children, input, counter)
    modifies out, t`spans
    ensures n == (|children| + 1) / 2
    ensures out[at..at + n] == PairUp(Joiner(m), children)
    ensures OnlySlots(out, at, n)
    ensures Added(old(t.spans), t.spans, 1024 * counter, 1024 * counter + |input|, n == 1)
  {
    hide ParentCv, PairUp, HashInput, Values, Cut;
    var parents: seq<seq<Byte>> := [];
    while |children| - 2 * |parents| >= 2
      invariant 2 * |parents| <= |children|
      invariant forall i :: 0 <= i < |parents| ==> parents[i] == ParentBytes(children[2 * i], children[2 * i + 1])
      decreases |children| - 2 * |parents|
    {
      parents := parents + [ParentBytes(children[2 * |parents|], children[2 * |parents| + 1])];
    }
    n := HashParents(t, m, children, parents, out, at, input, counter);
    PairUpLength(Joiner(m), children);
    if |children| > 2 * n {
      LayerOfJobs(m, children, n);
      out[at + n] := children[2 * n];
      n := n + 1;
    }
  }

  method HashParents(t: Trace, m: Mode, ghost children: seq<Cv>, parents: seq<seq<Byte>>, out: array<Cv>, at: nat,
                     ghost input: seq<Byte>, ghost counter: nat)
    returns (n: nat)
    requires t.run == m.compress
    requires |parents| == |children| / 2 && at + |parents| <= out.Length
    requires forall i :: 0 <= i < |parents| ==> parents[i] == ParentBytes(children[2 * i], children[2 * i + 1])
    requires 2 <= |children| && Row(m, children, input, counter)
    modifies out, t`spans
    ensures n == |parents| <= |PairUp(Joiner(m), children)|
    ensures forall i :: 0 <= i < n ==> out[at + i] == PairUp(Joiner(m), children)[i]
    ensures OnlySlots(out, at, n)
    ensures Added(old(t.spans), t.spans, 1024 * counter, 1024 * counter + |input|, (|children| + 1) / 2 == 1)
  {
    hide ParentCv, PairUp, HashInput, Values, Cut, IsNode;
    n := |parents|;
    PairUpLength(Joiner(m), children);
    forall i | 0 <= i < n
      ensures IsNode(m, ParentJob(m), parents[i], 0, PairNodes(|children|, input, counter)[i])
      ensures In(PairNodes(|children|, input, counter)[i].Range(), 1024 * counter, 1024 * counter + |input|,
                 (|children| + 1) / 2 == 1)
    {
      PairIsNode(m, children, input, counter, i);
    }
    HashMany(t, ParentJob(m), parents, 0, false, out, at, m, PairNodes(|children|, input, counter),
      1024 * counter, 1024 * counter + |input|, (|children| + 1) / 2 == 1);
    forall i | 0 <= i < n
      ensures out[at + i] == PairUp(Joiner(m), children)[i]
    {
      LayerOfJobs(m, children, i);
    }
  }

  method CompressSubtreeWide(t: Trace, m: Mode, p: Platform, input: seq<Byte>, counter: nat, out: array<Cv>, at: nat)
    returns (n: nat)
    requires t.run == m.compress
    requires p.Valid() && 0 < |input|
    requires at + p.Slots() <= out.Length
    requires counter + ChunkCount(|input|) < U64_LIMIT
    modifies out, t`spans
    ensures out.Length >= at + n
    ensures out[at..at + n] == WideRow(Joiner(m), p.degree, ChunkCvs(m, input, counter))
    ensures OnlySlots(out, at, n)
    ensures Added(old(t.spans), t.spans, 1024 * counter, 1024 * counter + |input|, n == 1)
    decreases |input|, 2
  {
    hide ChunkCvs, Joiner, PairUp, IsPow2;
    if |input| <= p.degree * 1024 {
      n := CompressChunksParallel(t, m, input, counter, out, at);
    } else {
      n := CompressSplitWide(t, m, p, input, counter, out, at);
    }
  }

  /** Before they are paired, the two children's values are a row of the tree. */
  lemma JoinedRow(m: Mode, degree: nat, input: seq<Byte>, counter: nat)
    requires IsPow2(degree) && |input| > degree * 1024
    ensures |input| > 1024 && degree >= 1
    ensures var l := LeftLen(|input|);
      Row(m, WideRow(Joiner(m), degree, ChunkCvs(m, input[..l], counter))
             + WideRow(Joiner(m), degree, ChunkCvs(m, input[l..], counter + l / 1024)), input, counter)
  {
    hide ChunkCvs, Joiner, PairUp, LeftLen, WideRow, Cut, Values;
    PowerSlots(degree);
    WideStep(m, degree, input, counter);
    var l := LeftLen(|input|);
    WideRowIsRow(m, degree, input[..l], counter);
    WideRowIsRow(m, degree, input[l..], counter + l / 1024);
    JoinRows(m, WideRow(Joiner(m), degree, ChunkCvs(m, input[..l], counter)),
      WideRow(Joiner(m), degree, ChunkCvs(m, input[l..], counter + l / 1024)), input, counter);
  }

  /** The recursive case of the wide function: more chunks than the SIMD degree. */
  method CompressSplitWide(t: Trace, m: Mode, p: Platform, input: seq<Byte>, counter: nat, out: array<Cv>, at: nat)
    returns (n: nat)
    requires t.run == m.compress
    requires p.Valid() && p.degree * 1024 < |input|
    requires at + p.Slots() <= out.Length
    requires counter + ChunkCount(|input|) < U64_LIMIT
    modifies out, t`spans
    ensures out.Length >= at + n
    ensures p.degree >= 1 && out[at..at + n] == WideRow(Joiner(m), p.degree, ChunkCvs(m, input, counter))
    ensures OnlySlots(out, at, n)
    ensures Added(old(t.spans), t.spans, 1024 * counter, 1024 * counter + |input|, n == 1)
    decreases |input|, 1
  {
    hide ChunkCvs, Joiner, PairUp, WideRow, IsPow2, LargestPow2, Zeros, Cut, Values;
    WideStep(m, p.degree, input, counter);
    var leftLen := LeftLen(|input|);
    var rightCounter := counter + leftLen / 1024;
    var cvArray := new Cv[2 * p.Slots()](_ => Zeros(32));
    var degree := p.degree;
    if leftLen > 1024 && degree == 1 {
      degree := 2;
    }
    var leftN, rightN := WideJoin(t, m, p, input[..leftLen], counter, input[leftLen..], rightCounter,
                                  cvArray, degree);
    if leftN == 1 {
      StorePair(cvArray, out, at);
      n := 2;
    } else {
      JoinedRow(m, p.degree, input, counter);
      n := CompressParentsParallel(t, m, cvArray[..leftN + rightN], out, at, input, counter);
    }
  }

  /** The two values of the smallest row that is split go to the output as they are. */
  method StorePair(cvs: array<Cv>, out: array<Cv>, at: nat)
    requires cvs.Length >= 2 && at + 2 <= out.Length && cvs != out
    modifies out
    ensures out[at..at + 2] == cvs[..2] && OnlySlots(out, at, 2)
  {
    out[at], out[at + 1] := cvs[0], cvs[1];
  }

  /** The two recursive calls, one after the other, into one buffer: the left row from slot 0 and
      the right row from slot `degree` on end up next to each other. */
  method WideJoin(t: Trace, m: Mode, p: Platform, left: seq<Byte>, leftCounter: nat, right: seq<Byte>,
                  rightCounter: nat, cvs: array<Cv>, degree: nat)
    returns (leftN: nat, rightN: nat)
    requires t.run == m.compress
    requires p.Valid() && 0 < |left| && 0 < |right|
    requires p.Slots() <= cvs.Length && degree + p.Slots() <= cvs.Length
    requires leftCounter + ChunkCount(|left|) < U64_LIMIT && rightCounter + ChunkCount(|right|) < U64_LIMIT
    requires p.degree >= 1 && |WideRow(Joiner(m), p.degree, ChunkCvs(m, left, leftCounter))| == degree
    requires 1024 * leftCounter + |left| == 1024 * rightCounter
    modifies cvs, t`spans
    ensures leftN == degree && leftN + rightN <= cvs.Length
    ensures cvs[..leftN + rightN] == WideRow(Joiner(m), p.degree, ChunkCvs(m, left, leftCounter))
                                   + WideRow(Joiner(m), p.degree, ChunkCvs(m, right, rightCounter))
    ensures Added(old(t.spans), t.spans, 1024 * leftCounter, 1024 * rightCounter + |right|, false)
    decreases |left| + |right|, 0
  {
    hide ChunkCvs, Joiner, PairUp, WideRow, IsPow2, ChunkCount;
    leftN := CompressSubtreeWide(t, m, p, left, leftCounter, cvs, 0);
    ghost var leftRow := cvs[0..0 + leftN];
    assert |leftRow| == leftN;
    rightN := CompressSubtreeWide(t, m, p, right, rightCounter, cvs, degree);
    assert cvs[..leftN] == leftRow;
    assert cvs[..leftN + rightN] == cvs[..leftN] + cvs[degree..degree + rightN];
  }

  /** One round of the condensing loop: a layer of parents, copied back over the row it was made from. */
  method CondenseRow(t: Trace, m: Mode, cvArray: array<Cv>, n: nat, outArray: array<Cv>,
                     ghost input: seq<Byte>, ghost counter: nat)
    returns (half: nat)
    requires t.run == m.compress && cvArray != outArray
    requires 2 < n <= cvArray.Length && (n + 1) / 2 <= outArray.Length
    requires Row(m, cvArray[..n], input, counter)
    modifies cvArray, outArray, t`spans
    ensures half == (n + 1) / 2 && cvArray[..half] == PairUp(Joiner(m), old(cvArray[..n]))
    ensures Added(old(t.spans), t.spans, 1024 * counter, 1024 * counter + |input|, false)
  {
    hide PairUp, Joiner, Cut, Values;
    half := CompressParentsParallel(t, m, cvArray[..n], outArray, 0, input, counter);
    forall i | 0 <= i < half { cvArray[i] := outArray[i]; }
    assert cvArray[..half] == outArray[0..0 + half];
  }

  /** Whatever the SIMD degree, the two values returned are the children of the subtree's top node;
      that node itself is not compressed. */
  method CompressSubtreeToParentNode(t: Trace, m: Mode, p: Platform, input: seq<Byte>, counter: nat)
    returns (left: Cv, right: Cv)
    requires t.run == m.compress
    requires p.Valid() && |input| > 1024
    requires counter + ChunkCount(|input|) < U64_LIMIT
    modifies t`spans
    ensures (left, right) == TopPair(Joiner(m), ChunkCvs(m, input, counter))
    ensures SubtreeOutput(m, input, counter) == ParentOutput(m, left, right)
    ensures Added(old(t.spans), t.spans, 1024 * counter, 1024 * counter + |input|, false)
  {
    hide ChunkCvs, ParentCv, ChunkCv, PairUp, WideRow, Tree, Cut, Values;
    WideRowIsRow(m, p.degree, input, counter);
    ghost var cvs := ChunkCvs(m, input, counter);
    ghost var join := Joiner(m);
    var cvArray := new Cv[p.Slots()](_ => Zeros(32));
    var n := CompressSubtreeWide(t, m, p, input, counter, cvArray, 0);
    WideRowTopPair(join, p.degree, cvs);
    WideRowLength(join, p.degree, cvs);
    var outArray := new Cv[p.Slots() / 2](_ => Zeros(32));
    assert p.Slots() % 2 == 0;
    while n > 2
      invariant 2 <= n <= p.Slots()
      invariant TopPair(join, cvArray[..n]) == TopPair(join, cvs)
      invariant Row(m, cvArray[..n], input, counter)
      invariant Added(old(t.spans), t.spans, 1024 * counter, 1024 * counter + |input|, false)
    {
      PairUpKeepsTopPair(join, cvArray[..n]);
      PairedRow(m, cvArray[..n], input, counter);
      n := CondenseRow(t, m, cvArray, n, outArray, input, counter);
    }
    left, right := cvArray[0], cvArray[1];
    TopPairOfTwo(join, left, right);
    assert cvArray[..n] == [left, right];
    SubtreeOutputIsPair(m, input, counter);
  }
}
