/** The chaining-value stack in terms of the message: which bytes the node under each entry covers. */
module StackNodes {
  import opened Bits
  import opened Forest
  import opened LazyStack
  import opened Pieces
  import opened Spec

  /** Where entry r of the merged stack over n leaves begins: the r highest one bits of n. */
  ghost function Offset(n: nat, r: nat): (b: nat)
    requires r <= PopCount(n)
    ensures b <= n
    decreases r
  {
    if r == 0 then 0
    else
      DropHighBit(n);
      LargestPow2(n) + Offset(n - LargestPow2(n), r - 1)
  }

  lemma {:induction false} OffsetAll(n: nat)
    ensures Offset(n, PopCount(n)) == n
  {
    if n > 0 {
      LargestPow2Spec(n);
      DropHighBit(n);
      OffsetAll(n - LargestPow2(n));
    }
  }

  lemma OffsetStep(n: nat, r: nat)
    requires r < PopCount(n)
    ensures n > 0 && LargestPow2(n) <= n && r <= PopCount(n - LargestPow2(n))
    ensures Offset(n, r + 1) == LargestPow2(n) + Offset(n - LargestPow2(n), r)
  {
    DropHighBit(n);
  }

  lemma StackFirst<T>(join: Join<T>, leaves: seq<T>)
    requires |leaves| > 0
    ensures var p := LargestPow2(|leaves|);
      1 <= p <= |leaves| && Stack(join, leaves) == [Tree(join, leaves[..p])] + Stack(join, leaves[p..])
  {
    LargestPow2Spec(|leaves|);
    hide Tree;
  }

  /** Entry r is the tree over the leaves from its offset to the next one. */
  lemma {:induction false} StackEntry<T>(join: Join<T>, leaves: seq<T>, r: nat)
    requires r < PopCount(|leaves|)
    ensures |Stack(join, leaves)| == PopCount(|leaves|)
    ensures var b, e := Offset(|leaves|, r), Offset(|leaves|, r + 1);
      b < e <= |leaves| && IsPow2(e - b) && Stack(join, leaves)[r] == Tree(join, leaves[b..e])
    decreases r
  {
    hide IsPow2, PopCount, Tree, Stack, LargestPow2, Offset;
    var n := |leaves|;
    StackLength(join, leaves);
    OffsetStep(n, r);
    LargestPow2Spec(n);
    StackFirst(join, leaves);
    var p := LargestPow2(n);
    if r > 0 {
      OffsetStep(n, r - 1);
      var rest := leaves[p..];
      StackEntry(join, rest, r - 1);
      var b, e := Offset(n - p, r - 1), Offset(n - p, r);
      assert rest[b..e] == leaves[p + b..p + e];
    } else {
      OffsetZero(n);
      OffsetZero(n - p);
    }
  }

  lemma OffsetZero(n: nat)
    ensures Offset(n, 0) == 0
  {}

  /** What comes after an entry, with up to t more leaves, is no longer than the entry. */
  lemma {:induction false} StackRoom(n: nat, t: nat, r: nat)
    requires IsPow2(t) && Aligned(n, t) && r < PopCount(n)
    ensures var b, e := Offset(n, r), Offset(n, r + 1); b < e <= n && n + t - e <= e - b
    decreases r
  {
    hide IsPow2, Aligned, PopCount, LargestPow2, Offset;
    OffsetStep(n, r);
    LargestPow2Spec(n);
    var p := LargestPow2(n);
    if r > 0 {
      OffsetStep(n, r - 1);
      DropHighBitAligned(n, t);
      StackRoom(n - p, t, r - 1);
    } else {
      RoomBelowDouble(n, t);
      OffsetZero(n);
      OffsetZero(n - p);
    }
  }

  lemma LeavesSlice(m: Mode, data: seq<Byte>, start: nat, i: nat, j: nat)
    requires i <= j && 1024 * j <= |data|
    ensures j <= |ChunkCvs(m, data, start)|
    ensures ChunkCvs(m, data, start)[i..j] == ChunkCvs(m, data[1024 * i..1024 * j], start + i)
  {
    hide ChunkCvs;
    var x, y, z := data[..1024 * i], data[1024 * i..1024 * j], data[1024 * j..];
    assert data == x + (y + z);
    ChunkCvsConcat(m, x, y + z, start);
    ChunkCvsConcat(m, y, z, start + i);
  }

  /** The split of an input whose left part is complete and no shorter than the right part. */
  lemma LeftLenIs(len: nat, h: nat)
    requires IsPow2(h) && 1024 * h < len <= 2048 * h
    ensures len > 1024 && LeftLen(len) == 1024 * h
  {
    LargestPow2Unique((len - 1) / 1024, h);
  }

  /** A node made of a complete left part and a right part that is no longer. */
  lemma NodeOfParts(m: Mode, data: seq<Byte>, start: nat, b: nat, e: nat)
    requires b < e && IsPow2(e - b) && 1024 * e < |data| <= 1024 * (e + (e - b))
    ensures SubtreeOutput(m, data[1024 * b..], start + b)
         == ParentOutput(m, Tree(Joiner(m), ChunkCvs(m, data[1024 * b..1024 * e], start + b)),
                         SubtreeCv(m, data[1024 * e..], start + e))
  {
    hide IsPow2, LeftLen, Tree, ChunkCvs, ChainingValue, ChunkOutput, ParentOutput, SubtreeOutput, SubtreeCv;
    var node, l := data[1024 * b..], 1024 * (e - b);
    assert node[..l] == data[1024 * b..1024 * e] && node[l..] == data[1024 * e..];
    LeftLenIs(|node|, e - b);
    SubtreeIsTree(m, node[..l], start + b);
    SubtreeJoin(m, node, start + b);
  }

  /** The two values on top of an unmerged stack are the children of the node over the bytes from the
      first one's beginning to the end. */
  lemma MergeNode(m: Mode, stack: seq<Cv>, data: seq<Byte>, start: nat, a: nat) returns (b: nat)
    requires |data| % 1024 == 0
    requires Unmerged(Joiner(m), stack, ChunkCvs(m, data, start), a)
    requires |stack| > PopCount(|data| / 1024)
    ensures |stack| >= 2 && 1024 * b < |data|
    ensures SubtreeOutput(m, data[1024 * b..], start + b) == ParentOutput(m, stack[|stack| - 2], stack[|stack| - 1])
  {
    hide Stack, Tree, ChunkCvs, SubtreeOutput, ParentOutput, SubtreeCv, PopCount, Aligned, IsPow2;
    var n := |data| / 1024;
    var leaves := ChunkCvs(m, data, start);
    assert |leaves| == n;
    b := TopTwo(Joiner(m), stack, leaves, a);
    HalfPow2(n - b, a - b);
    LeavesSlice(m, data, start, b, a);
    LeavesSlice(m, data, start, a, n);
    ToEnd(data, 1024 * a);
    ToEnd(leaves, a);
    SubtreeIsTree(m, data[1024 * a..], start + a);
    NodeOfParts(m, data, start, b, a);
  }

  lemma HalfPow2(p: nat, h: nat)
    requires IsPow2(p) && p == 2 * h
    ensures IsPow2(h)
  {}

  /** One step of rolling the merged stack over the first n chunks up onto what follows them, which
      is no longer than t chunks. */
  lemma RollStep(m: Mode, stack: seq<Cv>, data: seq<Byte>, start: nat, n: nat, t: nat, r: nat)
    requires 1024 * n < |data| <= 1024 * (n + t) && IsPow2(t) && Aligned(n, t)
    requires Merged(Joiner(m), stack, ChunkCvs(m, data[..1024 * n], start))
    requires r < PopCount(n)
    ensures |stack| == PopCount(n)
    ensures var b, e := Offset(n, r), Offset(n, r + 1);
      && b < e <= n
      && SubtreeOutput(m, data[1024 * b..], start + b)
         == ParentOutput(m, stack[r], SubtreeCv(m, data[1024 * e..], start + e))
  {
    hide Stack, Tree, ChunkCvs, SubtreeOutput, ParentOutput, SubtreeCv, PopCount, Aligned, Offset, IsPow2;
    var whole := data[..1024 * n];
    var leaves := ChunkCvs(m, whole, start);
    assert |leaves| == n;
    StackEntry(Joiner(m), leaves, r);
    StackRoom(n, t, r);
    var b, e := Offset(n, r), Offset(n, r + 1);
    LeavesSlice(m, whole, start, b, e);
    assert whole[1024 * b..1024 * e] == data[1024 * b..1024 * e];
    NodeOfParts(m, data, start, b, e);
  }

  /** An unmerged stack is the merged one over the leaves below, and the value of the rest on top. */
  lemma OpenParts(m: Mode, stack: seq<Cv>, data: seq<Byte>, start: nat, n: nat, a: nat)
    requires |data| == 1024 * n && Unmerged(Joiner(m), stack, ChunkCvs(m, data, start), a)
    ensures a < n && IsPow2(n - a) && Aligned(a, n - a) && |stack| == PopCount(a) + 1
    ensures stack[..PopCount(a)] == Stack(Joiner(m), ChunkCvs(m, data[..1024 * a], start))
    ensures stack[PopCount(a)] == SubtreeCv(m, data[1024 * a..], start + a)
  {
    hide ChunkCvs, Joiner, Stack, Tree, SubtreeCv, Aligned, IsPow2, PopCount;
    var leaves := ChunkCvs(m, data, start);
    LeavesSlice(m, data, start, 0, a);
    LeavesSlice(m, data, start, a, n);
    assert data[1024 * 0..1024 * a] == data[..1024 * a] && data[1024 * a..1024 * n] == data[1024 * a..];
    assert leaves[0..a] == leaves[..a] && leaves[a..n] == leaves[a..];
    StackLength(Joiner(m), leaves[..a]);
    SubtreeIsTree(m, data[1024 * a..], start + a);
  }

  /** With the last subtree open, the two top entries are the children of the node over what follows the
      entries below them. */
  lemma OpenTopNode(m: Mode, stack: seq<Cv>, top: Cv, data: seq<Byte>, start: nat, n: nat, a: nat)
    requires |data| == 1024 * n && 0 < a < n && IsPow2(n - a) && Aligned(a, n - a)
    requires Merged(Joiner(m), stack, ChunkCvs(m, data[..1024 * a], start))
    requires top == SubtreeCv(m, data[1024 * a..], start + a)
    ensures |stack| == PopCount(a) >= 1
    ensures var b := Offset(a, |stack| - 1);
      ParentOutput(m, stack[|stack| - 1], top) == SubtreeOutput(m, data[1024 * b..], start + b)
  {
    hide ChunkCvs, Joiner, ParentOutput, Stack, Tree, SubtreeOutput, SubtreeCv, Offset, Aligned, IsPow2, PopCount;
    DropHighBit(a);
    OffsetAll(a);
    var r := PopCount(a) - 1;
    RollStep(m, stack, data, start, a, n - a, r);
    assert Offset(a, r + 1) == a;
  }
}
