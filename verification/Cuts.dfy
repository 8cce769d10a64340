/** Cuts through the tree: a row of values that the wide recursion leaves stands for nodes of the tree
    side by side, and which bytes each of them covers follows from the length of the row alone. */
module Cuts {
  import opened Bits
  import opened Forest
  import opened Spec
  import opened Traces
  import opened WideRows

  /** Whether n nodes side by side can make up the tree over len bytes. */
  ghost predicate Cut(n: nat, len: nat)
    decreases len
  {
    && 1 <= n && 0 < len
    && (n > 1 ==>
          && len > 1024
          && var k := LargestPow2(n - 1);
             k < n && Cut(k, LeftLen(len)) && Cut(n - k, len - LeftLen(len)))
  }

  /** The i-th node of the row. */
  ghost function NodeAt(n: nat, input: seq<Byte>, counter: nat, i: nat): Node
    requires Cut(n, |input|) && i < n
    decreases |input|
  {
    if n == 1 then Node(input, counter)
    else
      var k, l := LargestPow2(n - 1), LeftLen(|input|);
      if i < k then NodeAt(k, input[..l], counter, i) else NodeAt(n - k, input[l..], counter + l / 1024, i - k)
  }

  ghost function Value(m: Mode, node: Node): Cv {
    SubtreeCv(m, node.data, node.counter)
  }

  /** The values of the nodes of such a row. */
  ghost function Values(m: Mode, n: nat, input: seq<Byte>, counter: nat): (row: seq<Cv>)
    requires Cut(n, |input|)
    ensures |row| == n
  {
    seq(n, i requires 0 <= i < n => Value(m, NodeAt(n, input, counter, i)))
  }

  ghost predicate Row(m: Mode, row: seq<Cv>, input: seq<Byte>, counter: nat) {
    Cut(|row|, |input|) && row == Values(m, |row|, input, counter)
  }

  /** Every node lies inside the input, and a node of a longer row is not all of it. */
  lemma {:induction false} NodeInside(n: nat, input: seq<Byte>, counter: nat, i: nat)
    requires Cut(n, |input|) && i < n
    ensures In(NodeAt(n, input, counter, i).Range(), 1024 * counter, 1024 * counter + |input|, n == 1)
    decreases |input|
  {
    hide LargestPow2;
    if n > 1 {
      var k, l := LargestPow2(n - 1), LeftLen(|input|);
      if i < k {
        NodeInside(k, input[..l], counter, i);
      } else {
        NodeInside(n - k, input[l..], counter + l / 1024, i - k);
      }
    }
  }

  /** Half as many nodes, one layer further up. */
  lemma HalfOf(n: nat)
    requires n >= 3
    ensures var k := LargestPow2(n - 1);
      k % 2 == 0 && 2 <= k < n && LargestPow2((n + 1) / 2 - 1) == k / 2 && (n - k + 1) / 2 == (n + 1) / 2 - k / 2
  {
    LargestPow2Spec(n - 1);
    LargestPow2Half(n - 1, (n - 1) / 2);
  }

  lemma {:induction false} CutHalf(n: nat, len: nat)
    requires Cut(n, len) && n >= 2
    ensures Cut((n + 1) / 2, len)
    decreases len
  {
    if n >= 3 {
      HalfOf(n);
      hide LargestPow2;
      var k := LargestPow2(n - 1);
      CutHalf(k, LeftLen(len));
      assert (k + 1) / 2 == k / 2;
      if n - k >= 2 { CutHalf(n - k, len - LeftLen(len)); }
    }
  }

  /** A row of more than one node is a row in the left child and one in the right child. */
  lemma Parts(n: nat, input: seq<Byte>, counter: nat)
    requires Cut(n, |input|) && n > 1
    ensures |input| > 1024
    ensures var k, l := LargestPow2(n - 1), LeftLen(|input|);
      && k < n && Cut(k, |input[..l]|) && Cut(n - k, |input[l..]|)
      && (forall i :: 0 <= i < k ==> NodeAt(n, input, counter, i) == NodeAt(k, input[..l], counter, i))
      && (forall i :: k <= i < n ==>
            NodeAt(n, input, counter, i) == NodeAt(n - k, input[l..], counter + l / 1024, i - k))
  {
    hide LargestPow2;
  }

  lemma OneNode(input: seq<Byte>, counter: nat)
    requires |input| > 0
    ensures Cut(1, |input|) && NodeAt(1, input, counter, 0) == Node(input, counter)
  {}

  /** A pair of neighbours are the two children of the node one layer up. */
  lemma {:induction false} PairNode(m: Mode, n: nat, input: seq<Byte>, counter: nat, i: nat)
    requires Cut(n, |input|) && 2 * i + 1 < n
    ensures Cut((n + 1) / 2, |input|)
    ensures var node := NodeAt((n + 1) / 2, input, counter, i);
      SubtreeOutput(m, node.data, node.counter)
      == ParentOutput(m, Value(m, NodeAt(n, input, counter, 2 * i)), Value(m, NodeAt(n, input, counter, 2 * i + 1)))
    decreases |input|
  {
    hide LargestPow2, SubtreeOutput, ParentOutput, Value, NodeAt, Cut, LeftLen;
    CutHalf(n, |input|);
    Parts(n, input, counter);
    var l := LeftLen(|input|);
    if n >= 3 {
      var k, h := LargestPow2(n - 1), (n + 1) / 2;
      HalfOf(n);
      Parts(h, input, counter);
      if 2 * i < k {
        PairNode(m, k, input[..l], counter, i);
      } else {
        PairNode(m, n - k, input[l..], counter + l / 1024, i - k / 2);
      }
    } else {
      TwoNodes(m, input, counter);
    }
  }

  lemma TwoNodes(m: Mode, input: seq<Byte>, counter: nat)
    requires Cut(2, |input|)
    ensures |input| > 1024
    ensures NodeAt(1, input, counter, 0) == Node(input, counter)
    ensures SubtreeOutput(m, input, counter)
      == ParentOutput(m, Value(m, NodeAt(2, input, counter, 0)), Value(m, NodeAt(2, input, counter, 1)))
  {
    hide ParentOutput, ChainingValue, ChunkOutput, NodeAt, Cut, LeftLen;
    assert LargestPow2(1) == 1;
    Parts(2, input, counter);
    var l := LeftLen(|input|);
    OneNode(input, counter);
    OneNode(input[..l], counter);
    OneNode(input[l..], counter + l / 1024);
  }

  lemma OddHalves(n: nat, k: nat)
    requires n % 2 == 1 && k % 2 == 0 && k < n
    ensures (n - k) % 2 == 1 && (n - k) / 2 == n / 2 - k / 2 && n / 2 == (n + 1) / 2 - 1
  {}

  /** An odd last node stays as it is. */
  lemma {:induction false} OddNode(n: nat, input: seq<Byte>, counter: nat)
    requires Cut(n, |input|) && n % 2 == 1
    ensures Cut((n + 1) / 2, |input|)
    ensures NodeAt((n + 1) / 2, input, counter, n / 2) == NodeAt(n, input, counter, n - 1)
    decreases |input|
  {
    hide LargestPow2, NodeAt, Cut, LeftLen;
    if n >= 3 {
      CutHalf(n, |input|);
      HalfOf(n);
      Parts(n, input, counter);
      var k, l := LargestPow2(n - 1), LeftLen(|input|);
      OddHalves(n, k);
      Parts((n + 1) / 2, input, counter);
      OddNode(n - k, input[l..], counter + l / 1024);
    }
  }

  lemma CutPositive(n: nat, len: nat)
    requires Cut(n, len)
    ensures n >= 1 && len >= 1
  {}

  lemma CutJoin(k: nat, r: nat, len: nat)
    requires len > 1024 && Cut(k, LeftLen(len)) && Cut(r, len - LeftLen(len)) && k == LargestPow2(k + r - 1)
    ensures Cut(k + r, len)
  {
    hide LargestPow2, LeftLen;
  }

  /** Two rows that fill a full left half and a right half no longer make one row. */
  lemma JoinRows(m: Mode, left: seq<Cv>, right: seq<Cv>, input: seq<Byte>, counter: nat)
    requires |input| > 1024
    requires var l := LeftLen(|input|);
      Row(m, left, input[..l], counter) && Row(m, right, input[l..], counter + l / 1024)
    requires IsPow2(|left|) && |right| <= |left|
    ensures Row(m, left + right, input, counter)
  {
    hide LargestPow2, LeftLen, NodeAt, Value, IsPow2, Cut;
    var n, l := |left| + |right|, LeftLen(|input|);
    CutPositive(|left|, l);
    CutPositive(|right|, |input| - l);
    LargestPow2Unique(n - 1, |left|);
    CutJoin(|left|, |right|, |input|);
    Parts(n, input, counter);
  }

  lemma {:induction false} PairUpAt<T>(join: Join<T>, row: seq<T>, i: nat)
    requires 2 * i < |row|
    ensures i < |PairUp(join, row)|
    ensures PairUp(join, row)[i] == (if 2 * i + 1 < |row| then join(row[2 * i], row[2 * i + 1]) else row[2 * i])
    decreases |row|
  {
    if i > 0 { PairUpAt(join, row[2..], i - 1); }
  }

  /** Pairing a row up gives a row. */
  lemma PairedRow(m: Mode, row: seq<Cv>, input: seq<Byte>, counter: nat)
    requires Row(m, row, input, counter) && |row| >= 2
    ensures Row(m, PairUp(Joiner(m), row), input, counter)
  {
    hide PairUp, NodeAt, Cut, SubtreeOutput, ChainingValue, ParentOutput;
    var n, up := |row|, PairUp(Joiner(m), row);
    PairUpLength(Joiner(m), row);
    CutHalf(n, |input|);
    forall i | 0 <= i < |up| ensures up[i] == Value(m, NodeAt(|up|, input, counter, i)) {
      PairUpAt(Joiner(m), row, i);
      if 2 * i + 1 < n { PairNode(m, n, input, counter, i); } else { OddNode(n, input, counter); }
    }
  }

  /** The values of all chunks are a row. */
  lemma {:induction false} ChunkRow(m: Mode, input: seq<Byte>, counter: nat)
    requires |input| > 0
    ensures Row(m, ChunkCvs(m, input, counter), input, counter)
    decreases |input|
  {
    hide ChainingValue, ChunkOutput, LargestPow2;
    if |input| <= 1024 {
      OneNode(input, counter);
    } else {
      hide Cut, Values, IsPow2;
      var l, cvs := LeftLen(|input|), ChunkCvs(m, input, counter);
      LargestPow2Spec(|cvs| - 1);
      SubtreeSplit(m, input, counter);
      hide ChunkCvs;
      ChunkRow(m, input[..l], counter);
      ChunkRow(m, input[l..], counter + l / 1024);
      JoinRows(m, cvs[..l / 1024], cvs[l / 1024..], input, counter);
      assert cvs[..l / 1024] + cvs[l / 1024..] == cvs;
    }
  }

  /** One step of the wide recursion, on the bytes of the two children. */
  lemma WideStep(m: Mode, degree: nat, input: seq<Byte>, counter: nat)
    requires IsPow2(degree) && |input| > degree * 1024
    ensures |input| > 1024 && degree >= 1
    ensures var l := LeftLen(|input|);
            var left := WideRow(Joiner(m), degree, ChunkCvs(m, input[..l], counter));
            var right := WideRow(Joiner(m), degree, ChunkCvs(m, input[l..], counter + l / 1024));
            && |left| == (if l > 1024 then Max(degree, 2) else 1)
            && (l == 1024 ==> degree == 1)
            && 1 <= |right| <= |left|
            && WideRow(Joiner(m), degree, ChunkCvs(m, input, counter))
               == (if |left| == 1 then left + right else PairUp(Joiner(m), left + right))
  {
    hide ChunkCvs, Joiner, PairUp, LargestPow2;
    assert degree >= 1;
    SubtreeSplit(m, input, counter);
    ChildrenFit(Joiner(m), degree, ChunkCvs(m, input, counter));
  }

  lemma WideChunks(m: Mode, degree: nat, input: seq<Byte>, counter: nat)
    requires 0 < |input| <= degree * 1024
    ensures Row(m, WideRow(Joiner(m), degree, ChunkCvs(m, input, counter)), input, counter)
  {
    hide ChunkCvs, Cut, Values;
    ChunkRow(m, input, counter);
    assert WideRow(Joiner(m), degree, ChunkCvs(m, input, counter)) == ChunkCvs(m, input, counter);
  }

  lemma JoinAndPair(m: Mode, left: seq<Cv>, right: seq<Cv>, input: seq<Byte>, counter: nat)
    requires |input| > 1024 && IsPow2(|left|) && |right| <= |left|
    requires var l := LeftLen(|input|);
      Row(m, left, input[..l], counter) && Row(m, right, input[l..], counter + l / 1024)
    ensures Row(m, if |left| == 1 then left + right else PairUp(Joiner(m), left + right), input, counter)
  {
    assert |left| >= 1;
    hide Joiner, PairUp, LeftLen, IsPow2, Cut, Values;
    JoinRows(m, left, right, input, counter);
    if |left| > 1 { PairedRow(m, left + right, input, counter); }
  }

  /** So is what the wide recursion returns. */
  lemma {:induction false} WideRowIsRow(m: Mode, degree: nat, input: seq<Byte>, counter: nat)
    requires IsPow2(degree) && |input| > 0
    ensures degree >= 1 && Row(m, WideRow(Joiner(m), degree, ChunkCvs(m, input, counter)), input, counter)
    decreases |input|, 1
  {
    assert degree >= 1;
    if |input| <= degree * 1024 {
      WideChunks(m, degree, input, counter);
    } else {
      WideSplitIsRow(m, degree, input, counter);
    }
  }

  lemma {:induction false} WideSplitIsRow(m: Mode, degree: nat, input: seq<Byte>, counter: nat)
    requires IsPow2(degree) && |input| > degree * 1024
    ensures degree >= 1 && Row(m, WideRow(Joiner(m), degree, ChunkCvs(m, input, counter)), input, counter)
    decreases |input|, 0
  {
    hide ChunkCvs, Joiner, PairUp, LargestPow2, LeftLen, IsPow2, WideRow, Cut, Values;
    PowerSlots(degree);
    WideStep(m, degree, input, counter);
    var l := LeftLen(|input|);
    WideRowIsRow(m, degree, input[..l], counter);
    WideRowIsRow(m, degree, input[l..], counter + l / 1024);
    JoinAndPair(m, WideRow(Joiner(m), degree, ChunkCvs(m, input[..l], counter)),
      WideRow(Joiner(m), degree, ChunkCvs(m, input[l..], counter + l / 1024)), input, counter);
  }

  lemma PowerSlots(degree: nat)
    requires IsPow2(degree)
    ensures IsPow2(1) && IsPow2(Max(degree, 2))
  {
    assert IsPow2(2 / 2);
  }
}
