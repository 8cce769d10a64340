/** The lazily merged stack of the incremental hasher. A value that has just been pushed may still
    have to be merged with the ones below it; counting the one bits of the number of chunks so far
    tells how many values must remain. */
module LazyStack {
  import opened Bits
  import opened Forest

  /** One complete subtree, over the leaves from `a` on, lies unmerged above a merged stack. */
  ghost predicate Unmerged<T>(join: Join<T>, stack: seq<T>, leaves: seq<T>, a: nat) {
    && a < |leaves|
    && IsPow2(|leaves| - a) && Aligned(a, |leaves| - a)
    && stack == Stack(join, leaves[..a]) + [Tree(join, leaves[a..])]
  }

  ghost predicate Merged<T>(join: Join<T>, stack: seq<T>, leaves: seq<T>) {
    stack == Stack(join, leaves)
  }

  ghost predicate Holds<T>(join: Join<T>, stack: seq<T>, leaves: seq<T>) {
    Merged(join, stack, leaves) || exists a: nat :: Unmerged(join, stack, leaves, a)
  }

  lemma NothingMerged<T>(join: Join<T>)
    ensures Merged(join, [], [])
  {}

  /** While more values are on the stack than there are one bits, the top two are the children of
      a node of the tree, over the leaves from b on. */
  lemma TopTwo<T>(join: Join<T>, stack: seq<T>, leaves: seq<T>, a: nat) returns (b: nat)
    requires Unmerged(join, stack, leaves, a)
    requires |stack| > PopCount(|leaves|)
    ensures b + |leaves| == 2 * a && IsPow2(|leaves| - b) && Aligned(b, |leaves| - b)
    ensures stack == Stack(join, leaves[..b]) + [Tree(join, leaves[b..a])] + [Tree(join, leaves[a..])]
  {
    hide IsPow2, Aligned, PopCount, Stack, Tree;
    var s := |leaves| - a;
    PopCountTest(a, s);
    StackLength(join, leaves[..a]);
    StackTop(join, leaves[..a], s);
    b := a - s;
    assert 2 * s == |leaves| - b;
    assert leaves[..a][..b] == leaves[..b] && leaves[..a][b..] == leaves[b..a];
  }

  /** Joining the top two leaves a stack of the same kind. */
  lemma MergeStep<T>(join: Join<T>, stack: seq<T>, leaves: seq<T>, a: nat) returns (b: nat)
    requires Unmerged(join, stack, leaves, a)
    requires |stack| > PopCount(|leaves|)
    ensures |stack| >= 2
    ensures Unmerged(join, stack[..|stack| - 2] + [join(stack[|stack| - 2], stack[|stack| - 1])], leaves, b)
  {
    hide IsPow2, Aligned, PopCount, Stack, Tree;
    b := TopTwo(join, stack, leaves, a);
    assert stack[..|stack| - 2] == Stack(join, leaves[..b]);
    TreeOfParts(join, leaves[b..a], leaves[a..]);
    assert leaves[b..a] + leaves[a..] == leaves[b..];
  }

  /** With as many values as one bits, the stack is merged: it holds exactly the binary digits. */
  lemma MergeDone<T>(join: Join<T>, stack: seq<T>, leaves: seq<T>, a: nat)
    requires Unmerged(join, stack, leaves, a)
    requires |stack| <= PopCount(|leaves|)
    ensures Merged(join, stack, leaves)
  {
    hide IsPow2, Aligned, PopCount, Stack, Tree;
    var s := |leaves| - a;
    PopCountTest(a, s);
    StackLength(join, leaves[..a]);
    StackPush(join, leaves[..a], leaves[a..]);
    assert leaves[..a] + leaves[a..] == leaves;
  }

  lemma MergedLength<T>(join: Join<T>, stack: seq<T>, leaves: seq<T>)
    requires Merged(join, stack, leaves)
    ensures |stack| == PopCount(|leaves|)
  {
    StackLength(join, leaves);
  }

  /** A complete aligned subtree pushed on a merged stack. */
  lemma PushUnmerged<T>(join: Join<T>, stack: seq<T>, leaves: seq<T>, more: seq<T>)
    requires Merged(join, stack, leaves)
    requires IsPow2(|more|) && Aligned(|leaves|, |more|)
    ensures Unmerged(join, stack + [Tree(join, more)], leaves + more, |leaves|)
  {
    hide Aligned, Stack, Tree;
    assert |more| > 0;
    hide IsPow2;
    assert (leaves + more)[..|leaves|] == leaves && (leaves + more)[|leaves|..] == more;
  }

  /** The number of values on the stack never passes the 55 there is room for. */
  lemma Depth<T>(join: Join<T>, stack: seq<T>, leaves: seq<T>)
    requires Holds(join, stack, leaves) && |leaves| <= Shift(1, 54)
    ensures |stack| <= 55
    ensures Merged(join, stack, leaves) && |leaves| < Shift(1, 54) ==> |stack| <= 54
  {
    hide IsPow2, Aligned, Stack, Tree, PopCount, Shift;
    if Merged(join, stack, leaves) {
      StackLength(join, leaves);
      if |leaves| < Shift(1, 54) {
        PopCountBound(|leaves|, 54);
      } else {
        PopCountPow2(54);
      }
    } else {
      var a: nat :| Unmerged(join, stack, leaves, a);
      StackLength(join, leaves[..a]);
      PopCountBound(a, 54);
    }
  }

  lemma {:induction false} PopCountPow2(e: nat)
    ensures PopCount(Shift(1, e)) == 1
  {
    if e > 0 {
      var h := Shift(1, e - 1);
      PopCountPow2(e - 1);
      assert (2 * h) / 2 == h && (2 * h) % 2 == 0;
    }
  }
}
