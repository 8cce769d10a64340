/** Binary trees over a list of chaining values, independent of how values are joined.
    `Tree` is the recursive definition of section 2.1 of the BLAKE3 paper: split at the largest
    power of two strictly below the length. `PairUp` is one layer of the layer-by-layer form,
    `Stack` is the list of complete subtrees an incremental hasher keeps. */
module Forest {
  import opened Bits
  import opened Pieces

  type Join<!T> = (T, T) -> T

  function Tree<T>(join: Join<T>, leaves: seq<T>): T
    requires |leaves| >= 1
    decreases |leaves|
  {
    if |leaves| == 1 then leaves[0]
    else
      LargestPow2Spec(|leaves| - 1);
      var k := LargestPow2(|leaves| - 1);
      join(Tree(join, leaves[..k]), Tree(join, leaves[k..]))
  }

  /** Join neighbours; an odd last value is passed up unchanged. */
  function PairUp<T>(join: Join<T>, row: seq<T>): seq<T> {
    if |row| < 2 then row else [join(row[0], row[1])] + PairUp(join, row[2..])
  }

  /** The complete subtrees of a prefix of the input, largest first: one per binary digit. */
  function Stack<T>(join: Join<T>, leaves: seq<T>): seq<T>
    decreases |leaves|
  {
    if |leaves| == 0 then []
    else
      LargestPow2Spec(|leaves|);
      var p := LargestPow2(|leaves|);
      [Tree(join, leaves[..p])] + Stack(join, leaves[p..])
  }

  /** Join a value with everything on a stack, from the top down to the bottom. */
  function RollUp<T>(join: Join<T>, stack: seq<T>, top: T): T {
    if |stack| == 0 then top else join(stack[0], RollUp(join, stack[1..], top))
  }

  /** The two children of the topmost node. */
  function TopPair<T>(join: Join<T>, leaves: seq<T>): (T, T)
    requires |leaves| >= 2
  {
    LargestPow2Spec(|leaves| - 1);
    var k := LargestPow2(|leaves| - 1);
    (Tree(join, leaves[..k]), Tree(join, leaves[k..]))
  }

  lemma TreeStep<T>(join: Join<T>, leaves: seq<T>)
    requires |leaves| >= 2
    ensures var k := LargestPow2(|leaves| - 1);
      0 < k < |leaves| && Tree(join, leaves) == join(Tree(join, leaves[..k]), Tree(join, leaves[k..]))
  {
    LargestPow2Spec(|leaves| - 1);
  }

  lemma {:induction false} PairUpLength<T>(join: Join<T>, row: seq<T>)
    ensures |PairUp(join, row)| == (|row| + 1) / 2
  {
    if |row| >= 2 { PairUpLength(join, row[2..]); }
  }

  lemma FirstPair<T>(join: Join<T>, row: seq<T>)
    requires |row| >= 2
    ensures PairUp(join, row) == [join(row[0], row[1])] + PairUp(join, row[2..])
  {}

  lemma {:induction false} PairUpConcat<T>(join: Join<T>, a: seq<T>, b: seq<T>)
    requires |a| % 2 == 0
    ensures PairUp(join, a + b) == PairUp(join, a) + PairUp(join, b)
  {
    if |a| == 0 {
      assert a + b == b;
    } else {
      PairUpConcat(join, a[2..], b);
      RestOfSum(a, b, 2);
      FirstPair(join, a);
      FirstPair(join, a + b);
      hide PairUp;
    }
  }

  /** One layer of pairing, odd value promoted, leaves the tree unchanged. */
  lemma {:induction false} PairUpKeepsTree<T>(join: Join<T>, row: seq<T>)
    requires |row| >= 1
    ensures Tree(join, PairUp(join, row)) == Tree(join, row)
    decreases |row|, 1
  {
    if |row| >= 3 {
      PairUpKeepsTopPair(join, row);
    }
  }

  /** ... and, from three values up, the two children of the top node as well. */
  lemma {:induction false} PairUpKeepsTopPair<T>(join: Join<T>, row: seq<T>)
    requires |row| >= 3
    ensures |PairUp(join, row)| >= 2
    ensures TopPair(join, PairUp(join, row)) == TopPair(join, row)
    decreases |row|, 0
  {
    hide LargestPow2, IsPow2, PairUp, Tree;
    var up := PairUp(join, row);
    PairUpLength(join, row);
    var k, h := LargestPow2(|row| - 1), LargestPow2(|up| - 1);
    LargestPow2Spec(|row| - 1);
    LargestPow2Half(|row| - 1, |up| - 1);
    var left, right := row[..k], row[k..];
    PairUpLength(join, left);
    assert row == left + right;
    PairUpConcat(join, left, right);
    assert up[..h] == PairUp(join, left);
    assert up[h..] == PairUp(join, right);
    PairUpKeepsTree(join, left);
    PairUpKeepsTree(join, right);
  }

  /** A full left part of 2^k values and a right part of at most 2^k are exactly the children. */
  lemma TreeOfParts<T>(join: Join<T>, left: seq<T>, right: seq<T>)
    requires IsPow2(|left|) && 1 <= |right| <= |left|
    ensures TopPair(join, left + right) == (Tree(join, left), Tree(join, right))
    ensures Tree(join, left + right) == join(Tree(join, left), Tree(join, right))
  {
    LargestPow2Unique(|left + right| - 1, |left|);
    assert (left + right)[..|left|] == left && (left + right)[|left|..] == right;
  }

  lemma TopPairOfTwo<T>(join: Join<T>, left: T, right: T)
    ensures TopPair(join, [left, right]) == (left, right)
  {
    assert [left, right][..1] == [left] && [left, right][1..] == [right];
  }

  lemma {:induction false} StackLength<T>(join: Join<T>, leaves: seq<T>)
    ensures |Stack(join, leaves)| == PopCount(|leaves|)
    decreases |leaves|
  {
    if |leaves| > 0 {
      LargestPow2Spec(|leaves|);
      DropHighBit(|leaves|);
      StackLength(join, leaves[LargestPow2(|leaves|)..]);
    }
  }

  /** A complete subtree smaller than everything on the stack is simply pushed. */
  lemma {:induction false} StackPush<T>(join: Join<T>, leaves: seq<T>, more: seq<T>)
    requires IsPow2(|more|) && Aligned(|leaves|, 2 * |more|)
    ensures Stack(join, leaves + more) == Stack(join, leaves) + [Tree(join, more)]
    decreases |leaves|
  {
    hide Aligned, IsPow2, LargestPow2, PopCount, Tree;
    var s := |more|;
    Pow2Double(s);
    if |leaves| == 0 {
      LargestPow2Unique(s, s);
      assert leaves + more == more && more[..s] == more && more[s..] == [];
    } else {
      var p := LargestPow2(|leaves|);
      AddLowBit(|leaves|, s);
      DropHighBitAligned(|leaves|, 2 * s);
      assert (leaves + more)[..p] == leaves[..p];
      assert (leaves + more)[p..] == leaves[p..] + more;
      StackPush(join, leaves[p..], more);
    }
  }

  /** When the last complete subtree of the stack has the size of the new one, it is on top. */
  lemma StackTop<T>(join: Join<T>, leaves: seq<T>, s: nat)
    requires IsPow2(s) && Aligned(|leaves|, s) && !Aligned(|leaves|, 2 * s)
    ensures s <= |leaves|
    ensures Aligned(|leaves| - s, 2 * s)
    ensures var cut := |leaves| - s;
            Stack(join, leaves) == Stack(join, leaves[..cut]) + [Tree(join, leaves[cut..])]
  {
    hide Aligned, IsPow2, Stack, Tree;
    LowBitSet(|leaves|, s);
    var cut := |leaves| - s;
    StackPush(join, leaves[..cut], leaves[cut..]);
    assert leaves[..cut] + leaves[cut..] == leaves;
  }

  /** Rolling the stack up onto a last, possibly incomplete subtree gives the whole tree, as long
      as that subtree is no larger than any complete one before it. */
  lemma {:induction false} RollUpIsTree<T>(join: Join<T>, leaves: seq<T>, last: seq<T>, s: nat)
    requires IsPow2(s) && Aligned(|leaves|, s) && 1 <= |last| <= s
    ensures RollUp(join, Stack(join, leaves), Tree(join, last)) == Tree(join, leaves + last)
    ensures |leaves| > 0 ==>
      var p := LargestPow2(|leaves|);
      && p <= |leaves|
      && Stack(join, leaves)[0] == Tree(join, leaves[..p])
      && TopPair(join, leaves + last)
         == (Tree(join, leaves[..p]), RollUp(join, Stack(join, leaves)[1..], Tree(join, last)))
    decreases |leaves|
  {
    if |leaves| == 0 {
      assert leaves + last == last;
    } else {
      hide Aligned, IsPow2, LargestPow2, Tree;
      LargestPow2Spec(|leaves|);
      var p := LargestPow2(|leaves|);
      DropHighBitAligned(|leaves|, s);
      RoomBelowDouble(|leaves|, s);
      RollUpIsTree(join, leaves[p..], last, s);
      LeaveOut(leaves, last, p);
      TreeOfParts(join, leaves[..p], leaves[p..] + last);
      assert Stack(join, leaves)[1..] == Stack(join, leaves[p..]);
    }
  }
}
