/** Hashing the subtrees of a message separately and joining them. */
module Hazmat {
  import opened Bits
  import opened Alignment
  import opened Spec
  import opened Traces
  import opened Subtrees
  import opened Hashers
  import opened Xof
  import opened Runs
  import opened Pieces
  import opened Options

  /** The C code's left length. */
  function LeftSubtreeLenC(inputLen: nat): nat
    requires inputLen > 1024
  {
    LargestPow2((inputLen - 1) / 1024) * 1024
  }

  /** The Rust code's left length, on 64-bit numbers: the sum wraps around in a release build. */
  function LeftSubtreeLenRust(inputLen: nat): nat {
    NextPow2((inputLen + 1) % U64_LIMIT / 2)
  }

  /** The largest power of two at most n, as the Rust code finds it. */
  function LargestPow2LeqRust(n: nat): nat {
    NextPow2(n / 2 + 1)
  }

  /** NextPow2 of x is the only power of two in [x, 2x). */
  lemma {:induction false} NextPow2Unique(x: nat, p: nat)
    requires x >= 1 && IsPow2(p) && x <= p < 2 * x
    ensures NextPow2(x) == p
  {
    if x > 1 {
      var h := (x + 1) / 2;
      assert p % 2 == 0 && h <= p / 2 < 2 * h;
      NextPow2Unique(h, p / 2);
    }
  }

  lemma LargestPow2LeqAgrees(n: nat)
    ensures LargestPow2LeqRust(n) == LargestPow2(n)
  {
    if n > 0 {
      LargestPow2Spec(n);
      var p := LargestPow2(n);
      hide LargestPow2;
      assert n / 2 + 1 <= p by { if p > 1 { assert p % 2 == 0; } }
      NextPow2Unique(n / 2 + 1, p);
    }
  }

  lemma LeftInBytes(len: nat)
    requires len > 1024
    ensures NextPow2((len + 1) / 2) == LeftSubtreeLenC(len)
  {
    hide LargestPow2, NextPow2, IsPow2;
    var n := (len - 1) / 1024;
    var p := LargestPow2(n);
    LargestPow2Spec(n);
    Shift10(p);
    ShiftAligned(0, p, 10);
    var x := (len + 1) / 2;
    assert 1024 * p <= len - 1 < 2048 * p;
    assert x <= 1024 * p < 2 * x;
    NextPow2Unique(x, 1024 * p);
  }

  /** The two ways to find the left length agree on every length above one chunk, except on the
      one where the Rust sum overflows. */
  lemma LeftSubtreeLenAgrees(len: nat)
    requires 1024 < len < U64_LIMIT
    ensures LeftSubtreeLenRust(len) == LeftSubtreeLenC(len) <==> len + 1 < U64_LIMIT
    ensures LeftSubtreeLenC(len) == LeftLen(len)
  {
    hide LargestPow2, NextPow2, IsPow2;
    OneMoreWrapped(len);
    if len == U64_LIMIT - 1 {
      NextPow2OfZero();
      LargestPow2Spec((len - 1) / 1024);
    } else {
      LeftInBytes(len);
    }
  }

  lemma NextPow2OfZero()
    ensures NextPow2(0) == 1
  {}

  lemma OneMoreWrapped(len: nat)
    requires len < U64_LIMIT
    ensures (len + 1) % U64_LIMIT == if len == U64_LIMIT - 1 then 0 else len + 1
  {}

  /** The length where they part: the Rust sum wraps to 0 and the left part would be one byte. */
  lemma LeftSubtreeLenOverflow()
    ensures LeftSubtreeLenRust(U64_LIMIT - 1) == 1
    ensures LeftSubtreeLenC(U64_LIMIT - 1) != 1
  {
    LeftSubtreeLenAgrees(U64_LIMIT - 1);
  }

  /** How many bytes a subtree that starts at this offset can have; no limit at the very start. */
  function MaxSubtreeLen(inputOffset: nat): Option<nat>
    requires inputOffset % 1024 == 0
  {
    if inputOffset == 0 then None else Some(LowBit(inputOffset / 1024) * 1024)
  }

  predicate WithinMax(start: nat, len: nat) {
    var max := MaxSubtreeLen(1024 * start);
    max.Some? ==> len <= max.value
  }

  /** Splitting a subtree that respects the limit gives two that do. */
  lemma SplitStaysWithinMax(start: nat, len: nat)
    requires len > 1024 && WithinMax(start, len)
    ensures var l := LeftLen(len);
            WithinMax(start, l) && WithinMax(start + l / 1024, len - l)
  {
    var n := (len - 1) / 1024;
    LargestPow2Spec(n);
    var k := LargestPow2(n);
    hide LargestPow2, LowBit, Aligned, IsPow2;
    AlignedSelf(k);
    if start == 0 {
      LowBitMax(k, k);
    } else {
      var low := LowBit(start);
      LowBitSpec(start);
      Pow2Compare(k, low);
      Pow2Double(k);
      AlignedWeaken(start, low, k);
      AlignedSum(start, k, k);
      LowBitMax(start + k, k);
    }
  }

  /** The subtree reached from a subtree by going left (false) or right (true) at each split. */
  function Descend(start: nat, len: nat, path: seq<bool>): (nat, nat)
    decreases |path|
  {
    if |path| == 0 || len <= 1024 then (start, len)
    else
      var l := LeftLen(len);
      if path[0] then Descend(start + l / 1024, len - l, path[1..]) else Descend(start, l, path[1..])
  }

  /** Every subtree reached by splitting a whole message over and over respects the limit. */
  lemma {:induction false} EverySubtreeWithinMax(start: nat, len: nat, path: seq<bool>)
    requires WithinMax(start, len)
    ensures var node := Descend(start, len, path); WithinMax(node.0, node.1)
    decreases |path|
  {
    hide WithinMax, LeftLen;
    if |path| > 0 && len > 1024 {
      SplitStaysWithinMax(start, len);
      var l := LeftLen(len);
      if path[0] {
        EverySubtreeWithinMax(start + l / 1024, len - l, path[1..]);
      } else {
        EverySubtreeWithinMax(start, l, path[1..]);
      }
    }
  }

  /** So does every slice of a fixed power-of-two number of chunks. */
  lemma EverySliceWithinMax(size: nat, start: nat, len: nat)
    requires IsPow2(size) && start % size == 0 && len <= 1024 * size
    ensures WithinMax(start, len)
  {
    AlignedIsDivisible(start, size);
    if start > 0 { LowBitMax(start, size); }
  }

  lemma FitsMax(start: nat, len: nat)
    requires WithinMax(start, len) && 1024 * start + len <= U64_LIMIT && (start == 0 ==> len < U64_LIMIT)
    ensures Fits(start, len)
  {
    hide LowBit;
  }

  /** The chaining value of one subtree, fed in any pieces. */
  method HashSubtree(run: Compressor, m: Mode, platform: Platform, offset: nat,
      pieces: seq<seq<Byte>>) returns (cv: Cv)
    requires run == m.compress && platform.Valid() && offset % 1024 == 0 && 0 < |Flatten(pieces)|
    requires offset + |Flatten(pieces)| <= U64_LIMIT && (offset == 0 ==> |Flatten(pieces)| < U64_LIMIT)
    requires WithinMax(offset / 1024, |Flatten(pieces)|)
    ensures cv == SubtreeCv(m, Flatten(pieces), offset / 1024)
  {
    FitsMax(offset / 1024, |Flatten(pieces)|);
    hide SubtreeCv, LowBit, Fits, WithinMax, Hashers.Hasher.Valid;
    var hasher := new Hasher(run, platform, m.key, m.flags);
    hasher.SetInputOffset(offset);
    Feed(hasher, pieces);
    cv := hasher.FinalizeNonRoot();
  }

  /** Splitting a message at its left length, hashing the halves apart and joining them at the root
      is hashing the message. */
  method HashHalves(run: Compressor, m: Mode, platform: Platform, left: seq<seq<Byte>>, right: seq<seq<Byte>>,
      len: nat)
    returns (out: seq<Byte>)
    requires run == m.compress && platform.Valid()
    requires 1024 < |Flatten(left)| + |Flatten(right)| < U64_LIMIT
    requires |Flatten(left)| == LeftLen(|Flatten(left)| + |Flatten(right)|)
    ensures out == Hash(m, Flatten(left) + Flatten(right), 0, len)
  {
    hide SubtreeCv, Hash, LeftLen, LowBit;
    ghost var message := Flatten(left) + Flatten(right);
    assert message[..|Flatten(left)|] == Flatten(left) && message[|Flatten(left)|..] == Flatten(right);
    var split := Length(left);
    WholeWithinMax(|message|);
    SplitStaysWithinMax(0, |message|);
    var leftCv := HashSubtree(run, m, platform, 0, left);
    var rightCv := HashSubtree(run, m, platform, split, right);
    out := MergeSubtreesRoot(run, m, leftCv, rightCv, message, len);
  }

  /** Joining the values of the two halves of a message at the root. */
  method MergeSubtreesRoot(run: Compressor, m: Mode, left: Cv, right: Cv, ghost message: seq<Byte>, len: nat)
    returns (out: seq<Byte>)
    requires run == m.compress && |message| > 1024
    requires var l := LeftLen(|message|);
      left == SubtreeCv(m, message[..l], 0) && right == SubtreeCv(m, message[l..], l / 1024)
    ensures out == Hash(m, message, 0, len)
  {
    hide SubtreeCv, LeftLen, RootWindow, ParentOutput, SubtreeOutput;
    SubtreeJoin(m, message, 0);
    out := RootBytes(run, ParentOutput(m, left, right), len);
  }

  lemma WholeWithinMax(len: nat)
    ensures WithinMax(0, len)
  {}

  /** How a caller may cut a message: not at all, or at its left length, and the halves in turn. */
  datatype Cuts = Whole | Split(left: Cuts, right: Cuts)

  /** Joining the values of two subtrees into the value of the node above them. */
  method MergeSubtreesNonRoot(t: Trace, m: Mode, left: Cv, right: Cv, ghost input: seq<Byte>, ghost counter: nat)
    returns (cv: Cv)
    requires t.run == m.compress && |input| > 1024
    requires var l := LeftLen(|input|);
      left == SubtreeCv(m, input[..l], counter) && right == SubtreeCv(m, input[l..], counter + l / 1024)
    modifies t`spans
    ensures cv == SubtreeCv(m, input, counter)
  {
    hide SubtreeCv, ParentOutput, LeftLen, ChainingValue;
    SubtreeJoin(m, input, counter);
    cv := t.Finish(ParentOutput(m, left, right), m, Node(input, counter));
  }

  /** Whatever the cuts, wherever the input starts: hashing the parts separately, each at its own
      offset, and merging them gives the value of the whole subtree. */
  method HashCuts(run: Compressor, m: Mode, platform: Platform, offset: nat, input: seq<Byte>, cuts: Cuts)
    returns (cv: Cv)
    requires run == m.compress && platform.Valid() && offset % 1024 == 0 && 0 < |input|
    requires offset + |input| <= U64_LIMIT && (offset == 0 ==> |input| < U64_LIMIT)
    requires WithinMax(offset / 1024, |input|)
    ensures cv == SubtreeCv(m, input, offset / 1024)
    decreases cuts
  {
    hide SubtreeCv, LowBit, WithinMax;
    if cuts.Whole? || |input| <= 1024 {
      assert Flatten([input]) == input by { FlattenOne(input); }
      cv := HashSubtree(run, m, platform, offset, [input]);
    } else {
      var l := LeftLen(|input|);
      SplitStaysWithinMax(offset / 1024, |input|);
      assert (offset + l) / 1024 == offset / 1024 + l / 1024 && (offset + l) % 1024 == 0;
      var left := HashCuts(run, m, platform, offset, input[..l], cuts.left);
      var right := HashCuts(run, m, platform, offset + l, input[l..], cuts.right);
      var t := new Trace(run);
      cv := MergeSubtreesNonRoot(t, m, left, right, input, offset / 1024);
    }
  }

  /** The whole message, cut at its left length and as the caller likes below that, joined at the root. */
  method HashCutMessage(run: Compressor, m: Mode, platform: Platform, message: seq<Byte>, left: Cuts, right: Cuts,
                        len: nat)
    returns (out: seq<Byte>)
    requires run == m.compress && platform.Valid() && 1024 < |message| < U64_LIMIT
    ensures out == Hash(m, message, 0, len)
  {
    hide SubtreeCv, Hash, LeftLen, LowBit;
    var l := LeftLen(|message|);
    WholeWithinMax(|message|);
    SplitStaysWithinMax(0, |message|);
    var leftCv := HashCuts(run, m, platform, 0, message[..l], left);
    var rightCv := HashCuts(run, m, platform, l, message[l..], right);
    out := MergeSubtreesRoot(run, m, leftCv, rightCv, message, len);
  }

  lemma FlattenOne<T>(piece: seq<T>)
    ensures Flatten([piece]) == piece
  {
    assert [piece][..0] == [];
    assert Flatten<T>([]) == [];
    assert [] + piece == piece;
  }

  method Length(pieces: seq<seq<Byte>>) returns (n: nat)
    ensures n == |Flatten(pieces)|
  {
    n := 0;
    for i := 0 to |pieces|
      invariant n == |Flatten(pieces[..i])|
    {
      assert pieces[..i + 1][..i] == pieces[..i];
      n := n + |pieces[i]|;
    }
    assert pieces[..|pieces|] == pieces;
  }

  method RootBytes(c: Compressor, o: Output, len: nat) returns (out: seq<Byte>)
    ensures out == RootWindow(c, o, 0, len)
  {
    hide RootWindow;
    var buffer := new Byte[len];
    var t := new Trace(c);
    OutputRootBytes(t, o, 0, buffer, len, [1]);
    out := buffer[..len];
  }
}
