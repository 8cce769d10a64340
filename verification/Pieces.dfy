/** Sequences in pieces and in slices. */
module Pieces {

  function Repeat<T>(x: T, n: nat): (s: seq<T>)
    ensures |s| == n && forall i :: 0 <= i < n ==> s[i] == x
  {
    seq(n, _ => x)
  }

  function Flatten<T>(pieces: seq<seq<T>>): seq<T> {
    if |pieces| == 0 then [] else Flatten(pieces[..|pieces| - 1]) + pieces[|pieces| - 1]
  }

  lemma {:induction false} FlattenPrefix<T>(pieces: seq<seq<T>>, n: nat)
    requires n <= |pieces|
    ensures |Flatten(pieces[..n])| <= |Flatten(pieces)|
    decreases |pieces| - n
  {
    if n < |pieces| {
      assert pieces[..n + 1][..n] == pieces[..n];
      FlattenPrefix(pieces, n + 1);
    } else {
      assert pieces[..n] == pieces;
    }
  }

  // ---- Slices ----

  lemma SliceOfSlice<T>(s: seq<T>, a: nat, b: nat, c: nat, d: nat)
    requires a <= b <= |s| && c <= d <= b - a
    ensures s[a..b][c..d] == s[a + c..a + d]
  {
    var x, y := s[a..b][c..d], s[a + c..a + d];
    assert |x| == |y|;
    forall i | 0 <= i < |x| ensures x[i] == y[i] {
      assert x[i] == s[a..b][c + i] == s[a + (c + i)];
    }
  }

  lemma SliceOfRest<T>(s: seq<T>, a: nat, c: nat, d: nat)
    requires a <= |s| && c <= d <= |s| - a
    ensures s[a..][c..d] == s[a + c..a + d]
  {
    assert s[a..] == s[a..|s|];
    SliceOfSlice(s, a, |s|, c, d);
  }

  lemma RestOfRest<T>(s: seq<T>, a: nat, c: nat)
    requires a + c <= |s|
    ensures s[a..][c..] == s[a + c..]
  {}

  lemma FirstOfSum<T>(a: seq<T>, b: seq<T>, k: nat)
    requires k <= |a|
    ensures (a + b)[..k] == a[..k]
  {}

  lemma RestOfSum<T>(a: seq<T>, b: seq<T>, k: nat)
    requires k <= |a|
    ensures (a + b)[k..] == a[k..] + b
  {}

  lemma AcrossSum<T>(a: seq<T>, b: seq<T>, k: nat, n: nat)
    requires k <= |a| && n <= |b|
    ensures (a + b)[k..|a| + n] == a[k..] + b[..n]
  {}

  lemma ToEnd<T>(s: seq<T>, a: nat)
    requires a <= |s|
    ensures s[a..|s|] == s[a..]
  {}

  /** A slice is a sum just when its two parts are the summands. */
  lemma SliceIsSum<T>(s: seq<T>, at: nat, x: seq<T>, y: seq<T>)
    requires at + |x| + |y| <= |s|
    ensures s[at..at + |x| + |y|] == x + y <==> s[at..at + |x|] == x && s[at + |x|..at + |x| + |y|] == y
  {
    var t := s[at..at + |x| + |y|];
    SliceOfSlice(s, at, at + |x| + |y|, 0, |x|);
    SliceOfSlice(s, at, at + |x| + |y|, |x|, |x| + |y|);
    assert t == t[0..|x|] + t[|x|..|x| + |y|];
    assert (x + y)[0..|x|] == x && (x + y)[|x|..|x| + |y|] == y;
  }

  lemma SliceConcat<T>(s: seq<T>, from: nat, mid: nat, to: nat)
    requires from <= mid <= to <= |s|
    ensures s[from..to] == s[from..mid] + s[mid..to]
  {}

  /** Taking k elements over from the front of what is left. */
  lemma TakeOver<T>(a: seq<T>, b: seq<T>, k: nat)
    requires k <= |b|
    ensures a + b[..k] + b[k..] == a + b
  {}

  lemma OneMore<T>(a: seq<T>, b: seq<T>, i: nat)
    requires i < |b|
    ensures a + b[..i] + [b[i]] == a + b[..i + 1]
  {}

  lemma LeaveOut<T>(a: seq<T>, b: seq<T>, k: nat)
    requires k <= |a|
    ensures a + b == a[..k] + (a[k..] + b)
  {}

  lemma WholeArray<T>(a: array<T>)
    ensures a[..] == a[0..a.Length]
  {}
}
