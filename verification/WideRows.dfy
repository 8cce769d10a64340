/** The wide recursion on lists of chaining values: what one call leaves in its output buffer,
    for any power-of-two SIMD degree. */
module WideRows {
  import opened Bits
  import opened Forest

  /** The row of values the wide recursion returns for a subtree with these chunk values. */
  function WideRow<T>(join: Join<T>, degree: nat, leaves: seq<T>): seq<T>
    requires degree >= 1
    decreases |leaves|
  {
    if |leaves| <= degree then leaves
    else
      LargestPow2Spec(|leaves| - 1);
      var k := LargestPow2(|leaves| - 1);
      var left := WideRow(join, degree, leaves[..k]);
      var right := WideRow(join, degree, leaves[k..]);
      if |left| == 1 then left + right else PairUp(join, left + right)
  }

  /** A complete subtree of at least `degree` chunks fills the row exactly; every other input gives
      at least one value, at least two when there are two chunks, and never more than fit. */
  lemma {:induction false} WideRowLength<T>(join: Join<T>, degree: nat, leaves: seq<T>)
    requires IsPow2(degree) && |leaves| >= 1
    ensures 1 <= |WideRow(join, degree, leaves)| <= Max(degree, 2)
    ensures |WideRow(join, degree, leaves)| <= |leaves|
    ensures |leaves| >= 2 ==> |WideRow(join, degree, leaves)| >= 2
    ensures IsPow2(|leaves|) && |leaves| >= degree && |leaves| >= 2 ==>
              |WideRow(join, degree, leaves)| == Max(degree, 2)
    decreases |leaves|
  {
    hide LargestPow2, PairUp;
    if |leaves| > degree {
      LargestPow2Spec(|leaves| - 1);
      var k := LargestPow2(|leaves| - 1);
      if k < degree { Pow2Compare(k, degree); }
      WideRowLength(join, degree, leaves[..k]);
      WideRowLength(join, degree, leaves[k..]);
      PairUpLength(join, WideRow(join, degree, leaves[..k]) + WideRow(join, degree, leaves[k..]));
      if IsPow2(|leaves|) { LargestPow2Unique(|leaves| - 1, |leaves| / 2); }
    }
  }

  /** At every recursive step the left child fills exactly the slots before the place where the
      right child's values start, and the right child has between one and that many. */
  lemma ChildrenFit<T>(join: Join<T>, degree: nat, leaves: seq<T>)
    requires IsPow2(degree) && |leaves| > degree
    ensures var k := LargestPow2(|leaves| - 1);
            && degree <= k < |leaves|
            && |WideRow(join, degree, leaves[..k])| == (if k == 1 then 1 else Max(degree, 2))
            && 1 <= |WideRow(join, degree, leaves[k..])| <= |WideRow(join, degree, leaves[..k])|
            && IsPow2(k)
  {
    hide LargestPow2, WideRow;
    LargestPow2Spec(|leaves| - 1);
    var k := LargestPow2(|leaves| - 1);
    if k < degree { Pow2Compare(k, degree); }
    WideRowLength(join, degree, leaves[..k]);
    WideRowLength(join, degree, leaves[k..]);
  }

  /** Whatever the degree, the row has the subtree's two top children. */
  lemma {:induction false} WideRowTopPair<T>(join: Join<T>, degree: nat, leaves: seq<T>)
    requires IsPow2(degree) && |leaves| >= 1
    ensures |WideRow(join, degree, leaves)| >= 1
    ensures Tree(join, WideRow(join, degree, leaves)) == Tree(join, leaves)
    ensures |leaves| >= 2 ==>
              && |WideRow(join, degree, leaves)| >= 2
              && TopPair(join, WideRow(join, degree, leaves)) == TopPair(join, leaves)
    decreases |leaves|
  {
    hide LargestPow2, PairUp;
    WideRowLength(join, degree, leaves);
    if |leaves| > degree {
      var k := LargestPow2(|leaves| - 1);
      ChildrenFit(join, degree, leaves);
      var left := WideRow(join, degree, leaves[..k]);
      var right := WideRow(join, degree, leaves[k..]);
      WideRowTopPair(join, degree, leaves[..k]);
      WideRowTopPair(join, degree, leaves[k..]);
      TreeOfParts(join, left, right);
      if |left| > 1 { PairUpKeepsTopPair(join, left + right); }
    }
  }

  /** One store of a chaining value into the shared buffer. */
  datatype Store<T> = Store(slot: nat, value: T)

  function Run<T>(buffer: seq<T>, stores: seq<Store<T>>): (after: seq<T>)
    requires forall s <- stores :: s.slot < |buffer|
    ensures |after| == |buffer|
    decreases |stores|
  {
    if |stores| == 0 then buffer
    else Run(buffer[stores[0].slot := stores[0].value], stores[1..])
  }

  /** The stores a task makes when it writes a row from `slot` on. */
  function RowStores<T>(slot: nat, row: seq<T>): (stores: seq<Store<T>>)
    ensures |stores| == |row|
    ensures forall i :: 0 <= i < |row| ==> stores[i] == Store(slot + i, row[i])
  {
    seq(|row|, i requires 0 <= i < |row| => Store(slot + i, row[i]))
  }

  /** `run` is some interleaving of the stores of two parallel tasks. */
  ghost predicate Interleaves<T(!new)>(a: seq<Store<T>>, b: seq<Store<T>>, run: seq<Store<T>>)
    decreases |run|
  {
    if |run| == 0 then a == [] && b == []
    else
      || (|a| > 0 && run[0] == a[0] && Interleaves(a[1..], b, run[1..]))
      || (|b| > 0 && run[0] == b[0] && Interleaves(a, b[1..], run[1..]))
  }

  ghost predicate InRange<T>(stores: seq<Store<T>>, lo: nat, hi: nat) {
    forall s <- stores :: lo <= s.slot < hi
  }

  lemma {:induction false} StoreCommutes<T>(buffer: seq<T>, a: seq<Store<T>>, s: Store<T>)
    requires s.slot < |buffer| && InRange(a, 0, |buffer|)
    requires forall x <- a :: x.slot != s.slot
    ensures Run(buffer[s.slot := s.value], a) == Run(buffer, a)[s.slot := s.value]
    decreases |a|
  {
    if |a| > 0 {
      var x := a[0];
      assert x in a;
      assert buffer[s.slot := s.value][x.slot := x.value] == buffer[x.slot := x.value][s.slot := s.value];
      StoreCommutes(buffer[x.slot := x.value], a[1..], s);
    }
  }

  /** Tasks that write disjoint slots: every interleaving ends like running one after the other. */
  lemma {:induction false} AnyInterleavingIsSerial<T(!new)>(buffer: seq<T>, a: seq<Store<T>>, b: seq<Store<T>>,
                                                            run: seq<Store<T>>, mid: nat)
    requires mid <= |buffer| && InRange(a, 0, mid) && InRange(b, mid, |buffer|)
    requires Interleaves(a, b, run)
    ensures InRange(run, 0, |buffer|)
    ensures Run(buffer, run) == Run(Run(buffer, a), b)
    decreases |run|
  {
    if |run| > 0 {
      var x := run[0];
      if |a| > 0 && x == a[0] && Interleaves(a[1..], b, run[1..]) {
        AnyInterleavingIsSerial(buffer[x.slot := x.value], a[1..], b, run[1..], mid);
      } else {
        AnyInterleavingIsSerial(buffer[x.slot := x.value], a, b[1..], run[1..], mid);
        StoreCommutes(buffer, a, x);
      }
    }
  }

  lemma {:induction false} RunRow<T>(buffer: seq<T>, slot: nat, row: seq<T>)
    requires slot + |row| <= |buffer|
    ensures Run(buffer, RowStores(slot, row)) == buffer[..slot] + row + buffer[slot + |row|..]
    decreases |row|
  {
    if |row| > 0 {
      RunRow(buffer[slot := row[0]], slot + 1, row[1..]);
      assert RowStores(slot, row)[1..] == RowStores(slot + 1, row[1..]);
    } else {
      assert buffer[..slot] + buffer[slot..] == buffer;
    }
  }

  lemma InterleavedRows<T(!new)>(buffer: seq<T>, left: seq<T>, right: seq<T>, run: seq<Store<T>>)
    requires |left| + |right| <= |buffer|
    requires Interleaves(RowStores(0, left), RowStores(|left|, right), run)
    ensures InRange(run, 0, |buffer|)
    ensures Run(buffer, run) == left + right + buffer[|left| + |right|..]
  {
    hide Interleaves, Run;
    AnyInterleavingIsSerial(buffer, RowStores(0, left), RowStores(|left|, right), run, |left|);
    RunRow(buffer, 0, left);
    RunRow(Run(buffer, RowStores(0, left)), |left|, right);
    AfterRow(buffer, left, |right|);
  }

  lemma AfterRow<T>(buffer: seq<T>, left: seq<T>, n: nat)
    requires |left| + n <= |buffer|
    ensures var x := buffer[..0] + left + buffer[0 + |left|..];
      |x| == |buffer| && x[..|left|] == left && x[|left| + n..] == buffer[|left| + n..]
  {
    var rest := buffer[|left|..];
    assert rest[n..] == buffer[|left| + n..];
  }

  /** The parallel join: the two children of the wide recursion write disjoint slots of the shared
      buffer, so whatever the scheduler does, the buffer ends up as after the serial calls. */
  lemma ParallelJoin<T(!new)>(join: Join<T>, degree: nat, leaves: seq<T>, buffer: seq<T>, run: seq<Store<T>>)
    requires IsPow2(degree) && |leaves| > degree
    requires |buffer| >= 2 * Max(degree, 2)
    requires var k := LargestPow2(|leaves| - 1);
             && 1 <= k < |leaves|
             && var slots := if k == 1 then 1 else Max(degree, 2);
                Interleaves(RowStores(0, WideRow(join, degree, leaves[..k])),
                            RowStores(slots, WideRow(join, degree, leaves[k..])), run)
    ensures InRange(run, 0, |buffer|)
    ensures var k := LargestPow2(|leaves| - 1);
            var row := WideRow(join, degree, leaves[..k]) + WideRow(join, degree, leaves[k..]);
            && |row| <= |buffer|
            && Run(buffer, run) == row + buffer[|row|..]
  {
    var k := LargestPow2(|leaves| - 1);
    ChildrenFit(join, degree, leaves);
    hide WideRow, Interleaves, Run;
    InterleavedRows(buffer, WideRow(join, degree, leaves[..k]), WideRow(join, degree, leaves[k..]), run);
  }
}
