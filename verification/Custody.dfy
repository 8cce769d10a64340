/** The packet custody stream: fragments of one packet arrive in any order, each with the digest it
    should have, and a bitmap records which have been accepted. */
module Custody {
  import opened Bits
  import opened Counting
  import opened Encoding
  import opened Pieces

  const MAX_FRAGMENTS: nat := 4096

  type Digest = s: seq<bv8> | |s| == 32 witness seq(32, _ => 0)
  type PacketId = s: seq<U8> | |s| == 16 witness seq(16, _ => 0)

  /** The hash of a byte string, whatever it is. */
  type Hash = seq<U8> -> Digest

  datatype Status = Ok | Duplicate | Incomplete | ErrRange | ErrDigest

  predicate ValidTotal(total: nat) {
    0 < total <= MAX_FRAGMENTS
  }

  /** The bytes hashed for one fragment. */
  function ChunkBytes(id: PacketId, index: nat, total: nat, payload: seq<U8>): seq<U8> {
    [0x52, 0x50, 0x43, 1] + id + Le(index, 4) + Le(total, 4) + Le(|payload|, 8) + payload
  }

  /** One entry of the fragment table. */
  datatype Entry = Entry(length: nat, digest: Digest)

  /** The bytes of a digest as numbers. */
  function Octets(d: seq<bv8>): (bytes: seq<U8>)
    ensures |bytes| == |d|
  {
    seq(|d|, i requires 0 <= i < |d| => d[i] as nat)
  }

  lemma OctetsInjective(a: seq<bv8>, b: seq<bv8>)
    requires Octets(a) == Octets(b)
    ensures a == b
  {
    forall i | 0 <= i < |a|
      ensures a[i] == b[i]
    {
      assert Octets(a)[i] == Octets(b)[i];
      OctetBack(a[i]);
      OctetBack(b[i]);
    }
  }

  lemma OctetBack(b: bv8)
    ensures (b as nat) as bv8 == b
  {}

  function Table(entries: seq<Entry>, from: nat): seq<U8> {
    if |entries| == 0 then []
    else Le(from, 4) + Le(entries[0].length, 8) + Octets(entries[0].digest) + Table(entries[1..], from + 1)
  }

  /** The bytes hashed for the whole fragment table. */
  function ManifestBytes(id: PacketId, entries: seq<Entry>): seq<U8> {
    [0x52, 0x50, 0x52, 1] + id + Le(|entries|, 4) + Table(entries, 0)
  }

  /** Where the fields of a fragment's bytes stand. */
  lemma ChunkLayout(id: PacketId, index: Word32, total: Word32, payload: seq<U8>)
    requires |payload| < U64_LIMIT
    ensures var bytes := ChunkBytes(id, index, total, payload);
      && |bytes| == 36 + |payload|
      && bytes[0..4] == [0x52, 0x50, 0x43, 1] && bytes[4..20] == id
      && Get32(bytes, 20) == index && Get32(bytes, 24) == total && Get64(bytes, 28) == |payload|
      && bytes[36..36 + |payload|] == payload
  {
    hide Le, Get32, Get64;
    var bytes := ChunkBytes(id, index, total, payload);
    var a: seq<U8> := [0x52, 0x50, 0x43, 1];
    var b := a + id;
    var c := b + Le(index, 4);
    var d := c + Le(total, 4);
    var e := d + Le(|payload|, 8);
    assert bytes[0..36 + |payload|] == bytes;
    SliceIsSum(bytes, 0, e, payload);
    SliceIsSum(bytes, 0, d, Le(|payload|, 8));
    SliceIsSum(bytes, 0, c, Le(total, 4));
    SliceIsSum(bytes, 0, b, Le(index, 4));
    SliceIsSum(bytes, 0, a, id);
    WordRead(bytes, 20, index);
    WordRead(bytes, 24, total);
    NumberRead(bytes, 28, |payload|);
  }

  /** Where the manifest's header stands, and entry k: its number, its length and its digest. */
  lemma ManifestLayout(id: PacketId, entries: seq<Entry>, k: nat)
    requires |entries| <= MAX_FRAGMENTS && k < |entries| && entries[k].length < U64_LIMIT
    ensures var bytes, at := ManifestBytes(id, entries), 24 + 44 * k;
      && |bytes| == 24 + 44 * |entries|
      && bytes[0..4] == [0x52, 0x50, 0x52, 1] && bytes[4..20] == id && Get32(bytes, 20) == |entries|
      && Get32(bytes, at) == k && Get64(bytes, at + 4) == entries[k].length
      && bytes[at + 12..at + 44] == Octets(entries[k].digest)
  {
    hide Le, Get32, Get64, Table, Octets, ManifestBytes;
    var bytes, at := ManifestBytes(id, entries), 24 + 44 * k;
    ManifestParts(id, entries);
    TableEntry(entries, 0, k);
    WordRead(bytes, 20, |entries|);
    SliceOfSlice(bytes, 24, 24 + 44 * |entries|, 44 * k, 44 * k + 44);
    var length, digest := Le(entries[k].length, 8), Octets(entries[k].digest);
    SliceIsSum(bytes, at, Le(k, 4) + length, digest);
    SliceIsSum(bytes, at, Le(k, 4), length);
    WordRead(bytes, at, k);
    NumberRead(bytes, at + 4, entries[k].length);
  }

  lemma ManifestParts(id: PacketId, entries: seq<Entry>)
    ensures var bytes, end := ManifestBytes(id, entries), 24 + 44 * |entries|;
      && |bytes| == end && bytes[0..4] == [0x52, 0x50, 0x52, 1] && bytes[4..20] == id
      && bytes[20..24] == Le(|entries|, 4) && bytes[24..end] == Table(entries, 0)
  {
    hide Le, Table;
    var bytes, table := ManifestBytes(id, entries), Table(entries, 0);
    var a: seq<U8> := [0x52, 0x50, 0x52, 1];
    TableLength(entries, 0);
    assert bytes[0..24 + |table|] == bytes;
    SliceIsSum(bytes, 0, a + id + Le(|entries|, 4), table);
    SliceIsSum(bytes, 0, a + id, Le(|entries|, 4));
    SliceIsSum(bytes, 0, a, id);
  }

  lemma {:induction false} TableEntry(entries: seq<Entry>, from: nat, k: nat)
    requires k < |entries|
    ensures |Table(entries, from)| == 44 * |entries|
    ensures Table(entries, from)[44 * k..44 * k + 44]
         == Le(from + k, 4) + Le(entries[k].length, 8) + Octets(entries[k].digest)
    decreases |entries|
  {
    hide Le, Octets;
    var first := Le(from, 4) + Le(entries[0].length, 8) + Octets(entries[0].digest);
    var rest := Table(entries[1..], from + 1);
    assert Table(entries, from) == first + rest;
    if k > 0 {
      TableEntry(entries[1..], from + 1, k - 1);
      assert (first + rest)[44 * k..44 * k + 44] == rest[44 * (k - 1)..44 * (k - 1) + 44];
    } else {
      TableLength(entries[1..], from + 1);
      assert (first + rest)[0..44] == first;
    }
  }

  lemma {:induction false} TableLength(entries: seq<Entry>, from: nat)
    ensures |Table(entries, from)| == 44 * |entries|
  {
    if |entries| > 0 { TableLength(entries[1..], from + 1); }
  }

  /** Two concatenations whose first parts have equal length agree part by part. */
  lemma SplitEqual(a: seq<U8>, b: seq<U8>, c: seq<U8>, d: seq<U8>)
    requires |a| == |c| && a + b == c + d
    ensures a == c && b == d
  {
    assert (a + b)[..|a|] == a && (c + d)[..|a|] == c;
    assert (a + b)[|a|..] == b && (c + d)[|a|..] == d;
  }

  lemma LeInjective(m: nat, n: nat, k: nat)
    requires m < Pow256(k) && n < Pow256(k) && Le(m, k) == Le(n, k)
    ensures m == n
  {
    LeRoundTrip(m, k);
    LeRoundTrip(n, k);
  }

  /** The fragment's bytes determine packet, index, number of fragments and payload. */
  lemma ChunkBytesInjective(id: PacketId, i: nat, total: nat, p: seq<U8>, id': PacketId, i': nat, total': nat,
      p': seq<U8>)
    requires i < U32_LIMIT && total < U32_LIMIT && i' < U32_LIMIT && total' < U32_LIMIT
    requires ChunkBytes(id, i, total, p) == ChunkBytes(id', i', total', p')
    ensures id == id' && i == i' && total == total' && p == p'
  {
    hide Le;
    Widths();
    var magic: seq<U8> := [0x52, 0x50, 0x43, 1];
    SplitEqual(magic + id + Le(i, 4) + Le(total, 4) + Le(|p|, 8), p,
               magic + id' + Le(i', 4) + Le(total', 4) + Le(|p'|, 8), p');
    SplitEqual(magic + id + Le(i, 4) + Le(total, 4), Le(|p|, 8),
               magic + id' + Le(i', 4) + Le(total', 4), Le(|p'|, 8));
    SplitEqual(magic + id + Le(i, 4), Le(total, 4), magic + id' + Le(i', 4), Le(total', 4));
    SplitEqual(magic + id, Le(i, 4), magic + id', Le(i', 4));
    SplitEqual(magic, id, magic, id');
    LeInjective(i, i', 4);
    LeInjective(total, total', 4);
  }

  lemma {:induction false} TableInjective(a: seq<Entry>, b: seq<Entry>, from: nat)
    requires |a| == |b| && Table(a, from) == Table(b, from)
    requires forall k :: 0 <= k < |a| ==> a[k].length < U64_LIMIT && b[k].length < U64_LIMIT
    ensures a == b
    decreases |a|
  {
    hide Le, Octets;
    if |a| > 0 {
      var x, y := a[0], b[0];
      SplitEqual(Le(from, 4) + Le(x.length, 8) + Octets(x.digest), Table(a[1..], from + 1),
                 Le(from, 4) + Le(y.length, 8) + Octets(y.digest), Table(b[1..], from + 1));
      SplitEqual(Le(from, 4) + Le(x.length, 8), Octets(x.digest), Le(from, 4) + Le(y.length, 8), Octets(y.digest));
      SplitEqual(Le(from, 4), Le(x.length, 8), Le(from, 4), Le(y.length, 8));
      Widths();
      LeInjective(x.length, y.length, 8);
      OctetsInjective(x.digest, y.digest);
      TableInjective(a[1..], b[1..], from + 1);
      assert a == [a[0]] + a[1..] && b == [b[0]] + b[1..];
    }
  }

  /** The manifest's bytes determine the packet and the whole ordered fragment table. */
  lemma ManifestBytesInjective(id: PacketId, a: seq<Entry>, id': PacketId, b: seq<Entry>)
    requires |a| <= MAX_FRAGMENTS && |b| <= MAX_FRAGMENTS
    requires forall k :: 0 <= k < |a| ==> a[k].length < U64_LIMIT
    requires forall k :: 0 <= k < |b| ==> b[k].length < U64_LIMIT
    requires ManifestBytes(id, a) == ManifestBytes(id', b)
    ensures id == id' && a == b
  {
    hide Le, Table;
    Widths();
    var magic: seq<U8> := [0x52, 0x50, 0x52, 1];
    SplitEqual(magic + id + Le(|a|, 4), Table(a, 0), magic + id' + Le(|b|, 4), Table(b, 0));
    SplitEqual(magic + id, Le(|a|, 4), magic + id', Le(|b|, 4));
    SplitEqual(magic, id, magic, id');
    LeInjective(|a|, |b|, 4);
    TableInjective(a, b, 0);
  }

  /** The bit for index k inside its byte. */
  function BitMask(k: nat): bv8
    requires k < 8
  {
    if k == 0 then 1 else if k == 1 then 2 else if k == 2 then 4 else if k == 3 then 8
    else if k == 4 then 16 else if k == 5 then 32 else if k == 6 then 64 else 128
  }

  /** The mask is 1 shifted up by k, as the code has it. */
  lemma BitMaskValue(k: nat)
    requires k < 8
    ensures BitMask(k) as nat == Shift(1, k)
  {
    assert Shift(1, 0) == 1 && Shift(1, 1) == 2 && Shift(1, 2) == 4 && Shift(1, 3) == 8;
    assert Shift(1, 4) == 16 && Shift(1, 5) == 32 && Shift(1, 6) == 64 && Shift(1, 7) == 128;
  }

  function BitIn(b: bv8, k: nat): bool
    requires k < 8
  {
    b & BitMask(k) != 0
  }

  lemma SetOneBit(b: bv8, k: nat, j: nat)
    requires k < 8 && j < 8
    ensures BitIn(b | BitMask(k), j) <==> BitIn(b, j) || j == k
  {
    if j == k {} else {}
  }

  /** A fragment accepted for the first time. */
  datatype Accepted = Accepted(index: nat, payload: seq<U8>, expected: Digest)

  function TotalBytes(log: seq<Accepted>): nat {
    if |log| == 0 then 0 else TotalBytes(log[..|log| - 1]) + |log[|log| - 1].payload|
  }

  ghost function Indices(log: seq<Accepted>): set<nat> {
    set a <- log :: a.index
  }

  /** Distinct indices: as many as there are entries. */
  ghost predicate Distinct(log: seq<Accepted>) {
    forall i, j :: 0 <= i < j < |log| ==> log[i].index != log[j].index
  }

  lemma {:induction false} IndicesCount(log: seq<Accepted>)
    requires Distinct(log)
    ensures |Indices(log)| == |log|
    decreases |log|
  {
    if |log| > 0 {
      var front, last := log[..|log| - 1], log[|log| - 1];
      IndicesCount(front);
      assert log == front + [last];
      assert Indices(log) == Indices(front) + {last.index};
      assert last.index !in Indices(front);
    }
  }

  /** Comparison without early exit: or-ing all differences together. */
  method DigestEqual(left: Digest, right: Digest) returns (equal: bool)
    ensures equal <==> left == right
  {
    var diff: bv8 := 0;
    for i := 0 to |left|
      invariant diff == 0 <==> left[..i] == right[..i]
    {
      OrDiff(diff, left[i], right[i]);
      assert left[..i + 1] == left[..i] + [left[i]] && right[..i + 1] == right[..i] + [right[i]];
      diff := diff | (left[i] ^ right[i]);
    }
    assert left[..|left|] == left && right[..|right|] == right;
    equal := diff == 0;
  }

  lemma OrDiff(d: bv8, x: bv8, y: bv8)
    ensures d | (x ^ y) == 0 <==> d == 0 && x == y
  {}

  class Stream {
    const hash: Hash
    const packetId: PacketId
    const totalChunks: nat
    var receivedChunks: nat
    var rejectedChunks: nat
    var verifiedBytes: nat
    const bitmap: array<bv8>
    /** The fragments accepted so far, in order of arrival. */
    ghost var log: seq<Accepted>

    predicate BitIsSet(index: nat)
      requires 8 * bitmap.Length == MAX_FRAGMENTS && index < MAX_FRAGMENTS
      reads bitmap
    {
      BitIn(bitmap[index / 8], index % 8)
    }

    /** What every run keeps: the set bits are the accepted indices, each of them had a matching
        digest, the counters count them. */
    ghost predicate Valid()
      reads this, bitmap
    {
      && ValidTotal(totalChunks) && 8 * bitmap.Length == MAX_FRAGMENTS
      && Distinct(log)
      && (forall i :: 0 <= i < MAX_FRAGMENTS ==> (BitIsSet(i) <==> i in Indices(log)))
      && (forall a <- log ::
            a.index < totalChunks && hash(ChunkBytes(packetId, a.index, totalChunks, a.payload)) == a.expected)
      && receivedChunks == |log|
      && verifiedBytes == TotalBytes(log) % U64_LIMIT
      && rejectedChunks < U32_LIMIT
    }

    constructor (hash: Hash, packetId: PacketId, totalChunks: nat)
      requires ValidTotal(totalChunks)
      ensures Valid() && log == [] && fresh(bitmap)
      ensures receivedChunks == 0 && rejectedChunks == 0 && verifiedBytes == 0
      ensures this.hash == hash && this.packetId == packetId && this.totalChunks == totalChunks
    {
      this.hash, this.packetId, this.totalChunks := hash, packetId, totalChunks;
      receivedChunks, rejectedChunks, verifiedBytes := 0, 0, 0;
      bitmap := new bv8[512](_ => 0);
      log := [];
      new;
      assert forall b: bv8, k: nat :: b == 0 && k < 8 ==> !BitIn(b, k);
    }

    method SetBit(index: nat)
      requires 8 * bitmap.Length == MAX_FRAGMENTS && index < MAX_FRAGMENTS
      modifies bitmap
      ensures forall i :: 0 <= i < MAX_FRAGMENTS ==> (BitIsSet(i) <==> old(BitIsSet(i)) || i == index)
    {
      hide BitIn, BitMask;
      ghost var before := bitmap[..];
      bitmap[index / 8] := bitmap[index / 8] | BitMask(index % 8);
      forall i | 0 <= i < MAX_FRAGMENTS
        ensures BitIsSet(i) <==> BitIn(before[i / 8], i % 8) || i == index
      {
        SetOneBit(before[i / 8], index % 8, i % 8);
      }
    }

    /** Verify and record one fragment. Failures and duplicates leave the record as it was. */
    method Record(index: nat, payload: seq<U8>, expected: Digest) returns (status: Status)
      requires Valid() && index < U32_LIMIT && |payload| < U64_LIMIT
      modifies this`receivedChunks, this`rejectedChunks, this`verifiedBytes, this`log, bitmap
      ensures Valid()
      ensures status == (if index >= totalChunks then ErrRange
                         else if hash(ChunkBytes(packetId, index, totalChunks, payload)) != expected then ErrDigest
                         else if index in Indices(old(log)) then Duplicate else Ok)
      ensures log == (if status == Ok then old(log) + [Accepted(index, payload, expected)] else old(log))
      ensures status != Ok ==> bitmap[..] == old(bitmap[..])
      ensures rejectedChunks == (if status
          == ErrDigest then (old(rejectedChunks) + 1) % U32_LIMIT else old(rejectedChunks))
    {
      hide BitIn, ChunkBytes, Distinct, TotalBytes;
      if index >= totalChunks {
        return ErrRange;
      }
      var actual := hash(ChunkBytes(packetId, index, totalChunks, payload));
      var equal := DigestEqual(actual, expected);
      if !equal {
        rejectedChunks := (rejectedChunks + 1) % U32_LIMIT;
        return ErrDigest;
      }
      if BitIsSet(index) {
        return Duplicate;
      }
      Accept(index, payload, expected);
      status := Ok;
    }

    method Accept(index: nat, payload: seq<U8>, ghost expected: Digest)
      requires Valid() && index < totalChunks && index !in Indices(log)
      requires hash(ChunkBytes(packetId, index, totalChunks, payload)) == expected
      modifies this`receivedChunks, this`verifiedBytes, this`log, bitmap
      ensures Valid() && log == old(log) + [Accepted(index, payload, expected)]
    {
      hide BitIn, ChunkBytes, Distinct, TotalBytes, Indices;
      SetBit(index);
      receivedChunks := receivedChunks + 1;
      verifiedBytes := (verifiedBytes + |payload|) % U64_LIMIT;
      LogGrows(log, Accepted(index, payload, expected));
      log := log + [Accepted(index, payload, expected)];
    }

    /** The first index from `start` on that is not there yet. */
    method NextMissing(start: nat) returns (status: Status, missing: nat)
      requires Valid() && start < U32_LIMIT
      ensures status == ErrRange <==> start > totalChunks
      ensures status == Ok ==> start <= missing < totalChunks && missing !in Indices(log)
      ensures status == Ok ==> forall i :: start <= i < missing ==> i in Indices(log)
      ensures status == Incomplete ==> forall i :: start <= i < totalChunks ==> i in Indices(log)
      ensures status == Ok || status == Incomplete || status == ErrRange
    {
      hide BitIn;
      missing := 0;
      if start > totalChunks {
        return ErrRange, missing;
      }
      var i := start;
      while i < totalChunks
        invariant start <= i <= totalChunks
        invariant forall k :: start <= k < i ==> k in Indices(log)
      {
        if !BitIsSet(i) {
          return Ok, i;
        }
        i := i + 1;
      }
      status := Incomplete;
    }

    /** Complete means that every fragment has been accepted. */
    method Complete() returns (complete: bool)
      requires Valid()
      ensures complete <==> forall i :: 0 <= i < totalChunks ==> i in Indices(log)
    {
      hide BitIn;
      IndicesCount(log);
      AllBelow(Indices(log), totalChunks);
      complete := receivedChunks == totalChunks;
    }
  }

  /** A new stream, for a number of fragments from 1 to 4096. */
  method Open(hash: Hash, packetId: PacketId, totalChunks: nat) returns (status: Status, stream: Stream?)
    ensures status == if 1 <= totalChunks <= 4096 then Ok else ErrRange
    ensures status == Ok <==> stream != null
    ensures status == Ok ==>
      && fresh(stream) && fresh(stream.bitmap) && stream.Valid() && stream.log == []
      && stream.receivedChunks == 0 && stream.rejectedChunks == 0 && stream.verifiedBytes == 0
      && stream.hash == hash && stream.packetId == packetId && stream.totalChunks == totalChunks
  {
    if !ValidTotal(totalChunks) { return ErrRange, null; }
    status := Ok;
    stream := new Stream(hash, packetId, totalChunks);
  }

  lemma LogGrows(log: seq<Accepted>, a: Accepted)
    requires Distinct(log) && a.index !in Indices(log)
    ensures Distinct(log + [a]) && Indices(log + [a]) == Indices(log) + {a.index}
    ensures TotalBytes(log + [a]) == TotalBytes(log) + |a.payload|
  {
    assert (log + [a])[..|log|] == log;
    forall i | 0 <= i < |log|
      ensures log[i].index != a.index
    {
      assert log[i].index in Indices(log);
    }
  }

  /** An arrival that the stream accepts if it does not have that fragment yet. */
  ghost predicate Matches(s: Stream, a: Accepted) {
    a.index < s.totalChunks && s.hash(ChunkBytes(s.packetId, a.index, s.totalChunks, a.payload)) == a.expected
  }

  /** Arrival k is the first matching copy of a fragment not seen before. */
  ghost predicate IsFirst(s: Stream, seen: set<nat>, arrivals: seq<Accepted>, k: nat) {
    && k < |arrivals| && Matches(s, arrivals[k]) && arrivals[k].index !in seen
    && forall j :: 0 <= j < k && Matches(s, arrivals[j]) ==> arrivals[j].index != arrivals[k].index
  }

  /** Those arrivals, in their order. */
  ghost function Firsts(s: Stream, seen: set<nat>, arrivals: seq<Accepted>): seq<Accepted> {
    if |arrivals| == 0 then []
    else
      var n := |arrivals| - 1;
      Firsts(s, seen, arrivals[..n]) + (if IsFirst(s, seen, arrivals, n) then [arrivals[n]] else [])
  }

  /** How many arrivals are in range but fail their digest. */
  ghost function Failures(s: Stream, arrivals: seq<Accepted>): nat {
    if |arrivals| == 0 then 0
    else
      var n := |arrivals| - 1;
      Failures(s, arrivals[..n]) + (if arrivals[n].index < s.totalChunks && !Matches(s, arrivals[n]) then 1 else 0)
  }

  /** A matching copy of fragment i arrived. */
  ghost predicate Arrived(s: Stream, arrivals: seq<Accepted>, i: nat) {
    exists k :: 0 <= k < |arrivals| && Matches(s, arrivals[k]) && arrivals[k].index == i
  }

  lemma ArrivedStep(s: Stream, arrivals: seq<Accepted>, i: nat)
    requires |arrivals| > 0
    ensures var n := |arrivals| - 1;
      && (Arrived(s, arrivals, i) <==>
            Arrived(s, arrivals[..n], i) || (Matches(s, arrivals[n]) && arrivals[n].index == i))
      && (IsFirst(s, {}, arrivals, n) <==> Matches(s, arrivals[n]) && !Arrived(s, arrivals[..n], arrivals[n].index))
  {
    hide Matches;
    var n := |arrivals| - 1;
    var front := arrivals[..n];
    forall k | 0 <= k < n ensures front[k] == arrivals[k] {
    }
    if Arrived(s, front, i) {
      var k :| 0 <= k < |front| && Matches(s, front[k]) && front[k].index == i;
      assert arrivals[k] == front[k];
    }
  }

  /** An index is among the first arrivals just when a matching copy arrived and it was not seen before. */
  lemma {:induction false} FirstIndices(s: Stream, seen: set<nat>, arrivals: seq<Accepted>, i: nat)
    ensures i in Indices(Firsts(s, seen, arrivals)) <==> i !in seen && Arrived(s, arrivals, i)
    decreases |arrivals|
  {
    hide Matches, Arrived;
    if |arrivals| > 0 {
      var n := |arrivals| - 1;
      FirstIndices(s, seen, arrivals[..n], i);
      ArrivedStep(s, arrivals, i);
      LogIndices(Firsts(s, seen, arrivals[..n]), arrivals[n]);
      assert IsFirst(s, seen, arrivals, n) <==> arrivals[n].index !in seen && IsFirst(s, {}, arrivals, n);
      hide IsFirst;
    } else {
      NoneArrived(s, arrivals, i);
    }
  }

  lemma NoneArrived(s: Stream, arrivals: seq<Accepted>, i: nat)
    requires |arrivals| == 0
    ensures !Arrived(s, arrivals, i)
  {}

  lemma LogIndices(log: seq<Accepted>, a: Accepted)
    ensures Indices(log + [a]) == Indices(log) + {a.index} && Indices(log + []) == Indices(log)
    ensures TotalBytes(log + [a]) == TotalBytes(log) + |a.payload|
  {
    assert (log + [a])[..|log|] == log && log + [] == log;
    assert a in log + [a];
  }

  lemma {:induction false} TotalOfBoth(a: seq<Accepted>, b: seq<Accepted>)
    ensures TotalBytes(a + b) == TotalBytes(a) + TotalBytes(b)
    decreases |b|
  {
    if |b| == 0 {
      assert a + b == a;
    } else {
      assert (a + b)[..|a + b| - 1] == a + b[..|b| - 1];
      TotalOfBoth(a, b[..|b| - 1]);
    }
  }

  /** One more arrival. */
  lemma OneMore(s: Stream, start: seq<Accepted>, log: seq<Accepted>, arrivals: seq<Accepted>, n: nat)
    requires n < |arrivals| && log == start + Firsts(s, Indices(start), arrivals[..n])
    ensures var a := arrivals[n];
      (if Matches(s, a) && a.index !in Indices(log) then log + [a] else log)
      == start + Firsts(s, Indices(start), arrivals[..n + 1])
  {
    hide Matches, Arrived;
    var seen, upTo, a := Indices(start), arrivals[..n + 1], arrivals[n];
    var firsts := Firsts(s, seen, arrivals[..n]);
    assert upTo[..n] == arrivals[..n] && upTo[n] == a;
    FirstIndices(s, seen, arrivals[..n], a.index);
    ArrivedStep(s, upTo, a.index);
    assert a.index in Indices(log) <==> a.index in seen || a.index in Indices(firsts);
    assert IsFirst(s, seen, upTo, n) <==> a.index !in seen && IsFirst(s, {}, upTo, n);
    hide IsFirst;
    assert start + (firsts + [a]) == log + [a] && start + (firsts + []) == log;
  }

  /** A whole run: whatever arrives, in whatever order and however often, the log afterwards is the log
      before and the first matching copy of every fragment that was not there, in order of arrival.
      The verified bytes are theirs; the failures are counted. */
  method RecordAll(s: Stream, arrivals: seq<Accepted>)
    requires s.Valid()
    requires forall k :: 0 <= k < |arrivals| ==> arrivals[k].index < U32_LIMIT && |arrivals[k].payload| < U64_LIMIT
    modifies s`receivedChunks, s`rejectedChunks, s`verifiedBytes, s`log, s.bitmap
    ensures s.Valid()
    ensures s.log == old(s.log) + Firsts(s, Indices(old(s.log)), arrivals)
    ensures s.verifiedBytes
      == (TotalBytes(old(s.log)) + TotalBytes(Firsts(s, Indices(old(s.log)), arrivals))) % U64_LIMIT
    ensures s.rejectedChunks == (old(s.rejectedChunks) + Failures(s, arrivals)) % U32_LIMIT
    ensures forall i :: i in Indices(s.log) <==> i in Indices(old(s.log)) || Arrived(s, arrivals, i)
  {
    hide ChunkBytes, Firsts, IsFirst, Matches, Arrived, Stream.Valid;
    NoFirsts(s, Indices(s.log), arrivals);
    BytesVerified(s);
    for n := 0 to |arrivals|
      invariant s.Valid()
      invariant s.log == old(s.log) + Firsts(s, Indices(old(s.log)), arrivals[..n])
      invariant s.rejectedChunks == (old(s.rejectedChunks) + Failures(s, arrivals[..n])) % U32_LIMIT
    {
      RecordNext(s, old(s.log), old(s.rejectedChunks), arrivals, n);
    }
    assert arrivals[..|arrivals|] == arrivals;
    RunIndices(s, old(s.log), s.log, arrivals);
    BytesVerified(s);
  }

  method RecordNext(s: Stream, ghost start: seq<Accepted>, ghost rejected: nat, arrivals: seq<Accepted>, n: nat)
    requires s.Valid() && n < |arrivals| && arrivals[n].index < U32_LIMIT && |arrivals[n].payload| < U64_LIMIT
    requires s.log == start + Firsts(s, Indices(start), arrivals[..n])
    requires s.rejectedChunks == (rejected + Failures(s, arrivals[..n])) % U32_LIMIT
    modifies s`receivedChunks, s`rejectedChunks, s`verifiedBytes, s`log, s.bitmap
    ensures s.Valid()
    ensures s.log == start + Firsts(s, Indices(start), arrivals[..n + 1])
    ensures s.rejectedChunks == (rejected + Failures(s, arrivals[..n + 1])) % U32_LIMIT
  {
    hide ChunkBytes, Firsts, IsFirst, Stream.Valid, Failures, Indices, ValidTotal;
    var a := arrivals[n];
    OneMore(s, start, s.log, arrivals, n);
    OneFailure(s, arrivals, n);
    CountOne(rejected + Failures(s, arrivals[..n]));
    var status := s.Record(a.index, a.payload, a.expected);
    assert Accepted(a.index, a.payload, a.expected) == a;
  }

  lemma OneFailure(s: Stream, arrivals: seq<Accepted>, n: nat)
    requires n < |arrivals|
    ensures Failures(s, arrivals[..n + 1])
      == Failures(s, arrivals[..n]) + (if arrivals[n].index < s.totalChunks && !Matches(s, arrivals[n]) then 1 else 0)
  {
    hide Matches;
    assert arrivals[..n + 1][..n] == arrivals[..n];
  }

  lemma CountOne(c: nat)
    ensures (c % U32_LIMIT + 1) % U32_LIMIT == (c + 1) % U32_LIMIT
  {}

  lemma BytesVerified(s: Stream)
    requires s.Valid()
    ensures s.verifiedBytes == TotalBytes(s.log) % U64_LIMIT && s.rejectedChunks < U32_LIMIT
  {}

  lemma RunIndices(s: Stream, before: seq<Accepted>, log: seq<Accepted>, arrivals: seq<Accepted>)
    requires log == before + Firsts(s, Indices(before), arrivals)
    ensures TotalBytes(log) == TotalBytes(before) + TotalBytes(Firsts(s, Indices(before), arrivals))
    ensures forall i :: i in Indices(log) <==> i in Indices(before) || Arrived(s, arrivals, i)
  {
    hide Firsts, Matches, Arrived;
    var firsts := Firsts(s, Indices(before), arrivals);
    TotalOfBoth(before, firsts);
    forall i
      ensures i in Indices(log) <==> i in Indices(before) || Arrived(s, arrivals, i)
    {
      FirstIndices(s, Indices(before), arrivals, i);
      assert i in Indices(log) <==> i in Indices(before) || i in Indices(firsts);
    }
  }

  lemma NoFirsts(s: Stream, seen: set<nat>, arrivals: seq<Accepted>)
    ensures Firsts(s, seen, arrivals[..0]) == []
  {}

  /** The stream is complete exactly when nothing is missing from index 0 on. */
  method CompleteIsNoneMissing(s: Stream) returns (complete: bool, status: Status, missing: nat)
    requires s.Valid()
    ensures complete <==> status == Incomplete
  {
    complete := s.Complete();
    status, missing := s.NextMissing(0);
  }
}
