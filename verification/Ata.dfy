/** The ATA file: a small log of cycle counts, in a current layout with a header and in the older
    layout without one. One reader takes the bytes from a descriptor whose reads may come up short,
    the other decodes a whole file at once. */
module Ata {
  import opened Encoding
  import opened Pieces

  const RECORD_SIZE: nat := 24
  const RECORD_COUNT: nat := 42
  const VERSION: nat := 1
  const HEADER_SIZE: nat := 28
  const LEGACY_HEADER_SIZE: nat := 12

  datatype Record = Record(k: Word64, cycles: Word64, parity: Word64)

  datatype Format = Legacy | V1

  // ---- Bytes ----

  const Magic: seq<U8> := [0x52, 0x46, 0x41, 0]

  function RecordBytes(r: Record): (bytes: seq<U8>)
    ensures |bytes| == RECORD_SIZE
  {
    Le(r.k, 8) + Le(r.cycles, 8) + Le(r.parity, 8)
  }

  function RecordsBytes(records: seq<Record>): (bytes: seq<U8>)
    ensures |bytes| == RECORD_SIZE * |records|
  {
    if |records| == 0 then []
    else RecordsBytes(records[..|records| - 1]) + RecordBytes(records[|records| - 1])
  }

  function Header(count: Word32, hwSig: Word64): (bytes: seq<U8>)
    ensures |bytes| == HEADER_SIZE
  {
    Magic + Le(VERSION, 4) + Le(RECORD_SIZE, 4) + Le(count, 4) + Le(0, 4) + Le(hwSig, 8)
  }

  function V1File(hwSig: Word64, records: seq<Record>): seq<U8>
    requires |records| <= RECORD_COUNT
  {
    Header(|records|, hwSig) + RecordsBytes(records)
  }

  function LegacyFile(hwSig: Word64, records: seq<Record>): seq<U8> {
    Magic + Le(hwSig, 8) + RecordsBytes(records)
  }

  function RecordAt(data: seq<U8>, at: nat): Record
    requires at + RECORD_SIZE <= |data|
  {
    Record(Get64(data, at), Get64(data, at + 8), Get64(data, at + 16))
  }

  predicate RecordValid(r: Record) {
    1 <= r.k <= RECORD_COUNT && 1 <= r.parity <= 9
  }

  // ---- The loader as a function of the bytes ----

  datatype Loaded = Loaded(format: Format, hwSig: Word64, cycles: seq<Word64>) | Failed(code: int)

  /** Whether the twenty bytes after the magic announce the current layout. */
  predicate AnnouncesV1(data: seq<U8>)
    requires HEADER_SIZE <= |data|
  {
    && Get32(data, 4) == VERSION && Get32(data, 8) == RECORD_SIZE
    && 1 <= Get32(data, 12) <= RECORD_COUNT && Get32(data, 16) == 0
  }

  /** What the records from number `i` on yield in the current layout: `count` of them, numbered in
      order. */
  function LoadV1(data: seq<U8>, i: nat, count: nat, cycles: seq<Word64>): Loaded
    requires HEADER_SIZE + RECORD_SIZE * i <= |data|
    decreases count - i
  {
    var at := HEADER_SIZE + RECORD_SIZE * i;
    if i >= count then Loaded(V1, Get64(data, 20), cycles)
    else if at + RECORD_SIZE > |data| then Failed(-6)
    else
      var r := RecordAt(data, at);
      if !RecordValid(r) || r.k != i + 1 then Failed(-7)
      else LoadV1(data, i + 1, count, cycles + [r.cycles])
  }

  /** The same in the older layout: up to `cap` of them, as many as there are. `broken` says that the
      descriptor reports an error where the bytes end, instead of an end of file. */
  function LoadLegacy(data: seq<U8>, broken: bool, i: nat, cap: nat, cycles: seq<Word64>): Loaded
    requires LEGACY_HEADER_SIZE + RECORD_SIZE * i <= |data|
    decreases cap - i
  {
    var at := LEGACY_HEADER_SIZE + RECORD_SIZE * i;
    if i >= cap || (at == |data| && !broken) then Loaded(Legacy, Get64(data, 4), cycles)
    else if at + RECORD_SIZE > |data| then Failed(-10)
    else
      var r := RecordAt(data, at);
      if !RecordValid(r) then Failed(-11)
      else LoadLegacy(data, broken, i + 1, cap, cycles + [r.cycles])
  }

  function Load(data: seq<U8>, broken: bool, cap: int): Loaded {
    if cap <= 0 then Failed(-1)
    else if |data| < 4 then Failed(-2)
    else if data[..4] != Magic then Failed(-3)
    else if |data| < HEADER_SIZE then Failed(-4)
    else if AnnouncesV1(data) then
      if Get32(data, 12) > cap then Failed(-5) else LoadV1(data, 0, Get32(data, 12), [])
    else if |data| < 36 then Failed(-8)
    else if !RecordValid(RecordAt(data, 12)) then Failed(-9)
    else LoadLegacy(data, broken, 1, cap, [RecordAt(data, 12).cycles])
  }

  // ---- The other decoder ----

  datatype Decoded = Decoded(format: Format, hwSig: Word64, records: seq<Record>) | Refused

  predicate AllValid(data: seq<U8>, at: nat, count: nat)
    requires at + RECORD_SIZE * count <= |data|
  {
    forall i :: 0 <= i < count ==> RecordValid(RecordAt(data, at + RECORD_SIZE * i))
  }

  function RecordsAt(data: seq<U8>, at: nat, count: nat): (records: seq<Record>)
    requires at + RECORD_SIZE * count <= |data|
    ensures |records| == count
    ensures forall i :: 0 <= i < count ==> records[i] == RecordAt(data, at + RECORD_SIZE * i)
  {
    seq(count, i requires 0 <= i < count => RecordAt(data, at + RECORD_SIZE * i))
  }

  predicate Numbered(records: seq<Record>) {
    forall i :: 0 <= i < |records| ==> records[i].k == i + 1
  }

  function Decode(blob: seq<U8>): Decoded {
    if |blob| < LEGACY_HEADER_SIZE || blob[..4] != Magic then Refused
    else if |blob| >= HEADER_SIZE && AnnouncesV1(blob) then
      var count := Get32(blob, 12);
      if |blob| - HEADER_SIZE != RECORD_SIZE * count || !AllValid(blob, HEADER_SIZE, count) then Refused
      else
        var records := RecordsAt(blob, HEADER_SIZE, count);
        if Numbered(records) then Decoded(V1, Get64(blob, 20), records) else Refused
    else
      var size := |blob| - LEGACY_HEADER_SIZE;
      if size == 0 || size % RECORD_SIZE != 0 || size / RECORD_SIZE > RECORD_COUNT
        || !AllValid(blob, LEGACY_HEADER_SIZE, size / RECORD_SIZE)
      then Refused
      else Decoded(Legacy, Get64(blob, 4), RecordsAt(blob, LEGACY_HEADER_SIZE, size / RECORD_SIZE))
  }

  function Cycles(records: seq<Record>): (cycles: seq<Word64>)
    ensures |cycles| == |records|
    ensures forall i :: 0 <= i < |records| ==> cycles[i] == records[i].cycles
  {
    seq(|records|, i requires 0 <= i < |records| => records[i].cycles)
  }

  // ---- Exactly when the loader accepts ----

  /** The loader's loop over the current layout, told at once: every announced record is there,
      valid, and under its own number. */
  predicate V1Complete(data: seq<U8>, i: nat, count: nat) {
    && HEADER_SIZE + RECORD_SIZE * count <= |data|
    && forall j :: i <= j < count ==>
      var r := RecordAt(data, HEADER_SIZE + RECORD_SIZE * j); RecordValid(r) && r.k == j + 1
  }

  lemma {:induction false} LoadV1Accepts(data: seq<U8>, i: nat, count: nat, cycles: seq<Word64>)
    requires i <= count && HEADER_SIZE + RECORD_SIZE * i <= |data| && |cycles| == i
    ensures LoadV1(data, i, count, cycles).Loaded? <==> V1Complete(data, i, count)
    ensures V1Complete(data, i, count) ==>
      LoadV1(data, i, count, cycles)
      == Loaded(V1, Get64(data, 20), cycles + Cycles(RecordsAt(data, HEADER_SIZE, count))[i..])
    decreases count - i
  {
    hide Get64, RecordAt, RecordValid;
    if i < count && HEADER_SIZE + RECORD_SIZE * (i + 1) <= |data| {
      var r := RecordAt(data, HEADER_SIZE + RECORD_SIZE * i);
      LoadV1Accepts(data, i + 1, count, cycles + [r.cycles]);
      if V1Complete(data, i, count) {
        var all := Cycles(RecordsAt(data, HEADER_SIZE, count));
        assert cycles + [r.cycles] + all[i + 1..] == cycles + all[i..];
      }
    } else if i == count && V1Complete(data, i, count) {
      assert cycles + Cycles(RecordsAt(data, HEADER_SIZE, count))[i..] == cycles;
    }
  }

  function Least(a: nat, b: nat): nat {
    if a <= b then a else b
  }

  /** The loop over the older layout, when the bytes hold `n` whole records and end there: it loads as
      many as there is room for. */
  lemma {:induction false} LoadLegacyAccepts(data: seq<U8>, i: nat, n: nat, cap: nat, cycles: seq<Word64>)
    requires i <= Least(n, cap) && LEGACY_HEADER_SIZE + RECORD_SIZE * n == |data| && |cycles| == i
    ensures LoadLegacy(data, false, i, cap, cycles).Loaded? <==>
      forall j :: i <= j < Least(n, cap) ==> RecordValid(RecordAt(data, LEGACY_HEADER_SIZE + RECORD_SIZE * j))
    ensures LoadLegacy(data, false, i, cap, cycles).Loaded? ==>
      LoadLegacy(data, false, i, cap, cycles)
      == Loaded(Legacy, Get64(data, 4), cycles + Cycles(RecordsAt(data, LEGACY_HEADER_SIZE, n))[i..Least(n, cap)])
    decreases n - i
  {
    hide Get64, RecordAt, RecordValid;
    var all, stop := Cycles(RecordsAt(data, LEGACY_HEADER_SIZE, n)), Least(n, cap);
    if i < stop {
      var r := RecordAt(data, LEGACY_HEADER_SIZE + RECORD_SIZE * i);
      LoadLegacyAccepts(data, i + 1, n, cap, cycles + [r.cycles]);
      assert cycles + [r.cycles] + all[i + 1..stop] == cycles + all[i..stop];
    } else {
      assert cycles + all[i..stop] == cycles;
    }
  }

  lemma {:induction false} LoadLegacyCount(data: seq<U8>, broken: bool, i: nat, cap: nat, cycles: seq<Word64>)
    requires i <= cap && LEGACY_HEADER_SIZE + RECORD_SIZE * i <= |data| && |cycles| == i
    ensures var r := LoadLegacy(data, broken, i, cap, cycles); r.Loaded? ==>
        r.format == Legacy && i <= |r.cycles| <= cap
    decreases cap - i
  {
    hide Get64, RecordAt, RecordValid;
    if i < cap && LEGACY_HEADER_SIZE + RECORD_SIZE * (i + 1) <= |data| {
      LoadLegacyCount(data, broken, i + 1, cap,
        cycles + [RecordAt(data, LEGACY_HEADER_SIZE + RECORD_SIZE * i).cycles]);
    }
  }

  function HeaderSizeOf(format: Format): nat {
    if format == V1 then HEADER_SIZE else LEGACY_HEADER_SIZE
  }

  /** The whole-file decoder accepts just those files that the loader accepts, with room for 42
      records, and that end with the last record loaded. Then both see the same file. */
  lemma DecodersAgree(blob: seq<U8>)
    ensures Decode(blob).Decoded? <==>
      var l := Load(blob, false, RECORD_COUNT);
      l.Loaded? && |blob| == HeaderSizeOf(l.format) + RECORD_SIZE * |l.cycles|
    ensures Decode(blob).Decoded? ==>
      var d := Decode(blob);
      Load(blob, false, RECORD_COUNT) == Loaded(d.format, d.hwSig, Cycles(d.records))
  {
    hide RecordAt, RecordValid, Get32, Get64;
    if |blob| >= HEADER_SIZE && blob[..4] == Magic {
      if AnnouncesV1(blob) {
        AgreeOnV1(blob);
      } else {
        AgreeOnLegacy(blob);
      }
    }
  }

  lemma AgreeOnV1(blob: seq<U8>)
    requires |blob| >= HEADER_SIZE && blob[..4] == Magic && AnnouncesV1(blob)
    ensures var l, d := Load(blob, false, RECORD_COUNT), Decode(blob);
      && (d.Decoded? <==> l.Loaded? && l.format == V1 && |blob| == HEADER_SIZE + RECORD_SIZE * |l.cycles|)
      && (l.Loaded? ==> l.format == V1)
      && (d.Decoded? ==> l == Loaded(d.format, d.hwSig, Cycles(d.records)))
  {
    hide RecordAt, RecordValid, Get32, Get64;
    var count := Get32(blob, 12);
    LoadV1Accepts(blob, 0, count, []);
    if |blob| == HEADER_SIZE + RECORD_SIZE * count {
      var records := RecordsAt(blob, HEADER_SIZE, count);
      assert [] + Cycles(records)[0..] == Cycles(records);
      CompleteIsSound(blob, count);
    }
  }

  /** The probe reads the first record, the loop the others. */
  lemma FirstAndRest(blob: seq<U8>, n: nat)
    requires 0 < n && LEGACY_HEADER_SIZE + RECORD_SIZE * n <= |blob|
    ensures var all, first := Cycles(RecordsAt(blob, LEGACY_HEADER_SIZE, n)), RecordAt(blob, LEGACY_HEADER_SIZE);
      && |all| == n && [first.cycles] + all[1..] == all
      && (AllValid(blob, LEGACY_HEADER_SIZE, n) <==>
          RecordValid(first) && forall j :: 1 <= j < n ==>
            RecordValid(RecordAt(blob, LEGACY_HEADER_SIZE + RECORD_SIZE * j)))
  {
    hide RecordAt, RecordValid;
    var all := Cycles(RecordsAt(blob, LEGACY_HEADER_SIZE, n));
    assert all[0] == RecordAt(blob, LEGACY_HEADER_SIZE).cycles;
  }

  lemma CompleteIsSound(data: seq<U8>, count: nat)
    requires HEADER_SIZE + RECORD_SIZE * count <= |data|
    ensures V1Complete(data, 0, count) <==>
      AllValid(data, HEADER_SIZE, count) && Numbered(RecordsAt(data, HEADER_SIZE, count))
  {
    hide RecordAt, RecordValid;
    var records := RecordsAt(data, HEADER_SIZE, count);
    if AllValid(data, HEADER_SIZE, count) && Numbered(records) {
      forall j | 0 <= j < count ensures RecordAt(data, HEADER_SIZE + RECORD_SIZE * j).k == j + 1 {
        assert records[j].k == j + 1;
      }
    }
  }

  lemma AgreeOnLegacy(blob: seq<U8>)
    requires |blob| >= HEADER_SIZE && blob[..4] == Magic && !AnnouncesV1(blob)
    ensures var l, d := Load(blob, false, RECORD_COUNT), Decode(blob);
      && (d.Decoded? <==> l.Loaded? && l.format == Legacy && |blob| == LEGACY_HEADER_SIZE + RECORD_SIZE * |l.cycles|)
      && (l.Loaded? ==> l.format == Legacy)
      && (d.Decoded? ==> l == Loaded(d.format, d.hwSig, Cycles(d.records)))
  {
    hide RecordAt, RecordValid, Get32, Get64;
    var size := |blob| - LEGACY_HEADER_SIZE;
    var n := size / RECORD_SIZE;
    if |blob| >= 36 {
      var first := RecordAt(blob, 12);
      LoadLegacyCount(blob, false, 1, RECORD_COUNT, [first.cycles]);
      if size == RECORD_SIZE * n && n <= RECORD_COUNT {
        LoadLegacyAccepts(blob, 1, n, RECORD_COUNT, [first.cycles]);
        FirstAndRest(blob, n);
      }
    }
  }

  // ---- Round trips ----

  lemma RecordParts(r: Record)
    ensures RecordBytes(r)[0..8] == Le(r.k, 8) && RecordBytes(r)[8..16] == Le(r.cycles, 8)
    ensures RecordBytes(r)[16..24] == Le(r.parity, 8)
  {
    hide Le;
  }

  lemma RecordBack(data: seq<U8>, at: nat, r: Record)
    requires at + RECORD_SIZE <= |data| && data[at..at + RECORD_SIZE] == RecordBytes(r)
    ensures RecordAt(data, at) == r
  {
    hide Le, Get64, RecordBytes;
    RecordParts(r);
    SliceOfSlice(data, at, at + RECORD_SIZE, 0, 8);
    SliceOfSlice(data, at, at + RECORD_SIZE, 8, 16);
    SliceOfSlice(data, at, at + RECORD_SIZE, 16, 24);
    Get64At(data, at, r.k);
    Get64At(data, at + 8, r.cycles);
    Get64At(data, at + 16, r.parity);
  }

  lemma {:induction false} RecordSlice(records: seq<Record>, i: nat)
    requires i < |records|
    ensures RecordsBytes(records)[RECORD_SIZE * i..RECORD_SIZE * i + RECORD_SIZE] == RecordBytes(records[i])
    decreases |records|
  {
    hide RecordBytes;
    if i < |records| - 1 { RecordSlice(records[..|records| - 1], i); }
  }

  lemma RecordBackAt(data: seq<U8>, at: nat, records: seq<Record>, i: nat)
    requires i < |records| && at + |RecordsBytes(records)| <= |data|
    requires data[at..at + |RecordsBytes(records)|] == RecordsBytes(records)
    ensures RecordAt(data, at + RECORD_SIZE * i) == records[i]
  {
    hide RecordBytes, RecordsBytes, RecordAt;
    var lo, bytes := RECORD_SIZE * i, RecordsBytes(records);
    RecordSlice(records, i);
    SliceOfSlice(data, at, at + |bytes|, lo, lo + RECORD_SIZE);
    RecordBack(data, at + lo, records[i]);
  }

  lemma RecordsBack(data: seq<U8>, at: nat, records: seq<Record>)
    requires at + RECORD_SIZE * |records| <= |data|
    requires data[at..at + RECORD_SIZE * |records|] == RecordsBytes(records)
    ensures RecordsAt(data, at, |records|) == records
    ensures forall i :: 0 <= i < |records| ==> RecordAt(data, at + RECORD_SIZE * i) == records[i]
  {
    hide RecordBytes, RecordsBytes, RecordAt;
    forall i | 0 <= i < |records| ensures RecordAt(data, at + RECORD_SIZE * i) == records[i] {
      RecordBackAt(data, at, records, i);
    }
  }

  lemma HeaderParts(count: Word32, hwSig: Word64)
    ensures var h := Header(count, hwSig);
      && h[..4] == Magic && h[4..8] == Le(VERSION, 4) && h[8..12] == Le(RECORD_SIZE, 4)
      && h[12..16] == Le(count, 4) && h[16..20] == Le(0, 4) && h[20..28] == Le(hwSig, 8)
  {
    hide Le;
    var front := Magic + Le(VERSION, 4) + Le(RECORD_SIZE, 4) + Le(count, 4);
    assert Header(count, hwSig) == front + Le(0, 4) + Le(hwSig, 8);
    assert |front| == 16;
  }

  lemma HeaderBack(data: seq<U8>, count: Word32, hwSig: Word64)
    requires HEADER_SIZE <= |data| && data[..HEADER_SIZE] == Header(count, hwSig)
    ensures data[..4] == Magic && Get32(data, 4) == VERSION && Get32(data, 8) == RECORD_SIZE
    ensures Get32(data, 12) == count && Get32(data, 16) == 0 && Get64(data, 20) == hwSig
  {
    hide Le, Header, Get32, Get64;
    HeaderParts(count, hwSig);
    SliceOfSlice(data, 0, 28, 0, 4);
    SliceOfSlice(data, 0, 28, 4, 8);
    SliceOfSlice(data, 0, 28, 8, 12);
    SliceOfSlice(data, 0, 28, 12, 16);
    SliceOfSlice(data, 0, 28, 16, 20);
    SliceOfSlice(data, 0, 28, 20, 28);
    Get32At(data, 4, VERSION);
    Get32At(data, 8, RECORD_SIZE);
    Get32At(data, 12, count);
    Get32At(data, 16, 0);
    Get64At(data, 20, hwSig);
  }

  predicate Sound(records: seq<Record>) {
    |records| > 0 && forall i :: 0 <= i < |records| ==> RecordValid(records[i])
  }

  /** A file in the current layout loads back exactly, whatever follows it. */
  lemma V1RoundTrip(hwSig: Word64, records: seq<Record>, tail: seq<U8>, broken: bool, cap: int)
    requires Sound(records) && Numbered(records) && |records| <= RECORD_COUNT
    ensures Load(V1File(hwSig, records) + tail, broken, cap)
         == if cap <= 0 then Failed(-1) else if |records| > cap then Failed(-5)
            else Loaded(V1, hwSig, Cycles(records))
  {
    hide Header, RecordsBytes, RecordAt, Get32, Get64;
    var data := V1File(hwSig, records) + tail;
    assert data[..HEADER_SIZE] == Header(|records|, hwSig);
    assert data[HEADER_SIZE..HEADER_SIZE + RECORD_SIZE * |records|] == RecordsBytes(records);
    HeaderBack(data, |records|, hwSig);
    RecordsBack(data, HEADER_SIZE, records);
    LoadV1Accepts(data, 0, |records|, []);
    CompleteIsSound(data, |records|);
    forall i | 0 <= i < |records|
      ensures RecordValid(RecordAt(data, HEADER_SIZE + RECORD_SIZE * i))
    {
      assert RecordAt(data, HEADER_SIZE + RECORD_SIZE * i) == records[i];
    }
    assert AllValid(data, HEADER_SIZE, |records|);
    assert [] + Cycles(records)[0..] == Cycles(records);
  }

  /** The signature that makes an older file look like a current one: version 1, record size 24. */
  const LOOKALIKE: Word64 := 24 * 0x1_0000_0000 + 1

  /** Which layout the loader takes a file of the older layout for. */
  lemma Lookalike(data: seq<U8>)
    requires HEADER_SIZE <= |data|
    ensures AnnouncesV1(data) <==> Get64(data, 4) == LOOKALIKE && 1 <= Get64(data, 12) <= RECORD_COUNT
  {
    hide Get64, Get32;
    Get64Halves(data, 4);
    Get64Halves(data, 12);
  }

  lemma LegacyBack(hwSig: Word64, records: seq<Record>)
    requires |records| > 0
    ensures var data := LegacyFile(hwSig, records);
      && |data| == LEGACY_HEADER_SIZE + RECORD_SIZE * |records|
      && data[..4] == Magic && Get64(data, 4) == hwSig
      && RecordsAt(data, LEGACY_HEADER_SIZE, |records|) == records
      && Get64(data, 12) == records[0].k
  {
    hide RecordsBytes, Le, Get64;
    var data := LegacyFile(hwSig, records);
    assert data[..4] == Magic && data[4..12] == Le(hwSig, 8);
    assert data[12..12 + RECORD_SIZE * |records|] == RecordsBytes(records);
    Get64At(data, 4, hwSig);
    RecordsBack(data, LEGACY_HEADER_SIZE, records);
    assert RecordAt(data, 12 + RECORD_SIZE * 0) == records[0];
  }

  /** A sound file in the older layout loads back, as far as there is room, unless its signature is
      the one that looks like a current header: then it is not even read as an older file. */
  lemma LegacyRoundTrip(hwSig: Word64, records: seq<Record>, cap: nat)
    requires Sound(records) && cap > 0
    ensures Load(LegacyFile(hwSig, records), false, cap)
            == Loaded(Legacy, hwSig, Cycles(records)[..Least(cap, |records|)])
       <==> hwSig != LOOKALIKE
    ensures hwSig == LOOKALIKE ==>
      var l := Load(LegacyFile(hwSig, records), false, cap); l.Loaded? ==> l.format == V1
  {
    hide RecordsBytes, Le, Get64, Get32;
    var data := LegacyFile(hwSig, records);
    var n := |records|;
    LegacyBack(hwSig, records);
    Lookalike(data);
    assert RecordValid(records[0]);
    if AnnouncesV1(data) {
      LoadV1IsV1(data, 0, Get32(data, 12), []);
    } else {
      FirstThenRest(data, n, cap, records);
    }
  }

  lemma {:induction false} LoadV1IsV1(data: seq<U8>, i: nat, count: nat, cycles: seq<Word64>)
    requires HEADER_SIZE + RECORD_SIZE * i <= |data|
    ensures var l := LoadV1(data, i, count, cycles); l.Loaded? ==> l.format == V1
    decreases count - i
  {
    hide RecordAt, RecordValid, Get64;
    if i < count && HEADER_SIZE + RECORD_SIZE * (i + 1) <= |data| {
      LoadV1IsV1(data, i + 1, count, cycles + [RecordAt(data, HEADER_SIZE + RECORD_SIZE * i).cycles]);
    }
  }

  lemma FirstThenRest(data: seq<U8>, n: nat, cap: nat, records: seq<Record>)
    requires 1 <= n && 1 <= cap && LEGACY_HEADER_SIZE + RECORD_SIZE * n == |data|
    requires records == RecordsAt(data, LEGACY_HEADER_SIZE, n) && Sound(records)
    ensures RecordAt(data, 12) == records[0]
    ensures LoadLegacy(data, false, 1, cap, [records[0].cycles])
         == Loaded(Legacy, Get64(data, 4), Cycles(records)[..Least(cap, n)])
  {
    hide RecordAt, RecordValid, Get64;
    assert RecordAt(data, LEGACY_HEADER_SIZE + RECORD_SIZE * 0) == records[0];
    LoadLegacyAccepts(data, 1, n, cap, [records[0].cycles]);
    forall j | 1 <= j < Least(n, cap) ensures RecordValid(RecordAt(data, LEGACY_HEADER_SIZE + RECORD_SIZE * j)) {
      assert RecordValid(records[j]);
    }
    var stop := Least(n, cap);
    assert [records[0].cycles] + Cycles(records)[1..stop] == Cycles(records)[..stop];
  }

  // ---- The loader over a descriptor ----

  /** A descriptor that delivers the bytes of a stream in order. How many a read yields is anyone's
      choice, between one and what was asked for: `cuts` makes it, read by read. Where the bytes end
      it reports the end of the file or, when broken, an error. */
  class Channel {
    const stream: seq<U8>
    const broken: bool
    const cuts: nat -> nat
    var at: nat
    var calls: nat

    constructor (stream: seq<U8>, broken: bool, cuts: nat -> nat)
      ensures this.stream == stream && this.broken == broken && this.cuts == cuts && at == 0
    {
      this.stream, this.broken, this.cuts, at, calls := stream, broken, cuts, 0, 0;
    }

    method Read(buf: array<U8>, from: nat, want: nat) returns (got: int)
      requires at <= |stream| && 0 < want && from + want <= buf.Length
      modifies this, buf
      ensures old(at) == |stream| ==> at == old(at) && got == (if broken then -1 else 0) && buf[..] == old(buf[..])
      ensures old(at) < |stream| ==>
        && 1 <= got <= want && at == old(at) + got <= |stream|
        && (forall j :: from <= j < from + got ==> buf[j] == stream[old(at) + (j - from)])
        && (forall j :: 0 <= j < buf.Length && !(from <= j < from + got) ==> buf[j] == old(buf[j]))
    {
      if at == |stream| { return if broken then -1 else 0; }
      var most := if want < |stream| - at then want else |stream| - at;
      var n := cuts(calls);
      calls := calls + 1;
      n := if n == 0 then 1 else if n > most then most else n;
      for i := 0 to n
        invariant at == old(at)
        invariant forall j :: from <= j < from + i ==> buf[j] == stream[at + (j - from)]
        invariant forall j :: 0 <= j < buf.Length && !(from <= j < from + i) ==> buf[j] == old(buf[j])
      {
        buf[from + i] := stream[at + i];
      }
      at := at + n;
      got := n;
    }

    /** Fills the buffer, asking again after every short read: 1 when it is full, 0 at a clean end
        before any byte, -1 when the bytes end too soon. */
    method ReadExact(buf: array<U8>) returns (status: int)
      requires at <= |stream| && buf.Length > 0
      modifies this, buf
      ensures at <= |stream|
      ensures status ==
        if old(at) + buf.Length <= |stream| then 1
        else if old(at) == |stream| && !broken then 0
        else -1
      ensures status == 1 ==> at == old(at) + buf.Length && buf[..] == stream[old(at)..at]
    {
      var done := 0;
      while done < buf.Length
        invariant 0 <= done <= buf.Length && at == old(at) + done <= |stream|
        invariant forall j :: 0 <= j < done ==> buf[j] == stream[old(at) + j]
      {
        var got := Read(buf, done, buf.Length - done);
        if got < 0 { return -1; }
        if got == 0 { return if done == 0 then 0 else -1; }
        done := done + got;
      }
      assert buf[..] == stream[old(at)..at];
      status := 1;
    }
  }

  lemma RecordIn(data: seq<U8>, at: nat, buf: seq<U8>)
    requires at + RECORD_SIZE <= |data| && buf == data[at..at + RECORD_SIZE]
    ensures RecordAt(buf, 0) == RecordAt(data, at)
  {
    SliceOfSlice(data, at, at + RECORD_SIZE, 0, 8);
    SliceOfSlice(data, at, at + RECORD_SIZE, 8, 16);
    SliceOfSlice(data, at, at + RECORD_SIZE, 16, 24);
  }

  lemma ProbeIn(data: seq<U8>, probe: seq<U8>)
    requires HEADER_SIZE <= |data| && probe == data[4..28]
    ensures Get32(probe, 0) == Get32(data, 4) && Get32(probe, 4) == Get32(data, 8)
    ensures Get32(probe, 8) == Get32(data, 12) && Get32(probe, 12) == Get32(data, 16)
    ensures Get64(probe, 16) == Get64(data, 20) && Get64(probe, 0) == Get64(data, 4)
  {
    hide OfLe;
    SliceOfSlice(data, 4, 28, 0, 4);
    SliceOfSlice(data, 4, 28, 4, 8);
    SliceOfSlice(data, 4, 28, 8, 12);
    SliceOfSlice(data, 4, 28, 12, 16);
    SliceOfSlice(data, 4, 28, 16, 24);
    SliceOfSlice(data, 4, 28, 0, 8);
  }

  /** The outcome of a load as the caller sees it: a negative code, or the number of records, whose
      cycles lead the arena. */
  ghost predicate Reports(outcome: Loaded, status: int, format: Format, hwSig: Word64, arena: seq<Word64>) {
    match outcome
    case Failed(code) => status == code
    case Loaded(f, h, cycles) =>
      status == |cycles| <= |arena| && arena[..status] == cycles && format == f && hwSig == h
  }

  /** The loader. Its outcome is a function of the bytes: how the reads were cut cannot be told. */
  method LoadFd(ch: Channel, arena: array<Word64>, cap: int) returns (status: int, format: Format, hwSig: Word64)
    requires ch.at == 0 && cap <= arena.Length
    modifies ch, arena
    ensures Reports(Load(ch.stream, ch.broken, cap), status, format, hwSig, arena[..])
    ensures forall j :: 0 <= j < arena.Length && cap <= j ==> arena[j] == old(arena[j])
  {
    hide Get32, Get64, RecordAt, RecordValid, LoadV1, LoadLegacy;
    status, format, hwSig := -1, Legacy, 0;
    if cap <= 0 { return; }
    var magic := new U8[4];
    var ok := ch.ReadExact(magic);
    if ok != 1 { status := -2; return; }
    if magic[..] != Magic { status := -3; return; }
    var probe := new U8[24];
    ok := ch.ReadExact(probe);
    if ok != 1 { status := -4; return; }
    ProbeIn(ch.stream, probe[..]);
    if Get32(probe[..], 0) == VERSION && Get32(probe[..], 4) == RECORD_SIZE
      && 1 <= Get32(probe[..], 8) <= RECORD_COUNT && Get32(probe[..], 12) == 0
    {
      var count := Get32(probe[..], 8);
      if count > cap { status := -5; return; }
      hwSig := Get64(probe[..], 16);
      format := V1;
      status := LoadV1Records(ch, arena, count);
    } else {
      hwSig := Get64(probe[..], 0);
      status := LoadLegacyRecords(ch, arena, cap, probe[8..]);
    }
  }

  method LoadV1Records(ch: Channel, arena: array<Word64>, count: nat) returns (status: int)
    requires ch.at == HEADER_SIZE <= |ch.stream| && count <= arena.Length
    modifies ch, arena
    ensures Reports(LoadV1(ch.stream, 0, count, []), status, V1, Get64(ch.stream, 20), arena[..])
    ensures forall j :: count <= j < arena.Length ==> arena[j] == old(arena[j])
  {
    hide Get64, RecordAt, RecordValid;
    var record := new U8[RECORD_SIZE];
    var loaded := 0;
    while loaded < count
      invariant 0 <= loaded <= count
      invariant ch.at == HEADER_SIZE + RECORD_SIZE * loaded <= |ch.stream|
      invariant LoadV1(ch.stream, 0, count, []) == LoadV1(ch.stream, loaded, count, arena[..loaded])
      invariant forall j :: count <= j < arena.Length ==> arena[j] == old(arena[j])
    {
      ghost var at := ch.at;
      var ok := ch.ReadExact(record);
      if ok != 1 { return -6; }
      RecordIn(ch.stream, at, record[..]);
      var r := RecordAt(record[..], 0);
      if !RecordValid(r) || r.k != loaded + 1 { return -7; }
      arena[loaded] := r.cycles;
      assert arena[..loaded + 1] == arena[..loaded] + [r.cycles];
      loaded := loaded + 1;
    }
    status := loaded;
  }

  method LoadLegacyRecords(ch: Channel, arena: array<Word64>, cap: nat, start: seq<U8>) returns (status: int)
    requires ch.at == HEADER_SIZE <= |ch.stream| && 0 < cap <= arena.Length && start == ch.stream[12..28]
    modifies ch, arena
    ensures Reports(
      if |ch.stream| < 36 then Failed(-8)
      else if !RecordValid(RecordAt(ch.stream, 12)) then Failed(-9)
      else LoadLegacy(ch.stream, ch.broken, 1, cap, [RecordAt(ch.stream, 12).cycles]),
      status, Legacy, Get64(ch.stream, 4), arena[..])
    ensures forall j :: cap <= j < arena.Length ==> arena[j] == old(arena[j])
  {
    hide Get64, RecordAt, RecordValid, LoadLegacy;
    var tail := new U8[8];
    var ok := ch.ReadExact(tail);
    if ok != 1 { return -8; }
    assert start + tail[..] == ch.stream[12..36];
    RecordIn(ch.stream, 12, start + tail[..]);
    var r := RecordAt(start + tail[..], 0);
    if !RecordValid(r) { return -9; }
    arena[0] := r.cycles;
    assert arena[..1] == [r.cycles];
    status := LoadLegacyRest(ch, arena, cap);
  }

  method LoadLegacyRest(ch: Channel, arena: array<Word64>, cap: nat) returns (status: int)
    requires ch.at == 36 <= |ch.stream| && 0 < cap <= arena.Length
    modifies ch, arena
    ensures Reports(LoadLegacy(ch.stream, ch.broken, 1, cap, old(arena[..1])), status, Legacy,
                    Get64(ch.stream, 4), arena[..])
    ensures forall j :: cap <= j < arena.Length ==> arena[j] == old(arena[j])
  {
    hide Get64, RecordAt, RecordValid;
    var record := new U8[RECORD_SIZE];
    var loaded := 1;
    while loaded < cap
      invariant 1 <= loaded <= cap
      invariant ch.at == LEGACY_HEADER_SIZE + RECORD_SIZE * loaded <= |ch.stream|
      invariant LoadLegacy(ch.stream, ch.broken, 1, cap, old(arena[..1]))
             == LoadLegacy(ch.stream, ch.broken, loaded, cap, arena[..loaded])
      invariant forall j :: cap <= j < arena.Length ==> arena[j] == old(arena[j])
    {
      ghost var at := ch.at;
      var ok := ch.ReadExact(record);
      if ok == 0 { return loaded; }
      if ok < 0 { return -10; }
      RecordIn(ch.stream, at, record[..]);
      var r := RecordAt(record[..], 0);
      if !RecordValid(r) { return -11; }
      arena[loaded] := r.cycles;
      assert arena[..loaded + 1] == arena[..loaded] + [r.cycles];
      loaded := loaded + 1;
    }
    status := loaded;
  }

  // ---- The loops of the whole-file decoder ----

  /** Decodes `count` records, or refuses the payload. */
  method DecodeRecords(data: seq<U8>, count: nat) returns (valid: bool, records: seq<Record>)
    ensures valid <==> |data| == RECORD_SIZE * count && AllValid(data, 0, count)
    ensures valid ==> records == RecordsAt(data, 0, count)
  {
    hide RecordAt, RecordValid;
    records := [];
    if |data| != RECORD_SIZE * count { return false, []; }
    ghost var all := RecordsAt(data, 0, count);
    AllValidRecords(data, 0, count);
    for index := 0 to count
      invariant records == all[..index]
      invariant forall i :: 0 <= i < index ==> RecordValid(all[i])
    {
      var r := RecordAt(data, RECORD_SIZE * index);
      assert r == all[index] by { assert RecordAt(data, 0 + RECORD_SIZE * index) == all[index]; }
      if !RecordValid(r) { return false, records; }
      records := records + [r];
    }
    valid := true;
  }

  lemma AllValidRecords(data: seq<U8>, at: nat, count: nat)
    requires at + RECORD_SIZE * count <= |data|
    ensures AllValid(data, at, count) <==>
      forall i :: 0 <= i < count ==> RecordValid(RecordsAt(data, at, count)[i])
  {
    hide RecordAt, RecordValid;
    var all := RecordsAt(data, at, count);
    forall i | 0 <= i < count ensures all[i] == RecordAt(data, at + RECORD_SIZE * i) {
    }
    if forall i :: 0 <= i < count ==> RecordValid(all[i]) {
      forall i | 0 <= i < count ensures RecordValid(RecordAt(data, at + RECORD_SIZE * i)) {
        assert RecordValid(all[i]);
      }
    }
  }

  /** Records further on in the file are the records of what is left when the front is dropped. */
  lemma RecordsAfter(data: seq<U8>, at: nat, count: nat)
    requires at + RECORD_SIZE * count == |data|
    ensures RecordsAt(data[at..], 0, count) == RecordsAt(data, at, count)
    ensures AllValid(data[at..], 0, count) <==> AllValid(data, at, count)
  {
    hide RecordAt, RecordValid;
    var rest := data[at..];
    forall i | 0 <= i < count
      ensures RecordsAt(rest, 0, count)[i] == RecordsAt(data, at, count)[i]
    {
      var lo := RECORD_SIZE * i;
      assert rest[lo..lo + RECORD_SIZE] == data[at + lo..at + lo + RECORD_SIZE] by {
        SliceOfSlice(data, at, |data|, lo, lo + RECORD_SIZE);
        assert data[at..|data|] == rest;
      }
      RecordIn(rest, lo, rest[lo..lo + RECORD_SIZE]);
      RecordIn(data, at + lo, rest[lo..lo + RECORD_SIZE]);
    }
    AllValidRecords(rest, 0, count);
    AllValidRecords(data, at, count);
  }

  method DecodeAtaBytes(blob: seq<U8>) returns (decoded: Decoded)
    ensures decoded == Decode(blob)
  {
    hide RecordAt, RecordValid, Get32, Get64, AllValid;
    if |blob| < LEGACY_HEADER_SIZE || blob[..4] != Magic { return Refused; }
    if |blob| >= HEADER_SIZE && AnnouncesV1(blob) {
      decoded := DecodeV1(blob);
      return;
    }
    var payload := blob[LEGACY_HEADER_SIZE..];
    if |payload| == 0 || |payload| % RECORD_SIZE != 0 { return Refused; }
    var count := |payload| / RECORD_SIZE;
    if count > RECORD_COUNT { return Refused; }
    RecordsAfter(blob, LEGACY_HEADER_SIZE, count);
    var valid, records := DecodeRecords(payload, count);
    decoded := if valid then Decoded(Legacy, Get64(blob, 4), records) else Refused;
  }

  method DecodeV1(blob: seq<U8>) returns (decoded: Decoded)
    requires |blob| >= HEADER_SIZE && blob[..4] == Magic && AnnouncesV1(blob)
    ensures decoded == Decode(blob)
  {
    hide RecordAt, RecordValid, Get32, Get64, AllValid;
    var count := Get32(blob, 12);
    if |blob| - HEADER_SIZE == RECORD_SIZE * count { RecordsAfter(blob, HEADER_SIZE, count); }
    var valid, records := DecodeRecords(blob[HEADER_SIZE..], count);
    if !valid { return Refused; }
    for expected := 1 to |records| + 1
      invariant forall i :: 0 <= i < expected - 1 ==> records[i].k == i + 1
    {
      if records[expected - 1].k != expected { return Refused; }
    }
    decoded := Decoded(V1, Get64(blob, 20), records);
  }

  /** The digits of a number in base 20, most significant first. */
  function Value(digits: seq<nat>): nat {
    if |digits| == 0 then 0 else 20 * Value(digits[..|digits| - 1]) + digits[|digits| - 1]
  }

  /** A number in base 20 without leading zeros. */
  method V20(n: nat) returns (digits: seq<nat>)
    ensures Value(digits) == n && |digits| > 0
    ensures forall i :: 0 <= i < |digits| ==> digits[i] < 20
    ensures digits[0] == 0 ==> digits == [0]
  {
    if n == 0 {
      assert [0][..0] == [];
      return [0];
    }
    var out: seq<nat> := [];
    var rest := n;
    while rest > 0
      invariant Joined(rest, out) == n
      invariant forall i :: 0 <= i < |out| ==> out[i] < 20
      invariant rest == 0 ==> |out| > 0 && out[|out| - 1] != 0
    {
      JoinedPush(rest, out);
      out := out + [rest % 20];
      rest := rest / 20;
    }
    digits := Reversed(out);
    JoinedIsValue(out);
  }

  function Reversed(s: seq<nat>): (r: seq<nat>)
    ensures |r| == |s| && forall i :: 0 <= i < |s| ==> r[i] == s[|s| - 1 - i]
  {
    seq(|s|, i requires 0 <= i < |s| => s[|s| - 1 - i])
  }

  /** The number whose low digits, least significant first, are `low` and whose rest is `rest`. */
  function Joined(rest: nat, low: seq<nat>): nat
    decreases |low|
  {
    if |low| == 0 then rest else Joined(20 * rest + low[|low| - 1], low[..|low| - 1])
  }

  lemma JoinedPush(rest: nat, low: seq<nat>)
    ensures Joined(rest / 20, low + [rest % 20]) == Joined(rest, low)
  {
    assert (low + [rest % 20])[..|low|] == low;
  }

  lemma {:induction false} JoinedIsValue(low: seq<nat>)
    ensures Joined(0, low) == Value(Reversed(low))
  {
    JoinedValue([], low);
    assert [] + Reversed(low) == Reversed(low);
  }

  lemma {:induction false} JoinedValue(high: seq<nat>, low: seq<nat>)
    ensures Joined(Value(high), low) == Value(high + Reversed(low))
    decreases |low|
  {
    if |low| == 0 {
      assert high + Reversed(low) == high;
    } else {
      var d, front := low[|low| - 1], low[..|low| - 1];
      assert (high + [d])[..|high|] == high;
      JoinedValue(high + [d], front);
      assert high + Reversed(low) == high + [d] + Reversed(front);
    }
  }
}
