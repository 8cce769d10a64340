/** What the loader of ATA files accepts: exactly the bytes of a file in one of the two layouts, with every number
    within its bounds. */
module AtaForms {
  import opened Encoding
  import opened Pieces
  import opened Ata

  // ---- Reading and printing ----

  /** A record is read from a place just when its bytes are there. */
  lemma RecordRead(data: seq<U8>, at: nat, r: Record)
    requires at + RECORD_SIZE <= |data|
    ensures data[at..at + RECORD_SIZE] == RecordBytes(r) <==> RecordAt(data, at) == r
  {
    hide Le, Get64;
    var a := Le(r.k, 8);
    SliceIsSum(data, at, a + Le(r.cycles, 8), Le(r.parity, 8));
    SliceIsSum(data, at, a, Le(r.cycles, 8));
    NumberRead(data, at, r.k);
    NumberRead(data, at + 8, r.cycles);
    NumberRead(data, at + 16, r.parity);
  }

  lemma {:induction false} RecordsRead(data: seq<U8>, at: nat, records: seq<Record>)
    requires at + RECORD_SIZE * |records| <= |data|
    ensures data[at..at + RECORD_SIZE * |records|] == RecordsBytes(records) <==>
      RecordsAt(data, at, |records|) == records
    decreases |records|
  {
    hide RecordAt, RecordBytes;
    if |records| > 0 {
      var n := |records| - 1;
      RecordsRead(data, at, records[..n]);
      RecordRead(data, at + RECORD_SIZE * n, records[n]);
      SliceIsSum(data, at, RecordsBytes(records[..n]), RecordBytes(records[n]));
      var all := RecordsAt(data, at, n + 1);
      assert all[..n] == RecordsAt(data, at, n);
      assert all == all[..n] + [all[n]] && records == records[..n] + [records[n]];
    }
  }

  lemma HeaderRead(data: seq<U8>, count: Word32, hwSig: Word64)
    requires HEADER_SIZE <= |data|
    ensures data[0..HEADER_SIZE] == Header(count, hwSig) <==>
      && data[0..4] == [0x52, 0x46, 0x41, 0] && Get32(data, 4) == 1 && Get32(data, 8) == 24
      && Get32(data, 12) == count && Get32(data, 16) == 0 && Get64(data, 20) == hwSig
  {
    hide Le, Get64, Get32;
    var a := Magic + Le(VERSION, 4);
    var b := a + Le(RECORD_SIZE, 4);
    var c := b + Le(count, 4);
    var d := c + Le(0, 4);
    SliceIsSum(data, 0, d, Le(hwSig, 8));
    SliceIsSum(data, 0, c, Le(0, 4));
    SliceIsSum(data, 0, b, Le(count, 4));
    SliceIsSum(data, 0, a, Le(RECORD_SIZE, 4));
    SliceIsSum(data, 0, Magic, Le(VERSION, 4));
    WordRead(data, 4, VERSION);
    WordRead(data, 8, RECORD_SIZE);
    WordRead(data, 12, count);
    WordRead(data, 16, 0);
    NumberRead(data, 20, hwSig);
  }

  // ---- The current layout ----

  /** Every record under its own number, with a parity from 1 to 9. */
  predicate InOrder(records: seq<Record>) {
    forall i :: 0 <= i < |records| ==> records[i].k == i + 1 && 1 <= records[i].parity <= 9
  }

  lemma CompleteInOrder(data: seq<U8>, count: nat)
    requires count <= 42 && HEADER_SIZE + RECORD_SIZE * count <= |data|
    ensures V1Complete(data, 0, count) <==> InOrder(RecordsAt(data, HEADER_SIZE, count))
  {
    hide RecordAt;
    var records := RecordsAt(data, HEADER_SIZE, count);
    if InOrder(records) {
      forall j | 0 <= j < count
        ensures var r := RecordAt(data, HEADER_SIZE + RECORD_SIZE * j); RecordValid(r) && r.k == j + 1
      {
        assert records[j] == RecordAt(data, HEADER_SIZE + RECORD_SIZE * j);
      }
    }
  }

  /** The data begins with a file in the current layout. */
  ghost predicate BeginsV1(data: seq<U8>, hwSig: Word64, records: seq<Record>) {
    && 1 <= |records| <= 42 && InOrder(records)
    && HEADER_SIZE + RECORD_SIZE * |records| <= |data|
    && data[0..HEADER_SIZE + RECORD_SIZE * |records|] == V1File(hwSig, records)
  }

  lemma BeginsV1Read(data: seq<U8>, hwSig: Word64, records: seq<Record>)
    requires 1 <= |records| <= 42 && HEADER_SIZE + RECORD_SIZE * |records| <= |data|
    ensures BeginsV1(data, hwSig, records) <==>
      && data[0..4] == Magic && AnnouncesV1(data) && Get32(data, 12) == |records| && Get64(data, 20) == hwSig
      && RecordsAt(data, HEADER_SIZE, |records|) == records && V1Complete(data, 0, |records|)
  {
    hide Get64, Get32, RecordsBytes, RecordAt, Header, InOrder, V1Complete;
    SliceIsSum(data, 0, Header(|records|, hwSig), RecordsBytes(records));
    HeaderRead(data, |records|, hwSig);
    RecordsRead(data, HEADER_SIZE, records);
    CompleteInOrder(data, |records|);
  }

  /** A file is loaded in the current layout just when the data begins with such a file of no more records
      than there is room for; what follows does not matter. */
  lemma V1Forms(data: seq<U8>, broken: bool, cap: int, hwSig: Word64, cycles: seq<Word64>)
    ensures Load(data, broken, cap) == Loaded(V1, hwSig, cycles) <==>
      exists records :: BeginsV1(data, hwSig, records) && |records| <= cap && cycles == Cycles(records)
  {
    hide Get64, Get32, RecordAt, LoadV1, LoadLegacy, V1Complete, BeginsV1, RecordValid, AnnouncesV1;
    if Load(data, broken, cap) == Loaded(V1, hwSig, cycles) {
      V1Loads(data, broken, cap, hwSig, cycles);
    }
    if records :| BeginsV1(data, hwSig, records) && |records| <= cap && cycles == Cycles(records) {
      BeginsShape(data, hwSig, records);
      BeginsV1Read(data, hwSig, records);
      LoadV1Accepts(data, 0, |records|, []);
      assert [] + Cycles(records)[0..] == Cycles(records);
      assert data[..4] == data[0..4];
    }
  }

  lemma BeginsShape(data: seq<U8>, hwSig: Word64, records: seq<Record>)
    requires BeginsV1(data, hwSig, records)
    ensures 1 <= |records| <= 42 && HEADER_SIZE + RECORD_SIZE * |records| <= |data|
  {
    hide InOrder, V1File;
  }

  lemma V1Loads(data: seq<U8>, broken: bool, cap: int, hwSig: Word64, cycles: seq<Word64>)
    requires Load(data, broken, cap) == Loaded(V1, hwSig, cycles)
    ensures exists records :: BeginsV1(data, hwSig, records) && |records| <= cap && cycles == Cycles(records)
  {
    hide Get64, RecordAt, LoadV1, LoadLegacy, V1Complete, BeginsV1, RecordValid;
    NotLegacy(data, broken, cap);
    var count := Get32(data, 12);
    LoadV1Accepts(data, 0, count, []);
    CompleteShape(data, count);
    var records := RecordsAt(data, HEADER_SIZE, count);
    assert [] + Cycles(records)[0..] == Cycles(records);
    assert data[0..4] == data[..4];
    BeginsV1Read(data, hwSig, records);
  }

  lemma CompleteShape(data: seq<U8>, count: nat)
    requires V1Complete(data, 0, count)
    ensures HEADER_SIZE + RECORD_SIZE * count <= |data|
  {}

  /** What is loaded as a current file was announced as one. */
  lemma NotLegacy(data: seq<U8>, broken: bool, cap: int)
    ensures var l := Load(data, broken, cap); l.Loaded? && l.format == V1 ==>
      && cap > 0 && |data| >= HEADER_SIZE && data[..4] == Magic && AnnouncesV1(data) && Get32(data, 12) <= cap
  {
    hide Get64, Get32, RecordAt, LoadV1, RecordValid;
    if cap > 0 && |data| >= 36 && !AnnouncesV1(data) {
      LoadLegacyCount(data, broken, 1, cap, [RecordAt(data, 12).cycles]);
    }
  }

  // ---- The older layout ----

  predicate InBounds(records: seq<Record>) {
    forall i :: 0 <= i < |records| ==> 1 <= records[i].k <= 42 && 1 <= records[i].parity <= 9
  }

  /** Where the loop over the older layout may stop: there is no room for more, or the bytes end. */
  predicate Ends(data: seq<U8>, broken: bool, n: nat, cap: nat) {
    n == cap || (|data| == LEGACY_HEADER_SIZE + RECORD_SIZE * n && !broken)
  }

  ghost predicate ValidFrom(data: seq<U8>, i: nat, n: nat)
    requires LEGACY_HEADER_SIZE + RECORD_SIZE * n <= |data|
  {
    forall j :: i <= j < n ==> RecordValid(RecordAt(data, LEGACY_HEADER_SIZE + RECORD_SIZE * j))
  }

  /** The loop from record i on, told at once. */
  lemma {:induction false} LegacyLoop(data: seq<U8>, broken: bool, i: nat, cap: nat, before: seq<Word64>,
                                      hwSig: Word64, cycles: seq<Word64>)
    requires i <= cap && LEGACY_HEADER_SIZE + RECORD_SIZE * i <= |data| && |before| == i
    ensures LoadLegacy(data, broken, i, cap, before) == Loaded(Legacy, hwSig, cycles) <==>
      var n := |cycles|;
      && i <= n <= cap && LEGACY_HEADER_SIZE + RECORD_SIZE * n <= |data|
      && hwSig == Get64(data, 4) && ValidFrom(data, i, n) && Ends(data, broken, n, cap)
      && cycles == before + Cycles(RecordsAt(data, LEGACY_HEADER_SIZE, n))[i..]
    decreases cap - i
  {
    hide Get64, RecordAt, RecordValid;
    var n := |cycles|;
    if i < cap && LEGACY_HEADER_SIZE + RECORD_SIZE * (i + 1) <= |data| {
      var r := RecordAt(data, LEGACY_HEADER_SIZE + RECORD_SIZE * i);
      LegacyLoop(data, broken, i + 1, cap, before + [r.cycles], hwSig, cycles);
      if i < n && LEGACY_HEADER_SIZE + RECORD_SIZE * n <= |data| {
        var all := Cycles(RecordsAt(data, LEGACY_HEADER_SIZE, n));
        assert before + [r.cycles] + all[i + 1..] == before + all[i..];
      }
    }
  }

  /** The data begins with a file in the older layout, and does not look like a current one. */
  ghost predicate BeginsLegacy(data: seq<U8>, hwSig: Word64, records: seq<Record>) {
    && 1 <= |records| && InBounds(records) && hwSig != LOOKALIKE
    && LEGACY_HEADER_SIZE + RECORD_SIZE * |records| <= |data|
    && data[0..LEGACY_HEADER_SIZE + RECORD_SIZE * |records|] == LegacyFile(hwSig, records)
  }

  lemma InBoundsRead(data: seq<U8>, n: nat)
    requires LEGACY_HEADER_SIZE + RECORD_SIZE * n <= |data|
    ensures ValidFrom(data, 0, n) <==> InBounds(RecordsAt(data, LEGACY_HEADER_SIZE, n))
  {
    hide RecordAt;
    var records := RecordsAt(data, LEGACY_HEADER_SIZE, n);
    if InBounds(records) {
      forall j | 0 <= j < n ensures RecordValid(RecordAt(data, LEGACY_HEADER_SIZE + RECORD_SIZE * j)) {
        assert records[j] == RecordAt(data, LEGACY_HEADER_SIZE + RECORD_SIZE * j);
      }
    }
  }

  lemma BeginsLegacyRead(data: seq<U8>, hwSig: Word64, records: seq<Record>)
    requires 1 <= |records| && LEGACY_HEADER_SIZE + RECORD_SIZE * |records| <= |data|
    ensures BeginsLegacy(data, hwSig, records) <==>
      && data[0..4] == Magic && Get64(data, 4) == hwSig && !AnnouncesV1(data)
      && RecordsAt(data, LEGACY_HEADER_SIZE, |records|) == records && ValidFrom(data, 0, |records|)
  {
    hide Get64, Get32, RecordsBytes, InBounds, ValidFrom, Le, AnnouncesV1;
    SliceIsSum(data, 0, Magic + Le(hwSig, 8), RecordsBytes(records));
    SliceIsSum(data, 0, Magic, Le(hwSig, 8));
    NumberRead(data, 4, hwSig);
    RecordsRead(data, LEGACY_HEADER_SIZE, records);
    InBoundsRead(data, |records|);
    Lookalike(data);
    FirstNumber(data, |records|);
  }

  lemma FirstNumber(data: seq<U8>, n: nat)
    requires n > 0 && LEGACY_HEADER_SIZE + RECORD_SIZE * n <= |data|
    ensures ValidFrom(data, 0, n) ==> 1 <= Get64(data, 12) <= RECORD_COUNT
  {
    hide Get64;
    if ValidFrom(data, 0, n) { assert RecordValid(RecordAt(data, LEGACY_HEADER_SIZE + RECORD_SIZE * 0)); }
  }

  /** The probe takes the first record, the loop the others. */
  lemma ProbeThenLoop(data: seq<U8>, n: nat)
    requires n > 0 && LEGACY_HEADER_SIZE + RECORD_SIZE * n <= |data|
    ensures ValidFrom(data, 0, n) <==> RecordValid(RecordAt(data, 12)) && ValidFrom(data, 1, n)
    ensures [RecordAt(data, 12).cycles] + Cycles(RecordsAt(data, LEGACY_HEADER_SIZE, n))[1..]
         == Cycles(RecordsAt(data, LEGACY_HEADER_SIZE, n))
  {
    hide RecordAt, RecordValid;
    assert LEGACY_HEADER_SIZE + RECORD_SIZE * 0 == 12;
    if RecordValid(RecordAt(data, 12)) && ValidFrom(data, 1, n) {
      forall j | 0 <= j < n ensures RecordValid(RecordAt(data, LEGACY_HEADER_SIZE + RECORD_SIZE * j)) {}
    }
    var all := Cycles(RecordsAt(data, LEGACY_HEADER_SIZE, n));
    assert all[0] == RecordAt(data, LEGACY_HEADER_SIZE + RECORD_SIZE * 0).cycles;
  }

  /** These are the records that are loaded, as many as there is room for or as there are. */
  ghost predicate LoadsAs(data: seq<U8>, broken: bool, cap: nat, hwSig: Word64, records: seq<Record>,
                          cycles: seq<Word64>)
  {
    BeginsLegacy(data, hwSig, records) && |records| <= cap && cycles == Cycles(records)
    && Ends(data, broken, |records|, cap)
  }

  /** A file is loaded in the older layout just when the data begins with such a file whose signature is not the
      lookalike, and there is no room for more records or the bytes end with the last one. */
  lemma LegacyForms(data: seq<U8>, broken: bool, cap: int, hwSig: Word64, cycles: seq<Word64>)
    ensures Load(data, broken, cap) == Loaded(Legacy, hwSig, cycles) <==>
      cap > 0 && exists records :: LoadsAs(data, broken, cap, hwSig, records, cycles)
  {
    hide Get64, Get32, RecordAt, LoadV1, LoadLegacy, BeginsLegacy, RecordValid, AnnouncesV1, ValidFrom, Ends;
    if Load(data, broken, cap) == Loaded(Legacy, hwSig, cycles) {
      LegacyLoads(data, broken, cap, hwSig, cycles);
    }
    if cap > 0 {
      if records :| LoadsAs(data, broken, cap, hwSig, records, cycles) {
        LegacyShape(data, hwSig, records);
        BeginsLegacyRead(data, hwSig, records);
        ProbeThenLoop(data, |records|);
        LegacyLoop(data, broken, 1, cap, [RecordAt(data, 12).cycles], hwSig, cycles);
        assert data[..4] == data[0..4];
      }
    }
  }

  lemma LegacyShape(data: seq<U8>, hwSig: Word64, records: seq<Record>)
    requires BeginsLegacy(data, hwSig, records)
    ensures 1 <= |records| && LEGACY_HEADER_SIZE + RECORD_SIZE * |records| <= |data|
  {
    hide InBounds, LegacyFile;
  }

  lemma LegacyLoads(data: seq<U8>, broken: bool, cap: int, hwSig: Word64, cycles: seq<Word64>)
    requires Load(data, broken, cap) == Loaded(Legacy, hwSig, cycles)
    ensures cap > 0
    ensures exists records :: LoadsAs(data, broken, cap, hwSig, records, cycles)
  {
    hide Get64, RecordAt, LoadLegacy, BeginsLegacy, RecordValid, ValidFrom, Ends;
    NotCurrent(data, broken, cap);
    LegacyLoop(data, broken, 1, cap, [RecordAt(data, 12).cycles], hwSig, cycles);
    var n := |cycles|;
    ProbeThenLoop(data, n);
    var records := RecordsAt(data, LEGACY_HEADER_SIZE, n);
    assert data[0..4] == data[..4];
    BeginsLegacyRead(data, hwSig, records);
    assert LoadsAs(data, broken, cap, hwSig, records, cycles);
  }

  /** What is loaded as an older file was not announced as a current one. */
  lemma NotCurrent(data: seq<U8>, broken: bool, cap: int)
    ensures var l := Load(data, broken, cap); l.Loaded? && l.format == Legacy ==>
      && cap > 0 && |data| >= 36 && data[..4] == Magic && !AnnouncesV1(data) && RecordValid(RecordAt(data, 12))
  {
    hide Get64, Get32, RecordAt, LoadLegacy, RecordValid;
    if cap > 0 && |data| >= HEADER_SIZE && AnnouncesV1(data) {
      LoadV1IsV1(data, 0, Get32(data, 12), []);
    }
  }
}
