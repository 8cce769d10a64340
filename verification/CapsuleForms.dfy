/** What the reader of capsules accepts: exactly the bytes that spell a verifying prototype. A capsule may
    carry more than the printer puts into it, namely bytes behind the end of the label and descriptors' reserved
    bytes. */
module CapsuleForms {
  import opened Encoding
  import opened Pieces
  import opened Crc32c
  import opened Prototypes
  import opened Capsules

  // ---- The bytes ----

  function RawView(v: View): (bytes: seq<U8>)
    ensures |bytes| == VIEW_SIZE
  {
    [v.viewId, v.flags] + Le(v.reserved, 2) + Le(v.sampleId, 4) + Le(v.sourceCrc, 4)
    + WordBytes(Words(v.descriptor)) + [v.descriptor.otsuThreshold] + v.descriptor.reserved
  }

  function RawViews(views: seq<View>): (bytes: seq<U8>)
    ensures |bytes| == |views| * VIEW_SIZE
  {
    if |views| == 0 then [] else RawViews(views[..|views| - 1]) + RawView(views[|views| - 1])
  }

  function RawSize(p: Prototype, len: nat): nat {
    HEADER_SIZE + len + p.viewCount * VIEW_SIZE + TRAILER_SIZE
  }

  function RawWords(p: Prototype, len: nat): (words: seq<Word32>)
    requires p.viewCount <= MAX_VIEWS && len < MAX_LABEL
    ensures |words| == 7
  {
    [RawSize(p, len), p.classId, p.flags, p.viewCount, p.viewMask, len, p.crc]
  }

  function RawHeader(p: Prototype, len: nat): (bytes: seq<U8>)
    requires p.viewCount <= MAX_VIEWS && len < MAX_LABEL
    ensures |bytes| == HEADER_SIZE
  {
    Le(CAPSULE_MAGIC, 4) + Le(API_VERSION, 2) + Le(HEADER_SIZE, 2) + WordBytes(RawWords(p, len))
  }

  /** Everything before the checksum, with the first `len` bytes of the label's buffer. */
  function RawBody(p: Prototype, len: nat): (bytes: seq<U8>)
    requires p.viewCount <= MAX_VIEWS && len < MAX_LABEL
    ensures |bytes| + TRAILER_SIZE == RawSize(p, len)
  {
    RawHeader(p, len) + p.name[..len] + RawViews(p.views[..p.viewCount])
  }

  function RawCapsule(p: Prototype, len: nat): (bytes: seq<U8>)
    requires p.viewCount <= MAX_VIEWS && len < MAX_LABEL
    ensures |bytes| == RawSize(p, len)
  {
    RawBody(p, len) + Le(Crc(RawBody(p, len)), 4)
  }

  /** The prototype verifies and has nothing but zeros where a capsule with `len` label bytes has nothing. */
  ghost predicate Carried(p: Prototype, len: nat) {
    && VerifyStatus(p) == Ok && p.viewCount <= MAX_VIEWS
    && 1 <= len < MAX_LABEL
    && (forall i :: len <= i < MAX_LABEL ==> p.name[i] == 0)
    && (forall i :: p.viewCount <= i < MAX_VIEWS ==> p.views[i] == ZeroView())
  }

  // ---- Reading and printing words ----

  /** Words that were read from a place print as the bytes at that place, and only they do. */
  lemma {:induction false} WordsRead(data: seq<U8>, at: nat, words: seq<Word32>)
    requires at + 4 * |words| <= |data|
    ensures WordBytes(words) == data[at..at + 4 * |words|] <==>
      forall i :: 0 <= i < |words| ==> words[i] == Get32(data, at + 4 * i)
    decreases |words|
  {
    hide Le, Get32;
    if |words| > 0 {
      var n := |words| - 1;
      WordsRead(data, at, words[..n]);
      WordRead(data, at + 4 * n, words[n]);
      SliceIsSum(data, at, WordBytes(words[..n]), Le(words[n], 4));
    }
  }

  lemma ByteRead(data: seq<U8>, at: nat, b: U8)
    requires at < |data|
    ensures data[at..at + 1] == [b] <==> data[at] == b
  {}

  // ---- Reading and printing views ----

  ghost predicate WordsAt(data: seq<U8>, at: nat, words: seq<Word32>)
    requires at + 4 * |words| <= |data|
  {
    forall i :: 0 <= i < |words| ==> words[i] == Get32(data, at + 4 * i)
  }

  lemma DescriptorWords(data: seq<U8>, at: nat, d: Descriptor)
    requires at + 80 <= |data|
    ensures WordsAt(data, at, Words(d)) <==> DescriptorAt(data, at) == d.(
      otsuThreshold := data[at + 76], reserved := data[at + 77..at + 80])
  {
    hide Get32;
    var e, words := DescriptorAt(data, at), Words(d);
    if WordsAt(data, at, words) {
      FirstWords(data, at, words);
      LastWords(data, at, words);
      forall i | 0 <= i < 8 ensures e.angleHist[i] == d.angleHist[i] {
        assert words[6 + i] == Get32(data, at + 4 * (6 + i));
      }
      assert e.angleHist == d.angleHist;
    }
    if e == d.(otsuThreshold := data[at + 76], reserved := data[at + 77..at + 80]) {
      forall i | 0 <= i < 19 ensures words[i] == Get32(data, at + 4 * i) {
        if 6 <= i < 14 {
          assert words[i] == d.angleHist[i - 6] == e.angleHist[i - 6];
        }
      }
    }
  }

  lemma DescriptorRead(data: seq<U8>, at: nat, d: Descriptor)
    requires at + 80 <= |data|
    ensures data[at..at + 80] == WordBytes(Words(d)) + [d.otsuThreshold] + d.reserved <==> DescriptorAt(data, at) == d
  {
    hide WordBytes, Words, DescriptorAt;
    var words := WordBytes(Words(d));
    SliceIsSum(data, at, words + [d.otsuThreshold], d.reserved);
    SliceIsSum(data, at, words, [d.otsuThreshold]);
    ByteRead(data, at + 76, d.otsuThreshold);
    WordsRead(data, at, Words(d));
    DescriptorWords(data, at, d);
    DescriptorTail(data, at);
  }

  lemma DescriptorTail(data: seq<U8>, at: nat)
    requires at + 80 <= |data|
    ensures DescriptorAt(data, at).otsuThreshold == data[at + 76]
    ensures DescriptorAt(data, at).reserved == data[at + 77..at + 80]
  {}

  /** A view is read from a place just when its bytes are there. */
  lemma ViewRead(data: seq<U8>, at: nat, v: View)
    requires at + VIEW_SIZE <= |data|
    ensures data[at..at + VIEW_SIZE] == RawView(v) <==> ViewAt(data, at) == v
  {
    hide WordBytes, Words, DescriptorAt, Le, Get16, Get32;
    var d := WordBytes(Words(v.descriptor)) + [v.descriptor.otsuThreshold] + v.descriptor.reserved;
    var a: seq<U8> := [v.viewId, v.flags];
    var b := a + Le(v.reserved, 2);
    var c := b + Le(v.sampleId, 4);
    var e := c + Le(v.sourceCrc, 4);
    assert RawView(v) == e + d;
    SliceIsSum(data, at, e, d);
    SliceIsSum(data, at, c, Le(v.sourceCrc, 4));
    SliceIsSum(data, at, b, Le(v.sampleId, 4));
    SliceIsSum(data, at, a, Le(v.reserved, 2));
    assert data[at..at + 2] == a <==> data[at] == v.viewId && data[at + 1] == v.flags;
    HalfRead(data, at + 2, v.reserved);
    WordRead(data, at + 4, v.sampleId);
    WordRead(data, at + 8, v.sourceCrc);
    DescriptorRead(data, at + 12, v.descriptor);
  }

  lemma {:induction false} ViewsRead(data: seq<U8>, at: nat, views: seq<View>)
    requires at + |views| * VIEW_SIZE <= |data|
    ensures data[at..at + |views| * VIEW_SIZE] == RawViews(views) <==>
      forall i :: 0 <= i < |views| ==> ViewAt(data, at + i * VIEW_SIZE) == views[i]
    decreases |views|
  {
    hide ViewAt, RawView;
    if |views| > 0 {
      var n := |views| - 1;
      ViewsRead(data, at, views[..n]);
      ViewRead(data, at + n * VIEW_SIZE, views[n]);
      SliceIsSum(data, at, RawViews(views[..n]), RawView(views[n]));
    }
  }

  ghost predicate AllZero(data: seq<U8>) {
    |data| == VIEW_SIZE && forall i :: 0 <= i < |data| ==> data[i] == 0
  }

  /** An empty slot is zero bytes. */
  lemma EmptySlot(data: seq<U8>)
    requires AllZero(data)
    ensures RawView(ZeroView()) == data
  {
    EmptyView(data);
    hide RawView, ViewAt, ZeroView;
    ViewRead(data, 0, ZeroView());
    assert data[0..92] == data;
  }

  lemma EmptyView(data: seq<U8>)
    requires AllZero(data)
    ensures ViewAt(data, 0) == ZeroView()
  {
    EmptyNumbers(data);
    EmptyDescriptor(data);
    hide DescriptorAt, Get32, Get16;
  }

  lemma EmptyNumbers(data: seq<U8>)
    requires AllZero(data)
    ensures data[0] == data[1] == 0 && Get16(data, 2) == 0 && Get32(data, 4) == 0 && Get32(data, 8) == 0
  {
    hide OfLe;
    Zeroes(data, 2, 2);
    Zeroes(data, 4, 4);
    Zeroes(data, 8, 4);
  }

  lemma EmptyDescriptor(data: seq<U8>)
    requires AllZero(data)
    ensures DescriptorAt(data, 12) == ZeroView().descriptor
  {
    var d := ZeroView().descriptor;
    EmptyWords(d);
    forall k | 0 <= k < 19 ensures Get32(data, 12 + 4 * k) == 0 { Zeroes(data, 12 + 4 * k, 4); }
    assert data[89..92] == [0, 0, 0];
    hide Get32, Words, DescriptorAt;
    DescriptorWords(data, 12, d);
  }

  lemma EmptyWords(d: Descriptor)
    requires d == ZeroView().descriptor
    ensures forall k :: 0 <= k < 19 ==> Words(d)[k] == 0
  {}

  lemma {:induction false} Zeroes(data: seq<U8>, at: nat, n: nat)
    requires at + n <= |data| && forall i :: 0 <= i < |data| ==> data[i] == 0
    ensures OfLe(data[at..at + n]) == 0
    decreases n
  {
    if n > 0 {
      Zeroes(data, at + 1, n - 1);
      assert data[at..at + n][1..] == data[at + 1..at + n];
    }
  }

  // ---- Reading and printing whole capsules ----

  lemma HeaderRead(data: seq<U8>, p: Prototype, len: nat)
    requires HEADER_SIZE <= |data| && p.viewCount <= MAX_VIEWS && len < MAX_LABEL
    ensures data[0..HEADER_SIZE] == RawHeader(p, len) <==>
      && Get32(data, 0) == 0x52564331 && Get16(data, 4) == 1 && Get16(data, 6) == 36
      && WordsAt(data, 8, RawWords(p, len))
  {
    hide WordBytes, RawWords, Le, Get16, Get32;
    var words := RawWords(p, len);
    var a := Le(CAPSULE_MAGIC, 4);
    var b := a + Le(API_VERSION, 2);
    var c := b + Le(HEADER_SIZE, 2);
    SliceIsSum(data, 0, c, WordBytes(words));
    SliceIsSum(data, 0, b, Le(HEADER_SIZE, 2));
    SliceIsSum(data, 0, a, Le(API_VERSION, 2));
    WordRead(data, 0, CAPSULE_MAGIC);
    HalfRead(data, 4, API_VERSION);
    HalfRead(data, 6, HEADER_SIZE);
    WordsRead(data, 8, words);
  }

  lemma SevenWords(data: seq<U8>, p: Prototype, len: nat)
    requires HEADER_SIZE <= |data| && p.viewCount <= MAX_VIEWS && len < MAX_LABEL
    ensures WordsAt(data, 8, RawWords(p, len)) <==>
      && Get32(data, 8) == RawSize(p, len) && Get32(data, 12) == p.classId && Get32(data, 16) == p.flags
      && Get32(data, 20) == p.viewCount && Get32(data, 24) == p.viewMask && Get32(data, 28) == len
      && Get32(data, 32) == p.crc
  {
    hide Get32;
    var words := RawWords(p, len);
    if WordsAt(data, 8, words) {
      assert words[0] == Get32(data, 8 + 4 * 0) && words[1] == Get32(data, 8 + 4 * 1);
      assert words[2] == Get32(data, 8 + 4 * 2) && words[3] == Get32(data, 8 + 4 * 3);
      assert words[4] == Get32(data, 8 + 4 * 4) && words[5] == Get32(data, 8 + 4 * 5);
      assert words[6] == Get32(data, 8 + 4 * 6);
    }
  }

  /** The three parts of the body, and the checksum of what stands there. */
  lemma CapsuleRead(data: seq<U8>, p: Prototype, len: nat)
    requires p.viewCount <= MAX_VIEWS && len < MAX_LABEL && RawSize(p, len) <= |data|
    ensures var end := RawSize(p, len);
      data[0..end] == RawCapsule(p, len) <==>
        && data[0..HEADER_SIZE] == RawHeader(p, len)
        && data[HEADER_SIZE..HEADER_SIZE + len] == p.name[..len]
        && (forall i :: 0 <= i < p.viewCount ==> ViewAt(data, HEADER_SIZE + len + i * VIEW_SIZE) == p.views[i])
        && Get32(data, end - 4) == Crc(data[0..end - 4])
  {
    hide RawHeader, RawViews, ViewAt, Crc, Le, Get32;
    var end, body, views := RawSize(p, len), RawBody(p, len), p.views[..p.viewCount];
    CrcRange(body);
    SliceIsSum(data, 0, body, Le(Crc(body), 4));
    SliceIsSum(data, 0, RawHeader(p, len) + p.name[..len], RawViews(views));
    SliceIsSum(data, 0, RawHeader(p, len), p.name[..len]);
    ViewsRead(data, HEADER_SIZE + len, views);
    WordRead(data, end - 4, Crc(body));
  }

  /** What the tests on the header and the checksum let through. */
  lemma FrameRead(data: seq<U8>)
    ensures FrameStatus(data) == Ok <==>
      && HEADER_SIZE + TRAILER_SIZE <= |data|
      && Get32(data, 0) == CAPSULE_MAGIC && Get16(data, 4) == API_VERSION && Get16(data, 6) == HEADER_SIZE
      && 1 <= Get32(data, 20) <= MAX_VIEWS && 1 <= Get32(data, 28) < MAX_LABEL
      && Get32(data, 8) == HEADER_SIZE + Get32(data, 28) + Get32(data, 20) * VIEW_SIZE + TRAILER_SIZE <= |data|
      && Get32(data, Get32(data, 8) - 4) == Crc(data[0..Get32(data, 8) - 4])
  {
    hide Get32, Get16, Crc;
    if HEADER_SIZE + TRAILER_SIZE <= |data| && TRAILER_SIZE <= Get32(data, 8) <= |data| {
      assert data[..Get32(data, 8) - 4] == data[0..Get32(data, 8) - 4];
    }
  }

  /** The prototype that was read, field by field. */
  lemma PrototypeRead(data: seq<U8>, p: Prototype, len: nat)
    requires p.viewCount <= MAX_VIEWS && len < MAX_LABEL && RawSize(p, len) <= |data|
    ensures PrototypeAt(data, len, p.viewCount) == p <==>
      && p.magic == PROTOTYPE_MAGIC && p.version == API_VERSION
      && Get32(data, 12) == p.classId && Get32(data, 16) == p.flags && Get32(data, 24) == p.viewMask
      && Get32(data, 32) == p.crc
      && data[HEADER_SIZE..HEADER_SIZE + len] == p.name[..len]
      && (forall i :: len <= i < MAX_LABEL ==> p.name[i] == 0)
      && (forall i :: 0 <= i < p.viewCount ==> ViewAt(data, HEADER_SIZE + len + i * VIEW_SIZE) == p.views[i])
      && (forall i :: p.viewCount <= i < MAX_VIEWS ==> p.views[i] == ZeroView())
  {
    hide Get32, ViewAt, ViewsAt, ZeroView;
    var name, views := data[HEADER_SIZE..HEADER_SIZE + len] + Repeat(0, MAX_LABEL - len),
                       ViewsAt(data, HEADER_SIZE + len, p.viewCount);
    NameRead(data, p.name, len);
    ViewSlots(data, HEADER_SIZE + len, p.views, p.viewCount);
    hide Repeat;
    assert PrototypeAt(data, len, p.viewCount)
        == Prototype(PROTOTYPE_MAGIC, API_VERSION, Get32(data, 12), Get32(data, 16), p.viewCount, Get32(data, 24),
                     Get32(data, 32), name, views);
  }

  lemma NameRead(data: seq<U8>, name: Label, len: nat)
    requires len < MAX_LABEL && HEADER_SIZE + len <= |data|
    ensures data[HEADER_SIZE..HEADER_SIZE + len] + Repeat(0, MAX_LABEL - len) == name <==>
      data[HEADER_SIZE..HEADER_SIZE + len] == name[..len] && forall i :: len <= i < MAX_LABEL ==> name[i] == 0
  {
    var a, z := data[HEADER_SIZE..HEADER_SIZE + len], Repeat(0 as U8, MAX_LABEL - len);
    if a + z == name {
      assert name[..len] == a;
      assert forall i :: len <= i < MAX_LABEL ==> name[i] == (a + z)[i] == z[i - len];
    }
    if a == name[..len] && forall i :: len <= i < MAX_LABEL ==> name[i] == 0 {
      assert a + z == name;
    }
  }

  lemma ViewSlots(data: seq<U8>, at: nat, views: Views, count: nat)
    requires count <= MAX_VIEWS && at + count * VIEW_SIZE <= |data|
    ensures ViewsAt(data, at, count) == views <==>
      && (forall i :: 0 <= i < count ==> ViewAt(data, at + i * VIEW_SIZE) == views[i])
      && (forall i :: count <= i < MAX_VIEWS ==> views[i] == ZeroView())
  {
    hide ViewAt, ZeroView;
    var there := ViewsAt(data, at, count);
    if (forall i :: 0 <= i < count ==> ViewAt(data, at + i * VIEW_SIZE) == views[i])
      && (forall i :: count <= i < MAX_VIEWS ==> views[i] == ZeroView()) {
      assert there == views;
    }
  }

  /** The data begins with bytes that spell p, and p verifies. */
  ghost predicate Spelled(data: seq<U8>, p: Prototype, len: nat) {
    Carried(p, len) && RawSize(p, len) <= |data| && data[0..RawSize(p, len)] == RawCapsule(p, len)
  }

  lemma SpelledParses(data: seq<U8>, p: Prototype, len: nat)
    requires p.viewCount <= MAX_VIEWS && len < MAX_LABEL && HEADER_SIZE <= |data|
    ensures Spelled(data, p, len) <==>
      && VerifyStatus(p) == Ok && FrameStatus(data) == Ok
      && Get32(data, 28) == len && Get32(data, 20) == p.viewCount
      && PrototypeAt(data, len, p.viewCount) == p
  {
    hide Get32, Get16, Crc, FrameStatus, VerifyStatus, PrototypeAt, RawCapsule, RawHeader, ViewAt, RawWords;
    FrameRead(data);
    if VerifyStatus(p) == Ok {
      VerifiedShape(p);
      if RawSize(p, len) <= |data| {
        HeaderRead(data, p, len);
        SevenWords(data, p, len);
        CapsuleRead(data, p, len);
        PrototypeRead(data, p, len);
      }
    }
  }

  lemma VerifiedClass(p: Prototype)
    requires VerifyStatus(p) == Ok
    ensures p.classId == ClassId(p.name)
  {
    hide Crc;
    StructureSound(p);
  }

  /** A prototype is read just when the data begins with bytes that spell it and it verifies; just those bytes
      are consumed. */
  lemma ParseForms(data: seq<U8>, p: Prototype, n: nat)
    ensures Parse(data) == Accepted(p, n) <==>
      exists len: nat :: Spelled(data, p, len) && n == RawSize(p, len)
  {
    hide FrameStatus, VerifyStatus, PrototypeAt, ClassId, Spelled, Get32;
    FrameShape(data);
    if Parse(data) == Accepted(p, n) {
      var len := Get32(data, 28);
      SpelledParses(data, p, len);
      assert Spelled(data, p, len) && n == RawSize(p, len);
    }
    if len: nat :| Spelled(data, p, len) && n == RawSize(p, len) {
      SpelledShape(data, p, len);
      SpelledParses(data, p, len);
      VerifiedClass(p);
    }
  }

  lemma FrameShape(data: seq<U8>)
    ensures FrameStatus(data) == Ok ==>
      && HEADER_SIZE + TRAILER_SIZE <= |data| && Get32(data, 28) < MAX_LABEL && Get32(data, 20) <= MAX_VIEWS
      && HEADER_SIZE + Get32(data, 28) + Get32(data, 20) * VIEW_SIZE + TRAILER_SIZE == Get32(data, 8) <= |data|
      && PrototypeAt(data, Get32(data, 28), Get32(data, 20)).viewCount == Get32(data, 20)
  {
    hide Get32;
  }

  lemma SpelledShape(data: seq<U8>, p: Prototype, len: nat)
    requires Spelled(data, p, len)
    ensures p.viewCount <= MAX_VIEWS && len < MAX_LABEL && HEADER_SIZE <= |data| && VerifyStatus(p) == Ok
  {}

  // ---- The printer's capsules among these ----

  /** The seal covers what the printer prints of a view, up to the three reserved bytes at its end. */
  lemma SealedView(v: View)
    ensures ViewText(v) == ViewBytes(v)[..89]
  {
    hide WordBytes, Words, Le;
  }

  lemma PrintedView(v: View)
    ensures RawView(v) == ViewBytes(v) <==> v.descriptor.reserved == [0, 0, 0]
  {
    hide WordBytes, Words, Le;
    var a := [v.viewId, v.flags] + Le(v.reserved, 2) + Le(v.sampleId, 4) + Le(v.sourceCrc, 4)
             + WordBytes(Words(v.descriptor)) + [v.descriptor.otsuThreshold];
    assert RawView(v) == a + v.descriptor.reserved && ViewBytes(v) == a + [0, 0, 0];
    assert RawView(v)[89..] == v.descriptor.reserved && ViewBytes(v)[89..] == [0, 0, 0];
  }

  lemma {:induction false} PrintedViews(views: seq<View>)
    ensures RawViews(views) == ViewsBytes(views) <==>
      forall i :: 0 <= i < |views| ==> views[i].descriptor.reserved == [0, 0, 0]
  {
    hide RawView, ViewBytes;
    if |views| > 0 {
      var n := |views| - 1;
      PrintedViews(views[..n]);
      PrintedView(views[n]);
      SameEnds(RawViews(views[..n]), ViewsBytes(views[..n]), RawView(views[n]), ViewBytes(views[n]));
    }
  }

  lemma SameEnds<T>(a: seq<T>, b: seq<T>, x: seq<T>, y: seq<T>)
    requires |a| == |b|
    ensures a + x == b + y <==> a == b && x == y
  {
    assert (a + x)[..|a|] == a && (a + x)[|a|..] == x && (b + y)[..|b|] == b && (b + y)[|b|..] == y;
  }

  /** What is accepted is a printed capsule just when the label has no terminator inside and the reserved bytes
      are zero. */
  lemma PrintedForm(p: Prototype, len: nat)
    requires Carried(p, len)
    ensures RawCapsule(p, len) == Capsule(p) <==>
      len == |Text(p)| && forall i :: 0 <= i < p.viewCount ==> p.views[i].descriptor.reserved == [0, 0, 0]
  {
    hide VerifyStatus, Crc, RawViews, ViewsBytes, Le, WordBytes, StrLen;
    var raw, printed := RawBody(p, len), Body(p);
    var views := p.views[..p.viewCount];
    PrintedViews(views);
    if len == |Text(p)| {
      assert p.name[..len] == Text(p);
      assert RawWords(p, len) == HeaderWords(p);
      assert RawHeader(p, len) == Header(p);
      SameEnds(RawHeader(p, len) + p.name[..len], Header(p) + Text(p), RawViews(views), ViewsBytes(views));
      SameEnds(raw, printed, Le(Crc(raw), 4), Le(Crc(printed), 4));
    }
  }

  /** So a prototype whose label leaves room can be read from bytes that no printer makes: the label's terminator
      counted as one more byte of it. */
  lemma LongerLabel(p: Prototype)
    requires VerifyStatus(p) == Ok && |Text(p)| + 1 < MAX_LABEL
    ensures p.viewCount <= MAX_VIEWS
    ensures var q, len := Clean(p), |Text(p)| + 1;
      Parse(RawCapsule(q, len)) == Accepted(q, |Capsule(p)| + 1)
  {
    hide VerifyStatus, Crc, Capsule, RawCapsule;
    VerifiedShape(p);
    CleanVerifies(p);
    var q, len := Clean(p), |Text(p)| + 1;
    var data := RawCapsule(q, len);
    assert data[0..RawSize(q, len)] == data;
    assert Spelled(data, q, len);
    hide Spelled;
    ParseForms(data, q, RawSize(q, len));
  }

  // ---- What the seal determines ----

  lemma {:induction false} WordBytesInjective(a: seq<Word32>, b: seq<Word32>)
    requires |a| == |b| && WordBytes(a) == WordBytes(b)
    ensures a == b
  {
    hide Get32;
    var data := WordBytes(a);
    assert data[0..4 * |a|] == data;
    WordsRead(data, 0, a);
    WordsRead(data, 0, b);
  }

  lemma {:induction false} ViewTextsDetermine(a: seq<View>, b: seq<View>)
    requires |a| == |b| && ViewTexts(a) == ViewTexts(b)
    ensures |ViewTexts(a)| == 89 * |a| && ViewsBytes(a) == ViewsBytes(b)
    decreases |a|
  {
    hide ViewText, ViewBytes;
    if |a| > 0 {
      var n := |a| - 1;
      PrintedText(a[n]);
      PrintedText(b[n]);
      ViewTextsLength(a[..n]);
      ViewTextsLength(b[..n]);
      SameEnds(ViewTexts(a[..n]), ViewTexts(b[..n]), ViewText(a[n]), ViewText(b[n]));
      ViewTextsDetermine(a[..n], b[..n]);
    }
  }

  lemma {:induction false} ViewTextsLength(a: seq<View>)
    ensures |ViewTexts(a)| == 89 * |a|
  {
    hide ViewText;
    if |a| > 0 {
      PrintedText(a[|a| - 1]);
      ViewTextsLength(a[..|a| - 1]);
    }
  }

  lemma PrintedText(v: View)
    ensures |ViewText(v)| == 89 && ViewBytes(v) == ViewText(v) + [0, 0, 0]
  {
    hide WordBytes, Words, Le;
  }

  lemma SealParts(p: Prototype, q: Prototype)
    requires p.viewCount <= MAX_VIEWS && q.viewCount <= MAX_VIEWS && SealText(p) == SealText(q)
    ensures p.magic == q.magic && p.version == q.version && p.classId == q.classId && p.flags == q.flags
    ensures p.viewCount == q.viewCount && p.viewMask == q.viewMask && Text(p) == Text(q)
    ensures ViewTexts(p.views[..p.viewCount]) == ViewTexts(q.views[..q.viewCount])
  {
    hide WordBytes, ViewTexts, StrLen;
    var a := [p.magic, p.version, p.classId, p.flags, p.viewCount, p.viewMask, |Text(p)|];
    var b := [q.magic, q.version, q.classId, q.flags, q.viewCount, q.viewMask, |Text(q)|];
    var x, y := ViewTexts(p.views[..p.viewCount]), ViewTexts(q.views[..q.viewCount]);
    assert SealText(p) == WordBytes(a) + (Text(p) + x) && SealText(q) == WordBytes(b) + (Text(q) + y);
    SameEnds(WordBytes(a), WordBytes(b), Text(p) + x, Text(q) + y);
    WordBytesInjective(a, b);
    SameWords(a, b);
    SameEnds(Text(p), Text(q), x, y);
  }

  /** The seal covers everything that a capsule carries: with the same text to seal, two prototypes differ at most in
      the seal itself and in what a capsule leaves out. */
  lemma SealDetermines(p: Prototype, q: Prototype)
    requires p.viewCount <= MAX_VIEWS && q.viewCount <= MAX_VIEWS && SealText(p) == SealText(q)
    ensures Clean(p).(crc := 0) == Clean(q).(crc := 0)
  {
    hide SealText, ViewTexts, ViewsBytes, StrLen, CleanSlots, ViewsAt;
    SealParts(p, q);
    ViewTextsDetermine(p.views[..p.viewCount], q.views[..q.viewCount]);
    var data := ViewsBytes(p.views[..p.viewCount]);
    assert data[0..0 + p.viewCount * VIEW_SIZE] == data;
    ViewsBack(p, data, 0);
    ViewsBack(q, data, 0);
  }

  lemma SameWords(a: seq<Word32>, b: seq<Word32>)
    requires |a| == |b| == 7 && a == b
    ensures a[0] == b[0] && a[1] == b[1] && a[2] == b[2] && a[3] == b[3] && a[4] == b[4]
    ensures a[5] == b[5] && a[6] == b[6]
  {}
}
