/** The capsule: a sealed prototype printed as bytes with a checksum at the end, and read back. */
module Capsules {
  import opened Encoding
  import opened Crc32c
  import opened Prototypes
  import opened Pieces

  const CAPSULE_MAGIC: Word32 := 0x52564331
  const HEADER_SIZE: nat := 36
  const VIEW_SIZE: nat := 92
  const TRAILER_SIZE: nat := 4

  function SerializedSize(p: Prototype): nat {
    if p.viewCount > MAX_VIEWS then 0
    else HEADER_SIZE + |Text(p)| + p.viewCount * VIEW_SIZE + TRAILER_SIZE
  }

  // ---- Printing ----

  function DescriptorBytes(d: Descriptor): (bytes: seq<U8>)
    ensures |bytes| == 80
  {
    WordBytes(Words(d)) + [d.otsuThreshold, 0, 0, 0]
  }

  function ViewBytes(v: View): (bytes: seq<U8>)
    ensures |bytes| == VIEW_SIZE
  {
    [v.viewId, v.flags] + Le(v.reserved, 2) + Le(v.sampleId, 4) + Le(v.sourceCrc, 4)
    + DescriptorBytes(v.descriptor)
  }

  function ViewsBytes(views: seq<View>): (bytes: seq<U8>)
    ensures |bytes| == |views| * VIEW_SIZE
  {
    if |views| == 0 then [] else ViewsBytes(views[..|views| - 1]) + ViewBytes(views[|views| - 1])
  }

  function Header(p: Prototype): (bytes: seq<U8>)
    requires p.viewCount <= MAX_VIEWS
    ensures |bytes| == HEADER_SIZE
  {
    Le(CAPSULE_MAGIC, 4) + Le(API_VERSION, 2) + Le(HEADER_SIZE, 2) + WordBytes(HeaderWords(p))
  }

  function HeaderWords(p: Prototype): (words: seq<Word32>)
    requires p.viewCount <= MAX_VIEWS
    ensures |words| == 7
  {
    [SerializedSize(p), p.classId, p.flags, p.viewCount, p.viewMask, |Text(p)|, p.crc]
  }

  /** Everything before the checksum. */
  function Body(p: Prototype): (bytes: seq<U8>)
    requires p.viewCount <= MAX_VIEWS
    ensures |bytes| + TRAILER_SIZE == SerializedSize(p)
  {
    Header(p) + Text(p) + ViewsBytes(p.views[..p.viewCount])
  }

  function Capsule(p: Prototype): (bytes: seq<U8>)
    requires p.viewCount <= MAX_VIEWS
    ensures |bytes| == SerializedSize(p)
  {
    Body(p) + Le(Crc(Body(p)), 4)
  }

  // ---- Parsing ----

  datatype Parsed = Accepted(prototype: Prototype, consumed: nat) | Rejected(status: Status)

  function ViewAt(data: seq<U8>, at: nat): View
    requires at + VIEW_SIZE <= |data|
  {
    View(data[at], data[at + 1], Get16(data, at + 2), Get32(data, at + 4), Get32(data, at + 8),
      DescriptorAt(data, at + 12))
  }

  function DescriptorAt(data: seq<U8>, at: nat): Descriptor
    requires at + 80 <= |data|
  {
    Descriptor(
      Get32(data, at), Get32(data, at + 4), Get32(data, at + 8), Get32(data, at + 12),
      Get32(data, at + 16), Get32(data, at + 20),
      seq(8, i requires 0 <= i < 8 => Get32(data, at + 24 + 4 * i)),
      Get32(data, at + 56), Get32(data, at + 60), Get32(data, at + 64), Get32(data, at + 68),
      Get32(data, at + 72), data[at + 76], data[at + 77..at + 80])
  }

  /** The views that follow one another from `at`, with zeros in the slots left over. */
  function ViewsAt(data: seq<U8>, at: nat, count: nat): (views: Views)
    requires count <= MAX_VIEWS && at + count * VIEW_SIZE <= |data|
    ensures forall i :: 0 <= i < MAX_VIEWS ==>
      views[i] == if i < count then ViewAt(data, at + i * VIEW_SIZE) else ZeroView()
  {
    seq(16, i requires 0 <= i < 16 =>
      if i < count then ViewAt(data, at + i * VIEW_SIZE) else ZeroView())
  }

  /** The prototype that a capsule of `count` views and a label of `len` bytes spells out. */
  function PrototypeAt(data: seq<U8>, len: nat, count: nat): Prototype
    requires len <= MAX_LABEL && count <= MAX_VIEWS
    requires HEADER_SIZE + len + count * VIEW_SIZE <= |data|
  {
    Prototype(PROTOTYPE_MAGIC, API_VERSION, Get32(data, 12), Get32(data, 16), count, Get32(data, 24),
      Get32(data, 32), data[HEADER_SIZE..HEADER_SIZE + len] + Repeat(0, MAX_LABEL - len),
      ViewsAt(data, HEADER_SIZE + len, count))
  }

  /** Whether the header and the checksum are in order. */
  function FrameStatus(data: seq<U8>): (status: Status)
    ensures status == Ok ==>
      && HEADER_SIZE + TRAILER_SIZE <= |data|
      && 0 < Get32(data, 28) < MAX_LABEL && 0 < Get32(data, 20) <= MAX_VIEWS
      && HEADER_SIZE + Get32(data, 28) + Get32(data, 20) * VIEW_SIZE + TRAILER_SIZE
         == Get32(data, 8) <= |data|
  {
    if |data| < HEADER_SIZE + TRAILER_SIZE then Truncated
    else if Get32(data, 0) != CAPSULE_MAGIC then BadMagic
    else if Get16(data, 4) != API_VERSION || Get16(data, 6) != HEADER_SIZE then BadVersion
    else
      var total, count, len := Get32(data, 8), Get32(data, 20), Get32(data, 28);
      if total > |data| || total < HEADER_SIZE + TRAILER_SIZE then Truncated
      else if count == 0 || count > MAX_VIEWS || len == 0 || len >= MAX_LABEL then BadArgument
      else if HEADER_SIZE + len + count * VIEW_SIZE + TRAILER_SIZE != total then Truncated
      else if Crc(data[..total - 4]) != Get32(data, total - 4) then CrcMismatch
      else Ok
  }

  function Parse(data: seq<U8>): Parsed {
    var frame := FrameStatus(data);
    if frame != Ok then Rejected(frame)
    else
      var p := PrototypeAt(data, Get32(data, 28), Get32(data, 20));
      if VerifyStatus(p) != Ok || p.classId != ClassId(p.name) then Rejected(CrcMismatch)
      else Accepted(p, Get32(data, 8))
  }

  // ---- Reading back what was printed ----

  function CleanView(v: View): View {
    v.(descriptor := v.descriptor.(reserved := [0, 0, 0]))
  }

  /** The prototype without the bytes a capsule does not carry: what follows the label's end, the
      slots past the last view, and the descriptors' reserved bytes. */
  function Clean(p: Prototype): Prototype
    requires p.viewCount <= MAX_VIEWS
  {
    p.(name := Text(p) + Repeat(0, MAX_LABEL - |Text(p)|), views := CleanSlots(p.views, p.viewCount))
  }

  function CleanSlots(views: Views, count: nat): (clean: Views)
    ensures forall i :: 0 <= i < MAX_VIEWS ==>
      clean[i] == if i < count then CleanView(views[i]) else ZeroView()
  {
    CleanAll(views, count)
  }

  function CleanAll(views: seq<View>, count: nat): (clean: seq<View>)
    ensures |clean| == |views|
    ensures forall i :: 0 <= i < |views| ==> clean[i] == if i < count then CleanView(views[i]) else ZeroView()
  {
    seq(|views|, i requires 0 <= i < |views| => if i < count then CleanView(views[i]) else ZeroView())
  }

  lemma {:induction false} WordAt(words: seq<Word32>, i: nat)
    requires i < |words|
    ensures WordBytes(words)[4 * i..4 * i + 4] == Le(words[i], 4)
    decreases |words|
  {
    hide Le;
    if i < |words| - 1 { WordAt(words[..|words| - 1], i); }
  }

  /** Reading a word from the middle of what was written. */
  lemma GetPart(data: seq<U8>, at: nat, bytes: seq<U8>, lo: nat, n: Word32)
    requires at + |bytes| <= |data| && data[at..at + |bytes|] == bytes
    requires lo + 4 <= |bytes| && bytes[lo..lo + 4] == Le(n, 4)
    ensures Get32(data, at + lo) == n
  {
    hide Get32, Le;
    SliceOfSlice(data, at, at + |bytes|, lo, lo + 4);
    Get32At(data, at + lo, n);
  }

  lemma GetWord(data: seq<U8>, at: nat, words: seq<Word32>, i: nat)
    requires i < |words| && at + |WordBytes(words)| <= |data|
    requires data[at..at + |WordBytes(words)|] == WordBytes(words)
    ensures Get32(data, at + 4 * i) == words[i]
  {
    hide Get32, WordBytes, Le;
    WordAt(words, i);
    GetPart(data, at, WordBytes(words), 4 * i, words[i]);
  }

  lemma DescriptorBack(data: seq<U8>, at: nat, d: Descriptor)
    requires at + 80 <= |data| && data[at..at + 80] == DescriptorBytes(d)
    ensures DescriptorAt(data, at) == d.(reserved := [0, 0, 0])
  {
    hide Get32, WordBytes;
    var words := Words(d);
    SliceOfSlice(data, at, at + 80, 0, 76);
    forall i | 0 <= i < 19 ensures Get32(data, at + 4 * i) == words[i] {
      GetWord(data, at, words, i);
    }
    var e := DescriptorAt(data, at);
    forall i | 0 <= i < 8 ensures e.angleHist[i] == d.angleHist[i] {
      assert Get32(data, at + 4 * (6 + i)) == words[6 + i];
    }
    assert e.angleHist == d.angleHist;
    FirstWords(data, at, words);
    LastWords(data, at, words);
    assert data[at..at + 80][76..] == [d.otsuThreshold, 0, 0, 0];
    assert data[at + 76] == data[at..at + 80][76];
    assert data[at + 77..at + 80] == data[at..at + 80][77..];
  }

  lemma FirstWords(data: seq<U8>, at: nat, words: seq<Word32>)
    requires |words| == 19 && at + 76 <= |data|
    requires forall i :: 0 <= i < 19 ==> Get32(data, at + 4 * i) == words[i]
    ensures Get32(data, at) == words[0] && Get32(data, at + 4) == words[1] && Get32(data, at + 8) == words[2]
    ensures Get32(data, at + 12) == words[3] && Get32(data, at + 16) == words[4] && Get32(data, at + 20) == words[5]
  {
    hide Get32;
    assert Get32(data, at + 4 * 0) == words[0] && Get32(data, at + 4 * 1) == words[1];
    assert Get32(data, at + 4 * 2) == words[2] && Get32(data, at + 4 * 3) == words[3];
    assert Get32(data, at + 4 * 4) == words[4] && Get32(data, at + 4 * 5) == words[5];
  }

  lemma LastWords(data: seq<U8>, at: nat, words: seq<Word32>)
    requires |words| == 19 && at + 76 <= |data|
    requires forall i :: 0 <= i < 19 ==> Get32(data, at + 4 * i) == words[i]
    ensures Get32(data, at + 56) == words[14] && Get32(data, at + 60) == words[15]
    ensures Get32(data, at + 64) == words[16] && Get32(data, at + 68) == words[17] &&
        Get32(data, at + 72) == words[18]
  {
    hide Get32;
    assert Get32(data, at + 4 * 14) == words[14] && Get32(data, at + 4 * 15) == words[15];
    assert Get32(data, at + 4 * 16) == words[16] && Get32(data, at + 4 * 17) == words[17];
    assert Get32(data, at + 4 * 18) == words[18];
  }

  lemma ViewSections(v: View)
    ensures var bytes := ViewBytes(v);
      && bytes[0] == v.viewId && bytes[1] == v.flags && bytes[2..4] == Le(v.reserved, 2)
      && bytes[4..8] == Le(v.sampleId, 4) && bytes[8..12] == Le(v.sourceCrc, 4)
      && bytes[12..92] == DescriptorBytes(v.descriptor)
  {
    hide Le, DescriptorBytes;
  }

  lemma ViewBack(data: seq<U8>, at: nat, v: View)
    requires at + VIEW_SIZE <= |data| && data[at..at + VIEW_SIZE] == ViewBytes(v)
    ensures ViewAt(data, at) == CleanView(v)
  {
    hide Get32, Get16, DescriptorAt, DescriptorBytes, Le;
    var bytes := data[at..at + VIEW_SIZE];
    assert data[at] == bytes[0] && data[at + 1] == bytes[1];
    SliceOfSlice(data, at, at + VIEW_SIZE, 2, 4);
    SliceOfSlice(data, at, at + VIEW_SIZE, 4, 8);
    SliceOfSlice(data, at, at + VIEW_SIZE, 8, 12);
    SliceOfSlice(data, at, at + VIEW_SIZE, 12, 92);
    ViewSections(v);
    Get16At(data, at + 2, v.reserved);
    Get32At(data, at + 4, v.sampleId);
    Get32At(data, at + 8, v.sourceCrc);
    DescriptorBack(data, at + 12, v.descriptor);
  }

  lemma {:induction false} ViewSlice(views: seq<View>, i: nat)
    requires i < |views|
    ensures ViewsBytes(views)[i * VIEW_SIZE..i * VIEW_SIZE + VIEW_SIZE] == ViewBytes(views[i])
    decreases |views|
  {
    hide ViewBytes;
    if i < |views| - 1 { ViewSlice(views[..|views| - 1], i); }
  }

  /** A prototype and its clean form are alike to the seal. */
  lemma CleanVerifies(p: Prototype)
    requires VerifyStatus(p) == Ok
    ensures p.viewCount <= MAX_VIEWS && VerifyStatus(Clean(p)) == Ok
    ensures Clean(p).classId == ClassId(Clean(p).name)
  {
    hide Crc, ViewText, WordBytes, ViewsSound;
    StructureSound(p);
    var q := Clean(p);
    CleanText(p);
    StructureSound(q);
    CleanViews(p);
  }

  lemma CleanText(p: Prototype)
    requires p.viewCount <= MAX_VIEWS
    ensures Text(Clean(p)) == Text(p)
  {
    StrLenIs(Clean(p).name, |Text(p)|);
  }

  lemma CleanViews(p: Prototype)
    requires p.viewCount <= MAX_VIEWS
    ensures ViewTexts(Clean(p).views[..p.viewCount]) == ViewTexts(p.views[..p.viewCount])
    ensures ViewsSound(p.views[..p.viewCount], p.viewMask) ==> ViewsSound(Clean(p).views[..p.viewCount], p.viewMask)
  {
    hide ViewText, Bit;
    var a, b := p.views[..p.viewCount], Clean(p).views[..p.viewCount];
    forall i | 0 <= i < |a| ensures ViewText(a[i]) == ViewText(b[i]) && a[i].viewId == b[i].viewId {
      CleanViewText(a[i]);
    }
    SameTexts(a, b);
    forall id: nat ensures HasView(a, id) == HasView(b, id) {
    }
  }

  lemma CleanViewText(v: View)
    ensures ViewText(CleanView(v)) == ViewText(v)
  {
    hide Le, WordBytes;
  }

  lemma {:induction false} SameTexts(a: seq<View>, b: seq<View>)
    requires |a| == |b| && forall i :: 0 <= i < |a| ==> ViewText(a[i]) == ViewText(b[i])
    ensures ViewTexts(a) == ViewTexts(b)
  {
    hide ViewText;
    if |a| > 0 { SameTexts(a[..|a| - 1], b[..|b| - 1]); }
  }

  lemma HeaderBack(data: seq<U8>, p: Prototype)
    requires p.viewCount <= MAX_VIEWS && HEADER_SIZE <= |data| && data[..HEADER_SIZE] == Header(p)
    ensures Get32(data, 0) == CAPSULE_MAGIC && Get16(data, 4) == API_VERSION && Get16(data, 6) == HEADER_SIZE
    ensures Get32(data, 8) == SerializedSize(p) && Get32(data, 12) == p.classId && Get32(data, 16) == p.flags
    ensures Get32(data, 20) == p.viewCount && Get32(data, 24) == p.viewMask
    ensures Get32(data, 28) == |Text(p)| && Get32(data, 32) == p.crc
  {
    hide Get32, Get16, WordBytes, Le, SerializedSize;
    var bytes, words := Header(p), HeaderWords(p);
    assert data[0..4] == bytes[0..4] == Le(CAPSULE_MAGIC, 4);
    assert data[4..6] == bytes[4..6] == Le(API_VERSION, 2);
    assert data[6..8] == bytes[6..8] == Le(HEADER_SIZE, 2);
    assert data[8..36] == bytes[8..36] == WordBytes(words);
    Get32At(data, 0, CAPSULE_MAGIC);
    Get16At(data, 4, API_VERSION);
    Get16At(data, 6, HEADER_SIZE);
    GetWord(data, 8, words, 0);
    GetWord(data, 8, words, 1);
    GetWord(data, 8, words, 2);
    GetWord(data, 8, words, 3);
    GetWord(data, 8, words, 4);
    GetWord(data, 8, words, 5);
    GetWord(data, 8, words, 6);
  }

  /** The four parts of a capsule, wherever they stand. */
  lemma CapsuleParts(p: Prototype, tail: seq<U8>)
    requires p.viewCount <= MAX_VIEWS
    ensures var data, body := Capsule(p) + tail, HEADER_SIZE + |Text(p)|;
      && data[..HEADER_SIZE] == Header(p)
      && data[HEADER_SIZE..body] == Text(p)
      && data[body..body + p.viewCount * VIEW_SIZE] == ViewsBytes(p.views[..p.viewCount])
      && data[..SerializedSize(p) - 4] == Body(p)
      && data[SerializedSize(p) - 4..SerializedSize(p)] == Le(Crc(Body(p)), 4)
  {
    hide Crc, Le, Header, ViewsBytes;
  }

  lemma FrameSound(p: Prototype, tail: seq<U8>)
    requires 1 <= p.viewCount <= MAX_VIEWS && 1 <= |Text(p)| < MAX_LABEL
    ensures FrameStatus(Capsule(p) + tail) == Ok
  {
    hide Crc, Le, Header, ViewsBytes, Get32, Get16, Body;
    CapsuleParts(p, tail);
    var data := Capsule(p) + tail;
    HeaderBack(data, p);
    CrcRange(Body(p));
    Get32At(data, SerializedSize(p) - 4, Crc(Body(p)));
  }

  lemma ViewsBack(p: Prototype, data: seq<U8>, at: nat)
    requires p.viewCount <= MAX_VIEWS && at + p.viewCount * VIEW_SIZE <= |data|
    requires data[at..at + p.viewCount * VIEW_SIZE] == ViewsBytes(p.views[..p.viewCount])
    ensures ViewsAt(data, at, p.viewCount) == CleanSlots(p.views, p.viewCount)
  {
    hide ViewAt, ViewsBytes, ViewBytes, CleanView;
    var views := p.views[..p.viewCount];
    forall i | 0 <= i < p.viewCount ensures ViewAt(data, at + i * VIEW_SIZE) == CleanView(p.views[i]) {
      ViewSlice(views, i);
      SliceOfSlice(data, at, at + p.viewCount * VIEW_SIZE, i * VIEW_SIZE, i * VIEW_SIZE + VIEW_SIZE);
      ViewBack(data, at + i * VIEW_SIZE, p.views[i]);
    }
  }

  /** A capsule reads back, whatever follows it, as the prototype it was printed from up to the bytes
      it does not carry, and exactly the printed bytes are consumed. */
  lemma CapsuleRoundTrip(p: Prototype, tail: seq<U8>)
    requires VerifyStatus(p) == Ok
    ensures p.viewCount <= MAX_VIEWS
    ensures Parse(Capsule(p) + tail) == Accepted(Clean(p), |Capsule(p)|)
  {
    hide Crc, Header, ViewsBytes, Get32, Get16, Capsule, VerifyStatus, ViewsAt, CleanSlots, ClassId;
    VerifiedShape(p);
    CleanVerifies(p);
    FrameSound(p, tail);
    CapsuleParts(p, tail);
    var data := Capsule(p) + tail;
    HeaderBack(data, p);
    ViewsBack(p, data, HEADER_SIZE + |Text(p)|);
    assert PrototypeAt(data, |Text(p)|, p.viewCount) == Clean(p);
  }

  lemma VerifiedShape(p: Prototype)
    requires VerifyStatus(p) == Ok
    ensures 1 <= p.viewCount <= MAX_VIEWS && 1 <= |Text(p)| < MAX_LABEL
    ensures p.magic == PROTOTYPE_MAGIC && p.version == API_VERSION
  {
    hide Crc;
    StructureSound(p);
  }

  // ---- Damage ----

  /** A changed byte changes the number it belongs to and no other. */
  lemma GetChanged(data: seq<U8>, at: nat, k: nat, b: U8)
    requires at + 4 <= |data| && k < |data| && data[k] != b
    ensures Get32(data[k := b], at) == Get32(data, at) <==> !(at <= k < at + 4)
  {
    hide OfLe, Le;
    var was, now := data[at..at + 4], data[k := b][at..at + 4];
    if at <= k < at + 4 {
      assert was[k - at] != now[k - at];
      LeBack(was);
      LeBack(now);
    } else {
      assert was == now;
    }
  }

  /** No change of a single byte of a well-formed frame leaves a well-formed frame: either the
      length no longer matches what the header announces, or the checksum fails. */
  lemma FrameNoticesOneByte(data: seq<U8>, k: nat, b: U8)
    requires FrameStatus(data) == Ok && k < Get32(data, 8) && data[k] != b
    ensures FrameStatus(data[k := b]) != Ok
  {
    hide Get32, Get16, Crc;
    var damaged := data[k := b];
    GetChanged(data, 8, k, b);
    GetChanged(data, 20, k, b);
    GetChanged(data, 28, k, b);
    var total := Get32(data, 8);
    if Get32(damaged, 8) == total {
      GetChanged(data, total - 4, k, b);
      if k < total - 4 {
        CrcNoticesOneByte(data[..total - 4], k, b);
        assert damaged[..total - 4] == data[..total - 4][k := b];
      } else {
        assert damaged[..total - 4] == data[..total - 4];
      }
    }
  }

  /** Every change of a single byte of a printed capsule is rejected, whatever follows it. */
  lemma CapsuleNoticesOneByte(p: Prototype, tail: seq<U8>, k: nat, b: U8)
    requires VerifyStatus(p) == Ok && p.viewCount <= MAX_VIEWS
    requires k < |Capsule(p)| && Capsule(p)[k] != b
    ensures Parse((Capsule(p) + tail)[k := b]).Rejected?
  {
    hide Crc, Header, ViewsBytes, Get32, Get16, Capsule, VerifyStatus;
    VerifiedShape(p);
    FrameSound(p, tail);
    CapsuleParts(p, tail);
    HeaderBack(Capsule(p) + tail, p);
    FrameNoticesOneByte(Capsule(p) + tail, k, b);
  }

  // ---- The printer and the parser, byte by byte ----

  /** Writes the low k bytes of n at the cursor and moves the cursor past them. */
  method Put(out: array<U8>, at: nat, n: nat, k: nat) returns (next: nat)
    requires at + k <= out.Length
    modifies out
    ensures next == at + k
    ensures out[..next] == old(out[..at]) + Le(n, k)
    ensures forall j :: next <= j < out.Length ==> out[j] == old(out[j])
  {
    var rest := n;
    next := at;
    for i := 0 to k
      invariant next == at + i
      invariant out[..next] + Le(rest, k - i) == old(out[..at]) + Le(n, k)
      invariant forall j :: next <= j < out.Length ==> out[j] == old(out[j])
    {
      ghost var before := out[..next];
      out[next] := rest % 256;
      assert out[..next + 1] == before + [rest % 256];
      assert before + Le(rest, k - i) == before + [rest % 256] + Le(rest / 256, k - i - 1);
      rest := rest / 256;
      next := next + 1;
    }
    assert out[..next] + [] == out[..next];
  }

  method PutBytes(out: array<U8>, at: nat, bytes: seq<U8>) returns (next: nat)
    requires at + |bytes| <= out.Length
    modifies out
    ensures next == at + |bytes|
    ensures out[..next] == old(out[..at]) + bytes
    ensures forall j :: next <= j < out.Length ==> out[j] == old(out[j])
  {
    for i := 0 to |bytes|
      invariant out[..at + i] == old(out[..at]) + bytes[..i]
      invariant forall j :: at + i <= j < out.Length ==> out[j] == old(out[j])
    {
      ghost var before := out[..at + i];
      out[at + i] := bytes[i];
      assert out[..at + i + 1] == before + [bytes[i]];
    }
    next := at + |bytes|;
  }

  method PutWords(out: array<U8>, at: nat, words: seq<Word32>) returns (next: nat)
    requires at + 4 * |words| <= out.Length
    modifies out
    ensures next == at + 4 * |words|
    ensures out[..next] == old(out[..at]) + WordBytes(words)
    ensures forall j :: next <= j < out.Length ==> out[j] == old(out[j])
  {
    hide Le;
    next := at;
    for i := 0 to |words|
      invariant next == at + 4 * i
      invariant out[..next] == old(out[..at]) + WordBytes(words[..i])
      invariant forall j :: next <= j < out.Length ==> out[j] == old(out[j])
    {
      next := Put(out, next, words[i], 4);
      assert words[..i + 1][..i] == words[..i];
    }
    assert words[..|words|] == words;
  }

  method PutView(out: array<U8>, at: nat, v: View) returns (next: nat)
    requires at + VIEW_SIZE <= out.Length
    modifies out
    ensures next == at + VIEW_SIZE
    ensures out[..next] == old(out[..at]) + ViewBytes(v)
    ensures forall j :: next <= j < out.Length ==> out[j] == old(out[j])
  {
    hide Le, WordBytes, Words;
    ghost var before := out[..at];
    next := PutBytes(out, at, [v.viewId, v.flags]);
    next := Put(out, next, v.reserved, 2);
    next := Put(out, next, v.sampleId, 4);
    next := Put(out, next, v.sourceCrc, 4);
    next := PutWords(out, next, Words(v.descriptor));
    next := PutBytes(out, next, [v.descriptor.otsuThreshold, 0, 0, 0]);
    ViewParts(before, v);
  }

  lemma ViewParts(before: seq<U8>, v: View)
    ensures before + [v.viewId, v.flags] + Le(v.reserved, 2) + Le(v.sampleId, 4) + Le(v.sourceCrc, 4)
      + WordBytes(Words(v.descriptor)) + [v.descriptor.otsuThreshold, 0, 0, 0] == before + ViewBytes(v)
  {
    hide Le, WordBytes, Words;
  }

  /** Prints p into the buffer if it verifies and there is room; otherwise leaves the buffer alone. */
  method Serialize(p: Prototype, out: array<U8>) returns (status: Status, written: nat)
    modifies out
    ensures status ==
      if VerifyStatus(p) != Ok then VerifyStatus(p)
      else if out.Length < SerializedSize(p) then Truncated
      else Ok
    ensures status == Ok ==> p.viewCount <= MAX_VIEWS && written == |Capsule(p)| && out[..written] == Capsule(p)
    ensures status == Ok ==> forall j :: written <= j < out.Length ==> out[j] == old(out[j])
    ensures status != Ok ==> written == 0 && out[..] == old(out[..])
  {
    hide VerifyStatus, Crc, Header, ViewsBytes;
    written := 0;
    status := Verify(p);
    if status != Ok { return; }
    VerifiedShape(p);
    var total := SerializedSize(p);
    if out.Length < total { return Truncated, 0; }
    var c := PutHeader(out, p);
    c := PutBytes(out, c, Text(p));
    c := PutViews(out, c, p.views[..p.viewCount]);
    assert out[..c] == Body(p);
    var capsuleCrc := Checksum(out[..c]);
    written := Put(out, c, capsuleCrc, 4);
  }

  method PutHeader(out: array<U8>, p: Prototype) returns (next: nat)
    requires p.viewCount <= MAX_VIEWS && HEADER_SIZE <= out.Length
    modifies out
    ensures next == HEADER_SIZE && out[..next] == Header(p) 
    ensures forall j :: next <= j < out.Length ==> out[j] == old(out[j])
  {
    hide Le, WordBytes, SerializedSize;
    next := Put(out, 0, CAPSULE_MAGIC, 4);
    next := Put(out, next, API_VERSION, 2);
    next := Put(out, next, HEADER_SIZE, 2);
    next := PutWords(out, next, HeaderWords(p));
  }

  method PutViews(out: array<U8>, at: nat, views: seq<View>) returns (next: nat)
    requires at + |views| * VIEW_SIZE <= out.Length
    modifies out
    ensures next == at + |views| * VIEW_SIZE
    ensures out[..next] == old(out[..at]) + ViewsBytes(views)
    ensures forall j :: next <= j < out.Length ==> out[j] == old(out[j])
  {
    hide ViewBytes;
    next := at;
    for i := 0 to |views|
      invariant next == at + i * VIEW_SIZE
      invariant out[..next] == old(out[..at]) + ViewsBytes(views[..i])
      invariant forall j :: next <= j < out.Length ==> out[j] == old(out[j])
    {
      next := PutView(out, next, views[i]);
      assert views[..i + 1][..i] == views[..i];
    }
    assert views[..|views|] == views;
  }

  /** Reads a capsule from the front of the data. */
  method Deserialize(data: seq<U8>) returns (result: Parsed)
    ensures result == Parse(data)
  {
    hide Crc, Get32, Get16, VerifyStatus, ViewsAt;
    if |data| < HEADER_SIZE + TRAILER_SIZE { return Rejected(Truncated); }
    var magic, version, headerSize := Get32(data, 0), Get16(data, 4), Get16(data, 6);
    var total, classId, flags := Get32(data, 8), Get32(data, 12), Get32(data, 16);
    var viewCount, viewMask := Get32(data, 20), Get32(data, 24);
    var labelLen, crc := Get32(data, 28), Get32(data, 32);
    if magic != CAPSULE_MAGIC { return Rejected(BadMagic); }
    if version != API_VERSION || headerSize != HEADER_SIZE { return Rejected(BadVersion); }
    if total > |data| || total < HEADER_SIZE + TRAILER_SIZE { return Rejected(Truncated); }
    if viewCount == 0 || viewCount > MAX_VIEWS || labelLen == 0 || labelLen >= MAX_LABEL {
      return Rejected(BadArgument);
    }
    var expected := HEADER_SIZE + labelLen + viewCount * VIEW_SIZE + TRAILER_SIZE;
    if expected != total { return Rejected(Truncated); }
    var sum := Checksum(data[..total - 4]);
    if sum != Get32(data, total - 4) { return Rejected(CrcMismatch); }
    var name := data[HEADER_SIZE..HEADER_SIZE + labelLen] + Repeat(0, MAX_LABEL - labelLen);
    var c := HEADER_SIZE + labelLen;
    var views := ReadViews(data, c, viewCount);
    c := c + viewCount * VIEW_SIZE + TRAILER_SIZE;
    if c != total { return Rejected(Truncated); }
    var p := Prototype(PROTOTYPE_MAGIC, API_VERSION, classId, flags, viewCount, viewMask, crc, name, views);
    assert p == PrototypeAt(data, labelLen, viewCount);
    var status := Verify(p);
    if status != Ok || p.classId != ClassId(p.name) { return Rejected(CrcMismatch); }
    result := Accepted(p, total);
  }

  method ReadViews(data: seq<U8>, at: nat, count: nat) returns (views: Views)
    requires count <= MAX_VIEWS && at + count * VIEW_SIZE <= |data|
    ensures views == ViewsAt(data, at, count)
  {
    hide ViewAt;
    views := seq(16, _ => ZeroView());
    var c := at;
    for i := 0 to count
      invariant c == at + i * VIEW_SIZE
      invariant forall j :: 0 <= j < 16 ==> views[j] == if j < i then ViewAt(data, at + j * VIEW_SIZE) else ZeroView()
    {
      views := views[i := ViewAt(data, c)];
      c := c + VIEW_SIZE;
    }
  }
}
