/** Visual prototypes: a labelled class with up to sixteen views, each view under its own number,
    sealed by a checksum of everything that matters. */
module Prototypes {
  import opened Bits
  import opened Encoding
  import opened Crc32c

  const PROTOTYPE_MAGIC: Word32 := 0x52565031
  const API_VERSION: Word32 := 1
  const MAX_LABEL: nat := 32
  const MAX_VIEWS: nat := 16

  type Histogram = s: seq<Word32> | |s| == 8 witness [0, 0, 0, 0, 0, 0, 0, 0]
  type Reserved = s: seq<U8> | |s| == 3 witness [0, 0, 0]
  type Label = s: seq<U8> | |s| == MAX_LABEL witness seq(32, _ => 0)
  type Views = s: seq<View> | |s| == MAX_VIEWS witness seq(16, _ => ZeroView())

  datatype Status =
    | Ok | BadArgument | Empty | Full | DuplicateView | BadMagic | BadVersion | Truncated | CrcMismatch | Unsealed

  datatype Descriptor = Descriptor(
    width: Word32, height: Word32, pixelCount: Word32, foregroundCount: Word32, foregroundQ16: Word32,
    angleCount: Word32, angleHist: Histogram, angularChi2: Word32, angularConcentration: Word32,
    grayCrc: Word32, descriptorCrc: Word32, status: Word32, otsuThreshold: U8, reserved: Reserved)

  datatype View = View(
    viewId: U8, flags: U8, reserved: Word16, sampleId: Word32, sourceCrc: Word32, descriptor: Descriptor)

  datatype Prototype = Prototype(
    magic: Word32, version: Word32, classId: Word32, flags: Word32, viewCount: Word32, viewMask: Word32,
    crc: Word32, name: Label, views: Views)

  function ZeroView(): View {
    View(0, 0, 0, 0, 0,
      Descriptor(0, 0, 0, 0, 0, 0, [0, 0, 0, 0, 0, 0, 0, 0], 0, 0, 0, 0, 0, 0, [0, 0, 0]))
  }

  /** The length of a C string in a buffer that may lack the terminator. */
  function StrLen(s: seq<U8>): (n: nat)
    ensures n <= |s| && 0 !in s[..n] && (n < |s| ==> s[n] == 0)
  {
    if |s| == 0 || s[0] == 0 then 0
    else
      var n := 1 + StrLen(s[1..]);
      assert s[..n] == [s[0]] + s[1..][..n - 1];
      n
  }

  lemma {:induction false} StrLenIs(s: seq<U8>, n: nat)
    requires n <= |s| && 0 !in s[..n] && (n < |s| ==> s[n] == 0)
    ensures StrLen(s) == n
  {
    if n > 0 {
      assert s[0] in s[..n];
      assert s[1..][..n - 1] == s[..n][1..];
      StrLenIs(s[1..], n - 1);
    }
  }

  function Text(p: Prototype): seq<U8> {
    p.name[..StrLen(p.name)]
  }

  function ClassId(name: Label): nat {
    var n := StrLen(name);
    if n == 0 || n >= MAX_LABEL then 0 else Crc(name[..n])
  }

  /** A label without a terminator and an empty one have no class. */
  lemma ClassIdMeans(name: Label)
    ensures name[0] == 0 || 0 !in name ==> ClassId(name) == 0
    ensures forall n :: 1 <= n < 32 && 0 !in name[..n] && name[n] == 0 ==> ClassId(name) == Crc(name[..n])
  {
    hide Crc;
    var n := StrLen(name);
    assert n < 32 ==> name[n] == 0;
    forall m | 1 <= m < 32 && 0 !in name[..m] && name[m] == 0 ensures ClassId(name) == Crc(name[..m]) {
      StrLenIs(name, m);
    }
  }

  /** Bit i of a mask. */
  predicate Bit(mask: nat, i: nat) {
    if i == 0 then mask % 2 == 1 else Bit(mask / 2, i - 1)
  }

  function SetBit(mask: nat, i: nat): nat {
    if Bit(mask, i) then mask else mask + Shift(1, i)
  }

  lemma {:induction false} SetBitAt(mask: nat, i: nat, j: nat)
    ensures Bit(SetBit(mask, i), j) <==> i == j || Bit(mask, j)
    decreases i
  {
    if i > 0 {
      SetBitHalf(mask, i);
      if j > 0 { SetBitAt(mask / 2, i - 1, j - 1); }
    } else if j > 0 {
      assert SetBit(mask, 0) / 2 == mask / 2;
    }
  }

  lemma SetBitHalf(mask: nat, i: nat)
    requires i > 0
    ensures SetBit(mask, i) / 2 == SetBit(mask / 2, i - 1)
    ensures SetBit(mask, i) % 2 == mask % 2
  {
    assert Shift(1, i) == 2 * Shift(1, i - 1);
  }

  /** A number is its bits. */
  lemma {:induction false} BitsDetermine(a: nat, b: nat)
    requires forall i: nat :: Bit(a, i) == Bit(b, i)
    ensures a == b
    decreases a + b
  {
    assert Bit(a, 0) == Bit(b, 0);
    if a != 0 || b != 0 {
      forall i: nat
        ensures Bit(a / 2, i) == Bit(b / 2, i)
      {
        assert Bit(a, i + 1) == Bit(b, i + 1);
      }
      BitsDetermine(a / 2, b / 2);
    }
  }

  /** What the scan of the views reports: the first view with a bad or repeated number, or a mask
      that does not match. */
  function ScanViews(views: seq<View>, mask: nat, expected: nat): Status
    decreases |views|
  {
    if |views| == 0 then (if mask == expected then Ok else CrcMismatch)
    else
      var id := views[0].viewId;
      if id >= MAX_VIEWS then BadArgument
      else if Bit(mask, id) then DuplicateView
      else ScanViews(views[1..], SetBit(mask, id), expected)
  }

  function StructureStatus(p: Prototype): Status {
    if p.magic != PROTOTYPE_MAGIC then BadMagic
    else if p.version != API_VERSION then BadVersion
    else if StrLen(p.name) == 0 || StrLen(p.name) >= MAX_LABEL then BadArgument
    else if p.classId == 0 || p.classId != ClassId(p.name) then CrcMismatch
    else if p.viewCount == 0 then Empty
    else if p.viewCount > MAX_VIEWS then BadArgument
    else ScanViews(p.views[..p.viewCount], 0, p.viewMask)
  }

  predicate HasView(views: seq<View>, id: nat) {
    exists i :: 0 <= i < |views| && views[i].viewId == id
  }

  /** Views under distinct numbers below sixteen, and a mask that says which. */
  ghost predicate ViewsSound(views: seq<View>, mask: nat) {
    && (forall i :: 0 <= i < |views| ==> views[i].viewId < MAX_VIEWS)
    && (forall i, j :: 0 <= i < j < |views| ==> views[i].viewId != views[j].viewId)
    && (forall b: nat :: Bit(mask, b) <==> HasView(views, b))
  }

  /** As ViewsSound, for the views that remain when the bits of `mask` have been seen. */
  ghost predicate RestSound(views: seq<View>, mask: nat, expected: nat) {
    && (forall i :: 0 <= i < |views| ==> views[i].viewId < MAX_VIEWS && !Bit(mask, views[i].viewId))
    && (forall i, j :: 0 <= i < j < |views| ==> views[i].viewId != views[j].viewId)
    && (forall b: nat :: Bit(expected, b) <==> Bit(mask, b) || HasView(views, b))
  }

  lemma {:induction false} ScanViewsRest(views: seq<View>, mask: nat, expected: nat)
    ensures ScanViews(views, mask, expected) == Ok <==> RestSound(views, mask, expected)
    decreases |views|
  {
    hide Bit, SetBit;
    if |views| == 0 {
      if RestSound(views, mask, expected) { BitsDetermine(mask, expected); }
    } else {
      var id := views[0].viewId;
      if id < MAX_VIEWS && !Bit(mask, id) {
        ScanViewsRest(views[1..], SetBit(mask, id), expected);
        RestStep(views, mask, expected);
      }
    }
  }

  lemma RestStep(views: seq<View>, mask: nat, expected: nat)
    requires |views| > 0 && views[0].viewId < MAX_VIEWS && !Bit(mask, views[0].viewId)
    ensures RestSound(views[1..], SetBit(mask, views[0].viewId), expected) <==> RestSound(views, mask, expected)
  {
    hide Bit, SetBit;
    var id, rest := views[0].viewId, views[1..];
    var mask' := SetBit(mask, id);
    forall j: nat ensures Bit(mask', j) <==> id == j || Bit(mask, j) {
      SetBitAt(mask, id, j);
    }
    forall b: nat
      ensures HasView(views, b) <==> b == id || HasView(rest, b)
    {
      if i :| 0 <= i < |views| && views[i].viewId == b && i > 0 { assert rest[i - 1].viewId == b; }
      if i :| 0 <= i < |rest| && rest[i].viewId == b { assert views[i + 1].viewId == b; }
    }
    if RestSound(rest, mask', expected) {
      forall i | 0 <= i < |views|
        ensures views[i].viewId < MAX_VIEWS && !Bit(mask, views[i].viewId)
      {
        if i > 0 { assert rest[i - 1] == views[i]; }
      }
      forall i, j | 0 <= i < j < |views|
        ensures views[i].viewId != views[j].viewId
      {
        assert rest[j - 1] == views[j];
        if i > 0 { assert rest[i - 1] == views[i]; }
      }
    }
  }

  /** The structure is reported as sound just when it is: the order of the tests and the running
      mask do not matter for acceptance. */
  lemma StructureSound(p: Prototype)
    ensures StructureStatus(p) == Ok <==>
      && p.magic == 0x52565031 && p.version == 1
      && 1 <= |Text(p)| < 32
      && p.classId == Crc(Text(p)) != 0
      && 1 <= p.viewCount <= 16
      && ViewsSound(p.views[..p.viewCount], p.viewMask)
  {
    hide Bit, Crc;
    if 1 <= p.viewCount <= MAX_VIEWS {
      ScanViewsRest(p.views[..p.viewCount], 0, p.viewMask);
      forall i: nat ensures !Bit(0, i) {
        ZeroBits(i);
      }
    }
  }

  lemma {:induction false} ZeroBits(i: nat)
    ensures !Bit(0, i)
  {
    if i > 0 { ZeroBits(i - 1); }
  }

  /** The words of a descriptor, in file order. */
  function Words(d: Descriptor): (words: seq<Word32>)
    ensures |words| == 19
  {
    [d.width, d.height, d.pixelCount, d.foregroundCount, d.foregroundQ16, d.angleCount]
    + d.angleHist
    + [d.angularChi2, d.angularConcentration, d.grayCrc, d.descriptorCrc, d.status]
  }

  function WordBytes(words: seq<Word32>): (bytes: seq<U8>)
    ensures |bytes| == 4 * |words|
  {
    if |words| == 0 then [] else WordBytes(words[..|words| - 1]) + Le(words[|words| - 1], 4)
  }

  /** What the seal covers of one view: everything but the descriptor's reserved bytes. */
  function ViewText(v: View): seq<U8> {
    [v.viewId, v.flags] + Le(v.reserved, 2) + Le(v.sampleId, 4) + Le(v.sourceCrc, 4)
    + WordBytes(Words(v.descriptor)) + [v.descriptor.otsuThreshold]
  }

  function ViewTexts(views: seq<View>): seq<U8> {
    if |views| == 0 then [] else ViewTexts(views[..|views| - 1]) + ViewText(views[|views| - 1])
  }

  /** What the seal covers. */
  function SealText(p: Prototype): seq<U8>
    requires p.viewCount <= MAX_VIEWS
  {
    WordBytes([p.magic, p.version, p.classId, p.flags, p.viewCount, p.viewMask, |Text(p)|])
    + Text(p) + ViewTexts(p.views[..p.viewCount])
  }

  function VerifyStatus(p: Prototype): Status {
    var structure := StructureStatus(p);
    if structure != Ok || p.viewCount > MAX_VIEWS then structure
    else if p.crc == 0 then Unsealed
    else if Crc(SealText(p)) == p.crc then Ok
    else CrcMismatch
  }

  /** A prototype verifies just when it is sound and its seal is the checksum of what the seal covers, and not
      zero. */
  lemma VerifiesWhen(p: Prototype)
    ensures VerifyStatus(p) == Ok <==>
      && StructureStatus(p) == Ok && 1 <= p.viewCount <= 16
      && p.crc != 0 && p.crc == Crc(SealText(p))
  {
    hide Crc, SealText;
    StructureSound(p);
  }

  method CheckStructure(p: Prototype) returns (status: Status)
    ensures status == StructureStatus(p)
  {
    hide Crc, Bit, SetBit;
    var labelLen := StrLen(p.name);
    if p.magic != PROTOTYPE_MAGIC { return BadMagic; }
    if p.version != API_VERSION { return BadVersion; }
    if labelLen == 0 || labelLen >= MAX_LABEL { return BadArgument; }
    if p.classId == 0 || p.classId != ClassId(p.name) { return CrcMismatch; }
    if p.viewCount == 0 { return Empty; }
    if p.viewCount > MAX_VIEWS { return BadArgument; }
    status := CheckViews(p.views[..p.viewCount], p.viewMask);
  }

  method CheckViews(views: seq<View>, expected: nat) returns (status: Status)
    ensures status == ScanViews(views, 0, expected)
  {
    hide Bit, SetBit;
    var mask := 0;
    var i := 0;
    while i < |views|
      invariant 0 <= i <= |views|
      invariant ScanViews(views, 0, expected) == ScanViews(views[i..], mask, expected)
    {
      var viewId := views[i].viewId;
      assert views[i..][1..] == views[i + 1..];
      if viewId >= MAX_VIEWS { return BadArgument; }
      if Bit(mask, viewId) { return DuplicateView; }
      mask := SetBit(mask, viewId);
      i := i + 1;
    }
    status := if mask == expected then Ok else CrcMismatch;
  }

  method UpdateWords(crc: nat, words: seq<Word32>) returns (next: nat)
    ensures next == Update(crc, WordBytes(words))
  {
    hide Update;
    next := crc;
    UpdateNothing(crc);
    for i := 0 to |words|
      invariant next == Update(crc, WordBytes(words[..i]))
    {
      UpdateConcat(crc, WordBytes(words[..i]), Le(words[i], 4));
      assert words[..i + 1][..i] == words[..i];
      next := UpdateLoop(next, Le(words[i], 4));
    }
    assert words[..|words|] == words;
  }

  lemma UpdateNothing(crc: nat)
    ensures Update(crc, []) == crc
  {}

  method UpdateView(crc: nat, v: View) returns (next: nat)
    ensures next == Update(crc, ViewText(v))
  {
    hide Update, Words, WordBytes;
    var d := v.descriptor;
    next := UpdateLoop(crc, [v.viewId, v.flags]);
    next := UpdateLoop(next, Le(v.reserved, 2));
    next := UpdateLoop(next, Le(v.sampleId, 4));
    next := UpdateLoop(next, Le(v.sourceCrc, 4));
    next := UpdateWords(next, Words(d));
    next := UpdateLoop(next, [d.otsuThreshold]);
    var a, b := [v.viewId, v.flags], [v.viewId, v.flags] + Le(v.reserved, 2);
    UpdateConcat(crc, a, Le(v.reserved, 2));
    UpdateConcat(crc, b, Le(v.sampleId, 4));
    UpdateConcat(crc, b + Le(v.sampleId, 4), Le(v.sourceCrc, 4));
    UpdateConcat(crc, b + Le(v.sampleId, 4) + Le(v.sourceCrc, 4), WordBytes(Words(d)));
    UpdateConcat(crc, b + Le(v.sampleId, 4) + Le(v.sourceCrc, 4) + WordBytes(Words(d)), [d.otsuThreshold]);
  }

  method PrototypeCrc(p: Prototype) returns (crc: nat)
    requires p.viewCount <= MAX_VIEWS
    ensures crc == Crc(SealText(p))
  {
    hide Update, ViewText, WordBytes, Xor;
    var words := [p.magic, p.version, p.classId, p.flags, p.viewCount, p.viewMask, StrLen(p.name)];
    crc := UpdateWords(0xFFFF_FFFF, words);
    crc := UpdateLoop(crc, Text(p));
    ghost var before := WordBytes(words) + Text(p);
    UpdateConcat(0xFFFF_FFFF, WordBytes(words), Text(p));
    assert before + [] == before;
    for i := 0 to p.viewCount
      invariant crc == Update(0xFFFF_FFFF, before + ViewTexts(p.views[..i]))
    {
      UpdateConcat(0xFFFF_FFFF, before + ViewTexts(p.views[..i]), ViewText(p.views[i]));
      assert p.views[..i + 1][..i] == p.views[..i];
      assert before + ViewTexts(p.views[..i + 1]) == before + ViewTexts(p.views[..i]) + ViewText(p.views[i]);
      crc := UpdateView(crc, p.views[i]);
    }
    crc := Xor(crc, 0xFFFF_FFFF);
  }

  method Verify(p: Prototype) returns (status: Status)
    ensures status == VerifyStatus(p)
  {
    hide Crc, SealText;
    status := CheckStructure(p);
    if status != Ok { return; }
    StructureSound(p);
    if p.crc == 0 { return Unsealed; }
    var crc := PrototypeCrc(p);
    status := if crc == p.crc then Ok else CrcMismatch;
  }
}
