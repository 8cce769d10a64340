/** Building a prototype: it is named, views are added or replaced one at a time, and it is sealed. */
module Drafts {
  import opened Bits
  import opened Counting
  import opened Encoding
  import opened Crc32c
  import opened Prototypes

  /** What every prototype that came from Init keeps, however many views were added since. */
  ghost predicate Building(p: Prototype) {
    && p.magic == PROTOTYPE_MAGIC && p.version == API_VERSION
    && 1 <= |Text(p)| < MAX_LABEL && p.classId == ClassId(p.name)
    && p.viewCount <= MAX_VIEWS
    && ViewsSound(p.views[..p.viewCount], p.viewMask)
  }

  /** The place of the first view with this number, or the number of views. */
  function IndexOf(views: seq<View>, id: nat): (k: nat)
    ensures k <= |views|
    ensures k < |views| ==> views[k].viewId == id
    ensures k < |views| <==> HasView(views, id)
  {
    if |views| == 0 then 0
    else if views[0].viewId == id then 0
    else
      assert HasView(views[1..], id) ==> HasView(views, id) by {
        if i :| 0 <= i < |views[1..]| && views[1..][i].viewId == id { assert views[i + 1].viewId == id; }
      }
      assert HasView(views, id) ==> HasView(views[1..], id) by {
        if i :| 0 <= i < |views| && views[i].viewId == id { assert views[1..][i - 1].viewId == id; }
      }
      1 + IndexOf(views[1..], id)
  }

  /** The prototype with a view put in a slot. */
  function WithView(p: Prototype, slot: nat, v: View): Prototype
    requires slot <= p.viewCount <= MAX_VIEWS && slot < MAX_VIEWS && v.viewId < MAX_VIEWS
  {
    MaskWord(p.viewMask, v.viewId);
    p.(views := p.views[slot := v],
       viewCount := if slot == p.viewCount then p.viewCount + 1 else p.viewCount,
       viewMask := SetBit(p.viewMask, v.viewId),
       crc := 0)
  }

  /** Setting a bit below 32 of a 32-bit mask stays within 32 bits. */
  lemma {:induction false} SetBitBound(mask: nat, i: nat, e: nat)
    requires mask < Shift(1, e) && i < e
    ensures SetBit(mask, i) < Shift(1, e)
    decreases i
  {
    assert Shift(1, e) == 2 * Shift(1, e - 1);
    if i > 0 {
      SetBitHalf(mask, i);
      SetBitBound(mask / 2, i - 1, e - 1);
      hide Shift, SetBit;
      assert SetBit(mask, i) / 2 < Shift(1, e - 1);
    } else {
      assert SetBit(mask, 0) == if mask % 2 == 1 then mask else mask + 1;
    }
  }

  lemma MaskWord(mask: Word32, i: nat)
    requires i < MAX_VIEWS
    ensures SetBit(mask, i) < 0x1_0000_0000
  {
    Shift31();
    SetBitBound(mask, i, 32);
  }

  /** A new number joins the views and the mask together. */
  lemma AppendKeeps(views: seq<View>, mask: nat, v: View)
    requires ViewsSound(views, mask) && v.viewId < MAX_VIEWS && !HasView(views, v.viewId)
    ensures ViewsSound(views + [v], SetBit(mask, v.viewId))
  {
    hide Bit, SetBit;
    var all := views + [v];
    forall b: nat
      ensures Bit(SetBit(mask, v.viewId), b) <==> HasView(all, b)
    {
      SetBitAt(mask, v.viewId, b);
      if HasView(views, b) {
        var i :| 0 <= i < |views| && views[i].viewId == b;
        assert all[i].viewId == b;
      }
      assert all[|views|].viewId == v.viewId;
    }
  }

  /** A replaced view keeps its number. */
  lemma ReplaceKeeps(views: seq<View>, mask: nat, slot: nat, v: View)
    requires ViewsSound(views, mask) && slot < |views| && views[slot].viewId == v.viewId
    ensures ViewsSound(views[slot := v], SetBit(mask, v.viewId))
  {
    hide Bit;
    var all := views[slot := v];
    assert Bit(mask, v.viewId) by {
      assert HasView(views, v.viewId);
    }
    forall i | 0 <= i < |views| ensures all[i].viewId == views[i].viewId {
    }
    forall b: nat ensures HasView(all, b) == HasView(views, b) {
    }
  }

  // ---- Sixteen numbers fill the sixteen places ----

  function Numbers(views: seq<View>): set<nat> {
    set i | 0 <= i < |views| :: views[i].viewId as nat
  }

  lemma {:induction false} NumbersCount(views: seq<View>)
    requires forall i, j :: 0 <= i < j < |views| ==> views[i].viewId != views[j].viewId
    ensures |Numbers(views)| == |views|
  {
    if |views| > 0 {
      var front := views[..|views| - 1];
      NumbersCount(front);
      assert Numbers(views) == Numbers(front) + {views[|views| - 1].viewId as nat};
    }
  }

  lemma NoMoreThanNumbers(views: seq<View>, mask: nat)
    requires ViewsSound(views, mask)
    ensures |views| <= MAX_VIEWS
  {
    hide Bit;
    NumbersCount(views);
    AllBelow(Numbers(views), MAX_VIEWS);
  }

  /** With sixteen views there is no number left to add. */
  lemma AllNumbersTaken(views: seq<View>, mask: nat, id: nat)
    requires ViewsSound(views, mask) && |views| == MAX_VIEWS && id < MAX_VIEWS
    ensures HasView(views, id)
  {
    hide ViewsSound;
    if !HasView(views, id) {
      var v := ZeroView().(viewId := id);
      AppendKeeps(views, mask, v);
      NoMoreThanNumbers(views + [v], SetBit(mask, id));
    }
  }

  // ---- The one word of flags that keeps a seal from taking ----

  function BeforeFlags(p: Prototype): seq<U8> {
    WordBytes([p.magic, p.version, p.classId])
  }

  function AfterFlags(p: Prototype): seq<U8>
    requires p.viewCount <= MAX_VIEWS
  {
    WordBytes([p.viewCount, p.viewMask, |Text(p)|]) + Text(p) + ViewTexts(p.views[..p.viewCount])
  }

  /** The flags with which the checksum of this name and these views is zero. */
  function ZeroFlags(p: Prototype): Word32
    requires p.viewCount <= MAX_VIEWS
  {
    ZeroWord(BeforeFlags(p), AfterFlags(p))
  }

  lemma {:induction false} WordBytesConcat(a: seq<Word32>, b: seq<Word32>)
    ensures WordBytes(a + b) == WordBytes(a) + WordBytes(b)
    decreases |b|
  {
    hide Le;
    if |b| == 0 {
      assert a + b == a;
    } else {
      assert (a + b)[..|a + b| - 1] == a + b[..|b| - 1];
      WordBytesConcat(a, b[..|b| - 1]);
    }
  }

  lemma OneWord(w: Word32)
    ensures WordBytes([w]) == Le(w, 4)
  {
    hide Le;
    assert [w][..0] == [];
    assert WordBytes([]) == [];
  }

  lemma SealTextAround(p: Prototype)
    requires p.viewCount <= MAX_VIEWS
    ensures SealText(p) == BeforeFlags(p) + Le(p.flags, 4) + AfterFlags(p)
  {
    hide Le, WordBytes, ViewTexts;
    var a, b := [p.magic, p.version, p.classId], [p.viewCount, p.viewMask, |Text(p)|];
    WordBytesConcat(a, [p.flags]);
    WordBytesConcat(a + [p.flags], b);
    OneWord(p.flags);
    assert a + [p.flags] + b == [p.magic, p.version, p.classId, p.flags, p.viewCount, p.viewMask, |Text(p)|];
  }

  /** Whatever the name and the views, the checksum is zero for one word of flags and no other. */
  lemma ZeroOnlyFor(p: Prototype, flags: Word32)
    requires p.viewCount <= MAX_VIEWS
    ensures ZeroFlags(p.(flags := flags)) == ZeroFlags(p)
    ensures Crc(SealText(p.(flags := flags))) == 0 <==> flags == ZeroFlags(p)
  {
    hide Crc, WordBytes, ViewTexts, ZeroWord, SealText;
    var q := p.(flags := flags);
    assert BeforeFlags(q) == BeforeFlags(p) && AfterFlags(q) == AfterFlags(p);
    SealTextAround(q);
    ZeroWordOnly(BeforeFlags(p), AfterFlags(p), flags);
  }

  /** So there are prototypes, sound and with a view, that no seal makes verify. */
  lemma SealCanFail() returns (p: Prototype)
    ensures Building(p) && p.viewCount > 0 && StructureStatus(p) == Ok
    ensures Crc(SealText(p)) < 0x1_0000_0000 && VerifyStatus(p.(crc := Crc(SealText(p)))) == Unsealed
  {
    hide Crc, SealText, Bit;
    var text: seq<U8> := if Crc([1]) != 0 then [1] else [2];
    CrcNoticesOneByte([1], 0, 2);
    assert [1][0 := 2] == [2];
    CrcRange(text);
    var name: Label := text + seq(31, _ => 0);
    NameText(text, name);
    var q := Prototype(PROTOTYPE_MAGIC, API_VERSION, ClassId(name), 0, 1, 1, 0, name, seq(16, _ => ZeroView()));
    p := q.(flags := ZeroFlags(q));
    ZeroOnlyFor(q, p.flags);
    ViewZeroSound(p.views[..1]);
    StructureSound(p);
    CrcRange(SealText(p));
    SealIgnoresCrc(p, Crc(SealText(p)));
  }

  lemma ViewZeroSound(views: seq<View>)
    requires |views| == 1 && views[0].viewId == 0
    ensures ViewsSound(views, 1)
  {
    forall b: nat
      ensures Bit(1, b) <==> HasView(views, b)
    {
      if b > 0 { ZeroBits(b - 1); }
      assert views[0].viewId == 0;
    }
  }

  class Draft {
    var p: Prototype

    constructor (p: Prototype)
      ensures this.p == p
    {
      this.p := p;
    }

    /** Names the class. The text is a C string without its terminator. */
    method Init(text: seq<U8>, flags: Word32) returns (status: Status)
      requires 0 !in text
      modifies this
      ensures !(1 <= |text| < MAX_LABEL) ==> status == BadArgument && p == old(p)
      ensures 1 <= |text| < MAX_LABEL ==>
        && Building(p) && Text(p) == text && p.flags == flags && p.viewCount == 0 && p.crc == 0 && p.viewMask == 0
        && (forall i :: |text| <= i < MAX_LABEL ==> p.name[i] == 0)
        && (forall i :: 0 <= i < MAX_VIEWS ==> p.views[i] == ZeroView())
        && status == if Crc(text) != 0 then Ok else BadArgument
    {
      hide Crc, Bit;
      if |text| == 0 || |text| >= MAX_LABEL { return BadArgument; }
      var name: Label := text + seq(MAX_LABEL - |text|, _ => 0);
      NameText(text, name);
      CrcRange(text);
      p := Prototype(PROTOTYPE_MAGIC, API_VERSION, ClassId(name), flags, 0, 0, 0, name, seq(16, _ => ZeroView()));
      forall b: nat ensures !Bit(0, b) { ZeroBits(b); }
      status := if p.classId != 0 then Ok else BadArgument;
    }

    /** Adds a view under a number, or replaces the one that has it. */
    method AddView(viewId: U8, flags: U8, sampleId: Word32, sourceCrc: Word32, descriptor: Descriptor, replace: bool)
      returns (status: Status)
      requires p.viewCount <= MAX_VIEWS
      modifies this
      ensures var views := old(p.views[..p.viewCount]);
        status ==
          if old(p.magic != PROTOTYPE_MAGIC || p.version != API_VERSION) || viewId >= MAX_VIEWS then BadArgument
          else if HasView(views, viewId) then (if replace then Ok else DuplicateView)
          else if |views| == MAX_VIEWS then Full
          else Ok
      ensures status != Ok ==> p == old(p)
      ensures status == Ok ==>
        var slot := IndexOf(old(p.views[..p.viewCount]), viewId);
        slot < MAX_VIEWS
        && p == WithView(old(p), slot, View(viewId, flags, 0, sampleId, sourceCrc, descriptor))
      ensures old(Building(p)) ==> Building(p) && status != Full
    {
      hide Bit, SetBit, ClassId, ViewsSound;
      if p.magic != PROTOTYPE_MAGIC || p.version != API_VERSION || viewId >= MAX_VIEWS { return BadArgument; }
      ghost var views := p.views[..p.viewCount];
      var slot := FindSlot(p.views[..p.viewCount], viewId);
      if slot < p.viewCount && !replace { return DuplicateView; }
      if slot == p.viewCount && p.viewCount >= MAX_VIEWS {
        if Building(p) { AllNumbersTaken(views, p.viewMask, viewId); }
        return Full;
      }
      var v := View(viewId, flags, 0, sampleId, sourceCrc, descriptor);
      WithViewKeeps(p, slot, v);
      if slot == p.viewCount { p := p.(viewCount := p.viewCount + 1); }
      MaskWord(p.viewMask, viewId);
      p := p.(views := p.views[slot := v]);
      p := p.(viewMask := SetBit(p.viewMask, viewId));
      p := p.(crc := 0);
      status := Ok;
    }

    /** Seals a sound prototype. It then verifies unless it has the one word of flags for which the
        checksum of its name and views is zero. */
    method Seal() returns (status: Status)
      modifies this
      ensures status == old(StructureStatus(p))
      ensures status != Ok ==> p == old(p)
      ensures status == Ok ==>
        && p.viewCount <= MAX_VIEWS && Crc(SealText(p)) < 0x1_0000_0000
        && p == old(p).(crc := Crc(SealText(p)))
      ensures status == Ok ==> VerifyStatus(p) == if p.flags == ZeroFlags(p) then Unsealed else Ok
      ensures old(Building(p)) && old(p.viewCount) > 0 && old(p.classId) != 0 ==> status == Ok
    {
      hide Crc, SealText, ViewsSound, ScanViews, ZeroFlags;
      StructureSound(p);
      status := CheckStructure(p);
      if status == Ok {
        var crc := PrototypeCrc(p);
        CrcRange(SealText(p));
        SealIgnoresCrc(p, crc);
        ZeroOnlyFor(p, p.flags);
        SealedFlags(p, crc);
        p := p.(crc := crc);
      }
    }
  }

  lemma SealIgnoresCrc(p: Prototype, crc: Word32)
    requires p.viewCount <= MAX_VIEWS
    ensures SealText(p.(crc := crc)) == SealText(p)
    ensures StructureStatus(p.(crc := crc)) == StructureStatus(p)
  {
    hide WordBytes, ViewTexts, Crc;
  }

  lemma SealedFlags(p: Prototype, crc: Word32)
    requires p.viewCount <= MAX_VIEWS
    ensures ZeroFlags(p.(crc := crc)) == ZeroFlags(p) && p.(flags := p.flags) == p
  {
    hide WordBytes, ViewTexts, ZeroWord;
    var q := p.(crc := crc);
    assert BeforeFlags(q) == BeforeFlags(p) && AfterFlags(q) == AfterFlags(p);
  }

  lemma NameText(text: seq<U8>, name: Label)
    requires 0 !in text && 1 <= |text| < MAX_LABEL && name[..|text|] == text && name[|text|] == 0
    ensures StrLen(name) == |text|
  {
    StrLenIs(name, |text|);
  }

  lemma WithViewKeeps(p: Prototype, slot: nat, v: View)
    requires p.viewCount <= MAX_VIEWS && v.viewId < MAX_VIEWS
    requires slot == IndexOf(p.views[..p.viewCount], v.viewId) < MAX_VIEWS
    ensures Building(p) ==> Building(WithView(p, slot, v))
  {
    hide Bit, SetBit, ClassId, ViewsSound;
    var views, q := p.views[..p.viewCount], WithView(p, slot, v);
    if Building(p) {
      if slot == p.viewCount {
        AppendKeeps(views, p.viewMask, v);
        assert q.views[..q.viewCount] == views + [v];
      } else {
        ReplaceKeeps(views, p.viewMask, slot, v);
        assert q.views[..q.viewCount] == views[slot := v];
      }
    }
  }

  method FindSlot(views: seq<View>, id: nat) returns (slot: nat)
    ensures slot == IndexOf(views, id)
  {
    for i := 0 to |views|
      invariant IndexOf(views, id) == i + IndexOf(views[i..], id)
    {
      assert views[i..][1..] == views[i + 1..];
      if views[i].viewId == id { return i; }
    }
    slot := |views|;
  }
}
