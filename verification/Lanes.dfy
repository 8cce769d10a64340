/** Hashing several inputs at once, one per lane: sixteen registers, each holding one state word of
    every input. Whatever the number of lanes, each lane computes what hashing its input alone does. */
module Lanes {
  import opened Bits
  import opened Pieces
  import opened Spec
  import opened Compression
  import opened RowForm
  import opened Transposes
  import opened HashManys
  import opened Counters

  /** A register: one word per lane. */
  type Register = seq<Word>

  predicate Wide(vs: seq<Register>, lanes: nat) {
    forall k :: 0 <= k < |vs| ==> |vs[k]| == lanes
  }

  /** The words of one lane. */
  function LaneOf(vs: seq<Register>, i: nat): (ws: seq<Word>)
    requires forall k :: 0 <= k < |vs| ==> i < |vs[k]|
    ensures |ws| == |vs|
    ensures forall k :: 0 <= k < |vs| ==> ws[k] == vs[k][i]
  {
    seq(|vs|, k requires 0 <= k < |vs| => vs[k][i])
  }

  function Set1(w: Word, lanes: nat): Register {
    Repeat(w, lanes)
  }

  function SumR(a: Register, b: Register, c: Register): (r: Register)
    requires |a| == |b| == |c|
    ensures |r| == |a| && forall i :: 0 <= i < |a| ==> r[i] == Sum(a[i], b[i], c[i])
  {
    seq(|a|, i requires 0 <= i < |a| => Sum(a[i], b[i], c[i]))
  }

  function AddR(a: Register, b: Register): (r: Register)
    requires |a| == |b|
    ensures |r| == |a| && forall i :: 0 <= i < |a| ==> r[i] == Add(a[i], b[i])
  {
    seq(|a|, i requires 0 <= i < |a| => Add(a[i], b[i]))
  }

  function XorR(a: Register, b: Register): (r: Register)
    requires |a| == |b|
    ensures |r| == |a| && forall i :: 0 <= i < |a| ==> r[i] == Xor(a[i], b[i])
  {
    seq(|a|, i requires 0 <= i < |a| => Xor(a[i], b[i]))
  }

  function RotR(a: Register, c: nat): (r: Register)
    requires 0 < c < 32
    ensures |r| == |a| && forall i :: 0 <= i < |a| ==> r[i] == RotLane(a[i], c)
  {
    seq(|a|, i requires 0 <= i < |a| => RotLane(a[i], c))
  }

  /** Half a mixing step on four of the registers, in the order of the vector code. */
  function HalfRegisters(v: seq<Register>, a: nat, b: nat, c: nat, d: nat, x: Register, r1: nat, r2: nat, lanes: nat)
    : (w: seq<Register>)
    requires |v| == 16 && a < 16 && b < 16 && c < 16 && d < 16 && 0 < r1 < 32 && 0 < r2 < 32
    requires Wide(v, lanes) && |x| == lanes
    ensures |w| == 16 && Wide(w, lanes)
  {
    var va := SumR(v[a], x, v[b]);
    var vd := RotR(XorR(v[d], va), r1);
    var vc := AddR(v[c], vd);
    var vb := RotR(XorR(v[b], vc), r2);
    v[a := va][d := vd][c := vc][b := vb]
  }

  lemma HalfLane(v: seq<Register>, a: nat, b: nat, c: nat, d: nat, x: Register, r1: nat, r2: nat, lanes: nat, i: nat)
    requires |v| == 16 && a < 16 && b < 16 && c < 16 && d < 16 && i < lanes
    requires a != b && a != c && a != d && b != c && b != d && c != d
    requires (r1 == 16 && r2 == 12) || (r1 == 8 && r2 == 7)
    requires Wide(v, lanes) && |x| == lanes
    ensures LaneOf(HalfRegisters(v, a, b, c, d, x, r1, r2, lanes), i)
         == (var s := LaneOf(v, i); Put(s, a, b, c, d, Half(Quad(s[a], s[b], s[c], s[d]), x[i], r1, r2)))
  {
    hide Sum, Add, Xor, RotLane, Rotr, Half;
    var s := LaneOf(v, i);
    LaneStep(Quad(s[a], s[b], s[c], s[d]), x[i], r1, r2);
  }

  method HalfLanes(v: array<Register>, a: nat, b: nat, c: nat, d: nat, x: Register, r1: nat, r2: nat,
      ghost lanes: nat)
    requires v.Length == 16 && a < 16 && b < 16 && c < 16 && d < 16
    requires a != b && a != c && a != d && b != c && b != d && c != d
    requires (r1 == 16 && r2 == 12) || (r1 == 8 && r2 == 7)
    requires Wide(v[..], lanes) && |x| == lanes
    modifies v
    ensures Wide(v[..], lanes)
    ensures forall i :: 0 <= i < lanes ==>
              LaneOf(v[..], i)
              == (var s := LaneOf(old(v[..]), i);
                  Put(s, a, b, c, d, Half(Quad(s[a], s[b], s[c], s[d]), x[i], r1, r2)))
  {
    hide LaneOf, Put, Half;
    ghost var before := v[..];
    v[a] := SumR(v[a], x, v[b]);
    v[d] := RotR(XorR(v[d], v[a]), r1);
    v[c] := AddR(v[c], v[d]);
    v[b] := RotR(XorR(v[b], v[c]), r2);
    assert v[..] == HalfRegisters(before, a, b, c, d, x, r1, r2, lanes);
    forall i | 0 <= i < lanes
      ensures LaneOf(v[..], i)
              == (var s := LaneOf(before, i); Put(s, a, b, c, d, Half(Quad(s[a], s[b], s[c], s[d]), x[i], r1, r2)))
    {
      HalfLane(before, a, b, c, d, x, r1, r2, lanes, i);
    }
  }

  method MixLane(v: array<Register>, a: nat, b: nat, c: nat, d: nat, x: Register, y: Register, ghost lanes: nat)
    requires v.Length == 16 && a < 16 && b < 16 && c < 16 && d < 16
    requires a != b && a != c && a != d && b != c && b != d && c != d
    requires Wide(v[..], lanes) && |x| == lanes && |y| == lanes
    modifies v
    ensures Wide(v[..], lanes)
    ensures forall i :: 0 <= i < lanes ==> LaneOf(v[..], i) == Mix(LaneOf(old(v[..]), i), a, b, c, d, x[i], y[i])
  {
    hide Half, Put;
    ghost var before := v[..];
    HalfLanes(v, a, b, c, d, x, 16, 12, lanes);
    forall i | 0 <= i < lanes
      ensures var s := LaneOf(before, i);
        var first := Half(Quad(s[a], s[b], s[c], s[d]), x[i], 16, 12);
        LaneOf(v[..], i) == Put(s, a, b, c, d, first)
        && (var t := LaneOf(v[..], i);
            Put(t, a, b, c, d, Half(Quad(t[a], t[b], t[c], t[d]), y[i], 8, 7))
            == Mix(s, a, b, c, d, x[i], y[i]))
    {
      var s := LaneOf(before, i);
      var first := Half(Quad(s[a], s[b], s[c], s[d]), x[i], 16, 12);
      PutTwice(s, a, b, c, d, first, Half(first, y[i], 8, 7));
    }
    HalfLanes(v, a, b, c, d, y, 8, 7, lanes);
  }

  /** One round on all lanes: four columns, then four diagonals, message registers by the schedule. */
  method RoundLanes(v: array<Register>, m: seq<Register>, r: nat, ghost lanes: nat)
    requires v.Length == 16 && |m| == 16 && r < 7
    requires Wide(v[..], lanes) && Wide(m, lanes)
    modifies v
    ensures Wide(v[..], lanes)
    ensures forall i :: 0 <= i < lanes ==> LaneOf(v[..], i) == Round(LaneOf(old(v[..]), i), Permuted(LaneOf(m, i), r))
  {
    hide Mix, Permuted;
    var w := ScheduledRegisters(m, r, lanes);
    MixLane(v, 0, 4, 8, 12, w[0], w[1], lanes);
    MixLane(v, 1, 5, 9, 13, w[2], w[3], lanes);
    MixLane(v, 2, 6, 10, 14, w[4], w[5], lanes);
    MixLane(v, 3, 7, 11, 15, w[6], w[7], lanes);
    MixLane(v, 0, 5, 10, 15, w[8], w[9], lanes);
    MixLane(v, 1, 6, 11, 12, w[10], w[11], lanes);
    MixLane(v, 2, 7, 8, 13, w[12], w[13], lanes);
    MixLane(v, 3, 4, 9, 14, w[14], w[15], lanes);
  }

  /** The message registers in the order in which round r uses them. */
  method ScheduledRegisters(m: seq<Register>, r: nat, ghost lanes: nat) returns (w: seq<Register>)
    requires |m| == 16 && r < 7 && Wide(m, lanes)
    ensures |w| == 16 && Wide(w, lanes)
    ensures forall i, k :: 0 <= i < lanes && 0 <= k < 16 ==> w[k][i] == Permuted(LaneOf(m, i), r)[k]
  {
    hide Permuted;
    w := [];
    for k := 0 to 16
      invariant |w| == k && Wide(w, lanes)
      invariant forall i, j :: 0 <= i < lanes && 0 <= j < k ==> w[j][i] == Permuted(LaneOf(m, i), r)[j]
    {
      ScheduleIsPermuted(seq(16, _ => 0), r, k);
      w := w + [m[MSG_SCHEDULE[r][k]]];
      forall i | 0 <= i < lanes
        ensures w[k][i] == Permuted(LaneOf(m, i), r)[k]
      {
        ScheduleIsPermuted(LaneOf(m, i), r, k);
      }
    }
  }

  /** Transposed loading: register w holds word w of the block of every input. */
  function MessageRegisters(inputs: seq<seq<Byte>>, block: nat): (m: seq<Register>)
    requires forall i :: 0 <= i < |inputs| ==> 64 * block + 64 <= |inputs[i]|
    ensures |m| == 16 && Wide(m, |inputs|)
  {
    seq(16, w requires 0 <= w < 16 =>
      seq(|inputs|, i requires 0 <= i < |inputs| => LoadWord(inputs[i], 64 * block + 4 * w)))
  }

  lemma MessageLane(inputs: seq<seq<Byte>>, block: nat, i: nat)
    requires i < |inputs| && forall k :: 0 <= k < |inputs| ==> 64 * block + 64 <= |inputs[k]|
    ensures LaneOf(MessageRegisters(inputs, block), i) == LoadWords(inputs[i][64 * block..64 * block + 64])
  {
    hide LoadWord, LoadWords;
    var bytes := inputs[i][64 * block..64 * block + 64];
    forall w | 0 <= w < 16
      ensures LaneOf(MessageRegisters(inputs, block), i)[w] == LoadWords(bytes)[w]
    {
      LoadWordsAt(bytes, w);
      LoadInside(inputs[i], 64 * block, 64 * block + 64, 4 * w);
    }
  }

  lemma LoadInside(bytes: seq<Byte>, lo: nat, hi: nat, at: nat)
    requires lo + at + 4 <= hi <= |bytes|
    ensures LoadWord(bytes[lo..hi], at) == LoadWord(bytes, lo + at)
  {
    hide WordOf;
  }

  /** Four quarters of a block of four inputs, each transposed; two halves for eight inputs; or a block of
      sixteen inputs at once. There are no other widths but one. */
  method LoadMessage(inputs: seq<seq<Byte>>, block: nat) returns (m: seq<Register>)
    requires forall i :: 0 <= i < |inputs| ==> 64 * block + 64 <= |inputs[i]|
    ensures m == MessageRegisters(inputs, block)
  {
    if |inputs| == 4 {
      m := LoadMessage4(inputs, block);
    } else if |inputs| == 8 {
      m := LoadMessage8(inputs, block);
    } else if |inputs| == 16 {
      m := LoadMessage16(inputs, block);
    } else {
      m := MessageRegisters(inputs, block);
    }
  }

  /** Four words of each of four inputs. */
  method LoadQuarter(inputs: seq<seq<Byte>>, at: nat) returns (m: seq<Register>)
    requires |inputs| == 4 && forall i :: 0 <= i < 4 ==> at + 16 <= |inputs[i]|
    ensures |m| == 4 && Wide(m, 4)
    ensures forall j, i :: 0 <= j < 4 && 0 <= i < 4 ==> m[j][i] == LoadWord(inputs[i], at + 4 * j)
  {
    hide LoadWord, LoadVec, Column;
    var a, b, c, d := LoadVec(inputs[0], at), LoadVec(inputs[1], at), LoadVec(inputs[2], at), LoadVec(inputs[3], at);
    var r0, r1, r2, r3 := TransposeVecs(a, b, c, d);
    m := [OfVec(r0), OfVec(r1), OfVec(r2), OfVec(r3)];
    forall j, i | 0 <= j < 4 && 0 <= i < 4
      ensures m[j][i] == LoadWord(inputs[i], at + 4 * j)
    {
      assert m[j] == OfVec(Column(j, a, b, c, d));
      ColumnAt(j, a, b, c, d, i);
      LoadVecAt(inputs[i], at, j);
    }
  }

  method LoadMessage4(inputs: seq<seq<Byte>>, block: nat) returns (m: seq<Register>)
    requires |inputs| == 4 && forall i :: 0 <= i < 4 ==> 64 * block + 64 <= |inputs[i]|
    ensures m == MessageRegisters(inputs, block)
  {
    hide LoadWord;
    m := [];
    for q := 0 to 4
      invariant |m| == 4 * q && Wide(m, 4)
      invariant forall w, i :: 0 <= w < 4 * q && 0 <= i < 4 ==> m[w][i] == LoadWord(inputs[i], 64 * block + 4 * w)
    {
      var quarter := LoadQuarter(inputs, 64 * block + 16 * q);
      ghost var before := m;
      m := m + quarter;
      forall w, i | 0 <= w < 4 * q + 4 && 0 <= i < 4
        ensures m[w][i] == LoadWord(inputs[i], 64 * block + 4 * w)
      {
        if w < 4 * q {
          assert m[w] == before[w];
        } else {
          assert m[w] == quarter[w - 4 * q];
          assert 64 * block + 16 * q + 4 * (w - 4 * q) == 64 * block + 4 * w;
        }
      }
    }
    SameRegisters(m, MessageRegisters(inputs, block), 4);
  }

  lemma SameRegisters(a: seq<Register>, b: seq<Register>, lanes: nat)
    requires |a| == |b| && Wide(a, lanes) && Wide(b, lanes)
    requires forall w, i :: 0 <= w < |a| && 0 <= i < lanes ==> a[w][i] == b[w][i]
    ensures a == b
  {
    forall w | 0 <= w < |a| ensures a[w] == b[w] {
    }
  }

  /** Eight words of each of eight inputs. */
  method LoadHalf(inputs: seq<seq<Byte>>, at: nat) returns (m: seq<Register>)
    requires |inputs| == 8 && forall i :: 0 <= i < 8 ==> at + 32 <= |inputs[i]|
    ensures |m| == 8 && Wide(m, 8)
    ensures forall w, i :: 0 <= w < 8 && 0 <= i < 8 ==> m[w][i] == LoadWord(inputs[i], at + 4 * w)
  {
    hide LoadWord, LoadYmm, Ymm.At;
    var vecs := seq(8, i requires 0 <= i < 8 => LoadYmm(inputs[i], at));
    var t := TransposeVecs256(vecs);
    m := seq(8, w requires 0 <= w < 8 => OfYmm(t[w]));
    forall w, i | 0 <= w < 8 && 0 <= i < 8
      ensures m[w][i] == LoadWord(inputs[i], at + 4 * w)
    {
      assert m[w] == OfYmm(t[w]) && vecs[i] == LoadYmm(inputs[i], at);
      LoadYmmAt(inputs[i], at, w);
      assert m[w][i] == t[w].At(i) == vecs[i].At(w);
    }
  }

  method LoadMessage8(inputs: seq<seq<Byte>>, block: nat) returns (m: seq<Register>)
    requires |inputs| == 8 && forall i :: 0 <= i < 8 ==> 64 * block + 64 <= |inputs[i]|
    ensures m == MessageRegisters(inputs, block)
  {
    hide LoadWord;
    var low := LoadHalf(inputs, 64 * block);
    var high := LoadHalf(inputs, 64 * block + 32);
    m := low + high;
    forall w, i | 0 <= w < 16 && 0 <= i < 8
      ensures m[w][i] == LoadWord(inputs[i], 64 * block + 4 * w)
    {
      if w < 8 {
        assert m[w] == low[w];
      } else {
        assert m[w] == high[w - 8];
        assert 64 * block + 32 + 4 * (w - 8) == 64 * block + 4 * w;
      }
    }
    SameRegisters(m, MessageRegisters(inputs, block), 8);
  }

  method LoadMessage16(inputs: seq<seq<Byte>>, block: nat) returns (m: seq<Register>)
    requires |inputs| == 16 && forall i :: 0 <= i < 16 ==> 64 * block + 64 <= |inputs[i]|
    ensures m == MessageRegisters(inputs, block)
  {
    hide LoadWord, LoadZmm, Zmm.At;
    var vecs := seq(16, i requires 0 <= i < 16 => LoadZmm(inputs[i], 64 * block));
    var t := TransposeVecs512(vecs);
    m := seq(16, w requires 0 <= w < 16 => OfZmm(t[w]));
    forall w, i | 0 <= w < 16 && 0 <= i < 16
      ensures m[w][i] == LoadWord(inputs[i], 64 * block + 4 * w)
    {
      assert m[w] == OfZmm(t[w]) && vecs[i] == LoadZmm(inputs[i], 64 * block);
      LoadZmmAt(inputs[i], 64 * block, w);
      assert m[w][i] == t[w].At(i) == vecs[i].At(w);
    }
    SameRegisters(m, MessageRegisters(inputs, block), 16);
  }

  /** The first eight words of every lane, one lane after the other: the registers transposed back. */
  method UnloadLanes(h: seq<Register>, ghost lanes: nat) returns (cvs: seq<Words8>)
    requires |h| == 8 && Wide(h, lanes)
    ensures |cvs| == lanes && forall i :: 0 <= i < lanes ==> cvs[i] == LaneOf(h, i)
  {
    if |h[0]| == 4 {
      cvs := UnloadLanes4(h);
    } else if |h[0]| == 8 {
      cvs := UnloadLanes8(h);
    } else if |h[0]| == 16 {
      cvs := UnloadLanes16(h);
    } else {
      cvs := seq(|h[0]|, i requires 0 <= i < |h[0]| => LaneOf(h, i));
    }
  }

  method UnloadLanes4(h: seq<Register>) returns (cvs: seq<Words8>)
    requires |h| == 8 && Wide(h, 4)
    ensures |cvs| == 4 && forall i :: 0 <= i < 4 ==> cvs[i] == LaneOf(h, i)
  {
    hide VecOf, Column, LaneOf, Stored, Vec.At;
    var t0, t1, t2, t3 := TransposeVecs(VecOf(h[0]), VecOf(h[1]), VecOf(h[2]), VecOf(h[3]));
    var u0, u1, u2, u3 := TransposeVecs(VecOf(h[4]), VecOf(h[5]), VecOf(h[6]), VecOf(h[7]));
    cvs := [Stored(t0, u0), Stored(t1, u1), Stored(t2, u2), Stored(t3, u3)];
    EightWords(h, 0);
    EightWords(h, 1);
    EightWords(h, 2);
    EightWords(h, 3);
  }

  /** Two stores, one after the other. */
  function Stored(a: Vec, b: Vec): (words: Words8)
    ensures forall k :: 0 <= k < 8 ==> words[k] == if k < 4 then a.At(k) else b.At(k - 4)
  {
    OfVec(a) + OfVec(b)
  }

  lemma EightWords(h: seq<Register>, i: nat)
    requires |h| == 8 && Wide(h, 4) && i < 4
    ensures LaneOf(h, i) == Stored(Column(i, VecOf(h[0]), VecOf(h[1]), VecOf(h[2]), VecOf(h[3])),
                                   Column(i, VecOf(h[4]), VecOf(h[5]), VecOf(h[6]), VecOf(h[7])))
  {
    forall k | 0 <= k < 8 ensures VecOf(h[k]).At(i) == h[k][i] {
      VecOfAt(h[k], 0, i);
      assert h[k][0..4] == h[k];
    }
    hide VecOf, Vec.At, Stored, LaneOf, Column;
    var a, b := Column(i, VecOf(h[0]), VecOf(h[1]), VecOf(h[2]), VecOf(h[3])),
                Column(i, VecOf(h[4]), VecOf(h[5]), VecOf(h[6]), VecOf(h[7]));
    var lane, stored := LaneOf(h, i), Stored(a, b);
    forall k | 0 <= k < 8 ensures lane[k] == stored[k] {
      if k < 4 {
        ColumnAt(i, VecOf(h[0]), VecOf(h[1]), VecOf(h[2]), VecOf(h[3]), k);
      } else {
        ColumnAt(i, VecOf(h[4]), VecOf(h[5]), VecOf(h[6]), VecOf(h[7]), k - 4);
      }
    }
  }

  method UnloadLanes8(h: seq<Register>) returns (cvs: seq<Words8>)
    requires |h| == 8 && Wide(h, 8)
    ensures |cvs| == 8 && forall i :: 0 <= i < 8 ==> cvs[i] == LaneOf(h, i)
  {
    hide Ymm.At, YmmOf;
    var vecs := seq(8, k requires 0 <= k < 8 => YmmOf(h[k]));
    var t := TransposeVecs256(vecs);
    cvs := seq(8, i requires 0 <= i < 8 => OfYmm(t[i]));
    forall i | 0 <= i < 8
      ensures cvs[i] == LaneOf(h, i)
    {
      forall k | 0 <= k < 8 ensures cvs[i][k] == h[k][i] {
        assert vecs[k] == YmmOf(h[k]) && cvs[i] == OfYmm(t[i]);
        YmmOfAt(h[k], i);
        assert cvs[i][k] == t[i].At(k) == vecs[k].At(i);
      }
    }
  }

  method UnloadLanes16(h: seq<Register>) returns (cvs: seq<Words8>)
    requires |h| == 8 && Wide(h, 16)
    ensures |cvs| == 16 && forall i :: 0 <= i < 16 ==> cvs[i] == LaneOf(h, i)
  {
    hide Zmm.At, ZmmOf;
    var padded := seq(16, k requires 0 <= k < 16 => if k < 8 then ZmmOf(h[k]) else ZeroZmm());
    var t := TransposeVecs512(padded);
    cvs := seq(16, i requires 0 <= i < 16 => OfZmm(t[i])[..8]);
    forall i | 0 <= i < 16
      ensures cvs[i] == LaneOf(h, i)
    {
      forall k | 0 <= k < 8 ensures cvs[i][k] == h[k][i] {
        assert padded[k] == ZmmOf(h[k]) && cvs[i] == OfZmm(t[i])[..8];
        ZmmOfAt(h[k], i);
        assert cvs[i][k] == t[i].At(k) == padded[k].At(i);
      }
    }
  }

  lemma {:induction false} LoadWordsAt(bytes: seq<Byte>, w: nat)
    requires |bytes| % 4 == 0 && 4 * w < |bytes|
    ensures LoadWords(bytes)[w] == LoadWord(bytes, 4 * w)
    decreases w
  {
    LoadFirst(bytes);
    if w > 0 {
      hide LoadWord, LoadWords;
      LoadWordsAt(bytes[4..], w - 1);
      LoadLater(bytes, 4 * w);
    }
  }

  lemma LoadLater(bytes: seq<Byte>, at: nat)
    requires 4 <= at && at + 4 <= |bytes|
    ensures LoadWord(bytes[4..], at - 4) == LoadWord(bytes, at)
  {
    hide WordOf;
    var rest := bytes[4..];
    assert rest[at - 4] == bytes[at] && rest[at - 3] == bytes[at + 1];
    assert rest[at - 2] == bytes[at + 2] && rest[at - 1] == bytes[at + 3];
  }

  function StartRegisters(h: seq<Register>, low: Register, high: Register, blockLen: nat, flags: bv8, lanes: nat)
    : (v: seq<Register>)
    requires |h| == 8 && Wide(h, lanes) && |low| == |high| == lanes
    ensures |v| == 16 && Wide(v, lanes)
  {
    [h[0], h[1], h[2], h[3], h[4], h[5], h[6], h[7],
     Set1(IV[0], lanes), Set1(IV[1], lanes), Set1(IV[2], lanes), Set1(IV[3], lanes),
     low, high, Set1(LengthWord(blockLen), lanes), Set1(flags as Word, lanes)]
  }

  lemma LaneWords(v: seq<Register>, i: nat)
    requires |v| == 16 && forall k :: 0 <= k < 16 ==> i < |v[k]|
    ensures LaneOf(v, i)
         == [v[0][i], v[1][i], v[2][i], v[3][i], v[4][i], v[5][i], v[6][i], v[7][i],
             v[8][i], v[9][i], v[10][i], v[11][i], v[12][i], v[13][i], v[14][i], v[15][i]]
  {}

  lemma StartLane(h: seq<Register>, low: Register, high: Register, blockLen: nat, flags: bv8, lanes: nat, i: nat,
                  counter: nat)
    requires |h| == 8 && Wide(h, lanes) && |low| == |high| == lanes && i < lanes
    requires low[i] == Low32(counter) && high[i] == High32(counter)
    ensures LaneOf(StartRegisters(h, low, high, blockLen, flags, lanes), i)
         == Start(LaneOf(h, i), counter, blockLen, flags)
  {
    hide Low32, High32, LengthWord;
    var v := StartRegisters(h, low, high, blockLen, flags, lanes);
    var cv := LaneOf(h, i);
    LaneWords(v, i);
    hide LaneOf;
    assert cv[0] == h[0][i] && cv[1] == h[1][i] && cv[2] == h[2][i] && cv[3] == h[3][i];
    assert cv[4] == h[4][i] && cv[5] == h[5][i] && cv[6] == h[6][i] && cv[7] == h[7][i];
  }

  function FinishRegisters(v: seq<Register>): (h: seq<Register>)
    requires |v| == 16 && forall k :: 0 <= k < 16 ==> |v[k]| == |v[0]|
    ensures |h| == 8 && Wide(h, |v[0]|)
  {
    [XorR(v[0], v[8]), XorR(v[1], v[9]), XorR(v[2], v[10]), XorR(v[3], v[11]),
     XorR(v[4], v[12]), XorR(v[5], v[13]), XorR(v[6], v[14]), XorR(v[7], v[15])]
  }

  lemma FinishLane(v: seq<Register>, cv: Words8, lanes: nat, i: nat)
    requires |v| == 16 && Wide(v, lanes) && i < lanes
    ensures LaneOf(FinishRegisters(v), i) == Finish(LaneOf(v, i), cv)[..8]
  {
    hide Xor;
  }

  /** The second half too, as extended output has it. */
  function FinishAll(v: seq<Register>, h: seq<Register>): (w: seq<Register>)
    requires |v| == 16 && |h| == 8 && Wide(v, |v[0]|) && Wide(h, |v[0]|)
    ensures |w| == 16 && Wide(w, |v[0]|)
  {
    FinishRegisters(v)
    + [XorR(v[8], h[0]), XorR(v[9], h[1]), XorR(v[10], h[2]), XorR(v[11], h[3]),
       XorR(v[12], h[4]), XorR(v[13], h[5]), XorR(v[14], h[6]), XorR(v[15], h[7])]
  }

  lemma FinishAllLane(v: seq<Register>, h: seq<Register>, lanes: nat, i: nat)
    requires |v| == 16 && |h| == 8 && Wide(v, lanes) && Wide(h, lanes) && i < lanes
    ensures LaneOf(FinishAll(v, h), i) == Finish(LaneOf(v, i), LaneOf(h, i))
  {
    hide Xor;
    LaneWords(FinishAll(v, h), i);
    hide LaneOf;
  }

  /** Seven rounds on all lanes. */
  method RoundsOnLanes(h: seq<Register>, m: seq<Register>, low: Register, high: Register, blockLen: nat, flags: bv8,
                       lanes: nat, ghost counters: seq<nat>)
    returns (state: seq<Register>)
    requires |h| == 8 && |m| == 16 && Wide(h, lanes) && Wide(m, lanes) && |low| == |high| == |counters| == lanes > 0
    requires forall i :: 0 <= i < lanes ==> low[i] == Low32(counters[i]) && high[i] == High32(counters[i])
    ensures |state| == 16 && Wide(state, lanes)
    ensures forall i :: 0 <= i < lanes ==>
              LaneOf(state, i) == Rounds(Start(LaneOf(h, i), counters[i], blockLen, flags), LaneOf(m, i), 7)
  {
    hide Start, Round, StartRegisters, Low32, High32;
    var start := StartRegisters(h, low, high, blockLen, flags, lanes);
    forall i | 0 <= i < lanes
      ensures LaneOf(start, i) == Start(LaneOf(h, i), counters[i], blockLen, flags)
    {
      StartLane(h, low, high, blockLen, flags, lanes, i, counters[i]);
    }
    var v := new Register[16](k requires 0 <= k < 16 => start[k]);
    assert v[..] == start;
    var r := 0;
    while r < 7
      invariant r <= 7 && v.Length == 16 && Wide(v[..], lanes)
      invariant forall i :: 0 <= i < lanes ==> LaneOf(v[..], i) == Rounds(LaneOf(start, i), LaneOf(m, i), r)
    {
      RoundLanes(v, m, r, lanes);
      r := r + 1;
    }
    state := v[..];
  }

  /** One compression of a block on all lanes. */
  method CompressLanes(h: seq<Register>, m: seq<Register>, low: Register, high: Register, flags: bv8, lanes: nat,
                       ghost counters: seq<nat>)
    returns (next: seq<Register>)
    requires |h| == 8 && |m| == 16 && Wide(h, lanes) && Wide(m, lanes) && |low| == |high| == |counters| == lanes > 0
    requires forall i :: 0 <= i < lanes ==> low[i] == Low32(counters[i]) && high[i] == High32(counters[i])
    ensures |next| == 8 && Wide(next, lanes)
    ensures forall i :: 0 <= i < lanes ==>
              LaneOf(next, i) == Compress(LaneOf(h, i), LaneOf(m, i), counters[i], 64, flags)[..8]
  {
    hide Start, Rounds, Finish, FinishRegisters, Low32, High32, LaneOf;
    var v := RoundsOnLanes(h, m, low, high, 64, flags, lanes, counters);
    next := FinishRegisters(v);
    forall i | 0 <= i < lanes
      ensures LaneOf(next, i) == Compress(LaneOf(h, i), LaneOf(m, i), counters[i], 64, flags)[..8]
    {
      FinishLane(v, LaneOf(h, i), lanes, i);
    }
  }

  /** One compression with all sixteen output words of every lane. */
  method CompressAllLanes(h: seq<Register>, m: seq<Register>, low: Register, high: Register, blockLen: nat,
      flags: bv8,
                          lanes: nat, ghost counters: seq<nat>)
    returns (words: seq<Register>)
    requires |h| == 8 && |m| == 16 && Wide(h, lanes) && Wide(m, lanes) && |low| == |high| == |counters| == lanes > 0
    requires forall i :: 0 <= i < lanes ==> low[i] == Low32(counters[i]) && high[i] == High32(counters[i])
    ensures |words| == 16 && Wide(words, lanes)
    ensures forall i :: 0 <= i < lanes ==>
              LaneOf(words, i) == Compress(LaneOf(h, i), LaneOf(m, i), counters[i], blockLen, flags)
  {
    hide Start, Rounds, Finish, FinishAll, Low32, High32, LaneOf;
    var v := RoundsOnLanes(h, m, low, high, blockLen, flags, lanes, counters);
    words := FinishAll(v, h);
    forall i | 0 <= i < lanes
      ensures LaneOf(words, i) == Compress(LaneOf(h, i), LaneOf(m, i), counters[i], blockLen, flags)
    {
      FinishAllLane(v, h, lanes, i);
    }
  }

  /** The implementations: the portable one hashes one input at a time. */
  datatype CounterCode = Portable | Sse2 | Avx512 {
    function MaxLanes(): nat {
      match this
      case Portable => 1
      case Sse2 => 4
      case Avx512 => 16
    }
  }

  method CounterRegisters(code: CounterCode, counter: nat, increment: bool, lanes: nat)
    returns (low: Register, high: Register)
    requires counter < U64_LIMIT && lanes <= code.MaxLanes()
    ensures |low| == |high| == lanes
    ensures forall i :: 0 <= i < lanes ==>
              && low[i] == Low32(InputCounter(counter, increment, i))
              && high[i] == High32(InputCounter(counter, increment, i))
  {
    hide InputCounter;
    var l, h;
    if code.Sse2? {
      l, h := LoadCountersSse2(counter, increment, lanes);
    } else if lanes > 8 {
      l, h := LoadCountersAvx512(counter, increment, lanes);
    } else {
      l, h := LoadCounters64(counter, increment, lanes);
    }
    forall i | 0 <= i < lanes
      ensures InputCounter(counter, increment, i) % U32_LIMIT == l[i]
          && InputCounter(counter, increment, i) / U32_LIMIT % U32_LIMIT == h[i]
    {
      Halves(InputCounter(counter, increment, i), l[i], h[i]);
    }
    hide ToWord, InputCounter;
    low := seq(lanes, i requires 0 <= i < lanes => ToWord(l[i]));
    high := seq(lanes, i requires 0 <= i < lanes => ToWord(h[i]));
  }

  /** Every lane has chained the first `done` blocks of its input. */
  ghost predicate Chained(j: Job, inputs: seq<seq<Byte>>, done: nat, h: seq<Register>, counters: seq<nat>) {
    && |h| == 8 && Wide(h, |inputs|) && |counters| == |inputs|
    && (forall i :: 0 <= i < |inputs| ==> 64 * done <= |inputs[i]|)
    && (forall i :: 0 <= i < |inputs| ==> LaneOf(h, i) == HashBlocks(j, inputs[i], done, counters[i]))
  }

  /** All lanes through all blocks: lane i is hashed with counter + i, or with the counter itself. */
  method HashLanes(j: Job, code: CounterCode, inputs: seq<seq<Byte>>, counter: nat, increment: bool)
    returns (outs: seq<Cv>)
    requires j.compress == Blake3() && counter < U64_LIMIT
    requires 0 < |inputs| <= code.MaxLanes()
    requires forall i :: 0 <= i < |inputs| ==> 64 * j.blocks <= |inputs[i]|
    ensures |outs| == |inputs|
    ensures forall i :: 0 <= i < |inputs| ==> outs[i] == HashInput(j, inputs[i], InputCounter(counter, increment, i))
  {
    hide Low32, High32, InputCounter, HashInput;
    var low, high := CounterRegisters(code, counter, increment, |inputs|);
    ghost var counters := LaneCounters(counter, increment, |inputs|);
    var h := ChainLanes(j, inputs, low, high, counters);
    outs := StoreLanes(j, inputs, h, counters);
  }

  ghost function LaneCounters(counter: nat, increment: bool, lanes: nat): (cs: seq<nat>)
    ensures |cs| == lanes && forall i :: 0 <= i < lanes ==> cs[i] == InputCounter(counter, increment, i)
  {
    seq(lanes, i requires 0 <= i => InputCounter(counter, increment, i))
  }

  method ChainLanes(j: Job, inputs: seq<seq<Byte>>, low: Register, high: Register, ghost counters: seq<nat>)
    returns (h: seq<Register>)
    requires j.compress == Blake3() && |low| == |high| == |inputs| == |counters| > 0
    requires forall i :: 0 <= i < |inputs| ==> 64 * j.blocks <= |inputs[i]|
    requires forall i :: 0 <= i < |inputs| ==> low[i] == Low32(counters[i]) && high[i] == High32(counters[i])
    ensures Chained(j, inputs, j.blocks, h, counters)
  {
    hide Low32, High32, HashBlocks, LaneOf;
    h := KeyRegisters(j, inputs, counters);
    var block: nat := 0;
    while block < j.blocks
      invariant block <= j.blocks && Chained(j, inputs, block, h, counters)
    {
      h := HashBlockLanes(j, inputs, block, h, low, high, counters);
      block := block + 1;
    }
  }

  method StoreLanes(j: Job, inputs: seq<seq<Byte>>, h: seq<Register>, ghost counters: seq<nat>) returns
      (outs: seq<Cv>)
    requires Chained(j, inputs, j.blocks, h, counters)
    ensures |outs| == |inputs|
    ensures forall i :: 0 <= i < |inputs| ==> outs[i] == HashInput(j, inputs[i], counters[i])
  {
    hide StoreWords, HashBlocks, LaneOf;
    var cvs := UnloadLanes(h, |inputs|);
    outs := seq(|inputs|, i requires 0 <= i < |inputs| => StoreWords(cvs[i]));
  }

  method KeyRegisters(j: Job, inputs: seq<seq<Byte>>, ghost counters: seq<nat>) returns (h: seq<Register>)
    requires |counters| == |inputs|
    ensures Chained(j, inputs, 0, h, counters)
  {
    h := seq(8, k requires 0 <= k < 8 => Set1(j.key[k], |inputs|));
  }

  method HashBlockLanes(j: Job, inputs: seq<seq<Byte>>, block: nat, h: seq<Register>, low: Register, high: Register,
                        ghost counters: seq<nat>)
    returns (next: seq<Register>)
    requires j.compress == Blake3() && forall i :: 0 <= i < |inputs| ==> 64 * block + 64 <= |inputs[i]|
    requires |low| == |high| == |inputs| > 0 && Chained(j, inputs, block, h, counters)
    requires forall i :: 0 <= i < |inputs| ==> low[i] == Low32(counters[i]) && high[i] == High32(counters[i])
    ensures Chained(j, inputs, block + 1, next, counters)
  {
    hide Low32, High32, Compress, MessageRegisters, HashBlocks, LoadWords, BlockFlags;
    var flags := BlockFlags(j, block);
    var m := LoadMessage(inputs, block);
    next := CompressLanes(h, m, low, high, flags, |inputs|, counters);
    forall i | 0 <= i < |inputs|
      ensures LaneOf(next, i) == HashBlocks(j, inputs[i], block + 1, counters[i])
    {
      MessageLane(inputs, block, i);
      BlockStep(j, inputs[i], block, counters[i]);
    }
  }

  lemma BlockStep(j: Job, input: seq<Byte>, block: nat, counter: nat)
    requires j.compress == Blake3() && 64 * block + 64 <= |input|
    ensures HashBlocks(j, input, block + 1, counter)
         == Compress(HashBlocks(j, input, block, counter), LoadWords(input[64 * block..64 * block + 64]), counter, 64,
                     BlockFlags(j, block))[..8]
  {
    hide Compress, BlockFlags, LoadWords;
  }
}
