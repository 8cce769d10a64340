/** Transposing words between registers: four registers of four words, eight of eight, and sixteen of
    sixteen, by unpacking and shuffling as the vector code does it. */
module Transposes {
  import opened Spec
  import opened RowForm

  /** Lane j of four vectors. */
  function Column(j: nat, a: Vec, b: Vec, c: Vec, d: Vec): Vec
    requires j < 4
  {
    Vec(a.At(j), b.At(j), c.At(j), d.At(j))
  }

  lemma Unpacked(a: Vec, b: Vec, c: Vec, d: Vec)
    ensures UnpackLo64(UnpackLo32(a, b), UnpackLo32(c, d)) == Column(0, a, b, c, d)
    ensures UnpackHi64(UnpackLo32(a, b), UnpackLo32(c, d)) == Column(1, a, b, c, d)
    ensures UnpackLo64(UnpackHi32(a, b), UnpackHi32(c, d)) == Column(2, a, b, c, d)
    ensures UnpackHi64(UnpackHi32(a, b), UnpackHi32(c, d)) == Column(3, a, b, c, d)
  {}

  /** 4x4 transposition by unpacking: 32-bit lanes first, then 64-bit lanes. */
  method TransposeVecs(a: Vec, b: Vec, c: Vec, d: Vec) returns (r0: Vec, r1: Vec, r2: Vec, r3: Vec)
    ensures r0 == Column(0, a, b, c, d) && r1 == Column(1, a, b, c, d)
    ensures r2 == Column(2, a, b, c, d) && r3 == Column(3, a, b, c, d)
  {
    var ab01, ab23 := UnpackLo32(a, b), UnpackHi32(a, b);
    var cd01, cd23 := UnpackLo32(c, d), UnpackHi32(c, d);
    r0, r1 := UnpackLo64(ab01, cd01), UnpackHi64(ab01, cd01);
    r2, r3 := UnpackLo64(ab23, cd23), UnpackHi64(ab23, cd23);
  }

  lemma ColumnAt(j: nat, a: Vec, b: Vec, c: Vec, d: Vec, k: nat)
    requires j < 4 && k < 4
    ensures Column(j, a, b, c, d).At(k) == (if k == 0 then a else if k == 1 then b else if k == 2 then c else d).At(j)
  {}

  /** A 256-bit register: two halves of four words. */
  datatype Ymm = Ymm(q0: Vec, q1: Vec) {
    function At(i: nat): Word
      requires i < 8
    {
      if i < 4 then q0.At(i) else q1.At(i - 4)
    }
  }

  /** Interleaving 32-bit and then 64-bit lanes of four registers, in both halves. */
  method TransposeHalves(a: Ymm, b: Ymm, c: Ymm, d: Ymm) returns (t0: Ymm, t1: Ymm, t2: Ymm, t3: Ymm)
    ensures t0 == Ymm(Column(0, a.q0, b.q0, c.q0, d.q0), Column(0, a.q1, b.q1, c.q1, d.q1))
    ensures t1 == Ymm(Column(1, a.q0, b.q0, c.q0, d.q0), Column(1, a.q1, b.q1, c.q1, d.q1))
    ensures t2 == Ymm(Column(2, a.q0, b.q0, c.q0, d.q0), Column(2, a.q1, b.q1, c.q1, d.q1))
    ensures t3 == Ymm(Column(3, a.q0, b.q0, c.q0, d.q0), Column(3, a.q1, b.q1, c.q1, d.q1))
  {
    Unpacked(a.q0, b.q0, c.q0, d.q0);
    Unpacked(a.q1, b.q1, c.q1, d.q1);
    hide UnpackLo32, UnpackHi32, UnpackLo64, UnpackHi64, Column;
    var ab0145 := Ymm(UnpackLo32(a.q0, b.q0), UnpackLo32(a.q1, b.q1));
    var ab2367 := Ymm(UnpackHi32(a.q0, b.q0), UnpackHi32(a.q1, b.q1));
    var cd0145 := Ymm(UnpackLo32(c.q0, d.q0), UnpackLo32(c.q1, d.q1));
    var cd2367 := Ymm(UnpackHi32(c.q0, d.q0), UnpackHi32(c.q1, d.q1));
    t0 := Ymm(UnpackLo64(ab0145.q0, cd0145.q0), UnpackLo64(ab0145.q1, cd0145.q1));
    t1 := Ymm(UnpackHi64(ab0145.q0, cd0145.q0), UnpackHi64(ab0145.q1, cd0145.q1));
    t2 := Ymm(UnpackLo64(ab2367.q0, cd2367.q0), UnpackLo64(ab2367.q1, cd2367.q1));
    t3 := Ymm(UnpackHi64(ab2367.q0, cd2367.q0), UnpackHi64(ab2367.q1, cd2367.q1));
  }

  /** Register r of the transposed eight. */
  function Transposed8(v: seq<Ymm>, r: nat): Ymm
    requires |v| == 8 && r < 8
  {
    if r < 4 then Ymm(Column(r, v[0].q0, v[1].q0, v[2].q0, v[3].q0), Column(r, v[4].q0, v[5].q0, v[6].q0, v[7].q0))
    else Ymm(Column(r - 4, v[0].q1, v[1].q1, v[2].q1, v[3].q1), Column(r - 4, v[4].q1, v[5].q1, v[6].q1, v[7].q1))
  }

  lemma Transposed8At(v: seq<Ymm>, r: nat, i: nat)
    requires |v| == 8 && r < 8 && i < 8
    ensures Transposed8(v, r).At(i) == v[i].At(r)
  {
    hide Column, Vec.At;
    var j, k, g := r % 4, i % 4, i / 4;
    if r < 4 {
      ColumnAt(j, v[4 * g].q0, v[4 * g + 1].q0, v[4 * g + 2].q0, v[4 * g + 3].q0, k);
    } else {
      ColumnAt(j, v[4 * g].q1, v[4 * g + 1].q1, v[4 * g + 2].q1, v[4 * g + 3].q1, k);
    }
  }

  /** 8x8 transposition: the 128-bit lanes last. */
  method TransposeVecs256(v: seq<Ymm>) returns (t: seq<Ymm>)
    requires |v| == 8
    ensures |t| == 8 && forall r, i :: 0 <= r < 8 && 0 <= i < 8 ==> t[r].At(i) == v[i].At(r)
  {
    hide Column, Ymm.At;
    var abcd0, abcd1, abcd2, abcd3 := TransposeHalves(v[0], v[1], v[2], v[3]);
    var efgh0, efgh1, efgh2, efgh3 := TransposeHalves(v[4], v[5], v[6], v[7]);
    t := [Ymm(abcd0.q0, efgh0.q0), Ymm(abcd1.q0, efgh1.q0), Ymm(abcd2.q0, efgh2.q0), Ymm(abcd3.q0, efgh3.q0),
          Ymm(abcd0.q1, efgh0.q1), Ymm(abcd1.q1, efgh1.q1), Ymm(abcd2.q1, efgh2.q1), Ymm(abcd3.q1, efgh3.q1)];
    assert forall r :: 0 <= r < 8 ==> t[r] == Transposed8(v, r);
    hide Transposed8;
    forall r, i | 0 <= r < 8 && 0 <= i < 8
      ensures t[r].At(i) == v[i].At(r)
    {
      Transposed8At(v, r, i);
    }
  }

  /** A 512-bit register: four quarters of four words. */
  datatype Zmm = Zmm(q0: Vec, q1: Vec, q2: Vec, q3: Vec) {
    function Quarter(k: nat): Vec
      requires k < 4
    {
      if k == 0 then q0 else if k == 1 then q1 else if k == 2 then q2 else q3
    }

    function At(i: nat): Word
      requires i < 16
    {
      Quarter(i / 4).At(i % 4)
    }
  }

  function ZeroZmm(): Zmm {
    var zero := Vec(0, 0, 0, 0);
    Zmm(zero, zero, zero, zero)
  }

  // The unpacks work in every quarter by itself.

  function Lo32(a: Zmm, b: Zmm): Zmm {
    Zmm(UnpackLo32(a.q0, b.q0), UnpackLo32(a.q1, b.q1), UnpackLo32(a.q2, b.q2), UnpackLo32(a.q3, b.q3))
  }

  function Hi32(a: Zmm, b: Zmm): Zmm {
    Zmm(UnpackHi32(a.q0, b.q0), UnpackHi32(a.q1, b.q1), UnpackHi32(a.q2, b.q2), UnpackHi32(a.q3, b.q3))
  }

  function Lo64(a: Zmm, b: Zmm): Zmm {
    Zmm(UnpackLo64(a.q0, b.q0), UnpackLo64(a.q1, b.q1), UnpackLo64(a.q2, b.q2), UnpackLo64(a.q3, b.q3))
  }

  function Hi64(a: Zmm, b: Zmm): Zmm {
    Zmm(UnpackHi64(a.q0, b.q0), UnpackHi64(a.q1, b.q1), UnpackHi64(a.q2, b.q2), UnpackHi64(a.q3, b.q3))
  }

  // _mm512_shuffle_i32x4 with 0x88 and with 0xdd: the even and the odd quarters.

  function Lo128(a: Zmm, b: Zmm): Zmm {
    Zmm(a.q0, a.q2, b.q0, b.q2)
  }

  function Hi128(a: Zmm, b: Zmm): Zmm {
    Zmm(a.q1, a.q3, b.q1, b.q3)
  }

  /** Lane j of every quarter of four registers. */
  function Columns4(j: nat, a: Zmm, b: Zmm, c: Zmm, d: Zmm): Zmm
    requires j < 4
  {
    Zmm(Column(j, a.q0, b.q0, c.q0, d.q0), Column(j, a.q1, b.q1, c.q1, d.q1),
        Column(j, a.q2, b.q2, c.q2, d.q2), Column(j, a.q3, b.q3, c.q3, d.q3))
  }

  /** Interleaving 32-bit and then 64-bit lanes of four registers. */
  method TransposeQuarters(a: Zmm, b: Zmm, c: Zmm, d: Zmm) returns (t0: Zmm, t1: Zmm, t2: Zmm, t3: Zmm)
    ensures t0 == Columns4(0, a, b, c, d) && t1 == Columns4(1, a, b, c, d)
    ensures t2 == Columns4(2, a, b, c, d) && t3 == Columns4(3, a, b, c, d)
  {
    Unpacked(a.q0, b.q0, c.q0, d.q0);
    Unpacked(a.q1, b.q1, c.q1, d.q1);
    Unpacked(a.q2, b.q2, c.q2, d.q2);
    Unpacked(a.q3, b.q3, c.q3, d.q3);
    hide UnpackLo32, UnpackHi32, UnpackLo64, UnpackHi64, Column;
    var ab0, ab2 := Lo32(a, b), Hi32(a, b);
    var cd0, cd2 := Lo32(c, d), Hi32(c, d);
    t0, t1 := Lo64(ab0, cd0), Hi64(ab0, cd0);
    t2, t3 := Lo64(ab2, cd2), Hi64(ab2, cd2);
  }

  /** Interleaving 128-bit lanes twice: quarter q of each of four registers. */
  method TransposeLanes(a: Zmm, b: Zmm, c: Zmm, d: Zmm) returns (s0: Zmm, s1: Zmm, s2: Zmm, s3: Zmm)
    ensures s0 == Zmm(a.q0, b.q0, c.q0, d.q0) && s1 == Zmm(a.q1, b.q1, c.q1, d.q1)
    ensures s2 == Zmm(a.q2, b.q2, c.q2, d.q2) && s3 == Zmm(a.q3, b.q3, c.q3, d.q3)
  {
    var ab0, ab4, cd0, cd4 := Lo128(a, b), Hi128(a, b), Lo128(c, d), Hi128(c, d);
    s0, s1, s2, s3 := Lo128(ab0, cd0), Lo128(ab4, cd4), Hi128(ab0, cd0), Hi128(ab4, cd4);
  }

  /** Register r of the transposed sixteen. */
  function Transposed(v: seq<Zmm>, r: nat): Zmm
    requires |v| == 16 && r < 16
  {
    var q, j := r / 4, r % 4;
    Zmm(Columns4(j, v[0], v[1], v[2], v[3]).Quarter(q), Columns4(j, v[4], v[5], v[6], v[7]).Quarter(q),
        Columns4(j, v[8], v[9], v[10], v[11]).Quarter(q), Columns4(j, v[12], v[13], v[14], v[15]).Quarter(q))
  }

  lemma AtSplit(z: Zmm, q: nat, j: nat)
    requires q < 4 && j < 4
    ensures z.At(4 * q + j) == z.Quarter(q).At(j)
  {
    assert (4 * q + j) / 4 == q && (4 * q + j) % 4 == j;
  }

  lemma TransposedQuarter(v: seq<Zmm>, q: nat, j: nat, g: nat)
    requires |v| == 16 && q < 4 && j < 4 && g < 4
    ensures Transposed(v, 4 * q + j).Quarter(g)
      == Columns4(j, v[4 * g], v[4 * g + 1], v[4 * g + 2], v[4 * g + 3]).Quarter(q)
  {
    hide Columns4;
    assert (4 * q + j) / 4 == q && (4 * q + j) % 4 == j;
  }

  lemma TransposedAt(v: seq<Zmm>, q: nat, j: nat, g: nat, k: nat)
    requires |v| == 16 && q < 4 && j < 4 && g < 4 && k < 4
    ensures Transposed(v, 4 * q + j).At(4 * g + k) == v[4 * g + k].At(4 * q + j)
  {
    hide Transposed, Columns4, Column, Vec.At, Zmm.At, Zmm.Quarter;
    var a, b, c, d := v[4 * g], v[4 * g + 1], v[4 * g + 2], v[4 * g + 3];
    AtSplit(Transposed(v, 4 * q + j), g, k);
    TransposedQuarter(v, q, j, g);
    ColumnsQuarter(j, a, b, c, d, q);
    ColumnAt(j, a.Quarter(q), b.Quarter(q), c.Quarter(q), d.Quarter(q), k);
    AtSplit(v[4 * g + k], q, j);
    assert v[4 * g + k] == (if k == 0 then a else if k == 1 then b else if k == 2 then c else d);
  }

  lemma ColumnsQuarter(j: nat, a: Zmm, b: Zmm, c: Zmm, d: Zmm, q: nat)
    requires j < 4 && q < 4
    ensures Columns4(j, a, b, c, d).Quarter(q) == Column(j, a.Quarter(q), b.Quarter(q), c.Quarter(q), d.Quarter(q))
  {}

  /** 16x16 transposition. */
  method TransposeVecs512(v: seq<Zmm>) returns (t: seq<Zmm>)
    requires |v| == 16
    ensures |t| == 16 && forall r, i :: 0 <= r < 16 && 0 <= i < 16 ==> t[r].At(i) == v[i].At(r)
  {
    hide Transposed, Zmm.At;
    t := InterleaveAll(v);
    forall r, i | 0 <= r < 16 && 0 <= i < 16
      ensures t[r].At(i) == v[i].At(r)
    {
      TransposedAt(v, r / 4, r % 4, i / 4, i % 4);
      assert 4 * (r / 4) + r % 4 == r && 4 * (i / 4) + i % 4 == i;
    }
  }

  method InterleaveAll(v: seq<Zmm>) returns (t: seq<Zmm>)
    requires |v| == 16
    ensures |t| == 16 && forall r :: 0 <= r < 16 ==> t[r] == Transposed(v, r)
  {
    hide Columns4;
    var abcd0, abcd1, abcd2, abcd3 := TransposeQuarters(v[0], v[1], v[2], v[3]);
    var efgh0, efgh1, efgh2, efgh3 := TransposeQuarters(v[4], v[5], v[6], v[7]);
    var ijkl0, ijkl1, ijkl2, ijkl3 := TransposeQuarters(v[8], v[9], v[10], v[11]);
    var mnop0, mnop1, mnop2, mnop3 := TransposeQuarters(v[12], v[13], v[14], v[15]);
    var t0, t4, t8, t12 := TransposeLanes(abcd0, efgh0, ijkl0, mnop0);
    var t1, t5, t9, t13 := TransposeLanes(abcd1, efgh1, ijkl1, mnop1);
    var t2, t6, t10, t14 := TransposeLanes(abcd2, efgh2, ijkl2, mnop2);
    var t3, t7, t11, t15 := TransposeLanes(abcd3, efgh3, ijkl3, mnop3);
    t := [t0, t1, t2, t3, t4, t5, t6, t7, t8, t9, t10, t11, t12, t13, t14, t15];
    assert t0 == Transposed(v, 0) && t1 == Transposed(v, 1) && t2 == Transposed(v, 2) && t3 == Transposed(v, 3);
    assert t4 == Transposed(v, 4) && t5 == Transposed(v, 5) && t6 == Transposed(v, 6) && t7 == Transposed(v, 7);
    assert t8 == Transposed(v, 8) && t9 == Transposed(v, 9) && t10 == Transposed(v, 10) && t11 == Transposed(v, 11);
    assert t12 == Transposed(v, 12) && t13 == Transposed(v, 13) && t14 == Transposed(v, 14)
        && t15 == Transposed(v, 15);
  }

  // ---- To and from memory and rows of words ----

  /** _mm_loadu_si128: four words. */
  function LoadVec(bytes: seq<Byte>, at: nat): Vec
    requires at + 16 <= |bytes|
  {
    Vec(LoadWord(bytes, at), LoadWord(bytes, at + 4), LoadWord(bytes, at + 8), LoadWord(bytes, at + 12))
  }

  lemma LoadVecAt(bytes: seq<Byte>, at: nat, j: nat)
    requires at + 16 <= |bytes| && j < 4
    ensures LoadVec(bytes, at).At(j) == LoadWord(bytes, at + 4 * j)
  {
    hide LoadWord;
  }

  /** _mm256_loadu_si256: eight words. */
  function LoadYmm(bytes: seq<Byte>, at: nat): Ymm
    requires at + 32 <= |bytes|
  {
    Ymm(LoadVec(bytes, at), LoadVec(bytes, at + 16))
  }

  lemma LoadYmmAt(bytes: seq<Byte>, at: nat, w: nat)
    requires at + 32 <= |bytes| && w < 8
    ensures LoadYmm(bytes, at).At(w) == LoadWord(bytes, at + 4 * w)
  {
    hide LoadWord, LoadVec;
    if w < 4 {
      LoadVecAt(bytes, at, w);
    } else {
      LoadVecAt(bytes, at + 16, w - 4);
      assert at + 16 + 4 * (w - 4) == at + 4 * w;
    }
  }

  /** _mm512_loadu_si512: sixteen words. */
  function LoadZmm(bytes: seq<Byte>, at: nat): Zmm
    requires at + 64 <= |bytes|
  {
    Zmm(LoadVec(bytes, at), LoadVec(bytes, at + 16), LoadVec(bytes, at + 32), LoadVec(bytes, at + 48))
  }

  lemma LoadZmmAt(bytes: seq<Byte>, at: nat, w: nat)
    requires at + 64 <= |bytes| && w < 16
    ensures LoadZmm(bytes, at).At(w) == LoadWord(bytes, at + 4 * w)
  {
    hide LoadWord, LoadVec;
    var q, j := w / 4, w % 4;
    assert LoadZmm(bytes, at).Quarter(q) == LoadVec(bytes, at + 16 * q);
    LoadVecAt(bytes, at + 16 * q, j);
    assert at + 16 * q + 4 * j == at + 4 * w;
  }

  function VecOf(r: seq<Word>): Vec
    requires |r| == 4
  {
    Vec(r[0], r[1], r[2], r[3])
  }

  function OfVec(v: Vec): (r: seq<Word>)
    ensures |r| == 4 && forall i :: 0 <= i < 4 ==> r[i] == v.At(i)
  {
    [v.l0, v.l1, v.l2, v.l3]
  }

  function ZmmOf(r: seq<Word>): Zmm
    requires |r| == 16
  {
    Zmm(VecOf(r[0..4]), VecOf(r[4..8]), VecOf(r[8..12]), VecOf(r[12..16]))
  }

  lemma ZmmOfAt(r: seq<Word>, i: nat)
    requires |r| == 16 && i < 16
    ensures ZmmOf(r).At(i) == r[i]
  {
    var q, j := i / 4, i % 4;
    assert ZmmOf(r).Quarter(q) == VecOf(r[4 * q..4 * q + 4]);
    AtSplit(ZmmOf(r), q, j);
    VecOfAt(r, 4 * q, j);
  }

  lemma VecOfAt(r: seq<Word>, lo: nat, j: nat)
    requires lo + 4 <= |r| && j < 4
    ensures VecOf(r[lo..lo + 4]).At(j) == r[lo + j]
  {}

  function OfZmm(z: Zmm): (r: seq<Word>)
    ensures |r| == 16 && forall i :: 0 <= i < 16 ==> r[i] == z.At(i)
  {
    seq(16, i requires 0 <= i < 16 => z.At(i))
  }

  function YmmOf(r: seq<Word>): Ymm
    requires |r| == 8
  {
    Ymm(VecOf(r[0..4]), VecOf(r[4..8]))
  }

  lemma YmmOfAt(r: seq<Word>, i: nat)
    requires |r| == 8 && i < 8
    ensures YmmOf(r).At(i) == r[i]
  {
    hide VecOf, Vec.At;
    if i < 4 { VecOfAt(r, 0, i); } else { VecOfAt(r, 4, i - 4); }
  }

  function OfYmm(y: Ymm): (r: seq<Word>)
    ensures |r| == 8 && forall i :: 0 <= i < 8 ==> r[i] == y.At(i)
  {
    OfVec(y.q0) + OfVec(y.q1)
  }
}
