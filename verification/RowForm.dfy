/** The SSE2 compression: the state as four rows of four lanes, the second row left in place when the
    others are rotated, and the message words kept in the lanes where the next round needs them. */
module RowForm {
  import opened Spec
  import opened Compression

  /** A 128-bit register as four 32-bit lanes, lowest first. */
  datatype Vec = Vec(l0: Word, l1: Word, l2: Word, l3: Word) {
    function At(i: nat): Word
      requires i < 4
    {
      if i == 0 then l0 else if i == 1 then l1 else if i == 2 then l2 else l3
    }
  }

  datatype Rows = Rows(r0: Vec, r1: Vec, r2: Vec, r3: Vec)

  function AddV(a: Vec, b: Vec): Vec {
    Vec(Add(a.l0, b.l0), Add(a.l1, b.l1), Add(a.l2, b.l2), Add(a.l3, b.l3))
  }

  /** Two additions in a row. */
  function SumV(a: Vec, b: Vec, c: Vec): Vec {
    Vec(Sum(a.l0, b.l0, c.l0), Sum(a.l1, b.l1, c.l1), Sum(a.l2, b.l2, c.l2), Sum(a.l3, b.l3, c.l3))
  }

  function XorV(a: Vec, b: Vec): Vec {
    Vec(Xor(a.l0, b.l0), Xor(a.l1, b.l1), Xor(a.l2, b.l2), Xor(a.l3, b.l3))
  }

  /** Rotation by 16: the two 16-bit halves of every lane change places. */
  function SwapHalves(w: Word): Word {
    (((w & 0xffff) as bv16) as Word << 16) | (((w >> 16) & 0xffff) as bv16) as Word
  }

  /** The other rotations: two shifts, combined with exclusive or. */
  function ShiftXor(w: Word, c: nat): Word
    requires 0 < c < 32
  {
    (w >> c) ^ (w << (32 - c))
  }

  function RotLane(w: Word, c: nat): Word
    requires 0 < c < 32
  {
    if c == 16 then SwapHalves(w) else ShiftXor(w, c)
  }

  function RotV(v: Vec, c: nat): Vec
    requires 0 < c < 32
  {
    Vec(RotLane(v.l0, c), RotLane(v.l1, c), RotLane(v.l2, c), RotLane(v.l3, c))
  }

  /** _mm_shuffle_epi32 with _MM_SHUFFLE(i3, i2, i1, i0). */
  function ShuffleEpi32(v: Vec, i3: nat, i2: nat, i1: nat, i0: nat): Vec
    requires i3 < 4 && i2 < 4 && i1 < 4 && i0 < 4
  {
    Vec(v.At(i0), v.At(i1), v.At(i2), v.At(i3))
  }

  /** _mm_shuffle_ps: two lanes from each operand. */
  function ShufflePs(a: Vec, b: Vec, i3: nat, i2: nat, i1: nat, i0: nat): Vec
    requires i3 < 4 && i2 < 4 && i1 < 4 && i0 < 4
  {
    Vec(a.At(i0), a.At(i1), b.At(i2), b.At(i3))
  }

  function UnpackLo64(a: Vec, b: Vec): Vec { Vec(a.l0, a.l1, b.l0, b.l1) }

  function UnpackHi64(a: Vec, b: Vec): Vec { Vec(a.l2, a.l3, b.l2, b.l3) }

  function UnpackLo32(a: Vec, b: Vec): Vec { Vec(a.l0, b.l0, a.l1, b.l1) }

  function UnpackHi32(a: Vec, b: Vec): Vec { Vec(a.l2, b.l2, a.l3, b.l3) }

  /** The mask of one 16-bit lane: all ones if the lane's bit is set in the immediate. */
  function LaneMask(imm: bv16, bit: bv16): bv16 {
    if imm & bit == bit then 0xffff else 0
  }

  /** One 32-bit lane of the emulated blend: two 16-bit lanes, each masked. */
  function BlendLane(a: Word, b: Word, imm: bv16, lowBit: bv16, highBit: bv16): Word {
    var mask := LaneMask(imm, lowBit) as Word | (LaneMask(imm, highBit) as Word << 16);
    (mask & b) | (!mask & a)
  }

  function BlendEpi16(a: Vec, b: Vec, imm: bv16): Vec {
    Vec(BlendLane(a.l0, b.l0, imm, 0x01, 0x02), BlendLane(a.l1, b.l1, imm, 0x04, 0x08),
        BlendLane(a.l2, b.l2, imm, 0x10, 0x20), BlendLane(a.l3, b.l3, imm, 0x40, 0x80))
  }

  lemma BlendCC(a: Vec, b: Vec)
    ensures BlendEpi16(a, b, 0xCC) == Vec(a.l0, b.l1, a.l2, b.l3)
  {
    BlendLanes(a.l0, b.l0, 0xCC, 0x01, 0x02);
    BlendLanes(a.l1, b.l1, 0xCC, 0x04, 0x08);
    BlendLanes(a.l2, b.l2, 0xCC, 0x10, 0x20);
    BlendLanes(a.l3, b.l3, 0xCC, 0x40, 0x80);
    hide BlendLane;
  }

  lemma BlendC0(a: Vec, b: Vec)
    ensures BlendEpi16(a, b, 0xC0) == Vec(a.l0, a.l1, a.l2, b.l3)
  {
    BlendLanes(a.l0, b.l0, 0xC0, 0x01, 0x02);
    BlendLanes(a.l1, b.l1, 0xC0, 0x04, 0x08);
    BlendLanes(a.l2, b.l2, 0xC0, 0x10, 0x20);
    BlendLanes(a.l3, b.l3, 0xC0, 0x40, 0x80);
    hide BlendLane;
  }

  lemma BlendLanes(a: Word, b: Word, imm: bv16, low: bv16, high: bv16)
    ensures imm & low == low && imm & high == high ==> BlendLane(a, b, imm, low, high) == b
    ensures imm & low != low && imm & high != high ==> BlendLane(a, b, imm, low, high) == a
  {}

  lemma RotLaneIsRotr(w: Word, c: nat)
    requires c == 16 || c == 12 || c == 8 || c == 7
    ensures RotLane(w, c) == Rotr(w, c)
  {
    hide SwapHalves, ShiftXor, Rotr;
    Turn16(w);
    Turn12(w);
    Turn8(w);
    Turn7(w);
  }

  lemma Turn16(w: Word)
    ensures SwapHalves(w) == Rotr(w, 16)
  {
    assert ((w & 0xffff) as bv16) as Word << 16 == w << 16;
    assert (((w >> 16) & 0xffff) as bv16) as Word == w >> 16;
  }

  lemma Turn12(w: Word)
    ensures ShiftXor(w, 12) == Rotr(w, 12)
  {
    assert (w >> 12) & (w << 20) == 0;
    XorIsOr(w >> 12, w << 20);
  }

  lemma Turn8(w: Word)
    ensures ShiftXor(w, 8) == Rotr(w, 8)
  {
    assert (w >> 8) & (w << 24) == 0;
    XorIsOr(w >> 8, w << 24);
  }

  lemma Turn7(w: Word)
    ensures ShiftXor(w, 7) == Rotr(w, 7)
  {
    assert (w >> 7) & (w << 25) == 0;
    XorIsOr(w >> 7, w << 25);
  }

  lemma XorIsOr(x: Word, y: Word)
    requires x & y == 0
    ensures x ^ y == x | y
  {}

  /** Adding the message word before or after the second row makes no difference. */
  lemma AddSwap(a: Word, b: Word, x: Word)
    ensures Sum(a, x, b) == Sum(a, b, x)
  {}

  /** g1 and g2: half of the mixing function on all four columns at once. */
  function HalfRows(rows: Rows, m: Vec, r1: nat, r2: nat): Rows
    requires 0 < r1 < 32 && 0 < r2 < 32
  {
    var row0 := SumV(rows.r0, m, rows.r1);
    var row3 := RotV(XorV(rows.r3, row0), r1);
    var row2 := AddV(rows.r2, row3);
    Rows(row0, RotV(XorV(rows.r1, row2), r2), row2, row3)
  }

  function G1(rows: Rows, m: Vec): Rows { HalfRows(rows, m, 16, 12) }

  function G2(rows: Rows, m: Vec): Rows { HalfRows(rows, m, 8, 7) }

  function Diagonalize(rows: Rows): Rows {
    Rows(ShuffleEpi32(rows.r0, 2, 1, 0, 3), rows.r1,
         ShuffleEpi32(rows.r2, 0, 3, 2, 1), ShuffleEpi32(rows.r3, 1, 0, 3, 2))
  }

  function Undiagonalize(rows: Rows): Rows {
    Rows(ShuffleEpi32(rows.r0, 0, 3, 2, 1), rows.r1,
         ShuffleEpi32(rows.r2, 2, 1, 0, 3), ShuffleEpi32(rows.r3, 1, 0, 3, 2))
  }

  function OfLanes(q0: Quad, q1: Quad, q2: Quad, q3: Quad): Rows {
    Rows(Vec(q0.a, q1.a, q2.a, q3.a), Vec(q0.b, q1.b, q2.b, q3.b),
         Vec(q0.c, q1.c, q2.c, q3.c), Vec(q0.d, q1.d, q2.d, q3.d))
  }

  /** What one lane of half a step computes: the scalar half step. */
  lemma LaneStep(q: Quad, x: Word, r1: nat, r2: nat)
    requires (r1 == 16 && r2 == 12) || (r1 == 8 && r2 == 7)
    ensures var a := Sum(q.a, x, q.b);
            var d := RotLane(Xor(q.d, a), r1);
            var c := Add(q.c, d);
            Half(q, x, r1, r2) == Quad(a, RotLane(Xor(q.b, c), r2), c, d)
  {
    AddSwap(q.a, q.b, x);
    hide Add, Sum, Xor, Rotr, RotLane;
    var a := Sum(q.a, x, q.b);
    RotLaneIsRotr(Xor(q.d, a), r1);
    var c := Add(q.c, RotLane(Xor(q.d, a), r1));
    RotLaneIsRotr(Xor(q.b, c), r2);
  }

  lemma HalfRowsLanes(q0: Quad, q1: Quad, q2: Quad, q3: Quad, m: Vec, r1: nat, r2: nat)
    requires (r1 == 16 && r2 == 12) || (r1 == 8 && r2 == 7)
    ensures HalfRows(OfLanes(q0, q1, q2, q3), m, r1, r2)
         == OfLanes(Half(q0, m.l0, r1, r2), Half(q1, m.l1, r1, r2), Half(q2, m.l2, r1, r2), Half(q3, m.l3, r1, r2))
  {
    hide Add, Sum, Xor, Rotr, RotLane, Half;
    LaneStep(q0, m.l0, r1, r2);
    LaneStep(q1, m.l1, r1, r2);
    LaneStep(q2, m.l2, r1, r2);
    LaneStep(q3, m.l3, r1, r2);
  }

  /** A whole mixing step on four columns at once. */
  lemma MixLanes(q0: Quad, q1: Quad, q2: Quad, q3: Quad, x: Vec, y: Vec)
    ensures G2(G1(OfLanes(q0, q1, q2, q3), x), y)
         == OfLanes(G(q0, x.l0, y.l0), G(q1, x.l1, y.l1), G(q2, x.l2, y.l2), G(q3, x.l3, y.l3))
  {
    hide Half, HalfRows;
    HalfRowsLanes(q0, q1, q2, q3, x, 16, 12);
    HalfRowsLanes(Half(q0, x.l0, 16, 12), Half(q1, x.l1, 16, 12), Half(q2, x.l2, 16, 12), Half(q3, x.l3, 16, 12),
        y, 8, 7);
  }

  lemma PutKeeps(s: Words16, a: nat, b: nat, c: nat, d: nat, q: Quad)
    requires a < 4 <= b < 8 <= c < 12 <= d < 16
    ensures var t := Put(s, a, b, c, d, q);
      && t[a] == q.a && t[b] == q.b && t[c] == q.c && t[d] == q.d
      && forall k :: 0 <= k < 16 && k != a && k != b && k != c && k != d ==> t[k] == s[k]
  {}

  /** The state as rows. */
  function RowsOf(s: Words16): Rows {
    Rows(Vec(s[0], s[1], s[2], s[3]), Vec(s[4], s[5], s[6], s[7]),
         Vec(s[8], s[9], s[10], s[11]), Vec(s[12], s[13], s[14], s[15]))
  }

  lemma ColumnsInRows(s: Words16, m: Words16)
    ensures G2(G1(RowsOf(s), Vec(m[0], m[2], m[4], m[6])), Vec(m[1], m[3], m[5], m[7])) == RowsOf(Columns(s, m))
  {
    hide G, G1, G2, Put;
    var s1 := Mix(s, 0, 4, 8, 12, m[0], m[1]);
    var s2 := Mix(s1, 1, 5, 9, 13, m[2], m[3]);
    var s3 := Mix(s2, 2, 6, 10, 14, m[4], m[5]);
    PutKeeps(s, 0, 4, 8, 12, G(Quad(s[0], s[4], s[8], s[12]), m[0], m[1]));
    PutKeeps(s1, 1, 5, 9, 13, G(Quad(s[1], s[5], s[9], s[13]), m[2], m[3]));
    PutKeeps(s2, 2, 6, 10, 14, G(Quad(s[2], s[6], s[10], s[14]), m[4], m[5]));
    PutKeeps(s3, 3, 7, 11, 15, G(Quad(s[3], s[7], s[11], s[15]), m[6], m[7]));
    MixLanes(Quad(s[0], s[4], s[8], s[12]), Quad(s[1], s[5], s[9], s[13]), Quad(s[2], s[6], s[10], s[14]),
             Quad(s[3], s[7], s[11], s[15]), Vec(m[0], m[2], m[4], m[6]), Vec(m[1], m[3], m[5], m[7]));
  }

  /** Turned by their place, the rows hold the diagonals as columns. */
  lemma DiagonalizeLanes(s: Words16)
    ensures Diagonalize(RowsOf(s))
         == OfLanes(Quad(s[3], s[4], s[9], s[14]), Quad(s[0], s[5], s[10], s[15]),
                    Quad(s[1], s[6], s[11], s[12]), Quad(s[2], s[7], s[8], s[13]))
  {}

  lemma UndiagonalizeLanes(s: Words16, m: Words16)
    ensures Undiagonalize(OfLanes(
        G(Quad(s[3], s[4], s[9], s[14]), m[14], m[15]), G(Quad(s[0], s[5], s[10], s[15]), m[8], m[9]),
        G(Quad(s[1], s[6], s[11], s[12]), m[10], m[11]), G(Quad(s[2], s[7], s[8], s[13]), m[12], m[13])))
      == RowsOf(Diagonals(s, m))
  {
    hide G, Put;
    var s1 := Mix(s, 0, 5, 10, 15, m[8], m[9]);
    var s2 := Mix(s1, 1, 6, 11, 12, m[10], m[11]);
    var s3 := Mix(s2, 2, 7, 8, 13, m[12], m[13]);
    PutKeeps(s, 0, 5, 10, 15, G(Quad(s[0], s[5], s[10], s[15]), m[8], m[9]));
    PutKeeps(s1, 1, 6, 11, 12, G(Quad(s[1], s[6], s[11], s[12]), m[10], m[11]));
    PutKeeps(s2, 2, 7, 8, 13, G(Quad(s[2], s[7], s[8], s[13]), m[12], m[13]));
    PutKeeps(s3, 3, 4, 9, 14, G(Quad(s[3], s[4], s[9], s[14]), m[14], m[15]));
  }

  lemma DiagonalsInRows(s: Words16, m: Words16)
    ensures Undiagonalize(G2(G1(Diagonalize(RowsOf(s)), Vec(m[14], m[8], m[10], m[12])),
                             Vec(m[15], m[9], m[11], m[13])))
         == RowsOf(Diagonals(s, m))
  {
    hide G, G1, G2, Diagonalize, Undiagonalize, OfLanes, RowsOf, Diagonals;
    DiagonalizeLanes(s);
    MixLanes(Quad(s[3], s[4], s[9], s[14]), Quad(s[0], s[5], s[10], s[15]), Quad(s[1], s[6], s[11], s[12]),
             Quad(s[2], s[7], s[8], s[13]), Vec(m[14], m[8], m[10], m[12]), Vec(m[15], m[9], m[11], m[13]));
    UndiagonalizeLanes(s, m);
  }

  /** The four message registers as a round needs them. */
  datatype Message = Message(m0: Vec, m1: Vec, m2: Vec, m3: Vec)

  function Layout(m: Words16): Message {
    Message(Vec(m[0], m[2], m[4], m[6]), Vec(m[1], m[3], m[5], m[7]),
            Vec(m[14], m[8], m[10], m[12]), Vec(m[15], m[9], m[11], m[13]))
  }

  /** The shuffles of the first round bring the words of the block into that layout. */
  method FirstMessage(block: Words16) returns (t0: Vec, t1: Vec, t2: Vec, t3: Vec)
    ensures Message(t0, t1, t2, t3) == Layout(block)
  {
    var m0, m1 := Vec(block[0], block[1], block[2], block[3]), Vec(block[4], block[5], block[6], block[7]);
    var m2, m3 := Vec(block[8], block[9], block[10], block[11]), Vec(block[12], block[13], block[14], block[15]);
    t0 := ShufflePs(m0, m1, 2, 0, 2, 0);
    t1 := ShufflePs(m0, m1, 3, 1, 3, 1);
    t2 := ShufflePs(m2, m3, 2, 0, 2, 0);
    t2 := ShuffleEpi32(t2, 2, 1, 0, 3);
    t3 := ShufflePs(m2, m3, 3, 1, 3, 1);
    t3 := ShuffleEpi32(t3, 2, 1, 0, 3);
  }

  /** The shuffles, blends and unpacks of every later round permute the words inside the layout. */
  method NextMessage(m0: Vec, m1: Vec, m2: Vec, m3: Vec, ghost words: Words16)
    returns (t0: Vec, t1: Vec, t2: Vec, t3: Vec)
    requires Message(m0, m1, m2, m3) == Layout(words)
    ensures Message(t0, t1, t2, t3) == Layout(Permute(words))
  {
    hide BlendEpi16;
    t0 := ShufflePs(m0, m1, 3, 1, 1, 2);
    t0 := ShuffleEpi32(t0, 0, 3, 2, 1);
    t1 := ShufflePs(m2, m3, 3, 3, 2, 2);
    var tt := ShuffleEpi32(m0, 0, 0, 3, 3);
    BlendCC(tt, t1);
    t1 := BlendEpi16(tt, t1, 0xCC);
    t2 := UnpackLo64(m3, m1);
    BlendC0(t2, m2);
    tt := BlendEpi16(t2, m2, 0xC0);
    t2 := ShuffleEpi32(tt, 1, 3, 2, 0);
    t3 := UnpackHi32(m1, m3);
    tt := UnpackLo32(m2, t3);
    t3 := ShuffleEpi32(tt, 0, 1, 3, 2);
  }

  /** One round on rows, given the message in its layout. */
  method RowRound(rows: Rows, t0: Vec, t1: Vec, t2: Vec, t3: Vec, ghost s: Words16, ghost m: Words16)
    returns (next: Rows)
    requires rows == RowsOf(s) && Message(t0, t1, t2, t3) == Layout(m)
    ensures next == RowsOf(Round(s, m))
  {
    ColumnsInRows(s, m);
    DiagonalsInRows(Columns(s, m), m);
    hide RowsOf, Columns, Diagonals, G1, G2, Diagonalize, Undiagonalize;
    next := G1(rows, t0);
    next := G2(next, t1);
    next := Diagonalize(next);
    next := G1(next, t2);
    next := G2(next, t3);
    next := Undiagonalize(next);
  }

  /** The row form computes the compression function. */
  method RowCompress(cv: Words8, block: Words16, counter: nat, blockLen: nat, flags: bv8) returns (out: Words16)
    ensures out == Compress(cv, block, counter, blockLen, flags)
  {
    var rows := Rows(Vec(cv[0], cv[1], cv[2], cv[3]), Vec(cv[4], cv[5], cv[6], cv[7]),
                     Vec(IV[0], IV[1], IV[2], IV[3]),
                     Vec(Low32(counter), High32(counter), LengthWord(blockLen), flags as Word));
    ghost var start := Start(cv, counter, blockLen, flags);
    assert rows == RowsOf(start);
    hide Round, Start, RowsOf, Permute;
    var m0, m1, m2, m3 := FirstMessage(block);
    rows := RowRound(rows, m0, m1, m2, m3, start, block);
    var round := 1;
    while round < 7
      invariant round <= 7
      invariant rows == RowsOf(Rounds(start, block, round))
      invariant Message(m0, m1, m2, m3) == Layout(Permuted(block, round - 1))
    {
      m0, m1, m2, m3 := NextMessage(m0, m1, m2, m3, Permuted(block, round - 1));
      rows := RowRound(rows, m0, m1, m2, m3, Rounds(start, block, round), Permuted(block, round));
      round := round + 1;
    }
    out := StoreRows(rows, cv, Rounds(start, block, 7));
  }

  method StoreRows(rows: Rows, cv: Words8, ghost s: Words16) returns (out: Words16)
    requires rows == RowsOf(s)
    ensures out == Finish(s, cv)
  {
    hide Xor;
    var a, b := XorV(rows.r0, rows.r2), XorV(rows.r1, rows.r3);
    var c := XorV(rows.r2, Vec(cv[0], cv[1], cv[2], cv[3]));
    var d := XorV(rows.r3, Vec(cv[4], cv[5], cv[6], cv[7]));
    out := [a.l0, a.l1, a.l2, a.l3, b.l0, b.l1, b.l2, b.l3, c.l0, c.l1, c.l2, c.l3, d.l0, d.l1, d.l2, d.l3];
  }
}
