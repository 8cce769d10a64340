/** The compression function on 32-bit words: the reference code, which permutes the message between
    rounds, and the portable code, which looks message words up through a schedule. */
module Compression {
  import opened Spec

  const IV: Words8 := [0x6A09E667, 0xBB67AE85, 0x3C6EF372, 0xA54FF53A, 0x510E527F, 0x9B05688C, 0x1F83D9AB, 0x5BE0CD19]

  const MSG_PERMUTATION: seq<nat> := [2, 6, 3, 10, 7, 0, 4, 13, 1, 11, 12, 5, 9, 14, 15, 8]

  const MSG_SCHEDULE: seq<seq<nat>> := [
    [0, 1, 2, 3, 4, 5, 6, 7, 8, 9, 10, 11, 12, 13, 14, 15],
    [2, 6, 3, 10, 7, 0, 4, 13, 1, 11, 12, 5, 9, 14, 15, 8],
    [3, 4, 10, 12, 13, 2, 7, 14, 6, 5, 9, 0, 11, 15, 8, 1],
    [10, 7, 12, 9, 14, 3, 13, 15, 4, 0, 11, 2, 5, 8, 1, 6],
    [12, 13, 9, 11, 15, 10, 14, 8, 7, 2, 5, 3, 0, 1, 6, 4],
    [9, 14, 11, 5, 8, 12, 15, 1, 13, 3, 0, 10, 2, 6, 4, 7],
    [11, 15, 5, 0, 1, 9, 8, 6, 14, 10, 2, 12, 3, 4, 7, 13]]

  function Add(a: Word, b: Word): Word { a + b }

  function Sum(a: Word, b: Word, c: Word): Word { (a + b) + c }

  function Xor(a: Word, b: Word): Word { a ^ b }

  function Rotr(w: Word, c: nat): Word
    requires 0 < c < 32
  {
    (w >> c) | (w << (32 - c))
  }

  /** The mixing function on one column or diagonal. */
  datatype Quad = Quad(a: Word, b: Word, c: Word, d: Word)

  /** Half of the mixing function: one message word, two rotations. */
  function Half(q: Quad, x: Word, r1: nat, r2: nat): Quad
    requires 0 < r1 < 32 && 0 < r2 < 32
  {
    var a := Sum(q.a, q.b, x);
    var d := Rotr(Xor(q.d, a), r1);
    var c := Add(q.c, d);
    Quad(a, Rotr(Xor(q.b, c), r2), c, d)
  }

  function G(q: Quad, x: Word, y: Word): Quad {
    Half(Half(q, x, 16, 12), y, 8, 7)
  }

  /** Mixing four places of the state. */
  function Mix(s: Words16, a: nat, b: nat, c: nat, d: nat, x: Word, y: Word): Words16
    requires a < 16 && b < 16 && c < 16 && d < 16
  {
    Put(s, a, b, c, d, G(Quad(s[a], s[b], s[c], s[d]), x, y))
  }

  function Put(s: Words16, a: nat, b: nat, c: nat, d: nat, q: Quad): Words16
    requires a < 16 && b < 16 && c < 16 && d < 16
  {
    s[a := q.a][b := q.b][c := q.c][d := q.d]
  }

  function Columns(s: Words16, m: Words16): Words16 {
    var s := Mix(s, 0, 4, 8, 12, m[0], m[1]);
    var s := Mix(s, 1, 5, 9, 13, m[2], m[3]);
    var s := Mix(s, 2, 6, 10, 14, m[4], m[5]);
    Mix(s, 3, 7, 11, 15, m[6], m[7])
  }

  function Diagonals(s: Words16, m: Words16): Words16 {
    var s := Mix(s, 0, 5, 10, 15, m[8], m[9]);
    var s := Mix(s, 1, 6, 11, 12, m[10], m[11]);
    var s := Mix(s, 2, 7, 8, 13, m[12], m[13]);
    Mix(s, 3, 4, 9, 14, m[14], m[15])
  }

  function Round(s: Words16, m: Words16): Words16 {
    Diagonals(Columns(s, m), m)
  }

  function Permute(m: Words16): Words16 {
    [m[2], m[6], m[3], m[10], m[7], m[0], m[4], m[13], m[1], m[11], m[12], m[5], m[9], m[14], m[15], m[8]]
  }

  /** The message after this many permutations. */
  function Permuted(m: Words16, times: nat): Words16 {
    if times == 0 then m else Permute(Permuted(m, times - 1))
  }

  function Rounds(s: Words16, m: Words16, n: nat): Words16 {
    if n == 0 then s else Round(Rounds(s, m, n - 1), Permuted(m, n - 1))
  }

  function ToWord(n: nat): Word
    requires n < 0x1_0000_0000
  {
    n as Word
  }

  function Low32(counter: nat): Word {
    ToWord(counter % 0x1_0000_0000)
  }

  function High32(counter: nat): Word {
    ToWord(counter / 0x1_0000_0000 % 0x1_0000_0000)
  }

  function LengthWord(blockLen: nat): Word {
    ToWord(blockLen % 0x1_0000_0000)
  }

  function Start(cv: Words8, counter: nat, blockLen: nat, flags: bv8): Words16 {
    [cv[0], cv[1], cv[2], cv[3], cv[4], cv[5], cv[6], cv[7], IV[0], IV[1], IV[2], IV[3],
     Low32(counter), High32(counter), LengthWord(blockLen), flags as Word]
  }

  function Finish(s: Words16, cv: Words8): Words16 {
    [Xor(s[0], s[8]), Xor(s[1], s[9]), Xor(s[2], s[10]), Xor(s[3], s[11]),
     Xor(s[4], s[12]), Xor(s[5], s[13]), Xor(s[6], s[14]), Xor(s[7], s[15]),
     Xor(s[8], cv[0]), Xor(s[9], cv[1]), Xor(s[10], cv[2]), Xor(s[11], cv[3]),
     Xor(s[12], cv[4]), Xor(s[13], cv[5]), Xor(s[14], cv[6]), Xor(s[15], cv[7])]
  }

  /** Seven rounds with the message permuted in between: the compression function of BLAKE3. */
  function Compress(cv: Words8, m: Words16, counter: nat, blockLen: nat, flags: bv8): Words16 {
    Finish(Rounds(Start(cv, counter, blockLen, flags), m, 7), cv)
  }

  function Blake3(): Compressor {
    (cv, m, counter, blockLen, flags) => Compress(cv, m, counter, blockLen, flags)
  }

  /** The schedule table is the permutation, repeated. */
  lemma ScheduleStep(r: nat, i: nat)
    requires r < 6 && i < 16
    ensures MSG_SCHEDULE[r + 1][i] == MSG_SCHEDULE[r][MSG_PERMUTATION[i]]
  {
    assert Follows(MSG_SCHEDULE[0], MSG_SCHEDULE[1]) && Follows(MSG_SCHEDULE[1], MSG_SCHEDULE[2]);
    assert Follows(MSG_SCHEDULE[2], MSG_SCHEDULE[3]) && Follows(MSG_SCHEDULE[3], MSG_SCHEDULE[4]);
    assert Follows(MSG_SCHEDULE[4], MSG_SCHEDULE[5]) && Follows(MSG_SCHEDULE[5], MSG_SCHEDULE[6]);
    assert Follows(MSG_SCHEDULE[r], MSG_SCHEDULE[r + 1]);
    FollowsAt(MSG_SCHEDULE[r], MSG_SCHEDULE[r + 1], i);
  }

  /** One row of the schedule is the row before it, permuted. */
  predicate Follows(a: seq<nat>, b: seq<nat>) {
    && |a| == 16
    && b == [a[2], a[6], a[3], a[10], a[7], a[0], a[4], a[13], a[1], a[11], a[12], a[5], a[9], a[14], a[15], a[8]]
  }

  lemma FollowsAt(a: seq<nat>, b: seq<nat>, i: nat)
    requires Follows(a, b) && i < 16
    ensures |b| == 16 && b[i] == a[MSG_PERMUTATION[i]]
  {}

  lemma PermuteAt(m: Words16, i: nat)
    requires i < 16
    ensures Permute(m)[i] == m[MSG_PERMUTATION[i]]
  {}

  /** Looking up through the schedule of round r is permuting r times. */
  lemma {:induction false} ScheduleIsPermuted(m: Words16, r: nat, i: nat)
    requires r < 7 && i < 16
    ensures |MSG_SCHEDULE[r]| == 16 && MSG_SCHEDULE[r][i] < 16
    ensures m[MSG_SCHEDULE[r][i]] == Permuted(m, r)[i]
    decreases r
  {
    hide Permute;
    if r > 0 {
      ScheduleStep(r - 1, i);
      PermuteAt(Permuted(m, r - 1), i);
      ScheduleIsPermuted(m, r - 1, MSG_PERMUTATION[i]);
    }
  }

  /** The mixing function as both scalar codes write it: assignments to the state array. */
  method MixInPlace(state: array<Word>, a: nat, b: nat, c: nat, d: nat, x: Word, y: Word)
    requires state.Length == 16 && a < 16 && b < 16 && c < 16 && d < 16
    requires a != b && a != c && a != d && b != c && b != d && c != d
    modifies state
    ensures state[..] == Mix(old(state[..]), a, b, c, d, x, y)
  {
    hide Half, Put;
    ghost var s := state[..];
    ghost var first := Half(Quad(s[a], s[b], s[c], s[d]), x, 16, 12);
    HalfInPlace(state, a, b, c, d, x, 16, 12);
    PutTwice(s, a, b, c, d, first, Half(first, y, 8, 7));
    HalfInPlace(state, a, b, c, d, y, 8, 7);
  }

  /** What is put in four places is found there, and putting again replaces it. */
  lemma PutTwice(s: Words16, a: nat, b: nat, c: nat, d: nat, q: Quad, r: Quad)
    requires a < 16 && b < 16 && c < 16 && d < 16
    requires a != b && a != c && a != d && b != c && b != d && c != d
    ensures var t := Put(s, a, b, c, d, q);
      Quad(t[a], t[b], t[c], t[d]) == q && Put(t, a, b, c, d, r) == Put(s, a, b, c, d, r)
  {
    var t, u, v := Put(s, a, b, c, d, q), Put(Put(s, a, b, c, d, q), a, b, c, d, r), Put(s, a, b, c, d, r);
    forall i | 0 <= i < 16 ensures u[i] == v[i] {
    }
  }

  method HalfInPlace(state: array<Word>, a: nat, b: nat, c: nat, d: nat, x: Word, r1: nat, r2: nat)
    requires state.Length == 16 && a < 16 && b < 16 && c < 16 && d < 16
    requires a != b && a != c && a != d && b != c && b != d && c != d
    requires 0 < r1 < 32 && 0 < r2 < 32
    modifies state
    ensures state[..] == Put(old(state[..]), a, b, c, d,
                             Half(old(Quad(state[a], state[b], state[c], state[d])), x, r1, r2))
  {
    hide Add, Sum, Xor, Rotr;
    state[a] := Sum(state[a], state[b], x);
    state[d] := Rotr(Xor(state[d], state[a]), r1);
    state[c] := Add(state[c], state[d]);
    state[b] := Rotr(Xor(state[b], state[c]), r2);
  }

  /** One round of the reference code. */
  method ReferenceRound(state: array<Word>, m: Words16)
    requires state.Length == 16
    modifies state
    ensures state[..] == Round(old(state[..]), m)
  {
    hide Mix;
    MixInPlace(state, 0, 4, 8, 12, m[0], m[1]);
    MixInPlace(state, 1, 5, 9, 13, m[2], m[3]);
    MixInPlace(state, 2, 6, 10, 14, m[4], m[5]);
    MixInPlace(state, 3, 7, 11, 15, m[6], m[7]);
    MixInPlace(state, 0, 5, 10, 15, m[8], m[9]);
    MixInPlace(state, 1, 6, 11, 12, m[10], m[11]);
    MixInPlace(state, 2, 7, 8, 13, m[12], m[13]);
    MixInPlace(state, 3, 4, 9, 14, m[14], m[15]);
  }

  /** One round of the portable code: the message stays, the schedule row changes. */
  method PortableRound(state: array<Word>, msg: Words16, round: nat)
    requires state.Length == 16 && round < 7
    modifies state
    ensures state[..] == Round(old(state[..]), Permuted(msg, round))
  {
    hide Mix, Permuted;
    var schedule := MSG_SCHEDULE[round];
    forall i | 0 <= i < 16
      ensures |schedule| == 16 && schedule[i] < 16 && msg[schedule[i]] == Permuted(msg, round)[i]
    {
      ScheduleIsPermuted(msg, round, i);
    }
    MixInPlace(state, 0, 4, 8, 12, msg[schedule[0]], msg[schedule[1]]);
    MixInPlace(state, 1, 5, 9, 13, msg[schedule[2]], msg[schedule[3]]);
    MixInPlace(state, 2, 6, 10, 14, msg[schedule[4]], msg[schedule[5]]);
    MixInPlace(state, 3, 7, 11, 15, msg[schedule[6]], msg[schedule[7]]);
    MixInPlace(state, 0, 5, 10, 15, msg[schedule[8]], msg[schedule[9]]);
    MixInPlace(state, 1, 6, 11, 12, msg[schedule[10]], msg[schedule[11]]);
    MixInPlace(state, 2, 7, 8, 13, msg[schedule[12]], msg[schedule[13]]);
    MixInPlace(state, 3, 4, 9, 14, msg[schedule[14]], msg[schedule[15]]);
  }

  method LoadState(cv: Words8, counter: nat, blockLen: nat, flags: bv8) returns (state: array<Word>)
    ensures fresh(state) && state.Length == 16 && state[..] == Start(cv, counter, blockLen, flags)
  {
    var start := Start(cv, counter, blockLen, flags);
    hide Start;
    state := new Word[16](i requires 0 <= i < 16 => start[i]);
    assert state[..] == start;
  }

  method PortableCompress(cv: Words8, msg: Words16, counter: nat, blockLen: nat, flags: bv8) returns (out: Words16)
    ensures out == Compress(cv, msg, counter, blockLen, flags)
  {
    hide Round, Start, Finish;
    var state := LoadState(cv, counter, blockLen, flags);
    ghost var start := state[..];
    var round := 0;
    while round < 7
      invariant round <= 7 && state.Length == 16
      invariant state[..] == Rounds(start, msg, round)
    {
      PortableRound(state, msg, round);
      round := round + 1;
    }
    out := Finish(state[..], cv);
  }

  /** The reference code permutes its copy of the message after every round but the last. */
  method ReferenceCompress(cv: Words8, msg: Words16, counter: nat, blockLen: nat, flags: bv8) returns (out: Words16)
    ensures out == Compress(cv, msg, counter, blockLen, flags)
  {
    hide Round, Start, Finish, Permute;
    var state := LoadState(cv, counter, blockLen, flags);
    ghost var start := state[..];
    var block := msg;
    var round := 0;
    while round < 6
      invariant round <= 6 && state.Length == 16
      invariant block == Permuted(msg, round)
      invariant state[..] == Rounds(start, msg, round)
    {
      ReferenceRound(state, block);
      block := PermuteWords(block);
      round := round + 1;
    }
    ReferenceRound(state, block);
    out := Finish(state[..], cv);
  }

  method PermuteWords(m: Words16) returns (permuted: Words16)
    ensures permuted == Permute(m)
  {
    var words := new Word[16](_ => 0);
    for i := 0 to 16
      invariant forall k :: 0 <= k < i ==> words[k] == m[MSG_PERMUTATION[k]]
    {
      words[i] := m[MSG_PERMUTATION[i]];
    }
    permuted := words[..];
    forall i | 0 <= i < 16
      ensures permuted[i] == Permute(m)[i]
    {
      PermuteAt(m, i);
    }
  }
}
