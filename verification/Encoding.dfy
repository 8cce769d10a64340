/** Little-endian numbers in bytes, with bytes as numbers below 256. */
module Encoding {
  import opened Pieces

  type U8 = n: nat | n < 256
  type Word16 = n: nat | n < 0x1_0000
  type Word32 = n: nat | n < 0x1_0000_0000
  type Word64 = n: nat | n < 0x1_0000_0000_0000_0000

  /** The low `k` bytes of n, lowest first. */
  function Le(n: nat, k: nat): (bytes: seq<U8>)
    ensures |bytes| == k
  {
    if k == 0 then [] else [n % 256] + Le(n / 256, k - 1)
  }

  /** The number that bytes stand for, lowest first. */
  function OfLe(bytes: seq<U8>): nat {
    if |bytes| == 0 then 0 else bytes[0] + 256 * OfLe(bytes[1..])
  }

  function Pow256(k: nat): (p: nat)
    ensures p > 0
  {
    if k == 0 then 1 else 256 * Pow256(k - 1)
  }

  lemma {:induction false} LeRoundTrip(n: nat, k: nat)
    requires n < Pow256(k)
    ensures OfLe(Le(n, k)) == n
    decreases k
  {
    if k > 0 {
      LeRoundTrip(n / 256, k - 1);
      assert Le(n, k)[1..] == Le(n / 256, k - 1);
    }
  }

  lemma LowByte(b: U8, rest: nat)
    ensures (b + 256 * rest) % 256 == b && (b + 256 * rest) / 256 == rest
  {}

  lemma {:induction false} LeBack(bytes: seq<U8>)
    ensures OfLe(bytes) < Pow256(|bytes|)
    ensures Le(OfLe(bytes), |bytes|) == bytes
  {
    if |bytes| > 0 {
      LeBack(bytes[1..]);
      LowByte(bytes[0], OfLe(bytes[1..]));
    }
  }

  lemma Widths()
    ensures Pow256(1) == 0x100 && Pow256(2) == 0x1_0000 && Pow256(4) == 0x1_0000_0000
    ensures Pow256(8) == 0x1_0000_0000_0000_0000
  {
    assert Pow256(3) == 0x100_0000;
    assert Pow256(5) == 0x100_0000_0000;
    assert Pow256(7) == 0x100_0000_0000_0000;
  }

  // ---- Numbers at a place in a byte string ----

  function Get16(data: seq<U8>, at: nat): Word16
    requires at + 2 <= |data|
  {
    LeBack(data[at..at + 2]);
    Widths();
    OfLe(data[at..at + 2])
  }

  function Get32(data: seq<U8>, at: nat): Word32
    requires at + 4 <= |data|
  {
    LeBack(data[at..at + 4]);
    Widths();
    OfLe(data[at..at + 4])
  }

  function Get64(data: seq<U8>, at: nat): Word64
    requires at + 8 <= |data|
  {
    LeBack(data[at..at + 8]);
    Widths();
    OfLe(data[at..at + 8])
  }

  /** Reading a number where one was written. */
  lemma Get32At(data: seq<U8>, at: nat, n: Word32)
    requires at + 4 <= |data| && data[at..at + 4] == Le(n, 4)
    ensures Get32(data, at) == n
  {
    hide Le, OfLe, Pow256;
    Widths();
    LeRoundTrip(n, 4);
  }

  lemma Get16At(data: seq<U8>, at: nat, n: Word16)
    requires at + 2 <= |data| && data[at..at + 2] == Le(n, 2)
    ensures Get16(data, at) == n
  {
    hide Le, OfLe, Pow256;
    Widths();
    LeRoundTrip(n, 2);
  }

  lemma Get64At(data: seq<U8>, at: nat, n: Word64)
    requires at + 8 <= |data| && data[at..at + 8] == Le(n, 8)
    ensures Get64(data, at) == n
  {
    hide Le, OfLe, Pow256;
    Widths();
    LeRoundTrip(n, 8);
  }

  /** A number is read from a place just when its bytes are there. */
  lemma HalfRead(data: seq<U8>, at: nat, n: Word16)
    requires at + 2 <= |data|
    ensures data[at..at + 2] == Le(n, 2) <==> Get16(data, at) == n
  {
    hide Le;
    LeBack(data[at..at + 2]);
    if data[at..at + 2] == Le(n, 2) { Get16At(data, at, n); }
  }

  lemma NumberRead(data: seq<U8>, at: nat, n: Word64)
    requires at + 8 <= |data|
    ensures data[at..at + 8] == Le(n, 8) <==> Get64(data, at) == n
  {
    hide Le;
    LeBack(data[at..at + 8]);
    if data[at..at + 8] == Le(n, 8) { Get64At(data, at, n); }
  }

  lemma WordRead(data: seq<U8>, at: nat, n: Word32)
    requires at + 4 <= |data|
    ensures data[at..at + 4] == Le(n, 4) <==> Get32(data, at) == n
  {
    hide Le;
    LeBack(data[at..at + 4]);
    if data[at..at + 4] == Le(n, 4) { Get32At(data, at, n); }
  }

  lemma {:induction false} OfLeJoin(x: seq<U8>, y: seq<U8>)
    ensures OfLe(x + y) == OfLe(x) + Pow256(|x|) * OfLe(y)
  {
    if |x| == 0 {
      assert x + y == y;
    } else {
      assert (x + y)[1..] == x[1..] + y;
      OfLeJoin(x[1..], y);
      assert OfLe(x + y) == x[0] + 256 * OfLe(x[1..] + y);
      Regroup(Pow256(|x| - 1), OfLe(y));
    }
  }

  lemma Regroup(p: nat, v: nat)
    ensures (256 * p) * v == 256 * (p * v)
  {}

  /** Eight bytes as two numbers of four. */
  lemma Halves(b: seq<U8>)
    requires |b| == 8
    ensures OfLe(b) == OfLe(b[..4]) + 0x1_0000_0000 * OfLe(b[4..])
  {
    hide OfLe, Pow256;
    Widths();
    OfLeJoin(b[..4], b[4..]);
    assert b[..4] + b[4..] == b;
  }

  lemma Get64Halves(data: seq<U8>, at: nat)
    requires at + 8 <= |data|
    ensures Get64(data, at) == Get32(data, at) + 0x1_0000_0000 * Get32(data, at + 4)
  {
    hide OfLe;
    Halves(data[at..at + 8]);
    SliceOfSlice(data, at, at + 8, 0, 4);
    SliceOfSlice(data, at, at + 8, 4, 8);
  }
}
