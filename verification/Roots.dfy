/** The constants of the hash functions: the first 32 bits of the fractions of roots of the first
    primes, as section 4.2.2 and section 5.3.3 of FIPS 180-4 define them. */
module Roots {
  import opened Bits
  import opened Spec
  import opened WordBits
  import Compression
  import Sha256
  import Sha256Blocks

  function Power(x: nat, k: nat): nat {
    if k == 0 then 1 else x * Power(x, k - 1)
  }

  /** The k-th root of n, rounded down. */
  function Root(n: nat, k: nat): (r: nat)
    requires k > 0
    ensures Power(r, k) <= n < Power(r + 1, k)
  {
    if n == 0 then
      PowerOf(k);
      0
    else
      var r := Root(n - 1, k);
      PowerGrows(r + 1, r + 2, k);
      if Power(r + 1, k) <= n then r + 1 else r
  }

  lemma {:induction false} PowerOf(k: nat)
    ensures Power(1, k) == 1 && (k > 0 ==> Power(0, k) == 0)
  {
    if k > 0 { PowerOf(k - 1); }
  }

  lemma {:induction false} PowerGrows(x: nat, y: nat, k: nat)
    requires x < y && k > 0
    ensures Power(x, k) < Power(y, k)
  {
    if k > 1 {
      PowerGrows(x, y, k - 1);
      Larger(x, y, Power(x, k - 1), Power(y, k - 1));
    }
  }

  lemma Larger(x: nat, y: nat, p: nat, q: nat)
    requires x < y && p < q
    ensures x * p < y * q
  {
    assert x * p <= x * q;
    assert (y - x) * q > 0;
  }

  /** Only one number lies between the two powers. */
  lemma RootIs(n: nat, k: nat, r: nat)
    requires k > 0 && Power(r, k) <= n < Power(r + 1, k)
    ensures Root(n, k) == r
  {
    hide Power;
    var s := Root(n, k);
    if s < r {
      if s + 1 < r { PowerGrows(s + 1, r, k); }
    } else if r < s {
      if r + 1 < s { PowerGrows(r + 1, s, k); }
    }
  }

  /** The first 64 primes, eight at a time. */
  const PRIMES0: seq<nat> := [2, 3, 5, 7, 11, 13, 17, 19]
  const PRIMES1: seq<nat> := [23, 29, 31, 37, 41, 43, 47, 53]
  const PRIMES2: seq<nat> := [59, 61, 67, 71, 73, 79, 83, 89]
  const PRIMES3: seq<nat> := [97, 101, 103, 107, 109, 113, 127, 131]
  const PRIMES4: seq<nat> := [137, 139, 149, 151, 157, 163, 167, 173]
  const PRIMES5: seq<nat> := [179, 181, 191, 193, 197, 199, 211, 223]
  const PRIMES6: seq<nat> := [227, 229, 233, 239, 241, 251, 257, 263]
  const PRIMES7: seq<nat> := [269, 271, 277, 281, 283, 293, 307, 311]

  const PRIMES: seq<nat> :=
    PRIMES0 + PRIMES1 + PRIMES2 + PRIMES3 + PRIMES4 + PRIMES5 + PRIMES6 + PRIMES7

  /** w is the first 32 bits of the fraction of the k-th root of p. */
  ghost predicate FractionOfRoot(w: Word, p: nat, k: nat)
    requires k > 0
  {
    Value(w) == Root(p * Power(U32_LIMIT, k), k) % U32_LIMIT
  }

  /** The root, magnified by 2^32: its whole part n and the fraction's first bits. */
  lemma RootParts(w: Word, p: nat, k: nat, n: nat)
    requires k > 0
    requires var r := n * U32_LIMIT + Value(w); Power(r, k) <= p * Power(U32_LIMIT, k) < Power(r + 1, k)
    ensures FractionOfRoot(w, p, k)
  {
    hide Power, Root, Value;
    RootIs(p * Power(U32_LIMIT, k), k, n * U32_LIMIT + Value(w));
    RemainderIs(n * U32_LIMIT + Value(w), U32_LIMIT, n, Value(w));
  }

  lemma SquareRoot(w: Word, p: nat, n: nat, v: nat)
    requires Value(w) == v
    requires var r := n * U32_LIMIT + v; r * r <= p * (U32_LIMIT * U32_LIMIT) < (r + 1) * (r + 1)
    ensures FractionOfRoot(w, p, 2)
  {
    hide Root, Value;
    var r := n * U32_LIMIT + v;
    Square(r);
    Square(r + 1);
    Square(U32_LIMIT);
    hide Power;
    RootParts(w, p, 2, n);
  }

  lemma Square(x: nat)
    ensures Power(x, 2) == x * x
  {
    assert Power(x, 1) == x;
  }

  lemma CubeRoot(w: Word, p: nat, n: nat, v: nat)
    requires Value(w) == v
    requires var r := n * U32_LIMIT + v;
      r * (r * r) <= p * (U32_LIMIT * (U32_LIMIT * U32_LIMIT)) < (r + 1) * ((r + 1) * (r + 1))
    ensures FractionOfRoot(w, p, 3)
  {
    hide Root, Value;
    var r := n * U32_LIMIT + v;
    Cube(r);
    Cube(r + 1);
    Cube(U32_LIMIT);
    hide Power;
    RootParts(w, p, 3, n);
  }

  lemma Cube(x: nat)
    ensures Power(x, 3) == x * (x * x)
  {
    Square(x);
  }

  /** Word i belongs to prime i. */
  ghost predicate AllRoots(words: seq<Word>, primes: seq<nat>, k: nat)
    requires k > 0
  {
    |words| <= |primes| && forall i :: 0 <= i < |words| ==> FractionOfRoot(words[i], primes[i], k)
  }

  lemma IvRow()
    ensures AllRoots(Compression.IV, PRIMES0, 2)
  {
    hide FractionOfRoot;
    SquareRoot(Compression.IV[0], 2, 1, 0x6a09e667);
    SquareRoot(Compression.IV[1], 3, 1, 0xbb67ae85);
    SquareRoot(Compression.IV[2], 5, 2, 0x3c6ef372);
    SquareRoot(Compression.IV[3], 7, 2, 0xa54ff53a);
    SquareRoot(Compression.IV[4], 11, 3, 0x510e527f);
    SquareRoot(Compression.IV[5], 13, 3, 0x9b05688c);
    SquareRoot(Compression.IV[6], 17, 4, 0x1f83d9ab);
    SquareRoot(Compression.IV[7], 19, 4, 0x5be0cd19);
  }

  lemma KRow0()
    ensures AllRoots(Sha256Blocks.K0, PRIMES0, 3)
  {
    hide FractionOfRoot;
    CubeRoot(Sha256Blocks.K0[0], 2, 1, 0x428a2f98);
    CubeRoot(Sha256Blocks.K0[1], 3, 1, 0x71374491);
    CubeRoot(Sha256Blocks.K0[2], 5, 1, 0xb5c0fbcf);
    CubeRoot(Sha256Blocks.K0[3], 7, 1, 0xe9b5dba5);
    CubeRoot(Sha256Blocks.K0[4], 11, 2, 0x3956c25b);
    CubeRoot(Sha256Blocks.K0[5], 13, 2, 0x59f111f1);
    CubeRoot(Sha256Blocks.K0[6], 17, 2, 0x923f82a4);
    CubeRoot(Sha256Blocks.K0[7], 19, 2, 0xab1c5ed5);
  }

  lemma KRow1()
    ensures AllRoots(Sha256Blocks.K1, PRIMES1, 3)
  {
    hide FractionOfRoot;
    CubeRoot(Sha256Blocks.K1[0], 23, 2, 0xd807aa98);
    CubeRoot(Sha256Blocks.K1[1], 29, 3, 0x12835b01);
    CubeRoot(Sha256Blocks.K1[2], 31, 3, 0x243185be);
    CubeRoot(Sha256Blocks.K1[3], 37, 3, 0x550c7dc3);
    CubeRoot(Sha256Blocks.K1[4], 41, 3, 0x72be5d74);
    CubeRoot(Sha256Blocks.K1[5], 43, 3, 0x80deb1fe);
    CubeRoot(Sha256Blocks.K1[6], 47, 3, 0x9bdc06a7);
    CubeRoot(Sha256Blocks.K1[7], 53, 3, 0xc19bf174);
  }

  lemma KRow2()
    ensures AllRoots(Sha256Blocks.K2, PRIMES2, 3)
  {
    hide FractionOfRoot;
    CubeRoot(Sha256Blocks.K2[0], 59, 3, 0xe49b69c1);
    CubeRoot(Sha256Blocks.K2[1], 61, 3, 0xefbe4786);
    CubeRoot(Sha256Blocks.K2[2], 67, 4, 0x0fc19dc6);
    CubeRoot(Sha256Blocks.K2[3], 71, 4, 0x240ca1cc);
    CubeRoot(Sha256Blocks.K2[4], 73, 4, 0x2de92c6f);
    CubeRoot(Sha256Blocks.K2[5], 79, 4, 0x4a7484aa);
    CubeRoot(Sha256Blocks.K2[6], 83, 4, 0x5cb0a9dc);
    CubeRoot(Sha256Blocks.K2[7], 89, 4, 0x76f988da);
  }

  lemma KRow3()
    ensures AllRoots(Sha256Blocks.K3, PRIMES3, 3)
  {
    hide FractionOfRoot;
    CubeRoot(Sha256Blocks.K3[0], 97, 4, 0x983e5152);
    CubeRoot(Sha256Blocks.K3[1], 101, 4, 0xa831c66d);
    CubeRoot(Sha256Blocks.K3[2], 103, 4, 0xb00327c8);
    CubeRoot(Sha256Blocks.K3[3], 107, 4, 0xbf597fc7);
    CubeRoot(Sha256Blocks.K3[4], 109, 4, 0xc6e00bf3);
    CubeRoot(Sha256Blocks.K3[5], 113, 4, 0xd5a79147);
    CubeRoot(Sha256Blocks.K3[6], 127, 5, 0x06ca6351);
    CubeRoot(Sha256Blocks.K3[7], 131, 5, 0x14292967);
  }

  lemma KRow4()
    ensures AllRoots(Sha256Blocks.K4, PRIMES4, 3)
  {
    hide FractionOfRoot;
    CubeRoot(Sha256Blocks.K4[0], 137, 5, 0x27b70a85);
    CubeRoot(Sha256Blocks.K4[1], 139, 5, 0x2e1b2138);
    CubeRoot(Sha256Blocks.K4[2], 149, 5, 0x4d2c6dfc);
    CubeRoot(Sha256Blocks.K4[3], 151, 5, 0x53380d13);
    CubeRoot(Sha256Blocks.K4[4], 157, 5, 0x650a7354);
    CubeRoot(Sha256Blocks.K4[5], 163, 5, 0x766a0abb);
    CubeRoot(Sha256Blocks.K4[6], 167, 5, 0x81c2c92e);
    CubeRoot(Sha256Blocks.K4[7], 173, 5, 0x92722c85);
  }

  lemma KRow5()
    ensures AllRoots(Sha256Blocks.K5, PRIMES5, 3)
  {
    hide FractionOfRoot;
    CubeRoot(Sha256Blocks.K5[0], 179, 5, 0xa2bfe8a1);
    CubeRoot(Sha256Blocks.K5[1], 181, 5, 0xa81a664b);
    CubeRoot(Sha256Blocks.K5[2], 191, 5, 0xc24b8b70);
    CubeRoot(Sha256Blocks.K5[3], 193, 5, 0xc76c51a3);
    CubeRoot(Sha256Blocks.K5[4], 197, 5, 0xd192e819);
    CubeRoot(Sha256Blocks.K5[5], 199, 5, 0xd6990624);
    CubeRoot(Sha256Blocks.K5[6], 211, 5, 0xf40e3585);
    CubeRoot(Sha256Blocks.K5[7], 223, 6, 0x106aa070);
  }

  lemma KRow6()
    ensures AllRoots(Sha256Blocks.K6, PRIMES6, 3)
  {
    hide FractionOfRoot;
    CubeRoot(Sha256Blocks.K6[0], 227, 6, 0x19a4c116);
    CubeRoot(Sha256Blocks.K6[1], 229, 6, 0x1e376c08);
    CubeRoot(Sha256Blocks.K6[2], 233, 6, 0x2748774c);
    CubeRoot(Sha256Blocks.K6[3], 239, 6, 0x34b0bcb5);
    CubeRoot(Sha256Blocks.K6[4], 241, 6, 0x391c0cb3);
    CubeRoot(Sha256Blocks.K6[5], 251, 6, 0x4ed8aa4a);
    CubeRoot(Sha256Blocks.K6[6], 257, 6, 0x5b9cca4f);
    CubeRoot(Sha256Blocks.K6[7], 263, 6, 0x682e6ff3);
  }

  lemma KRow7()
    ensures AllRoots(Sha256Blocks.K7, PRIMES7, 3)
  {
    hide FractionOfRoot;
    CubeRoot(Sha256Blocks.K7[0], 269, 6, 0x748f82ee);
    CubeRoot(Sha256Blocks.K7[1], 271, 6, 0x78a5636f);
    CubeRoot(Sha256Blocks.K7[2], 277, 6, 0x84c87814);
    CubeRoot(Sha256Blocks.K7[3], 281, 6, 0x8cc70208);
    CubeRoot(Sha256Blocks.K7[4], 283, 6, 0x90befffa);
    CubeRoot(Sha256Blocks.K7[5], 293, 6, 0xa4506ceb);
    CubeRoot(Sha256Blocks.K7[6], 307, 6, 0xbef9a3f7);
    CubeRoot(Sha256Blocks.K7[7], 311, 6, 0xc67178f2);
  }

  lemma JoinRows(a: seq<Word>, b: seq<Word>, p: seq<nat>, q: seq<nat>, k: nat)
    requires k > 0 && |a| == |p| && AllRoots(a, p, k) && AllRoots(b, q, k)
    ensures AllRoots(a + b, p + q, k)
  {
    hide FractionOfRoot;
  }

  /** The initial chaining value, of which BLAKE3 mixes in the first half. */
  lemma IvIsRoots()
    ensures AllRoots(Compression.IV, PRIMES, 2)
  {
    hide FractionOfRoot;
    IvRow();
  }

  /** SHA-256 starts from the same words. */
  lemma InitialIsRoots()
    ensures AllRoots(Sha256.INITIAL, PRIMES, 2)
  {
    assert Sha256.INITIAL == Compression.IV;
    IvIsRoots();
  }

  lemma KIsRoots()
    ensures |Sha256Blocks.K| == 64 && AllRoots(Sha256Blocks.K, PRIMES, 3)
  {
    hide AllRoots;
    KRow0();
    KRow1();
    KRow2();
    KRow3();
    KRow4();
    KRow5();
    KRow6();
    KRow7();
    var k1, p1 := Sha256Blocks.K0 + Sha256Blocks.K1, PRIMES0 + PRIMES1;
    JoinRows(Sha256Blocks.K0, Sha256Blocks.K1, PRIMES0, PRIMES1, 3);
    var k2, p2 := k1 + Sha256Blocks.K2, p1 + PRIMES2;
    JoinRows(k1, Sha256Blocks.K2, p1, PRIMES2, 3);
    var k3, p3 := k2 + Sha256Blocks.K3, p2 + PRIMES3;
    JoinRows(k2, Sha256Blocks.K3, p2, PRIMES3, 3);
    var k4, p4 := k3 + Sha256Blocks.K4, p3 + PRIMES4;
    JoinRows(k3, Sha256Blocks.K4, p3, PRIMES4, 3);
    var k5, p5 := k4 + Sha256Blocks.K5, p4 + PRIMES5;
    JoinRows(k4, Sha256Blocks.K5, p4, PRIMES5, 3);
    var k6, p6 := k5 + Sha256Blocks.K6, p5 + PRIMES6;
    JoinRows(k5, Sha256Blocks.K6, p5, PRIMES6, 3);
    JoinRows(k6, Sha256Blocks.K7, p6, PRIMES7, 3);
  }
}
