/** What the tables and functions of SHA-2 are, apart from how they are written down: the constants are the fractional
  * parts of roots of the first primes (sections 4.2.2, 4.2.3, 5.3.3 to 5.3.5 of FIPS 180-4), and the functions are
  * described bit by bit. */
module Sha2Laws {
  import Sha256Spec
  import Sha512Spec

  // ---------- the first eighty primes ----------

  ghost predicate Prime(n: nat) {
    n >= 2 && forall d :: 2 <= d < n ==> n % d != 0
  }

  const PRIMES: seq<seq<nat>> := [
    [2, 3, 5, 7, 11, 13, 17, 19], [23, 29, 31, 37, 41, 43, 47, 53], [59, 61, 67, 71, 73, 79, 83, 89],
    [97, 101, 103, 107, 109, 113, 127, 131], [137, 139, 149, 151, 157, 163, 167, 173],
    [179, 181, 191, 193, 197, 199, 211, 223], [227, 229, 233, 239, 241, 251, 257, 263],
    [269, 271, 277, 281, 283, 293, 307, 311], [313, 317, 331, 337, 347, 349, 353, 359],
    [367, 373, 379, 383, 389, 397, 401, 409]]

  lemma PrimeRows()
    ensures |PRIMES| == 10 && forall r :: 0 <= r < 10 ==> |PRIMES[r]| == 8
  {
  }

  function NthPrime(t: nat): nat
    requires t < 80
  {
    PrimeRows();
    PRIMES[t / 8][t % 8]
  }

  predicate Clear(n: nat, p: nat)
    requires p > 0
  {
    n == p || n % p != 0
  }

  /** No divisor among the primes below 23. */
  predicate Sifted(n: nat) {
    && n >= 2 && Clear(n, 2) && Clear(n, 3) && Clear(n, 5) && Clear(n, 7)
    && Clear(n, 11) && Clear(n, 13) && Clear(n, 17) && Clear(n, 19)
  }

  /** A multiple of a number from 2 to 22 is a multiple of one of those primes. */
  lemma SmallDivisor(d: nat, q: nat)
    requires 2 <= d <= 22 && q >= 2
    ensures !Sifted(d * q)
  {
    hide Sifted;
    var p := if d % 2 == 0 then 2 else if d % 3 == 0 then 3 else if d % 5 == 0 then 5 else d;
    var e := d / p;
    assert p in {2, 3, 5, 7, 11, 13, 17, 19} && d == p * e && e >= 1;
    Multiple(p, e, q);
  }

  lemma Multiple(p: nat, e: nat, q: nat)
    requires p in {2, 3, 5, 7, 11, 13, 17, 19} && e >= 1 && q >= 2
    ensures !Sifted(p * e * q)
  {
    hide Sifted;
    var m := e * q;
    assert m >= 2;
    assert p * e * q == p * m;
    MultipleOf(p, m);
  }

  lemma MultipleOf(p: nat, m: nat)
    requires p in {2, 3, 5, 7, 11, 13, 17, 19} && m >= 2
    ensures !Sifted(p * m)
  {
    hide Sifted;
    if p == 2 { Caught(2 * m, 2); }
    if p == 3 { Caught(3 * m, 3); }
    if p == 5 { Caught(5 * m, 5); }
    if p == 7 { Caught(7 * m, 7); }
    if p == 11 { Caught(11 * m, 11); }
    if p == 13 { Caught(13 * m, 13); }
    if p == 17 { Caught(17 * m, 17); }
    if p == 19 { Caught(19 * m, 19); }
  }

  lemma Caught(n: nat, p: nat)
    requires p in {2, 3, 5, 7, 11, 13, 17, 19} && n != p && n % p == 0
    ensures !Sifted(n)
  {
  }

  /** Below 23 * 23, sifting by those primes finds the primes. */
  lemma SiftedIsPrime(n: nat)
    requires n < 529
    ensures Sifted(n) <==> Prime(n)
  {
    hide Sifted;
    if n >= 2 && !Prime(n) {
      var d :| 2 <= d < n && n % d == 0;
      Divided(n, d);
      Product(d, n / d);
    }
    if Prime(n) && !Sifted(n) { NotSifted(n); }
    if n < 2 { TooSmall(n); }
  }

  lemma Divided(n: nat, d: nat)
    requires 2 <= d < n && n % d == 0
    ensures n == d * (n / d) && n / d >= 2
  {
    var q := n / d;
    assert n == d * q;
    assert q != 0 && q != 1;
  }

  lemma Product(d: nat, q: nat)
    requires 2 <= d && 2 <= q && d * q < 529
    ensures !Sifted(d * q)
  {
    hide Sifted;
    if d <= 22 {
      SmallDivisor(d, q);
    } else {
      Large(d, q);
      SmallDivisor(q, d);
      assert q * d == d * q;
    }
  }

  lemma Large(d: nat, q: nat)
    requires d >= 23 && d * q < 529
    ensures q <= 22
  {
    assert (d - 23) * q >= 0;
  }

  lemma TooSmall(n: nat)
    requires n < 2
    ensures !Sifted(n)
  {
  }

  lemma NotSifted(n: nat)
    requires n >= 2 && !Sifted(n)
    ensures !Prime(n)
  {
    var p :| p in {2, 3, 5, 7, 11, 13, 17, 19} && n != p && n % p == 0;
    assert 2 <= p < n;
  }

  predicate NoneBetween(a: nat, b: nat)
    decreases b - a
  {
    a >= b || (!Sifted(a) && (a + 1 == b || (!Sifted(a + 1) && NoneBetween(a + 2, b))))
  }

  predicate Follows(p: nat, q: nat) {
    p < q < 529 && Sifted(q) && NoneBetween(p + 1, q)
  }

  /** Row cells from c on go on with the primes after p. */
  predicate InOrder(row: seq<nat>, p: nat, c: nat)
    requires |row| == 8 && c <= 8
    decreases 8 - c
  {
    c == 8 || (Follows(p, row[c]) && InOrder(row, row[c], c + 1))
  }

  predicate RowInOrder(r: nat)
    requires r < 10
  {
    PrimeRows();
    InOrder(PRIMES[r], if r == 0 then 0 else PRIMES[r - 1][7], 0)
  }

  lemma Row0()
    ensures RowInOrder(0)
  {
    assert InOrder(PRIMES[0], PRIMES[0][3], 4);
  }

  lemma Row1()
    ensures RowInOrder(1)
  {
    assert InOrder(PRIMES[1], PRIMES[1][3], 4);
  }

  lemma Row2()
    ensures RowInOrder(2)
  {
    assert InOrder(PRIMES[2], PRIMES[2][3], 4);
  }

  lemma Row3()
    ensures RowInOrder(3)
  {
    assert InOrder(PRIMES[3], PRIMES[3][3], 4);
  }

  lemma Row4()
    ensures RowInOrder(4)
  {
    assert InOrder(PRIMES[4], PRIMES[4][3], 4);
  }

  lemma Row5()
    ensures RowInOrder(5)
  {
    assert InOrder(PRIMES[5], PRIMES[5][3], 4);
  }

  lemma Row6()
    ensures RowInOrder(6)
  {
    assert InOrder(PRIMES[6], PRIMES[6][3], 4);
  }

  lemma Row7()
    ensures RowInOrder(7)
  {
    assert InOrder(PRIMES[7], PRIMES[7][3], 4);
  }

  lemma Row8()
    ensures RowInOrder(8)
  {
    assert InOrder(PRIMES[8], PRIMES[8][3], 4);
  }

  lemma Row9()
    ensures RowInOrder(9)
  {
    assert InOrder(PRIMES[9], PRIMES[9][3], 4);
  }

  lemma AllRows(r: nat)
    requires r < 10
    ensures RowInOrder(r)
  {
    hide RowInOrder;
    match r {
      case 0 => Row0();
      case 1 => Row1();
      case 2 => Row2();
      case 3 => Row3();
      case 4 => Row4();
      case 5 => Row5();
      case 6 => Row6();
      case 7 => Row7();
      case 8 => Row8();
      case _ => Row9();
    }
  }

  lemma {:induction false} CellInOrder(row: seq<nat>, p: nat, c: nat, j: nat)
    requires |row| == 8 && c <= j < 8 && InOrder(row, p, c)
    ensures Follows(if j == c then p else row[j - 1], row[j])
    decreases j - c
  {
    hide Follows;
    if c < j { CellInOrder(row, row[c], c + 1, j); }
  }

  lemma {:induction false} NoneThere(a: nat, b: nat, n: nat)
    requires a <= n < b <= 529 && NoneBetween(a, b)
    ensures !Prime(n)
    decreases n - a
  {
    hide Sifted, Prime;
    if n <= a + 1 { SiftedIsPrime(n); } else { NoneThere(a + 2, b, n); }
  }

  /** PRIMES holds the primes in order, and none is left out. */
  lemma PrimesInOrder(t: nat, n: nat)
    requires t < 80
    ensures var p := if t == 0 then 0 else NthPrime(t - 1);
      p < NthPrime(t) && Prime(NthPrime(t)) && (p < n < NthPrime(t) ==> !Prime(n))
  {
    hide Sifted, Prime, RowInOrder, NoneBetween, NthPrime, PRIMES;
    var r, c := t / 8, t % 8;
    AllRows(r);
    RowFollows(r, c);
    SiftedIsPrime(NthPrime(t));
    var p := if t == 0 then 0 else NthPrime(t - 1);
    if p < n < NthPrime(t) { NoneThere(p + 1, NthPrime(t), n); }
  }

  lemma RowFollows(r: nat, c: nat)
    requires r < 10 && c < 8 && RowInOrder(r)
    ensures var t := 8 * r + c;
      t < 80 && Follows(if t == 0 then 0 else NthPrime(t - 1), NthPrime(t))
  {
    hide Follows, PRIMES;
    PrimeRows();
    CellInOrder(PRIMES[r], if r == 0 then 0 else PRIMES[r - 1][7], 0, c);
  }

  // ---------- the constants ----------

  /** k / scale is the fractional part of the cube root of p, cut off after the digits of k. */
  ghost predicate CubeRootOf(k: nat, p: nat, scale: nat) {
    exists q: nat :: Cubed(k, p, q, scale)
  }

  predicate Cubed(k: nat, p: nat, q: nat, scale: nat) {
    var x := q * scale + k;
    k < scale && x * x * x <= p * (scale * scale * scale) < (x + 1) * (x + 1) * (x + 1)
  }

  /** The same for the square root. */
  ghost predicate SquareRootOf(k: nat, p: nat, scale: nat) {
    exists q: nat :: Squared(k, p, q, scale)
  }

  predicate Squared(k: nat, p: nat, q: nat, scale: nat) {
    var x := q * scale + k;
    k < scale && x * x <= p * (scale * scale) < (x + 1) * (x + 1)
  }

  function IntCubeRoot(p: nat): nat {
    if p < 8 then 1 else if p < 27 then 2 else if p < 64 then 3 else if p < 125 then 4
    else if p < 216 then 5 else if p < 343 then 6 else 7
  }

  const U32: nat := 0x1_0000_0000
  const U64: nat := 0x1_0000_0000_0000_0000

  predicate CubeRow256(r: nat, c: nat)
    requires r < 8 && c <= 8
    decreases 8 - c
  {
    PrimeRows();
    Sha256Spec.K256Rows();
    c == 8 ||
    (Cubed(Sha256Spec.K256[r][c] as nat, PRIMES[r][c], IntCubeRoot(PRIMES[r][c]), U32) && CubeRow256(r, c + 1))
  }

  predicate CubeRow512(r: nat, c: nat)
    requires r < 10 && c <= 8
    decreases 8 - c
  {
    PrimeRows();
    Sha512Spec.K512Rows();
    c == 8 ||
    (Cubed(Sha512Spec.K512[r][c] as nat, PRIMES[r][c], IntCubeRoot(PRIMES[r][c]), U64) && CubeRow512(r, c + 1))
  }

  lemma Cubes256_0()
    ensures CubeRow256(0, 0)
  {
  }

  lemma Cubes256_1()
    ensures CubeRow256(1, 0)
  {
  }

  lemma Cubes256_2()
    ensures CubeRow256(2, 0)
  {
  }

  lemma Cubes256_3()
    ensures CubeRow256(3, 0)
  {
  }

  lemma Cubes256_4()
    ensures CubeRow256(4, 0)
  {
  }

  lemma Cubes256_5()
    ensures CubeRow256(5, 0)
  {
  }

  lemma Cubes256_6()
    ensures CubeRow256(6, 0)
  {
  }

  lemma Cubes256_7()
    ensures CubeRow256(7, 0)
  {
  }

  lemma Cubes512_0()
    ensures CubeRow512(0, 0)
  {
  }

  lemma Cubes512_1()
    ensures CubeRow512(1, 0)
  {
  }

  lemma Cubes512_2()
    ensures CubeRow512(2, 0)
  {
  }

  lemma Cubes512_3()
    ensures CubeRow512(3, 0)
  {
  }

  lemma Cubes512_4()
    ensures CubeRow512(4, 0)
  {
  }

  lemma Cubes512_5()
    ensures CubeRow512(5, 0)
  {
  }

  lemma Cubes512_6()
    ensures CubeRow512(6, 0)
  {
  }

  lemma Cubes512_7()
    ensures CubeRow512(7, 0)
  {
  }

  lemma Cubes512_8()
    ensures CubeRow512(8, 0)
  {
  }

  lemma Cubes512_9()
    ensures CubeRow512(9, 0)
  {
  }

  lemma Cubes256(r: nat)
    requires r < 8
    ensures CubeRow256(r, 0)
  {
    hide CubeRow256;
    match r {
      case 0 => Cubes256_0();
      case 1 => Cubes256_1();
      case 2 => Cubes256_2();
      case 3 => Cubes256_3();
      case 4 => Cubes256_4();
      case 5 => Cubes256_5();
      case 6 => Cubes256_6();
      case _ => Cubes256_7();
    }
  }

  lemma Cubes512(r: nat)
    requires r < 10
    ensures CubeRow512(r, 0)
  {
    hide CubeRow512;
    match r {
      case 0 => Cubes512_0();
      case 1 => Cubes512_1();
      case 2 => Cubes512_2();
      case 3 => Cubes512_3();
      case 4 => Cubes512_4();
      case 5 => Cubes512_5();
      case 6 => Cubes512_6();
      case 7 => Cubes512_7();
      case 8 => Cubes512_8();
      case _ => Cubes512_9();
    }
  }

  lemma {:induction false} CubeCell256(r: nat, c: nat, j: nat)
    requires r < 8 && c <= j < 8 && CubeRow256(r, c)
    ensures |PRIMES| == 10 && |Sha256Spec.K256| == 8 && |Sha256Spec.K256[r]| == |PRIMES[r]| == 8
    ensures CubeRootOf(Sha256Spec.K256[r][j] as nat, PRIMES[r][j], U32)
    decreases j - c
  {
    hide Cubed, PRIMES, Sha256Spec.K256, IntCubeRoot;
    PrimeRows();
    Sha256Spec.K256Rows();
    if c < j { CubeCell256(r, c + 1, j); }
  }

  lemma {:induction false} CubeCell512(r: nat, c: nat, j: nat)
    requires r < 10 && c <= j < 8 && CubeRow512(r, c)
    ensures |PRIMES| == |Sha512Spec.K512| == 10 && |Sha512Spec.K512[r]| == |PRIMES[r]| == 8
    ensures CubeRootOf(Sha512Spec.K512[r][j] as nat, PRIMES[r][j], U64)
    decreases j - c
  {
    hide Cubed, PRIMES, Sha512Spec.K512, IntCubeRoot;
    PrimeRows();
    Sha512Spec.K512Rows();
    if c < j { CubeCell512(r, c + 1, j); }
  }

  /** Section 4.2.2: the first 32 bits of the fractional parts of the cube roots of the first 64 primes. */
  lemma K256FromPrimes(t: nat)
    requires t < 64
    ensures CubeRootOf(Sha256Spec.K(t) as nat, NthPrime(t), U32)
  {
    hide CubeRootOf, CubeRow256, PRIMES, Sha256Spec.K256;
    Cubes256(t / 8);
    CubeCell256(t / 8, 0, t % 8);
  }

  /** Section 4.2.3: the first 64 bits for the first 80 primes. */
  lemma K512FromPrimes(t: nat)
    requires t < 80
    ensures CubeRootOf(Sha512Spec.K(t) as nat, NthPrime(t), U64)
  {
    hide CubeRootOf, CubeRow512, PRIMES, Sha512Spec.K512;
    Cubes512(t / 8);
    CubeCell512(t / 8, 0, t % 8);
  }

  function Words256(r: Sha256Spec.Regs): (s: seq<bv32>)
    ensures |s| == 8
  {
    [r.a, r.b, r.c, r.d, r.e, r.f, r.g, r.h]
  }

  function Words512(r: Sha512Spec.Regs): (s: seq<bv64>)
    ensures |s| == 8
  {
    [r.a, r.b, r.c, r.d, r.e, r.f, r.g, r.h]
  }

  /** Section 5.3.3: the first 32 bits of the fractional parts of the square roots of the first eight primes. */
  lemma Initial256FromPrimes(i: nat)
    requires i < 8
    ensures SquareRootOf(Words256(Sha256Spec.INITIAL)[i] as nat, NthPrime(i), U32)
  {
    var w := Words256(Sha256Spec.INITIAL);
    assert Squared(w[0] as nat, 2, 1, U32) && Squared(w[1] as nat, 3, 1, U32);
    assert Squared(w[2] as nat, 5, 2, U32) && Squared(w[3] as nat, 7, 2, U32);
    assert Squared(w[4] as nat, 11, 3, U32) && Squared(w[5] as nat, 13, 3, U32);
    assert Squared(w[6] as nat, 17, 4, U32) && Squared(w[7] as nat, 19, 4, U32);
  }

  lemma Initial512Low()
    ensures Squared(Words512(Sha512Spec.INITIAL_512)[0] as nat, 2, 1, U64)
    ensures Squared(Words512(Sha512Spec.INITIAL_512)[1] as nat, 3, 1, U64)
    ensures Squared(Words512(Sha512Spec.INITIAL_512)[2] as nat, 5, 2, U64)
    ensures Squared(Words512(Sha512Spec.INITIAL_512)[3] as nat, 7, 2, U64)
  {
  }

  lemma Initial512High()
    ensures Squared(Words512(Sha512Spec.INITIAL_512)[4] as nat, 11, 3, U64)
    ensures Squared(Words512(Sha512Spec.INITIAL_512)[5] as nat, 13, 3, U64)
    ensures Squared(Words512(Sha512Spec.INITIAL_512)[6] as nat, 17, 4, U64)
    ensures Squared(Words512(Sha512Spec.INITIAL_512)[7] as nat, 19, 4, U64)
  {
  }

  /** Section 5.3.5: the first 64 bits for the first eight primes. */
  lemma Initial512FromPrimes(i: nat)
    requires i < 8
    ensures SquareRootOf(Words512(Sha512Spec.INITIAL_512)[i] as nat, NthPrime(i), U64)
  {
    hide Squared;
    Initial512Low();
    Initial512High();
  }

  lemma Initial384Low()
    ensures Squared(Words512(Sha512Spec.INITIAL_384)[0] as nat, 23, 4, U64)
    ensures Squared(Words512(Sha512Spec.INITIAL_384)[1] as nat, 29, 5, U64)
    ensures Squared(Words512(Sha512Spec.INITIAL_384)[2] as nat, 31, 5, U64)
    ensures Squared(Words512(Sha512Spec.INITIAL_384)[3] as nat, 37, 6, U64)
  {
  }

  lemma Initial384High()
    ensures Squared(Words512(Sha512Spec.INITIAL_384)[4] as nat, 41, 6, U64)
    ensures Squared(Words512(Sha512Spec.INITIAL_384)[5] as nat, 43, 6, U64)
    ensures Squared(Words512(Sha512Spec.INITIAL_384)[6] as nat, 47, 6, U64)
    ensures Squared(Words512(Sha512Spec.INITIAL_384)[7] as nat, 53, 7, U64)
  {
  }

  /** Section 5.3.4: the first 64 bits for the ninth to the sixteenth prime. */
  lemma Initial384FromPrimes(i: nat)
    requires i < 8
    ensures SquareRootOf(Words512(Sha512Spec.INITIAL_384)[i] as nat, NthPrime(8 + i), U64)
  {
    hide Squared;
    Initial384Low();
    Initial384High();
  }

  // ---------- the functions ----------

  /** Ch takes the bits of y where x has ones and those of z where it has zeros; ... */
  lemma Choice256(x: bv32, y: bv32, z: bv32)
    ensures Sha256Spec.Ch(x, y, z) & x == y & x && Sha256Spec.Ch(x, y, z) & !x == z & !x
  {
  }

  lemma Choice512(x: bv64, y: bv64, z: bv64)
    ensures Sha512Spec.Ch(x, y, z) & x == y & x && Sha512Spec.Ch(x, y, z) & !x == z & !x
  {
  }

  /** ... Maj has the bit that x and y share, and treats its arguments alike. */
  lemma Majority256(x: bv32, y: bv32, z: bv32)
    ensures Sha256Spec.Maj(x, y, z) & x & y == x & y && Sha256Spec.Maj(x, y, z) & !x & !y == 0
  {
  }

  lemma MajorityAlike256(x: bv32, y: bv32, z: bv32)
    ensures Sha256Spec.Maj(x, y, z) == Sha256Spec.Maj(y, x, z) == Sha256Spec.Maj(y, z, x)
  {
  }

  lemma Majority512(x: bv64, y: bv64, z: bv64)
    ensures Sha512Spec.Maj(x, y, z) & x & y == x & y && Sha512Spec.Maj(x, y, z) & !x & !y == 0
  {
  }

  lemma MajorityAlike512(x: bv64, y: bv64, z: bv64)
    ensures Sha512Spec.Maj(x, y, z) == Sha512Spec.Maj(y, x, z) == Sha512Spec.Maj(y, z, x)
  {
  }

  /** Known answers for SHA-512: round 20 of the example "abc" of FIPS 180-4, ... */
  lemma KnownRound512()
    ensures Sha512Spec.Round(
      Sha512Spec.Regs(0x9a3fb4d3_8ab6cf06, 0x3c4b4104_168e3edb, 0x4725be24_9ad19e6b, 0xcaf81a42_5d800537,
                      0xf14998dd_5f70767e, 0x29695fd8_8d81dbd0, 0xf47e8353_f8047455, 0x2deecc6b_39d64d78),
      0x2de92c6f_592b0275, 0x549ef626_39858996) ==
      Sha512Spec.Regs(0x8dc5ae65_569d3855, 0x9a3fb4d3_8ab6cf06, 0x3c4b4104_168e3edb, 0x4725be24_9ad19e6b,
                      0x4bb9e66d_1145bfdc, 0xf14998dd_5f70767e, 0x29695fd8_8d81dbd0, 0xf47e8353_f8047455)
  {
  }

  /** ... and word 16 of the first block of its two-block example. */
  lemma KnownWord512(m: seq<bv64>)
    requires |m| == 16 && m[0] == 0x61626364_65666768 && m[1] == 0x62636465_66676869
    requires m[9] == 0x6a6b6c6d_6e6f7071 && m[14] == 0x80000000_00000000
    ensures Sha512Spec.W(m, 16) == 0xa664f76f_f06ef569
  {
    hide Sha512Spec.Sum, Sha512Spec.SmallSigma0, Sha512Spec.SmallSigma1;
    GrownWord();
  }

  lemma GrownWord()
    ensures Sha512Spec.Sum(Sha512Spec.Sum(Sha512Spec.Sum(Sha512Spec.SmallSigma1(0x80000000_00000000),
      0x6a6b6c6d_6e6f7071), Sha512Spec.SmallSigma0(0x62636465_66676869)), 0x61626364_65666768) == 0xa664f76f_f06ef569
  {
  }

  /** Words are stored highest byte first, ... */
  lemma KnownBytes512()
    ensures Sha512Spec.BeBytes(0x01020304_05060708) == [1, 2, 3, 4, 5, 6, 7, 8]
    ensures Sha512Spec.Be([1, 2, 3, 4, 5, 6, 7, 8]) == 0x01020304_05060708
  {
  }

  lemma FourParts<T>(a: seq<T>, b: seq<T>, c: seq<T>, d: seq<T>, tail: seq<T>)
    requires |a| == |b| == |c| == |d| == 8
    ensures var s := a + b + c + d + tail; s[..8] == a && s[8..16] == b && s[16..24] == c && s[24..32] == d
  {
  }

  /** ... and a digest is the words in order. */
  lemma DigestInOrder512(r: Sha512Spec.Regs)
    ensures var d := Sha512Spec.DigestOf(r);
      && d[..8] == Sha512Spec.BeBytes(r.a) && d[8..16] == Sha512Spec.BeBytes(r.b)
      && d[16..24] == Sha512Spec.BeBytes(r.c) && d[24..32] == Sha512Spec.BeBytes(r.d)
      && d[32..][..8] == Sha512Spec.BeBytes(r.e) && d[32..][8..16] == Sha512Spec.BeBytes(r.f)
      && d[32..][16..24] == Sha512Spec.BeBytes(r.g) && d[32..][24..32] == Sha512Spec.BeBytes(r.h)
  {
    hide Sha512Spec.BeBytes;
    var a, b := Sha512Spec.BeBytes(r.a), Sha512Spec.BeBytes(r.b);
    var c, d := Sha512Spec.BeBytes(r.c), Sha512Spec.BeBytes(r.d);
    var e, f := Sha512Spec.BeBytes(r.e), Sha512Spec.BeBytes(r.f);
    var g, h := Sha512Spec.BeBytes(r.g), Sha512Spec.BeBytes(r.h);
    var last := e + f + g + h;
    FourParts(a, b, c, d, last);
    FourParts(e, f, g, h, []);
    assert e + f + g + h + [] == last;
    Split512(a, b, c, d, e, f, g, h);
  }

  lemma Split512<T>(a: seq<T>, b: seq<T>, c: seq<T>, d: seq<T>, e: seq<T>, f: seq<T>, g: seq<T>, h: seq<T>)
    requires |a| == |b| == |c| == |d| == 8
    ensures a + b + c + d + e + f + g + h == a + b + c + d + (e + f + g + h)
    ensures (a + b + c + d + (e + f + g + h))[32..] == e + f + g + h
  {
    var x := a + b + c + d;
    assert x + e + f + g + h == x + (e + f + g + h);
  }
}
