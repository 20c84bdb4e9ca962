/** Arithmetic of khash.h and alignhash_tpl.h on 32-bit unsigned integers: rounding up to a power of
  * two, probe steps and load bounds. */
module HashArith {
  import opened NatBits

  const U32: nat := 0x1_0000_0000

  // ---------- facts about | ----------

  lemma OrStep(a: nat, b: nat)
    ensures Or(a, b) == (if a % 2 == 1 || b % 2 == 1 then 1 else 0) + 2 * Or(a / 2, b / 2)
  {
  }

  lemma {:induction false} OrBounds(a: nat, b: nat, m: nat)
    requires a < Pow2(m) && b < Pow2(m)
    ensures a <= Or(a, b) < Pow2(m) && b <= Or(a, b)
  {
    if m > 0 {
      OrStep(a, b);
      OrBounds(a / 2, b / 2, m - 1);
    }
  }

  /** High bits pass through. */
  lemma {:induction false} OrHigh(h: nat, lo: nat, v: nat, m: nat)
    requires lo < Pow2(m) && v < Pow2(m)
    ensures Times(h, Pow2(m)) >= 0 && Or(Times(h, Pow2(m)) + lo, v) == Times(h, Pow2(m)) + Or(lo, v)
  {
    if m > 0 {
      var p := Pow2(m - 1);
      var a := Times(h, Pow2(m)) + lo;
      assert Times(h, Pow2(m)) == 2 * Times(h, p) by { TwiceTimes(h, p); }
      OrHigh(h, lo / 2, v / 2, m - 1);
      OrStep(a, v);
      OrStep(lo, v);
      assert a / 2 == Times(h, p) + lo / 2 && a % 2 == lo % 2;
    }
  }

  lemma TwiceTimes(h: int, p: int)
    ensures Times(h, 2 * p) == 2 * Times(h, p)
  {
  }

  // ---------- kroundup32 ----------

  function Smear(y: nat, d: nat): nat
    requires d > 0
  {
    Or(y, y / d)
  }

  /** kroundup32 with its 32-bit wrap-around. */
  function RoundUp32(x: nat): nat
    requires x < U32
  {
    var y := if x == 0 then U32 - 1 else x - 1;
    var y := Smear(Smear(Smear(Smear(Smear(y, 2), 4), 16), 256), 65536);
    (y + 1) % U32
  }

  function Min(a: nat, b: nat): nat {
    if a < b then a else b
  }

  /** y has p bits and the top a of them, if there are so many, are ones. */
  predicate TopOnes(y: nat, p: nat, a: nat) {
    Pow2(p) - Pow2(p - Min(a, p)) <= y < Pow2(p)
  }

  lemma DivBounds(y: nat, lo: int, hi: int, d: nat)
    requires d > 0 && Times(lo, d) <= y < Times(hi, d)
    ensures lo <= y / d < hi
  {
    DivMod(y, d);
    var q := y / d;
    Distribute(q, hi, d);
    MulAtLeast(q - hi, d);
    Distribute(lo, q, d);
    MulAtLeast(lo - q, d);
  }

  /** One smearing step doubles the run of ones at the top. */
  lemma SmearTop(y: nat, p: nat, a: nat)
    requires TopOnes(y, p, a) && a > 0
    ensures TopOnes(Smear(y, Pow2(a)), p, 2 * a)
  {
    hide Pow2, Times, Or;
    if a >= p {
      PowOne();
      Pow2Mono(p, a);
      assert y < Pow2(a);
      ModUnique(y, Pow2(a), 0, y);
      OrZero(y);
    } else {
      var m := p - a;
      SmearLow(y, a, m);
    }
  }

  lemma OrZero(y: nat)
    ensures Or(y, 0) == y == Or(0, y)
  {
  }

  lemma SmearLow(y: nat, a: nat, m: nat)
    requires a > 0 && m > 0 && Pow2(a + m) - Pow2(m) <= y < Pow2(a + m)
    ensures Pow2(a + m) - Pow2(m - Min(a, m)) <= Smear(y, Pow2(a)) < Pow2(a + m)
  {
    hide Pow2, Times, Or;
    var h, v := Pow2(a) - 1, y / Pow2(a);
    PowTimes(a, m);
    PowTimes(m, a);
    TimesDistribute(Pow2(a), 1, Pow2(m));
    TimesOne(Pow2(m));
    var lo := y - Times(h, Pow2(m));
    TimesDistribute(Pow2(m), Pow2(m - Min(a, m)), Pow2(a));
    if a <= m {
      PowTimes(m - a, a);
    } else {
      PowOne();
      TimesOne(Pow2(a));
      Pow2Mono(m, a);
    }
    DivBounds(y, Pow2(m) - Pow2(m - Min(a, m)), Pow2(m), Pow2(a));
    OrHigh(h, lo, v, m);
    OrBounds(lo, v, m);
  }

  lemma PowTimes(j: nat, k: nat)
    ensures Pow2(j + k) == Times(Pow2(j), Pow2(k))
  {
    Pow2Add(j, k);
  }

  /** Every positive number has a highest bit. */
  lemma {:induction false} HighestBit(y: nat) returns (p: nat)
    requires y > 0
    ensures p > 0 && Pow2(p - 1) <= y < Pow2(p)
  {
    if y == 1 {
      p := 1;
    } else {
      p := HighestBit(y / 2);
      p := p + 1;
    }
  }

  lemma Powers()
    ensures Pow2(0) == 1 && Pow2(1) == 2 && Pow2(2) == 4 && Pow2(4) == 16 && Pow2(8) == 256 && Pow2(16) == 65536
    ensures Pow2(31) == 0x8000_0000 && Pow2(32) == U32
  {
    Pow2Add(8, 8);
    Pow2Add(4, 4);
    Pow2Add(16, 16);
    assert Pow2(32) == 2 * Pow2(31);
  }

  /** kroundup32 gives the least power of two that is not below its argument; beyond 2^31, and at 0, it wraps to 0. */
  lemma RoundUpCorrect(x: nat)
    requires x < U32
    ensures x == 0 || x > Pow2(31) ==> RoundUp32(x) == 0
    ensures 0 < x <= Pow2(31) ==>
      exists k: nat :: k <= 31 && RoundUp32(x) == Pow2(k) && x <= Pow2(k) && (k > 0 ==> Pow2(k - 1) < x)
  {
    hide Pow2, Smear;
    Powers();
    var y := if x == 0 then U32 - 1 else x - 1;
    if y == 0 {
      SmearZero();
      assert RoundUp32(x) == 1;
    } else {
      var p := HighestBit(y);
      if p > 32 { Pow2Mono(32, p - 1); }
      SmearAll(y, p);
      if p <= 31 { Pow2Mono(p, 31); }
    }
  }

  lemma SmearZero()
    ensures Smear(0, 2) == Smear(0, 4) == Smear(0, 16) == Smear(0, 256) == Smear(0, 65536) == 0
  {
  }

  lemma SmearAll(y: nat, p: nat)
    requires 0 < p <= 32 && Pow2(p - 1) <= y < Pow2(p)
    ensures Smear(Smear(Smear(Smear(Smear(y, 2), 4), 16), 256), 65536) == Pow2(p) - 1
  {
    hide Pow2, Smear;
    Powers();
    Pow2Double(p - 1);
    assert TopOnes(y, p, 1);
    SmearTop(y, p, 1);
    var y1 := Smear(y, 2);
    SmearTop(y1, p, 2);
    var y2 := Smear(y1, 4);
    SmearTop(y2, p, 4);
    var y3 := Smear(y2, 16);
    SmearTop(y3, p, 8);
    var y4 := Smear(y3, 256);
    SmearTop(y4, p, 16);
  }

  // ---------- load bounds ----------

  /** (khint_t)(n * 0.77 + 0.5), __ac_HASH_UPPER = 0.77. */
  function KhBound(n: nat): int {
    (n as real * 0.77 + 0.5).Floor
  }

  /** AH_LOAD_FACTOR 0.50, linear probing. */
  function LinearBound(n: nat): int {
    (n as real * 0.50 + 0.5).Floor
  }

  /** AH_LOAD_FACTOR 0.80, tier probing. */
  function TierBound(n: nat): int {
    (n as real * 0.80 + 0.5).Floor
  }

  lemma BoundsFit(n: nat)
    ensures 0 <= KhBound(n) <= n && (n >= 4 ==> 3 <= KhBound(n) < n)
    ensures 0 <= LinearBound(n) <= n && 0 <= TierBound(n) <= n
    ensures n >= 2 ==>
      1 <= LinearBound(n) < n && LinearBound(n) < LinearBound(2 * n) && 1 <= TierBound(n) < TierBound(2 * n)
  {
  }

  lemma {:induction false} NotFives(k: nat)
    ensures Pow2(k) % 5 != 0
  {
    if k > 0 { NotFives(k - 1); }
  }

  /** r is what a computation in doubles makes of the exact value x, with an error of at most a thousandth. */
  predicate Computed(r: real, x: real) {
    x - 0.001 <= r <= x + 0.001
  }

  /** No size of a table comes close enough to a whole number for the rounding of doubles to matter. */
  lemma BoundsInDoubles(k: nat, kh: real, tier: real)
    requires Computed(kh, Pow2(k) as real * 0.77 + 0.5) && Computed(tier, Pow2(k) as real * 0.80 + 0.5)
    ensures kh.Floor == KhBound(Pow2(k)) && tier.Floor == TierBound(Pow2(k))
  {
    hide Pow2;
    NotFives(k);
    var n := Pow2(k);
    NeverWhole(n, n / 5, n % 5);
    FloorOfHundredths(77 * n + 50, kh, n as real * 0.77 + 0.5);
    FloorOfHundredths(80 * n + 50, tier, n as real * 0.80 + 0.5);
  }

  lemma NeverWhole(n: nat, q: nat, r: nat)
    requires n == 5 * q + r && 1 <= r <= 4
    ensures (77 * n + 50) % 100 != 0 && (80 * n + 50) % 100 != 0
  {
    var x, y := 77 * n + 50, 80 * n + 50;
    assert x == 5 * (77 * q + 15 * r + 10) + 2 * r;
    assert x % 100 == x - 5 * (20 * (x / 100));
    assert y == 20 * (4 * n + 2) + 10;
    assert y % 100 == y - 20 * (5 * (y / 100));
  }

  lemma FloorOfHundredths(h: nat, r: real, x: real)
    requires h % 100 != 0 && 100.0 * x == h as real && Computed(r, x)
    ensures r.Floor == x.Floor
  {
    DivMod(h, 100);
    FloorBetween(h / 100, h % 100, r, x);
  }

  lemma FloorBetween(q: int, rest: int, r: real, x: real)
    requires 1 <= rest <= 99 && 100.0 * x == (100 * q + rest) as real && Computed(r, x)
    ensures r.Floor == x.Floor == q
  {
  }

  // ---------- sizes ----------

  lemma {:induction false} Pow2Unique(x: nat, j: nat, k: nat)
    requires x <= Pow2(j) && x <= Pow2(k) && (j > 0 ==> Pow2(j - 1) < x) && (k > 0 ==> Pow2(k - 1) < x)
    ensures j == k
  {
    if j < k { Pow2Mono(j, k - 1); }
    if k < j { Pow2Mono(k, j - 1); }
  }

  lemma RoundsTo(x: nat, k: nat)
    requires 0 < x <= Pow2(k) && k <= 31 && (k > 0 ==> Pow2(k - 1) < x)
    ensures x < U32 && RoundUp32(x) == Pow2(k)
  {
    hide RoundUp32;
    Powers();
    Pow2Mono(k, 31);
    RoundUpCorrect(x);
    var j: nat :| j <= 31 && RoundUp32(x) == Pow2(j) && x <= Pow2(j) && (j > 0 ==> Pow2(j - 1) < x);
    Pow2Unique(x, j, k);
  }

  /** The size kh_resize rounds a request to. */
  function KhSize(want: nat): nat
    requires want < U32
  {
    if RoundUp32(want) < 4 then 4 else RoundUp32(want)
  }

  /** The size kh_put asks for: the same one again when tombstones fill the table, else the next. */
  function KhPutSize(n: nat, size: nat): nat
    requires n < U32
  {
    if n > (size * 2) % U32 then KhSize(n - 1) else KhSize((n + 1) % U32)
  }

  lemma KhSizePower(want: nat)
    requires want < U32
    ensures IsPow2(KhSize(want)) && 4 <= KhSize(want) <= Pow2(31)
    ensures if 4 < want <= Pow2(31) then want <= KhSize(want) < 2 * want else KhSize(want) == 4
  {
    hide RoundUp32;
    Powers();
    RoundUpCorrect(want);
    assert IsPow2(4) by { assert Pow2(2) == 4; }
    if KhSize(want) != 4 {
      var k: nat :| k <= 31 && RoundUp32(want) == Pow2(k);
      Pow2Mono(k, 31);
    }
  }

  lemma KhSizeNear(k: nat)
    requires 2 <= k <= 31
    ensures 4 <= Pow2(k) <= 0x8000_0000 && KhSize(Pow2(k) - 1) == Pow2(k)
    ensures KhSize(Pow2(k) + 1) == if k < 31 then 2 * Pow2(k) else 4
  {
    hide RoundUp32;
    Powers();
    Pow2Mono(k, 31);
    Pow2Mono(2, k);
    Pow2Double(k - 1);
    RoundsTo(Pow2(k) - 1, k);
    if k < 31 {
      Pow2Double(k);
      Pow2Mono(k + 1, 31);
      RoundsTo(Pow2(k) + 1, k + 1);
    } else {
      RoundUpCorrect(Pow2(k) + 1);
    }
  }

  /** The resize of kh_put is never refused below 2^31 buckets, where it yields the same size or the next;
    * at 2^31 buckets it is refused exactly when at least half of them hold keys. */
  lemma KhPutNeverRefused(n: nat, size: nat)
    requires IsPow2(n) && 4 <= n <= Pow2(31) && size <= n
    ensures n < U32
    ensures n < Pow2(31) ==> size < KhBound(KhPutSize(n, size)) < KhPutSize(n, size)
    ensures n < Pow2(31) ==> KhPutSize(n, size) == if n > 2 * size then n else 2 * n
    ensures n == Pow2(31) ==>
      (size < KhBound(KhPutSize(n, size)) <==> size < Pow2(30)) && (size < Pow2(30) ==> KhPutSize(n, size) == n)
  {
    hide KhBound, KhSize, Pow2;
    Powers();
    Pow2Double(30);
    var k: nat :| n == Pow2(k);
    if k < 2 { Pow2Mono(k, 1); }
    if k < 31 { Pow2Mono(k, 30); }
    if k > 31 { Pow2Mono(32, k); }
    KhSizeNear(k);
    KhBoundHalf(n);
    KhBoundHalf(2 * n);
    KhBoundHalf(4);
  }

  lemma KhBoundHalf(n: nat)
    requires n >= 4
    ensures n / 2 < KhBound(n) < n && KhBound(4) == 3 && KhBound(0x8000_0000) < 0x7000_0000
  {
  }

  lemma KhPutFirst()
    ensures KhPutSize(0, 0) == 4 && KhBound(4) == 3
  {
    hide RoundUp32;
    assert Pow2(0) == 1;
    RoundsTo(1, 0);
  }

  // ---------- probe steps ----------

  lemma OrOdd(x: nat)
    ensures Or(x, 1) % 2 == 1
  {
    OrStep(x, 1);
  }

  lemma AndOddOdd(a: nat, b: nat)
    requires a % 2 == 1 && b % 2 == 1
    ensures And(a, b) % 2 == 1
  {
  }

  /** __ac_inc without KHASH_LINEAR. */
  function KhInc(k: nat, mask: nat): nat {
    And(Or(Xor(k / 8, (k * 8) % U32), 1), mask)
  }

  /** AH_PROBE_STEP with AH_TIER_PROBING. */
  function TierStep(h: nat): nat {
    Or(Xor(h, h / 8192), 1)
  }

  lemma StepsAreOdd(k: nat, mask: nat)
    requires mask % 2 == 1
    ensures KhInc(k, mask) % 2 == 1 && TierStep(k) % 2 == 1
  {
    OrOdd(Xor(k / 8, (k * 8) % U32));
    AndOddOdd(Or(Xor(k / 8, (k * 8) % U32), 1), mask);
    OrOdd(Xor(k, k / 8192));
  }
}
