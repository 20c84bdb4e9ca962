/** Bitwise operators on natural numbers, and the facts about powers of two that masks rely on. */
module NatBits {

  function Pow2(k: nat): (p: nat)
    ensures p > 0
  {
    if k == 0 then 1 else 2 * Pow2(k - 1)
  }

  ghost predicate IsPow2(n: nat) {
    exists k: nat :: n == Pow2(k)
  }

  function And(a: nat, b: nat): nat {
    if a == 0 || b == 0 then 0 else (if a % 2 == 1 && b % 2 == 1 then 1 else 0) + 2 * And(a / 2, b / 2)
  }

  function Or(a: nat, b: nat): nat {
    if a == 0 then b else if b == 0 then a
    else (if a % 2 == 1 || b % 2 == 1 then 1 else 0) + 2 * Or(a / 2, b / 2)
  }

  function Xor(a: nat, b: nat): nat {
    if a == 0 then b else if b == 0 then a
    else (if a % 2 != b % 2 then 1 else 0) + 2 * Xor(a / 2, b / 2)
  }

  lemma Pow2Double(k: nat)
    ensures Pow2(k + 1) == 2 * Pow2(k)
  {
  }

  lemma {:induction false} Pow2Mono(j: nat, k: nat)
    requires j <= k
    ensures Pow2(j) <= Pow2(k)
  {
    if j < k { Pow2Mono(j, k - 1); }
  }

  lemma {:induction false} Pow2Add(j: nat, k: nat)
    ensures Pow2(j + k) == Pow2(j) * Pow2(k)
  {
    if j > 0 {
      Pow2Add(j - 1, k);
      assert Pow2(j + k) == 2 * Pow2(j - 1 + k);
    }
  }

  // ---------- products and remainders ----------

  lemma MulAtLeast(a: int, n: int)
    requires n >= 0
    ensures a >= 1 ==> a * n >= n
    ensures a <= -1 ==> a * n <= -n
  {
    if a >= 1 {
      assert (a - 1) * n >= 0;
    } else if a <= -1 {
      assert (-a - 1) * n >= 0;
    }
  }

  /** A product as a name, for proofs that must not expand it. */
  function Times(a: int, b: int): int {
    a * b
  }

  lemma TimesOne(a: int)
    ensures Times(1, a) == a
  {
  }

  lemma TimesDistribute(a: int, b: int, c: int)
    ensures Times(a - b, c) == Times(a, c) - Times(b, c)
    ensures Times(a + b, c) == Times(a, c) + Times(b, c)
    ensures Times(a, c) == Times(c, a)
  {
  }

  lemma Distribute(a: int, b: int, c: int)
    ensures (a - b) * c == a * c - b * c
    ensures (a + b) * c == a * c + b * c
  {
  }

  lemma DivMod(x: nat, n: nat)
    requires n > 0
    ensures x == (x / n) * n + x % n && 0 <= x % n < n
  {
  }

  lemma ModUnique(x: nat, n: nat, q: int, r: int)
    requires n > 0 && x == q * n + r && 0 <= r < n
    ensures x % n == r && x / n == q
  {
    DivMod(x, n);
    var q', r' := x / n, x % n;
    Distribute(q, q', n);
    MulAtLeast(q - q', n);
  }

  lemma TimesAssoc(a: int, b: int, c: int)
    ensures Times(a, Times(b, c)) == Times(Times(a, b), c)
  {
    assert a * (b * c) == (a * b) * c;
  }

  lemma DivModTimes(x: nat, n: nat)
    requires n > 0
    ensures x == Times(x / n, n) + x % n && 0 <= x % n < n
  {
    DivMod(x, n);
  }

  lemma ModTimes(x: nat, n: nat, q: int, r: int)
    requires n > 0 && x == Times(q, n) + r && 0 <= r < n
    ensures x % n == r && x / n == q
  {
    ModUnique(x, n, q, r);
  }

  lemma DoubleMod(x: nat, p: nat)
    requires p > 0
    ensures x % (2 * p) == x % 2 + 2 * ((x / 2) % p)
  {
    var y := x / 2;
    DivMod(y, p);
    var q, r := y / p, y % p;
    assert x == 2 * y + x % 2;
    assert 2 * (q * p) == q * (2 * p);
    ModUnique(x, 2 * p, q, 2 * r + x % 2);
  }

  /** A mask of k one bits takes the remainder modulo 2^k. */
  lemma {:induction false} AndMask(x: nat, k: nat)
    ensures And(x, Pow2(k) - 1) == x % Pow2(k)
  {
    hide And, Pow2;
    AndZero(x);
    if k == 0 {
      PowOne();
    } else if x == 0 {
      AndZero(Pow2(k) - 1);
      ModUnique(0, Pow2(k), 0, 0);
    } else {
      var p := Pow2(k - 1);
      Pow2Double(k - 1);
      AndMask(x / 2, k - 1);
      DoubleMod(x, p);
      AndOdd(x, p - 1);
      assert And(x, 2 * p - 1) == x % 2 + 2 * And(x / 2, p - 1);
    }
  }

  lemma PowOne()
    ensures Pow2(0) == 1 && forall x: nat {:trigger x % Pow2(0)} :: x % Pow2(0) == 0
  {
  }

  lemma AndStep(a: nat, b: nat)
    ensures And(a, b) == (if a % 2 == 1 && b % 2 == 1 then 1 else 0) + 2 * And(a / 2, b / 2)
  {
  }

  lemma AndZero(x: nat)
    ensures And(x, 0) == 0 == And(0, x)
  {
  }

  lemma AndOdd(x: nat, b: nat)
    requires x > 0
    ensures And(x, 2 * b + 1) == x % 2 + 2 * And(x / 2, b)
  {
    assert (2 * b + 1) / 2 == b && (2 * b + 1) % 2 == 1;
  }
}
