/** Numbers as sets of bits: testing and setting one bit with a mask. */
module BitSets {
  import opened NatBits
  import HashArith

  function Shr(bm: nat, k: nat): nat {
    if k == 0 then bm else Shr(bm / 2, k - 1)
  }

  function Shl(v: nat, k: nat): nat {
    if k == 0 then v else 2 * Shl(v, k - 1)
  }

  predicate Bit(bm: nat, i: nat) {
    if i == 0 then bm % 2 == 1 else Bit(bm / 2, i - 1)
  }

  lemma {:induction false} TestBit(bm: nat, i: nat)
    ensures And(bm, Pow2(i)) != 0 <==> Bit(bm, i)
  {
    if i > 0 && bm > 0 {
      TestBit(bm / 2, i - 1);
    } else if i > 0 {
      BitOfZero(i);
    } else if bm > 0 {
      AndZero(bm / 2);
    }
  }

  lemma {:induction false} BitOfZero(i: nat)
    ensures !Bit(0, i)
  {
    if i > 0 { BitOfZero(i - 1); }
  }

  lemma {:induction false} SetBit(bm: nat, i: nat, j: nat)
    ensures Bit(Or(bm, Pow2(i)), j) <==> i == j || Bit(bm, j)
    decreases j
  {
    HashArith.OrStep(bm, Pow2(i));
    if j == 0 {
    } else if i > 0 {
      SetBit(bm / 2, i - 1, j - 1);
    } else {
      HashArith.OrZero(bm / 2);
    }
  }

  lemma {:induction false} HighBitsClear(x: nat, m: nat, j: nat)
    requires x < Pow2(m) && m <= j
    ensures !Bit(x, j)
  {
    if m == 0 {
      BitOfZero(j);
    } else {
      HighBitsClear(x / 2, m - 1, j - 1);
    }
  }

  /** Setting a bit leaves the lower bits as they are. */
  lemma {:induction false} SetBitLow(x: nat, k: nat, m: nat)
    requires m <= k
    ensures Or(x, Pow2(k)) % Pow2(m) == x % Pow2(m)
  {
    hide Or;
    if m == 0 {
      PowOne();
    } else {
      Pow2Double(k - 1);
      Pow2Double(m - 1);
      HashArith.OrStep(x, Pow2(k));
      SetBitLow(x / 2, k - 1, m - 1);
      DoubleMod(Or(x, Pow2(k)), Pow2(m - 1));
      DoubleMod(x, Pow2(m - 1));
    }
  }

  /** A mask that starts at bit m. */
  lemma {:induction false} AndShifted(x: nat, v: nat, m: nat)
    ensures And(x, Shl(v, m)) == Shl(And(Shr(x, m), v), m)
  {
    hide And;
    if m > 0 {
      AndEven(x, Shl(v, m - 1));
      AndShifted(x / 2, v, m - 1);
    }
  }

  lemma AndEven(x: nat, y: nat)
    ensures And(x, 2 * y) == 2 * And(x / 2, y)
  {
    hide And;
    AndStep(x, 2 * y);
    assert 2 * y / 2 == y && 2 * y % 2 == 0;
  }

  lemma {:induction false} ShlInjective(a: nat, b: nat, m: nat)
    ensures Shl(a, m) == Shl(b, m) <==> a == b
  {
    if m > 0 { ShlInjective(a, b, m - 1); }
  }

  lemma {:induction false} ShlTimes(v: nat, m: nat)
    ensures Shl(v, m) == Times(v, Pow2(m))
  {
    if m > 0 {
      ShlTimes(v, m - 1);
      HashArith.TwiceTimes(v, Pow2(m - 1));
    }
  }

  lemma {:induction false} ShrMod(x: nat, a: nat, b: nat)
    ensures Shr(x % Pow2(a + b), a) == Shr(x, a) % Pow2(b)
  {
    hide Pow2, Shr;
    ShrUnfold(x, a);
    ShrUnfold(x % Pow2(a + b), a);
    if a > 0 {
      HalfMasked(x, a + b);
      ShrMod(x / 2, a - 1, b);
    }
  }

  lemma ShrUnfold(x: nat, k: nat)
    ensures Shr(x, k) == if k == 0 then x else Shr(x / 2, k - 1)
  {
  }

  /** The lowest bit of a masked word, and the rest of it. */
  lemma HalfMasked(x: nat, m: nat)
    requires m > 0
    ensures x % Pow2(m) % 2 == x % 2 && x % Pow2(m) / 2 == x / 2 % Pow2(m - 1)
  {
    hide Pow2;
    Pow2Double(m - 1);
    DoubleMod(x, Pow2(m - 1));
    TwoDigits(x % Pow2(m), x / 2 % Pow2(m - 1), x % 2);
  }

  lemma TwoDigits(v: nat, h: nat, d: nat)
    requires v == d + 2 * h && d < 2
    ensures v % 2 == d && v / 2 == h
  {
  }

  lemma {:induction false} ShrBelow(x: nat, q: nat, m: nat)
    requires x < Shl(q, m)
    ensures Shr(x, m) < q
  {
    if m > 0 { ShrBelow(x / 2, q, m - 1); }
  }

  /** What is at bit m and above of h 2^m + lo. */
  lemma {:induction false} ShrOfSum(h: nat, lo: nat, m: nat)
    requires lo < Pow2(m)
    ensures Shr(Shl(h, m) + lo, m) == h
  {
    if m > 0 { ShrOfSum(h, lo / 2, m - 1); }
  }

  // ---------- the operators, bit by bit ----------

  /** The lowest bit of a number, and the bits above it. */
  lemma DigitBit(x: nat, c: nat, i: nat)
    requires c < 2
    ensures Bit(c + 2 * x, i) <==> if i == 0 then c == 1 else Bit(x, i - 1)
  {
    assert (c + 2 * x) / 2 == x && (c + 2 * x) % 2 == c;
  }

  lemma {:induction false} AndBit(a: nat, b: nat, i: nat)
    ensures Bit(And(a, b), i) <==> Bit(a, i) && Bit(b, i)
    decreases i
  {
    hide And;
    AndStep(a, b);
    DigitBit(And(a / 2, b / 2), if a % 2 == 1 && b % 2 == 1 then 1 else 0, i);
    if i > 0 { AndBit(a / 2, b / 2, i - 1); }
  }

  lemma {:induction false} OrBit(a: nat, b: nat, i: nat)
    ensures Bit(Or(a, b), i) <==> Bit(a, i) || Bit(b, i)
    decreases i
  {
    hide Or;
    HashArith.OrStep(a, b);
    DigitBit(Or(a / 2, b / 2), if a % 2 == 1 || b % 2 == 1 then 1 else 0, i);
    if i > 0 { OrBit(a / 2, b / 2, i - 1); }
  }

  lemma XorStep(a: nat, b: nat)
    ensures Xor(a, b) == (if a % 2 != b % 2 then 1 else 0) + 2 * Xor(a / 2, b / 2)
  {
  }

  lemma {:induction false} XorBit(a: nat, b: nat, i: nat)
    ensures Bit(Xor(a, b), i) <==> (Bit(a, i) <==> !Bit(b, i))
    decreases i
  {
    hide Xor;
    XorStep(a, b);
    DigitBit(Xor(a / 2, b / 2), if a % 2 != b % 2 then 1 else 0, i);
    if i > 0 { XorBit(a / 2, b / 2, i - 1); }
  }

  lemma {:induction false} ModBit(x: nat, m: nat, i: nat)
    requires i < m
    ensures Bit(x % Pow2(m), i) <==> Bit(x, i)
    decreases i
  {
    hide Pow2;
    HalfMasked(x, m);
    if i > 0 { ModBit(x / 2, m - 1, i - 1); }
  }

  /** The probe step of khash: bit i is that of k >> 3 ^ k << 3 in 32 bits, the lowest always set, masked. */
  lemma KhIncBits(k: nat, mask: nat, i: nat)
    requires i < 32
    ensures Bit(HashArith.KhInc(k, mask), i) <==>
      Bit(mask, i) && (i == 0 || (Bit(k, i + 3) <==> !(i >= 3 && Bit(k, i - 3))))
  {
    hide And, Or, Xor, Pow2;
    HashArith.Powers();
    var up, down := (k * 8) % HashArith.U32, k / 8;
    AndBit(Or(Xor(down, up), 1), mask, i);
    OrBit(Xor(down, up), 1, i);
    XorBit(down, up, i);
    ModBit(k * 8, 32, i);
    EightTimes(k, i);
    OneBit(i);
  }

  lemma EightTimes(k: nat, i: nat)
    ensures Bit(k / 8, i) <==> Bit(k, i + 3)
    ensures Bit(k * 8, i) <==> i >= 3 && Bit(k, i - 3)
  {
    assert k / 2 / 2 / 2 == k / 8;
    assert Bit(k, i + 3) == Bit(k / 2, i + 2) == Bit(k / 2 / 2, i + 1) == Bit(k / 2 / 2 / 2, i);
    assert k * 8 / 2 == k * 4 && k * 4 / 2 == k * 2 && k * 2 / 2 == k;
    assert k * 8 % 2 == 0 && k * 4 % 2 == 0 && k * 2 % 2 == 0;
    assert i >= 1 ==> Bit(k * 8, i) == Bit(k * 4, i - 1);
    assert i >= 2 ==> Bit(k * 4, i - 1) == Bit(k * 2, i - 2);
    assert i >= 3 ==> Bit(k * 2, i - 2) == Bit(k, i - 3);
  }

  lemma {:induction false} OneBit(i: nat)
    ensures Bit(1, i) <==> i == 0
  {
    if i > 0 { BitOfZero(i - 1); }
  }

  /** The step of AH_TIER_PROBING: bit i is that of h ^ h >> 13, the lowest always set. */
  lemma TierStepBits(h: nat, i: nat)
    ensures Bit(HashArith.TierStep(h), i) <==> i == 0 || (Bit(h, i) <==> !Bit(h, i + 13))
  {
    hide Or, Xor;
    OrBit(Xor(h, h / 8192), 1, i);
    XorBit(h, h / 8192, i);
    OneBit(i);
    ShiftedBit(h, i);
  }

  lemma ShiftedBit(h: nat, i: nat)
    ensures Bit(h / 8192, i) <==> Bit(h, i + 13)
  {
    EightTimes(h, i + 10);
    EightTimes(h / 8, i + 7);
    EightTimes(h / 64, i + 4);
    EightTimes(h / 512, i + 1);
    assert Bit(h / 4096, i + 1) == Bit(h / 4096 / 2, i);
    assert h / 8 / 8 == h / 64 && h / 64 / 8 == h / 512 && h / 512 / 8 == h / 4096 && h / 4096 / 2 == h / 8192;
  }
}
