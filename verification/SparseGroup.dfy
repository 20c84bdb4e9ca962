/** The sparse arrays of libchash.c: 64 buckets to a group, a bitmap saying which are occupied, and
  * only those stored.  A group behaves like a plain array of optional items. */
module SparseGroup {
  import opened NatBits
  import opened Options
  import opened BitSets
  import HashArith

  // ---------- bitmaps ----------

  /** The number of set bits below i. */
  function Rank(bm: nat, i: nat): nat {
    if i == 0 then 0 else bm % 2 + Rank(bm / 2, i - 1)
  }

  lemma {:induction false} RankStep(bm: nat, i: nat)
    ensures Rank(bm, i + 1) == Rank(bm, i) + if Bit(bm, i) then 1 else 0
  {
    if i > 0 { RankStep(bm / 2, i - 1); }
  }

  lemma {:induction false} RankMono(bm: nat, i: nat, j: nat)
    requires i <= j
    ensures Rank(bm, i) <= Rank(bm, j) <= Rank(bm, i) + j - i
    ensures (forall m :: i <= m < j ==> !Bit(bm, m)) <==> Rank(bm, i) == Rank(bm, j)
  {
    if i < j {
      RankMono(bm, i, j - 1);
      RankStep(bm, j - 1);
    }
  }

  lemma {:induction false} RankAdd(bm: nat, a: nat, b: nat)
    ensures Rank(bm, a + b) == Rank(bm, a) + Rank(Shr(bm, a), b)
  {
    if a > 0 { RankAdd(bm / 2, a - 1, b); }
  }

  lemma {:induction false} RankOfZero(b: nat)
    ensures Rank(0, b) == 0
  {
    if b > 0 { RankOfZero(b - 1); }
  }

  /** Bits past the m-th of a masked word are clear. */
  lemma {:induction false} RankOfMasked(bm: nat, m: nat, b: nat)
    requires m <= b
    ensures Rank(bm % Pow2(m), b) == Rank(bm, m)
  {
    hide Rank, Pow2;
    if m == 0 {
      PowOne();
      RankOfZero(b);
      RankUnfold(bm, 0);
    } else {
      RankOfMasked(bm / 2, m - 1, b - 1);
      RankUnfold(bm, m);
      RankUnfold(bm % Pow2(m), b);
      HalfMasked(bm, m);
    }
  }

  lemma RankUnfold(bm: nat, i: nat)
    ensures Rank(bm, i) == if i == 0 then 0 else bm % 2 + Rank(bm / 2, i - 1)
  {
  }

  // ---------- EntriesUpto ----------

  const ROW0: seq<nat> := [0, 1, 1, 2, 1, 2, 2, 3, 1, 2, 2, 3, 2, 3, 3, 4]
  const ROW1: seq<nat> := [1, 2, 2, 3, 2, 3, 3, 4, 2, 3, 3, 4, 3, 4, 4, 5]
  const ROW2: seq<nat> := [2, 3, 3, 4, 3, 4, 4, 5, 3, 4, 4, 5, 4, 5, 5, 6]
  const ROW3: seq<nat> := [3, 4, 4, 5, 4, 5, 5, 6, 4, 5, 5, 6, 5, 6, 6, 7]
  const ROW4: seq<nat> := [4, 5, 5, 6, 5, 6, 6, 7, 5, 6, 6, 7, 6, 7, 7, 8]

  /** The sixteen rows of rgcBits; they repeat with the number of bits in the high half of the index. */
  function Row(r: nat): (s: seq<nat>)
    requires r < 16
    ensures |s| == 16
  {
    if r == 0 then ROW0
    else if r in {1, 2, 4, 8} then ROW1
    else if r in {3, 5, 6, 9, 10, 12} then ROW2
    else if r == 15 then ROW4
    else ROW3
  }

  function RgcBits(b: nat): nat
    requires b < 256
  {
    Row(b / 16)[b % 16]
  }

  lemma ShrFour(b: nat)
    ensures Shr(b, 4) == b / 16
  {
    var b1, b2, b3 := b / 2, b / 4, b / 8;
    assert b1 / 2 == b2 && b2 / 2 == b3 && b3 / 2 == b / 16;
    assert Shr(b3, 1) == Shr(b / 16, 0) == b / 16;
    assert Shr(b1, 3) == Shr(b2, 2) == Shr(b3, 1);
  }

  /** The table counts the bits of a byte. */
  lemma RgcBitsCount(b: nat)
    requires b < 256
    ensures RgcBits(b) == Rank(b, 8)
  {
    hide Rank, Shr, Row, Pow2;
    ShrFour(b);
    RankAdd(b, 4, 4);
    assert Pow2(4) == 16 by { HashArith.Powers(); }
    RankOfMasked(b, 4, 4);
    RowCounts(b / 16, b % 16);
  }

  lemma RowCounts(r: nat, c: nat)
    requires r < 16 && c < 16
    ensures Row(r)[c] == Rank(c, 4) + Rank(r, 4)
  {
    hide Rank, Nibble, Row;
    FourBits(r);
    FourBits(c);
    RowOf(r);
    Rows(c);
  }

  lemma RowOf(r: nat)
    requires r < 16
    ensures Row(r) == if Nibble(r) == 0 then ROW0 else if Nibble(r) == 1 then ROW1 else if Nibble(r) == 2 then ROW2
                      else if Nibble(r) == 3 then ROW3 else ROW4
    ensures Nibble(r) <= 4
  {
    Rows(r);
  }

  /** The number of bits in a half byte. */
  function Nibble(c: nat): nat {
    c % 2 + c / 2 % 2 + c / 4 % 2 + c / 8 % 2
  }

  lemma FourBits(c: nat)
    requires c < 16
    ensures Rank(c, 4) == Nibble(c)
  {
    assert Rank(c / 8, 1) == c / 8 % 2;
    assert c / 4 / 2 == c / 8;
    assert Rank(c / 4, 2) == c / 4 % 2 + c / 8 % 2;
    assert c / 2 / 2 == c / 4;
  }

  /** Row k of the table counts the bits of its index, and k more. */
  lemma Rows(c: nat)
    requires c < 16
    ensures ROW0[c] == Nibble(c) && ROW1[c] == Nibble(c) + 1 && ROW2[c] == Nibble(c) + 2
    ensures ROW3[c] == Nibble(c) + 3 && ROW4[c] == Nibble(c) + 4
  {
    if c < 8 { RowsLow(c); } else { RowsHigh(c); }
  }

  lemma RowsLow(c: nat)
    requires c < 8
    ensures ROW0[c] == Nibble(c) && ROW1[c] == Nibble(c) + 1 && ROW2[c] == Nibble(c) + 2
    ensures ROW3[c] == Nibble(c) + 3 && ROW4[c] == Nibble(c) + 4
  {
    assert c == 0 || c == 1 || c == 2 || c == 3 || c == 4 || c == 5 || c == 6 || c == 7;
  }

  lemma RowsHigh(c: nat)
    requires 8 <= c < 16
    ensures ROW0[c] == Nibble(c) && ROW1[c] == Nibble(c) + 1 && ROW2[c] == Nibble(c) + 2
    ensures ROW3[c] == Nibble(c) + 3 && ROW4[c] == Nibble(c) + 4
  {
    assert c == 8 || c == 9 || c == 10 || c == 11 || c == 12 || c == 13 || c == 14 || c == 15;
  }

  /** The first k bytes, looked up whole. */
  function WholeBytes(bm: nat, k: nat): nat {
    if k == 0 then 0 else WholeBytes(bm, k - 1) + ByteCount(bm, 8 * (k - 1), 8)
  }

  /** rgcBits[(bm >> at) & ((1 << m) - 1)]. */
  function ByteCount(bm: nat, at: nat, m: nat): nat
    requires m <= 8
  {
    MaskedByte(Shr(bm, at), m);
    RgcBits(And(Shr(bm, at), Pow2(m) - 1))
  }

  lemma MaskedByte(x: nat, m: nat)
    requires m <= 8
    ensures And(x, Pow2(m) - 1) == x % Pow2(m) < 256
  {
    AndMask(x, m);
    Pow2Mono(m, 8);
    HashArith.Powers();
  }

  /** EntriesUpto for one bitmap word: whole bytes first, then the last one masked. */
  function EntriesUpto(bm: nat, i: nat): nat
    requires i <= 64
  {
    if i == 0 then 0 else var k := (i - 1) / 8; WholeBytes(bm, k) + ByteCount(bm, 8 * k, i - 8 * k)
  }

  lemma ByteCounts(bm: nat, at: nat, m: nat)
    requires m <= 8
    ensures ByteCount(bm, at, m) == Rank(Shr(bm, at), m)
  {
    hide Pow2, And, Rank, RgcBits;
    MaskedByte(Shr(bm, at), m);
    RgcBitsCount(And(Shr(bm, at), Pow2(m) - 1));
    RankOfMasked(Shr(bm, at), m, 8);
  }

  lemma {:induction false} WholeBytesCount(bm: nat, k: nat)
    ensures WholeBytes(bm, k) == Rank(bm, 8 * k)
  {
    hide Rank, Shr, ByteCount;
    if k > 0 {
      WholeBytesCount(bm, k - 1);
      ByteCounts(bm, 8 * (k - 1), 8);
      RankAdd(bm, 8 * (k - 1), 8);
    } else {
      RankNone(bm);
    }
  }

  lemma RankNone(bm: nat)
    ensures Rank(bm, 0) == 0
  {
  }

  /** EntriesUpto is the number of set bits below i. */
  lemma EntriesUptoCounts(bm: nat, i: nat)
    requires i <= 64
    ensures EntriesUpto(bm, i) == Rank(bm, i)
  {
    hide Rank, Shr, ByteCount, WholeBytes;
    if i == 0 {
      RankNone(bm);
    } else {
      var k := (i - 1) / 8;
      WholeBytesCount(bm, k);
      ByteCounts(bm, 8 * k, i - 8 * k);
      RankAdd(bm, 8 * k, i - 8 * k);
    }
  }

  // ---------- SET_BITMAP ----------

  lemma {:induction false} SetBitRank(bm: nat, i: nat, j: nat)
    requires !Bit(bm, i)
    ensures Rank(Or(bm, Pow2(i)), j) == Rank(bm, j) + if i < j then 1 else 0
  {
    hide Or, Pow2, Bit;
    if j == 0 {
    } else {
      SetBitRank(bm, i, j - 1);
      RankStep(bm, j - 1);
      RankStep(Or(bm, Pow2(i)), j - 1);
      SetBit(bm, i, j - 1);
    }
  }
}
