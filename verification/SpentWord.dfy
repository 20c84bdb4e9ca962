/** The 64-bit `spent` word of an inventory entry: a block, an unspent transaction with its number of
  * outputs, or a position in the spent map with a bit for each of the first eight outputs. */
module SpentWord {
  import opened NatBits
  import opened BitSets
  import HashArith

  const U64: nat := 0x1_0000_0000_0000_0000
  const BLOCK: nat := 0xffff_ffff_ffff_ffff
  const SPENT_BITS: nat := 8
  const SPENT_MASK: nat := 0x00ff_ffff_ffff_ffff
  const SPENT_MAX: nat := 0x00ff_fffe_ffff_ffff
  const SPENT_UMARK: nat := 0x00ff_ffff_0000_0000
  const SPENT_UMASK: nat := 0x0000_0000_ffff_ffff

  /** What a word stands for.  `spenders` says which outputs are spent and where. */
  datatype Status = Block | Fresh(nOut: nat) | Spent(pos: nat, nOut: nat, spenders: map<nat, nat>)

  /** bz_txi_spent_map[i]. */
  function SpentBit(i: nat): nat
    requires i < SPENT_BITS
  {
    Pow2(63 - i)
  }

  /** The test for an uninitialised word. */
  predicate IsUnmarked(w: nat) {
    And(w, SPENT_UMARK) == SPENT_UMARK
  }

  /** The bit of output i. */
  predicate Marked(w: nat, i: nat)
    requires i < SPENT_BITS
  {
    Bit(w, 63 - i)
  }

  ghost predicate Encodes(w: nat, st: Status) {
    && w < U64
    && match st
       case Block => w == BLOCK
       case Fresh(n) => n <= SPENT_UMASK && w == SPENT_UMARK + n
       case Spent(pos, _, spenders) =>
         pos <= SPENT_MAX && w % Pow2(56) == pos &&
         forall i: nat :: i < SPENT_BITS ==> (Marked(w, i) <==> i in spenders)
  }

  lemma Constants()
    ensures Pow2(32) == 0x1_0000_0000 && Pow2(24) == 0x100_0000 && Pow2(56) == SPENT_MASK + 1 && Pow2(64) == U64
    ensures Shl(0xff_ffff, 32) == SPENT_UMARK && Shl(0xff_ffff, 32) == SPENT_MAX + 1
  {
    hide Shl, Pow2;
    HashArith.Powers();
    Pow2Add(16, 8);
    Pow2Add(24, 32);
    Pow2Add(32, 32);
    ShlTimes(0xff_ffff, 32);
  }

  /** The uninitialised test looks at bits 32 to 55. */
  lemma UnmarkedBits(w: nat)
    ensures IsUnmarked(w) <==> Shr(w, 32) % Pow2(24) == 0xff_ffff
  {
    hide And, Shl, Shr, Pow2;
    Constants();
    AndShifted(w, 0xff_ffff, 32);
    AndMask(Shr(w, 32), 24);
    ShlInjective(And(Shr(w, 32), 0xff_ffff), 0xff_ffff, 32);
  }

  /** The low bytes of a word decide whether it looks uninitialised, and no position up to the maximum does. */
  lemma PositionIsMarked(w: nat)
    requires w % Pow2(56) <= SPENT_MAX
    ensures !IsUnmarked(w) && w != BLOCK
  {
    hide And, Shl, Shr, Pow2, IsUnmarked;
    Constants();
    UnmarkedBits(w);
    ShrMod(w, 32, 24);
    ShrBelow(w % Pow2(56), 0xff_ffff, 32);
    assert BLOCK % Pow2(56) == SPENT_MASK;
  }

  /** Writing the uninitialised word, and reading the number of outputs back. */
  lemma UnmarkedRead(n: nat)
    ensures And(n, SPENT_UMASK) == n % Pow2(32)
    ensures Or(SPENT_UMARK, And(n, SPENT_UMASK)) == SPENT_UMARK + n % Pow2(32)
    ensures IsUnmarked(SPENT_UMARK + n % Pow2(32)) && And(SPENT_UMARK + n % Pow2(32), SPENT_UMASK) == n % Pow2(32)
  {
    hide And, Or, Shl, Shr, Pow2, IsUnmarked;
    Constants();
    AndMask(n, 32);
    var v := n % Pow2(32);
    ShlTimes(0xff_ffff, 32);
    HashArith.OrHigh(0xff_ffff, 0, v, 32);
    HashArith.OrZero(v);
    UnmarkedBits(SPENT_UMARK + v);
    ShrOfSum(0xff_ffff, v, 32);
    AndMask(SPENT_UMARK + v, 32);
  }

  /** Setting an output's bit keeps the position and the other bits. */
  lemma BitMarked(w: nat, i: nat)
    requires w < U64 && i < SPENT_BITS
    ensures var w' := Or(w, SpentBit(i));
      && w' < U64 && w' % Pow2(56) == w % Pow2(56)
      && forall j: nat :: j < SPENT_BITS ==> (Marked(w', j) <==> i == j || Marked(w, j))
  {
    hide Or, Pow2, Bit;
    Constants();
    Pow2Double(63);
    Pow2Mono(63 - i, 63);
    HashArith.OrBounds(w, Pow2(63 - i), 64);
    SetBitLow(w, 63 - i, 56);
    forall j: nat | j < SPENT_BITS ensures Marked(Or(w, Pow2(63 - i)), j) <==> i == j || Marked(w, j) {
      SetBit(w, 63 - i, 63 - j);
    }
  }

  /** A fresh position has no output marked. */
  lemma NoneMarked(pos: nat, n: nat)
    requires pos <= SPENT_MAX
    ensures Encodes(pos, Spent(pos, n, map[]))
  {
    hide Bit, Pow2;
    Constants();
    ModUnique(pos, Pow2(56), 0, pos);
    forall i: nat | i < SPENT_BITS ensures !Marked(pos, i) {
      HighBitsClear(pos, 56, 63 - i);
    }
  }

  /** What bzing_spent_mark reads off a word is what it stands for. */
  lemma ReadWord(w: nat, st: Status)
    requires Encodes(w, st)
    ensures w == BLOCK <==> st.Block?
    ensures st.Fresh? ==> IsUnmarked(w) && And(w, SPENT_UMASK) == st.nOut
    ensures st.Spent? ==> !IsUnmarked(w) && And(w, SPENT_MASK) == st.pos
  {
    hide And, Or, Bit, Pow2, IsUnmarked;
    Constants();
    if st.Fresh? {
      ModUnique(st.nOut, Pow2(32), 0, st.nOut);
      UnmarkedRead(st.nOut);
    } else if st.Spent? {
      PositionIsMarked(w);
      AndMask(w, 56);
    }
  }

  /** The word of a transaction with no output spent: the marker with the number of its outputs. */
  lemma FreshWords(w: nat, st: Status)
    requires Encodes(w, st)
    ensures w == SPENT_UMARK <==> st == Fresh(0)
    ensures st.Fresh? ==> w == 0x00ff_ffff_0000_0000 + st.nOut && And(w, 0xffff_ffff) == st.nOut
    ensures st.Block? ==> w == 0xffff_ffff_ffff_ffff
  {
    hide And, Bit, Pow2, IsUnmarked;
    ReadWord(w, st);
    if st.Spent? && w == SPENT_UMARK { Exclusive(w, st, Fresh(0)); }
  }

  /** The three kinds of word exclude each other, and a word determines everything but the later spenders. */
  lemma Exclusive(w: nat, st: Status, st': Status)
    requires Encodes(w, st) && Encodes(w, st')
    ensures st.Block? == st'.Block? && st.Fresh? == st'.Fresh? && st.Spent? == st'.Spent?
    ensures st.Fresh? ==> st == st'
    ensures st.Spent? ==>
      st.pos == st'.pos && forall i: nat :: i < SPENT_BITS ==> (i in st.spenders <==> i in st'.spenders)
  {
    hide And, Bit, Pow2, IsUnmarked;
    ReadWord(w, st);
    ReadWord(w, st');
  }

  // ---------- the word, bit by bit ----------

  /** bz_txi_spent_map. */
  lemma SpentBits()
    ensures SpentBit(0) == 0x8000_0000_0000_0000 && SpentBit(1) == 0x4000_0000_0000_0000
    ensures SpentBit(2) == 0x2000_0000_0000_0000 && SpentBit(3) == 0x1000_0000_0000_0000
    ensures SpentBit(4) == 0x0800_0000_0000_0000 && SpentBit(5) == 0x0400_0000_0000_0000
    ensures SpentBit(6) == 0x0200_0000_0000_0000 && SpentBit(7) == 0x0100_0000_0000_0000
  {
    hide Pow2;
    Constants();
    Pow2Double(56);
    Pow2Double(57);
    Pow2Double(58);
    Pow2Double(59);
    Pow2Double(60);
    Pow2Double(61);
    Pow2Double(62);
  }

  /** One more bit of a number. */
  lemma {:induction false} NextBit(w: nat, j: nat)
    ensures w % Pow2(j + 1) == w % Pow2(j) + if Bit(w, j) then Pow2(j) else 0
  {
    hide Pow2;
    PowOne();
    Pow2Double(j);
    DoubleMod(w, Pow2(j));
    if j > 0 {
      Pow2Double(j - 1);
      DoubleMod(w, Pow2(j - 1));
      NextBit(w / 2, j - 1);
    }
  }

  function Low(w: nat, j: nat): nat {
    w % Pow2(j)
  }

  function BitOf(st: Status, i: nat): nat
    requires st.Spent? && i < SPENT_BITS
  {
    if i in st.spenders then SpentBit(i) else 0
  }

  lemma HighBit(w: nat, st: Status, i: nat)
    requires st.Spent? && Encodes(w, st) && i < SPENT_BITS
    ensures Low(w, 64 - i) == Low(w, 63 - i) + BitOf(st, i)
  {
    hide Pow2, Bit;
    NextBit(w, 63 - i);
    assert Marked(w, i) <==> i in st.spenders;
  }

  lemma WholeWord(w: nat, st: Status)
    requires st.Spent? && Encodes(w, st)
    ensures Low(w, 64) == w && Low(w, 56) == st.pos
  {
    hide Pow2, Bit;
    Constants();
    ModUnique(w, U64, 0, w);
  }

  /** The high byte is the set of spent outputs below 8, the first output its highest bit; the rest is the position. */
  lemma WordIsSum(w: nat, st: Status)
    requires st.Spent? && Encodes(w, st)
    ensures w == st.pos
      + (if 0 in st.spenders then 0x8000_0000_0000_0000 else 0)
      + (if 1 in st.spenders then 0x4000_0000_0000_0000 else 0)
      + (if 2 in st.spenders then 0x2000_0000_0000_0000 else 0)
      + (if 3 in st.spenders then 0x1000_0000_0000_0000 else 0)
      + (if 4 in st.spenders then 0x0800_0000_0000_0000 else 0)
      + (if 5 in st.spenders then 0x0400_0000_0000_0000 else 0)
      + (if 6 in st.spenders then 0x0200_0000_0000_0000 else 0)
      + (if 7 in st.spenders then 0x0100_0000_0000_0000 else 0)
  {
    hide Low, SpentBit, Encodes;
    SpentBits();
    WholeWord(w, st);
    HighBit(w, st, 0);
    HighBit(w, st, 1);
    HighBit(w, st, 2);
    HighBit(w, st, 3);
    HighBit(w, st, 4);
    HighBit(w, st, 5);
    HighBit(w, st, 6);
    HighBit(w, st, 7);
  }
}
