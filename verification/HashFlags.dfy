/** The two-bit flags of khash.h and alignhash_tpl.h, packed for sixteen buckets into a 32-bit word. */
module HashFlags {
  import opened NatBits
  import opened HashArith

  type Word = w: nat | w < U32

  /** Bit 2 set: never used.  Bit 1 set: deleted.  Neither: live.  Both never occurs in a table. */
  datatype Slot = Live | Deleted | Empty | Both

  /** (w >> 2j) & 3. */
  function Field(w: nat, j: nat): (f: nat)
    ensures f < 4
  {
    if j == 0 then w % 4 else Field(w / 4, j - 1)
  }

  /** m << 2j. */
  function Shl(m: nat, j: nat): nat {
    if j == 0 then m else 4 * Shl(m, j - 1)
  }

  function Decode(f: nat): Slot {
    if f == 0 then Live else if f == 1 then Deleted else if f == 2 then Empty else Both
  }

  function SlotAt(flags: seq<Word>, i: nat): Slot
    requires i / 16 < |flags|
  {
    Decode(Field(flags[i / 16], i % 16))
  }

  function SlotsOf(flags: seq<Word>, n: nat): (r: seq<Slot>)
    requires n <= 16 * |flags|
    ensures |r| == n && forall i :: 0 <= i < n ==> r[i] == SlotAt(flags, i)
  {
    seq(n, i requires 0 <= i < n => SlotAt(flags, i))
  }

  // ---------- one field of a combined word ----------

  lemma Halves(a: nat)
    ensures a / 2 / 2 == a / 4 && a % 4 == a % 2 + 2 * (a / 2 % 2)
    ensures a % 4 % 2 == a % 2 && a % 4 / 2 == a / 2 % 2 && a % 4 / 2 / 2 == 0
  {
  }

  lemma OrQuarters(a: nat, b: nat)
    ensures Or(a, b) / 4 == Or(a / 4, b / 4) && Or(a, b) % 4 == Or(a % 4, b % 4)
  {
    hide Or;
    Halves(a);
    Halves(b);
    OrStep(a, b);
    OrStep(a / 2, b / 2);
    OrStep(a % 4, b % 4);
    OrStep(a % 4 / 2, b % 4 / 2);
    OrZero(0);
  }

  lemma AndQuarters(a: nat, b: nat)
    ensures And(a, b) / 4 == And(a / 4, b / 4) && And(a, b) % 4 == And(a % 4, b % 4)
  {
    hide And;
    Halves(a);
    Halves(b);
    AndStep(a, b);
    AndStep(a / 2, b / 2);
    AndStep(a % 4, b % 4);
    AndStep(a % 4 / 2, b % 4 / 2);
    AndZero(0);
  }

  lemma {:induction false} OrField(a: nat, b: nat, j: nat)
    ensures Field(Or(a, b), j) == Or(Field(a, j), Field(b, j))
  {
    hide Or;
    OrQuarters(a, b);
    if j > 0 { OrField(a / 4, b / 4, j - 1); }
  }

  lemma {:induction false} AndField(a: nat, b: nat, j: nat)
    ensures Field(And(a, b), j) == And(Field(a, j), Field(b, j))
  {
    hide And;
    AndQuarters(a, b);
    if j > 0 { AndField(a / 4, b / 4, j - 1); }
  }

  lemma {:induction false} ZeroField(j: nat)
    ensures Field(0, j) == 0
  {
    if j > 0 { ZeroField(j - 1); }
  }

  lemma {:induction false} ShlField(m: nat, j: nat, k: nat)
    requires m < 4
    ensures Field(Shl(m, j), k) == if j == k then m else 0
  {
    if j == 0 {
      if k > 0 { ZeroField(k - 1); }
    } else if k > 0 {
      ShlField(m, j - 1, k - 1);
    }
  }

  lemma {:induction false} ShlBound(m: nat, j: nat, n: nat)
    requires m < 4 && j < n
    ensures Shl(m, j) < Shl(1, n)
  {
    if j == 0 {
      if n > 1 { ShlBound(m, 0, n - 1); }
    } else {
      ShlBound(m, j - 1, n - 1);
    }
  }

  /** ~x in n fields. */
  lemma {:induction false} NotField(x: nat, n: nat, k: nat)
    requires x < Shl(1, n) && k < n
    ensures Field(Shl(1, n) - 1 - x, k) == 3 - Field(x, k)
  {
    var y := Shl(1, n) - 1 - x;
    assert y % 4 == 3 - x % 4 && y / 4 == Shl(1, n - 1) - 1 - x / 4;
    if k > 0 { NotField(x / 4, n - 1, k - 1); }
  }

  lemma WordIsSixteenFields()
    ensures Shl(1, 16) == U32
  {
    assert Shl(1, 2) == 16;
    assert Shl(1, 4) == 256;
    assert Shl(1, 6) == 4096;
    assert Shl(1, 8) == 0x1_0000;
    assert Shl(1, 10) == 0x10_0000;
    assert Shl(1, 12) == 0x100_0000;
    assert Shl(1, 14) == 0x1000_0000;
  }

  lemma SmallAnd(f: nat)
    requires f < 4
    ensures And(f, 3) == f && And(f, 0) == 0
    ensures And(f, 1) == (if f == 1 || f == 3 then 1 else 0) && And(f, 2) == (if f >= 2 then 2 else 0)
  {
    assert f == 0 || f == 1 || f == 2 || f == 3;
  }

  lemma SmallOr(f: nat)
    requires f < 4
    ensures Or(f, 0) == f && Or(f, 1) == (if f == 0 then 1 else if f == 2 then 3 else f)
  {
    assert f == 0 || f == 1 || f == 2 || f == 3;
  }

  lemma {:induction false} AndAtMost(a: nat, b: nat)
    ensures And(a, b) <= a && And(a, b) <= b
  {
    if a != 0 && b != 0 { AndAtMost(a / 2, b / 2); }
  }

  // ---------- the flag macros ----------

  predicate IsEmpty(flags: seq<Word>, i: nat)
    requires i / 16 < |flags|
  {
    And(Field(flags[i / 16], i % 16), 2) != 0
  }

  predicate IsDel(flags: seq<Word>, i: nat)
    requires i / 16 < |flags|
  {
    And(Field(flags[i / 16], i % 16), 1) != 0
  }

  predicate IsEither(flags: seq<Word>, i: nat)
    requires i / 16 < |flags|
  {
    And(Field(flags[i / 16], i % 16), 3) != 0
  }

  /** The three tests read the bucket's state. */
  lemma TestsRead(flags: seq<Word>, i: nat)
    requires i / 16 < |flags|
    ensures IsEmpty(flags, i) <==> SlotAt(flags, i) in {Empty, Both}
    ensures IsDel(flags, i) <==> SlotAt(flags, i) in {Deleted, Both}
    ensures IsEither(flags, i) <==> SlotAt(flags, i) != Live
  {
    SmallAnd(Field(flags[i / 16], i % 16));
  }

  /** The same for a bucket of a table of n. */
  lemma BucketRead(flags: seq<Word>, n: nat, i: nat)
    requires i < n <= 16 * |flags|
    ensures i / 16 < |flags|
    ensures IsEmpty(flags, i) <==> SlotsOf(flags, n)[i] in {Empty, Both}
    ensures IsDel(flags, i) <==> SlotsOf(flags, n)[i] in {Deleted, Both}
    ensures IsEither(flags, i) <==> SlotsOf(flags, n)[i] != Live
  {
    hide IsEmpty, IsDel, IsEither, SlotAt;
    TestsRead(flags, i);
  }

  /** flag[i>>4] &= ~(m << ((i&0xf)<<1)). */
  function Cleared(w: Word, j: nat, m: nat): Word
    requires j < 16 && m < 4
  {
    WordIsSixteenFields();
    ShlBound(m, j, 16);
    AndAtMost(w, U32 - 1 - Shl(m, j));
    And(w, U32 - 1 - Shl(m, j))
  }

  /** flag[i>>4] |= 1 << ((i&0xf)<<1). */
  function Marked(w: Word, j: nat): Word
    requires j < 16
  {
    WordIsSixteenFields();
    ShlBound(1, j, 16);
    Powers();
    OrBounds(w, Shl(1, j), 32);
    Or(w, Shl(1, j))
  }

  lemma ClearedField(w: Word, j: nat, m: nat, k: nat)
    requires j < 16 && m < 4 && k < 16
    ensures Field(Cleared(w, j, m), k) == if j == k then And(Field(w, k), 3 - m) else Field(w, k)
  {
    hide And, Field, Shl;
    WordIsSixteenFields();
    ShlBound(m, j, 16);
    AndField(w, U32 - 1 - Shl(m, j), k);
    NotField(Shl(m, j), 16, k);
    ShlField(m, j, k);
    SmallAnd(Field(w, k));
  }

  lemma MarkedField(w: Word, j: nat, k: nat)
    requires j < 16 && k < 16
    ensures Field(Marked(w, j), k) == if j == k then Or(Field(w, k), 1) else Field(w, k)
  {
    hide Or, Field, Shl;
    OrField(w, Shl(1, j), k);
    ShlField(1, j, k);
    SmallOr(Field(w, k));
  }

  lemma SameBucket(i: nat, j: nat)
    ensures i / 16 == j / 16 && i % 16 == j % 16 <==> i == j
  {
  }

  /** __ac_set_isdel_true: a live bucket becomes deleted, nothing else changes. */
  method SetDel(flags: array<Word>, i: nat, ghost n: nat)
    requires i < n <= 16 * flags.Length && SlotAt(flags[..], i) == Live
    modifies flags
    ensures SlotsOf(flags[..], n) == SlotsOf(old(flags[..]), n)[i := Deleted]
  {
    flags[i / 16] := Marked(flags[i / 16], i % 16);
    MarkedSlots(old(flags[..]), flags[..], i, n);
  }

  /** __ac_set_isempty_false: an empty bucket becomes live. */
  method SetNotEmpty(flags: array<Word>, i: nat, ghost n: nat)
    requires i < n <= 16 * flags.Length && SlotAt(flags[..], i) == Empty
    modifies flags
    ensures SlotsOf(flags[..], n) == SlotsOf(old(flags[..]), n)[i := Live]
  {
    flags[i / 16] := Cleared(flags[i / 16], i % 16, 2);
    ClearedSlots(old(flags[..]), flags[..], i, n, 2);
  }

  /** __ac_set_isboth_false: any bucket becomes live. */
  method SetLive(flags: array<Word>, i: nat, ghost n: nat)
    requires i < n <= 16 * flags.Length
    modifies flags
    ensures SlotsOf(flags[..], n) == SlotsOf(old(flags[..]), n)[i := Live]
  {
    flags[i / 16] := Cleared(flags[i / 16], i % 16, 3);
    ClearedSlots(old(flags[..]), flags[..], i, n, 3);
  }

  lemma MarkedSlots(f: seq<Word>, g: seq<Word>, i: nat, n: nat)
    requires i < n <= 16 * |f| && g == f[i / 16 := Marked(f[i / 16], i % 16)] && SlotAt(f, i) == Live
    ensures SlotsOf(g, n) == SlotsOf(f, n)[i := Deleted]
  {
    hide Field, Marked, Or;
    forall k | 0 <= k < n ensures SlotAt(g, k) == if k == i then Deleted else SlotAt(f, k) {
      if k / 16 == i / 16 {
        MarkedField(f[i / 16], i % 16, k % 16);
        SameBucket(i, k);
        SmallOr(Field(f[i / 16], k % 16));
      }
    }
  }

  lemma ClearedSlots(f: seq<Word>, g: seq<Word>, i: nat, n: nat, m: nat)
    requires i < n <= 16 * |f| && 2 <= m < 4 && g == f[i / 16 := Cleared(f[i / 16], i % 16, m)]
    requires m == 2 ==> SlotAt(f, i) == Empty
    ensures SlotsOf(g, n) == SlotsOf(f, n)[i := Live]
  {
    hide Field, Cleared, And;
    forall k | 0 <= k < n ensures SlotAt(g, k) == if k == i then Live else SlotAt(f, k) {
      if k / 16 == i / 16 {
        ClearedField(f[i / 16], i % 16, m, k % 16);
        SameBucket(i, k);
        SmallAnd(Field(f[i / 16], k % 16));
      }
    }
  }

  // ---------- allocation ----------

  /** __ac_fsize, and AH_FLAGS_BYTE in words. */
  function FSize(n: nat): nat {
    if n < 16 then 1 else n / 16
  }

  lemma {:induction false} FSizeFits(n: nat)
    requires IsPow2(n)
    ensures n <= 16 * FSize(n) && (FSize(n) == 1 || 16 * (FSize(n) - 1) < n)
  {
    if n >= 16 {
      var k: nat :| n == Pow2(k);
      if k < 4 { Pow2Mono(k, 4); }
      Pow2Add(4, k - 4);
    }
  }

  /** k fields of binary 10. */
  function Fill(k: nat): nat {
    if k == 0 then 0 else 4 * Fill(k - 1) + 2
  }

  lemma {:induction false} FillField(k: nat, j: nat)
    requires j < k
    ensures Field(Fill(k), j) == 2
  {
    if j > 0 { FillField(k - 1, j - 1); }
  }

  /** memset(flags, 0xaa, ...): every bucket is empty. */
  lemma FilledIsEmpty(flags: seq<Word>, n: nat)
    requires n <= 16 * |flags| && forall w :: 0 <= w < |flags| ==> flags[w] == 0xaaaa_aaaa
    ensures SlotsOf(flags, n) == seq(n, _ => Empty)
  {
    hide Field;
    forall i | 0 <= i < n ensures SlotAt(flags, i) == Empty {
      FillField(16, i % 16);
      FillWord();
    }
  }

  lemma FillWord()
    ensures Fill(16) == 0xaaaa_aaaa
  {
    assert Fill(2) == 0xa;
    assert Fill(4) == 0xaa;
    assert Fill(6) == 0xaaa;
    assert Fill(8) == 0xaaaa;
    assert Fill(10) == 0xa_aaaa;
    assert Fill(12) == 0xaa_aaaa;
    assert Fill(14) == 0xaaa_aaaa;
  }

  /** malloc and memset of the flags of an n-bucket table. */
  method NewFlags(n: nat) returns (flags: array<Word>)
    requires IsPow2(n)
    ensures fresh(flags) && flags.Length == FSize(n) && n <= 16 * flags.Length
    ensures SlotsOf(flags[..], n) == seq(n, _ => Empty)
  {
    FSizeFits(n);
    flags := new Word[FSize(n)](_ => 0xaaaa_aaaa);
    FilledIsEmpty(flags[..], n);
  }
}
