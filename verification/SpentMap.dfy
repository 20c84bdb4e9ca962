/** src/bzing.c: the inventory and the spent map, one array from which every transaction that has an
  * output spent gets a range of slots. */
module SpentMap {
  import opened NatBits
  import opened BitSets
  import opened VarInt
  import opened DoubleSha
  import opened SpentWord
  import HashArith

  /** bz_inv_t. */
  datatype Inv = Inv(offset: nat, spent: nat)

  // ---------- what the index means ----------

  datatype Entry = Entry(offset: nat, status: Status)

  /** The entries, the next free slot, and the bytes allocated. */
  datatype Index = Index(entries: map<Hash, Entry>, len: nat, size: nat)

  function Put(ix: Index, h: Hash, e: Entry): Index {
    ix.(entries := ix.entries[h := e])
  }

  function Reserve(ix: Index, count: nat): Index {
    ix.(len := ix.len + count, size := if (ix.len + count) * 8 > ix.size then 2 * ix.size else ix.size)
  }

  function WithStatus(ix: Index, h: Hash, st: Status): Index
    requires h in ix.entries
  {
    Put(ix, h, ix.entries[h].(status := st))
  }

  /** Output i of transaction h is spent by what lies at `offset`. */
  function Mark(ix: Index, h: Hash, i: nat, offset: nat): Index
    requires h in ix.entries
  {
    match ix.entries[h].status
    case Block => ix
    case Fresh(n) =>
      if n == 0 then ix else WithStatus(Reserve(ix, n), h, Spent(ix.len, n, map[i := offset]))
    case Spent(pos, n, spenders) => WithStatus(ix, h, Spent(pos, n, spenders[i := offset]))
  }

  /** The previous transaction is known and has the output, and one doubling makes room for its slots. */
  predicate CanMark(ix: Index, h: Hash, i: nat) {
    && h in ix.entries
    && match ix.entries[h].status
       case Block => true
       case Fresh(n) => n == 0 || (i < n && ix.len <= SPENT_MAX && (ix.len + n) * 8 <= 2 * ix.size)
       case Spent(_, n, _) => i < n
  }

  /** The slots of a transaction. */
  ghost predicate Owns(st: Status, slot: int) {
    st.Spent? && st.pos <= slot < st.pos + st.nOut
  }

  /** Ranges lie inside [1, len), and only outputs have spenders. */
  ghost predicate InRange(entries: map<Hash, Entry>, len: nat) {
    forall h :: h in entries && entries[h].status.Spent? ==>
      var st := entries[h].status;
      1 <= st.pos && st.pos + st.nOut <= len && forall i :: i in st.spenders ==> i < st.nOut
  }

  ghost predicate Apart(entries: map<Hash, Entry>) {
    forall h, h', slot :: h in entries && h' in entries && h != h' && Owns(entries[h].status, slot) ==>
      !Owns(entries[h'].status, slot)
  }

  /** Ranges are disjoint, inside [1, len) and inside the allocation, and only outputs have spenders. */
  ghost predicate Sound(ix: Index) {
    && 1 <= ix.len && ix.len * 8 <= ix.size && ix.size % 8 == 0
    && InRange(ix.entries, ix.len) && Apart(ix.entries)
  }

  /** The single doubling is enough for exactly the counts that fit in twice the present allocation. */
  lemma ReserveSound(ix: Index, count: nat)
    requires Sound(ix)
    ensures Sound(Reserve(ix, count)) <==> (ix.len + count) * 8 <= 2 * ix.size
  {
    hide InRange, Apart;
    MoreRange(ix.entries, ix.len, ix.len + count);
  }

  lemma MoreRange(entries: map<Hash, Entry>, len: nat, len': nat)
    requires InRange(entries, len) && len <= len'
    ensures InRange(entries, len')
  {
  }

  /** A first transaction with 1024 outputs is handed slots beyond the 8192 bytes allocated for it. */
  lemma ReserveOverrun(h: Hash, e: Entry, offset: nat)
    requires e.status == Fresh(1024)
    ensures var ix := Put(Index(map[], 1, 4096), h, e);
      var ix' := Mark(ix, h, 1023, offset);
      Sound(ix) && Owns(ix'.entries[h].status, 1024) && ix'.size == 8192 && !Sound(ix')
  {
    var ix := Put(Index(map[], 1, 4096), h, e);
    assert Sound(Index(map[], 1, 4096));
    PutSound(Index(map[], 1, 4096), h, e);
    ReserveSound(ix, 1024);
    var ix' := Mark(ix, h, 1023, offset);
    assert ix'.entries[h].status == Spent(1, 1024, map[1023 := offset]);
  }

  lemma MarkSound(ix: Index, h: Hash, i: nat, offset: nat)
    requires Sound(ix) && CanMark(ix, h, i)
    ensures Sound(Mark(ix, h, i, offset))
  {
    var st := ix.entries[h].status;
    if st.Fresh? && st.nOut > 0 {
      ReserveSound(ix, st.nOut);
    }
  }

  lemma PutSound(ix: Index, h: Hash, e: Entry)
    requires Sound(ix) && !e.status.Spent?
    ensures Sound(Put(ix, h, e))
  {
  }

  // ---------- what is stored ----------

  /** The slots of a transaction hold the last spender recorded for each output. */
  ghost predicate Holds(slots: seq<nat>, st: Status) {
    st.Spent? ==>
      st.pos + st.nOut <= |slots| && forall i :: i in st.spenders && i < st.nOut ==> slots[st.pos + i] == st.spenders[i]
  }

  ghost predicate Stored(inv: map<Hash, Inv>, slots: seq<nat>, ix: Index) {
    && inv.Keys == ix.entries.Keys
    && (forall h :: h in inv ==> inv[h].offset == ix.entries[h].offset && Encodes(inv[h].spent, ix.entries[h].status))
    && (forall h :: h in inv ==> Holds(slots, ix.entries[h].status))
  }

  /** Growing the array keeps what is in it. */
  lemma StillStored(inv: map<Hash, Inv>, slots: seq<nat>, slots': seq<nat>, ix: Index)
    requires Stored(inv, slots, ix) && |slots| <= |slots'| && slots'[..|slots|] == slots
    ensures Stored(inv, slots', ix)
  {
    hide Encodes;
    forall h | h in inv ensures Holds(slots', ix.entries[h].status) {
      assert Holds(slots, ix.entries[h].status);
      assert forall q :: 0 <= q < |slots| ==> slots'[q] == slots'[..|slots|][q];
    }
  }

  /** One transaction's entry and one of its own slots rewritten. */
  lemma StoredOne(inv: map<Hash, Inv>, slots: seq<nat>, ix: Index, h: Hash, w: nat, st: Status, i: nat, offset: nat)
    requires Stored(inv, slots, ix) && h in inv && Sound(WithStatus(ix, h, st))
    requires st.Spent? && i < st.nOut && st.pos + st.nOut <= |slots| && Encodes(w, st)
    requires i in st.spenders && st.spenders[i] == offset
    requires forall j :: j in st.spenders && j != i && j < st.nOut ==> slots[st.pos + j] == st.spenders[j]
    ensures Stored(inv[h := Inv(inv[h].offset, w)], slots[st.pos + i := offset], WithStatus(ix, h, st))
  {
    hide Encodes, Holds, Owns, Sound;
    var ix', slots', inv' := WithStatus(ix, h, st), slots[st.pos + i := offset], inv[h := Inv(inv[h].offset, w)];
    forall h' | h' in inv' ensures Holds(slots', ix'.entries[h'].status) {
      if h' != h {
        SlotNotOwned(ix', h, h', st.pos + i);
        HoldsStill(slots, ix.entries[h'].status, st.pos + i, offset);
      } else {
        HoldsNow(slots, st, i, offset);
      }
    }
    assert inv'.Keys == ix'.entries.Keys;
  }

  lemma SlotNotOwned(ix: Index, h: Hash, h': Hash, slot: nat)
    requires Sound(ix) && h in ix.entries && h' in ix.entries && h != h'
    requires var st := ix.entries[h].status; st.Spent? && st.pos <= slot < st.pos + st.nOut
    ensures !Owns(ix.entries[h'].status, slot)
  {
    assert Owns(ix.entries[h].status, slot);
  }

  lemma HoldsStill(slots: seq<nat>, st: Status, slot: nat, offset: nat)
    requires Holds(slots, st) && !Owns(st, slot) && slot < |slots|
    ensures Holds(slots[slot := offset], st)
  {
  }

  lemma HoldsNow(slots: seq<nat>, st: Status, i: nat, offset: nat)
    requires st.Spent? && i < st.nOut && st.pos + st.nOut <= |slots|
    requires i in st.spenders && st.spenders[i] == offset
    requires forall j :: j in st.spenders && j != i && j < st.nOut ==> slots[st.pos + j] == st.spenders[j]
    ensures Holds(slots[st.pos + i := offset], st)
  {
  }

  lemma StoredPut(inv: map<Hash, Inv>, slots: seq<nat>, ix: Index, h: Hash, v: Inv, e: Entry)
    requires Stored(inv, slots, ix) && v.offset == e.offset && Encodes(v.spent, e.status) && !e.status.Spent?
    ensures Stored(inv[h := v], slots, Put(ix, h, e))
  {
    hide Encodes;
  }

  // ---------- what has never been written ----------

  /** What slot q holds before anything is stored in it: whatever bzing_alloc got, or zero further up. */
  function Initial(uncleared: seq<nat>, q: nat): nat {
    if q < |uncleared| then uncleared[q] else 0
  }

  /** Slot q belongs to an output that is not spent. */
  ghost predicate Vacant(st: Status, q: nat) {
    Owns(st, q) && (q - st.pos) !in st.spenders
  }

  /** Slot 0, the slots not handed out yet and those of unspent outputs have never been written. */
  ghost predicate Untouched(uncleared: seq<nat>, slots: seq<nat>, ix: Index) {
    && |uncleared| <= |slots|
    && (forall q :: 0 <= q < |slots| && (q == 0 || q >= ix.len) ==> slots[q] == Initial(uncleared, q))
    && (forall h, q :: h in ix.entries && 0 <= q < |slots| && Vacant(ix.entries[h].status, q) ==>
          slots[q] == Initial(uncleared, q))
  }

  lemma UntouchedPut(uncleared: seq<nat>, slots: seq<nat>, ix: Index, h: Hash, e: Entry)
    requires Untouched(uncleared, slots, ix) && !e.status.Spent?
    ensures Untouched(uncleared, slots, Put(ix, h, e))
  {
    hide Initial;
  }

  lemma UntouchedReserved(uncleared: seq<nat>, slots: seq<nat>, slots': seq<nat>, ix: Index, count: nat)
    requires Untouched(uncleared, slots, ix) && Sound(ix) && |slots| * 8 == ix.size
    requires slots' == slots || Doubled(slots, slots')
    ensures Untouched(uncleared, slots', Reserve(ix, count))
    ensures forall q :: ix.len <= q < |slots'| ==> slots'[q] == Initial(uncleared, q)
  {
    hide Apart;
    assert forall q :: 0 <= q < |slots| ==> slots'[q] == slots'[..|slots|][q] == slots[q];
  }

  lemma UntouchedWritten(uncleared: seq<nat>, slots: seq<nat>, ix: Index, h: Hash, st: Status, i: nat, offset: nat)
    requires Untouched(uncleared, slots, ix) && h in ix.entries && st.Spent? && i < st.nOut && st.pos + i < |slots|
    requires Sound(WithSpender(ix, h, st, i, offset))
    requires forall q :: 0 <= q < |slots| && Vacant(st, q) ==> slots[q] == Initial(uncleared, q)
    ensures Untouched(uncleared, slots[st.pos + i := offset], WithSpender(ix, h, st, i, offset))
  {
    hide Initial, Sound, Vacant;
    var ix', slots' := WithSpender(ix, h, st, i, offset), slots[st.pos + i := offset];
    OwnRange(ix', h);
    forall h', q | h' in ix'.entries && 0 <= q < |slots'| && Vacant(ix'.entries[h'].status, q)
      ensures slots'[q] == Initial(uncleared, q)
    {
      VacantElsewhere(ix', h, h', i, q);
      if h' == h { StillVacant(st, i, offset, q); }
    }
  }

  lemma OwnRange(ix: Index, h: Hash)
    requires Sound(ix) && h in ix.entries && ix.entries[h].status.Spent?
    ensures 1 <= ix.entries[h].status.pos && ix.entries[h].status.pos + ix.entries[h].status.nOut <= ix.len
  {
    hide Apart;
  }

  /** A slot just written is not vacant, and no other transaction's. */
  lemma VacantElsewhere(ix: Index, h: Hash, h': Hash, i: nat, q: nat)
    requires Sound(ix) && h in ix.entries && h' in ix.entries && Vacant(ix.entries[h'].status, q)
    requires var st := ix.entries[h].status; st.Spent? && i < st.nOut && i in st.spenders
    ensures q != ix.entries[h].status.pos + i
  {
    hide InRange;
    if h != h' { SlotNotOwned(ix, h, h', ix.entries[h].status.pos + i); }
  }

  lemma StillVacant(st: Status, i: nat, offset: nat, q: nat)
    requires st.Spent? && Vacant(Spender(st, i, offset), q)
    ensures Vacant(st, q)
  {
  }

  /** The slot of an unspent output of a transaction that has slots holds what it held before anything was stored: zero,
    * except among the slots that bzing_alloc leaves uncleared. */
  lemma UnspentReads(inv: map<Hash, Inv>, uncleared: seq<nat>, slots: seq<nat>, ix: Index, h: Hash, i: nat)
    requires Stored(inv, slots, ix) && Sound(ix) && 8 * |slots| == ix.size && Untouched(uncleared, slots, ix)
    requires h in ix.entries && ix.entries[h].status.Spent? && i < ix.entries[h].status.nOut
    requires i !in ix.entries[h].status.spenders
    ensures h in inv && var slot := And(inv[h].spent, SPENT_MASK) + i;
      1 <= slot < ix.len <= |slots| && slots[slot] == if slot < |uncleared| then uncleared[slot] else 0
    ensures i < SPENT_BITS ==> !Marked(inv[h].spent, i)
  {
    hide And, Bit, IsUnmarked, Apart;
    var st := ix.entries[h].status;
    ReadWord(inv[h].spent, st);
    OwnRange(ix, h);
    assert Vacant(st, st.pos + i);
  }

  /** bzing_handle: the fields the spent map uses, and the inventory as a map. */
  class Handle {
    var inv: map<Hash, Inv>
    var spentData: array<nat>
    var spentLen: nat
    var spentSize: nat
    ghost var ix: Index
    ghost const uncleared: seq<nat>

    ghost predicate Valid()
      reads this, spentData
    {
      && spentSize == 8 * spentData.Length && ix.len == spentLen && ix.size == spentSize
      && Sound(ix) && Stored(inv, spentData[..], ix) && Untouched(uncleared, spentData[..], ix)
    }

    /** bzing_alloc: 4096 bytes that nothing has cleared, and slot 0 never handed out. */
    constructor (uncleared: seq<nat>)
      requires |uncleared| == 512
      ensures Valid() && ix == Index(map[], 1, 4096) && fresh(spentData) && this.uncleared == uncleared
    {
      this.uncleared := uncleared;
      inv, spentLen, spentSize := map[], 1, 4096;
      spentData := new nat[512](i requires 0 <= i < 512 => uncleared[i]);
      ix := Index(map[], 1, 4096);
    }

    /** bzing_inv_set. */
    method Set(h: Hash, v: Inv, ghost e: Entry)
      requires Valid() && v.offset == e.offset && Encodes(v.spent, e.status) && !e.status.Spent?
      modifies this`inv, this`ix
      ensures Valid() && ix == Put(old(ix), h, e)
    {
      hide Encodes, Sound, Stored, Untouched;
      PutSound(ix, h, e);
      UntouchedPut(uncleared, spentData[..], ix, h, e);
      StoredPut(inv, spentData[..], ix, h, v, e);
      inv := inv[h := v];
      ix := Put(ix, h, e);
    }

    /** bzing_spent_reserve: the allocation is doubled at most once. */
    method ReserveSlots(count: nat) returns (pos: nat)
      requires Valid()
      modifies this`spentData, this`spentLen, this`spentSize, this`ix
      ensures Valid() <==> (old(spentLen) + count) * 8 <= 2 * old(spentSize)
      ensures ix == Reserve(old(ix), count) && pos == old(spentLen) && inv == old(inv)
      ensures ix.len == spentLen && ix.size == spentSize == 8 * spentData.Length && Stored(inv, spentData[..], ix)
      ensures forall q :: pos <= q < spentData.Length ==> spentData[q] == Initial(uncleared, q)
      ensures spentData == old(spentData) || (fresh(spentData) && Doubled(old(spentData[..]), spentData[..]))
      ensures spentLen == old(spentLen) + count
      ensures spentSize == if 8 * spentLen > old(spentSize) then 2 * old(spentSize) else old(spentSize)
    {
      hide Stored, Encodes, Untouched, Initial;
      ReserveSound(ix, count);
      ghost var slots := spentData[..];
      pos := spentLen;
      spentLen := spentLen + count;
      if spentLen * 8 > spentSize {
        var bigger := new nat[2 * spentData.Length](_ => 0);
        forall i | 0 <= i < spentData.Length { bigger[i] := spentData[i]; }
        assert bigger[..][..spentData.Length] == slots;
        StillStored(inv, slots, bigger[..], ix);
        assert Doubled(slots, bigger[..]);
        spentData := bigger;
        spentSize := spentSize * 2;
      }
      StoredReserved(inv, spentData[..], ix, count);
      UntouchedReserved(uncleared, slots, spentData[..], ix, count);
      assert forall q :: 0 <= q < spentData.Length ==> spentData[q] == spentData[..][q];
      ix := Reserve(ix, count);
    }

    /** The end of bzing_spent_mark: the quick bits, the slot, and the entry if it has changed. */
    method WriteSlot(h: Hash, w: nat, pos: nat, i: nat, offset: nat, dirty: bool, ghost st: Status)
      requires Valid() && h in inv && h in ix.entries && st.Spent? && pos == st.pos && i < st.nOut && Encodes(w, st)
      requires (!dirty ==> w == inv[h].spent)
      requires Sound(WithSpender(ix, h, st, i, offset)) && Holds(spentData[..], st)
      requires forall q :: 0 <= q < spentData.Length && Vacant(st, q) ==> spentData[q] == Initial(uncleared, q)
      modifies this`inv, this`ix, spentData
      ensures Valid() && ix == WithSpender(old(ix), h, st, i, offset)
      ensures inv == old(inv)[h := Inv(old(inv)[h].offset, if i < SPENT_BITS then Or(w, SpentBit(i)) else w)]
      ensures pos + i < |old(spentData[..])| && spentData[..] == old(spentData[..])[pos + i := offset]
    {
      hide Encodes, Sound, Stored, Or, SpentBit, Untouched, Vacant, Initial;
      var w', invDirty := w, dirty;
      UntouchedWritten(uncleared, spentData[..], ix, h, st, i, offset);
      if i < SPENT_BITS {
        w' := Or(w, SpentBit(i));
        invDirty := true;
      }
      MarkedWord(w, st, i, offset);
      StoredOne(inv, spentData[..], ix, h, w', Spender(st, i, offset), i, offset);
      spentData[pos + i] := offset;
      if invDirty {
        inv := inv[h := inv[h].(spent := w')];
      } else {
        assert inv[h := inv[h]] == inv;
      }
      ix := WithSpender(ix, h, st, i, offset);
    }

    /** What marking output i of the transaction with word w has done to the fields: nothing when it has no outputs;
      * else its slots, reserved when it is the first, hold the spender, and no other slot or entry has changed. */
    ghost predicate MarkedAs(inv0: map<Hash, Inv>, slots: seq<nat>, len: nat, h: Hash, i: nat, offset: nat,
                             spentOffset: nat)
      requires h in inv0
      reads this, spentData
    {
      var w := inv0[h].spent;
      if w == BLOCK || w == SPENT_UMARK then
        spentOffset == 0 && inv == inv0 && spentData[..] == slots && spentLen == len
      else
        var pos := if IsUnmarked(w) then len else And(w, SPENT_MASK);
        && spentOffset == 8 * (pos + i) && h in inv && inv == inv0[h := Inv(inv0[h].offset, inv[h].spent)]
        && And(inv[h].spent, SPENT_MASK) == pos
        && (forall j: nat :: j < SPENT_BITS ==>
              (Marked(inv[h].spent, j) <==> j == i || (!IsUnmarked(w) && Marked(w, j))))
        && spentLen == len + (if IsUnmarked(w) then And(w, SPENT_UMASK) else 0)
        && SlotWritten(slots, spentData[..], 8 * spentLen > 8 * |slots|, pos + i, offset)
    }

    /** Its first use: the slots are reserved, and the word becomes their position. */
    method MarkFirst(h: Hash, n: nat, i: nat, offset: nat) returns (pos: nat)
      requires Valid() && CanMark(ix, h, i) && ix.entries[h].status == Fresh(n) && n > 0 && h in inv
      modifies this, spentData
      ensures Valid() && ix == Mark(old(ix), h, i, offset) && (spentData == old(spentData) || fresh(spentData))
      ensures pos == old(spentLen) && spentLen == old(spentLen) + n && h in inv
      ensures inv == old(inv)[h := Inv(old(inv)[h].offset, inv[h].spent)] && And(inv[h].spent, SPENT_MASK) == pos
      ensures forall j: nat :: j < SPENT_BITS ==> (Marked(inv[h].spent, j) <==> j == i)
      ensures SlotWritten(old(spentData[..]), spentData[..], 8 * spentLen > 8 * old(spentData.Length), pos + i, offset)
    {
      hide Encodes, Stored, IsUnmarked, And, Or, SpentBit, Marked;
      MarkSound(ix, h, i, offset);
      pos := ReserveSlots(n);
      NoneMarked(pos, n);
      WriteSlot(h, pos, pos, i, offset, true, Spent(pos, n, map[]));
      MarkedBits(pos, inv[h].spent, Spent(pos, n, map[]), i);
    }

    /** A later use. */
    method MarkAgain(h: Hash, w: nat, pos: nat, i: nat, offset: nat)
      requires Valid() && CanMark(ix, h, i) && ix.entries[h].status.Spent? && h in inv && inv[h].spent == w
      requires pos == ix.entries[h].status.pos
      modifies this`inv, this`ix, spentData
      ensures Valid() && ix == Mark(old(ix), h, i, offset) && h in inv
      ensures inv == old(inv)[h := Inv(old(inv)[h].offset, inv[h].spent)] && And(inv[h].spent, SPENT_MASK) == pos
      ensures forall j: nat :: j < SPENT_BITS ==> (Marked(inv[h].spent, j) <==> j == i || Marked(w, j))
      ensures SlotWritten(old(spentData[..]), spentData[..], false, pos + i, offset)
      ensures 8 * spentLen <= 8 * spentData.Length
    {
      hide Encodes, Stored, IsUnmarked, And, Or, SpentBit, Marked, Apart, InRange;
      ghost var st := ix.entries[h].status;
      EntryStored(inv, spentData[..], ix, h);
      MarkSound(ix, h, i, offset);
      assert forall q :: 0 <= q < spentData.Length ==> spentData[q] == spentData[..][q];
      WriteSlot(h, w, pos, i, offset, false, st);
      MarkedBits(w, inv[h].spent, st, i);
    }

    /** bzing_spent_mark, for an output of a transaction whose entry is there. */
    method MarkSpent(outpoint: seq<octet>, offset: nat) returns (spentOffset: nat)
      requires Valid() && |outpoint| == 36 && CanMark(ix, outpoint[..32], LeNat(outpoint[32..36]))
      modifies this, spentData
      ensures Valid() && ix == Mark(old(ix), outpoint[..32], LeNat(outpoint[32..36]), offset)
      ensures spentOffset == SlotOffset(ix, outpoint[..32], LeNat(outpoint[32..36]))
      ensures spentData == old(spentData) || fresh(spentData)
      ensures outpoint[..32] in old(inv) && MarkedAs(old(inv), old(spentData[..]), old(spentLen), outpoint[..32],
                                                     LeNat(outpoint[32..36]), offset, spentOffset)
    {
      hide Encodes, Stored, IsUnmarked, And, Or, SpentBit, Marked, SlotWritten, Sound;
      var h, i := outpoint[..32], LeNat(outpoint[32..36]);
      ghost var st := ix.entries[h].status;
      EntryStored(inv, spentData[..], ix, h);
      var prev := inv[h];
      ReadWord(prev.spent, st);
      FreshWords(prev.spent, st);
      var pos;
      if prev.spent == BLOCK {
        return 0;
      }
      if IsUnmarked(prev.spent) {
        var n := And(prev.spent, SPENT_UMASK);
        if n == 0 {
          return 0;
        }
        pos := MarkFirst(h, n, i, offset);
      } else {
        pos := And(prev.spent, SPENT_MASK);
        MarkAgain(h, prev.spent, pos, i, offset);
      }
      spentOffset := (pos + i) * 8;
    }
  }

  /** The byte offset in the spent map of an output's slot, 0 when the transaction has none. */
  function SlotOffset(ix: Index, h: Hash, i: nat): nat {
    if h in ix.entries && ix.entries[h].status.Spent? then 8 * (ix.entries[h].status.pos + i) else 0
  }

  function Spender(st: Status, i: nat, offset: nat): Status
    requires st.Spent?
  {
    st.(spenders := st.spenders[i := offset])
  }

  function WithSpender(ix: Index, h: Hash, st: Status, i: nat, offset: nat): Index
    requires h in ix.entries && st.Spent?
  {
    WithStatus(ix, h, Spender(st, i, offset))
  }

  /** The bit of an output below 8 is set, and no other bit is touched. */
  lemma MarkedWord(w: nat, st: Status, i: nat, offset: nat)
    requires st.Spent? && Encodes(w, st)
    ensures Encodes(if i < SPENT_BITS then Or(w, SpentBit(i)) else w, Spender(st, i, offset))
  {
    hide Or, SpentBit, Bit, Pow2;
    if i < SPENT_BITS { BitMarked(w, i); }
  }

  /** What the marked word reads back as. */
  lemma MarkedBits(w: nat, w': nat, st: Status, i: nat)
    requires st.Spent? && Encodes(w, st) && w' == if i < SPENT_BITS then Or(w, SpentBit(i)) else w
    ensures And(w', SPENT_MASK) == st.pos
    ensures forall j: nat :: j < SPENT_BITS ==> (Marked(w', j) <==> j == i || Marked(w, j))
    ensures st.spenders == map[] ==> forall j: nat :: j < SPENT_BITS ==> !Marked(w, j)
  {
    hide Or, And, SpentBit, Bit, Pow2;
    if i < SPENT_BITS { BitMarked(w, i); }
    MarkedWord(w, st, i, 0);
    ReadWord(w', Spender(st, i, 0));
  }

  /** Following a spent entry: its position and an output's number lead to that output's last spender. */
  lemma SpenderFound(inv: map<Hash, Inv>, slots: seq<nat>, ix: Index, h: Hash, i: nat)
    requires Stored(inv, slots, ix) && Sound(ix) && 8 * |slots| == ix.size && h in ix.entries
    requires ix.entries[h].status.Spent? && i in ix.entries[h].status.spenders
    ensures h in inv && inv[h].spent != BLOCK && !IsUnmarked(inv[h].spent)
    ensures var slot := And(inv[h].spent, SPENT_MASK) + i;
      1 <= slot < ix.len <= |slots| && slots[slot] == ix.entries[h].status.spenders[i]
    ensures i < SPENT_BITS ==> Marked(inv[h].spent, i)
  {
    hide And, Bit, IsUnmarked;
    ReadWord(inv[h].spent, ix.entries[h].status);
  }

  lemma EntryStored(inv: map<Hash, Inv>, slots: seq<nat>, ix: Index, h: Hash)
    requires Stored(inv, slots, ix) && h in ix.entries
    ensures h in inv && inv[h].offset == ix.entries[h].offset && Encodes(inv[h].spent, ix.entries[h].status)
    ensures Holds(slots, ix.entries[h].status)
  {
  }

  /** The slots after a store into slot q: as many as before, or twice as many, the new ones zero. */
  ghost predicate SlotWritten(before: seq<nat>, after: seq<nat>, grown: bool, q: nat, offset: nat) {
    && |after| == (if grown then 2 * |before| else |before|) && q < |after| && after[q] == offset
    && forall k :: 0 <= k < |after| && k != q ==> after[k] == if k < |before| then before[k] else 0
  }

  /** realloc to twice the size, and memset of the second half. */
  ghost predicate Doubled(before: seq<nat>, after: seq<nat>) {
    |after| == 2 * |before| && after[..|before|] == before && forall q :: |before| <= q < |after| ==> after[q] == 0
  }

  lemma StoredReserved(inv: map<Hash, Inv>, slots: seq<nat>, ix: Index, count: nat)
    requires Stored(inv, slots, ix)
    ensures Stored(inv, slots, Reserve(ix, count))
  {
  }
}
