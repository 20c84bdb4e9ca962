/** Sparse arrays of libchash.c as arrays of groups, and the plain sequence of optional items they stand for. */
module SparseArray {
  import opened NatBits
  import opened Options
  import opened BitSets
  import opened SparseGroup

  /** SparseBin: only occupied buckets are stored, in bitmap order. */
  datatype Group<T> = Group(binSparse: seq<T>, bmOccupied: nat, cOccupied: nat)

  /** A pointer to a stored item. */
  datatype Ptr = Ptr(group: nat, offset: nat)

  ghost predicate GroupOk<T>(g: Group<T>) {
    |g.binSparse| == g.cOccupied == Rank(g.bmOccupied, 64)
  }

  lemma RankBelow(bm: nat, i: nat, j: nat)
    requires i < j && Bit(bm, i)
    ensures Rank(bm, i) < Rank(bm, j)
  {
    RankStep(bm, i);
    RankMono(bm, i + 1, j);
  }

  /** Bucket i of a group. */
  ghost function CellAt<T>(g: Group<T>, i: nat): Option<T>
    requires GroupOk(g) && i < 64
  {
    if Bit(g.bmOccupied, i) then
      RankBelow(g.bmOccupied, i, 64);
      Some(g.binSparse[Rank(g.bmOccupied, i)])
    else None
  }

  ghost predicate AllOk<T>(bins: seq<Group<T>>) {
    forall g :: 0 <= g < |bins| ==> GroupOk(bins[g])
  }

  ghost function Cell<T>(bins: seq<Group<T>>, l: int): Option<T>
    requires AllOk(bins) && 0 <= l < 64 * |bins|
  {
    CellAt(bins[l / 64], l % 64)
  }

  /** All buckets of the array. */
  ghost function Cells<T>(bins: seq<Group<T>>): (r: seq<Option<T>>)
    requires AllOk(bins)
    ensures |r| == 64 * |bins|
    ensures forall l :: 0 <= l < |r| ==> r[l] == Cell(bins, l)
  {
    seq(64 * |bins|, l requires 0 <= l < 64 * |bins| => Cell(bins, l))
  }

  /** SPARSE_BUCKET. */
  ghost function PtrOf<T>(bins: seq<Group<T>>, l: nat): Ptr
    requires l < 64 * |bins|
  {
    Ptr(l / 64, Rank(bins[l / 64].bmOccupied, l % 64))
  }

  ghost predicate Points<T>(bins: seq<Group<T>>, p: Ptr, l: nat) {
    AllOk(bins) && l < 64 * |bins| && p == PtrOf(bins, l) && Cell(bins, l).Some?
  }

  /** A pointer to a bucket's item points into the group's store, at that item. */
  lemma PointsTo<T>(bins: seq<Group<T>>, p: Ptr, l: nat)
    requires Points(bins, p, l)
    ensures l < 64 * |bins| && p.group < |bins| && p.offset < |bins[p.group].binSparse|
    ensures Cell(bins, l) == Some(bins[p.group].binSparse[p.offset])
  {
    RankBelow(bins[l / 64].bmOccupied, l % 64, 64);
  }

  /** A bucket has one pointer, and distinct buckets have distinct pointers. */
  lemma PointsUnique<T>(bins: seq<Group<T>>, p: Ptr, l: nat, q: Ptr, m: nat)
    requires Points(bins, p, l) && Points(bins, q, m)
    ensures p == q <==> l == m
  {
    if p != q { return; }
    var bm := bins[p.group].bmOccupied;
    if l % 64 < m % 64 { RankBelow(bm, l % 64, m % 64); }
    if m % 64 < l % 64 { RankBelow(bm, m % 64, l % 64); }
  }

  // ---------- SparseAllocate ----------

  /** A group for every 64 buckets begun; the int cGroups << 6 must not overflow. */
  method SparseAllocate<T>(cBuckets: nat) returns (bins: array<Group<T>>, n: nat)
    requires 0 < cBuckets <= 0x4000_0000
    ensures fresh(bins) && n == 64 * bins.Length && cBuckets <= n < cBuckets + 64 && AllOk(bins[..])
    ensures Cells(bins[..]) == seq(n, _ => None)
  {
    hide Rank, Bit;
    var cGroups := (cBuckets - 1) / 64 + 1;
    bins := new Group<T>[cGroups](_ => Group([], 0, 0));
    n := cGroups * 64;
    NothingThere(bins[..]);
  }

  lemma NothingThere<T>(bins: seq<Group<T>>)
    requires forall g :: 0 <= g < |bins| ==> bins[g] == Group([], 0, 0)
    ensures AllOk(bins) && Cells(bins) == seq(64 * |bins|, _ => None)
  {
    hide Rank, Bit;
    RankOfZero(64);
    forall l | 0 <= l < 64 * |bins| ensures Cell(bins, l) == None { BitOfZero(l % 64); }
  }

  // ---------- SparseIsEmpty, SparseFind ----------

  method SparseIsEmpty<T>(bins: array<Group<T>>, l: nat) returns (b: bool)
    requires AllOk(bins[..]) && l < 64 * bins.Length
    ensures b == Cells(bins[..])[l].None?
  {
    hide Bit, Rank, And, Pow2;
    TestBit(bins[l / 64].bmOccupied, l % 64);
    b := And(bins[l / 64].bmOccupied, Pow2(l % 64)) == 0;
    assert bins[..][l / 64] == bins[l / 64];
  }

  method SparseFind<T>(bins: array<Group<T>>, l: nat) returns (p: Option<Ptr>)
    requires AllOk(bins[..]) && l < 64 * bins.Length
    ensures p.None? <==> Cells(bins[..])[l].None?
    ensures p.Some? ==> Points(bins[..], p.value, l)
  {
    hide Bit, Rank, EntriesUpto;
    var empty := SparseIsEmpty(bins, l);
    if empty { return None; }
    EntriesUptoCounts(bins[l / 64].bmOccupied, l % 64);
    p := Some(Ptr(l / 64, EntriesUpto(bins[l / 64].bmOccupied, l % 64)));
  }

  // ---------- writes ----------

  /** The store of a group with an item put in. */
  function Opened<T>(s: seq<T>, offset: nat, item: T): seq<T>
    requires offset <= |s|
  {
    s[..offset] + [item] + s[offset..]
  }

  /** realloc to one more cell, whatever that cell holds, memmove of the items from `offset` on by one cell, last item
    * first because the two ranges overlap, and the store of the item in the gap. */
  method OpenCell<T>(s: seq<T>, offset: nat, item: T, whatever: T) returns (cells: seq<T>)
    requires offset <= |s|
    ensures cells == Opened(s, offset, item)
  {
    cells := s + [whatever];
    var i := |s|;
    while i > offset
      invariant offset <= i <= |s| && |cells| == |s| + 1
      invariant forall j :: 0 <= j < |s| ==> cells[if j < i then j else j + 1] == s[j]
    {
      cells := cells[i := cells[i - 1]];
      i := i - 1;
    }
    cells := cells[offset := item];
    assert forall j :: offset <= j < |s| ==> cells[j + 1] == s[j];
  }

  /** Shifting the store and setting the bit change exactly one bucket. */
  lemma InsertedCell<T>(g: Group<T>, i: nat, item: T, j: nat)
    requires GroupOk(g) && i < 64 && j < 64 && !Bit(g.bmOccupied, i)
    ensures Rank(g.bmOccupied, i) <= |g.binSparse|
    ensures var store := Opened(g.binSparse, Rank(g.bmOccupied, i), item);
      var g' := Group(store, Or(g.bmOccupied, Pow2(i)), g.cOccupied + 1);
      GroupOk(g') && CellAt(g', j) == if j == i then Some(item) else CellAt(g, j)
  {
    hide Bit, Rank, Or, Pow2;
    var bm := g.bmOccupied;
    RankMono(bm, i, 64);
    SetBitRank(bm, i, 64);
    SetBitRank(bm, i, j);
    SetBit(bm, i, j);
    if Bit(bm, j) {
      RankBelow(bm, j, 64);
      if j < i { RankBelow(bm, j, i); } else { RankMono(bm, i, j); }
    }
  }

  lemma WrittenCell<T>(g: Group<T>, i: nat, item: T, j: nat)
    requires GroupOk(g) && i < 64 && j < 64 && Bit(g.bmOccupied, i)
    ensures Rank(g.bmOccupied, i) < |g.binSparse|
    ensures var g' := g.(binSparse := g.binSparse[Rank(g.bmOccupied, i) := item]);
      GroupOk(g') && CellAt(g', j) == if j == i then Some(item) else CellAt(g, j)
  {
    hide Bit, Rank;
    var bm := g.bmOccupied;
    RankBelow(bm, i, 64);
    if Bit(bm, j) {
      RankBelow(bm, j, 64);
      if j < i { RankBelow(bm, j, i); }
      if i < j { RankBelow(bm, i, j); }
    }
  }

  /** One group replaced. */
  lemma CellsUpdated<T>(bins: seq<Group<T>>, l: nat, g': Group<T>, item: T)
    requires AllOk(bins) && l < 64 * |bins| && GroupOk(g')
    requires forall j :: 0 <= j < 64 ==> CellAt(g', j) == if j == l % 64 then Some(item) else CellAt(bins[l / 64], j)
    ensures AllOk(bins[l / 64 := g']) && Cells(bins[l / 64 := g']) == Cells(bins)[l := Some(item)]
  {
    hide CellAt, GroupOk;
    var bins' := bins[l / 64 := g'];
    forall m | 0 <= m < 64 * |bins| ensures Cell(bins', m) == if m == l then Some(item) else Cell(bins, m) {
      if m / 64 == l / 64 { assert m % 64 == l % 64 <==> m == l; }
    }
    assert forall m :: 0 <= m < 64 * |bins| ==> Cells(bins)[m] == Cell(bins, m);
  }

  /** *bckPlace = *bckInsert. */
  method Store<T>(bins: array<Group<T>>, p: Ptr, item: T, ghost l: nat)
    requires Points(bins[..], p, l)
    modifies bins
    ensures AllOk(bins[..]) && Points(bins[..], p, l) && Cells(bins[..]) == old(Cells(bins[..]))[l := Some(item)]
  {
    hide Bit, Rank, GroupOk;
    ghost var was := bins[..];
    PointsTo(was, p, l);
    var g := bins[p.group];
    var g' := g.(binSparse := g.binSparse[p.offset := item]);
    StoredCells(was, p, l, item, g');
    bins[p.group] := g';
    assert bins[..] == was[p.group := g'];
  }

  lemma StoredCells<T>(bins: seq<Group<T>>, p: Ptr, l: nat, item: T, g': Group<T>)
    requires Points(bins, p, l) && p.offset < |bins[p.group].binSparse|
    requires g' == bins[p.group].(binSparse := bins[p.group].binSparse[p.offset := item])
    ensures AllOk(bins[p.group := g']) && Cells(bins[p.group := g']) == Cells(bins)[l := Some(item)]
    ensures Points(bins[p.group := g'], p, l)
  {
    hide Bit, Rank;
    var g := bins[p.group];
    WrittenCell(g, l % 64, item, 0);
    forall j | 0 <= j < 64 ensures CellAt(g', j) == if j == l % 64 then Some(item) else CellAt(g, j) {
      WrittenCell(g, l % 64, item, j);
    }
    CellsUpdated(bins, l, g', item);
    assert Cells(bins[p.group := g'])[l] == Some(item);
  }

  /** SparseInsert: writes over an occupied bucket only if `overwrite`, and says whether it was occupied. */
  method SparseInsert<T>(bins: array<Group<T>>, item: T, l: nat, overwrite: bool) returns (p: Ptr, was: bool)
    requires AllOk(bins[..]) && l < 64 * bins.Length
    modifies bins
    ensures AllOk(bins[..]) && Points(bins[..], p, l) && was == old(Cells(bins[..]))[l].Some?
    ensures Cells(bins[..]) == if was && !overwrite then old(Cells(bins[..])) else old(Cells(bins[..]))[l := Some(item)]
    ensures was && !overwrite ==> bins[..] == old(bins[..])
  {
    hide Bit, Rank, GroupOk, EntriesUpto, Or, Pow2, Opened;
    var place := SparseFind(bins, l);
    if place.Some? {
      if overwrite { Store(bins, place.value, item, l); }
      return place.value, true;
    }
    ghost var before := bins[..];
    var g := bins[l / 64];
    var offset := EntriesUpto(g.bmOccupied, l % 64);
    InsertedCells(before, l, item);
    var store := OpenCell(g.binSparse, offset, item, item);
    var g' := Group(store, Or(g.bmOccupied, Pow2(l % 64)), g.cOccupied + 1);
    bins[l / 64] := g';
    assert bins[..] == before[l / 64 := g'];
    p, was := Ptr(l / 64, offset), false;
  }

  lemma InsertedCells<T>(bins: seq<Group<T>>, l: nat, item: T)
    requires AllOk(bins) && l < 64 * |bins| && Cells(bins)[l].None?
    ensures EntriesUpto(bins[l / 64].bmOccupied, l % 64) <= |bins[l / 64].binSparse|
    ensures var g := bins[l / 64];
      var offset := EntriesUpto(g.bmOccupied, l % 64);
      var store := Opened(g.binSparse, offset, item);
      var bins' := bins[l / 64 := Group(store, Or(g.bmOccupied, Pow2(l % 64)), g.cOccupied + 1)];
      AllOk(bins') && Cells(bins') == Cells(bins)[l := Some(item)] && Points(bins', Ptr(l / 64, offset), l)
  {
    hide Bit, Rank, Or, Pow2, EntriesUpto;
    var g, i := bins[l / 64], l % 64;
    EntriesUptoCounts(g.bmOccupied, i);
    InsertedCell(g, i, item, 0);
    var g' := Group(Opened(g.binSparse, Rank(g.bmOccupied, i), item), Or(g.bmOccupied, Pow2(i)), g.cOccupied + 1);
    forall j | 0 <= j < 64 ensures CellAt(g', j) == if j == i then Some(item) else CellAt(g, j) {
      InsertedCell(g, i, item, j);
    }
    CellsUpdated(bins, l, g', item);
    SetBitRank(g.bmOccupied, i, i);
    assert Cells(bins[l / 64 := g'])[l] == Some(item);
  }
}
