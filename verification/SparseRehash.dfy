/** libchash.c: NextPow2, the live items of a table, and moving them all to a new one. */
module SparseRehash {
  import opened NatBits
  import opened Options
  import opened SparseGroup
  import opened SparseArray
  import opened SparseIterate
  import opened SparseModel
  import HashArith
  import Probe

  // ---------- NextPow2 ----------

  lemma {:induction false} AndSelf(a: nat)
    ensures And(a, a) == a
  {
    if a > 0 { AndSelf(a / 2); }
  }

  /** x & (x - 1) drops the lowest set bit, so it keeps the highest unless that is the only one. */
  lemma {:induction false} DropLowest(x: nat, p: nat)
    requires Pow2(p) <= x < Pow2(p + 1)
    ensures x > 0 && (And(x, x - 1) == 0 <==> x == Pow2(p))
    ensures x != Pow2(p) ==> Pow2(p) <= And(x, x - 1) < x
  {
    if p == 0 {
      assert x == 1;
    } else if x % 2 == 1 {
      AndSelf(x / 2);
      assert And(x, x - 1) == 2 * And(x / 2, x / 2);
    } else {
      DropLowest(x / 2, p - 1);
      assert And(x, x - 1) == 2 * And(x / 2, x / 2 - 1);
    }
  }

  const U64: nat := 0x1_0000_0000_0000_0000

  /** The next power of two above x; 0 at 0, and 2^63 when the next one would overflow. */
  method NextPow2(x0: nat) returns (r: nat)
    requires x0 < U64
    ensures x0 == 0 ==> r == 0
    ensures 0 < x0 < U64 / 2 ==> IsPow2(r) && x0 < r <= 2 * x0
    ensures x0 >= U64 / 2 ==> r == U64 / 2
  {
    hide Pow2, And;
    var x := x0;
    if (x * 2 % U64) / 2 != x { x := x / 2; }
    if x == 0 {
      return 0;
    }
    ghost var p := TopBit(x);
    x := OnlyTopBit(x, p);
    PowersAround(p);
    r := x * 2 % U64;
  }

  /** while ( (x & (x-1)) != 0 ) x &= (x-1). */
  method OnlyTopBit(x0: nat, ghost p: nat) returns (x: nat)
    requires Pow2(p) <= x0 < Pow2(p + 1)
    ensures x == Pow2(p)
  {
    hide Pow2, And;
    x := x0;
    DropLowest(x, p);
    while And(x, x - 1) != 0
      invariant Pow2(p) <= x < Pow2(p + 1) && x > 0
      invariant And(x, x - 1) == 0 <==> x == Pow2(p)
      invariant x != Pow2(p) ==> Pow2(p) <= And(x, x - 1) < x
      decreases x
    {
      x := And(x, x - 1);
      DropLowest(x, p);
    }
  }

  lemma PowersAround(p: nat)
    ensures Pow2(p + 1) == 2 * Pow2(p)
    ensures p == 62 ==> Pow2(p) == U64 / 4
    ensures p < 62 ==> Pow2(p) <= U64 / 8
    ensures p > 62 ==> Pow2(p) >= U64 / 2
  {
    HashArith.Powers();
    Pow2Add(31, 31);
    assert Pow2(62) == U64 / 4;
    Pow2Double(62);
    Pow2Double(61);
    if p < 62 { Pow2Mono(p, 61); }
    if p > 62 { Pow2Mono(63, p); }
  }

  lemma {:induction false} TopBit(y: nat) returns (p: nat)
    requires y > 0
    ensures Pow2(p) <= y < Pow2(p + 1)
  {
    if y == 1 {
      p := 0;
    } else {
      p := TopBit(y / 2);
      p := p + 1;
    }
  }

  // ---------- HashFirstBucket, HashNextBucket ----------

  /** The next item that is not marked deleted. */
  method NextLive<K>(it: SparseIterator<Item<K>>, ghost at: int) returns (p: Option<Ptr>, ghost at': int)
    requires it.Stands(at)
    modifies it
    ensures p.Some? ==>
      at < at' && it.Stands(at') && Points(it.binSparse[..], p.value, at') && Live(Cells(it.binSparse[..])[at'])
    ensures p.None? ==> at' == 64 * it.binSparse.Length
    ensures forall m :: at < m < at' ==> !Live(Cells(it.binSparse[..])[m])
  {
    hide Points, GroupOk;
    ghost var cells := Cells(it.binSparse[..]);
    at' := at;
    while true
      invariant at <= at' < 64 * it.binSparse.Length && it.Stands(at')
      invariant forall m :: at < m <= at' ==> !Live(cells[m])
      decreases 64 * it.binSparse.Length - at'
    {
      p, at' := it.NextBucket(at');
      if p.None? { return; }
      PointsTo(it.binSparse[..], p.value, at');
      if it.binSparse[p.value.group].binSparse[p.value.offset].data != DELETED { return; }
    }
  }

  // ---------- one item into the new table ----------

  /** The inner loop of Rehash and the insertion that ends it. */
  method PlaceNew<K>(hash: K -> nat, bins: array<Group<Item<K>>>, n: nat, item: Item<K>)
    returns (p: Ptr, ghost l: nat, ghost d: nat)
    requires AllOk(bins[..]) && n == 64 * bins.Length && IsPow2(n) && |Filled(Cells(bins[..]))| < n
    modifies bins
    ensures l < n && old(Cells(bins[..]))[l].None? && Reached(hash, old(Cells(bins[..])), item.key, l, d)
    ensures AllOk(bins[..]) && Points(bins[..], p, l) && Cells(bins[..]) == old(Cells(bins[..]))[l := Some(item)]
  {
    hide GroupOk, Path, Filled;
    ghost var bs, cells := bins[..], Cells(bins[..]);
    ghost var last := SomeEmpty(hash, cells, item.key);
    var i, offset := Home(hash, item.key, n), 0;
    PathStarts(hash, item.key, n);
    d := 0;
    var empty := SparseIsEmpty(bins, i);
    while !empty
      invariant bins[..] == bs && offset == d <= last && i == Path(hash, item.key, d, n) && empty == cells[i].None?
      invariant forall e: nat :: e < d ==> cells[Path(hash, item.key, e, n)].Some?
      decreases last - d
    {
      NextOnPath(hash, item.key, d, n);
      offset, d := offset + 1, d + 1;
      i := And(i + offset, n - 1);
      empty := SparseIsEmpty(bins, i);
    }
    l := i;
    var fOverwrite;
    p, fOverwrite := SparseInsert(bins, item, i, false);
  }

  lemma PathStarts<K>(hash: K -> nat, k: K, n: nat)
    requires n > 0
    ensures Path(hash, k, 0, n) == Home(hash, k, n)
  {
  }

  // ---------- all of them ----------

  /** The items of `cells` up to bucket `at`, except the one in bucket `wl`, are in the new table and nothing
    * else is. */
  ghost predicate Carried<K(!new)>(hash: K -> nat, cells: seq<Option<Item<K>>>, place: map<K, nat>, wl: int, at: int,
                                   cells': seq<Option<Item<K>>>, place': map<K, nat>)
  {
    && Indexed(cells, place) && |cells'| > 0 && Indexed(cells', place') && AllReachable(hash, cells', place')
    && |Filled(cells')| == |place'|
    && Covered(place, wl, at, place') && Copied(cells, place, cells', place')
  }

  ghost predicate Covered<K(!new)>(place: map<K, nat>, wl: int, at: int, place': map<K, nat>) {
    forall k :: k in place' <==> k in place && place[k] <= at && place[k] != wl
  }

  ghost predicate Copied<K(!new)>(cells: seq<Option<Item<K>>>, place: map<K, nat>,
                                  cells': seq<Option<Item<K>>>, place': map<K, nat>)
    requires Indexed(cells, place) && Indexed(cells', place')
  {
    forall k :: k in place' ==> k in place && cells'[place'[k]] == cells[place[k]]
  }

  lemma CarryNone<K(!new)>(hash: K -> nat, cells: seq<Option<Item<K>>>, place: map<K, nat>, wl: int,
                    cells': seq<Option<Item<K>>>)
    requires Indexed(cells, place) && |cells'| > 0 && forall l :: 0 <= l < |cells'| ==> cells'[l] == None
    ensures Carried(hash, cells, place, wl, -1, cells', map[])
  {
    assert Filled(cells') == {};
  }

  /** Buckets that hold nothing live, and the watched one, are passed over. */
  lemma CarrySkip<K(!new)>(hash: K -> nat, cells: seq<Option<Item<K>>>, place: map<K, nat>, wl: int, at: int, at': int,
                           cells': seq<Option<Item<K>>>, place': map<K, nat>)
    requires Carried(hash, cells, place, wl, at, cells', place') && -1 <= at <= at' <= |cells|
    requires forall m :: at < m <= at' && m < |cells| ==> !Live(cells[m]) || m == wl
    ensures Carried(hash, cells, place, wl, at', cells', place')
  {
    hide Path, Reachable, Filled;
  }

  /** There is room for another item. */
  lemma CarryRoom<K(!new)>(hash: K -> nat, cells: seq<Option<Item<K>>>, place: map<K, nat>, wl: int, at: int,
                           cells': seq<Option<Item<K>>>, place': map<K, nat>, l: nat)
    requires Carried(hash, cells, place, wl, at, cells', place') && l < |cells| && Live(cells[l]) && (at < l || l == wl)
    ensures |Filled(cells')| < |place| && cells[l].value.key !in place'
  {
    hide Path, Reachable, Filled;
    assert place'.Keys <= place.Keys - {cells[l].value.key};
    Probe.SubsetSize(place'.Keys, place.Keys - {cells[l].value.key});
  }

  /** The item of bucket at' has been put into bucket l of the new table. */
  lemma CarryOne<K(!new)>(hash: K -> nat, cells: seq<Option<Item<K>>>, place: map<K, nat>, wl: int, at: int, at': int,
                          cells': seq<Option<Item<K>>>, place': map<K, nat>, l: nat, d: nat)
    requires Carried(hash, cells, place, wl, at, cells', place') && -1 <= at < at' < |cells| && Live(cells[at'])
    requires at' != wl
    requires forall m :: at < m < at' ==> !Live(cells[m]) || m == wl
    requires l < |cells'| && cells'[l].None? && Reached(hash, cells', cells[at'].value.key, l, d)
    ensures Carried(hash, cells, place, wl, at', cells'[l := cells[at']], place'[cells[at'].value.key := l])
  {
    hide Path, Reachable, Filled, AllReachable, Indexed, Covered, Copied, Reached, MapOf;
    var item := cells[at'].value;
    CarryRoom(hash, cells, place, wl, at, cells', place', at');
    InsertItem(hash, cells', place', item, l, d);
    FilledUpdated(cells', l, item);
    CopiedOne(cells, place, cells', place', at', l);
    CoveredOne(cells, place, wl, at, at', place', l);
  }

  lemma CoveredOne<K(!new)>(cells: seq<Option<Item<K>>>, place: map<K, nat>, wl: int, at: int, at': int, place': map<K,
                     nat>, l: nat)
    requires Indexed(cells, place) && -1 <= at < at' < |cells| && Live(cells[at']) && at' != wl
    requires forall m :: at < m < at' ==> !Live(cells[m]) || m == wl
    requires Covered(place, wl, at, place')
    ensures Covered(place, wl, at', place'[cells[at'].value.key := l])
  {
    var key := cells[at'].value.key;
    var place'' := place'[key := l];
    assert place[key] == at';
    forall k ensures k in place'' <==> k in place && place[k] <= at' && place[k] != wl {
      if k in place && k != key { assert Live(cells[place[k]]) && place[k] != at'; }
    }
  }

  lemma CopiedOne<K(!new)>(cells: seq<Option<Item<K>>>, place: map<K, nat>, cells': seq<Option<Item<K>>>, place': map<K,
                    nat>,
                           x: nat, l: nat)
    requires Indexed(cells, place) && x < |cells| && Live(cells[x]) && l < |cells'| && cells'[l].None?
    requires Indexed(cells', place')
    requires Indexed(cells'[l := cells[x]], place'[cells[x].value.key := l]) && Copied(cells, place, cells', place')
    ensures Copied(cells, place, cells'[l := cells[x]], place'[cells[x].value.key := l])
  {
  }

  /** When everything else has been moved, the watched item completes the new table. */
  lemma CarryLast<K(!new)>(hash: K -> nat, cells: seq<Option<Item<K>>>, place: map<K, nat>, wl: nat,
                           cells': seq<Option<Item<K>>>, place': map<K, nat>, l: nat, d: nat)
    requires Carried(hash, cells, place, wl, |cells|, cells', place') && wl < |cells| && Live(cells[wl])
    requires l < |cells'| && cells'[l].None? && Reached(hash, cells', cells[wl].value.key, l, d)
    ensures Carried(hash, cells, place, -1, |cells|, cells'[l := cells[wl]], place'[cells[wl].value.key := l])
  {
    hide Path, Reachable, Filled, AllReachable, Copied, MapOf;
    var item := cells[wl].value;
    CarryRoom(hash, cells, place, wl, |cells|, cells', place', wl);
    InsertItem(hash, cells', place', item, l, d);
    FilledUpdated(cells', l, item);
    CopiedOne(cells, place, cells', place', wl, l);
  }

  /** The new table holds what the old one held, and no deleted markers. */
  lemma CarriedAll<K(!new)>(hash: K -> nat, cells: seq<Option<Item<K>>>, place: map<K, nat>,
                            cells': seq<Option<Item<K>>>, place': map<K, nat>)
    requires Carried(hash, cells, place, -1, |cells|, cells', place')
    ensures Indexed(cells', place') && AllReachable(hash, cells', place')
    ensures MapOf(cells', place') == MapOf(cells, place) && |place'| == |place| == |Filled(cells')|
  {
    hide Path, Reachable, Filled;
    assert place'.Keys == place.Keys;
    assert |place'| == |place'.Keys| == |place|;
  }

  /** A size that is a power of two stays one when rounded up to whole groups. */
  lemma WholeGroups(c: nat, n: nat)
    requires IsPow2(c) && n % 64 == 0 && c <= n < c + 64
    ensures IsPow2(n) && n == if c < 64 then 64 else c
  {
    hide Pow2;
    HashArith.Powers();
    Pow2Add(2, 4);
    var k: nat :| c == Pow2(k);
    if k >= 6 {
      Pow2Add(6, k - 6);
      MultipleOf(Pow2(k - 6), c);
    } else {
      Pow2Mono(k, 6);
      if k < 6 {
        Pow2Mono(k, 5);
        Pow2Double(5);
      }
    }
  }

  lemma MultipleOf(q: nat, c: nat)
    requires c == 64 * q
    ensures c % 64 == 0
  {
  }

  /** An item other than the watched one moves to the new table. */
  method MoveOne<K(!new)>(hash: K -> nat, table: array<Group<Item<K>>>, tableNew: array<Group<Item<K>>>, n: nat,
                   bck: Ptr,
                          ghost place: map<K, nat>, ghost wl: int, ghost at: int, ghost at': int,
                          ghost place0: map<K, nat>)
    returns (p: Ptr, ghost place': map<K, nat>)
    requires table != tableNew && AllOk(table[..]) && AllOk(tableNew[..]) && n == 64 * tableNew.Length && IsPow2(n)
    requires |place| < n
    requires Carried(hash, Cells(table[..]), place, wl, at, Cells(tableNew[..]), place0)
    requires -1 <= at < at' && Points(table[..], bck, at') && at' != wl && Live(Cells(table[..])[at'])
    requires forall m :: at < m < at' ==> !Live(Cells(table[..])[m]) || m == wl
    modifies tableNew
    ensures AllOk(tableNew[..]) && Carried(hash, Cells(table[..]), place, wl, at', Cells(tableNew[..]), place')
  {
    hide GroupOk, Carried, Path, Reached, Filled, Points;
    ghost var cells, cells0 := Cells(table[..]), Cells(tableNew[..]);
    PointsTo(table[..], bck, at');
    CarryRoom(hash, cells, place, wl, at, cells0, place0, at');
    ghost var l, d;
    p, l, d := PlaceNew(hash, tableNew, n, table[bck.group].binSparse[bck.offset]);
    CarryOne(hash, cells, place, wl, at, at', cells0, place0, l, d);
    place' := place0[cells[at'].value.key := l];
  }

  /** The watched item is moved last, so nothing moves it again. */
  method MoveWatched<K(!new)>(hash: K -> nat, table: array<Group<Item<K>>>, tableNew: array<Group<Item<K>>>, n: nat,
                       bck: Ptr,
                              ghost place: map<K, nat>, ghost wl: nat, ghost place0: map<K, nat>)
    returns (p: Ptr, ghost place': map<K, nat>)
    requires table != tableNew && AllOk(table[..]) && AllOk(tableNew[..]) && n == 64 * tableNew.Length && IsPow2(n)
    requires |place| < n
    requires Carried(hash, Cells(table[..]), place, wl, 64 * table.Length, Cells(tableNew[..]), place0)
    requires Points(table[..], bck, wl) && Live(Cells(table[..])[wl])
    modifies tableNew
    ensures AllOk(tableNew[..])
    ensures Carried(hash, Cells(table[..]), place, -1, 64 * table.Length, Cells(tableNew[..]), place')
    ensures var key := Cells(table[..])[wl].value.key; key in place' && Points(tableNew[..], p, place'[key])
  {
    hide GroupOk, Carried, Path, Reached, Filled, Points;
    ghost var cells, cells0 := Cells(table[..]), Cells(tableNew[..]);
    PointsTo(table[..], bck, wl);
    CarryRoom(hash, cells, place, wl, |cells|, cells0, place0, wl);
    ghost var l, d;
    p, l, d := PlaceNew(hash, tableNew, n, table[bck.group].binSparse[bck.offset]);
    CarryLast(hash, cells, place, wl, cells0, place0, l, d);
    place' := place0[cells[wl].value.key := l];
  }

  /** Rehash: every live item moves to a table of the new size, the watched one last. */
  method Rebuild<K(!new)>(hash: K -> nat, table: array<Group<Item<K>>>, cNewBuckets: nat, bckWatch: Option<Ptr>,
                          ghost wl: int, ghost place: map<K, nat>)
    returns (tableNew: array<Group<Item<K>>>, n: nat, bckNew: Option<Ptr>, ghost place': map<K, nat>)
    requires AllOk(table[..]) && Indexed(Cells(table[..]), place)
    requires IsPow2(cNewBuckets) && cNewBuckets <= 0x4000_0000 && |place| < cNewBuckets
    requires if bckWatch.None? then wl == -1
             else wl >= 0 && Points(table[..], bckWatch.value, wl) && Live(Cells(table[..])[wl])
    ensures fresh(tableNew) && n == 64 * tableNew.Length == (if cNewBuckets < 64 then 64 else cNewBuckets) && IsPow2(n)
    ensures AllOk(tableNew[..])
    ensures Carried(hash, Cells(table[..]), place, -1, 64 * table.Length, Cells(tableNew[..]), place')
    ensures bckWatch.Some? ==>
      var key := Cells(table[..])[wl].value.key;
      bckNew.Some? && key in place' && Points(tableNew[..], bckNew.value, place'[key])
  {
    hide GroupOk, Carried, Points, IsPow2, Indexed;
    tableNew, n := SparseAllocate(cNewBuckets);
    WholeGroups(cNewBuckets, n);
    ghost var cells := Cells(table[..]);
    place', bckNew := map[], None;
    CarryNone(hash, cells, place, wl, Cells(tableNew[..]));
    ghost var at, at' := -1, -1;
    var it := new SparseIterator(table);
    var bck;
    bck, at' := NextLive(it, at);
    while true
      invariant AllOk(table[..]) && Cells(table[..]) == cells && AllOk(tableNew[..])
      invariant Carried(hash, cells, place, wl, at, Cells(tableNew[..]), place')
      invariant -1 <= at < |cells| && at' <= |cells|
      invariant forall m :: at < m < at' ==> !Live(cells[m])
      invariant bck.None? ==> at' == |cells|
      invariant bck.Some? ==> at < at' && it.Stands(at') && Points(table[..], bck.value, at') && Live(cells[at'])
      decreases |cells| - at
    {
      if bck.None? {
        CarrySkip(hash, cells, place, wl, at, |cells|, Cells(tableNew[..]), place');
        if bckWatch.None? { break; }
        var p;
        p, place' := MoveWatched(hash, table, tableNew, n, bckWatch.value, place, wl, place');
        bckNew := Some(p);
        break;
      }
      if bckWatch.Some? { PointsUnique(table[..], bck.value, at', bckWatch.value, wl); }
      if bck == bckWatch {
        CarrySkip(hash, cells, place, wl, at, at', Cells(tableNew[..]), place');
      } else {
        var p;
        p, place' := MoveOne(hash, table, tableNew, n, bck.value, place, wl, at, at', place');
        bckNew := Some(p);
      }
      at := at';
      bck, at' := NextLive(it, at);
    }
  }
}
