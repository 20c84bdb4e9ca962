/** The hash table of libchash.c over a sparse array, with no delta goal set. */
module SparseTable {
  import opened NatBits
  import opened Options
  import opened SparseGroup
  import opened SparseArray
  import opened SparseIterate
  import opened SparseModel
  import opened SparseRehash
  import HashArith
  import Probe

  const OCCUPANCY_PCT: real := 0.5
  const MIN_HASH_SIZE: nat := 512
  /** SparseAllocate counts groups in an int and shifts it, so 2^30 buckets are the most there can be. */
  const MAX_BUCKETS: nat := 0x4000_0000

  ghost predicate Sound<K(!new)>(hash: K -> nat, cells: seq<Option<Item<K>>>, place: map<K, nat>) {
    && IsPow2(|cells|) && 64 <= |cells| <= MAX_BUCKETS
    && Indexed(cells, place) && AllReachable(hash, cells, place)
  }

  /** The counters, and the load bounds every operation keeps. */
  ghost predicate Counts<K(!new)>(cells: seq<Option<Item<K>>>, place: map<K, nat>, cItems: nat, cDeletedItems: nat) {
    && cItems == |place| && cItems + cDeletedItems == |Filled(cells)|
    && 2 * (cItems + cDeletedItems) < |cells|
    && (|cells| >= 1024 ==> 5 * cItems >= |cells|)
  }

  /** The size of a table that has just been rebuilt: the least power of two above twice the items, at least a group. */
  ghost predicate Fitted(buckets: nat, items: nat) {
    IsPow2(buckets) && 64 <= buckets && 2 * items < buckets && (buckets > 64 ==> buckets <= 4 * items)
  }

  /** Bucket l, the d-th on key's path, is the first that is deleted or never used. */
  ghost predicate FirstOpen<K>(hash: K -> nat, cells: seq<Option<Item<K>>>, key: K, l: nat, d: nat)
    requires |cells| > 0
  {
    && d < |cells| && l == Path(hash, key, d, |cells|) && !Live(cells[l])
    && forall e: nat :: e < d ==> Live(cells[Path(hash, key, e, |cells|)])
  }

  /** The first bucket open to an absent key is one marked deleted. */
  ghost predicate Tombstoned<K>(hash: K -> nat, cells: seq<Option<Item<K>>>, key: K) {
    |cells| > 0 && exists l: nat, d: nat :: l < |cells| && cells[l].Some? && FirstOpen(hash, cells, key, l, d)
  }

  ghost predicate TombstonedIn<K>(hash: K -> nat, bins: seq<Group<Item<K>>>, key: K) {
    AllOk(bins) && Tombstoned(hash, Cells(bins), key)
  }

  ghost predicate PointsToDeleted<K>(bins: seq<Group<Item<K>>>, p: Ptr) {
    AllOk(bins) && exists l: nat :: l < 64 * |bins| && Points(bins, p, l) && !Live(Cells(bins)[l])
  }

  /** The buckets are what they were, except that bucket l now holds key's deleted marker. */
  ghost predicate MarkedAt<K>(bins: seq<Group<Item<K>>>, cells: seq<Option<Item<K>>>, l: nat, key: K) {
    AllOk(bins) && l < |cells| && Cells(bins) == cells[l := Some(Item(DELETED, key))]
  }

  /** The buckets are what they were, except that bucket l now holds the item. */
  ghost predicate TakenAt<K>(bins: seq<Group<Item<K>>>, cells: seq<Option<Item<K>>>, l: nat, item: Item<K>) {
    AllOk(bins) && l < |cells| && Cells(bins) == cells[l := Some(item)]
  }

  /** The same, bucket l being the first open to the item's key. */
  ghost predicate TakenFirst<K>(hash: K -> nat, bins: seq<Group<Item<K>>>, cells: seq<Option<Item<K>>>, item: Item<K>) {
    |cells| > 0 && exists l: nat, d: nat :: FirstOpen(hash, cells, item.key, l, d) && TakenAt(bins, cells, l, item)
  }

  lemma FirstOpenUnique<K>(hash: K -> nat, cells: seq<Option<Item<K>>>, key: K, l: nat, d: nat, l': nat, d': nat)
    requires |cells| > 0 && FirstOpen(hash, cells, key, l, d) && FirstOpen(hash, cells, key, l', d')
    ensures l == l' && d == d'
  {
    hide Path;
    assert !Live(cells[Path(hash, key, d, |cells|)]) && !Live(cells[Path(hash, key, d', |cells|)]);
  }

  lemma OpenReached<K>(hash: K -> nat, cells: seq<Option<Item<K>>>, key: K, l: nat, d: nat)
    requires |cells| > 0 && FirstOpen(hash, cells, key, l, d)
    ensures Reached(hash, cells, key, l, d) && l < |cells|
  {
    hide Path;
  }

  /** Find: the item with the key, or the first bucket that could take it. */
  method Search<K(==,!new)>(hash: K -> nat, table: array<Group<Item<K>>>, n: nat, key: K, ghost place: map<K, nat>)
    returns (item: Option<Ptr>, iEmpty: nat, ghost d: nat)
    requires AllOk(table[..]) && n == 64 * table.Length && Sound(hash, Cells(table[..]), place)
    requires |Filled(Cells(table[..]))| < n
    ensures item.Some? <==> key in place
    ensures item.Some? ==> Points(table[..], item.value, place[key])
    ensures item.None? ==> FirstOpen(hash, Cells(table[..]), key, iEmpty, d)
  {
    hide GroupOk, Path, Filled, IsPow2, Passed, Points, Cells, Cell;
    ghost var cells := Cells(table[..]);
    ghost var last := SomeEmpty(hash, cells, key);
    var i, offset, fFoundEmpty := Home(hash, key, n), 0, false;
    iEmpty := 0;
    PathStarts(hash, key, n);
    PassNone(hash, cells, key);
    d := 0;
    while true
      invariant offset <= last && i == Path(hash, key, offset, n) && Passed(hash, cells, key, offset)
      invariant if fFoundEmpty then FirstOpen(hash, cells, key, iEmpty, d) else AllLiveBefore(hash, cells, key, offset)
      decreases last - offset
    {
      item := SparseFind(table, i);
      if item.None? {
        if !fFoundEmpty { iEmpty, d := i, offset; }
        SearchComplete(hash, cells, place, key, offset);
        return;
      }
      PointsTo(table[..], item.value, i);
      var bck := table[item.value.group].binSparse[item.value.offset];
      if bck.data == DELETED {
        if !fFoundEmpty { iEmpty, d, fFoundEmpty := i, offset, true; }
      } else if bck.key == key {
        return;
      }
      PassOne(hash, cells, key, offset);
      NextOnPath(hash, key, offset, n);
      offset := offset + 1;
      i := And(i + offset, n - 1);
    }
  }

  ghost predicate AllLiveBefore<K>(hash: K -> nat, cells: seq<Option<Item<K>>>, key: K, d: nat)
    requires |cells| > 0
  {
    forall e: nat :: e < d ==> Live(cells[Path(hash, key, e, |cells|)])
  }

  lemma PassNone<K>(hash: K -> nat, cells: seq<Option<Item<K>>>, key: K)
    requires |cells| > 0
    ensures Passed(hash, cells, key, 0)
  {
  }

  /** The tests against OCCUPANCY_PCT, in whole numbers: a half is exact in doubles. */
  lemma LoadTests(items: nat, used: nat, buckets: nat)
    ensures used as real >= buckets as real * OCCUPANCY_PCT <==> 2 * used >= buckets
    ensures (items as real / OCCUPANCY_PCT).Floor == 2 * items
  {
    assert items as real / OCCUPANCY_PCT == (2 * items) as real;
  }

  /** A fifth is not, but no number of buckets is near enough to a multiple of five for that to matter: `fifth` is
    * what doubles make of the product, off by at most a thousandth. */
  lemma ShrinkTest(items: nat, buckets: nat, fifth: real)
    requires IsPow2(buckets) && HashArith.Computed(fifth, buckets as real * OCCUPANCY_PCT * 0.4)
    ensures items as real < fifth <==> 5 * items < buckets
  {
    hide Pow2;
    var k: nat :| buckets == Pow2(k);
    HashArith.NotFives(k);
    assert 5 * items != buckets;
    assert buckets as real * OCCUPANCY_PCT * 0.4 == buckets as real / 5.0;
    if 5 * items < buckets {
      assert items as real + 0.2 <= buckets as real / 5.0;
    } else {
      assert items as real - 0.2 >= buckets as real / 5.0;
    }
  }

  /** HashTable, keys stored with their items. */
  class HashTable<K(==,!new)> {
    const hash: K -> nat
    var cItems: nat
    var cDeletedItems: nat
    var cBuckets: nat
    var table: array<Group<Item<K>>>
    var posLastFind: Option<Ptr>
    ghost var place: map<K, nat>

    ghost predicate Valid()
      reads this, table
    {
      && AllOk(table[..]) && cBuckets == 64 * table.Length
      && Sound(hash, Cells(table[..]), place) && Counts(Cells(table[..]), place, cItems, cDeletedItems)
      && (posLastFind.Some? ==> exists k :: FoundLast(k))
    }

    /** posLastFind points to the item of key k. */
    ghost predicate FoundLast(k: K)
      reads this, table
    {
      posLastFind.Some? && k in place && Points(table[..], posLastFind.value, place[k])
    }

    /** The finite map the table stands for. */
    ghost function Contents(): (m: map<K, nat>)
      reads this, table
      requires AllOk(table[..]) && Indexed(Cells(table[..]), place)
      ensures m.Keys == place.Keys
    {
      MapOf(Cells(table[..]), place)
    }

    /** AllocateHashTable. */
    constructor (hash: K -> nat)
      ensures Valid() && Contents() == map[] && this.hash == hash && cBuckets == 512 && fresh(table)
      ensures cItems == cDeletedItems == 0 && posLastFind.None?
    {
      hide GroupOk, Cells, Sound, Counts, MapOf;
      this.hash := hash;
      var bins, n := SparseAllocate<Item<K>>(MIN_HASH_SIZE);
      EmptyTable(hash, Cells(bins[..]));
      cItems, cDeletedItems, posLastFind, place := 0, 0, None, map[];
      table, cBuckets := bins, n;
    }

    /** ClearHashTable. */
    method Clear()
      requires Valid()
      modifies this
      ensures Valid() && Contents() == map[] && cBuckets == 512 && fresh(table)
      ensures cItems == cDeletedItems == 0 && posLastFind.None?
    {
      hide GroupOk, Cells, Sound, Counts, MapOf;
      var bins, n := SparseAllocate<Item<K>>(MIN_HASH_SIZE);
      EmptyTable(hash, Cells(bins[..]));
      table, cBuckets := bins, n;
      cItems, cDeletedItems, posLastFind, place := 0, 0, None, map[];
    }

    /** HashFind. */
    method Find(key: K) returns (item: Option<Ptr>)
      requires Valid()
      modifies this`posLastFind
      ensures Valid() && Contents() == old(Contents()) && posLastFind == item
      ensures item.Some? <==> key in Contents()
      ensures item.Some? ==> Points(table[..], item.value, place[key]) && FoundLast(key)
    {
      hide GroupOk, Sound, Points, Cells;
      posLastFind := None;
      var iEmpty;
      ghost var d;
      item, iEmpty, d := Search(hash, table, cBuckets, key, place);
      posLastFind := item;
      if item.Some? { assert FoundLast(key); }
    }

    /** Rehash: the items in a new table, no deleted markers, and where the watched item went. */
    method Rehash(cNewBuckets: nat, bckWatch: Option<Ptr>, ghost key: Option<K>) returns (bckNew: Option<Ptr>)
      requires AllOk(table[..]) && cBuckets == 64 * table.Length && Sound(hash, Cells(table[..]), place)
      requires cItems == |place|
      requires IsPow2(cNewBuckets) && cNewBuckets <= MAX_BUCKETS && cItems < cNewBuckets
      requires bckWatch.Some? <==> key.Some?
      requires key.Some? ==> key.value in place && Points(table[..], bckWatch.value, place[key.value])
      modifies this`table, this`cBuckets, this`cDeletedItems, this`place
      ensures fresh(table) && AllOk(table[..]) && cBuckets == 64 * table.Length && Sound(hash, Cells(table[..]), place)
      ensures cBuckets == (if cNewBuckets < 64 then 64 else cNewBuckets) && IsPow2(cBuckets)
      ensures cDeletedItems == 0 && |Filled(Cells(table[..]))| == |place| == cItems
      ensures MapOf(Cells(table[..]), place) == old(MapOf(Cells(table[..]), place))
      ensures key.Some? ==> bckNew.Some? && key.value in place && Points(table[..], bckNew.value, place[key.value])
    {
      hide GroupOk, Points, Filled, Carried, IsPow2, Indexed, AllReachable, MapOf, Live;
      ghost var cells := Cells(table[..]);
      if key.Some? { KeyIsLive(cells, place, key.value); }
      var tableNew, n;
      ghost var place';
      ghost var wl := if key.Some? then place[key.value] else -1;
      tableNew, n, bckNew, place' := Rebuild(hash, table, cNewBuckets, bckWatch, wl, place);
      CarriedAll(hash, cells, place, Cells(tableNew[..]), place');
      table, cBuckets, cDeletedItems, place := tableNew, n, 0, place';
    }

    /** The end of Insert: grow, or clear out deleted markers, when half the buckets are used. */
    method Grow(item: Ptr, ghost key: K) returns (item': Ptr)
      requires AllOk(table[..]) && cBuckets == 64 * table.Length && Sound(hash, Cells(table[..]), place)
      requires cItems == |place| && cItems + cDeletedItems == |Filled(Cells(table[..]))|
      requires 0 < cItems < 0x2000_0000 && (cBuckets >= 1024 ==> 5 * cItems >= cBuckets)
      requires key in place && Points(table[..], item, place[key]) && posLastFind.None?
      modifies this`table, this`cBuckets, this`cDeletedItems, this`place
      ensures Valid() && Contents() == old(MapOf(Cells(table[..]), place)) && (table == old(table) || fresh(table))
      ensures key in place && Points(table[..], item', place[key])
      ensures if 2 * (cItems + old(cDeletedItems)) >= old(cBuckets) then
                cDeletedItems == 0 && Fitted(cBuckets, cItems) && fresh(table)
              else unchanged(this) && item' == item
    {
      hide GroupOk, Points, Filled, Fitted, IsPow2, Indexed, AllReachable, MapOf, Live;
      item' := item;
      LoadTests(cItems, cItems + cDeletedItems, cBuckets);
      if (cItems + cDeletedItems) as real >= cBuckets as real * OCCUPANCY_PCT {
        var cNew := NextPow2((cItems as real / OCCUPANCY_PCT).Floor);
        NextFits(2 * cItems, cNew);
        var bckNew := Rehash(cNew, Some(item), Some(key));
        FittedAfter(cNew, cBuckets, cItems);
        item' := bckNew.value;
      }
    }

    /** New data for an item that was found. */
    method Overwrite(item: Ptr, key: K, data: nat)
      requires Valid() && key in place && Points(table[..], item, place[key]) && data != DELETED && posLastFind.None?
      modifies table
      ensures Valid() && Contents() == old(Contents())[key := data] && Points(table[..], item, place[key])
    {
      hide GroupOk, Points, Filled, Indexed, AllReachable, MapOf, IsPow2, Cells;
      ghost var cells := Cells(table[..]);
      Overwritten(hash, cells, place, key, data);
      PointsTo(table[..], item, place[key]);
      Store(table, item, table[item.group].binSparse[item.offset].(data := data), place[key]);
    }

    /** SparseInsert and the counters, for an absent key that goes to bucket iEmpty, the first open to it. */
    method Take(key: K, data: nat, iEmpty: nat, overwrite: bool, ghost d: nat) returns (item: Ptr, fOverwrite: bool)
      requires Valid() && data != DELETED && cItems + 1 < 0x2000_0000 && key !in place && posLastFind.None?
      requires FirstOpen(hash, Cells(table[..]), key, iEmpty, d)
      modifies this`cItems, this`cDeletedItems, this`place, table
      ensures AllOk(table[..]) && Sound(hash, Cells(table[..]), place)
      ensures cItems == old(cItems) + 1 && fOverwrite == old(TombstonedIn(hash, table[..], key))
      ensures cItems + cDeletedItems == old(cItems) + old(cDeletedItems) + if fOverwrite then 0 else 1
      ensures if fOverwrite && !overwrite then
                table[..] == old(table[..]) && place == old(place) && PointsToDeleted(table[..], item)
              else
                && MapOf(Cells(table[..]), place) == old(Contents())[key := data]
                && cItems == |place| && cItems + cDeletedItems == |Filled(Cells(table[..]))|
                && key in place && Points(table[..], item, place[key])
                && TakenAt(table[..], old(Cells(table[..])), iEmpty, Item(data, key))
    {
      hide GroupOk, Points, Filled, Indexed, AllReachable, MapOf, Tombstoned, FirstOpen, IsPow2, Cells, Live;
      ghost var cells := Cells(table[..]);
      TombstonedWhen(hash, cells, key, iEmpty, d);
      Added(hash, cells, place, cItems, cDeletedItems, key, data, iEmpty, d);
      item, fOverwrite := SparseInsert(table, Item(data, key), iEmpty, overwrite);
      if fOverwrite { cDeletedItems := cDeletedItems - 1; }
      cItems := cItems + 1;
      if !fOverwrite || overwrite { place := place[key := iEmpty]; }
    }

    /** How many buckets are in use once an absent key has been put in. */
    ghost function UsedWith(key: K): int
      reads this, table
    {
      cItems + 1 + cDeletedItems - if TombstonedIn(hash, table[..], key) then 1 else 0
    }

    /** The size after `used` of `buckets` buckets were in use: rebuilt when that was half of them. */
    ghost predicate Sized(used: int, buckets: nat)
      reads this
    {
      if 2 * used >= buckets then cDeletedItems == 0 && Fitted(cBuckets, cItems)
      else cItems + cDeletedItems == used && cBuckets == buckets
    }

    /** The end of Insert for a key that is absent.  SparseInsert writes over a deleted marker only when told to; the
      * counters are changed all the same. */
    method Add(key: K, data: nat, iEmpty: nat, overwrite: bool, ghost d: nat) returns (item: Ptr)
      requires Valid() && data != DELETED && cItems + 1 < 0x2000_0000 && key !in place && posLastFind.None?
      requires FirstOpen(hash, Cells(table[..]), key, iEmpty, d)
      modifies this, table
      ensures table == old(table) || fresh(table)
      ensures posLastFind.None? && cItems == old(cItems) + 1 && Sized(old(UsedWith(key)), old(cBuckets))
      ensures overwrite || !old(TombstonedIn(hash, table[..], key)) ==>
        && Valid() && Contents() == old(Contents())[key := data] && key in place && Points(table[..], item, place[key])
        && (if 2 * old(UsedWith(key)) >= old(cBuckets) then fresh(table)
            else table == old(table) && TakenFirst(hash, table[..], old(Cells(table[..])), Item(data, key)))
      ensures !overwrite && old(TombstonedIn(hash, table[..], key)) ==>
        && table == old(table) && table[..] == old(table[..]) && place == old(place) && cItems == |place| + 1
        && PointsToDeleted(table[..], item)
    {
      hide GroupOk, Points, Filled, Sound, Indexed, MapOf, TombstonedIn, FirstOpen, Cells, PointsToDeleted, Fitted;
      var fOverwrite;
      item, fOverwrite := Take(key, data, iEmpty, overwrite, d);
      if fOverwrite && !overwrite {
        // the buckets in use are as many as before, so the table does not grow
        LoadTests(0, cItems + cDeletedItems, cBuckets);
        assert !((cItems + cDeletedItems) as real >= cBuckets as real * OCCUPANCY_PCT);
      } else {
        item := Grow(item, key);
      }
    }

    /** HashInsert, with SAMEKEY_OVERWRITE. */
    method Insert(key: K, data: nat) returns (item: Ptr)
      requires Valid() && data != 0xffff_ffff_ffff_fffe && cItems + 1 < 0x2000_0000
      modifies this, table
      ensures Valid() && Contents() == old(Contents())[key := data] && (table == old(table) || fresh(table))
      ensures key in place && Points(table[..], item, place[key]) && posLastFind.None?
      ensures key in old(place) ==> unchanged(`table, `place, `cItems, `cDeletedItems, `cBuckets)
      ensures key !in old(place) ==>
        && cItems == old(cItems) + 1 && Sized(old(UsedWith(key)), old(cBuckets))
        && (if 2 * old(UsedWith(key)) >= old(cBuckets) then fresh(table)
            else table == old(table) && TakenFirst(hash, table[..], old(Cells(table[..])), Item(data, key)))
    {
      hide GroupOk, Points, Filled, FirstOpen, Sound, MapOf, Cells, TakenFirst, TombstonedIn, Sized, Fitted;
      FewerItems(Cells(table[..]), place, cItems, cDeletedItems);
      var found, iEmpty;
      ghost var d;
      found, iEmpty, d := Search(hash, table, cBuckets, key, place);
      posLastFind := None;
      if found.Some? {
        item := found.value;
        Overwrite(item, key, data);
      } else {
        item := Add(key, data, iEmpty, true, d);
      }
    }

    /** HashFindOrInsert: SparseInsert is told not to overwrite, and so does not write the item at all when
      * the open bucket is one marked deleted, though the counters are changed as if it had been. */
    method FindOrInsert(key: K, data: nat) returns (item: Ptr)
      requires Valid() && data != 0xffff_ffff_ffff_fffe && cItems + 1 < 0x2000_0000
      modifies this, table
      ensures table == old(table) || fresh(table)
      ensures posLastFind.None?
      ensures key in old(place) ==>
        && Valid() && Contents() == old(Contents()) && key in place && Points(table[..], item, place[key])
        && table[..] == old(table[..]) && unchanged(`table, `place, `cItems, `cDeletedItems, `cBuckets)
      ensures key !in old(place) ==> cItems == old(cItems) + 1 && Sized(old(UsedWith(key)), old(cBuckets))
      ensures key !in old(place) && !old(TombstonedIn(hash, table[..], key)) ==>
        && Valid() && Contents() == old(Contents())[key := data] && key in place && Points(table[..], item, place[key])
        && (if 2 * old(UsedWith(key)) >= old(cBuckets) then fresh(table)
            else table == old(table) && TakenFirst(hash, table[..], old(Cells(table[..])), Item(data, key)))
      ensures key !in old(place) && old(TombstonedIn(hash, table[..], key)) ==>
        && table == old(table) && table[..] == old(table[..]) && place == old(place) && cItems == |place| + 1
        && PointsToDeleted(table[..], item)
    {
      hide GroupOk, Points, Filled, FirstOpen, Sound, MapOf, Cells, TombstonedIn, PointsToDeleted, TakenFirst, Sized,
        Fitted;
      FewerItems(Cells(table[..]), place, cItems, cDeletedItems);
      var found, iEmpty;
      ghost var d;
      found, iEmpty, d := Search(hash, table, cBuckets, key, place);
      posLastFind := None;
      if found.Some? {
        item := found.value;
      } else {
        item := Add(key, data, iEmpty, false, d);
      }
    }

    /** The counters and the size after a deletion. */
    ghost predicate DeletedWell(items: nat, deleted: nat, buckets: nat)
      reads this
    {
      && cItems == items - 1
      && if buckets >= 1024 && 5 * cItems < buckets then cDeletedItems == 0 && Fitted(cBuckets, cItems)
         else cDeletedItems == deleted + 1 && cBuckets == buckets
    }

    /** HashDelete. */
    method Delete(key: K) returns (found: bool)
      requires Valid()
      modifies this, table
      ensures Valid() && Contents() == old(Contents()) - {key} && (table == old(table) || fresh(table))
      ensures found <==> key in old(Contents())
      ensures found && table == old(table) ==> MarkedAt(table[..], old(Cells(table[..])), old(place[key]), key)
      ensures table == old(table) <==> !found || old(cBuckets) < 1024 || 5 * cItems >= old(cBuckets)
      ensures posLastFind.None?
      ensures if found then DeletedWell(old(cItems), old(cDeletedItems), old(cBuckets))
              else table[..] == old(table[..]) && unchanged(`table, `place, `cItems, `cDeletedItems, `cBuckets)
    {
      hide GroupOk, Points, Sound, Counts, MapOf;
      var item := Find(key);
      found := item.Some?;
      if found { DeleteAt(item.value, key); }
    }

    /** HashDeleteLast: the item the last HashFind returned, if nothing has been inserted or deleted since. */
    method DeleteLast() returns (found: bool)
      requires Valid()
      modifies this, table
      ensures Valid() && (table == old(table) || fresh(table)) && found == old(posLastFind).Some?
      ensures posLastFind.None?
      ensures found ==> exists key ::
        && old(FoundLast(key)) && Contents() == old(Contents()) - {key}
        && (table == old(table) ==> MarkedAt(table[..], old(Cells(table[..])), old(place[key]), key))
      ensures found ==> DeletedWell(old(cItems), old(cDeletedItems), old(cBuckets))
      ensures !found ==> unchanged(this, old(table)) && Contents() == old(Contents())
    {
      hide GroupOk, Points, Sound, Counts, MapOf;
      found := posLastFind.Some?;
      if found {
        ghost var key :| FoundLast(key);
        DeleteAt(posLastFind.value, key);
      }
    }

    /** Delete, once the item is found: its bucket becomes a deleted marker. */
    method Mark(item: Ptr, ghost key: K)
      requires Valid() && key in place && Points(table[..], item, place[key])
      modifies this`place, this`cItems, this`cDeletedItems, this`posLastFind, table
      ensures AllOk(table[..]) && cBuckets == 64 * table.Length && Sound(hash, Cells(table[..]), place)
      ensures cItems == |place| == old(cItems) - 1 && cDeletedItems == old(cDeletedItems) + 1 && posLastFind.None?
      ensures cItems + cDeletedItems == |Filled(Cells(table[..]))|
      ensures MapOf(Cells(table[..]), place) == old(Contents()) - {key}
      ensures MarkedAt(table[..], old(Cells(table[..])), old(place[key]), key)
    {
      hide GroupOk, Points, Filled, Indexed, AllReachable, MapOf, IsPow2, Cells;
      ghost var cells := Cells(table[..]);
      Removed(hash, cells, place, cItems, cDeletedItems, key);
      PointsTo(table[..], item, place[key]);
      Store(table, item, table[item.group].binSparse[item.offset].(data := DELETED), place[key]);
      place := place - {key};
      cItems, cDeletedItems, posLastFind := cItems - 1, cDeletedItems + 1, None;
    }

    /** ... and a table that has become too large for its items is rebuilt. */
    method Shrink()
      requires AllOk(table[..]) && cBuckets == 64 * table.Length && Sound(hash, Cells(table[..]), place)
      requires cItems == |place| && cItems + cDeletedItems == |Filled(Cells(table[..]))| && posLastFind.None?
      requires 2 * (cItems + cDeletedItems) < cBuckets && (cBuckets >= 1024 ==> 5 * (cItems + 1) >= cBuckets)
      modifies this`table, this`cBuckets, this`cDeletedItems, this`place
      ensures Valid() && Contents() == old(MapOf(Cells(table[..]), place)) && (table == old(table) || fresh(table))
      ensures if old(cBuckets) >= 1024 && 5 * cItems < old(cBuckets) then
                cDeletedItems == 0 && Fitted(cBuckets, cItems) && fresh(table)
              else unchanged(this)
    {
      hide GroupOk, Filled, Fitted, IsPow2, Indexed, AllReachable, MapOf, Live, Cells;
      LoadTests(cItems, 0, cBuckets);
      ShrinkTest(cItems, cBuckets, cBuckets as real * OCCUPANCY_PCT * 0.4);
      if cItems as real < cBuckets as real * OCCUPANCY_PCT * 0.4 && cBuckets / 2 >= MIN_HASH_SIZE {
        var cNew := NextPow2((cItems as real / OCCUPANCY_PCT).Floor);
        NextFits(2 * cItems, cNew);
        var _ := Rehash(cNew, None, None);
        FittedAfter(cNew, cBuckets, cItems);
      }
    }

    /** Delete of an item that was found. */
    method DeleteAt(item: Ptr, ghost key: K)
      requires Valid() && key in place && Points(table[..], item, place[key])
      modifies this, table
      ensures Valid() && Contents() == old(Contents()) - {key} && (table == old(table) || fresh(table))
      ensures posLastFind.None? && DeletedWell(old(cItems), old(cDeletedItems), old(cBuckets))
      ensures table == old(table) <==> old(cBuckets) < 1024 || 5 * cItems >= old(cBuckets)
      ensures table == old(table) ==> MarkedAt(table[..], old(Cells(table[..])), old(place[key]), key)
    {
      hide GroupOk, Points, Filled, Indexed, AllReachable, MapOf, Fitted, IsPow2, Live, Cells, MarkedAt;
      Mark(item, key);
      Shrink();
    }
  }

  /** posLastFind points to the item of one key only. */
  lemma FoundOne<K(!new)>(t: HashTable<K>, k: K, k': K)
    requires t.Valid() && t.FoundLast(k) && t.FoundLast(k')
    ensures k == k'
  {
    hide Points, GroupOk, AllReachable, Filled;
    var p := t.posLastFind.value;
    PointsUnique(t.table[..], p, t.place[k], p, t.place[k']);
  }

  lemma KeyIsLive<K(!new)>(cells: seq<Option<Item<K>>>, place: map<K, nat>, key: K)
    requires Indexed(cells, place) && key in place
    ensures place[key] < |cells| && Live(cells[place[key]]) && cells[place[key]].value.key == key
  {
  }

  lemma TombstonedWhen<K>(hash: K -> nat, cells: seq<Option<Item<K>>>, key: K, l: nat, d: nat)
    requires |cells| > 0 && FirstOpen(hash, cells, key, l, d)
    ensures l < |cells| && !Live(cells[l]) && (Tombstoned(hash, cells, key) <==> cells[l].Some?)
  {
    hide Path;
    OpenReached(hash, cells, key, l, d);
    if Tombstoned(hash, cells, key) {
      var l': nat, d': nat :| l' < |cells| && cells[l'].Some? && FirstOpen(hash, cells, key, l', d');
      FirstOpenUnique(hash, cells, key, l, d, l', d');
    }
  }

  lemma Removed<K(!new)>(hash: K -> nat, cells: seq<Option<Item<K>>>, place: map<K, nat>, cItems: nat,
                  cDeletedItems: nat, key: K)
    requires Sound(hash, cells, place) && Counts(cells, place, cItems, cDeletedItems) && key in place
    ensures cItems > 0 && place[key] < |cells| && Live(cells[place[key]]) && cells[place[key]].value.key == key
    ensures var cells', place' := cells[place[key] := Some(Item(DELETED, key))], place - {key};
      && Sound(hash, cells', place') && MapOf(cells', place') == MapOf(cells, place) - {key}
      && |place'| == cItems - 1 && |Filled(cells')| == |Filled(cells)|
  {
    hide AllReachable, MapOf, Filled;
    DeleteItem(hash, cells, place, key);
    FilledUpdated(cells, place[key], Item(DELETED, key));
  }

  lemma FittedAfter(asked: nat, buckets: nat, items: nat)
    requires 2 * items < asked <= 4 * items && buckets == (if asked < 64 then 64 else asked) && IsPow2(buckets)
    ensures Fitted(buckets, items)
  {
  }

  lemma NextFits(x: nat, r: nat)
    requires IsPow2(r) && 0 < x < 0x4000_0000 && x < r <= 2 * x
    ensures r <= MAX_BUCKETS
  {
    HashArith.Powers();
    Pow2Double(30);
    var k: nat :| r == Pow2(k);
    if k > 30 { Pow2Mono(31, k); } else { Pow2Mono(k, 30); }
  }

  lemma FewerItems<K(!new)>(cells: seq<Option<Item<K>>>, place: map<K, nat>, cItems: nat, cDeletedItems: nat)
    requires Counts(cells, place, cItems, cDeletedItems)
    ensures |Filled(cells)| < |cells|
  {
  }

  /** New data for a key that is there keeps every count. */
  lemma Overwritten<K(!new)>(hash: K -> nat, cells: seq<Option<Item<K>>>, place: map<K, nat>, key: K, data: nat)
    requires Sound(hash, cells, place) && key in place && data != DELETED
    ensures place[key] < |cells| && Live(cells[place[key]]) && cells[place[key]].value.key == key
    ensures var cells' := cells[place[key] := Some(Item(data, key))];
      && Sound(hash, cells', place) && MapOf(cells', place) == MapOf(cells, place)[key := data]
      && |Filled(cells')| == |Filled(cells)|
  {
    hide AllReachable, MapOf, Filled;
    UpdateItem(hash, cells, place, key, data);
    FilledUpdated(cells, place[key], Item(data, key));
  }

  /** A new key in the first open bucket of its path. */
  lemma Added<K(!new)>(hash: K -> nat, cells: seq<Option<Item<K>>>, place: map<K, nat>, cItems: nat, cDeletedItems: nat,
                       key: K, data: nat, l: nat, d: nat)
    requires Sound(hash, cells, place) && Counts(cells, place, cItems, cDeletedItems) && key !in place
    requires data != DELETED
    requires FirstOpen(hash, cells, key, l, d)
    ensures l < |cells| && (cells[l].Some? ==> cDeletedItems > 0)
    ensures var cells', place' := cells[l := Some(Item(data, key))], place[key := l];
      && Sound(hash, cells', place') && MapOf(cells', place') == MapOf(cells, place)[key := data]
      && |place'| == cItems + 1 && |Filled(cells')| == |Filled(cells)| + if cells[l].Some? then 0 else 1
  {
    hide AllReachable, MapOf, Filled, Path;
    OpenReached(hash, cells, key, l, d);
    InsertItem(hash, cells, place, Item(data, key), l, d);
    FilledUpdated(cells, l, Item(data, key));
    if cells[l].Some? { DeletedCounted(cells, place, l); }
  }

  /** A deleted marker is one of the used buckets that hold no key. */
  lemma DeletedCounted<K(!new)>(cells: seq<Option<Item<K>>>, place: map<K, nat>, l: nat)
    requires Indexed(cells, place) && l < |cells| && cells[l].Some? && !Live(cells[l])
    ensures |place| < |Filled(cells)|
  {
    var used := Filled(cells) - {l};
    Probe.PlacesSize(place, used);
    assert Filled(cells) == used + {l};
  }

  lemma EmptyTable<K(!new)>(hash: K -> nat, cells: seq<Option<Item<K>>>)
    requires |cells| == MIN_HASH_SIZE && forall l :: 0 <= l < |cells| ==> cells[l] == None
    ensures Sound(hash, cells, map[]) && Counts(cells, map[], 0, 0) && MapOf(cells, map[]) == map[]
  {
    assert IsPow2(512) by {
      HashArith.Powers();
      Pow2Double(8);
      assert 512 == Pow2(9);
    }
    assert Filled(cells) == {};
  }
}
