/** What the buckets of a libchash table mean: triangular probe paths, deleted markers, and the index
  * from keys to buckets. */
module SparseModel {
  import opened NatBits
  import opened Options
  import Probe

  const DELETED: nat := 0xffff_ffff_ffff_fffe

  /** HTItem. */
  datatype Item<K> = Item(data: nat, key: K)

  predicate Live<K>(c: Option<Item<K>>) {
    c.Some? && c.value.data != DELETED
  }

  /** Hash() ends in c & (cBuckets - 1). */
  function Home<K>(hash: K -> nat, k: K, n: nat): (b: nat)
    requires n > 0
    ensures b < n
  {
    AndBelow(hash(k), n - 1);
    And(hash(k), n - 1)
  }

  lemma {:induction false} AndBelow(a: nat, b: nat)
    ensures And(a, b) <= b
  {
    if a != 0 && b != 0 { AndBelow(a / 2, b / 2); }
  }

  ghost function Path<K>(hash: K -> nat, k: K, d: nat, n: nat): (b: nat)
    requires n > 0
    ensures b < n
  {
    Probe.Tri(Home(hash, k, n), d, n)
  }

  /** iBucket = (iBucket + ++offset) & (cBuckets - 1). */
  lemma NextOnPath<K>(hash: K -> nat, k: K, d: nat, n: nat)
    requires IsPow2(n)
    ensures And(Path(hash, k, d, n) + (d + 1), n - 1) == Path(hash, k, d + 1, n)
  {
    var e: nat :| n == Pow2(e);
    AndMask(Path(hash, k, d, n) + (d + 1), e);
  }

  /** The d-th bucket of a path, in one formula. */
  lemma PathFormula<K>(hash: K -> nat, k: K, d: nat, n: nat)
    requires IsPow2(n)
    ensures Path(hash, k, d, n) == (hash(k) + d * (d + 1) / 2) % n
  {
    hide Probe.Tri;
    var e: nat :| n == Pow2(e);
    AndMask(hash(k), e);
    Probe.TriFormula(hash(k), d, n);
  }

  lemma PathCovers<K>(hash: K -> nat, k: K, n: nat, b: nat) returns (d: nat)
    requires IsPow2(n) && b < n
    ensures d < n && Path(hash, k, d, n) == b
  {
    var e: nat :| n == Pow2(e);
    d := Probe.TriCovers(Home(hash, k, n), e, b);
  }

  /** Bucket l is the d-th on k's path and no never-used bucket comes before it. */
  ghost predicate Reached<K>(hash: K -> nat, cells: seq<Option<Item<K>>>, k: K, l: nat, d: nat)
    requires |cells| > 0
  {
    d < |cells| && Path(hash, k, d, |cells|) == l && forall e: nat :: e < d ==> cells[Path(hash, k, e, |cells|)].Some?
  }

  /** `place` says exactly which live key is in which bucket. */
  ghost predicate Indexed<K(!new)>(cells: seq<Option<Item<K>>>, place: map<K, nat>) {
    && (forall k :: k in place ==> place[k] < |cells| && Live(cells[place[k]]) && cells[place[k]].value.key == k)
    && (forall l :: 0 <= l < |cells| && Live(cells[l]) ==>
          cells[l].value.key in place && place[cells[l].value.key] == l)
  }

  ghost predicate AllReachable<K(!new)>(hash: K -> nat, cells: seq<Option<Item<K>>>, place: map<K, nat>)
    requires |cells| > 0
  {
    forall k :: k in place ==> Reachable(hash, cells, k, place[k])
  }

  ghost predicate Reachable<K>(hash: K -> nat, cells: seq<Option<Item<K>>>, k: K, l: nat)
    requires |cells| > 0
  {
    exists d :: Reached(hash, cells, k, l, d)
  }

  /** The finite map a table stands for. */
  ghost function MapOf<K(!new)>(cells: seq<Option<Item<K>>>, place: map<K, nat>): (m: map<K, nat>)
    requires Indexed(cells, place)
    ensures m.Keys == place.Keys
  {
    map k | k in place :: cells[place[k]].value.data
  }

  ghost function Filled<K>(cells: seq<Option<Item<K>>>): set<int> {
    set l | 0 <= l < |cells| && cells[l].Some?
  }

  /** A table less than full has a never-used bucket, and every search can find it. */
  lemma SomeEmpty<K>(hash: K -> nat, cells: seq<Option<Item<K>>>, k: K) returns (d: nat)
    requires IsPow2(|cells|) && |Filled(cells)| < |cells|
    ensures d < |cells| && cells[Path(hash, k, d, |cells|)].None?
  {
    var open := Probe.Below(|cells|) - Filled(cells);
    assert Probe.Below(|cells|) == Filled(cells) + open;
    assert open != {};
    var l: nat :| l in open;
    d := PathCovers(hash, k, |cells|, l);
  }

  // ---------- searching ----------

  ghost predicate Passed<K>(hash: K -> nat, cells: seq<Option<Item<K>>>, k: K, d: nat)
    requires |cells| > 0
  {
    forall e: nat :: e < d ==>
      var c := cells[Path(hash, k, e, |cells|)];
      c.Some? && (Live(c) ==> c.value.key != k)
  }

  lemma PassOne<K>(hash: K -> nat, cells: seq<Option<Item<K>>>, k: K, d: nat)
    requires |cells| > 0 && Passed(hash, cells, k, d)
    requires var c := cells[Path(hash, k, d, |cells|)]; c.Some? && (Live(c) ==> c.value.key != k)
    ensures Passed(hash, cells, k, d + 1)
  {
    hide Path;
  }

  /** A search that comes to a never-used bucket has missed nothing. */
  lemma SearchComplete<K(!new)>(hash: K -> nat, cells: seq<Option<Item<K>>>, place: map<K, nat>, k: K, d: nat)
    requires |cells| > 0 && Indexed(cells, place) && AllReachable(hash, cells, place)
    requires Passed(hash, cells, k, d) && cells[Path(hash, k, d, |cells|)].None?
    ensures k !in place
  {
    hide Path;
  }

  // ---------- writes ----------

  lemma StillReachable<K(!new)>(hash: K -> nat, cells: seq<Option<Item<K>>>, k: K, i: nat, x: nat, item: Item<K>)
    requires x < |cells| && Reachable(hash, cells, k, i)
    ensures Reachable(hash, cells[x := Some(item)], k, i)
  {
    hide Path;
    var d :| Reached(hash, cells, k, i, d);
    assert Reached(hash, cells[x := Some(item)], k, i, d);
  }

  /** Filling a bucket cuts no key off. */
  lemma AllStillReachable<K(!new)>(hash: K -> nat, cells: seq<Option<Item<K>>>, place: map<K, nat>, x: nat,
                            item: Item<K>)
    requires x < |cells| && AllReachable(hash, cells, place)
    ensures AllReachable(hash, cells[x := Some(item)], place)
  {
    hide Reachable;
    forall k | k in place ensures Reachable(hash, cells[x := Some(item)], k, place[k]) {
      StillReachable(hash, cells, k, place[k], x, item);
    }
  }

  /** A new key in a bucket that is not live, the d-th on its path. */
  lemma InsertItem<K(!new)>(hash: K -> nat, cells: seq<Option<Item<K>>>, place: map<K, nat>, item: Item<K>, x: nat,
                     d: nat)
    requires Indexed(cells, place) && 0 < |cells| && AllReachable(hash, cells, place)
    requires item.key !in place && item.data != DELETED && x < |cells| && !Live(cells[x])
    requires Reached(hash, cells, item.key, x, d)
    ensures var cells', place' := cells[x := Some(item)], place[item.key := x];
      && Indexed(cells', place') && AllReachable(hash, cells', place')
      && |place'| == |place| + 1 && MapOf(cells', place') == MapOf(cells, place)[item.key := item.data]
  {
    hide Path, Indexed, MapOf;
    InsertIndexed(cells, place, item, x);
    InsertedMap(cells, place, item, x);
    AllStillReachable(hash, cells, place, x, item);
    var cells' := cells[x := Some(item)];
    assert Reached(hash, cells', item.key, x, d);
    assert Reachable(hash, cells', item.key, x);
  }

  lemma InsertIndexed<K(!new)>(cells: seq<Option<Item<K>>>, place: map<K, nat>, item: Item<K>, x: nat)
    requires Indexed(cells, place) && item.key !in place && item.data != DELETED && x < |cells| && !Live(cells[x])
    ensures var cells', place' := cells[x := Some(item)], place[item.key := x];
      Indexed(cells', place') && |place'| == |place| + 1
  {
    hide Live;
    var cells', place' := cells[x := Some(item)], place[item.key := x];
    assert place'.Keys == place.Keys + {item.key};
    LiveItem(item);
    forall k | k in place' ensures place'[k] < |cells'| && Live(cells'[place'[k]]) && cells'[place'[k]].value.key == k {
      if k != item.key { assert place[k] != x; }
    }
    forall l | 0 <= l < |cells| && Live(cells'[l])
      ensures cells'[l].value.key in place' && place'[cells'[l].value.key] == l
    {
      if l != x { assert Live(cells[l]); }
    }
  }

  lemma InsertedMap<K(!new)>(cells: seq<Option<Item<K>>>, place: map<K, nat>, item: Item<K>, x: nat)
    requires Indexed(cells, place) && item.key !in place && x < |cells| && !Live(cells[x])
    requires Indexed(cells[x := Some(item)], place[item.key := x])
    ensures MapOf(cells[x := Some(item)], place[item.key := x]) == MapOf(cells, place)[item.key := item.data]
  {
    hide MapOf, Live;
    MapsAgree(cells, place, cells[x := Some(item)], place[item.key := x], item.key);
  }

  lemma LiveItem<K>(item: Item<K>)
    ensures Live(Some(item)) <==> item.data != DELETED
    ensures forall c: Option<Item<K>> :: Live(c) ==> c.Some?
  {
  }

  /** Two tables that agree on every key but one. */
  lemma MapsAgree<K(!new)>(cells: seq<Option<Item<K>>>, place: map<K, nat>, cells': seq<Option<Item<K>>>, place': map<K,
                    nat>, key: K)
    requires Indexed(cells, place) && Indexed(cells', place')
    requires forall k :: k in place && k != key ==> k in place' && cells'[place'[k]] == cells[place[k]]
    requires place'.Keys - {key} <= place.Keys
    ensures key in place' ==> MapOf(cells', place') == MapOf(cells, place)[key := cells'[place'[key]].value.data]
    ensures key !in place' ==> MapOf(cells', place') == MapOf(cells, place) - {key}
  {
    var m, m' := MapOf(cells, place), MapOf(cells', place');
    forall k | k in place' && k != key ensures k in m && m'[k] == m[k] {
      assert k in place;
    }
    if key in place' {
      assert m' == m[key := cells'[place'[key]].value.data];
    } else {
      assert m' == m - {key};
    }
  }

  /** New data for a key that is there. */
  lemma UpdateItem<K(!new)>(hash: K -> nat, cells: seq<Option<Item<K>>>, place: map<K, nat>, key: K, data: nat)
    requires Indexed(cells, place) && 0 < |cells| && AllReachable(hash, cells, place) && key in place && data != DELETED
    ensures var cells' := cells[place[key] := Some(Item(data, key))];
      && Indexed(cells', place) && AllReachable(hash, cells', place)
      && MapOf(cells', place) == MapOf(cells, place)[key := data]
  {
    hide Path, Reachable, AllReachable;
    AllStillReachable(hash, cells, place, place[key], Item(data, key));
  }

  /** A live bucket marked deleted. */
  lemma DeleteItem<K(!new)>(hash: K -> nat, cells: seq<Option<Item<K>>>, place: map<K, nat>, key: K)
    requires Indexed(cells, place) && 0 < |cells| && AllReachable(hash, cells, place) && key in place
    ensures var cells', place' := cells[place[key] := Some(Item(DELETED, key))], place - {key};
      && Indexed(cells', place') && AllReachable(hash, cells', place')
      && |place'| == |place| - 1 && MapOf(cells', place') == MapOf(cells, place) - {key}
  {
    hide Path, Reachable, Indexed, MapOf;
    DeleteIndexed(cells, place, key);
    AllStillReachable(hash, cells, place, place[key], Item(DELETED, key));
  }

  lemma DeleteIndexed<K(!new)>(cells: seq<Option<Item<K>>>, place: map<K, nat>, key: K)
    requires Indexed(cells, place) && key in place
    ensures place[key] < |cells|
    ensures var cells', place' := cells[place[key] := Some(Item(DELETED, key))], place - {key};
      && Indexed(cells', place') && |place'| == |place| - 1 && MapOf(cells', place') == MapOf(cells, place) - {key}
  {
    hide MapOf;
    var cells', place' := cells[place[key] := Some(Item(DELETED, key))], place - {key};
    assert place.Keys == place'.Keys + {key};
    forall l | 0 <= l < |cells| && Live(cells'[l])
      ensures cells'[l].value.key in place' && place'[cells'[l].value.key] == l
    {
      assert Live(cells[l]);
    }
    MapsAgree(cells, place, cells', place', key);
  }

  lemma FilledUpdated<K>(cells: seq<Option<Item<K>>>, x: nat, item: Item<K>)
    requires x < |cells|
    ensures |Filled(cells[x := Some(item)])| == |Filled(cells)| + if cells[x].None? then 1 else 0
    ensures |Filled(cells)| <= |cells|
  {
    assert Filled(cells[x := Some(item)]) == Filled(cells) + {x};
    assert cells[x].Some? ==> Filled(cells) + {x} == Filled(cells);
    Probe.SubsetSize(Filled(cells), Probe.Below(|cells|));
  }
}
