/** What one write to an open-addressing table does to its index: insertion, deletion,
  * and the three moves of the in-place rehash. */
module OpenTableSteps {
  import opened NatBits
  import opened HashArith
  import opened HashFlags
  import opened OpenTableModel
  import Probe

  /** Filling a bucket keeps every key reachable. */
  lemma StillReachable<K(!new)>(sc: Scheme<K>, slots: seq<Slot>, k: K, i: nat, x: nat, s: Slot)
    requires x < |slots| && s != Empty && Reachable(sc, slots, k, i)
    ensures Reachable(sc, slots[x := s], k, i)
  {
    var d: nat :| Reached(sc, slots, k, i, d);
    assert Reached(sc, slots[x := s], k, i, d);
  }

  lemma InsertKey<K(!new)>(sc: Scheme<K>, keys: seq<K>, slots: seq<Slot>, place: map<K, nat>, k: K, x: nat, d: nat)
    requires 0 < |slots| <= |keys| && Indexed(keys, slots, place) && AllReachable(sc, slots, place)
    requires k !in place && x < |slots| && slots[x] != Live && Reached(sc, slots, k, x, d)
    ensures Indexed(keys[x := k], slots[x := Live], place[k := x]) && AllReachable(sc, slots[x := Live], place[k := x])
    ensures |place[k := x]| == |place| + 1
    ensures Used(slots[x := Live]) == Used(slots) + {x}
  {
    hide Path, Indexed;
    InsertIndexed(keys, slots, place, k, x);
    var slots', place' := slots[x := Live], place[k := x];
    assert Reached(sc, slots', k, x, d);
    forall k' | k' in place' ensures Reachable(sc, slots', k', place'[k']) {
      if k' != k { StillReachable(sc, slots, k', place[k'], x, Live); }
    }
  }

  lemma InsertIndexed<K(!new)>(keys: seq<K>, slots: seq<Slot>, place: map<K, nat>, k: K, x: nat)
    requires |slots| <= |keys| && Indexed(keys, slots, place) && k !in place && x < |slots| && slots[x] != Live
    ensures Indexed(keys[x := k], slots[x := Live], place[k := x])
    ensures |place[k := x]| == |place| + 1
  {
    var keys', slots', place' := keys[x := k], slots[x := Live], place[k := x];
    forall i | 0 <= i < |slots'| && slots'[i] == Live ensures keys'[i] in place' && place'[keys'[i]] == i {
      if i != x { assert slots[i] == Live && keys[i] in place && place[keys[i]] == i; }
    }
    forall k' | k' in place' ensures place'[k'] < |slots'| && slots'[place'[k']] == Live && keys'[place'[k']] == k' {
      if k' != k { assert place[k'] != x; }
    }
    OneMore(place, k, x);
  }

  lemma OneMore<K>(place: map<K, nat>, k: K, x: nat)
    requires k !in place
    ensures |place[k := x]| == |place| + 1
  {
    assert place[k := x].Keys == place.Keys + {k};
  }

  lemma DeleteKey<K(!new)>(sc: Scheme<K>, keys: seq<K>, slots: seq<Slot>, place: map<K, nat>, x: nat)
    requires 0 < |slots| <= |keys| && Indexed(keys, slots, place) && AllReachable(sc, slots, place)
    requires x < |slots| && slots[x] == Live
    ensures var place' := place - {keys[x]};
      && keys[x] in place
      && Indexed(keys, slots[x := Deleted], place') && AllReachable(sc, slots[x := Deleted], place')
      && |place'| == |place| - 1
    ensures Used(slots[x := Deleted]) == Used(slots)
  {
    hide Path;
    var slots', place' := slots[x := Deleted], place - {keys[x]};
    forall k' | k' in place' ensures Reachable(sc, slots', k', place'[k']) {
      StillReachable(sc, slots, k', place[k'], x, Deleted);
    }
    assert place.Keys == place'.Keys + {keys[x]};
  }

  lemma IndexSize<K(!new)>(keys: seq<K>, slots: seq<Slot>, place: map<K, nat>)
    requires |slots| <= |keys| && Indexed(keys, slots, place)
    ensures |place| <= |Used(slots)| <= |slots|
    ensures (forall i :: 0 <= i < |slots| ==> slots[i] in {Live, Empty}) ==> |place| == |Used(slots)|
    ensures (forall i :: 0 <= i < |slots| ==> slots[i] == Live) ==> |place| == |slots|
    ensures |Used(slots)| < |slots| ==> exists i :: 0 <= i < |slots| && slots[i] == Empty
  {
    if forall i :: 0 <= i < |slots| ==> slots[i] in {Live, Empty} {
      forall b | b in Used(slots) ensures exists k :: k in place && place[k] == b {
        assert place[keys[b]] == b;
      }
    }
    Probe.PlacesSize(place, Used(slots));
    Probe.SubsetSize(Used(slots), Probe.Below(|slots|));
    if forall i :: 0 <= i < |slots| ==> slots[i] == Live {
      assert Used(slots) == Probe.Below(|slots|);
    }
    if forall i :: 0 <= i < |slots| ==> slots[i] != Empty {
      assert Used(slots) == Probe.Below(|slots|);
    }
  }

  // ---------- the rehash in progress ----------

  /** Where an entry is while the table is being rebuilt inside its own arrays: still under the old
    * flags, already under the new ones, or in the two local variables. */
  datatype Spot = Old(i: nat) | New(i: nat) | Hand

  /** Every entry of `contents` is at exactly one spot, with its value. */
  ghost predicate Moving<K(!new), V(!new)>(sc: Scheme<K>, keys: seq<K>, vals: seq<V>, os: seq<Slot>, ns: seq<Slot>,
                           spot: map<K, Spot>, contents: map<K, V>)
  {
    && |keys| == |vals| && |os| <= |keys| && 0 < |ns| <= |keys|
    && spot.Keys == contents.Keys
    && (forall k :: k in spot && spot[k].Old? ==>
          var i := spot[k].i; i < |os| && os[i] == Live && keys[i] == k && vals[i] == contents[k])
    && (forall k :: k in spot && spot[k].New? ==>
          var i := spot[k].i;
          i < |ns| && ns[i] == Live && keys[i] == k && vals[i] == contents[k] && Reachable(sc, ns, k, i))
    && (forall i :: 0 <= i < |os| && os[i] == Live ==> keys[i] in spot && spot[keys[i]] == Old(i))
    && (forall i :: 0 <= i < |ns| && ns[i] == Live ==> keys[i] in spot && spot[keys[i]] == New(i))
    && (forall i :: 0 <= i < |ns| ==> ns[i] == Live || ns[i] == Empty)
  }

  ghost predicate EmptyHanded<K(!new)>(spot: map<K, Spot>) {
    forall k :: k in spot ==> !spot[k].Hand?
  }

  ghost predicate Holds<K(!new)>(spot: map<K, Spot>, key: K) {
    forall k :: k in spot ==> (spot[k].Hand? <==> k == key)
  }

  /** No bucket is ever live in both flag arrays. */
  lemma NeverBoth<K(!new), V(!new)>(sc: Scheme<K>, keys: seq<K>, vals: seq<V>, os: seq<Slot>, ns: seq<Slot>,
                    spot: map<K, Spot>, contents: map<K, V>, i: nat)
    requires Moving(sc, keys, vals, os, ns, spot, contents) && i < |os| && i < |ns|
    ensures os[i] != Live || ns[i] != Live
  {
  }

  ghost function LiveIn(slots: seq<Slot>): set<int> {
    set i | 0 <= i < |slots| && slots[i] == Live
  }

  /** The entry in bucket j of the old table is taken out. */
  lemma TakeOut<K(!new), V(!new)>(sc: Scheme<K>, keys: seq<K>, vals: seq<V>, os: seq<Slot>, ns: seq<Slot>,
                    spot: map<K, Spot>, contents: map<K, V>, j: nat)
    requires Moving(sc, keys, vals, os, ns, spot, contents) && EmptyHanded(spot) && j < |os| && os[j] == Live
    ensures var spot' := spot[keys[j] := Hand];
      && Moving(sc, keys, vals, os[j := Deleted], ns, spot', contents) && Holds(spot', keys[j])
      && keys[j] in contents && contents[keys[j]] == vals[j]
    ensures LiveIn(os[j := Deleted]) == LiveIn(os) - {j} && j in LiveIn(os)
  {
    hide Reachable, LiveIn;
    LiveWithout(os, j);
  }

  /** The entry in hand goes into a bucket the old table does not use. */
  lemma PutDown<K(!new), V(!new)>(sc: Scheme<K>, keys: seq<K>, vals: seq<V>, os: seq<Slot>, ns: seq<Slot>,
                    spot: map<K, Spot>, contents: map<K, V>, key: K, val: V, i: nat, d: nat)
    requires Moving(sc, keys, vals, os, ns, spot, contents) && Holds(spot, key)
    requires key in contents && contents[key] == val
    requires i < |ns| && ns[i] == Empty && (i < |os| ==> os[i] != Live) && Reached(sc, ns, key, i, d)
    ensures var spot' := spot[key := New(i)];
      Moving(sc, keys[i := key], vals[i := val], os, ns[i := Live], spot', contents) && EmptyHanded(spot')
  {
    hide Reached, Reachable;
    PlacedReachable(sc, ns, key, i, d);
    forall k | k in spot && spot[k].New? ensures Reachable(sc, ns[i := Live], k, spot[k].i) {
      StillReachable(sc, ns, k, spot[k].i, i, Live);
    }
  }

  lemma PlacedReachable<K(!new)>(sc: Scheme<K>, ns: seq<Slot>, key: K, i: nat, d: nat)
    requires i < |ns| && Reached(sc, ns, key, i, d)
    ensures Reachable(sc, ns[i := Live], key, i)
  {
    hide Path;
    assert Reached(sc, ns[i := Live], key, i, d);
  }

  /** The entry in hand goes into a bucket the old table still uses, and that bucket's entry is kicked out. */
  lemma KickOut<K(!new), V(!new)>(sc: Scheme<K>, keys: seq<K>, vals: seq<V>, os: seq<Slot>, ns: seq<Slot>,
                    spot: map<K, Spot>, contents: map<K, V>, key: K, val: V, i: nat, d: nat)
    requires Moving(sc, keys, vals, os, ns, spot, contents) && Holds(spot, key)
    requires key in contents && contents[key] == val
    requires i < |ns| && ns[i] == Empty && i < |os| && os[i] == Live && Reached(sc, ns, key, i, d)
    ensures var spot' := spot[key := New(i)][keys[i] := Hand];
      && Moving(sc, keys[i := key], vals[i := val], os[i := Deleted], ns[i := Live], spot', contents)
      && Holds(spot', keys[i]) && keys[i] in contents && contents[keys[i]] == vals[i]
    ensures LiveIn(os[i := Deleted]) == LiveIn(os) - {i} && i in LiveIn(os)
  {
    hide Reached, Reachable, LiveIn;
    PlacedReachable(sc, ns, key, i, d);
    forall k | k in spot && spot[k].New? ensures Reachable(sc, ns[i := Live], k, spot[k].i) {
      StillReachable(sc, ns, k, spot[k].i, i, Live);
    }
    LiveWithout(os, i);
  }

  lemma LiveWithout(slots: seq<Slot>, i: nat)
    requires i < |slots| && slots[i] == Live
    ensures LiveIn(slots[i := Deleted]) == LiveIn(slots) - {i} && i in LiveIn(slots)
  {
  }

  /** While an entry is in hand and the new table is larger than the number of entries, it has an empty bucket. */
  lemma RoomLeft<K(!new), V(!new)>(sc: Scheme<K>, keys: seq<K>, vals: seq<V>, os: seq<Slot>, ns: seq<Slot>,
                   spot: map<K, Spot>, contents: map<K, V>)
    requires Moving(sc, keys, vals, os, ns, spot, contents) && |contents| < |ns|
    ensures exists i :: 0 <= i < |ns| && ns[i] == Empty
  {
    if forall i :: 0 <= i < |ns| ==> ns[i] == Live {
      var ks := keys[..|ns|];
      assert Probe.Distinct(ks) by {
        forall i, j | 0 <= i < j < |ks| ensures ks[i] != ks[j] {
          assert spot[keys[i]] == New(i) && spot[keys[j]] == New(j);
        }
      }
      Probe.DistinctSize(ks);
      Probe.SubsetSize(Probe.Range(ks), contents.Keys);
    }
  }

  ghost function Places<K(!new)>(spot: map<K, Spot>): map<K, nat>
    requires forall k :: k in spot ==> spot[k].New?
  {
    map k | k in spot :: spot[k].i
  }

  /** When the old table has no live bucket left, the new one is complete. */
  lemma Arrived<K(!new), V(!new)>(sc: Scheme<K>, keys: seq<K>, vals: seq<V>, os: seq<Slot>, ns: seq<Slot>,
                  spot: map<K, Spot>, contents: map<K, V>)
    requires Moving(sc, keys, vals, os, ns, spot, contents) && EmptyHanded(spot)
    requires forall i :: 0 <= i < |os| ==> os[i] != Live
    ensures forall k :: k in spot ==> spot[k].New?
    ensures var place := Places(spot);
      && Indexed(keys, ns, place) && AllReachable(sc, ns, place)
      && MapOf(vals, place) == contents && |place| == |contents| == |Used(ns)|
  {
    hide Path, Reachable, Used;
    var place := Places(spot);
    IndexSize(keys, ns, place);
    assert place.Keys == contents.Keys;
    assert |place| == |place.Keys| == |contents.Keys| == |contents|;
  }

  /** A table about to be rebuilt: everything is still in the old one. */
  lemma Departing<K(!new), V(!new)>(sc: Scheme<K>, keys: seq<K>, vals: seq<V>, os: seq<Slot>, ns: seq<Slot>,
                    place: map<K, nat>)
    returns (spot: map<K, Spot>, contents: map<K, V>)
    requires |keys| == |vals| && |os| <= |keys| && 0 < |ns| <= |keys| && Indexed(keys, os, place)
    requires forall i :: 0 <= i < |ns| ==> ns[i] == Empty
    ensures Moving(sc, keys, vals, os, ns, spot, contents) && EmptyHanded(spot)
    ensures contents == MapOf(vals, place)
    ensures |contents| == |place|
  {
    spot := map k | k in place :: Old(place[k]);
    contents := MapOf(vals, place);
    assert contents.Keys == place.Keys == spot.Keys;
    assert |contents| == |contents.Keys| == |place.Keys|;
  }
}
