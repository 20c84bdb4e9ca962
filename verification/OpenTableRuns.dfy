/** Runs of kh_put, kh_del and alignhash_set: a deleted bucket used again, and where the two cannot do what is asked
  * of them. */
module OpenTableRuns {
  import opened NatBits
  import opened HashArith
  import opened HashFlags
  import opened OpenTableModel
  import opened OpenTableSteps
  import opened OpenTable

  lemma SizeIsCount<K(!new,0), V(!new,0)>(t: Table<K, V>)
    requires t.Valid()
    ensures t.size == |t.Contents()| && t.size <= t.nOccupied && t.Contents().Keys == t.place.Keys
    ensures t.vals.Length == t.nBuckets && t.flags as object != t.keys && t.flags as object != t.vals
    ensures t.nBuckets > 0 ==> t.upperBound == t.sc.flavour.Bound(t.nBuckets)
    ensures t.nBuckets <= MAX_BUCKETS
  {
    hide Used, AllReachable, Pow2;
    Powers();
    IndexSize(t.keys[..], t.Slots(), t.place);
    assert t.Contents().Keys == t.place.Keys;
    SameCount(t.Contents(), t.place);
  }

  lemma SameCount<K, A, B>(a: map<K, A>, b: map<K, B>)
    requires a.Keys == b.Keys
    ensures |a| == |b|
  {
    assert |a| == |a.Keys| && |b| == |b.Keys|;
  }

  /** The keys of m are the numbers below n. */
  ghost predicate KeysBelow<V>(m: map<Word, V>, n: nat) {
    forall k: Word :: k in m <==> k < n
  }

  lemma NextKey<V>(m: map<Word, V>, i: Word, v: V)
    requires KeysBelow(m, i)
    ensures i !in m && KeysBelow(m[i := v], i + 1) && |m[i := v]| == |m| + 1
  {
    assert m[i := v].Keys == m.Keys + {i};
  }

  lemma NoKeys<V>(m: map<Word, V>)
    requires m == map[]
    ensures KeysBelow(m, 0) && |m| == 0
  {
  }

  method PutNext(t: Table<Word, nat>, i: Word)
    requires t.Valid() && t.sc.flavour.IsKHash() && i < MAX_BUCKETS && t.size == i && KeysBelow(t.Contents(), i)
    modifies t.Repr()
    ensures t.Valid() && fresh(t.Repr() - old(t.Repr())) && t.size == i + 1 && KeysBelow(t.Contents(), i + 1)
  {
    hide Table.Valid, Table.Contents, Table.Slots, Table.Repr, KeysBelow;
    ghost var before := t.Contents();
    NextKey(before, i, 0);
    SizeIsCount(t);
    var x, _ := t.KhPut(i);
    SizeIsCount(t);
    NextKey(before, i, t.vals[x]);
  }

  /** The keys 0, 1, 2, ... put into a new table, whatever the hash function: it ends up with 2^31 live buckets. */
  method FillUp(sc: Scheme<Word>) returns (t: Table<Word, nat>)
    requires sc.flavour.IsKHash()
    ensures fresh(t) && fresh(t.Repr()) && t.Valid() && t.sc == sc
    ensures t.size == MAX_BUCKETS && KeysBelow(t.Contents(), MAX_BUCKETS)
  {
    hide Table.Valid, Table.Contents, Table.Slots, KeysBelow;
    t := new Table(sc);
    NoKeys(t.Contents());
    SizeIsCount(t);
    var i: nat := 0;
    while i < MAX_BUCKETS
      invariant i <= MAX_BUCKETS && t.Valid() && fresh(t) && fresh(t.Repr()) && t.sc == sc
      invariant t.size == i && KeysBelow(t.Contents(), i)
    {
      PutNext(t, i);
      i := i + 1;
    }
  }

  /** One more kh_put says that the key is there, and kh_get that it is not. */
  method PutIntoFull(sc: Scheme<Word>) returns (ret: PutResult, found: bool)
    requires sc.flavour.IsKHash()
    ensures ret == Present && !found
  {
    var t := FillUp(sc);
    var _, put := t.KhPut(MAX_BUCKETS);
    ret := put;
    var x := t.Get(MAX_BUCKETS);
    found := x < t.nBuckets;
  }

  /** One bucket, linear probing: alignhash_set of the key that is there leaves *ret unset. */
  method SetTwice(hash: Word -> Word, key: Word) returns (first: PutResult, second: PutResult, x: nat)
    ensures first == InEmpty && second == Unset && x == 1
  {
    hide Table.Valid, Table.Contents, Table.Slots, LinearBound, TierBound, GoesTo;
    var t := new Table<Word, nat>(Scheme(AlignLinear, hash));
    SmallBounds();
    assert IsPow2(1) by { assert 1 == Pow2(0); }
    Powers();
    var done := t.AhResize(1);
    SizeIsCount(t);
    x, first := t.AhSet(key);
    SizeIsCount(t);
    assert t.AhStuck();
    x, second := t.AhSet(key);
  }

  /** The bucket of a key that has just been deleted stops the search for a place for it: the key goes into a deleted
    * bucket, its own one or a later one. */
  lemma ReusesTombstone<K(!new)>(sc: Scheme<K>, keys: seq<K>, slots: seq<Slot>, key: K, l: nat, d: nat, x: nat)
    requires 0 < |slots| <= |keys| && l < |slots| && Reached(sc, slots, key, l, d)
    requires GoesTo(sc, keys, slots[l := Deleted], key, x) && x < |slots|
    ensures slots[l := Deleted][x] == Deleted
  {
    hide Path, Start;
    var slots' := slots[l := Deleted];
    var d': nat, end: nat :| Destination(sc, keys, slots', key, x, d', end);
    assert slots'[Path(sc, key, d, |slots|)] == Deleted;
    assert forall e: nat :: e <= d ==> slots'[Path(sc, key, e, |slots|)] != Empty;
    assert d < end;
  }

  lemma KeyThere<K(!new,0), V(!new,0)>(t: Table<K, V>, key: K)
    requires t.Valid() && key in t.place
    ensures var l := t.place[key];
      l < |t.Slots()| == t.nBuckets == t.keys.Length && t.Slots()[l] == Live && t.keys[l] == key
  {
    hide Used, AllReachable;
  }

  lemma KeyReached<K(!new,0), V(!new,0)>(t: Table<K, V>, key: K) returns (d: nat)
    requires t.Valid() && key in t.place
    ensures var l := t.place[key];
      && l < |t.Slots()| == t.nBuckets == |t.keys[..]| && t.Slots()[l] == Live && t.keys[l] == key
      && Reached(t.sc, t.Slots(), key, l, d)
  {
    hide Path, Used;
    assert Reachable(t.sc, t.Slots(), key, t.place[key]);
    d :| Reached(t.sc, t.Slots(), key, t.place[key], d);
  }

  /** kh_get and kh_del. */
  method DelKey<K(==,!new,0), V(!new,0)>(t: Table<K, V>, key: K)
    requires t.Valid() && key in t.place
    modifies t, t.flags
    ensures t.Valid() && t.flags == old(t.flags) && t.keys == old(t.keys) && t.vals == old(t.vals)
    ensures t.Contents() == old(t.Contents()) - {key} && t.size < |t.Slots()| == t.nBuckets == old(t.nBuckets)
    ensures old(t.place[key]) < |old(t.Slots())| == t.nBuckets
    ensures t.Slots() == old(t.Slots())[old(t.place[key]) := Deleted]
    ensures t.nOccupied == old(t.nOccupied) && t.upperBound == old(t.upperBound) && t.keys[..] == old(t.keys[..])
  {
    hide *;
    SizeIsCount(t);
    KeyThere(t, key);
    var x := t.Get(key);
    t.Del(x);
    SizeIsCount(t);
    SizeBelow(t, x);
  }

  lemma SizeBelow<K(!new,0), V(!new,0)>(t: Table<K, V>, x: nat)
    requires t.Valid() && x < |t.Slots()| && t.Slots()[x] == Deleted
    ensures t.size < |t.Slots()|
  {
    hide Used, AllReachable;
    TombstoneCounted(t.keys[..], t.Slots(), t.place, x);
    IndexSize(t.keys[..], t.Slots(), t.place);
  }

  /** kh_del and then kh_put of the same key, in a table below its load bound: *ret is 2. */
  method DelThenPut<K(==,!new,0), V(!new,0)>(t: Table<K, V>, key: K) returns (x: nat, ret: PutResult)
    requires t.Valid() && t.sc.flavour.IsKHash() && key in t.place && t.nOccupied < t.upperBound
    modifies t.Repr()
    ensures t.Valid() && fresh(t.Repr() - old(t.Repr())) && ret == InDeleted && t.nOccupied == old(t.nOccupied)
    ensures x < t.nBuckets == old(t.nBuckets) && t.Contents().Keys == old(t.Contents()).Keys
  {
    hide Table.Valid, Table.Contents, Table.Slots, GoesTo, Reached, KhPutSize;
    ghost var ks, slots, was := t.keys[..], t.Slots(), t.Contents();
    ghost var d := KeyReached(t, key);
    ghost var l := t.place[key];
    SizeIsCount(t);
    DelKey(t, key);
    SizeIsCount(t);
    assert key !in t.Contents() && !t.KhRebuilds() && t.size < MAX_BUCKETS;
    x, ret := t.KhPut(key);
    ReusesTombstone(t.sc, ks, slots, key, l, d, x);
  }

  /** From a new table, whatever the hash function: put, delete, put. */
  method PutDelPut<K(==,!new,0), V(!new,0)>(sc: Scheme<K>, key: K) returns (first: PutResult, second: PutResult)
    requires sc.flavour.IsKHash()
    ensures first == InEmpty && second == InDeleted
  {
    hide Table.Valid, Table.Contents, Table.Slots, KhBound, RoundUp32;
    var t := new Table<K, V>(sc);
    KhPutFirst();
    SizeIsCount(t);
    var x;
    x, first := t.KhPut(key);
    SizeIsCount(t);
    x, second := DelThenPut(t, key);
  }
}
