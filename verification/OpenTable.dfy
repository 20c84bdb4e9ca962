/** The open-addressing hash tables of khash.h and alignhash_tpl.h.  The two share their search,
  * insertion, deletion and in-place rehash; they differ in probe step, load bound and in how a
  * full table is resized. */
module OpenTable {
  import opened NatBits
  import opened HashArith
  import opened HashFlags
  import opened OpenTableModel
  import opened OpenTableSteps
  import Probe

  const MAX_BUCKETS: nat := 0x8000_0000

  /** The *ret of a put or set: what kind of bucket the key went into, or that it was already there. */
  datatype PutResult = Unset | Present | InEmpty | InDeleted

  /** i = (i + step) & mask. */
  method Advance<K(!new)>(sc: Scheme<K>, key: K, n: nat, i: nat, inc: nat, ghost d: nat)
    returns (i': nat, ghost d': nat)
    requires TableSize(sc, n) && d < n && i == Path(sc, key, d, n) && inc == sc.flavour.Step(sc.hash(key), n - 1)
    ensures d' == d + 1 && i' < n && i' == Path(sc, key, d', n) && (i' == Start(sc, key, n) <==> d' == n)
  {
    hide Path, Start;
    NextOnPath(sc, key, d, n);
    PathTurns(sc, key, d + 1, n);
    AndAtMost((i + inc) % U32, n - 1);
    i', d' := And((i + inc) % U32, n - 1), d + 1;
  }

  /** The first d buckets of a key's path are in use. */
  ghost predicate Crowded<K>(sc: Scheme<K>, slots: seq<Slot>, key: K, d: nat)
    requires |slots| > 0
  {
    forall e: nat :: e < d ==> slots[Path(sc, key, e, |slots|)] != Empty
  }

  lemma CrowdedNone<K>(sc: Scheme<K>, slots: seq<Slot>, key: K)
    requires |slots| > 0
    ensures Crowded(sc, slots, key, 0)
  {
  }

  lemma CrowdedMore<K>(sc: Scheme<K>, slots: seq<Slot>, key: K, d: nat)
    requires |slots| > 0 && Crowded(sc, slots, key, d) && slots[Path(sc, key, d, |slots|)] != Empty
    ensures Crowded(sc, slots, key, d + 1)
  {
    hide Path;
  }

  lemma CrowdedEnds<K>(sc: Scheme<K>, slots: seq<Slot>, key: K, d: nat)
    requires |slots| > 0 && Crowded(sc, slots, key, d) && d < |slots|
    ensures Reached(sc, slots, key, Path(sc, key, d, |slots|), d)
  {
    hide Path;
  }

  /** The first never-used bucket on a key's path in the flags of the table being built. */
  method FindEmpty<K(!new)>(sc: Scheme<K>, flags: array<Word>, n: nat, key: K) returns (i: nat, ghost d: nat)
    requires TableSize(sc, n) && n <= 16 * flags.Length
    requires exists b :: 0 <= b < n && SlotsOf(flags[..], n)[b] == Empty
    requires forall b :: 0 <= b < n ==> SlotsOf(flags[..], n)[b] != Both
    ensures i < n && SlotsOf(flags[..], n)[i] == Empty && Reached(sc, SlotsOf(flags[..], n), key, i, d)
  {
    hide Path, Start, SlotsOf, IsEmpty, TableSize, Crowded, Reached;
    ghost var slots := SlotsOf(flags[..], n);
    ghost var b: nat :| b < n && slots[b] == Empty;
    ghost var last := PathCovers(sc, key, n, b);
    var k := sc.hash(key);
    i := And(k, n - 1);
    d := 0;
    PathStarts(sc, key, n);
    var inc := sc.flavour.Step(k, n - 1);
    CrowdedNone(sc, slots, key);
    BucketRead(flags[..], n, i);
    while !IsEmpty(flags[..], i)
      invariant d <= last < n && i == Path(sc, key, d, n) && Crowded(sc, slots, key, d)
      invariant IsEmpty(flags[..], i) <==> slots[i] == Empty
      decreases last - d
    {
      assert d != last;
      CrowdedMore(sc, slots, key, d);
      i, d := Advance(sc, key, n, i, inc, d);
      BucketRead(flags[..], n, i);
    }
    CrowdedEnds(sc, slots, key, d);
  }

  lemma PathStarts<K(!new)>(sc: Scheme<K>, k: K, n: nat)
    requires n > 0
    ensures Path(sc, k, 0, n) == And(sc.hash(k), n - 1) == Start(sc, k, n) < n
  {
  }

  lemma PassNone<K(!new)>(sc: Scheme<K>, keys: seq<K>, slots: seq<Slot>, k: K)
    requires 0 < |slots| <= |keys|
    ensures Passed(sc, keys, slots, k, 0)
  {
  }

  /** The kick-out loop: puts the entry in hand where the new table wants it, and goes on with whatever
    * entry of the old table was in that bucket, until a bucket is free. */
  method Settle<K(!new), V(!new)>(sc: Scheme<K>, flags: array<Word>, nOld: nat, newFlags: array<Word>, n: nat,
                        keys: array<K>, vals: array<V>, key0: K, val0: V,
                        ghost spot0: map<K, Spot>, ghost contents: map<K, V>)
    returns (ghost spot: map<K, Spot>)
    requires flags != newFlags && flags as object != keys && flags as object != vals
    requires newFlags as object != keys && newFlags as object != vals && keys as object != vals
    requires TableSize(sc, n) && n <= 16 * newFlags.Length && nOld <= 16 * flags.Length
    requires nOld <= keys.Length && n <= keys.Length == vals.Length && |contents| < n
    requires Moving(sc, keys[..], vals[..], SlotsOf(flags[..], nOld), SlotsOf(newFlags[..], n), spot0, contents)
    requires Holds(spot0, key0) && key0 in contents && contents[key0] == val0
    modifies flags, newFlags, keys, vals
    ensures Moving(sc, keys[..], vals[..], SlotsOf(flags[..], nOld), SlotsOf(newFlags[..], n), spot, contents)
    ensures EmptyHanded(spot)
    ensures LiveIn(SlotsOf(flags[..], nOld)) <= LiveIn(SlotsOf(old(flags[..]), nOld))
  {
    hide Path, SlotAt, Field, IsEither, Moving, Reached, Holds, EmptyHanded;
    var key, val := key0, val0;
    spot := spot0;
    while true
      invariant Moving(sc, keys[..], vals[..], SlotsOf(flags[..], nOld), SlotsOf(newFlags[..], n), spot, contents)
      invariant Holds(spot, key) && key in contents && contents[key] == val
      invariant LiveIn(SlotsOf(flags[..], nOld)) <= LiveIn(SlotsOf(old(flags[..]), nOld))
      decreases LiveIn(SlotsOf(flags[..], nOld))
    {
      ghost var ks, vs, os, ns := keys[..], vals[..], SlotsOf(flags[..], nOld), SlotsOf(newFlags[..], n);
      RoomLeft(sc, ks, vs, os, ns, spot, contents);
      OnlyLiveOrEmpty(sc, ks, vs, os, ns, spot, contents);
      var i;
      ghost var d;
      i, d := FindEmpty(sc, newFlags, n, key);
      SetNotEmpty(newFlags, i, n);
      if i < nOld { TestsRead(flags[..], i); }
      if i < nOld && !IsEither(flags[..], i) {
        KickOut(sc, ks, vs, os, ns, spot, contents, key, val, i, d);
        spot := spot[key := New(i)][keys[i] := Hand];
        key, keys[i] := keys[i], key;
        val, vals[i] := vals[i], val;
        SetDel(flags, i, nOld);
      } else {
        PutDown(sc, ks, vs, os, ns, spot, contents, key, val, i, d);
        spot := spot[key := New(i)];
        keys[i] := key;
        vals[i] := val;
        break;
      }
      assert keys[..] == ks[i := keys[i]] && vals[..] == vs[i := vals[i]];
    }
  }

  lemma OnlyLiveOrEmpty<K(!new), V(!new)>(sc: Scheme<K>, keys: seq<K>, vals: seq<V>, os: seq<Slot>, ns: seq<Slot>,
                          spot: map<K, Spot>, contents: map<K, V>)
    requires Moving(sc, keys, vals, os, ns, spot, contents)
    ensures forall i :: 0 <= i < |ns| ==> ns[i] != Both
  {
  }

  /** realloc: a block of n cells that starts with what the old one held. */
  method Realloc<T(0)>(a: array<T>, n: nat) returns (b: array<T>)
    ensures fresh(b) && b.Length == n
    ensures forall i :: 0 <= i < n && i < a.Length ==> b[i] == a[i]
  {
    b := new T[n];
    forall i | 0 <= i < n && i < a.Length { b[i] := a[i]; }
  }

  lemma SamePrefix<K(!new)>(keys: seq<K>, keys': seq<K>, slots: seq<Slot>, place: map<K, nat>)
    requires |slots| <= |keys| && |slots| <= |keys'| && keys'[..|slots|] == keys[..|slots|]
    requires Indexed(keys, slots, place)
    ensures Indexed(keys', slots, place)
  {
    assert forall i :: 0 <= i < |slots| ==> keys'[i] == keys'[..|slots|][i] == keys[i];
  }

  /** The rebuilding loop of kh_resize and alignhash_resize. */
  method MoveAll<K(!new), V(!new)>(sc: Scheme<K>, flags: array<Word>, nOld: nat, newFlags: array<Word>, n: nat,
                         keys: array<K>, vals: array<V>, ghost spot0: map<K, Spot>, ghost contents: map<K, V>)
    returns (ghost spot: map<K, Spot>)
    requires flags != newFlags && flags as object != keys && flags as object != vals
    requires newFlags as object != keys && newFlags as object != vals && keys as object != vals
    requires TableSize(sc, n) && n <= 16 * newFlags.Length && nOld <= 16 * flags.Length
    requires nOld <= keys.Length && n <= keys.Length == vals.Length && |contents| < n
    requires Moving(sc, keys[..], vals[..], SlotsOf(flags[..], nOld), SlotsOf(newFlags[..], n), spot0, contents)
    requires EmptyHanded(spot0)
    modifies flags, newFlags, keys, vals
    ensures Moving(sc, keys[..], vals[..], SlotsOf(flags[..], nOld), SlotsOf(newFlags[..], n), spot, contents)
    ensures EmptyHanded(spot)
    ensures forall i :: 0 <= i < nOld ==> SlotsOf(flags[..], nOld)[i] != Live
  {
    hide SlotAt, Field, IsEither, Moving, Holds, EmptyHanded;
    spot := spot0;
    var j := 0;
    while j != nOld
      invariant j <= nOld
      invariant Moving(sc, keys[..], vals[..], SlotsOf(flags[..], nOld), SlotsOf(newFlags[..], n), spot, contents)
      invariant EmptyHanded(spot)
      invariant forall i :: 0 <= i < j ==> i !in LiveIn(SlotsOf(flags[..], nOld))
      decreases nOld - j
    {
      TestsRead(flags[..], j);
      if !IsEither(flags[..], j) {
        var key, val := keys[j], vals[j];
        TakeOut(sc, keys[..], vals[..], SlotsOf(flags[..], nOld), SlotsOf(newFlags[..], n), spot, contents, j);
        SetDel(flags, j, nOld);
        spot := spot[key := Hand];
        spot := Settle(sc, flags, nOld, newFlags, n, keys, vals, key, val, spot, contents);
      }
      j := j + 1;
    }
    assert forall i :: 0 <= i < nOld && SlotsOf(flags[..], nOld)[i] == Live ==> i in LiveIn(SlotsOf(flags[..], nOld));
  }

  /** The arrays of a table: an exact index, every key reachable, every bucket in one of three states. */
  ghost predicate Sound<K(!new)>(sc: Scheme<K>, keys: seq<K>, slots: seq<Slot>, place: map<K, nat>) {
    && |slots| == |keys| && Indexed(keys, slots, place)
    && (|slots| > 0 ==> TableSize(sc, |slots|) && AllReachable(sc, slots, place))
    && (forall i :: 0 <= i < |slots| ==> slots[i] != Both)
  }

  /** The probe loop of kh_get and alignhash_get: the key's bucket, or n. */
  method Search<K(==,!new)>(sc: Scheme<K>, flags: array<Word>, n: nat, keys: array<K>, key: K, ghost place: map<K, nat>)
    returns (x: nat)
    requires 0 < n == keys.Length && n <= 16 * flags.Length && Sound(sc, keys[..], SlotsOf(flags[..], n), place)
    ensures x == if key in place then place[key] else n
    ensures key in place ==> x < n && keys[x] == key
  {
    hide Path, Start, SlotsOf, IsEmpty, IsDel, IsEither, AllReachable, Passed;
    ghost var slots, ks := SlotsOf(flags[..], n), keys[..];
    var mask := n - 1;
    var k := sc.hash(key);
    var i := And(k, mask);
    PathStarts(sc, key, n);
    var inc := sc.flavour.Step(k, mask);
    var last := i;
    ghost var d := 0;
    PassNone(sc, ks, slots, key);
    BucketRead(flags[..], n, i);
    while !IsEmpty(flags[..], i) && (IsDel(flags[..], i) || keys[i] != key)
      invariant d < n && i == Path(sc, key, d, n)
      invariant Passed(sc, ks, slots, key, d)
      invariant IsEmpty(flags[..], i) <==> slots[i] == Empty
      invariant IsDel(flags[..], i) <==> slots[i] == Deleted
      decreases n - d
    {
      PassOne(sc, ks, slots, key, d);
      i, d := Advance(sc, key, n, i, inc, d);
      if i == last {
        SearchComplete(sc, ks, slots, place, key, d);
        return n;
      }
      BucketRead(flags[..], n, i);
    }
    BucketRead(flags[..], n, i);
    var missed := if sc.flavour.IsKHash() then IsEither(flags[..], i) else IsEmpty(flags[..], i);
    if missed {
      SearchComplete(sc, ks, slots, place, key, d);
      x := n;
    } else {
      x := i;
    }
  }

  /** `site` is the last deleted bucket among the first d of the path, if there is one. */
  ghost predicate LastDeleted<K>(sc: Scheme<K>, slots: seq<Slot>, key: K, site: nat, at: nat, d: nat)
    requires |slots| > 0
  {
    if site == |slots| then
      forall e: nat :: e < d ==> slots[Path(sc, key, e, |slots|)] != Deleted
    else
      && at < d && site == Path(sc, key, at, |slots|) && slots[site] == Deleted
      && forall e: nat :: at < e < d ==> slots[Path(sc, key, e, |slots|)] != Deleted
  }

  /** Where a key that is absent goes: the last deleted bucket passed by a complete search, else the
    * never-used bucket that ended it. */
  ghost predicate Destination<K>(sc: Scheme<K>, keys: seq<K>, slots: seq<Slot>, key: K, x: nat, d: nat, end: nat)
    requires 0 < |slots| <= |keys|
  {
    && end <= |slots| && Passed(sc, keys, slots, key, end)
    && (end < |slots| ==> slots[Path(sc, key, end, |slots|)] == Empty)
    && if LastDeleted(sc, slots, key, |slots|, 0, end) then
         if end < |slots| then d == end && x == Path(sc, key, end, |slots|) else x == Start(sc, key, |slots|)
       else LastDeleted(sc, slots, key, x, d, end) && x < |slots|
  }

  /** What a put does to the index: nothing when the key is there or every bucket is live, else the key
    * goes to its destination, and *ret says what that bucket was. */
  ghost predicate Placed<K(!new)>(sc: Scheme<K>, keys: seq<K>, slots: seq<Slot>, place: map<K, nat>,
                                  key: K, x: nat, ret: PutResult, place': map<K, nat>, d: nat, end: nat)
  {
    && x < |slots| <= |keys|
    && if key in place then
         ret == Present && x == place[key] && place' == place
       else
         && Destination(sc, keys, slots, key, x, d, end)
         && if |place| == |slots| then ret == Present && place' == place && slots[x] == Live
            else
              && place' == place[key := x]
              && ((ret == InEmpty && slots[x] == Empty) || (ret == InDeleted && slots[x] == Deleted))
  }

  /** Bucket x is where an absent key goes. */
  ghost predicate GoesTo<K>(sc: Scheme<K>, keys: seq<K>, slots: seq<Slot>, key: K, x: nat)
    requires 0 < |slots| <= |keys|
  {
    exists d: nat, end: nat :: Destination(sc, keys, slots, key, x, d, end)
  }

  /** *ret tells a bucket never used from one whose key was deleted. */
  ghost predicate Told(ret: PutResult, slots: seq<Slot>, x: nat) {
    && x < |slots| && (ret == InEmpty || ret == InDeleted)
    && (ret == InEmpty <==> slots[x] == Empty) && (ret == InDeleted <==> slots[x] == Deleted)
  }

  lemma NoneDeleted<K(!new)>(sc: Scheme<K>, slots: seq<Slot>, key: K)
    requires |slots| > 0
    ensures LastDeleted(sc, slots, key, |slots|, 0, 0)
  {
  }

  lemma PassSite<K(!new)>(sc: Scheme<K>, slots: seq<Slot>, key: K, site: nat, at: nat, d: nat)
    requires |slots| > 0 && LastDeleted(sc, slots, key, site, at, d)
    ensures var i := Path(sc, key, d, |slots|);
      LastDeleted(sc, slots, key, if slots[i] == Deleted then i else site, if slots[i] == Deleted then d else at, d + 1)
  {
    hide Path;
  }

  /** What the bucket chosen at the end of a put's search is. */
  lemma PlaceFound<K(!new)>(sc: Scheme<K>, keys: seq<K>, slots: seq<Slot>, place: map<K, nat>, key: K, i: nat,
                            site: nat, at: nat, d: nat, x: nat)
    requires 0 < |slots| && Sound(sc, keys, slots, place) && site <= |slots| && d <= |slots|
    requires Passed(sc, keys, slots, key, d) && LastDeleted(sc, slots, key, site, at, d)
    requires i == Path(sc, key, d, |slots|)
    requires d == |slots| || slots[i] == Empty || (slots[i] == Live && keys[i] == key)
    requires x == if site != |slots| && (d == |slots| || slots[i] == Empty) then site else i
    ensures x < |slots| && (key in place ==> x == place[key])
    ensures key !in place ==> Destination(sc, keys, slots, key, x, if site < |slots| then at else d, d)
  {
    hide Path, Start, AllReachable, Passed;
    if d == |slots| || slots[i] == Empty {
      SearchComplete(sc, keys, slots, place, key, d);
      if d == |slots| { PathTurns(sc, key, d, |slots|); }
    }
  }

  /** One pass of that loop: a bucket that does not end the search, remembered when it is a deleted one. */
  method PassBucket<K(!new)>(sc: Scheme<K>, flags: array<Word>, n: nat, keys: array<K>, key: K, i: nat, inc: nat,
                             site: nat, ghost at: nat, ghost d: nat)
    returns (i': nat, ghost d': nat, site': nat, ghost at': nat)
    requires TableSize(sc, n) && n == keys.Length && n <= 16 * flags.Length && d < n && i == Path(sc, key, d, n)
    requires inc == sc.flavour.Step(sc.hash(key), n - 1) && site <= n
    requires var slots := SlotsOf(flags[..], n);
      && slots[i] in {Live, Deleted} && (slots[i] == Live ==> keys[i] != key)
      && Passed(sc, keys[..], slots, key, d) && LastDeleted(sc, slots, key, site, at, d)
    ensures d' == d + 1 && i' < n && i' == Path(sc, key, d', n) && (i' == Start(sc, key, n) <==> d' == n)
    ensures site' <= n && Passed(sc, keys[..], SlotsOf(flags[..], n), key, d')
    ensures LastDeleted(sc, SlotsOf(flags[..], n), key, site', at', d')
  {
    hide Path, Start, SlotsOf, IsEmpty, IsDel, IsEither, Passed, LastDeleted, TableSize;
    ghost var slots := SlotsOf(flags[..], n);
    PassOne(sc, keys[..], slots, key, d);
    PassSite(sc, slots, key, site, at, d);
    BucketRead(flags[..], n, i);
    site', at' := site, at;
    if IsDel(flags[..], i) { site', at' := i, d; }
    i', d' := Advance(sc, key, n, i, inc, d);
  }

  /** The probe loop of kh_put and alignhash_set. */
  method FindPlace<K(==,!new)>(sc: Scheme<K>, flags: array<Word>, n: nat, keys: array<K>, key: K, ghost place: map<K,
                     nat>)
    returns (x: nat, ghost d: nat, ghost end: nat)
    requires 0 < n == keys.Length && n <= 16 * flags.Length && Sound(sc, keys[..], SlotsOf(flags[..], n), place)
    ensures x < n && (key in place ==> x == place[key])
    ensures key !in place ==> Destination(sc, keys[..], SlotsOf(flags[..], n), key, x, d, end)
  {
    hide Path, Start, SlotsOf, IsEmpty, IsDel, IsEither, AllReachable, Passed, LastDeleted;
    ghost var slots, ks := SlotsOf(flags[..], n), keys[..];
    var mask := n - 1;
    var site: nat := n;
    x := site;
    var k := sc.hash(key);
    var i: nat := And(k, mask);
    PathStarts(sc, key, n);
    d := 0;
    ghost var at: nat := 0;
    PassNone(sc, ks, slots, key);
    NoneDeleted(sc, slots, key);
    BucketRead(flags[..], n, i);
    if IsEmpty(flags[..], i) {
      x := i;
    } else {
      var inc := sc.flavour.Step(k, mask);
      var last := i;
      while !IsEmpty(flags[..], i) && (IsDel(flags[..], i) || keys[i] != key)
        invariant d < n && i == Path(sc, key, d, n) && x == n && site <= n
        invariant Passed(sc, ks, slots, key, d) && LastDeleted(sc, slots, key, site, at, d)
        invariant IsEmpty(flags[..], i) <==> slots[i] == Empty
        invariant IsDel(flags[..], i) <==> slots[i] == Deleted
        decreases n - d
      {
        i, d, site, at := PassBucket(sc, flags, n, keys, key, i, inc, site, at, d);
        BucketRead(flags[..], n, i);
        if i == last {
          x := site;
          break;
        }
      }
      if x == n {
        x := if IsEmpty(flags[..], i) && site != n then site else i;
      }
    }
    PlaceFound(sc, ks, slots, place, key, i, site, at, d, x);
    d, end := if site < n then at else d, d;
  }

  lemma StoreAt<K(!new), V(!new)>(keys: seq<K>, vals: seq<V>, slots: seq<Slot>, place: map<K, nat>, x: nat, v: V)
    requires |slots| == |keys| == |vals| && Indexed(keys, slots, place) && x < |slots| && slots[x] == Live
    ensures MapOf(vals[x := v], place) == MapOf(vals, place)[keys[x] := v]
  {
  }

  lemma NothingIndexed<K(!new)>(sc: Scheme<K>, keys: seq<K>, was: seq<Slot>, place: map<K, nat>, slots: seq<Slot>)
    requires Sound(sc, keys, was, place) && |slots| == |was| && forall i :: 0 <= i < |slots| ==> slots[i] == Empty
    ensures Sound(sc, keys, slots, map[]) && Used(slots) == {}
  {
  }

  /** kh_##name##_t and alignhash_##name##_t. */
  class Table<K(==,!new,0), V(!new,0)> {
    const sc: Scheme<K>
    var nBuckets: nat
    var size: nat
    var nOccupied: nat
    var upperBound: nat
    var flags: array<Word>
    var keys: array<K>
    var vals: array<V>
    ghost var place: map<K, nat>

    ghost function Repr(): set<object>
      reads this
    {
      {this, flags, keys, vals}
    }

    ghost function Slots(): (s: seq<Slot>)
      reads this, flags
      ensures nBuckets <= 16 * flags.Length ==> |s| == nBuckets
    {
      if nBuckets <= 16 * flags.Length then SlotsOf(flags[..], nBuckets) else []
    }

    ghost predicate Valid()
      reads this, flags, keys, vals
    {
      && flags as object != keys && flags as object != vals && keys as object != vals
      && nBuckets <= 16 * flags.Length && keys.Length == vals.Length == nBuckets
      && size == |place| && upperBound == (if nBuckets == 0 then 0 else sc.flavour.Bound(nBuckets))
      && nOccupied == |Used(Slots())| && Sound(sc, keys[..], Slots(), place)
      && (nOccupied <= upperBound || (sc.flavour.IsKHash() && nBuckets == MAX_BUCKETS))
    }

    /** The finite map the table stands for. */
    ghost function Contents(): map<K, V>
      reads this, flags, keys, vals
      requires Valid()
    {
      MapOf(vals[..], place)
    }

    /** kh_init, alignhash_init: everything zero. */
    constructor (sc: Scheme<K>)
      ensures Valid() && Contents() == map[] && this.sc == sc && nBuckets == 0 && fresh(Repr())
    {
      this.sc := sc;
      nBuckets, size, nOccupied, upperBound := 0, 0, 0, 0;
      flags := new Word[0];
      keys := new K[0];
      vals := new V[0];
      place := map[];
      new;
      assert Used(Slots()) == {};
    }

    /** kh_clear: every flag word becomes 0xaaaaaaaa. */
    method Clear()
      requires Valid()
      modifies this, flags
      ensures Valid() && Contents() == map[] && flags == old(flags) && keys == old(keys) && vals == old(vals)
      ensures nBuckets == old(nBuckets)
      ensures size == 0 && nOccupied == 0
    {
      hide SlotAt, Field, Used, AllReachable, Indexed, TableSize, Reached;
      ghost var ks, was := keys[..], Slots();
      if nBuckets > 0 {
        forall w | 0 <= w < flags.Length { flags[w] := 0xaaaa_aaaa; }
        FilledIsEmpty(flags[..], nBuckets);
      }
      size, nOccupied, place := 0, 0, map[];
      NothingIndexed(sc, ks, was, old(place), Slots());
      assert keys[..] == ks;
    }

    /** kh_get, alignhash_get. */
    method Get(key: K) returns (x: nat)
      requires Valid()
      ensures x == if key in place then place[key] else nBuckets
      ensures key in place ==> x < nBuckets && keys[x] == key
    {
      hide Used, SlotAt, Field, LastDeleted, Path;
      if nBuckets > 0 {
        x := Search(sc, flags, nBuckets, keys, key, place);
      } else {
        x := 0;
      }
    }

    /** kh_del, alignhash_del. */
    method Del(x: nat)
      requires Valid() && x <= nBuckets
      modifies this, flags
      ensures Valid() && flags == old(flags) && keys == old(keys) && vals == old(vals) && nBuckets == old(nBuckets)
      ensures Contents() ==
        if x < nBuckets && old(Slots())[x] == Live then old(Contents()) - {keys[x]} else old(Contents())
      ensures if x < nBuckets && old(Slots())[x] == Live then
                Slots() == old(Slots())[x := Deleted] && nOccupied == old(nOccupied) && place == old(place) - {keys[x]}
              else unchanged(this, flags)
      ensures upperBound == old(upperBound)
    {
      hide SlotAt, Field, IsEither, Used, Sound, MapOf, Slots;
      SlotsAre(this);
      if x != nBuckets {
        TestsRead(flags[..], x);
        if !IsEither(flags[..], x) {
          SoundDelete(sc, keys[..], Slots(), place, x);
          DeletedContents(vals[..], place, keys[x]);
          place := place - {keys[x]};
          SetDel(flags, x, nBuckets);
          size := size - 1;
          SlotsAre(this);
        }
      }
    }

    /** kh_val(h, x) = v, alignhash_value(h, x) = v: the caller's store into a live bucket. */
    method SetValue(x: nat, v: V)
      requires Valid() && x < nBuckets && Slots()[x] == Live
      modifies vals
      ensures Valid() && Contents() == old(Contents())[keys[x] := v] && vals[..] == old(vals[..])[x := v]
    {
      hide SlotAt, Field, Used, Sound, Indexed;
      SoundIndex(sc, keys[..], Slots(), place);
      StoreAt(keys[..], vals[..], Slots(), place, x, v);
      vals[x] := v;
    }

    /** The fields take over the new arrays. */
    method Adopt(ks: array<K>, vs: array<V>, fs: array<Word>, n: nat, ghost pl: map<K, nat>)
      requires fs as object != ks && fs as object != vs && ks as object != vs
      requires 0 < n <= 16 * fs.Length && ks.Length == vs.Length == n
      requires Sound(sc, ks[..], SlotsOf(fs[..], n), pl) && size == |pl| == |Used(SlotsOf(fs[..], n))|
      requires size < sc.flavour.Bound(n)
      modifies this
      ensures flags == fs && keys == ks && vals == vs && nBuckets == n && size == old(size) == nOccupied
      ensures upperBound == sc.flavour.Bound(n)
      ensures Valid() && (forall k :: k in pl ==> pl[k] < |vs[..]|) && Contents() == MapOf(vs[..], pl)
    {
      hide Sound, SlotsOf, Used, MapOf, Slots;
      SoundIndex(sc, ks[..], SlotsOf(fs[..], n), pl);
      keys, vals, flags, place := ks, vs, fs, pl;
      nBuckets, nOccupied, upperBound := n, size, sc.flavour.Bound(n);
      SlotsAre(this);
    }

    /** The body of kh_resize and alignhash_resize once the new size has been accepted:
      * the table is rebuilt in place, sharing one key array between the old and the new flags. */
    method Rehash(n: nat)
      requires Valid() && TableSize(sc, n) && size < sc.flavour.Bound(n)
      modifies Repr()
      ensures Valid() && fresh(Repr() - old(Repr())) && Contents() == old(Contents())
      ensures nBuckets == n && size == old(size) == nOccupied && upperBound == sc.flavour.Bound(n)
    {
      hide Sound, SlotsOf, Used, MapOf, TableSize, Indexed, Slots;
      SlotsAre(this);
      SoundIndex(sc, keys[..], Slots(), place);
      PowerPositive(sc, n);
      BoundsFit(n);
      var ks, vs, fs;
      ghost var pl;
      ks, vs, fs, pl := RebuildArrays(sc, flags, nBuckets, keys, vals, n, place);
      Adopt(ks, vs, fs, n, pl);
    }

    /** The second half of kh_put and alignhash_set: the bucket is found and, unless the key is there, taken. */
    method Insert(key: K) returns (x: nat, ret: PutResult, ghost d: nat, ghost end: nat)
      requires Valid() && nBuckets > 0
      requires nOccupied < upperBound || (sc.flavour.IsKHash() && nBuckets == MAX_BUCKETS)
      modifies this, flags, keys
      ensures Valid() && flags == old(flags) && keys == old(keys) && vals == old(vals) && nBuckets == old(nBuckets)
      ensures Placed(sc, old(keys[..]), old(Slots()), old(place), key, x, ret, place, d, end)
      ensures ret == Present ==> unchanged(this, old(flags), old(keys))
      ensures ret != Present ==>
        x < nBuckets && Slots() == old(Slots())[x := Live] && keys[..] == old(keys[..])[x := key]
      ensures nOccupied == old(nOccupied) + if ret == InEmpty then 1 else 0
    {
      hide SlotAt, Field, IsEmpty, IsDel, Used, Sound, Placed, Destination, LastDeleted, Path, Indexed, TableSize;
      x, d, end := FindPlace(sc, flags, nBuckets, keys, key, place);
      ghost var ks, slots := keys[..], Slots();
      TestsRead(flags[..], x);
      InsertAt(sc, ks, slots, place, key, x, d, end);
      if IsEmpty(flags[..], x) {
        keys[x] := key;
        SetLive(flags, x, nBuckets);
        size, nOccupied := size + 1, nOccupied + 1;
        ret, place := InEmpty, place[key := x];
      } else if IsDel(flags[..], x) {
        keys[x] := key;
        SetLive(flags, x, nBuckets);
        size := size + 1;
        ret, place := InDeleted, place[key := x];
      } else {
        ret := Present;
      }
      assert keys[..] == ks[x := keys[x]];
    }

    /** *ret and the bucket of an absent key, in terms of the table it was put into. */
    ghost predicate TellsOf(ret: PutResult, x: nat, key: K, was: seq<K>, slots: seq<Slot>) {
      0 < |slots| <= |was| && Told(ret, slots, x) && GoesTo(sc, was, slots, key, x)
    }

    /** The same, seen as a change of the finite map. */
    method Put(key: K) returns (x: nat, ret: PutResult)
      requires Valid() && nBuckets > 0
      requires nOccupied < upperBound || (sc.flavour.IsKHash() && nBuckets == MAX_BUCKETS)
      modifies this, flags, keys
      ensures Valid() && flags == old(flags) && keys == old(keys) && vals == old(vals) && x < nBuckets
      ensures key in old(Contents()) ==> ret == Present && Contents() == old(Contents())
      ensures key !in old(Contents()) && old(size) < MAX_BUCKETS ==>
        && TellsOf(ret, x, key, old(keys[..]), old(Slots()))
        && Slots() == old(Slots())[x := Live] && keys[..] == old(keys[..])[x := key]
        && Contents() == old(Contents())[key := vals[x]]
      ensures key in old(Contents()) || old(size) < MAX_BUCKETS ==> key in place && place[key] == x
      ensures nOccupied == old(nOccupied) + if ret == InEmpty then 1 else 0
      ensures ret == InDeleted ==> old(size) < old(nOccupied)
      ensures ret == Present ==> unchanged(this, flags, keys)
      ensures key !in old(Contents()) && old(size) == MAX_BUCKETS ==> ret == Present && Contents() == old(Contents())
      ensures old(nOccupied) < old(upperBound) ==> old(size) < MAX_BUCKETS
      ensures old(size) <= MAX_BUCKETS && nBuckets == old(nBuckets) && upperBound == old(upperBound)
    {
      hide Sound, Used, Indexed, MapOf, KhBound, LinearBound, TierBound, SlotsOf, Slots, Placed;
      ghost var ks, slots, was := keys[..], Slots(), place;
      ghost var d, end;
      RoomLeftToPut(sc, ks, slots, was, upperBound);
      x, ret, d, end := Insert(key);
      PutEffect(sc, ks, slots, was, vals[..], key, x, ret, place, d, end);
    }

    /** kh_resize: any request is rounded to a power of two, and carried out unless it is too small. */
    method KhResize(want: nat)
      requires Valid() && sc.flavour.IsKHash() && want < U32
      modifies Repr()
      ensures Valid() && fresh(Repr() - old(Repr())) && Contents() == old(Contents()) && size == old(size)
      ensures old(size) < KhBound(KhSize(want)) ==>
        nBuckets == KhSize(want) && nOccupied == size && upperBound == KhBound(nBuckets)
      ensures old(size) >= KhBound(KhSize(want)) ==> unchanged(this, old(flags), old(keys), old(vals))
    {
      hide Sound, Used, RoundUp32, KhBound, Indexed, MapOf;
      var n := RoundUp32(want);
      if n < 4 { n := 4; }
      KhSizePower(want);
      Powers();
      if size < KhBound(n) {
        Rehash(n);
      }
    }

    /** alignhash_resize: a power of two, or the 0 that doubling 2^31 wraps to; false when too small. */
    method AhResize(n: nat) returns (done: bool)
      requires Valid() && !sc.flavour.IsKHash() && (n == 0 || TableSize(sc, n))
      modifies Repr()
      ensures Valid() && fresh(Repr() - old(Repr())) && Contents() == old(Contents()) && size == old(size)
      ensures done <==> n > 0 && old(size) < sc.flavour.Bound(n)
      ensures done ==> nBuckets == n && nOccupied == size && upperBound == sc.flavour.Bound(n)
      ensures !done ==> unchanged(this, old(flags), old(keys), old(vals))
    {
      hide Sound, Used, LinearBound, TierBound, Indexed, MapOf;
      SmallBounds();
      done := size < sc.flavour.Bound(n);
      if done {
        Rehash(n);
      }
    }

    /** kh_put rebuilds the table when the load bound is reached, unless 2^31 buckets hold too many keys for that. */
    ghost predicate KhRebuilds()
      reads this
    {
      nOccupied >= upperBound && (nBuckets < MAX_BUCKETS || (nBuckets == MAX_BUCKETS && size < 0x4000_0000))
    }

    /** The resize at the head of kh_put. */
    method KhGrow()
      requires Valid() && sc.flavour.IsKHash()
      modifies Repr()
      ensures Valid() && fresh(Repr() - old(Repr())) && Contents() == old(Contents()) && size == old(size)
      ensures nBuckets > 0 && (nOccupied < upperBound || nBuckets == MAX_BUCKETS)
      ensures if old(KhRebuilds()) then nOccupied == size && nBuckets == KhPutSize(old(nBuckets), size)
              else unchanged(this, old(flags), old(keys), old(vals))
    {
      hide Sound, Used, Indexed, MapOf, RoundUp32, KhBound, KhSize, Slots;
      if nOccupied >= upperBound {
        KhChoice(sc, keys[..], Slots(), place);
        if nBuckets > (size * 2) % U32 { KhResize(nBuckets - 1); } else { KhResize((nBuckets + 1) % U32); }
      }
    }

    /** kh_put. */
    method KhPut(key: K) returns (x: nat, ret: PutResult)
      requires Valid() && sc.flavour.IsKHash()
      modifies Repr()
      ensures Valid() && fresh(Repr() - old(Repr())) && x < nBuckets
      ensures key in old(Contents()) ==>
        ret == Present && Contents() == old(Contents()) && key in place && place[key] == x
      ensures key !in old(Contents()) && old(size) < MAX_BUCKETS ==>
        && (if old(KhRebuilds()) then ret == InEmpty else TellsOf(ret, x, key, old(keys[..]), old(Slots())))
        && Contents() == old(Contents())[key := vals[x]] && key in place && place[key] == x
      ensures key !in old(Contents()) && old(size) == MAX_BUCKETS ==>
        ret == Present && Contents() == old(Contents()) && key !in place
      ensures ret == InDeleted ==> old(size) < old(nOccupied)
      ensures nBuckets == if old(KhRebuilds()) then KhPutSize(old(nBuckets), old(size)) else old(nBuckets)
      ensures nOccupied == (if old(KhRebuilds()) then old(size) else old(nOccupied)) + if ret == InEmpty then 1 else 0
      ensures old(size) <= MAX_BUCKETS
      ensures (nBuckets < MAX_BUCKETS ==> exists b :: 0 <= b < nBuckets && Slots()[b] == Empty)
    {
      hide Sound, Used, Indexed, MapOf, KhBound, SlotsOf, Slots;
      ghost var was, slots := keys[..], Slots();
      KhGrow();
      assert !old(KhRebuilds()) ==> keys[..] == was && Slots() == slots;
      x, ret := Put(key);
      EmptyRemains(sc, keys[..], Slots(), place);
    }

    /** alignhash_set asks for twice the buckets and is refused: the doubled size wraps to 0, or would
      * still be full (one bucket, linear probing). */
    ghost predicate AhStuck()
      reads this
    {
      nOccupied >= upperBound && (nBuckets == MAX_BUCKETS || (sc.flavour.AlignLinear? && nBuckets == 1 && size == 1))
    }

    /** The resize at the head of alignhash_set. */
    method AhGrow() returns (ok: bool)
      requires Valid() && !sc.flavour.IsKHash()
      modifies Repr()
      ensures Valid() && fresh(Repr() - old(Repr())) && Contents() == old(Contents()) && size == old(size)
      ensures ok <==> !old(AhStuck())
      ensures ok ==> nBuckets > 0 && nOccupied < upperBound
      ensures ok ==>
        nBuckets == if old(nOccupied) < old(upperBound) then old(nBuckets)
                    else if old(nBuckets) == 0 then 2 else 2 * old(nBuckets)
      ensures ok ==>
        if old(nOccupied) < old(upperBound) then unchanged(this, old(flags), old(keys), old(vals))
        else nOccupied == size
      ensures !ok ==> unchanged(this, old(flags), old(keys), old(vals))
    {
      hide Sound, Used, Indexed, MapOf, LinearBound, TierBound, TableSize, Slots;
      ok := true;
      if nOccupied >= upperBound {
        SmallBounds();
        AhChoice(sc, keys[..], Slots(), place);
        if nBuckets > 0 { ok := AhResize((nBuckets * 2) % U32); } else { ok := AhResize(2); }
      }
    }

    /** alignhash_set. */
    method AhSet(key: K) returns (x: nat, ret: PutResult)
      requires Valid() && !sc.flavour.IsKHash()
      modifies Repr()
      ensures Valid() && fresh(Repr() - old(Repr()))
      ensures old(AhStuck()) ==> x == nBuckets && ret == Unset && unchanged(this, old(flags), old(keys), old(vals))
      ensures !old(AhStuck()) ==> x < nBuckets && key in place && place[key] == x
      ensures !old(AhStuck()) && key in old(Contents()) ==> ret == Present && Contents() == old(Contents())
      ensures !old(AhStuck()) && key !in old(Contents()) ==>
        && (if old(nOccupied) >= old(upperBound) then ret == InEmpty
            else TellsOf(ret, x, key, old(keys[..]), old(Slots())))
        && Contents() == old(Contents())[key := vals[x]]
      ensures ret == InDeleted ==> old(size) < old(nOccupied)
      ensures nBuckets ==
        if old(nOccupied) < old(upperBound) || old(AhStuck()) then old(nBuckets)
        else if old(nBuckets) == 0 then 2 else 2 * old(nBuckets)
    {
      hide Sound, Used, Indexed, MapOf, LinearBound, TierBound, SlotsOf, Slots, Placed, GoesTo;
      ghost var was, slots := keys[..], Slots();
      var ok := AhGrow();
      if !ok {
        return nBuckets, Unset;
      }
      assert old(nOccupied) < old(upperBound) ==> keys[..] == was && Slots() == slots;
      x, ret := Put(key);
    }
  }

  lemma SlotsAre<K(!new,0), V(!new,0)>(t: Table<K, V>)
    requires t.nBuckets <= 16 * t.flags.Length
    ensures t.Slots() == SlotsOf(t.flags[..], t.nBuckets)
  {
  }

  /** A tombstone keeps a table sound. */
  lemma SoundDelete<K(!new)>(sc: Scheme<K>, keys: seq<K>, slots: seq<Slot>, place: map<K, nat>, x: nat)
    requires Sound(sc, keys, slots, place) && x < |slots| == |keys| && slots[x] == Live
    ensures keys[x] in place && Sound(sc, keys, slots[x := Deleted], place - {keys[x]})
    ensures |place - {keys[x]}| == |place| - 1 && Used(slots[x := Deleted]) == Used(slots)
    ensures forall k :: k in place ==> place[k] < |slots|
  {
    hide AllReachable, Used;
    DeleteKey(sc, keys, slots, place, x);
  }

  lemma DeletedContents<K(!new), V(!new)>(vals: seq<V>, place: map<K, nat>, k: K)
    requires forall k :: k in place ==> place[k] < |vals|
    ensures MapOf(vals, place - {k}) == MapOf(vals, place) - {k}
  {
  }

  /** What a put does to the finite map. */
  lemma PutEffect<K(!new), V(!new)>(sc: Scheme<K>, keys: seq<K>, slots: seq<Slot>, place: map<K, nat>, vals: seq<V>,
                                    key: K, x: nat, ret: PutResult, place': map<K, nat>, d: nat, end: nat)
    requires Sound(sc, keys, slots, place) && |vals| == |keys|
    requires Placed(sc, keys, slots, place, key, x, ret, place', d, end)
    ensures x < |keys| && (forall k :: k in place ==> place[k] < |vals|)
    ensures (forall k :: k in place' ==> place'[k] < |vals|)
    ensures key in place ==> ret == Present && place' == place && place[key] == x
    ensures key !in place && |place| < |slots| ==>
      && Told(ret, slots, x) && GoesTo(sc, keys, slots, key, x) && key in place' && place'[key] == x
      && MapOf(vals, place') == MapOf(vals, place)[key := vals[x]]
    ensures key !in place && |place| == |slots| ==> ret == Present && place' == place
    ensures ret == InDeleted ==> |place| < |Used(slots)|
    ensures |place| <= |slots| && (|slots| > 0 ==> TableSize(sc, |slots|))
  {
    hide Destination, Used, Path, AllReachable;
    IndexSize(keys, slots, place);
    if ret == InDeleted { TombstoneCounted(keys, slots, place, x); }
  }

  /** A tombstone is one of the used buckets that hold no key. */
  lemma TombstoneCounted<K(!new)>(keys: seq<K>, slots: seq<Slot>, place: map<K, nat>, x: nat)
    requires |slots| <= |keys| && Indexed(keys, slots, place) && x < |slots| && slots[x] == Deleted
    ensures |place| < |Used(slots)|
  {
    var others := Used(slots) - {x};
    Probe.PlacesSize(place, others);
    assert Used(slots) == others + {x};
  }

  /** A khash table within its load bound has a never-used bucket. */
  lemma EmptyRemains<K(!new)>(sc: Scheme<K>, keys: seq<K>, slots: seq<Slot>, place: map<K, nat>)
    requires Sound(sc, keys, slots, place)
    ensures sc.flavour.IsKHash() && |slots| > 0 && |Used(slots)| <= KhBound(|slots|) ==>
      exists b :: 0 <= b < |slots| && slots[b] == Empty
  {
    hide Used, Path, AllReachable, KhBound;
    BoundsFit(|slots|);
    IndexSize(keys, slots, place);
  }

  lemma RoomLeftToPut<K(!new)>(sc: Scheme<K>, keys: seq<K>, slots: seq<Slot>, place: map<K, nat>, bound: nat)
    requires Sound(sc, keys, slots, place) && |slots| > 0 && bound == sc.flavour.Bound(|slots|)
    requires |Used(slots)| < bound || |slots| == MAX_BUCKETS
    ensures |place| <= |slots| <= MAX_BUCKETS && (|place| == |slots| ==> |place| == MAX_BUCKETS)
    ensures |Used(slots)| < bound ==> |place| < MAX_BUCKETS
  {
    hide Used, Path, AllReachable, KhBound, LinearBound, TierBound;
    Powers();
    BoundsFit(|slots|);
    IndexSize(keys, slots, place);
  }

  /** When doubling is refused. */
  lemma AhChoice<K(!new)>(sc: Scheme<K>, keys: seq<K>, slots: seq<Slot>, place: map<K, nat>)
    requires Sound(sc, keys, slots, place) && !sc.flavour.IsKHash()
    requires |Used(slots)| <= sc.flavour.Bound(|keys|)
    ensures |keys| <= MAX_BUCKETS
    ensures var m := if |keys| == 0 then 2 else |keys| * 2 % U32;
      && (m == 0 || (TableSize(sc, m) && (|keys| > 0 ==> m == 2 * |keys|)))
      && (m > 0 && |place| < sc.flavour.Bound(m) <==>
          !(|keys| == MAX_BUCKETS || (sc.flavour.AlignLinear? && |keys| == 1 && |place| == 1)))
  {
    hide Used, Path, AllReachable, Indexed;
    IndexSize(keys, slots, place);
    AhDoubled(sc, |keys|, |place|);
  }

  lemma AhDoubled<K>(sc: Scheme<K>, n: nat, size: nat)
    requires !sc.flavour.IsKHash() && (n == 0 || TableSize(sc, n)) && size <= sc.flavour.Bound(n)
    ensures n <= MAX_BUCKETS
    ensures var m := if n == 0 then 2 else n * 2 % U32;
      && (m == 0 || (TableSize(sc, m) && (n > 0 ==> m == 2 * n)))
      && (m > 0 && size < sc.flavour.Bound(m) <==>
            !(n == MAX_BUCKETS || (sc.flavour.AlignLinear? && n == 1 && size == 1)))
  {
    hide LinearBound, TierBound, Pow2;
    Powers();
    SmallBounds();
    BoundsFit(n);
    if n == 0 {
      assert IsPow2(2);
    } else {
      var k: nat :| n == Pow2(k);
      DoubledSize(k);
    }
  }

  lemma SmallBounds()
    ensures LinearBound(0) == TierBound(0) == 0 && LinearBound(1) == LinearBound(2) == 1 && TierBound(1) == 1
    ensures TierBound(2) == 2
  {
  }

  lemma DoubledSize(k: nat)
    requires Pow2(k) <= MAX_BUCKETS
    ensures Pow2(k) < MAX_BUCKETS ==> IsPow2(2 * Pow2(k)) && 2 * Pow2(k) <= MAX_BUCKETS
  {
    Powers();
    Pow2Double(k);
    if k >= 31 { Pow2Mono(31, k); } else { Pow2Mono(k + 1, 31); }
  }

  /** What kh_put asks kh_resize for is granted, except possibly at 2^31 buckets. */
  lemma KhChoice<K(!new)>(sc: Scheme<K>, keys: seq<K>, slots: seq<Slot>, place: map<K, nat>)
    requires Sound(sc, keys, slots, place) && sc.flavour.IsKHash()
    ensures |keys| <= MAX_BUCKETS && KhPutSize(|keys|, |place|) > 0
    ensures |keys| < MAX_BUCKETS || |place| < 0x4000_0000 <==> |place| < KhBound(KhPutSize(|keys|, |place|))
  {
    hide Used, Path, RoundUp32, KhBound;
    Powers();
    IndexSize(keys, slots, place);
    if |keys| > 0 { KhPutNeverRefused(|keys|, |place|); } else { KhPutFirst(); }
  }

  /** A table holds as many keys as it has buckets exactly when every bucket is live. */
  lemma FullIffAllLive<K(!new)>(keys: seq<K>, slots: seq<Slot>, place: map<K, nat>)
    requires |slots| <= |keys| && Indexed(keys, slots, place)
    ensures |place| == |slots| <==> forall i :: 0 <= i < |slots| ==> slots[i] == Live
    ensures |place| <= |Used(slots)| <= |slots|
  {
    hide Used;
    IndexSize(keys, slots, place);
    Probe.PlacesSize(place, LiveIn(slots));
    Probe.SubsetSize(LiveIn(slots), Probe.Below(|slots|));
    if |place| == |slots| {
      forall i | 0 <= i < |slots| ensures slots[i] == Live {
        assert i in Probe.Below(|slots|);
        assert i in LiveIn(slots);
      }
    }
  }

  /** Unless every bucket is live, the destination of an absent key is a bucket that is not, and on its path. */
  lemma DestinationReached<K(!new)>(sc: Scheme<K>, keys: seq<K>, slots: seq<Slot>, key: K, x: nat, d: nat, end: nat)
    requires 0 < |slots| <= |keys| && TableSize(sc, |slots|) && Destination(sc, keys, slots, key, x, d, end)
    requires forall i :: 0 <= i < |slots| ==> slots[i] != Both
    requires !forall i :: 0 <= i < |slots| ==> slots[i] == Live
    ensures x < |slots| && slots[x] != Live && Reached(sc, slots, key, x, d)
  {
    hide Path, Start;
    if end == |slots| && LastDeleted(sc, slots, key, |slots|, 0, end) {
      AllLive(sc, slots, key);
    }
  }

  /** What the write at the bucket found does to the index. */
  lemma InsertAt<K(!new)>(sc: Scheme<K>, keys: seq<K>, slots: seq<Slot>, place: map<K, nat>, key: K, x: nat, d: nat,
                   end: nat)
    requires |slots| > 0 && Sound(sc, keys, slots, place) && x < |slots|
    requires key in place ==> x == place[key]
    requires key !in place ==> Destination(sc, keys, slots, key, x, d, end)
    ensures slots[x] != Both && |place| <= |Used(slots)| <= |slots|
    ensures slots[x] == Live ==> Placed(sc, keys, slots, place, key, x, Present, place, d, end)
    ensures slots[x] == Empty ==> Placed(sc, keys, slots, place, key, x, InEmpty, place[key := x], d, end)
    ensures slots[x] == Deleted ==> Placed(sc, keys, slots, place, key, x, InDeleted, place[key := x], d, end)
    ensures slots[x] != Live ==>
      && Sound(sc, keys[x := key], slots[x := Live], place[key := x]) && |place[key := x]| == |place| + 1
      && |Used(slots[x := Live])| == |Used(slots)| + if slots[x] == Empty then 1 else 0
  {
    hide Path, Start, AllReachable, Destination, TableSize;
    FullIffAllLive(keys, slots, place);
    if key !in place && |place| < |slots| {
      DestinationReached(sc, keys, slots, key, x, d, end);
      InsertKey(sc, keys, slots, place, key, x, d);
      if slots[x] != Empty { assert Used(slots) + {x} == Used(slots); }
    }
  }

  lemma PowerPositive<K>(sc: Scheme<K>, n: nat)
    requires TableSize(sc, n)
    ensures n > 0
  {
  }

  lemma SoundIndex<K(!new)>(sc: Scheme<K>, keys: seq<K>, slots: seq<Slot>, place: map<K, nat>)
    requires Sound(sc, keys, slots, place)
    ensures |slots| == |keys| && Indexed(keys, slots, place) && forall k :: k in place ==> place[k] < |slots|
  {
  }

  /** Reallocating the key and value blocks keeps the entries of the live buckets. */
  method ReallocBoth<K(!new,0), V(!new,0)>(keys: array<K>, vals: array<V>, n: nat, ghost slots: seq<Slot>,
                       ghost place: map<K, nat>)
    returns (ks: array<K>, vs: array<V>)
    requires keys.Length == vals.Length && |slots| <= n && |slots| <= keys.Length && Indexed(keys[..], slots, place)
    ensures fresh(ks) && fresh(vs) && ks as object != vs && ks.Length == vs.Length == n
    ensures Indexed(ks[..], slots, place) && MapOf(vs[..], place) == MapOf(vals[..], place)
  {
    ks := Realloc(keys, n);
    vs := Realloc(vals, n);
    assert ks[..][..|slots|] == keys[..][..|slots|] && vs[..][..|slots|] == vals[..][..|slots|];
    SamePrefix(keys[..], ks[..], slots, place);
    SameValues(vals[..], vs[..], slots, place);
  }

  lemma SameValues<K(!new), V(!new)>(vals: seq<V>, vals': seq<V>, slots: seq<Slot>, place: map<K, nat>)
    requires |slots| <= |vals| && |slots| <= |vals'| && vals'[..|slots|] == vals[..|slots|]
    requires forall k :: k in place ==> place[k] < |slots|
    ensures MapOf(vals', place) == MapOf(vals, place)
  {
    assert forall i :: 0 <= i < |slots| ==> vals'[i] == vals'[..|slots|][i] == vals[i];
  }

  /** New flags for n buckets, and every entry moved to where they want it. */
  method Rebuild<K(!new), V(!new)>(sc: Scheme<K>, flags: array<Word>, nOld: nat, keys: array<K>, vals: array<V>, n: nat,
                   ghost place: map<K, nat>)
    returns (newFlags: array<Word>, ghost place': map<K, nat>)
    requires flags as object != keys && flags as object != vals && keys as object != vals
    requires TableSize(sc, n) && nOld <= 16 * flags.Length && |place| < n
    requires nOld <= keys.Length && n <= keys.Length == vals.Length
    requires Indexed(keys[..], SlotsOf(flags[..], nOld), place)
    modifies flags, keys, vals
    ensures fresh(newFlags) && n <= 16 * newFlags.Length
    ensures var ns := SlotsOf(newFlags[..], n);
      && Indexed(keys[..], ns, place') && AllReachable(sc, ns, place') && |Used(ns)| == |place'| == |place|
      && forall i :: 0 <= i < n ==> ns[i] != Both
    ensures MapOf(vals[..], place') == old(MapOf(vals[..], place))
  {
    hide SlotAt, Field, Moving, EmptyHanded, AllReachable, Used, MapOf, Path;
    newFlags := NewFlags(n);
    ghost var os := SlotsOf(flags[..], nOld);
    ghost var spot, contents := Departing(sc, keys[..], vals[..], os, SlotsOf(newFlags[..], n), place);
    spot := MoveAll(sc, flags, nOld, newFlags, n, keys, vals, spot, contents);
    Arrived(sc, keys[..], vals[..], SlotsOf(flags[..], nOld), SlotsOf(newFlags[..], n), spot, contents);
    OnlyLiveOrEmpty(sc, keys[..], vals[..], SlotsOf(flags[..], nOld), SlotsOf(newFlags[..], n), spot, contents);
    place' := Places(spot);
  }

  /** Growing, rebuilding and shrinking the three arrays of a table. */
  method RebuildArrays<K(!new,0), V(!new,0)>(sc: Scheme<K>, flags: array<Word>, nOld: nat, keys: array<K>,
                         vals: array<V>, n: nat,
                               ghost place: map<K, nat>)
    returns (ks: array<K>, vs: array<V>, newFlags: array<Word>, ghost place': map<K, nat>)
    requires flags as object != keys && flags as object != vals && keys as object != vals
    requires TableSize(sc, n) && nOld <= 16 * flags.Length && |place| < n
    requires nOld == keys.Length == vals.Length && Indexed(keys[..], SlotsOf(flags[..], nOld), place)
    modifies flags, keys, vals
    ensures fresh(newFlags) && (ks == keys || fresh(ks)) && (vs == vals || fresh(vs)) && ks as object != vs
    ensures newFlags as object != ks && newFlags as object != vs
    ensures n <= 16 * newFlags.Length && ks.Length == vs.Length == n
    ensures Sound(sc, ks[..], SlotsOf(newFlags[..], n), place')
    ensures |Used(SlotsOf(newFlags[..], n))| == |place'| == |place|
    ensures MapOf(vs[..], place') == old(MapOf(vals[..], place))
  {
    hide SlotAt, Field, Indexed, AllReachable, Used, MapOf, TableSize;
    ks, vs := keys, vals;
    if nOld < n {
      ks, vs := ReallocBoth(keys, vals, n, SlotsOf(flags[..], nOld), place);
    }
    newFlags, place' := Rebuild(sc, flags, nOld, ks, vs, n, place);
    if nOld > n {
      ks, vs := ReallocBoth(ks, vs, n, SlotsOf(newFlags[..], n), place');
    }
  }
}
