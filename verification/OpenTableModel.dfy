/** What the arrays of an open-addressing table mean: probe paths, the key index they encode,
  * and the half-moved state of an in-place rehash. */
module OpenTableModel {
  import opened NatBits
  import opened HashArith
  import opened HashFlags
  import Probe

  /** The probing and load policies of khash.h (default and KHASH_LINEAR) and of alignhash_tpl.h
    * (default linear and AH_TIER_PROBING). */
  datatype Flavour = KHash | KHashLinear | AlignLinear | AlignTier
  {
    predicate IsKHash() {
      KHash? || KHashLinear?
    }

    function Step(h: nat, mask: nat): nat {
      match this
      case KHash => KhInc(h, mask)
      case AlignTier => TierStep(h)
      case _ => 1
    }

    function Bound(n: nat): nat {
      BoundsFit(n);
      if IsKHash() then KhBound(n) else if AlignLinear? then LinearBound(n) else TierBound(n)
    }
  }

  datatype Scheme<!K> = Scheme(flavour: Flavour, hash: K -> Word)

  /** Sizes a table of this flavour can have. */
  ghost predicate TableSize<K>(sc: Scheme<K>, n: nat) {
    IsPow2(n) && n <= Pow2(31) && (sc.flavour.IsKHash() ==> n >= 4)
  }

  function Start<K>(sc: Scheme<K>, k: K, n: nat): (b: nat)
    requires n > 0
    ensures b < n
  {
    AndAtMost(sc.hash(k), n - 1);
    And(sc.hash(k), n - 1)
  }

  function Path<K>(sc: Scheme<K>, k: K, d: nat, n: nat): (b: nat)
    requires n > 0
    ensures b < n
  {
    Probe.At(Start(sc, k, n), sc.flavour.Step(sc.hash(k), n - 1), d, n)
  }

  // ---------- probe paths ----------

  lemma StepIsOdd<K>(sc: Scheme<K>, k: K, n: nat)
    requires TableSize(sc, n)
    ensures sc.flavour.Step(sc.hash(k), n - 1) % 2 == 1
  {
    if sc.flavour.KHash? {
      var e: nat :| n == Pow2(e);
      assert e > 0;
      StepsAreOdd(sc.hash(k), n - 1);
    } else {
      StepsAreOdd(sc.hash(k), 1);
    }
  }

  /** One step of a search: i = (i + step) & mask, the sum wrapping at 32 bits. */
  lemma NextOnPath<K>(sc: Scheme<K>, k: K, d: nat, n: nat)
    requires TableSize(sc, n)
    ensures And((Path(sc, k, d, n) + sc.flavour.Step(sc.hash(k), n - 1)) % U32, n - 1) == Path(sc, k, d + 1, n)
  {
    hide Start, Probe.At;
    var e: nat :| n == Pow2(e);
    var s := Path(sc, k, d, n) + sc.flavour.Step(sc.hash(k), n - 1);
    Probe.AtNext(Start(sc, k, n), sc.flavour.Step(sc.hash(k), n - 1), d, n);
    SizeExponent(e);
    AndMask(s % U32, e);
    WrapThenMask(s, e);
  }

  /** The d-th bucket of a path, in one formula. */
  lemma PathFormula<K>(sc: Scheme<K>, k: K, d: nat, n: nat)
    requires TableSize(sc, n)
    ensures Path(sc, k, d, n) == (sc.hash(k) + d * sc.flavour.Step(sc.hash(k), n - 1)) % n
  {
    hide Probe.At;
    var e: nat :| n == Pow2(e);
    AndMask(sc.hash(k), e);
    Probe.AtFormula(sc.hash(k), sc.flavour.Step(sc.hash(k), n - 1), d, n);
  }

  lemma {:induction false} SizeExponent(e: nat)
    requires Pow2(e) <= Pow2(31)
    ensures e <= 31
  {
    if e > 31 { Pow2Mono(32, e); }
  }

  lemma WrapThenMask(s: nat, e: nat)
    requires e <= 31
    ensures (s % U32) % Pow2(e) == s % Pow2(e)
  {
    hide Pow2, Times;
    Powers();
    PowTimes(32 - e, e);
    var n, m := Pow2(e), Pow2(32 - e);
    DivModTimes(s, U32);
    DivModTimes(s % U32, n);
    TimesAssoc(s / U32, m, n);
    TimesDistribute(Times(s / U32, m), (s % U32) / n, n);
    ModTimes(s, n, Times(s / U32, m) + (s % U32) / n, (s % U32) % n);
  }

  /** Every bucket is on every key's path ... */
  lemma PathCovers<K>(sc: Scheme<K>, k: K, n: nat, b: nat) returns (d: nat)
    requires TableSize(sc, n) && b < n
    ensures d < n && Path(sc, k, d, n) == b
  {
    StepIsOdd(sc, k, n);
    var e: nat :| n == Pow2(e);
    d := Probe.AtCovers(Start(sc, k, n), sc.flavour.Step(sc.hash(k), n - 1), e, b);
  }

  /** ... and the path is back at its start after exactly one whole turn. */
  lemma PathTurns<K>(sc: Scheme<K>, k: K, d: nat, n: nat)
    requires TableSize(sc, n) && 0 < d <= n
    ensures Path(sc, k, d, n) == Start(sc, k, n) <==> d == n
  {
    hide Start;
    StepIsOdd(sc, k, n);
    var e: nat :| n == Pow2(e);
    Probe.AtFirstReturn(Start(sc, k, n), sc.flavour.Step(sc.hash(k), n - 1), d, e);
  }

  // ---------- the index ----------

  /** Key k lies in bucket i, d probes along its path, and no never-used bucket comes before. */
  ghost predicate Reached<K>(sc: Scheme<K>, slots: seq<Slot>, k: K, i: nat, d: nat)
    requires |slots| > 0
  {
    d < |slots| && Path(sc, k, d, |slots|) == i &&
    forall e: nat :: e < d ==> slots[Path(sc, k, e, |slots|)] != Empty
  }

  ghost predicate Reachable<K>(sc: Scheme<K>, slots: seq<Slot>, k: K, i: nat)
    requires |slots| > 0
  {
    exists d: nat :: Reached(sc, slots, k, i, d)
  }

  /** `place` is exactly the index from live keys to their buckets: no key is live twice. */
  ghost predicate Indexed<K(!new)>(keys: seq<K>, slots: seq<Slot>, place: map<K, nat>)
    requires |slots| <= |keys|
  {
    && (forall k :: k in place ==> place[k] < |slots| && slots[place[k]] == Live && keys[place[k]] == k)
    && (forall i :: 0 <= i < |slots| && slots[i] == Live ==> keys[i] in place && place[keys[i]] == i)
  }

  ghost predicate AllReachable<K(!new)>(sc: Scheme<K>, slots: seq<Slot>, place: map<K, nat>)
    requires |slots| > 0
  {
    forall k :: k in place ==> Reachable(sc, slots, k, place[k])
  }

  /** The finite map that an index and a value array stand for. */
  ghost function MapOf<K(!new), V>(vals: seq<V>, place: map<K, nat>): (m: map<K, V>)
    requires forall k :: k in place ==> place[k] < |vals|
    ensures m.Keys == place.Keys
  {
    map k | k in place :: vals[place[k]]
  }

  ghost function Used(slots: seq<Slot>): set<int> {
    set i | 0 <= i < |slots| && slots[i] != Empty
  }

  // ---------- searching ----------

  /** The first d buckets of the path do not end a search for k. */
  ghost predicate Passed<K>(sc: Scheme<K>, keys: seq<K>, slots: seq<Slot>, k: K, d: nat)
    requires 0 < |slots| <= |keys|
  {
    forall e: nat :: e < d ==>
      var b := Path(sc, k, e, |slots|);
      slots[b] != Empty && (slots[b] == Live ==> keys[b] != k)
  }

  lemma PassOne<K(!new)>(sc: Scheme<K>, keys: seq<K>, slots: seq<Slot>, k: K, d: nat)
    requires 0 < |slots| <= |keys| && Passed(sc, keys, slots, k, d)
    requires var b := Path(sc, k, d, |slots|); slots[b] != Empty && (slots[b] == Live ==> keys[b] != k)
    ensures Passed(sc, keys, slots, k, d + 1)
  {
    hide Path;
  }

  /** A search that meets a never-used bucket, or has gone all the way round, has missed nothing. */
  lemma SearchComplete<K(!new)>(sc: Scheme<K>, keys: seq<K>, slots: seq<Slot>, place: map<K, nat>, k: K, d: nat)
    requires 0 < |slots| <= |keys| && TableSize(sc, |slots|) && Indexed(keys, slots, place)
    requires AllReachable(sc, slots, place)
    requires Passed(sc, keys, slots, k, d) && (d >= |slots| || slots[Path(sc, k, d, |slots|)] == Empty)
    ensures k !in place
  {
  }

  /** A search that has gone all the way round without seeing a deleted bucket has seen only live ones. */
  lemma AllLive<K(!new)>(sc: Scheme<K>, slots: seq<Slot>, k: K)
    requires 0 < |slots| && TableSize(sc, |slots|)
    requires forall e: nat :: e < |slots| ==> slots[Path(sc, k, e, |slots|)] == Live
    ensures forall i :: 0 <= i < |slots| ==> slots[i] == Live
  {
    forall i | 0 <= i < |slots| ensures slots[i] == Live {
      var d := PathCovers(sc, k, |slots|, i);
    }
  }
}
