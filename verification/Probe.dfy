/** Open addressing on a table of 2^k buckets: which probe sequences reach every bucket. */
module Probe {
  import opened NatBits

  /** Linear or double hashing: bucket of the d-th probe. */
  function At(start: nat, step: nat, d: nat, n: nat): (b: nat)
    requires start < n
    ensures b < n
  {
    if d == 0 then start else (At(start, step, d - 1, n) + step) % n
  }

  lemma AtUnfold(start: nat, step: nat, d: nat, n: nat)
    requires start < n
    ensures At(start, step, d, n) == if d == 0 then start else (At(start, step, d - 1, n) + step) % n
  {
  }

  lemma AtNext(start: nat, step: nat, d: nat, n: nat)
    requires start < n
    ensures At(start, step, d + 1, n) == (At(start, step, d, n) + step) % n
  {
  }

  /** Triangular probing: the d-th probe is d buckets after the one before. */
  function Tri(start: nat, d: nat, n: nat): (b: nat)
    requires start < n
    ensures b < n
  {
    if d == 0 then start else (Tri(start, d - 1, n) + d) % n
  }

  lemma OneStep(prev: nat, inc: nat, q: int, n: nat, total: int)
    requires n > 0 && total == Times(q, n) + prev
    ensures total + inc == Times(q + (prev + inc) / n, n) + (prev + inc) % n
  {
    DivMod(prev + inc, n);
    Distribute(q, (prev + inc) / n, n);
  }

  /** A modulus taken at every step is a modulus taken once. */
  lemma {:induction false} AtClosedForm(start: nat, step: nat, d: nat, n: nat) returns (q: nat)
    requires start < n
    ensures start + Times(d, step) == Times(q, n) + At(start, step, d, n)
  {
    hide Times, At;
    AtUnfold(start, step, d, n);
    if d == 0 {
      q := 0;
      TimesDistribute(0, 0, step);
      TimesDistribute(0, 0, n);
    } else {
      q := AtClosedForm(start, step, d - 1, n);
      TimesDistribute(d, 1, step);
      TimesOne(step);
      OneStep(At(start, step, d - 1, n), step, q, n, start + Times(d - 1, step));
      q := q + (At(start, step, d - 1, n) + step) / n;
    }
  }

  /** The d-th bucket is d steps behind a start that may itself be taken modulo the size. */
  lemma AtFormula(h: nat, step: nat, d: nat, n: nat)
    requires n > 0
    ensures At(h % n, step, d, n) == (h + d * step) % n
  {
    hide Times, At;
    var q := AtClosedForm(h % n, step, d, n);
    DivModTimes(h, n);
    TimesDistribute(q, h / n, n);
    assert d * step == Times(d, step) by { TimesIs(d, step); }
    ModTimes(h + d * step, n, h / n + q, At(h % n, step, d, n));
  }

  lemma TimesIs(a: int, b: int)
    ensures Times(a, b) == a * b
  {
  }

  /** d(d+1)/2. */
  function Triangle(d: nat): nat {
    if d == 0 then 0 else Triangle(d - 1) + d
  }

  lemma {:induction false} TriangleTwice(d: nat)
    ensures 2 * Triangle(d) == d * (d + 1)
  {
    if d > 0 {
      TriangleTwice(d - 1);
      assert d * (d + 1) == (d - 1) * d + 2 * d;
    }
  }

  lemma TriNext(start: nat, d: nat, n: nat, q: int, total: int)
    requires start < n && d > 0 && total == Times(q, n) + Tri(start, d - 1, n)
    ensures total + d == Times(q + (Tri(start, d - 1, n) + d) / n, n) + Tri(start, d, n)
  {
    hide Times;
    OneStep(Tri(start, d - 1, n), d, q, n, total);
  }

  lemma {:induction false} TriClosedForm(start: nat, d: nat, n: nat) returns (q: int)
    requires start < n
    ensures start + Triangle(d) == Times(q, n) + Tri(start, d, n)
  {
    hide Times, Tri;
    if d == 0 {
      q := 0;
      TimesDistribute(0, 0, n);
      TriStart(start, n);
    } else {
      q := TriClosedForm(start, d - 1, n);
      TriNext(start, d, n, q, start + Triangle(d - 1));
      q := q + (Tri(start, d - 1, n) + d) / n;
    }
  }

  lemma TriStart(start: nat, n: nat)
    requires start < n
    ensures Tri(start, 0, n) == start
  {
  }

  /** The d-th bucket of the triangular path. */
  lemma TriFormula(h: nat, d: nat, n: nat)
    requires n > 0
    ensures Tri(h % n, d, n) == (h + d * (d + 1) / 2) % n
  {
    hide Times, Tri, Triangle;
    var q := TriClosedForm(h % n, d, n);
    TriangleTwice(d);
    DivModTimes(h, n);
    TimesDistribute(q, h / n, n);
    ModTimes(h + Triangle(d), n, h / n + q, Tri(h % n, d, n));
  }

  lemma HalfOf(x: int, c: int, p: int, q: int)
    requires c % 2 == 1 && x * c == 2 * (q * p)
    ensures x == 2 * (x / 2) && (x / 2) * c == q * p
  {
    var m := c / 2;
    assert c == 2 * m + 1;
    assert x * c == x * (2 * m + 1) == 2 * (x * m) + x;
    var y := q * p - x * m;
    assert x == 2 * y;
    assert (2 * y) * c == 2 * (y * c);
  }

  /** A power of two that divides x*c divides x when c is odd. */
  lemma {:induction false} OddFactor(x: int, c: int, k: nat, q: int) returns (r: int)
    requires c % 2 == 1 && Times(x, c) == Times(q, Pow2(k))
    ensures x == Times(r, Pow2(k))
    decreases k
  {
    if k == 0 {
      r := q - x * (c - 1);
      assert x * c == x * (c - 1) + x;
    } else {
      var p := Pow2(k - 1);
      assert q * (2 * p) == 2 * (q * p);
      HalfOf(x, c, p, q);
      r := OddFactor(x / 2, c, k - 1, q);
      assert 2 * (r * p) == r * (2 * p);
    }
  }

  lemma NoSmallMultiple(x: int, n: int, r: int)
    requires n > 0 && x == Times(r, n) && -n < x < n
    ensures x == 0
  {
    MulAtLeast(r, n);
  }

  /** Two probes of one sequence that meet are a multiple of the table size apart. */
  lemma AtMeets(start: nat, step: nat, d: nat, e: nat, k: nat) returns (r: int)
    requires start < Pow2(k) && step % 2 == 1 && At(start, step, d, Pow2(k)) == At(start, step, e, Pow2(k))
    ensures d - e == Times(r, Pow2(k))
  {
    hide At, Pow2, Times;
    var n := Pow2(k);
    var qd: int := AtClosedForm(start, step, d, n);
    var qe: int := AtClosedForm(start, step, e, n);
    TimesDistribute(d, e, step);
    TimesDistribute(qd, qe, n);
    r := OddFactor(d - e, step, k, qd - qe);
  }

  lemma AtInjective(start: nat, step: nat, d: nat, e: nat, k: nat)
    requires start < Pow2(k) && step % 2 == 1 && d < Pow2(k) && e < Pow2(k)
    requires At(start, step, d, Pow2(k)) == At(start, step, e, Pow2(k))
    ensures d == e
  {
    hide At, Pow2, Times;
    var r := AtMeets(start, step, d, e, k);
    NoSmallMultiple(d - e, Pow2(k), r);
  }

  /** An odd step is back at its start after exactly the multiples of 2^k probes. */
  lemma AtReturns(start: nat, step: nat, d: nat, k: nat)
    requires start < Pow2(k) && step % 2 == 1
    ensures At(start, step, d, Pow2(k)) == start <==> d % Pow2(k) == 0
  {
    hide At, Pow2, Times;
    var n := Pow2(k);
    AtStart(start, step, n);
    DivMod(d, n);
    if At(start, step, d, n) == start {
      var r := AtMeets(start, step, d, 0, k);
      IsMultiple(d, n, r);
    }
    if d % n == 0 {
      AtFullTurn(start, step, d / n, n);
    }
  }

  /** So the first return is after the whole table. */
  lemma AtFirstReturn(start: nat, step: nat, d: nat, k: nat)
    requires start < Pow2(k) && step % 2 == 1 && 0 < d <= Pow2(k)
    ensures At(start, step, d, Pow2(k)) == start <==> d == Pow2(k)
  {
    hide At, Pow2;
    AtReturns(start, step, d, k);
    if d < Pow2(k) { ModUnique(d, Pow2(k), 0, d); } else { ModUnique(d, d, 1, 0); }
  }

  lemma AtStart(start: nat, step: nat, n: nat)
    requires start < n
    ensures At(start, step, 0, n) == start
  {
  }

  lemma IsMultiple(d: nat, n: nat, r: int)
    requires n > 0 && d == Times(r, n)
    ensures d % n == 0
  {
    ModUnique(d, n, r, 0);
  }

  /** Whole turns come back to the start, whatever the step. */
  lemma AtFullTurn(start: nat, step: nat, turns: nat, n: nat)
    requires start < n
    ensures At(start, step, turns * n, n) == start
  {
    hide At;
    var q: int := AtClosedForm(start, step, turns * n, n);
    var back := At(start, step, turns * n, n);
    assert turns * n * step == turns * step * n;
    TimesDistribute(q, turns * step, n);
    NoSmallMultiple(start - back, n, q - turns * step);
  }

  lemma TriangleGap(d: nat, e: nat)
    ensures Times(d - e, d + e + 1) == 2 * (Triangle(d) - Triangle(e))
  {
    TriangleTwice(d);
    TriangleTwice(e);
    assert (d - e) * (d + e + 1) == d * (d + 1) - e * (e + 1);
  }

  lemma TwiceProduct(q: int, n: int)
    ensures 2 * Times(q, n) == Times(q, 2 * n)
  {
  }

  lemma TriMeets(start: nat, d: nat, e: nat, k: nat) returns (q: int)
    requires start < Pow2(k) && e <= d && Tri(start, d, Pow2(k)) == Tri(start, e, Pow2(k))
    ensures Times(d - e, d + e + 1) == Times(q, Pow2(k + 1))
  {
    hide Tri, Triangle, Pow2, Times;
    var n := Pow2(k);
    Pow2Double(k);
    var qd: int := TriClosedForm(start, d, n);
    var qe: int := TriClosedForm(start, e, n);
    q := qd - qe;
    TimesDistribute(qd, qe, n);
    TriangleGap(d, e);
    TwiceProduct(q, n);
  }

  /** Triangular probes do not meet within the first 2^k. */
  lemma TriInjective(start: nat, d: nat, e: nat, k: nat)
    requires start < Pow2(k) && e <= d < Pow2(k)
    requires Tri(start, d, Pow2(k)) == Tri(start, e, Pow2(k))
    ensures d == e
  {
    hide Tri, Pow2, Times;
    var q := TriMeets(start, d, e, k);
    Pow2Double(k);
    var u, v := d - e, d + e + 1;
    if v % 2 == 1 {
      var r := OddFactor(u, v, k + 1, q);
      NoSmallMultiple(u, Pow2(k + 1), r);
    } else {
      assert u % 2 == 1;
      TimesDistribute(u, 0, v);
      var r := OddFactor(v, u, k + 1, q);
      NoSmallMultiple(v, Pow2(k + 1), r);
    }
  }

  // ---------- pigeonhole ----------

  ghost function Below(n: nat): (s: set<int>)
    ensures (forall i :: i in s <==> 0 <= i < n) && |s| == n
  {
    if n == 0 then {} else Below(n - 1) + {n - 1}
  }

  ghost predicate Distinct<T>(s: seq<T>) {
    forall i, j :: 0 <= i < j < |s| ==> s[i] != s[j]
  }

  ghost function Range<T>(s: seq<T>): set<T> {
    set i | 0 <= i < |s| :: s[i]
  }

  lemma {:induction false} DistinctSize<T>(s: seq<T>)
    requires Distinct(s)
    ensures |Range(s)| == |s|
  {
    if s == [] {
      assert Range(s) == {};
    } else {
      var last := |s| - 1;
      DistinctSize(s[..last]);
      assert Range(s) == Range(s[..last]) + {s[last]};
    }
  }

  lemma SubsetSize<T>(a: set<T>, b: set<T>)
    requires a <= b
    ensures |a| <= |b| && (|a| == |b| ==> a == b)
  {
    assert b == a + (b - a);
    assert |b| == |a| + |b - a|;
  }

  /** Keys in different buckets are no more than the buckets, and as many when every bucket has one. */
  lemma {:induction false} PlacesSize<K(!new)>(place: map<K, nat>, used: set<int>)
    requires forall k :: k in place ==> place[k] in used
    requires forall k, k' :: k in place && k' in place && place[k] == place[k'] ==> k == k'
    ensures |place| <= |used|
    ensures (forall b :: b in used ==> exists k :: k in place && place[k] == b) ==> |place| == |used|
    decreases |place|
  {
    if |place| == 0 {
      if exists b :: b in used {
        var b :| b in used;
        assert place == map[];
      } else {
        assert used == {};
      }
    } else {
      var k :| k in place;
      var place', used' := place - {k}, used - {place[k]};
      assert place.Keys == place'.Keys + {k};
      assert used == used' + {place[k]};
      PlacesSize(place', used');
      if forall b :: b in used ==> exists k :: k in place && place[k] == b {
        forall b | b in used' ensures exists k' :: k' in place' && place'[k'] == b {
          var k' :| k' in place && place[k'] == b;
          assert k' in place';
        }
      }
    }
  }

  /** n distinct buckets out of n are all of them. */
  lemma AllBuckets(s: seq<int>, n: nat, b: int)
    requires |s| == n && Distinct(s) && (forall i :: 0 <= i < n ==> 0 <= s[i] < n) && 0 <= b < n
    ensures b in s
  {
    DistinctSize(s);
    SubsetSize(Range(s), Below(n));
    assert b in Range(s);
  }

  /** Every bucket is reached within the first 2^k probes, by an odd step ... */
  lemma AtCovers(start: nat, step: nat, k: nat, b: nat) returns (d: nat)
    requires start < Pow2(k) && step % 2 == 1 && b < Pow2(k)
    ensures d < Pow2(k) && At(start, step, d, Pow2(k)) == b
  {
    var n := Pow2(k);
    var s: seq<int> := seq(n, i requires 0 <= i < n => At(start, step, i, n));
    forall i, j | 0 <= i < j < n ensures s[i] != s[j] {
      if s[i] == s[j] { AtInjective(start, step, i, j, k); }
    }
    AllBuckets(s, n, b);
    d :| 0 <= d < n && s[d] == b;
  }

  /** ... and by triangular probing. */
  lemma TriCovers(start: nat, k: nat, b: nat) returns (d: nat)
    requires start < Pow2(k) && b < Pow2(k)
    ensures d < Pow2(k) && Tri(start, d, Pow2(k)) == b
  {
    var n := Pow2(k);
    var s: seq<int> := seq(n, i requires 0 <= i < n => Tri(start, i, n));
    forall i, j | 0 <= i < j < n ensures s[i] != s[j] {
      if s[i] == s[j] { TriInjective(start, j, i, k); }
    }
    AllBuckets(s, n, b);
    d :| 0 <= d < n && s[d] == b;
  }
}
