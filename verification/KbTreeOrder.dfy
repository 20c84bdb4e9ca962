/** Ordering facts of the in-order sequence of a B-tree. */
module KbTreeOrder {
  import opened KbTreeModel
  import opened KbTreeEdits

  /** kb_generic_cmp. */
  function Cmp(a: int, b: int): int {
    (if b < a then 1 else 0) - (if a < b then 1 else 0)
  }

  /** The answer of the in-node search: the key itself (first occurrence, r = 0), or the last smaller key. */
  ghost predicate FoundAt(ks: seq<int>, k: int, i: int, r: int) {
    && -1 <= i < |ks|
    && (forall j :: 0 <= j < i ==> ks[j] < k)
    && (r == 0 ==> i >= 0 && ks[i] == k)
    && (r != 0 ==> (i >= 0 ==> ks[i] < k) && forall j :: i < j < |ks| ==> k < ks[j])
  }

  /** r is how k compares with the first key not below it, 1 when there is none. */
  predicate Compared(ks: seq<int>, k: int, i: int, r: int)
    requires -1 <= i < |ks|
  {
    if r == 0 then i >= 0 else r == if i + 1 < |ks| then Cmp(k, ks[i + 1]) else 1
  }

  /** s' is s with k inserted at position p, between the keys not above it and those not below it. */
  ghost predicate InsertedAt(s: seq<int>, p: nat, k: int, s': seq<int>) {
    && p <= |s|
    && s' == s[..p] + [k] + s[p..]
    && (forall j :: 0 <= j < p ==> s[j] <= k)
    && (forall j :: p <= j < |s| ==> k <= s[j])
  }

  /** s' is s without the occurrence of k at position p. */
  ghost predicate RemovedAt(s: seq<int>, p: nat, k: int, s': seq<int>) {
    p < |s| && s[p] == k && s' == s[..p] + s[p + 1..]
  }

  lemma InsertedSorted(s: seq<int>, p: nat, k: int, s': seq<int>)
    requires Sorted(s) && InsertedAt(s, p, k, s')
    ensures Sorted(s') && multiset(s') == multiset(s) + multiset{k} && |s'| == |s| + 1
  {
    assert s == s[..p] + s[p..];
  }

  lemma RemovedSorted(s: seq<int>, p: nat, k: int, s': seq<int>)
    requires Sorted(s) && RemovedAt(s, p, k, s')
    ensures Sorted(s') && multiset(s') == multiset(s) - multiset{k} && k in s && |s'| == |s| - 1
  {
    assert s == s[..p] + [k] + s[p + 1..];
  }

  /** Insertion into, and removal from, one part of a concatenation. */
  lemma InsertedInside(l: seq<int>, c: seq<int>, r: seq<int>, p: nat, k: int, c': seq<int>)
    requires InsertedAt(c, p, k, c')
    requires forall j :: 0 <= j < |l| ==> l[j] <= k
    requires forall j :: 0 <= j < |r| ==> k <= r[j]
    ensures InsertedAt(l + c + r, |l| + p, k, l + c' + r)
  {
    var s := l + c + r;
    assert s[..|l| + p] == l + c[..p];
    assert s[|l| + p..] == c[p..] + r;
  }

  lemma RemovedInside(l: seq<int>, c: seq<int>, r: seq<int>, p: nat, k: int, c': seq<int>)
    requires RemovedAt(c, p, k, c')
    ensures RemovedAt(l + c + r, |l| + p, k, l + c' + r)
  {
    var s := l + c + r;
    assert s[..|l| + p] == l + c[..p];
    assert s[|l| + p + 1..] == c[p + 1..] + r;
  }

  lemma SplitSorted(l: seq<int>, r: seq<int>)
    requires Sorted(l + r)
    ensures Sorted(l) && Sorted(r)
    ensures forall i, j :: 0 <= i < |l| && 0 <= j < |r| ==> l[i] <= r[j]
  {
    var s := l + r;
    assert forall j :: 0 <= j < |l| ==> s[j] == l[j];
    assert forall j :: 0 <= j < |r| ==> s[|l| + j] == r[j];
  }

  lemma ConcatSorted(l: seq<int>, c: seq<int>, r: seq<int>)
    requires Sorted(l + c + r)
    ensures Sorted(l) && Sorted(c) && Sorted(r)
    ensures forall i, j :: 0 <= i < |l| && 0 <= j < |c| ==> l[i] <= c[j]
    ensures forall i, j :: 0 <= i < |c| && 0 <= j < |r| ==> c[i] <= r[j]
  {
    hide Sorted;
    assert l + c + r == l + (c + r);
    SplitSorted(l + c, r);
    SplitSorted(l, c);
    SplitSorted(l, c + r);
    SplitSorted(c, r);
  }

  /** The keys around child i are separated from it by its two neighbouring keys. */
  lemma KidRange(tr: Tree, i: nat)
    requires i < |tr.kids| == |tr.keys| + 1 && Sorted(InOrder(tr))
    ensures Sorted(InOrder(tr.kids[i]))
    ensures var l := Before(tr.keys, Lists(tr.kids), i);
      if i == 0 then l == [] else forall j :: 0 <= j < |l| ==> l[j] <= tr.keys[i - 1]
    ensures var r := After(tr.keys, Lists(tr.kids), i);
      if i == |tr.keys| then r == [] else forall j :: 0 <= j < |r| ==> tr.keys[i] <= r[j]
    ensures var c := InOrder(tr.kids[i]);
      && (i > 0 ==> forall j :: 0 <= j < |c| ==> tr.keys[i - 1] <= c[j])
      && (i < |tr.keys| ==> forall j :: 0 <= j < |c| ==> c[j] <= tr.keys[i])
  {
    var l, c, r := Before(tr.keys, Lists(tr.kids), i), InOrder(tr.kids[i]), After(tr.keys, Lists(tr.kids), i);
    WeaveAround(tr.keys, Lists(tr.kids), i);
    assert i > 0 ==> l[|l| - 1] == tr.keys[i - 1];
    assert i < |tr.keys| ==> r[0] == tr.keys[i];
    hide Weave, Before, After, InOrder;
    ConcatSorted(l, c, r);
  }

  /** The keys next to child i end the sequences on its two sides. */
  lemma SideEnds(tr: Tree, i: nat)
    requires i < |tr.kids| == |tr.keys| + 1
    ensures var b := Before(tr.keys, Lists(tr.kids), i);
      if i == 0 then b == [] else b != [] && b[|b| - 1] == tr.keys[i - 1]
    ensures var a := After(tr.keys, Lists(tr.kids), i);
      if i == |tr.keys| then a == [] else a != [] && a[0] == tr.keys[i]
  {
    hide InOrder, Weave;
  }

  /** The separators of a sorted weave are themselves sorted. */
  lemma {:induction false} KeysSorted(ks: seq<int>, cs: seq<seq<int>>)
    requires |cs| == |ks| + 1 && Sorted(Weave(ks, cs))
    ensures Sorted(ks) && forall v :: v in ks ==> v in Weave(ks, cs)
  {
    if ks != [] {
      var w := Weave(ks[1..], cs[1..]);
      ConcatSorted(cs[0], [ks[0]], w);
      KeysSorted(ks[1..], cs[1..]);
      forall j | 0 < j < |ks| ensures ks[0] <= ks[j] {
        assert ks[j] == ks[1..][j - 1] && ks[j] in ks[1..];
        var i :| 0 <= i < |w| && w[i] == ks[j];
        assert [ks[0]][0] <= w[i];
      }
      assert forall j :: 0 < j < |ks| ==> ks[j] == ks[1..][j - 1];
    }
  }
}
