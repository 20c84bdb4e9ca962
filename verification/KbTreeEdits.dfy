/** The structural steps of kbtree.h as edits of the represented tree: splitting a full child,
  * moving a key through the parent between two siblings, and merging two siblings.
  * Every one of them keeps the in-order key sequence. */
module KbTreeEdits {
  import opened KbTreeModel

  /** a, m and b written into one node, the way a merge does. */
  function Join(a: Tree, m: int, b: Tree): Tree {
    Tree(a.node, a.keys + [m] + b.keys, a.kids + b.kids)
  }

  /** a and b are shaped alike: two leaves, or two internal nodes with n+1 children each. */
  predicate Siblings(a: Tree, b: Tree) {
    (a.kids == [] <==> b.kids == []) &&
    (a.kids != [] ==> |a.kids| == |a.keys| + 1 && |b.kids| == |b.keys| + 1)
  }

  lemma JoinInOrder(a: Tree, m: int, b: Tree)
    requires Siblings(a, b)
    ensures InOrder(Join(a, m, b)) == InOrder(a) + [m] + InOrder(b)
  {
    if a.kids != [] {
      var j := Join(a, m, b);
      WeaveSplit(j.keys, Lists(j.kids), |a.keys|);
      assert j.keys[..|a.keys|] == a.keys && j.keys[|a.keys| + 1..] == b.keys;
      assert Lists(j.kids)[..|a.kids|] == Lists(a.kids);
      assert Lists(j.kids)[|a.kids|..] == Lists(b.kids);
    }
  }

  /** Child i replaced by a, m, b. */
  function SplitKid(tr: Tree, i: nat, a: Tree, m: int, b: Tree): Tree
    requires i < |tr.kids| == |tr.keys| + 1
  {
    Tree(tr.node, tr.keys[..i] + [m] + tr.keys[i..], tr.kids[..i] + [a, b] + tr.kids[i + 1..])
  }

  /** Key i and its two children merged into child i. */
  function MergeKids(tr: Tree, i: nat): Tree
    requires i < |tr.keys| && |tr.kids| == |tr.keys| + 1
  {
    Tree(tr.node, tr.keys[..i] + tr.keys[i + 1..],
         tr.kids[..i] + [Join(tr.kids[i], tr.keys[i], tr.kids[i + 1])] + tr.kids[i + 2..])
  }

  /** Key i and its two children replaced by a, m, b. */
  function ReplacePair(tr: Tree, i: nat, a: Tree, m: int, b: Tree): Tree
    requires i < |tr.keys| && |tr.kids| == |tr.keys| + 1
  {
    Tree(tr.node, tr.keys[i := m], tr.kids[i := a][i + 1 := b])
  }

  function ReplaceKid(tr: Tree, i: nat, c: Tree): Tree
    requires i < |tr.kids| == |tr.keys| + 1
  {
    tr.(kids := tr.kids[i := c])
  }

  // ---------- in-order sequence ----------

  lemma {:induction false} WeaveExpand(ks: seq<int>, cs: seq<seq<int>>, i: nat, a: seq<int>, m: int, b: seq<int>)
    requires |cs| == |ks| + 1 && i < |cs|
    requires cs[i] == a + [m] + b
    ensures Weave(ks[..i] + [m] + ks[i..], cs[..i] + [a, b] + cs[i + 1..]) == Weave(ks, cs)
  {
    var ks', cs' := ks[..i] + [m] + ks[i..], cs[..i] + [a, b] + cs[i + 1..];
    if i == 0 {
      var cr := [b] + cs[1..];
      assert ks'[1..] == ks && cs'[1..] == cr;
      assert ks != [] ==> cr[1..] == cs[1..];
    } else {
      WeaveExpand(ks[1..], cs[1..], i - 1, a, m, b);
      assert ks'[1..] == ks[1..][..i - 1] + [m] + ks[1..][i - 1..];
      assert cs'[1..] == cs[1..][..i - 1] + [a, b] + cs[1..][i..];
    }
  }

  lemma SplitKidInOrder(tr: Tree, i: nat, a: Tree, m: int, b: Tree)
    requires i < |tr.kids| == |tr.keys| + 1
    requires InOrder(tr.kids[i]) == InOrder(a) + [m] + InOrder(b)
    ensures InOrder(SplitKid(tr, i, a, m, b)) == InOrder(tr)
  {
    var r, cs := SplitKid(tr, i, a, m, b), Lists(tr.kids);
    WeaveExpand(tr.keys, cs, i, InOrder(a), m, InOrder(b));
    var cs' := cs[..i] + [InOrder(a), InOrder(b)] + cs[i + 1..];
    forall j | 0 <= j < |cs'| ensures Lists(r.kids)[j] == cs'[j] {
      if j > i + 1 { assert r.kids[j] == tr.kids[j - 1]; }
    }
    assert Lists(r.kids) == cs';
  }

  lemma MergeKidsInOrder(tr: Tree, i: nat)
    requires i < |tr.keys| && |tr.kids| == |tr.keys| + 1
    requires Siblings(tr.kids[i], tr.kids[i + 1])
    ensures InOrder(MergeKids(tr, i)) == InOrder(tr)
  {
    var r := MergeKids(tr, i);
    var a, m, b := tr.kids[i], tr.keys[i], tr.kids[i + 1];
    JoinInOrder(a, m, b);
    MergeThenSplit(tr, i);
    hide InOrder, Join;
    SplitKidInOrder(r, i, a, m, b);
  }

  lemma MergeThenSplit(tr: Tree, i: nat)
    requires i < |tr.keys| && |tr.kids| == |tr.keys| + 1
    ensures var r, a, b := MergeKids(tr, i), tr.kids[i], tr.kids[i + 1];
      r.kids[i] == Join(a, tr.keys[i], b) && SplitKid(r, i, a, tr.keys[i], b) == tr
  {
    var r, a, b := MergeKids(tr, i), tr.kids[i], tr.kids[i + 1];
    assert r.keys[..i] + [tr.keys[i]] + r.keys[i..] == tr.keys;
    assert r.kids[..i] + [a, b] + r.kids[i + 1..] == tr.kids;
  }

  lemma ReplacePairInOrder(tr: Tree, i: nat, a: Tree, m: int, b: Tree)
    requires i < |tr.keys| && |tr.kids| == |tr.keys| + 1
    requires Siblings(tr.kids[i], tr.kids[i + 1]) && Siblings(a, b)
    requires Join(a, m, b).keys == Join(tr.kids[i], tr.keys[i], tr.kids[i + 1]).keys
    requires Join(a, m, b).kids == Join(tr.kids[i], tr.keys[i], tr.kids[i + 1]).kids
    ensures InOrder(ReplacePair(tr, i, a, m, b)) == InOrder(tr)
  {
    MergeKidsInOrder(tr, i);
    var r := ReplacePair(tr, i, a, m, b);
    MergeKidsInOrder(r, i);
    var u, v := MergeKids(tr, i), MergeKids(r, i);
    assert u.keys == v.keys;
    assert InOrder(u.kids[i]) == InOrder(v.kids[i]);
    assert Lists(u.kids) == Lists(v.kids);
  }

  /** The in-order sequence around child i, and what replacing that child does to it. */
  lemma ReplaceKidInOrder(tr: Tree, i: nat, c: Tree)
    requires i < |tr.kids| == |tr.keys| + 1
    ensures InOrder(tr) == Before(tr.keys, Lists(tr.kids), i) + InOrder(tr.kids[i]) + After(tr.keys, Lists(tr.kids), i)
    ensures InOrder(ReplaceKid(tr, i, c)) ==
      Before(tr.keys, Lists(tr.kids), i) + InOrder(c) + After(tr.keys, Lists(tr.kids), i)
  {
    var cs := Lists(tr.kids);
    WeaveAround(tr.keys, cs, i);
    var r := ReplaceKid(tr, i, c);
    assert Lists(r.kids) == cs[i := InOrder(c)];
    WeaveAround(tr.keys, cs[i := InOrder(c)], i);
    assert cs[i := InOrder(c)][..i] == cs[..i];
    assert cs[i := InOrder(c)][i + 1..] == cs[i + 1..];
  }

  // ---------- ownership ----------

  lemma {:induction false} FootprintsConcat(a: seq<Tree>, b: seq<Tree>)
    ensures Footprints(a + b) == Footprints(a) + Footprints(b)
  {
    if a == [] {
      assert a + b == b;
    } else {
      FootprintsConcat(a[1..], b);
      assert (a + b)[1..] == a[1..] + b;
    }
  }

  lemma {:induction false} SeparateConcat(a: seq<Tree>, b: seq<Tree>)
    ensures SeparateKids(a + b) <==> SeparateKids(a) && SeparateKids(b) && Footprints(a) !! Footprints(b)
  {
    if a == [] {
      assert a + b == b;
    } else {
      SeparateConcat(a[1..], b);
      FootprintsConcat(a[1..], b);
      assert (a + b)[1..] == a[1..] + b;
    }
  }

  /** Children lo..hi replaced by another run, which may use the nodes of the old run and those of fp. */
  lemma SwapRun(tr: Tree, lo: nat, hi: nat, run: seq<Tree>, keys: seq<int>, fp: set<KbNode>)
    requires lo <= hi <= |tr.kids| && Separate(tr) && SeparateKids(run)
    requires Footprints(run) <= Footprints(tr.kids[lo..hi]) + fp && fp !! Footprint(tr)
    ensures var r := Tree(tr.node, keys, tr.kids[..lo] + run + tr.kids[hi..]);
      Separate(r) && Footprint(r) == Footprint(tr) - Footprints(tr.kids[lo..hi]) + Footprints(run)
  {
    hide Footprints, SeparateKids;
    var pre, mid, post := tr.kids[..lo], tr.kids[lo..hi], tr.kids[hi..];
    assert tr.kids == pre + mid + post;
    FootprintsConcat(pre, mid);
    FootprintsConcat(pre + mid, post);
    FootprintsConcat(pre, run);
    FootprintsConcat(pre + run, post);
    SeparateConcat(pre, mid);
    SeparateConcat(pre + mid, post);
    SeparateConcat(pre, run);
    SeparateConcat(pre + run, post);
  }

  lemma OwnsRun(tr: Tree, lo: nat, hi: nat)
    requires lo <= hi <= |tr.kids| && Separate(tr)
    ensures SeparateKids(tr.kids[lo..hi]) && Footprints(tr.kids[lo..hi]) <= Footprint(tr)
    ensures tr.node !in Footprints(tr.kids[lo..hi])
  {
    hide Footprints, SeparateKids;
    var pre, mid, post := tr.kids[..lo], tr.kids[lo..hi], tr.kids[hi..];
    assert tr.kids == pre + mid + post;
    FootprintsConcat(pre, mid);
    FootprintsConcat(pre + mid, post);
    SeparateConcat(pre, mid);
    SeparateConcat(pre + mid, post);
  }

  lemma Single(a: Tree)
    ensures Footprints([a]) == Footprint(a) && (SeparateKids([a]) <==> Separate(a))
  {
    assert [a][1..] == [];
  }

  lemma Pair(a: Tree, b: Tree)
    ensures Footprints([a, b]) == Footprint(a) + Footprint(b)
    ensures SeparateKids([a, b]) <==> Separate(a) && Separate(b) && Footprint(a) !! Footprint(b)
  {
    Single(a);
    Single(b);
    FootprintsConcat([a], [b]);
    SeparateConcat([a], [b]);
    assert [a, b] == [a] + [b];
  }

  /** Two nodes and the one node their contents join into own the same nodes. */
  lemma JoinOwns(a: Tree, m: int, b: Tree)
    ensures Footprint(a) + Footprint(b) == Footprint(Join(a, m, b)) + {b.node}
    ensures Separate(a) && Separate(b) && Footprint(a) !! Footprint(b)
      <==> Separate(Join(a, m, b)) && b.node !in Footprint(Join(a, m, b))
  {
    SeparateConcat(a.kids, b.kids);
    FootprintsConcat(a.kids, b.kids);
  }

  // ---------- the edits keep shape and ownership ----------

  /** Shape and ownership of a subtree of height h. */
  ghost predicate Sound(t: nat, tr: Tree, h: nat) {
    t >= 2 && Balanced(t, tr, h) && Separate(tr)
  }

  lemma KidBalanced(t: nat, tr: Tree, h: nat, i: nat)
    requires Balanced(t, tr, h) && i < |tr.kids|
    ensures h > 0 && |tr.kids| == |tr.keys| + 1
    ensures Balanced(t, tr.kids[i], h - 1) && t - 1 <= |tr.kids[i].keys| <= 2 * t - 1
    ensures tr.kids[i].kids == [] <==> h == 1
    ensures h > 1 ==> |tr.kids[i].kids| == |tr.kids[i].keys| + 1
  {
  }

  /** The tree after __kb_split of full child i, with z the new node. */
  function SplitChild(t: nat, tr: Tree, i: nat, z: KbNode): Tree
    requires i < |tr.kids| == |tr.keys| + 1 && 1 <= t <= |tr.kids[i].keys|
  {
    var y := tr.kids[i];
    SplitKid(tr, i, Tree(y.node, y.keys[..t - 1], Take(y.kids, t)), y.keys[t - 1],
             Tree(z, y.keys[t..], Drop(y.kids, t)))
  }

  function Take<T>(s: seq<T>, n: nat): seq<T> {
    if n <= |s| then s[..n] else s
  }

  function Drop<T>(s: seq<T>, n: nat): seq<T> {
    if n <= |s| then s[n..] else []
  }

  lemma SplitChildBalanced(t: nat, tr: Tree, h: nat, i: nat, z: KbNode)
    requires t >= 2 && Balanced(t, tr, h) && i < |tr.kids| && |tr.kids[i].keys| == 2 * t - 1 && |tr.keys| < 2 * t - 1
    ensures |tr.kids| == |tr.keys| + 1
    ensures Balanced(t, SplitChild(t, tr, i, z), h)
  {
    KidBalanced(t, tr, h, i);
    var y, r := tr.kids[i], SplitChild(t, tr, i, z);
    var a, b := r.kids[i], r.kids[i + 1];
    assert Balanced(t, a, h - 1) && Balanced(t, b, h - 1);
    forall j | 0 <= j < |r.kids| ensures t - 1 <= |r.kids[j].keys| && Balanced(t, r.kids[j], h - 1) {
      if j > i + 1 { KidBalanced(t, tr, h, j - 1); } else if j < i { KidBalanced(t, tr, h, j); }
    }
  }

  lemma SplitChildJoin(t: nat, tr: Tree, i: nat, z: KbNode)
    requires i < |tr.kids| == |tr.keys| + 1 && 1 <= t <= |tr.kids[i].keys|
    ensures var r := SplitChild(t, tr, i, z);
      Join(r.kids[i], r.keys[i], r.kids[i + 1]) == tr.kids[i]
  {
    var y, r := tr.kids[i], SplitChild(t, tr, i, z);
    assert r.kids[i].keys + [r.keys[i]] + r.kids[i + 1].keys == y.keys;
    assert r.kids[i].kids + r.kids[i + 1].kids == y.kids;
  }

  /** A split keeps the in-order sequence, the shape and the ownership, and adds one node. */
  lemma SplitChildSound(t: nat, tr: Tree, h: nat, i: nat, z: KbNode)
    requires Sound(t, tr, h) && i < |tr.kids| && |tr.kids[i].keys| == 2 * t - 1 && |tr.keys| < 2 * t - 1
    requires z !in Footprint(tr)
    ensures |tr.kids| == |tr.keys| + 1
    ensures Sound(t, SplitChild(t, tr, i, z), h)
    ensures Footprint(SplitChild(t, tr, i, z)) == Footprint(tr) + {z}
    ensures InOrder(SplitChild(t, tr, i, z)) == InOrder(tr)
  {
    hide Balanced, Separate, Footprint, InOrder;
    KidsOf(t, tr, h);
    SplitChildBalanced(t, tr, h, i, z);
    SplitChildJoin(t, tr, i, z);
    SplitChildOwns(t, tr, i, z);
    var r := SplitChild(t, tr, i, z);
    var a, m, b := r.kids[i], r.keys[i], r.kids[i + 1];
    SiblingKids(t, r, h, i);
    JoinInOrder(a, m, b);
    SplitKidInOrder(tr, i, a, m, b);
    assert r == SplitKid(tr, i, a, m, b);
  }

  lemma KidsOf(t: nat, tr: Tree, h: nat)
    requires Balanced(t, tr, h) && tr.kids != []
    ensures h > 0 && |tr.kids| == |tr.keys| + 1
  {
  }

  lemma SiblingKids(t: nat, tr: Tree, h: nat, i: nat)
    requires Balanced(t, tr, h) && i + 1 < |tr.kids|
    ensures Siblings(tr.kids[i], tr.kids[i + 1])
  {
    KidBalanced(t, tr, h, i);
    KidBalanced(t, tr, h, i + 1);
  }

  lemma SplitChildOwns(t: nat, tr: Tree, i: nat, z: KbNode)
    requires i < |tr.kids| == |tr.keys| + 1 && 1 <= t <= |tr.kids[i].keys|
    requires Separate(tr) && z !in Footprint(tr)
    ensures Separate(SplitChild(t, tr, i, z)) && Footprint(SplitChild(t, tr, i, z)) == Footprint(tr) + {z}
  {
    hide Footprints, SeparateKids, Footprint, Separate;
    var y, r := tr.kids[i], SplitChild(t, tr, i, z);
    var a, m, b := r.kids[i], r.keys[i], r.kids[i + 1];
    SplitChildJoin(t, tr, i, z);
    JoinOwns(a, m, b);
    Pair(a, b);
    Single(y);
    assert tr.kids[i..i + 1] == [y];
    OwnsRun(tr, i, i + 1);
    SwapRun(tr, i, i + 1, [a, b], r.keys, {z});
  }

  lemma MergeKidsBalanced(t: nat, tr: Tree, h: nat, i: nat)
    requires t >= 2 && Balanced(t, tr, h) && i < |tr.keys| && h > 0
    requires |tr.kids[i].keys| == t - 1 == |tr.kids[i + 1].keys|
    ensures Siblings(tr.kids[i], tr.kids[i + 1])
    ensures Balanced(t, MergeKids(tr, i), h)
  {
    KidBalanced(t, tr, h, i);
    KidBalanced(t, tr, h, i + 1);
    var a, b, r := tr.kids[i], tr.kids[i + 1], MergeKids(tr, i);
    var c := Join(a, tr.keys[i], b);
    assert Balanced(t, c, h - 1) by {
      forall j | 0 <= j < |c.kids| ensures h > 1 && t - 1 <= |c.kids[j].keys| && Balanced(t, c.kids[j], h - 2) {
        if j < |a.kids| { KidBalanced(t, a, h - 1, j); } else { KidBalanced(t, b, h - 1, j - |a.kids|); }
      }
    }
    forall j | 0 <= j < |r.kids| ensures t - 1 <= |r.kids[j].keys| && Balanced(t, r.kids[j], h - 1) {
      if j > i { KidBalanced(t, tr, h, j + 1); } else if j < i { KidBalanced(t, tr, h, j); }
    }
  }

  lemma MergeKidsOwns(tr: Tree, i: nat)
    requires i < |tr.keys| && |tr.kids| == |tr.keys| + 1 && Separate(tr)
    ensures Separate(MergeKids(tr, i))
    ensures Footprint(MergeKids(tr, i)) == Footprint(tr) - {tr.kids[i + 1].node}
  {
    hide Footprints, SeparateKids, Footprint, Separate;
    var a, b, r := tr.kids[i], tr.kids[i + 1], MergeKids(tr, i);
    var c := Join(a, tr.keys[i], b);
    JoinOwns(a, tr.keys[i], b);
    Pair(a, b);
    Single(c);
    assert tr.kids[i..i + 2] == [a, b];
    OwnsRun(tr, i, i + 2);
    SwapRun(tr, i, i + 2, [c], r.keys, {});
  }

  /** A merge keeps the in-order sequence, the shape and the ownership, and gives up one node. */
  lemma MergeKidsSound(t: nat, tr: Tree, h: nat, i: nat)
    requires Sound(t, tr, h) && i < |tr.keys| && h > 0
    requires |tr.kids[i].keys| == t - 1 == |tr.kids[i + 1].keys|
    ensures Sound(t, MergeKids(tr, i), h)
    ensures Footprint(MergeKids(tr, i)) == Footprint(tr) - {tr.kids[i + 1].node}
    ensures InOrder(MergeKids(tr, i)) == InOrder(tr)
  {
    hide Separate, Footprint, InOrder;
    MergeKidsBalanced(t, tr, h, i);
    MergeKidsOwns(tr, i);
    MergeKidsInOrder(tr, i);
  }

  lemma ReplacePairOwns(tr: Tree, i: nat, a: Tree, m: int, b: Tree)
    requires i < |tr.keys| && |tr.kids| == |tr.keys| + 1 && Separate(tr)
    requires b.node == tr.kids[i + 1].node
    requires Join(a, m, b) == Join(tr.kids[i], tr.keys[i], tr.kids[i + 1])
    ensures Separate(ReplacePair(tr, i, a, m, b))
    ensures Footprint(ReplacePair(tr, i, a, m, b)) == Footprint(tr)
  {
    hide Footprints, SeparateKids, Footprint, Separate;
    var c, d, r := tr.kids[i], tr.kids[i + 1], ReplacePair(tr, i, a, m, b);
    JoinOwns(a, m, b);
    JoinOwns(c, tr.keys[i], d);
    Pair(a, b);
    Pair(c, d);
    assert tr.kids[i..i + 2] == [c, d];
    assert r.kids == tr.kids[..i] + [a, b] + tr.kids[i + 2..];
    OwnsRun(tr, i, i + 2);
    SwapRun(tr, i, i + 2, [a, b], r.keys, {});
  }

  /** Moving keys between two siblings through their parent keeps the in-order sequence,
    * the shape and the ownership. */
  lemma ReplacePairSound(t: nat, tr: Tree, h: nat, i: nat, a: Tree, m: int, b: Tree)
    requires Sound(t, tr, h) && i < |tr.keys| && h > 0
    requires Balanced(t, a, h - 1) && Balanced(t, b, h - 1) && t - 1 <= |a.keys| && t - 1 <= |b.keys|
    requires b.node == tr.kids[i + 1].node
    requires Join(a, m, b) == Join(tr.kids[i], tr.keys[i], tr.kids[i + 1])
    ensures Sound(t, ReplacePair(tr, i, a, m, b), h)
    ensures Footprint(ReplacePair(tr, i, a, m, b)) == Footprint(tr)
    ensures InOrder(ReplacePair(tr, i, a, m, b)) == InOrder(tr)
  {
    hide Separate, Footprint, InOrder;
    KidBalanced(t, tr, h, i);
    KidBalanced(t, tr, h, i + 1);
    ReplacePairOwns(tr, i, a, m, b);
    ReplacePairInOrder(tr, i, a, m, b);
  }

  lemma ReplaceKidSound(t: nat, tr: Tree, h: nat, i: nat, c: Tree, fp: set<KbNode>)
    requires Sound(t, tr, h) && h > 0 && i < |tr.kids|
    requires Sound(t, c, h - 1) && t - 1 <= |c.keys|
    requires Footprint(c) <= Footprint(tr.kids[i]) + fp && fp !! Footprint(tr)
    ensures Sound(t, ReplaceKid(tr, i, c), h)
    ensures Footprint(ReplaceKid(tr, i, c)) <= Footprint(tr) + fp
  {
    hide Footprints, SeparateKids, Footprint, Separate;
    var y, r := tr.kids[i], ReplaceKid(tr, i, c);
    Single(y);
    Single(c);
    assert tr.kids[i..i + 1] == [y];
    OwnsRun(tr, i, i + 1);
    assert r.kids == tr.kids[..i] + [c] + tr.kids[i + 1..];
    SwapRun(tr, i, i + 1, [c], r.keys, fp);
  }

  // ---------- opening and closing the representation ----------

  lemma {:induction false} SubtreesConcat(a: seq<Tree>, b: seq<Tree>)
    ensures Subtrees(a + b) == Subtrees(a) + Subtrees(b)
  {
    hide SelfAndBelow;
    if a == [] {
      assert a + b == b;
    } else {
      SubtreesConcat(a[1..], b);
      assert (a + b)[0] == a[0] && (a + b)[1..] == a[1..] + b;
    }
  }

  lemma RepAllConcat(t: nat, a: seq<Tree>, b: seq<Tree>)
    ensures RepAll(t, a + b) <==> RepAll(t, a) && RepAll(t, b)
  {
    SubtreesConcat(a, b);
  }

  lemma RepSingle(t: nat, a: Tree)
    ensures RepAll(t, [a]) <==> Rep(t, a)
  {
    assert [a][1..] == [];
    assert Subtrees([a]) == SelfAndBelow(a);
  }

  /** The subtrees an edit of child i leaves alone: the other children, and the children of child i. */
  function Around(tr: Tree, i: nat): seq<Tree>
    requires i < |tr.kids|
  {
    tr.kids[..i] + tr.kids[i + 1..] + tr.kids[i].kids
  }

  lemma OpenKid(t: nat, tr: Tree, i: nat)
    requires i < |tr.kids| && Separate(tr)
    ensures tr.kids[i].node in Footprint(tr) && tr.kids[i].node != tr.node
    ensures tr.node !in Footprints(Around(tr, i)) && tr.kids[i].node !in Footprints(Around(tr, i))
    ensures Footprints(Around(tr, i)) <= Footprint(tr)
  {
    hide Footprints, SeparateKids;
    var pre, y, post := tr.kids[..i], tr.kids[i], tr.kids[i + 1..];
    assert tr.kids == pre + [y] + post;
    Single(y);
    FootprintsConcat(pre, [y]);
    FootprintsConcat(pre + [y], post);
    SeparateConcat(pre, [y]);
    SeparateConcat(pre + [y], post);
    FootprintsConcat(pre, post);
    FootprintsConcat(pre + post, y.kids);
  }

  lemma OpenKidRep(t: nat, tr: Tree, i: nat)
    requires i < |tr.kids|
    ensures Rep(t, tr) <==> NodeHolds(t, tr) && NodeHolds(t, tr.kids[i]) && RepAll(t, Around(tr, i))
  {
    var pre, y, post := tr.kids[..i], tr.kids[i], tr.kids[i + 1..];
    assert tr.kids == pre + [y] + post;
    RepAllConcat(t, pre + [y], post);
    RepAllConcat(t, pre, [y]);
    RepSingle(t, y);
    RepAllConcat(t, pre, post);
    RepAllConcat(t, pre + post, y.kids);
  }

  /** The other children. */
  function Others(tr: Tree, i: nat): seq<Tree>
    requires i < |tr.kids|
  {
    tr.kids[..i] + tr.kids[i + 1..]
  }

  lemma OpenOthers(t: nat, tr: Tree, i: nat)
    requires i < |tr.kids| && Separate(tr)
    ensures Separate(tr.kids[i]) && tr.node !in Footprint(tr.kids[i])
    ensures Footprint(tr.kids[i]) !! Footprints(Others(tr, i)) && tr.node !in Footprints(Others(tr, i))
    ensures Footprint(tr) == {tr.node} + Footprint(tr.kids[i]) + Footprints(Others(tr, i))
  {
    hide Footprints, SeparateKids;
    var pre, y, post := tr.kids[..i], tr.kids[i], tr.kids[i + 1..];
    assert tr.kids == pre + [y] + post;
    Single(y);
    FootprintsConcat(pre, [y]);
    FootprintsConcat(pre + [y], post);
    FootprintsConcat(pre, post);
    SeparateConcat(pre, [y]);
    SeparateConcat(pre + [y], post);
  }

  lemma OpenOthersRep(t: nat, tr: Tree, i: nat)
    requires i < |tr.kids|
    ensures Rep(t, tr) <==> NodeHolds(t, tr) && Rep(t, tr.kids[i]) && RepAll(t, Others(tr, i))
  {
    var pre, y, post := tr.kids[..i], tr.kids[i], tr.kids[i + 1..];
    assert tr.kids == pre + [y] + post;
    RepAllConcat(t, pre + [y], post);
    RepAllConcat(t, pre, [y]);
    RepAllConcat(t, pre, post);
    RepSingle(t, y);
  }

  /** The representation after child i has been rewritten in place. */
  lemma ReplaceKidRep(t: nat, tr: Tree, i: nat, c: Tree)
    requires i < |tr.kids| == |tr.keys| + 1 && c.node == tr.kids[i].node
    requires NodeHolds(t, tr) && Rep(t, c) && RepAll(t, Others(tr, i))
    ensures Rep(t, ReplaceKid(tr, i, c))
  {
    var r := ReplaceKid(tr, i, c);
    assert Others(r, i) == Others(tr, i);
    OpenOthersRep(t, r, i);
  }

  /** The subtrees an edit of children i and i+1 leaves alone. */
  function AroundPair(tr: Tree, i: nat): seq<Tree>
    requires i + 1 < |tr.kids|
  {
    tr.kids[..i] + tr.kids[i + 2..] + tr.kids[i].kids + tr.kids[i + 1].kids
  }

  lemma OpenPair(tr: Tree, i: nat)
    requires i + 1 < |tr.kids| && Separate(tr)
    ensures tr.kids[i].node in Footprint(tr) && tr.kids[i + 1].node in Footprint(tr)
    ensures tr.kids[i].node != tr.node && tr.kids[i + 1].node != tr.node && tr.kids[i].node != tr.kids[i + 1].node
    ensures {tr.node, tr.kids[i].node, tr.kids[i + 1].node} !! Footprints(AroundPair(tr, i))
    ensures Footprints(AroundPair(tr, i)) <= Footprint(tr)
  {
    hide Footprints, SeparateKids;
    var pre, y, z, post := tr.kids[..i], tr.kids[i], tr.kids[i + 1], tr.kids[i + 2..];
    assert tr.kids == pre + [y, z] + post;
    Pair(y, z);
    FootprintsConcat(pre, [y, z]);
    FootprintsConcat(pre + [y, z], post);
    SeparateConcat(pre, [y, z]);
    SeparateConcat(pre + [y, z], post);
    FootprintsConcat(pre, post);
    FootprintsConcat(pre + post, y.kids);
    FootprintsConcat(pre + post + y.kids, z.kids);
  }

  lemma RepPair(t: nat, a: Tree, b: Tree)
    ensures RepAll(t, [a, b]) <==> Rep(t, a) && Rep(t, b)
  {
    RepSingle(t, a);
    RepSingle(t, b);
    RepAllConcat(t, [a], [b]);
    assert [a] + [b] == [a, b];
  }

  lemma OpenPairRep(t: nat, tr: Tree, i: nat)
    requires i + 1 < |tr.kids|
    ensures Rep(t, tr) <==>
      NodeHolds(t, tr) && NodeHolds(t, tr.kids[i]) && NodeHolds(t, tr.kids[i + 1]) && RepAll(t, AroundPair(tr, i))
  {
    var pre, y, z, post := tr.kids[..i], tr.kids[i], tr.kids[i + 1], tr.kids[i + 2..];
    assert tr.kids == pre + [y, z] + post;
    RepAllConcat(t, pre + [y, z], post);
    RepAllConcat(t, pre, [y, z]);
    RepPair(t, y, z);
    RepAllConcat(t, pre, post);
    RepAllConcat(t, pre + post, y.kids);
    RepAllConcat(t, pre + post + y.kids, z.kids);
  }

  lemma ReplacePairRep(t: nat, tr: Tree, i: nat, a: Tree, m: int, b: Tree)
    requires i + 1 < |tr.kids| == |tr.keys| + 1 && RepAll(t, AroundPair(tr, i))
    requires a.kids + b.kids == tr.kids[i].kids + tr.kids[i + 1].kids
    requires NodeHolds(t, ReplacePair(tr, i, a, m, b)) && NodeHolds(t, a) && NodeHolds(t, b)
    ensures Rep(t, ReplacePair(tr, i, a, m, b))
  {
    var r := ReplacePair(tr, i, a, m, b);
    var y, z := tr.kids[i], tr.kids[i + 1];
    var ends := tr.kids[..i] + tr.kids[i + 2..];
    assert AroundPair(tr, i) == ends + (y.kids + z.kids);
    assert AroundPair(r, i) == ends + (a.kids + b.kids);
    OpenPairRep(t, r, i);
  }

  lemma MergeKidsRep(t: nat, tr: Tree, i: nat)
    requires i + 1 < |tr.kids| == |tr.keys| + 1 && RepAll(t, AroundPair(tr, i))
    requires NodeHolds(t, MergeKids(tr, i)) && NodeHolds(t, MergeKids(tr, i).kids[i])
    ensures Rep(t, MergeKids(tr, i))
  {
    hide Image, Subtrees;
    var r := MergeKids(tr, i);
    OpenKidRep(t, r, i);
    assert r.kids[..i] + r.kids[i + 1..] == tr.kids[..i] + tr.kids[i + 2..];
    assert Around(r, i) == AroundPair(tr, i);
  }
}
