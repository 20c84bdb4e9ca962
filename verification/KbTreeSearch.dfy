/** kbtree.h: lookup, neighbours of a key, and the in-order traversal. */
module KbTreeSearch {
  import opened Options
  import opened KbTreeModel
  import opened KbTreeEdits
  import opened KbTreeOrder
  import opened KbTreePut
  import opened KbTreeDel

  /** A pointer into a node's keys, or none. */
  datatype KeyRef = NoKey | KeyAt(node: KbNode, index: nat)

  /** One level of a descent: child i is a represented, balanced, sorted subtree. */
  lemma Descend(t: nat, x: KbNode, tr: Tree, h: nat, i: nat)
    requires t >= 2 && Balanced(t, tr, h) && Rep(t, tr) && x == tr.node && h > 0 && i <= |tr.keys|
    requires Sorted(InOrder(tr))
    ensures x.isInternal && |tr.kids| == |tr.keys| + 1 == x.n + 1 && |x.ptr| == 2 * t && x.n < 2 * t
    ensures x.ptr[i] == tr.kids[i].node
    ensures Balanced(t, tr.kids[i], h - 1) && Rep(t, tr.kids[i]) && Sorted(InOrder(tr.kids[i]))
    ensures Footprint(tr.kids[i]) <= Footprint(tr)
  {
    BalancedParts(t, tr, h);
    OpenOthersRep(t, tr, i);
    KidBalanced(t, tr, h, i);
    KidRange(tr, i);
    ImageBounds(t, x, tr);
    OwnsKid(tr, i);
  }

  lemma OwnsKid(tr: Tree, i: nat)
    requires i < |tr.kids|
    ensures Footprint(tr.kids[i]) <= Footprint(tr)
  {
  }

  /** Where a key can be, once a node has been searched. */
  lemma WhereKey(t: nat, tr: Tree, h: nat, k: int, i: int, r: int)
    requires Balanced(t, tr, h) && Sorted(InOrder(tr))
    requires if tr.keys == [] then i == -1 && h == 0 else FoundAt(tr.keys, k, i, r)
    requires !(i >= 0 && r == 0)
    ensures h == 0 ==> k !in InOrder(tr)
    ensures h > 0 ==> |tr.kids| == |tr.keys| + 1 && StrictlyAround(tr.keys, i + 1, k)
    ensures h > 0 ==> (k in InOrder(tr) <==> k in InOrder(tr.kids[i + 1]))
  {
    hide InOrder, Balanced;
    BalancedParts(t, tr, h);
    if h > 0 {
      if k in InOrder(tr) { Locate(tr, i + 1, k); }
      ReplaceKidInOrder(tr, i + 1, tr.kids[i + 1]);
    } else {
      LeafIs(tr);
    }
  }

  lemma LeafIs(tr: Tree)
    requires tr.kids == []
    ensures InOrder(tr) == tr.keys
  {
  }

  lemma KeyIsIn(t: nat, tr: Tree, h: nat, i: nat)
    requires Balanced(t, tr, h) && i < |tr.keys| && Sorted(InOrder(tr))
    ensures tr.keys[i] in InOrder(tr)
  {
    if tr.kids != [] { KeysSorted(tr.keys, Lists(tr.kids)); }
  }

  /** kb_getp. */
  method Get(t: nat, root: KbNode, k: int, ghost tree: Tree, ghost height: nat, ghost repr: set<KbNode>)
    returns (ref: KeyRef)
    requires Footprint(tree) == repr
    requires t >= 2 && Balanced(t, tree, height) && Rep(t, tree) && root == tree.node
    requires Sorted(InOrder(tree)) && (height > 0 ==> tree.keys != [])
    ensures ref.KeyAt? <==> k in InOrder(tree)
    ensures ref.KeyAt? ==>
      ref.node in repr && ref.index < ref.node.n <= |ref.node.keys| && ref.node.keys[ref.index] == k
  {
    hide InOrder, Balanced, Footprint, Subtrees, Image;
    var x: KbNode? := root;
    var r := 0;
    ghost var cur, h := tree, height;
    while x != null
      invariant x != null ==> x == cur.node && Balanced(t, cur, h) && Rep(t, cur) && Sorted(InOrder(cur))
      invariant x != null ==> (h > 0 ==> cur.keys != []) && Footprint(cur) <= repr
      invariant x != null ==> (k in InOrder(cur) <==> k in InOrder(tree))
      invariant x == null ==> k !in InOrder(tree)
      decreases if x == null then 0 else h + 1
    {
      RepNode(t, cur);
      ImageBounds(t, x, cur);
      SubtreeSorted(t, cur, h);
      var i;
      i, r := GetpAux(x, k, r);
      assert Rep(t, cur);
      if i >= 0 && r == 0 {
        KeyIsIn(t, cur, h, i);
        return KeyAt(x, i);
      }
      WhereKey(t, cur, h, k, i, r);
      if !x.isInternal {
        LeafHeight(t, cur, h);
        return NoKey;
      }
      LeafHeight(t, cur, h);
      Descend(t, x, cur, h, i + 1);
      KidBalanced(t, cur, h, i + 1);
      x := x.ptr[i + 1];
      cur, h := cur.kids[i + 1], h - 1;
    }
    return NoKey;
  }

  lemma RepNode(t: nat, tr: Tree)
    requires Rep(t, tr)
    ensures NodeHolds(t, tr) && tr.node in Footprint(tr)
  {
  }

  lemma LeafHeight(t: nat, tr: Tree, h: nat)
    requires Balanced(t, tr, h)
    ensures h == 0 <==> tr.kids == []
  {
  }

  /** The exact key on both sides when it occurs; otherwise the largest smaller and the smallest larger key. */
  ghost predicate Neighbours(s: seq<int>, k: int, lower: Option<int>, upper: Option<int>) {
    if k in s then lower == upper == Some(k)
    else
      && (lower.Some? ==> lower.value in s && lower.value < k)
      && (forall v :: v in s && v < k ==> lower.Some? && v <= lower.value)
      && (upper.Some? ==> upper.value in s && k < upper.value)
      && (forall v :: v in s && k < v ==> upper.Some? && upper.value <= v)
  }

  /** lower and upper are the ends of the two sides of a gap. */
  ghost predicate GapEnds(l: seq<int>, r: seq<int>, k: int, lower: Option<int>, upper: Option<int>) {
    && (if l == [] then lower == None else lower == Some(l[|l| - 1]) && l[|l| - 1] < k)
    && (if r == [] then upper == None else upper == Some(r[0]) && k < r[0])
  }

  lemma GapNeighbours(l: seq<int>, r: seq<int>, k: int, lower: Option<int>, upper: Option<int>)
    requires Sorted(l + r) && GapEnds(l, r, k, lower, upper)
    ensures Neighbours(l + r, k, lower, upper)
  {
    hide Sorted;
    SplitSorted(l, r);
    SortedEnds(l);
    SortedEnds(r);
    assert forall v :: v in l + r <==> v in l || v in r;
  }

  lemma SortedEnds(s: seq<int>)
    requires Sorted(s)
    ensures forall v :: v in s ==> s[0] <= v <= s[|s| - 1]
  {
  }

  /** A gap closes in on child i when the node's keys next to it become the new ends. */
  lemma GapNarrows(tr: Tree, l: seq<int>, r: seq<int>, k: int, lower: Option<int>, upper: Option<int>, i: nat)
    requires i < |tr.kids| == |tr.keys| + 1 && GapEnds(l, r, k, lower, upper) && StrictlyAround(tr.keys, i, k)
    ensures var l', r' := l + Before(tr.keys, Lists(tr.kids), i), After(tr.keys, Lists(tr.kids), i) + r;
      && l + InOrder(tr) + r == l' + InOrder(tr.kids[i]) + r'
      && GapEnds(l', r', k, if i > 0 then Some(tr.keys[i - 1]) else lower,
                   if i < |tr.keys| then Some(tr.keys[i]) else upper)
  {
    hide InOrder, Before, After, Weave;
    var b, c, a := Before(tr.keys, Lists(tr.kids), i), InOrder(tr.kids[i]), After(tr.keys, Lists(tr.kids), i);
    SideEnds(tr, i);
    ReplaceKidInOrder(tr, i, tr.kids[i]);
    assert ReplaceKid(tr, i, tr.kids[i]) == tr;
    Regroup(l, b, c, a, r);
  }

  lemma Regroup(l: seq<int>, b: seq<int>, c: seq<int>, a: seq<int>, r: seq<int>)
    ensures l + (b + c + a) + r == (l + b) + c + (a + r)
  {
  }

  /** The descent for k through s stands at the subtree cur of height h, between lo and hi. */
  ghost predicate Narrowed(t: nat, x: KbNode, cur: Tree, h: nat, k: int, s: seq<int>, lo: seq<int>, hi: seq<int>,
                           lower: Option<int>, upper: Option<int>)
    reads Footprint(cur)
  {
    && t >= 2 && x == cur.node && Balanced(t, cur, h) && Rep(t, cur) && Sorted(InOrder(cur))
    && (h > 0 ==> cur.keys != []) && Sorted(s)
    && (k in InOrder(cur) <==> k in s) && lo + InOrder(cur) + hi == s && GapEnds(lo, hi, k, lower, upper)
  }

  lemma NarrowedFirst(t: nat, x: KbNode, tree: Tree, h: nat, k: int)
    requires t >= 2 && Balanced(t, tree, h) && Rep(t, tree) && x == tree.node
    requires Sorted(InOrder(tree)) && (h > 0 ==> tree.keys != [])
    ensures Narrowed(t, x, tree, h, k, InOrder(tree), [], [], None, None)
  {
    hide InOrder, Balanced, Rep, Sorted;
    assert [] + InOrder(tree) + [] == InOrder(tree);
  }

  lemma NarrowedNode(t: nat, x: KbNode, cur: Tree, h: nat, k: int, s: seq<int>, lo: seq<int>, hi: seq<int>,
                     lower: Option<int>, upper: Option<int>)
    requires Narrowed(t, x, cur, h, k, s, lo, hi, lower, upper)
    ensures x in Footprint(cur) && x.n == |cur.keys| <= |x.keys| && x.keys[..x.n] == cur.keys && Sorted(cur.keys)
    ensures (x.isInternal <==> h > 0) && (h > 0 ==> cur.keys != [] && |cur.kids| == |cur.keys| + 1)
  {
    hide InOrder, Balanced, GapEnds;
    RepNode(t, cur);
    ImageShape(t, x, cur);
    SubtreeSorted(t, cur, h);
    LeafHeight(t, cur, h);
    BalancedParts(t, cur, h);
  }

  lemma NarrowedHit(t: nat, x: KbNode, cur: Tree, h: nat, k: int, s: seq<int>, lo: seq<int>, hi: seq<int>,
                    lower: Option<int>, upper: Option<int>, i: nat)
    requires Narrowed(t, x, cur, h, k, s, lo, hi, lower, upper) && i < |cur.keys| && cur.keys[i] == k
    ensures k in s
  {
    hide InOrder, Balanced, GapEnds;
    KeyIsIn(t, cur, h, i);
  }

  /** At a leaf the gap is tight. */
  lemma NarrowedLeaf(t: nat, x: KbNode, cur: Tree, h: nat, k: int, s: seq<int>, lo: seq<int>, hi: seq<int>,
                     lower: Option<int>, upper: Option<int>, i: int, r: int)
    requires Narrowed(t, x, cur, h, k, s, lo, hi, lower, upper) && h == 0
    requires if cur.keys == [] then i == -1 else FoundAt(cur.keys, k, i, r)
    requires !(i >= 0 && r == 0)
    ensures Neighbours(s, k, if i >= 0 then Some(cur.keys[i]) else lower,
                       if i < |cur.keys| - 1 then Some(cur.keys[i + 1]) else upper)
  {
    hide InOrder, GapEnds, Neighbours, FoundAt, Rep;
    LeafHeight(t, cur, h);
    LeafIs(cur);
    NotHit(cur.keys, k, i, r);
    LeafGap(cur.keys, lo, hi, k, lower, upper, i, r);
    GapNeighbours(lo + cur.keys[..i + 1], cur.keys[i + 1..] + hi, k, if i >= 0 then Some(cur.keys[i]) else lower,
                  if i < |cur.keys| - 1 then Some(cur.keys[i + 1]) else upper);
  }

  lemma NotHit(ks: seq<int>, k: int, i: int, r: int)
    requires if ks == [] then i == -1 else FoundAt(ks, k, i, r)
    requires !(i >= 0 && r == 0)
    ensures -1 <= i < |ks| && (ks != [] ==> r != 0)
  {
  }

  /** One level down. */
  lemma NarrowedBelow(t: nat, x: KbNode, cur: Tree, h: nat, k: int, s: seq<int>, lo: seq<int>, hi: seq<int>,
                      lower: Option<int>, upper: Option<int>, i: int, r: int)
    returns (lo': seq<int>, hi': seq<int>)
    requires Narrowed(t, x, cur, h, k, s, lo, hi, lower, upper) && h > 0
    requires FoundAt(cur.keys, k, i, r) && !(i >= 0 && r == 0)
    ensures -1 <= i < |cur.keys| == |cur.kids| - 1 && i + 1 < |x.ptr| && x.ptr[i + 1] == cur.kids[i + 1].node
    ensures Narrowed(t, cur.kids[i + 1].node, cur.kids[i + 1], h - 1, k, s, lo', hi',
                     if i >= 0 then Some(cur.keys[i]) else lower,
                     if i < |cur.keys| - 1 then Some(cur.keys[i + 1]) else upper)
  {
    hide InOrder, Balanced, GapEnds, StrictlyAround, Rep, Before, After, Sorted, FoundAt;
    NotHit(cur.keys, k, i, r);
    WhereKey(t, cur, h, k, i, r);
    Descend(t, x, cur, h, i + 1);
    KidBalanced(t, cur, h, i + 1);
    GapNarrows(cur, lo, hi, k, lower, upper, i + 1);
    lo' := lo + Before(cur.keys, Lists(cur.kids), i + 1);
    hi' := After(cur.keys, Lists(cur.kids), i + 1) + hi;
  }

  /** kb_intervalp. */
  method Interval(t: nat, root: KbNode, k: int, ghost tree: Tree, ghost height: nat, ghost repr: set<KbNode>)
    returns (lower: Option<int>, upper: Option<int>)
    requires Footprint(tree) == repr
    requires t >= 2 && Balanced(t, tree, height) && Rep(t, tree) && root == tree.node
    requires Sorted(InOrder(tree)) && (height > 0 ==> tree.keys != [])
    ensures Neighbours(InOrder(tree), k, lower, upper)
  {
    hide InOrder, Balanced, Rep, Sorted, Narrowed, FoundAt, Compared, GapEnds, Footprint;
    lower, upper := None, None;
    var x: KbNode? := root;
    var r := 0;
    ghost var s := InOrder(tree);
    ghost var cur, h := tree, height;
    ghost var lo: seq<int>, hi: seq<int> := [], [];
    NarrowedFirst(t, root, tree, height, k);
    while x != null
      invariant x != null && Narrowed(t, x, cur, h, k, s, lo, hi, lower, upper) && Footprint(cur) <= repr
      decreases h
    {
      NarrowedNode(t, x, cur, h, k, s, lo, hi, lower, upper);
      var i;
      i, r := GetpAux(x, k, r);
      assert Narrowed(t, x, cur, h, k, s, lo, hi, lower, upper);
      if i >= 0 && r == 0 {
        assert x.keys[i] == x.keys[..x.n][i];
        NarrowedHit(t, x, cur, h, k, s, lo, hi, lower, upper, i);
        lower := Some(x.keys[i]);
        upper := lower;
        return;
      }
      ghost var lower0, upper0 := lower, upper;
      assert forall j :: 0 <= j < x.n ==> x.keys[j] == cur.keys[j];
      if i >= 0 { lower := Some(x.keys[i]); }
      if i < x.n - 1 { upper := Some(x.keys[i + 1]); }
      if !x.isInternal {
        NarrowedLeaf(t, x, cur, h, k, s, lo, hi, lower0, upper0, i, r);
        return;
      }
      OwnsKid(cur, i + 1);
      lo, hi := NarrowedBelow(t, x, cur, h, k, s, lo, hi, lower0, upper0, i, r);
      x := x.ptr[i + 1];
      cur, h := cur.kids[i + 1], h - 1;
    }
  }

  lemma LeafGap(ks: seq<int>, l: seq<int>, r: seq<int>, k: int, lower: Option<int>, upper: Option<int>, i: int, c: int)
    requires GapEnds(l, r, k, lower, upper)
    requires if ks == [] then i == -1 else FoundAt(ks, k, i, c) && c != 0
    ensures l + ks + r == (l + ks[..i + 1]) + (ks[i + 1..] + r)
    ensures GapEnds(l + ks[..i + 1], ks[i + 1..] + r, k, if i >= 0 then Some(ks[i]) else lower,
                    if i < |ks| - 1 then Some(ks[i + 1]) else upper)
  {
  }
}
