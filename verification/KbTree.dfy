/** The B-tree of kbtree.h: insertion, deletion, lookup and the neighbours of a key. */
module KbTrees {
  import opened Options
  import opened KbTreeModel
  import opened KbTreeEdits
  import opened KbTreeOrder
  import opened KbTreePut
  import opened KbTreeDel
  import opened KbTreeSearch
  import Walk = KbTreeTraverse

  class KbTree {
    const t: nat
    var root: KbNode
    var nKeys: int
    ghost var tree: Tree
    ghost var height: nat
    ghost var repr: set<KbNode>

    /** Every B-tree invariant: uniform depth, occupancy, ordering, no sharing, and the key count. */
    ghost predicate Valid()
      reads this, repr
    {
      && Stands(t, root, tree, height, repr)
      && (height > 0 ==> tree.keys != [])
      && Sorted(InOrder(tree))
      && nKeys == |InOrder(tree)|
    }

    /** The keys in order. */
    ghost function Contents(): seq<int>
      reads this
    {
      InOrder(tree)
    }

    constructor (t: nat)
      requires t >= 2
      ensures Valid() && fresh(repr) && Contents() == [] && this.t == t && height == 0
    {
      hide Balanced, Separate, Rep, InOrder;
      var r := new KbNode(t, false);
      this.t := t;
      root := r;
      nKeys := 0;
      tree := Tree(r, [], []);
      height := 0;
      repr := {r};
      LeafSound(t, Tree(r, [], []));
    }

    /** The tree now stands for tr. */
    ghost method Becomes(tr: Tree, h: nat, fp: set<KbNode>)
      requires Stands(t, root, tr, h, fp) && (h > 0 ==> tr.keys != []) && Sorted(InOrder(tr)) && nKeys == |InOrder(tr)|
      modifies this`tree, this`height, this`repr
      ensures Valid() && tree == tr && height == h && repr == fp && Contents() == InOrder(tr)
    {
      hide Stands, InOrder, Sorted;
      tree, height, repr := tr, h, fp;
    }

    /** kb_putp. */
    method Put(k: int) returns (ghost p: nat)
      requires Valid()
      modifies this, repr
      ensures Valid() && fresh(repr - old(repr))
      ensures InsertedAt(old(Contents()), p, k, Contents())
      ensures multiset(Contents()) == multiset(old(Contents())) + multiset{k}
      ensures height == old(height) + if |old(tree).keys| == 2 * t - 1 then 1 else 0
    {
      hide Separate, Footprint, InOrder, Sound, InsertedAt, Sorted, Balanced, RepAll, Image;
      ghost var s := Contents();
      nKeys := nKeys + 1;
      var r := root;
      ghost var tr, h, fp := tree, height, repr;
      ImageBounds(t, r, tr);
      RootFacts(t, tr, h);
      if r.n == 2 * t - 1 {
        var z;
        r, tr, z := GrowRoot(t, r, tr, h, fp);
        root := r;
        h, fp := h + 1, fp + {r, z};
      }
      tr, fp, p := PutAux(t, r, k, tr, h, fp);
      InsertedSorted(s, p, k, InOrder(tr));
      Becomes(tr, h, fp);
    }

    /** kb_delp.  It removes the key if and only if the key is there.  Otherwise the largest smaller key goes in its
      * place, or the search ends before the first key of a leaf, and the next access is outside the node (None). */
    method Del(k: int) returns (ret: Option<int>, ghost p: nat)
      requires Valid()
      modifies this, repr
      ensures Takes(0, k, old(Contents()), p, ret, Contents())
      ensures ret == Some(k) <==> k in old(Contents())
      ensures ret.Some? ==> Valid() && repr <= old(repr) && old(height) - 1 <= height <= old(height)
      ensures ret.Some? ==> multiset(Contents()) == multiset(old(Contents())) - multiset{ret.value}
      ensures t > 0 && (k !in old(Contents()) ==>
                          (ret.None? <==> AllAbove(LeafReached(t, old(tree), old(height), k), k)))
      ensures old(height) == 0 ==> (ret.None? <==> AllAbove(old(Contents()), k))
    {
      hide Separate, Footprints, InOrder, Subtrees, Balanced, AllAbove, LeafReached, Entered;
      ghost var tr, fp, h, s := tree, repr, height, Contents();
      OneLeaf(t, tr, h, k);
      ret, tr, fp, p := DelAux(t, root, k, 0, tree, height, repr);
      tree, repr := tr, fp;
      if ret.None? { return; }
      nKeys := nKeys - 1;
      ImageBounds(t, root, tr);
      BalancedParts(t, tr, h);
      if root.n == 0 && root.isInternal {
        var x := root;
        DropRoot(t, tr, h);
        root := x.ptr[0];
        tr, h, fp := tr.kids[0], h - 1, Footprint(tr.kids[0]);
      }
      RemovedSorted(s, p, ret.value, InOrder(tr));
      Becomes(tr, h, fp);
    }

    /** kb_getp: a reference to a live cell holding the key, exactly when the key occurs. */
    method Get(k: int) returns (ref: KeyRef)
      requires Valid()
      ensures ref.KeyAt? <==> k in Contents()
      ensures ref.KeyAt? ==>
        ref.node in repr && ref.index < ref.node.n <= |ref.node.keys| && ref.node.keys[ref.index] == k
    {
      ref := KbTreeSearch.Get(t, root, k, tree, height, repr);
    }

    /** kb_intervalp: the key itself on both sides, or its tight predecessor and successor. */
    method Interval(k: int) returns (lower: Option<int>, upper: Option<int>)
      requires Valid()
      ensures Neighbours(Contents(), k, lower, upper)
    {
      lower, upper := KbTreeSearch.Interval(t, root, k, tree, height, repr);
    }

    /** __kb_traverse: every key once, in order. */
    method Traverse() returns (visited: seq<int>)
      requires Valid()
      ensures visited == Contents() && |visited| == nKeys && Sorted(visited)
    {
      visited := Walk.Traverse(t, root, tree, height, repr);
    }
  }

  /** A larger key put into a tree of one node that is not full. */
  method PutBehind(b: KbTree, k: int)
    requires b.Valid() && b.height == 0 && |b.Contents()| < 2 * b.t - 1
    requires forall j :: 0 <= j < |b.Contents()| ==> b.Contents()[j] < k
    modifies b, b.repr
    ensures b.Valid() && fresh(b.repr - old(b.repr)) && b.height == 0 && b.Contents() == old(b.Contents()) + [k]
  {
    hide KbTree.Valid, KbTree.Contents, InsertedAt;
    RootIsAll(b);
    ghost var s := b.Contents();
    ghost var p := b.Put(k);
    InsertedBehind(s, p, k, b.Contents());
  }

  /** kb_delp of a key between the two that are there. */
  method DelBetween(b: KbTree) returns (taken: Option<int>)
    requires b.Valid() && b.height == 0 && b.Contents() == [1, 3]
    modifies b, b.repr
    ensures taken == Some(1) && b.Valid() && b.repr <= old(b.repr) && b.height == 0 && b.Contents() == [3]
  {
    hide KbTree.Valid, KbTree.Contents, Takes;
    assert b.Contents()[0] == 1;
    ghost var p;
    taken, p := b.Del(2);
    TakenNext(p, taken, b.Contents());
  }

  /** kb_delp of keys that are not there: of 1 and 3, asking for 2 costs 1 its place, and asking for 0 then reads
    * before the first key. */
  method DelAbsent() returns (taken: Option<int>, left: seq<int>, outside: Option<int>)
    ensures taken == Some(1) && left == [3] && outside == None
  {
    hide KbTree.Valid, KbTree.Contents, Takes, Sorted;
    var b := new KbTree(2);
    PutBehind(b, 1);
    PutBehind(b, 3);
    assert b.Contents() == [1, 3];
    taken := DelBetween(b);
    left := b.Traverse();
    ghost var p;
    outside, p := b.Del(0);
  }

  /** In a tree of one node, that is the node. */
  lemma OneLeaf(t: nat, tr: Tree, h: nat, k: int)
    requires Balanced(t, tr, h) && t > 0
    ensures h == 0 ==> LeafReached(t, tr, h, k) == InOrder(tr)
    ensures k in InOrder(tr) ==> !AllAbove(InOrder(tr), k)
  {
    hide Entered;
  }

  lemma InsertedBehind(s: seq<int>, p: nat, k: int, s': seq<int>)
    requires InsertedAt(s, p, k, s') && forall j :: 0 <= j < |s| ==> s[j] < k
    ensures s' == s + [k]
  {
  }

  lemma TakenNext(p: nat, kp: Option<int>, after: seq<int>)
    requires Takes(0, 2, [1, 3], p, kp, after) && kp.Some?
    ensures kp == Some(1) && after == [3]
  {
    assert p == 0 || p == 1;
  }

  lemma RootIsAll(b: KbTree)
    requires b.Valid() && b.height == 0
    ensures b.tree.keys == b.Contents()
  {
  }

  /** A full root becomes the only child of a new root and is split. */
  method GrowRoot(t: nat, r: KbNode, ghost tr: Tree, ghost h: nat, ghost repr: set<KbNode>)
    returns (s: KbNode, ghost tr': Tree, z: KbNode)
    requires Stands(t, r, tr, h, repr) && |tr.keys| == 2 * t - 1
    modifies r
    ensures fresh(s) && fresh(z) && Stands(t, s, tr', h + 1, repr + {s, z})
    ensures |tr'.keys| == 1 && InOrder(tr') == InOrder(tr)
  {
    hide Separate, Footprints, InOrder, Subtrees, Balanced;
    s := new KbNode(t, true);
    s.ptr := s.ptr[0 := r];
    ghost var top := Tree(s, [], [tr]);
    NewRootSound(t, tr, h, s);
    OpenRoot(t, tr);
    assert NodeHolds(t, top);
    assert NodeHolds(t, tr);
    z := Split(t, s, 0, r, top);
    assert z !in Footprint(top);
    assert RepAll(t, tr.kids);
    assert Around(top, 0) == tr.kids;
    SplitRep(t, top, 0, z);
    SplitChildSound(t, top, h + 1, 0, z);
    tr' := SplitChild(t, top, 0, z);
  }

  lemma RootFacts(t: nat, tr: Tree, h: nat)
    requires Sound(t, tr, h)
    ensures tr.node in Footprint(tr) && |tr.keys| <= 2 * t - 1 && t >= 2
  {
  }

  lemma OpenRoot(t: nat, tr: Tree)
    requires Separate(tr) && Rep(t, tr)
    ensures NodeHolds(t, tr) && RepAll(t, tr.kids) && tr.node !in Footprints(tr.kids)
    ensures Footprints(tr.kids) <= Footprint(tr)
  {
  }

  lemma NewRootSound(t: nat, tr: Tree, h: nat, s: KbNode)
    requires Sound(t, tr, h) && |tr.keys| == 2 * t - 1 && s !in Footprint(tr)
    ensures Sound(t, Tree(s, [], [tr]), h + 1)
    ensures Footprint(Tree(s, [], [tr])) == Footprint(tr) + {s}
    ensures InOrder(Tree(s, [], [tr])) == InOrder(tr)
  {
    Single(tr);
  }

  /** A root left without keys stands for its one child. */
  lemma DropRoot(t: nat, tr: Tree, h: nat)
    requires Sound(t, tr, h) && h > 0 && tr.keys == [] && Rep(t, tr)
    ensures |tr.kids| == 1 && Sound(t, tr.kids[0], h - 1) && Rep(t, tr.kids[0])
    ensures Footprint(tr.kids[0]) <= Footprint(tr) && InOrder(tr.kids[0]) == InOrder(tr)
    ensures |tr.kids[0].keys| >= 1 && tr.node.ptr != [] && tr.node.ptr[0] == tr.kids[0].node
  {
    assert InOrder(tr) == InOrder(tr.kids[0]);
    hide InOrder, Separate, Balanced, Footprints, Subtrees;
    BalancedParts(t, tr, h);
    KidBalanced(t, tr, h, 0);
    OpenOthers(t, tr, 0);
    OpenOthersRep(t, tr, 0);
    ImageBounds(t, tr.node, tr);
  }
}
