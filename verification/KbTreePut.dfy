/** kbtree.h: search within a node, __kb_split, and insertion. */
module KbTreePut {
  import opened KbTreeModel
  import opened KbTreeEdits
  import opened KbTreeOrder

  /** Binary search in the live keys of one node.  `r` is passed through when the node is empty. */
  method GetpAux(x: KbNode, k: int, r0: int) returns (i: int, r: int)
    requires x.n <= |x.keys| && Sorted(x.keys[..x.n])
    ensures -1 <= i < x.n && (i >= 0 && r == 0 ==> x.keys[i] == k)
    ensures x.n == 0 ==> r == r0
    ensures x.n > 0 ==> FoundAt(x.keys[..x.n], k, i, r) && Compared(x.keys[..x.n], k, i, r)
  {
    if x.n == 0 { return -1, r0; }
    var begin, end := 0, x.n;
    while begin < end
      invariant 0 <= begin <= end <= x.n
      invariant forall j :: 0 <= j < begin ==> x.keys[..x.n][j] < k
      invariant forall j :: end <= j < x.n ==> k <= x.keys[..x.n][j]
    {
      var mid := (begin + end) / 2;
      assert x.keys[..x.n][mid] == x.keys[mid];
      if Cmp(x.keys[mid], k) < 0 { begin := mid + 1; } else { end := mid; }
    }
    if begin == x.n { return x.n - 1, 1; }
    assert x.keys[..x.n][begin] == x.keys[begin];
    i, r := begin, Cmp(k, x.keys[begin]);
    if r < 0 { i := i - 1; }
  }

  /** The parent's buffers after a split. */
  lemma SplitParentImage(t: nat, n: nat, keys: seq<int>, ptr: seq<KbNode?>, tr: Tree, i: nat, z: KbNode)
    requires t >= 2 && Image(t, true, n, keys, ptr, tr)
    requires i < |tr.kids| && n < 2 * t - 1 && |tr.kids[i].keys| == 2 * t - 1
    ensures Image(t, true, n + 1,
                  MemMove(keys, i + 1, i, n - i)[i := tr.kids[i].keys[t - 1]],
                  MemMove(ptr, i + 2, i + 1, n - i)[i + 1 := z], SplitChild(t, tr, i, z))
  {
    var r := SplitChild(t, tr, i, z);
    forall j | 0 <= j < |r.kids|
      ensures MemMove(ptr, i + 2, i + 1, n - i)[i + 1 := z][j] == r.kids[j].node
    {
      if j > i + 1 { assert r.kids[j] == tr.kids[j - 1]; }
    }
  }

  /** The two halves of the split child. */
  lemma SplitHalvesImage(t: nat, internal: bool, keys: seq<int>, ptr: seq<KbNode?>, y: Tree, zk: seq<int>,
                         zp: seq<KbNode?>, z: KbNode)
    requires t >= 2 && Image(t, internal, 2 * t - 1, keys, ptr, y)
    requires |zk| == 2 * t - 1 && (internal ==> |zp| == 2 * t)
    ensures Image(t, internal, t - 1, keys, ptr, Tree(y.node, y.keys[..t - 1], Take(y.kids, t)))
    ensures Image(t, internal, t - 1, CopyInto(zk, 0, keys, t, t - 1),
                  if internal then CopyInto(zp, 0, ptr, t, t) else zp, Tree(z, y.keys[t..], Drop(y.kids, t)))
  {
  }

  lemma ImageShape(t: nat, x: KbNode, tr: Tree)
    requires NodeHolds(t, tr) && x == tr.node
    ensures x.n == |tr.keys| <= |x.keys| == 2 * t - 1 && x.keys[..x.n] == tr.keys && x.isInternal == (tr.kids != [])
    ensures x.isInternal ==> |x.ptr| == 2 * t && |tr.kids| == x.n + 1
  {
  }

  /** A new node with the upper half of y. */
  method UpperHalf(t: nat, y: KbNode, ghost a: Tree) returns (z: KbNode)
    requires t >= 2 && NodeHolds(t, a) && y == a.node && |a.keys| == 2 * t - 1
    ensures fresh(z) && NodeHolds(t, Tree(z, a.keys[t..], Drop(a.kids, t)))
  {
    hide Image;
    ImageShape(t, y, a);
    z := new KbNode(t, y.isInternal);
    ghost var zk, zp := z.keys, z.ptr;
    z.n := t - 1;
    z.keys := CopyInto(z.keys, 0, y.keys, t, t - 1);
    if y.isInternal { z.ptr := CopyInto(z.ptr, 0, y.ptr, t, t); }
    SplitHalvesImage(t, y.isInternal, y.keys, y.ptr, a, zk, zp, z);
  }

  /** y cut down to its lower half. */
  method LowerHalf(t: nat, y: KbNode, ghost a: Tree)
    requires t >= 2 && NodeHolds(t, a) && y == a.node && |a.keys| == 2 * t - 1
    modifies y
    ensures NodeHolds(t, Tree(y, a.keys[..t - 1], Take(a.kids, t))) && y.keys == old(y.keys)
    ensures |y.keys| == 2 * t - 1 && y.keys[t - 1] == a.keys[t - 1]
  {
    hide Image;
    ImageShape(t, y, a);
    assert y.keys[..y.n][t - 1] == y.keys[t - 1];
    y.n := t - 1;
    SplitHalvesImage(t, y.isInternal, y.keys, y.ptr, a, y.keys, y.ptr, y);
  }

  /** __kb_split: full child y = ptr[i] of x gives its upper half to a new node and its median to x. */
  method Split(t: nat, x: KbNode, i: nat, y: KbNode, ghost tr: Tree) returns (z: KbNode)
    requires t >= 2 && i < |tr.kids| && |tr.kids[i].keys| == 2 * t - 1 && |tr.keys| < 2 * t - 1
    requires NodeHolds(t, tr) && NodeHolds(t, tr.kids[i])
    requires x == tr.node && y == tr.kids[i].node && x != y
    modifies x, y
    ensures fresh(z) && |tr.kids| == |tr.keys| + 1
    ensures var r := SplitChild(t, tr, i, z);
      NodeHolds(t, r) && NodeHolds(t, r.kids[i]) && NodeHolds(t, r.kids[i + 1])
  {
    hide Image, MemMove;
    ImageShape(t, x, tr);
    z := UpperHalf(t, y, tr.kids[i]);
    LowerHalf(t, y, tr.kids[i]);
    SplitParentImage(t, x.n, x.keys, x.ptr, tr, i, z);
    x.ptr := MemMove(x.ptr, i + 2, i + 1, x.n - i);
    x.ptr := x.ptr[i + 1 := z];
    x.keys := MemMove(x.keys, i + 1, i, x.n - i);
    x.keys := x.keys[i := y.keys[t - 1]];
    x.n := x.n + 1;
  }

  lemma SplitRep(t: nat, tr: Tree, i: nat, z: KbNode)
    requires i < |tr.kids| == |tr.keys| + 1 && 1 <= t <= |tr.kids[i].keys| && RepAll(t, Around(tr, i))
    requires var r := SplitChild(t, tr, i, z);
      NodeHolds(t, r) && NodeHolds(t, r.kids[i]) && NodeHolds(t, r.kids[i + 1])
    ensures Rep(t, SplitChild(t, tr, i, z))
  {
    var r := SplitChild(t, tr, i, z);
    var a, b, pre, post := r.kids[i], r.kids[i + 1], tr.kids[..i], tr.kids[i + 1..];
    SplitChildJoin(t, tr, i, z);
    RepAllConcat(t, pre, post);
    RepAllConcat(t, pre + post, tr.kids[i].kids);
    RepAllConcat(t, a.kids, b.kids);
    RepSingle(t, a);
    RepSingle(t, b);
    RepAllConcat(t, pre, [a, b]);
    RepAllConcat(t, [a], [b]);
    assert [a] + [b] == [a, b];
    RepAllConcat(t, pre + [a, b], post);
  }

  lemma SubtreeSorted(t: nat, tr: Tree, h: nat)
    requires Balanced(t, tr, h) && Sorted(InOrder(tr))
    ensures Sorted(tr.keys)
  {
    if tr.kids != [] { KeysSorted(tr.keys, Lists(tr.kids)); }
  }

  lemma LeafSound(t: nat, tr: Tree)
    requires t >= 2 && tr.kids == [] && |tr.keys| <= 2 * t - 1
    ensures InOrder(tr) == tr.keys && Sound(t, tr, 0) && Footprint(tr) == {tr.node}
    ensures Rep(t, tr) <==> NodeHolds(t, tr)
  {
  }

  lemma LeafInsertImage(t: nat, n: nat, keys: seq<int>, ptr: seq<KbNode?>, tr: Tree, p: nat, k: int)
    requires t >= 2 && Image(t, false, n, keys, ptr, tr) && p <= n < 2 * t - 1
    ensures Image(t, false, n + 1, MemMove(keys, p + 1, p, n - p)[p := k], ptr,
                  tr.(keys := tr.keys[..p] + [k] + tr.keys[p..]))
  {
  }

  /** Skipping the move of no keys changes nothing. */
  lemma MovedUp(s: seq<int>, n: nat, i: int, s': seq<int>)
    requires -1 <= i < n < |s| || i == -1 == n - 1 < |s| - 1
    requires s' == if i != n - 1 then MemMove(s, i + 2, i + 1, n - i - 1) else s
    ensures s' == MemMove(s, i + 2, i + 1, n - i - 1)
  {
  }

  /** Key k stored behind key i of a leaf. */
  method InsertIntoLeaf(t: nat, x: KbNode, i: int, k: int, ghost tr: Tree)
    requires t >= 2 && NodeHolds(t, tr) && x == tr.node && tr.kids == []
    requires -1 <= i < |tr.keys| < 2 * t - 1
    modifies x
    ensures NodeHolds(t, tr.(keys := tr.keys[..i + 1] + [k] + tr.keys[i + 1..]))
  {
    hide Image, MemMove;
    ImageShape(t, x, tr);
    LeafInsertImage(t, x.n, x.keys, x.ptr, tr, i + 1, k);
    if i != x.n - 1 {
      x.keys := MemMove(x.keys, i + 2, i + 1, x.n - i - 1);
    }
    MovedUp(old(x.keys), x.n, i, x.keys);
    x.keys := x.keys[i + 1 := k];
    x.n := x.n + 1;
  }

  /** The key of a leaf behind which k goes. */
  method LeafSlot(x: KbNode, k: int, ghost ks: seq<int>) returns (i: int)
    requires x.n == |ks| <= |x.keys| && x.keys[..x.n] == ks && Sorted(ks)
    ensures -1 <= i < |ks| && InsertedAt(ks, i + 1, k, ks[..i + 1] + [k] + ks[i + 1..])
  {
    hide Sorted, InsertedAt, Compared;
    var r;
    i, r := GetpAux(x, k, 0);
    LeafPosition(x.keys[..x.n], k, i, r);
  }

  /** The leaf case of __kb_putp_aux. */
  method PutLeaf(t: nat, x: KbNode, k: int, ghost tr: Tree) returns (ghost tr': Tree, ghost p: nat)
    requires t >= 2 && NodeHolds(t, tr) && x == tr.node && tr.kids == [] && |tr.keys| < 2 * t - 1 && Sorted(tr.keys)
    modifies x
    ensures NodeHolds(t, tr') && tr'.node == x && tr'.kids == [] && |tr'.keys| == |tr.keys| + 1
    ensures InsertedAt(tr.keys, p, k, tr'.keys)
  {
    hide Image, Sorted, InsertedAt;
    ImageShape(t, x, tr);
    var i := LeafSlot(x, k, tr.keys);
    InsertIntoLeaf(t, x, i, k, tr);
    p := i + 1;
    tr' := tr.(keys := tr.keys[..i + 1] + [k] + tr.keys[i + 1..]);
  }

  lemma LeafPosition(ks: seq<int>, k: int, i: int, r: int)
    requires Sorted(ks) && (if ks == [] then i == -1 else FoundAt(ks, k, i, r))
    ensures -1 <= i < |ks| && InsertedAt(ks, i + 1, k, ks[..i + 1] + [k] + ks[i + 1..])
  {
  }

  /** k belongs into child i. */
  predicate Belongs(ks: seq<int>, i: nat, k: int) {
    i <= |ks| && (i > 0 ==> ks[i - 1] <= k) && (i < |ks| ==> k <= ks[i])
  }

  lemma BelongsFound(ks: seq<int>, k: int, i: int, r: int)
    requires Sorted(ks) && FoundAt(ks, k, i, r)
    ensures i + 1 >= 0 && Belongs(ks, i + 1, k)
  {
  }

  /** Once child i has been split around m. */
  lemma BelongsSplit(ks: seq<int>, i: nat, k: int, m: int)
    requires Belongs(ks, i, k)
    ensures var ks' := ks[..i] + [m] + ks[i..];
      |ks'| == |ks| + 1 && ks'[i] == m && Belongs(ks', if k > m then i + 1 else i, k)
  {
  }

  /** Before the descent into child i: a full child is split, and k goes into one of the halves. */
  method MakeRoom(t: nat, x: KbNode, i: nat, k: int, ghost tr: Tree, ghost h: nat, ghost repr: set<KbNode>)
    returns (i': nat, ghost tr': Tree, ghost repr': set<KbNode>)
    requires Sound(t, tr, h) && Rep(t, tr) && x == tr.node && repr == Footprint(tr) && h > 0
    requires |tr.kids| == |tr.keys| + 1 && |tr.keys| < 2 * t - 1 && Belongs(tr.keys, i, k)
    modifies repr
    ensures Sound(t, tr', h) && Rep(t, tr') && x == tr'.node && |tr.keys| <= |tr'.keys|
    ensures repr' == Footprint(tr') && repr <= repr' && fresh(repr' - repr) && InOrder(tr') == InOrder(tr)
    ensures i' < |tr'.kids| == |tr'.keys| + 1 && Belongs(tr'.keys, i', k) && |tr'.kids[i'].keys| < 2 * t - 1
  {
    hide Separate, Footprints, Subtrees, InOrder, Balanced, Belongs, SplitChild;
    i', tr', repr' := i, tr, repr;
    BelongsIndex(tr.keys, i, k);
    RoomFacts(t, x, tr, h, i);
    if x.ptr[i].n == 2 * t - 1 {
      OpenKid(t, tr, i);
      OpenKidRep(t, tr, i);
      var z := Split(t, x, i, x.ptr[i], tr);
      assert RepAll(t, Around(tr, i));
      SplitRep(t, tr, i, z);
      SplitChildSound(t, tr, h, i, z);
      tr', repr' := SplitChild(t, tr, i, z), repr + {z};
      SplitParts(t, tr, i, z);
      BelongsSplit(tr.keys, i, k, tr.kids[i].keys[t - 1]);
      ImageShape(t, x, tr');
      assert x.keys[i] == x.keys[..x.n][i];
      if Cmp(k, x.keys[i]) > 0 { i' := i + 1; }
    }
  }

  lemma BelongsIndex(ks: seq<int>, i: nat, k: int)
    requires Belongs(ks, i, k)
    ensures i <= |ks|
  {
  }

  /** What the fields say about child i. */
  lemma RoomFacts(t: nat, x: KbNode, tr: Tree, h: nat, i: nat)
    requires Sound(t, tr, h) && Rep(t, tr) && x == tr.node && h > 0 && i < |tr.kids| == |tr.keys| + 1
    ensures |x.ptr| == 2 * t > i && x.ptr[i] == tr.kids[i].node && x.ptr[i].n == |tr.kids[i].keys| <= 2 * t - 1
  {
    hide Separate, Footprints, Subtrees, InOrder;
    OpenKid(t, tr, i);
    OpenKidRep(t, tr, i);
    ImageShape(t, x, tr);
    ImageShape(t, tr.kids[i].node, tr.kids[i]);
  }

  lemma SplitParts(t: nat, tr: Tree, i: nat, z: KbNode)
    requires i < |tr.kids| == |tr.keys| + 1 && |tr.kids[i].keys| == 2 * t - 1 && t >= 2
    ensures var r := SplitChild(t, tr, i, z);
      && r.keys == tr.keys[..i] + [tr.kids[i].keys[t - 1]] + tr.keys[i..] && |r.kids| == |r.keys| + 1
      && |r.kids[i].keys| == |r.kids[i + 1].keys| == t - 1 && r.node == tr.node
  {
  }

  /** __kb_putp_aux: insertion below a node that is not full. */
  method PutAux(t: nat, x: KbNode, k: int, ghost tr: Tree, ghost h: nat, ghost repr: set<KbNode>)
    returns (ghost tr': Tree, ghost repr': set<KbNode>, ghost p: nat)
    requires Sound(t, tr, h) && Rep(t, tr) && x == tr.node && repr == Footprint(tr)
    requires |tr.keys| < 2 * t - 1 && (h > 0 ==> |tr.keys| > 0) && Sorted(InOrder(tr))
    modifies repr
    ensures Sound(t, tr', h) && Rep(t, tr') && x == tr'.node && |tr.keys| <= |tr'.keys|
    ensures repr' == Footprint(tr') && fresh(repr' - repr)
    ensures InsertedAt(InOrder(tr), p, k, InOrder(tr'))
    decreases h, 1
  {
    hide Separate, Footprints, Subtrees, InOrder, Sorted, FoundAt, Compared, Belongs, InsertedAt;
    SubtreeSorted(t, tr, h);
    ImageShape(t, x, tr);
    if !x.isInternal {
      LeafSound(t, tr);
      tr', p := PutLeaf(t, x, k, tr);
      LeafSound(t, tr');
      repr' := repr;
    } else {
      var i, r := GetpAux(x, k, 0);
      BelongsFound(tr.keys, k, i, r);
      var i1;
      ghost var tr1, repr1;
      i1, tr1, repr1 := MakeRoom(t, x, i + 1, k, tr, h, repr);
      tr', repr', p := PutBelow(t, x, i1, k, tr1, h, repr1);
    }
  }

  method PutBelow(t: nat, x: KbNode, i: nat, k: int, ghost tr: Tree, ghost h: nat, ghost repr: set<KbNode>)
    returns (ghost tr': Tree, ghost repr': set<KbNode>, ghost p: nat)
    requires Sound(t, tr, h) && Rep(t, tr) && x == tr.node && repr == Footprint(tr)
    requires i < |tr.kids| == |tr.keys| + 1 && |tr.kids[i].keys| < 2 * t - 1 && Sorted(InOrder(tr)) && h > 0
    requires Belongs(tr.keys, i, k)
    modifies repr
    ensures Sound(t, tr', h) && Rep(t, tr') && x == tr'.node && |tr.keys| <= |tr'.keys|
    ensures repr' == Footprint(tr') && fresh(repr' - repr)
    ensures InsertedAt(InOrder(tr), p, k, InOrder(tr'))
    decreases h, 0
  {
    hide Separate, Footprints, Subtrees, InOrder, Balanced;
    KidBalanced(t, tr, h, i);
    OpenOthers(t, tr, i);
    OpenOthersRep(t, tr, i);
    ghost var c := tr.kids[i];
    KidRange(tr, i);
    ghost var c', rc;
    assert x.ptr[i] == c.node;
    c', rc, p := PutAux(t, x.ptr[i], k, c, h - 1, Footprint(c));
    tr' := ReplaceKid(tr, i, c');
    assert RepAll(t, Others(tr, i));
    ReplaceKidRep(t, tr, i, c');
    ReplaceKidSound(t, tr, h, i, c', rc - repr);
    repr' := Footprint(tr');
    ghost var l, r := Before(tr.keys, Lists(tr.kids), i), After(tr.keys, Lists(tr.kids), i);
    ReplaceKidInOrder(tr, i, c');
    InsertedInside(l, InOrder(c), r, p, k, InOrder(c'));
    p := |l| + p;
  }
}
