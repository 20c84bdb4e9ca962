/** kbtree.h: deletion, borrowing or merging on the way down. */
module KbTreeDel {
  import opened Options
  import opened KbTreeModel
  import opened KbTreeEdits
  import opened KbTreeOrder
  import opened KbTreePut

  // ---------- the three rearrangements of two siblings ----------

  /** The pair after the left sibling's last key has moved up and the separator down to the right. */
  function LendRight(a: Tree, m: int, b: Tree): (Tree, int, Tree)
    requires a.keys != []
  {
    (Tree(a.node, a.keys[..|a.keys| - 1], if a.kids == [] then [] else a.kids[..|a.kids| - 1]),
     a.keys[|a.keys| - 1],
     Tree(b.node, [m] + b.keys, (if a.kids == [] then [] else [a.kids[|a.kids| - 1]]) + b.kids))
  }

  /** The mirror image: the right sibling's first key moves up, the separator down to the left. */
  function LendLeft(a: Tree, m: int, b: Tree): (Tree, int, Tree)
    requires b.keys != []
  {
    (Tree(a.node, a.keys + [m], a.kids + if b.kids == [] then [] else [b.kids[0]]),
     b.keys[0],
     Tree(b.node, b.keys[1..], if b.kids == [] then [] else b.kids[1..]))
  }

  /** Children fit to stand below a node of height h+1. */
  predicate KidsFit(t: nat, kids: seq<Tree>, h: nat) {
    forall j :: 0 <= j < |kids| ==> t - 1 <= |kids[j].keys| && Balanced(t, kids[j], h)
  }

  lemma BalancedParts(t: nat, tr: Tree, h: nat)
    ensures Balanced(t, tr, h) <==>
      && |tr.keys| <= 2 * t - 1
      && (if h == 0 then tr.kids == [] else |tr.kids| == |tr.keys| + 1 && KidsFit(t, tr.kids, h - 1))
  {
  }

  lemma LendRightJoin(a: Tree, m: int, b: Tree)
    requires a.keys != []
    ensures var (a', m', b') := LendRight(a, m, b); Join(a', m', b') == Join(a, m, b)
  {
    var (a', m', b') := LendRight(a, m, b);
    assert a.keys == a'.keys + [m'];
    assert a'.keys + [m'] + b'.keys == a.keys + [m] + b.keys;
    assert a.kids != [] ==> a.kids == a'.kids + [a.kids[|a.kids| - 1]];
    assert a'.kids + b'.kids == a.kids + b.kids;
  }

  lemma LendLeftJoin(a: Tree, m: int, b: Tree)
    requires b.keys != []
    ensures var (a', m', b') := LendLeft(a, m, b); Join(a', m', b') == Join(a, m, b)
  {
    var (a', m', b') := LendLeft(a, m, b);
    assert b.keys == [m'] + b'.keys;
    assert a'.keys + [m'] + b'.keys == a.keys + [m] + b.keys;
    assert b.kids != [] ==> b.kids == [b.kids[0]] + b'.kids;
    assert a'.kids + b'.kids == a.kids + b.kids;
  }

  lemma KidsFitConcat(t: nat, a: seq<Tree>, b: seq<Tree>, h: nat)
    ensures KidsFit(t, a + b, h) <==> KidsFit(t, a, h) && KidsFit(t, b, h)
  {
    var c := a + b;
    assert forall j :: 0 <= j < |a| ==> c[j] == a[j];
    assert forall j :: 0 <= j < |b| ==> c[|a| + j] == b[j];
  }

  lemma BalancedFrom(t: nat, tr: Tree, h: nat)
    requires |tr.keys| <= 2 * t - 1
    requires if h == 0 then tr.kids == [] else |tr.kids| == |tr.keys| + 1 && KidsFit(t, tr.kids, h - 1)
    ensures Balanced(t, tr, h)
  {
  }

  lemma LendRightShape(t: nat, a: Tree, m: int, b: Tree, h: nat)
    requires t >= 2 && Balanced(t, a, h) && Balanced(t, b, h) && |a.keys| >= t && |b.keys| < 2 * t - 1
    ensures Balanced(t, LendRight(a, m, b).0, h) && Balanced(t, LendRight(a, m, b).2, h)
  {
    hide Balanced, KidsFit;
    var (a', m', b') := LendRight(a, m, b);
    BalancedParts(t, a, h);
    BalancedParts(t, b, h);
    if h > 0 {
      var last := [a.kids[|a.kids| - 1]];
      assert a.kids == a'.kids + last && b'.kids == last + b.kids;
      KidsFitConcat(t, a'.kids, last, h - 1);
      KidsFitConcat(t, last, b.kids, h - 1);
    }
    BalancedFrom(t, a', h);
    BalancedFrom(t, b', h);
  }

  lemma LendLeftShape(t: nat, a: Tree, m: int, b: Tree, h: nat)
    requires t >= 2 && Balanced(t, a, h) && Balanced(t, b, h) && |b.keys| >= t && |a.keys| < 2 * t - 1
    ensures Balanced(t, LendLeft(a, m, b).0, h) && Balanced(t, LendLeft(a, m, b).2, h)
  {
    hide Balanced, KidsFit;
    var (a', m', b') := LendLeft(a, m, b);
    BalancedParts(t, a, h);
    BalancedParts(t, b, h);
    if h > 0 {
      var first := [b.kids[0]];
      assert b.kids == first + b'.kids && a'.kids == a.kids + first;
      KidsFitConcat(t, first, b'.kids, h - 1);
      KidsFitConcat(t, a.kids, first, h - 1);
    }
    BalancedFrom(t, a', h);
    BalancedFrom(t, b', h);
  }

  // ---------- the same on the nodes' buffers ----------

  lemma ImageBounds(t: nat, x: KbNode, tr: Tree)
    requires NodeHolds(t, tr) && x == tr.node
    ensures x.n == |tr.keys| <= |x.keys| == 2 * t - 1 && x.isInternal == (tr.kids != [])
    ensures forall j :: 0 <= j < x.n ==> x.keys[j] == tr.keys[j]
    ensures x.isInternal ==> |x.ptr| == 2 * t && |tr.kids| == x.n + 1
    ensures x.isInternal ==> forall j :: 0 <= j <= x.n ==> x.ptr[j] == tr.kids[j].node
  {
    assert x.keys[..x.n] == tr.keys;
  }

  /** Key m, with child pointer p before it, put in front of the node's keys. */
  method PushFront(t: nat, x: KbNode, m: int, p: KbNode?, ghost b: Tree, ghost c: seq<Tree>)
    requires NodeHolds(t, b) && x == b.node && |b.keys| < 2 * t - 1
    requires if b.kids != [] then |c| == 1 && p == c[0].node else c == []
    modifies x
    ensures NodeHolds(t, Tree(x, [m] + b.keys, c + b.kids))
  {
    x.keys := MemMove(x.keys, 1, 0, x.n);
    if x.isInternal { x.ptr := MemMove(x.ptr, 1, 0, x.n + 1); }
    x.keys := x.keys[0 := m];
    if x.isInternal { x.ptr := x.ptr[0 := p]; }
    x.n := x.n + 1;
  }

  /** Key m, with child pointer p after it, put behind the node's keys. */
  method PushBack(t: nat, x: KbNode, m: int, p: KbNode?, ghost a: Tree, ghost c: seq<Tree>)
    requires NodeHolds(t, a) && x == a.node && |a.keys| < 2 * t - 1
    requires if a.kids != [] then |c| == 1 && p == c[0].node else c == []
    modifies x
    ensures NodeHolds(t, Tree(x, a.keys + [m], a.kids + c))
  {
    x.keys := x.keys[x.n := m];
    x.n := x.n + 1;
    if x.isInternal { x.ptr := x.ptr[x.n := p]; }
  }

  method PopFront(t: nat, x: KbNode, ghost b: Tree)
    requires NodeHolds(t, b) && x == b.node && |b.keys| > 1
    modifies x
    ensures NodeHolds(t, Tree(x, b.keys[1..], if b.kids == [] then [] else b.kids[1..]))
  {
    x.n := x.n - 1;
    x.keys := MemMove(x.keys, 0, 1, x.n);
    if x.isInternal { x.ptr := MemMove(x.ptr, 0, 1, x.n + 1); }
  }

  method PopBack(t: nat, x: KbNode, ghost a: Tree)
    requires NodeHolds(t, a) && x == a.node && |a.keys| > 1
    modifies x
    ensures NodeHolds(t, Tree(x, a.keys[..|a.keys| - 1], if a.kids == [] then [] else a.kids[..|a.kids| - 1]))
  {
    x.n := x.n - 1;
  }

  /** Separator i rewritten, its two children having been rearranged. */
  method SetSeparator(t: nat, x: KbNode, i: nat, m: int, ghost tr: Tree, ghost a: Tree, ghost b: Tree)
    requires NodeHolds(t, tr) && x == tr.node && i < |tr.keys| && |tr.kids| == |tr.keys| + 1
    requires a.node == tr.kids[i].node && b.node == tr.kids[i + 1].node
    modifies x
    ensures NodeHolds(t, ReplacePair(tr, i, a, m, b))
  {
    x.keys := x.keys[i := m];
  }

  /** Key m and everything in z put behind the keys of y. */
  method Append(t: nat, y: KbNode, m: int, z: KbNode, ghost a: Tree, ghost b: Tree)
    requires NodeHolds(t, a) && NodeHolds(t, b) && y == a.node && z == b.node && y != z
    requires |a.keys| + |b.keys| < 2 * t - 1 && (a.kids == [] <==> b.kids == [])
    modifies y
    ensures NodeHolds(t, Join(a, m, b))
  {
    hide Image, CopyInto;
    ImageBounds(t, y, a);
    ImageBounds(t, z, b);
    AppendImage(t, y.isInternal, y.keys, y.ptr, a, m, z.keys, z.ptr, b);
    y.keys := y.keys[y.n := m];
    y.n := y.n + 1;
    y.keys := CopyInto(y.keys, y.n, z.keys, 0, z.n);
    if y.isInternal { y.ptr := CopyInto(y.ptr, y.n, z.ptr, 0, z.n + 1); }
    y.n := y.n + z.n;
  }

  lemma AppendImage(t: nat, internal: bool, keys: seq<int>, ptr: seq<KbNode?>, a: Tree, m: int,
                    zk: seq<int>, zp: seq<KbNode?>, b: Tree)
    requires Image(t, internal, |a.keys|, keys, ptr, a) && Image(t, internal, |b.keys|, zk, zp, b)
    requires |a.keys| + |b.keys| < 2 * t - 1
    ensures |ptr| >= if internal then 2 * t else 0
    ensures Image(t, internal, |a.keys| + 1 + |b.keys|,
                  CopyInto(keys[|a.keys| := m], |a.keys| + 1, zk, 0, |b.keys|),
                  if internal then CopyInto(ptr, |a.keys| + 1, zp, 0, |b.keys| + 1) else ptr, Join(a, m, b))
  {
    var ks := CopyInto(keys[|a.keys| := m], |a.keys| + 1, zk, 0, |b.keys|);
    assert ks[..|a.keys| + 1 + |b.keys|] == a.keys + [m] + b.keys;
  }

  lemma CloseUpImage(t: nat, n: nat, keys: seq<int>, ptr: seq<KbNode?>, tr: Tree, j: nat)
    requires Image(t, true, n, keys, ptr, tr) && j < |tr.keys|
    ensures Image(t, true, n - 1, MemMove(keys, j, j + 1, n - j - 1), MemMove(ptr, j + 1, j + 2, n - j - 1),
                  MergeKids(tr, j))
  {
    var r, ks, ps := MergeKids(tr, j), MemMove(keys, j, j + 1, n - j - 1), MemMove(ptr, j + 1, j + 2, n - j - 1);
    forall i | 0 <= i < |r.kids| ensures ps[i] == r.kids[i].node {
      if i > j { assert r.kids[i] == tr.kids[i + 1]; }
    }
    assert ks[..n - 1] == r.keys;
  }

  /** Separator j and the pointer after it closed up, the two children having been merged. */
  method CloseUp(t: nat, x: KbNode, j: nat, ghost tr: Tree)
    requires NodeHolds(t, tr) && x == tr.node && j < |tr.keys| && |tr.kids| == |tr.keys| + 1
    modifies x
    ensures NodeHolds(t, MergeKids(tr, j))
  {
    hide Image;
    ImageBounds(t, x, tr);
    CloseUpImage(t, x.n, x.keys, x.ptr, tr, j);
    x.keys := MemMove(x.keys, j, j + 1, x.n - j - 1);
    x.ptr := MemMove(x.ptr, j + 1, j + 2, x.n - j - 1);
    x.n := x.n - 1;
  }

  /** A key of the left sibling y goes up into x and the separator down to the front of xp. */
  method BorrowFromLeft(t: nat, x: KbNode, i: nat, xp: KbNode, y: KbNode, ghost tr: Tree)
    requires t >= 2 && 0 < i <= |tr.keys| && |tr.kids| == |tr.keys| + 1 && Siblings(tr.kids[i - 1], tr.kids[i])
    requires NodeHolds(t, tr) && NodeHolds(t, tr.kids[i - 1]) && NodeHolds(t, tr.kids[i])
    requires x == tr.node && y == tr.kids[i - 1].node && xp == tr.kids[i].node
    requires x != y && x != xp && y != xp
    requires |tr.kids[i].keys| == t - 1 && |tr.kids[i - 1].keys| >= t
    modifies x, y, xp
    ensures var r := LendRight(tr.kids[i - 1], tr.keys[i - 1], tr.kids[i]);
      NodeHolds(t, r.0) && NodeHolds(t, r.2) && NodeHolds(t, ReplacePair(tr, i - 1, r.0, r.1, r.2))
  {
    hide Image;
    ImageBounds(t, x, tr);
    ImageBounds(t, y, tr.kids[i - 1]);
    ImageBounds(t, xp, tr.kids[i]);
    ghost var (a, m, b) := LendRight(tr.kids[i - 1], tr.keys[i - 1], tr.kids[i]);
    var p := if y.isInternal then y.ptr[y.n] else null;
    PushFront(t, xp, x.keys[i - 1], p, tr.kids[i], if y.isInternal then [tr.kids[i - 1].kids[y.n]] else []);
    SetSeparator(t, x, i - 1, y.keys[y.n - 1], tr, a, b);
    PopBack(t, y, tr.kids[i - 1]);
  }

  /** A key of the right sibling y goes up into x and the separator down to the end of xp. */
  method BorrowFromRight(t: nat, x: KbNode, i: nat, xp: KbNode, y: KbNode, ghost tr: Tree)
    requires t >= 2 && i < |tr.keys| && |tr.kids| == |tr.keys| + 1 && Siblings(tr.kids[i], tr.kids[i + 1])
    requires NodeHolds(t, tr) && NodeHolds(t, tr.kids[i]) && NodeHolds(t, tr.kids[i + 1])
    requires x == tr.node && xp == tr.kids[i].node && y == tr.kids[i + 1].node
    requires x != y && x != xp && y != xp
    requires |tr.kids[i].keys| == t - 1 && |tr.kids[i + 1].keys| >= t
    modifies x, y, xp
    ensures var r := LendLeft(tr.kids[i], tr.keys[i], tr.kids[i + 1]);
      NodeHolds(t, r.0) && NodeHolds(t, r.2) && NodeHolds(t, ReplacePair(tr, i, r.0, r.1, r.2))
  {
    hide Image;
    ImageBounds(t, x, tr);
    ImageBounds(t, y, tr.kids[i + 1]);
    ImageBounds(t, xp, tr.kids[i]);
    ghost var (a, m, b) := LendLeft(tr.kids[i], tr.keys[i], tr.kids[i + 1]);
    var p := if y.isInternal then y.ptr[0] else null;
    PushBack(t, xp, x.keys[i], p, tr.kids[i], if y.isInternal then [tr.kids[i + 1].kids[0]] else []);
    SetSeparator(t, x, i, y.keys[0], tr, a, b);
    PopFront(t, y, tr.kids[i + 1]);
  }

  /** Key kj, equal to key j, and child j+1 appended to child j; child j+1 is given up.
    * The source writes this step out three times. */
  method Merge(t: nat, x: KbNode, j: nat, kj: int, y: KbNode, z: KbNode, ghost tr: Tree)
    requires t >= 2 && j < |tr.keys| && |tr.kids| == |tr.keys| + 1 && kj == tr.keys[j]
    requires Siblings(tr.kids[j], tr.kids[j + 1])
    requires NodeHolds(t, tr) && NodeHolds(t, tr.kids[j]) && NodeHolds(t, tr.kids[j + 1])
    requires x == tr.node && y == tr.kids[j].node && z == tr.kids[j + 1].node
    requires x != y && x != z && y != z
    requires |tr.kids[j].keys| == t - 1 == |tr.kids[j + 1].keys|
    modifies x, y
    ensures NodeHolds(t, MergeKids(tr, j)) && NodeHolds(t, MergeKids(tr, j).kids[j])
  {
    hide Image;
    Append(t, y, kj, z, tr.kids[j], tr.kids[j + 1]);
    CloseUp(t, x, j, tr);
  }

  // ---------- one level of the descent ----------

  /** x is the top node of the represented, sound subtree tr of height h, which owns exactly repr. */
  ghost predicate Stands(t: nat, x: KbNode, tr: Tree, h: nat, repr: set<KbNode>)
    reads repr
  {
    Footprint(tr) == repr && Sound(t, tr, h) && Rep(t, tr) && x == tr.node
  }

  /** What the fields of x say about its children. */
  lemma KidNodes(t: nat, x: KbNode, tr: Tree, h: nat, repr: set<KbNode>)
    requires Stands(t, x, tr, h, repr) && h > 0
    ensures x.isInternal && x.n == |tr.keys| <= 2 * t - 1 && |tr.kids| == |tr.keys| + 1 && |x.keys| == 2 * t - 1
    ensures |x.ptr| == 2 * t
    ensures forall j :: 0 <= j < x.n ==> x.keys[j] == tr.keys[j]
    ensures forall j :: 0 <= j <= x.n ==> x.ptr[j] == tr.kids[j].node
    ensures forall j :: 0 <= j <= x.n ==> t - 1 <= tr.kids[j].node.n == |tr.kids[j].keys| <= 2 * t - 1
  {
    hide Separate, Footprints, InOrder, Subtrees, Balanced;
    ImageBounds(t, x, tr);
    BalancedParts(t, tr, h);
    forall j | 0 <= j <= x.n ensures t - 1 <= tr.kids[j].node.n == |tr.kids[j].keys| <= 2 * t - 1 {
      KidBalanced(t, tr, h, j);
      OpenKidRep(t, tr, j);
      ImageBounds(t, tr.kids[j].node, tr.kids[j]);
    }
  }

  /** k can occur, among the children, only in child i. */
  predicate StrictlyAround(ks: seq<int>, i: nat, k: int) {
    i <= |ks| && (i > 0 ==> ks[i - 1] < k) && (i < |ks| ==> k < ks[i])
  }

  /** Keys of a child lie between the parent's two neighbouring keys. */
  lemma KidKeyRange(t: nat, tr: Tree, h: nat, i: nat, v: int)
    requires Balanced(t, tr, h) && h > 0 && i < |tr.kids| && v in tr.kids[i].keys && Sorted(InOrder(tr))
    ensures (i > 0 ==> tr.keys[i - 1] <= v) && (i < |tr.keys| ==> v <= tr.keys[i])
  {
    KidBalanced(t, tr, h, i);
    KidRange(tr, i);
    var c := tr.kids[i];
    if c.kids != [] { KeysSorted(c.keys, Lists(c.kids)); }
    assert v in InOrder(c);
  }

  lemma Locate(tr: Tree, i: nat, k: int)
    requires i < |tr.kids| == |tr.keys| + 1 && Sorted(InOrder(tr)) && k in InOrder(tr) && StrictlyAround(tr.keys, i, k)
    ensures k in InOrder(tr.kids[i])
  {
    hide InOrder, Weave;
    KidRange(tr, i);
    ReplaceKidInOrder(tr, i, tr.kids[i]);
    var l, r := Before(tr.keys, Lists(tr.kids), i), After(tr.keys, Lists(tr.kids), i);
    assert k !in l && k !in r;
  }

  /** A merge or a borrowed key leaves the descent aimed at the same key. */
  lemma StrictlyAroundMerged(ks: seq<int>, i: nat, k: int)
    requires Sorted(ks) && StrictlyAround(ks, i, k)
    ensures i > 0 ==> StrictlyAround(ks[..i - 1] + ks[i..], i - 1, k)
    ensures i < |ks| ==> StrictlyAround(ks[..i] + ks[i + 1..], i, k)
  {
    assert i > 1 ==> ks[i - 2] <= ks[i - 1];
    assert i + 1 < |ks| ==> ks[i] <= ks[i + 1];
  }

  lemma StrictlyAroundBorrowed(ks: seq<int>, ks': seq<int>, i: nat, k: int)
    requires |ks| == |ks'| && (0 < i <= |ks| ==> ks'[i - 1] <= ks[i - 1]) && (i < |ks| ==> ks[i] <= ks'[i])
    ensures StrictlyAround(ks, i, k) ==> StrictlyAround(ks', i, k)
  {
  }

  /** The tree after child i has borrowed from its left sibling. */
  function BorrowedFromLeft(tr: Tree, i: nat): Tree
    requires 0 < i < |tr.kids| == |tr.keys| + 1 && tr.kids[i - 1].keys != []
  {
    var r := LendRight(tr.kids[i - 1], tr.keys[i - 1], tr.kids[i]);
    ReplacePair(tr, i - 1, r.0, r.1, r.2)
  }

  function BorrowedFromRight(tr: Tree, i: nat): Tree
    requires i + 1 < |tr.kids| == |tr.keys| + 1 && tr.kids[i + 1].keys != []
  {
    var r := LendLeft(tr.kids[i], tr.keys[i], tr.kids[i + 1]);
    ReplacePair(tr, i, r.0, r.1, r.2)
  }

  /** Borrowing keeps the in-order sequence and the invariants, and the descent stays on target. */
  lemma BorrowedFromLeftSound(t: nat, tr: Tree, h: nat, i: nat, k: int)
    requires Sound(t, tr, h) && h > 0 && 0 < i < |tr.kids| == |tr.keys| + 1 && Sorted(InOrder(tr))
    requires |tr.kids[i].keys| == t - 1 && |tr.kids[i - 1].keys| >= t
    ensures var tr' := BorrowedFromLeft(tr, i);
      && Sound(t, tr', h) && Footprint(tr') == Footprint(tr) && InOrder(tr') == InOrder(tr)
      && |tr'.keys| == |tr.keys| && |tr'.kids| == |tr.kids| && |tr'.kids[i].keys| == t
      && (StrictlyAround(tr.keys, i, k) ==> StrictlyAround(tr'.keys, i, k))
  {
    hide Separate, Footprint, Balanced, InOrder, Sorted;
    KidBalanced(t, tr, h, i - 1);
    KidBalanced(t, tr, h, i);
    var y, m, z := tr.kids[i - 1], tr.keys[i - 1], tr.kids[i];
    var (a, m', b) := LendRight(y, m, z);
    LendRightShape(t, y, m, z, h - 1);
    LendRightJoin(y, m, z);
    ReplacePairSound(t, tr, h, i - 1, a, m', b);
    KidKeyRange(t, tr, h, i - 1, m');
    StrictlyAroundBorrowed(tr.keys, tr.keys[i - 1 := m'], i, k);
  }

  lemma BorrowedFromRightSound(t: nat, tr: Tree, h: nat, i: nat, k: int)
    requires Sound(t, tr, h) && h > 0 && i + 1 < |tr.kids| == |tr.keys| + 1 && Sorted(InOrder(tr))
    requires |tr.kids[i].keys| == t - 1 && |tr.kids[i + 1].keys| >= t
    ensures var tr' := BorrowedFromRight(tr, i);
      && Sound(t, tr', h) && Footprint(tr') == Footprint(tr) && InOrder(tr') == InOrder(tr)
      && |tr'.keys| == |tr.keys| && |tr'.kids| == |tr.kids| && |tr'.kids[i].keys| == t
      && (StrictlyAround(tr.keys, i, k) ==> StrictlyAround(tr'.keys, i, k))
  {
    hide Separate, Footprint, Balanced, InOrder, Sorted;
    KidBalanced(t, tr, h, i);
    KidBalanced(t, tr, h, i + 1);
    var y, m, z := tr.kids[i], tr.keys[i], tr.kids[i + 1];
    var (a, m', b) := LendLeft(y, m, z);
    LendLeftShape(t, y, m, z, h - 1);
    LendLeftJoin(y, m, z);
    ReplacePairSound(t, tr, h, i, a, m', b);
    KidKeyRange(t, tr, h, i + 1, m');
    StrictlyAroundBorrowed(tr.keys, tr.keys[i := m'], i, k);
  }

  method StepBorrowFromLeft(t: nat, x: KbNode, i: nat, ghost tr: Tree, ghost h: nat, ghost repr: set<KbNode>)
    requires Stands(t, x, tr, h, repr) && h > 0 && 0 < i < |tr.kids| == |tr.keys| + 1
    requires |tr.kids[i].keys| == t - 1 && |tr.kids[i - 1].keys| >= t
    modifies repr
    ensures Rep(t, BorrowedFromLeft(tr, i))
  {
    hide Separate, Footprints, Balanced, Subtrees;
    KidBalanced(t, tr, h, i - 1);
    KidBalanced(t, tr, h, i);
    OpenPair(tr, i - 1);
    OpenPairRep(t, tr, i - 1);
    ImageBounds(t, x, tr);
    BorrowFromLeft(t, x, i, x.ptr[i], x.ptr[i - 1], tr);
    assert RepAll(t, AroundPair(tr, i - 1));
    LendRightJoin(tr.kids[i - 1], tr.keys[i - 1], tr.kids[i]);
    ghost var r := LendRight(tr.kids[i - 1], tr.keys[i - 1], tr.kids[i]);
    ReplacePairRep(t, tr, i - 1, r.0, r.1, r.2);
  }

  method StepBorrowFromRight(t: nat, x: KbNode, i: nat, ghost tr: Tree, ghost h: nat, ghost repr: set<KbNode>)
    requires Stands(t, x, tr, h, repr) && h > 0 && i + 1 < |tr.kids| == |tr.keys| + 1
    requires |tr.kids[i].keys| == t - 1 && |tr.kids[i + 1].keys| >= t
    modifies repr
    ensures Rep(t, BorrowedFromRight(tr, i))
  {
    hide Separate, Footprints, Balanced, Subtrees;
    KidBalanced(t, tr, h, i);
    KidBalanced(t, tr, h, i + 1);
    OpenPair(tr, i);
    OpenPairRep(t, tr, i);
    ImageBounds(t, x, tr);
    BorrowFromRight(t, x, i, x.ptr[i], x.ptr[i + 1], tr);
    assert RepAll(t, AroundPair(tr, i));
    LendLeftJoin(tr.kids[i], tr.keys[i], tr.kids[i + 1]);
    ghost var r := LendLeft(tr.kids[i], tr.keys[i], tr.kids[i + 1]);
    ReplacePairRep(t, tr, i, r.0, r.1, r.2);
  }

  lemma MergedStays(t: nat, tr: Tree, h: nat, j: nat, k: int)
    requires Balanced(t, tr, h) && Sorted(InOrder(tr)) && j < |tr.keys| && |tr.kids| == |tr.keys| + 1
    requires StrictlyAround(tr.keys, j, k) || StrictlyAround(tr.keys, j + 1, k)
    ensures StrictlyAround(MergeKids(tr, j).keys, j, k)
  {
    SubtreeSorted(t, tr, h);
    if StrictlyAround(tr.keys, j, k) {
      StrictlyAroundMerged(tr.keys, j, k);
    } else {
      StrictlyAroundMerged(tr.keys, j + 1, k);
    }
  }

  method StepMerge(t: nat, x: KbNode, j: nat, kj: int, ghost k: int, ghost tr: Tree, ghost h: nat,
                   ghost repr: set<KbNode>)
    returns (ghost tr': Tree, ghost repr': set<KbNode>)
    requires Stands(t, x, tr, h, repr) && h > 0 && j < |tr.keys| && kj == tr.keys[j]
    requires |tr.kids| == |tr.keys| + 1 && |tr.kids[j].keys| == t - 1 == |tr.kids[j + 1].keys|
    requires Sorted(InOrder(tr))
    modifies repr
    ensures repr' <= repr && Stands(t, x, tr', h, repr') && InOrder(tr') == InOrder(tr)
    ensures |tr'.keys| == |tr.keys| - 1 && |tr'.kids| == |tr.kids| - 1 && |tr'.kids[j].keys| == 2 * t - 1
    ensures tr' == MergeKids(tr, j) && InOrder(tr'.kids[j]) == InOrder(tr.kids[j]) + [kj] + InOrder(tr.kids[j + 1])
    ensures StrictlyAround(tr.keys, j, k) || StrictlyAround(tr.keys, j + 1, k) ==> StrictlyAround(tr'.keys, j, k)
  {
    hide Separate, Footprints, Balanced, InOrder, Subtrees;
    KidBalanced(t, tr, h, j);
    KidBalanced(t, tr, h, j + 1);
    OpenPair(tr, j);
    OpenPairRep(t, tr, j);
    ImageBounds(t, x, tr);
    Merge(t, x, j, kj, x.ptr[j], x.ptr[j + 1], tr);
    assert RepAll(t, AroundPair(tr, j));
    tr' := MergeKids(tr, j);
    MergeKidsRep(t, tr, j);
    MergeKidsSound(t, tr, h, j);
    JoinInOrder(tr.kids[j], kj, tr.kids[j + 1]);
    if StrictlyAround(tr.keys, j, k) || StrictlyAround(tr.keys, j + 1, k) { MergedStays(t, tr, h, j, k); }
    repr' := Footprint(tr');
  }

  /** Child i as the descent finds it: with fewer than t keys it has borrowed from the left, else from the right, or
    * been merged with its left sibling, or for want of one with its right. */
  function Entered(t: nat, tr: Tree, i: nat): Tree
    requires i < |tr.kids| == |tr.keys| + 1 && t > 0
  {
    var c := tr.kids[i];
    if |c.keys| != t - 1 then c
    else if i > 0 && |tr.kids[i - 1].keys| >= t then LendRight(tr.kids[i - 1], tr.keys[i - 1], c).2
    else if i < |tr.keys| && |tr.kids[i + 1].keys| >= t then LendLeft(c, tr.keys[i], tr.kids[i + 1]).0
    else if i > 0 then Join(tr.kids[i - 1], tr.keys[i - 1], c)
    else if i < |tr.keys| then Join(c, tr.keys[i], tr.kids[i + 1])
    else c
  }

  /** How many of the keys come before the first that is larger. */
  function Slot(ks: seq<int>, k: int): (i: nat)
    ensures i <= |ks|
  {
    if ks == [] || k < ks[0] then 0 else 1 + Slot(ks[1..], k)
  }

  lemma {:induction false} SlotIs(ks: seq<int>, k: int, i: nat)
    requires Sorted(ks) && StrictlyAround(ks, i, k)
    ensures Slot(ks, k) == i
    decreases |ks|
  {
    if i > 0 {
      assert ks[0] <= ks[i - 1];
      SlotIs(ks[1..], k, i - 1);
    }
  }

  /** The keys of the leaf in which the deletion of an absent key k ends. */
  function LeafReached(t: nat, tr: Tree, h: nat, k: int): seq<int>
    requires t > 0
    decreases h
  {
    if h == 0 || |tr.kids| != |tr.keys| + 1 then tr.keys
    else LeafReached(t, Entered(t, tr, Slot(tr.keys, k)), h - 1, k)
  }

  predicate AllAbove(ks: seq<int>, k: int) {
    forall j :: 0 <= j < |ks| ==> k < ks[j]
  }

  lemma LeafBelow(t: nat, tr: Tree, h: nat, k: int, i: nat)
    requires t > 0 && h > 0 && |tr.kids| == |tr.keys| + 1 && Sorted(tr.keys) && StrictlyAround(tr.keys, i, k)
    ensures LeafReached(t, tr, h, k) == LeafReached(t, Entered(t, tr, i), h - 1, k)
  {
    hide Entered, Sorted, StrictlyAround;
    SlotIs(tr.keys, k, i);
  }

  predicate EnteredChanged(t: nat, tr: Tree, i: nat)
    requires t > 0 && i < |tr.kids| == |tr.keys| + 1
  {
    && (i > 0 && |tr.kids[i - 1].keys| >= t ==> BorrowedFromLeft(tr, i).kids[i] == Entered(t, tr, i))
    && (!(i > 0 && |tr.kids[i - 1].keys| >= t) && i < |tr.keys| && |tr.kids[i + 1].keys| >= t ==>
          BorrowedFromRight(tr, i).kids[i] == Entered(t, tr, i))
    && (i > 0 && |tr.kids[i - 1].keys| < t && (i < |tr.keys| ==> |tr.kids[i + 1].keys| < t) ==>
          MergeKids(tr, i - 1).kids[i - 1] == Entered(t, tr, i))
    && (i == 0 && i < |tr.keys| && |tr.kids[i + 1].keys| < t ==> MergeKids(tr, i).kids[i] == Entered(t, tr, i))
  }

  lemma EnteredFilled(t: nat, tr: Tree, i: nat)
    requires t > 0 && i < |tr.kids| == |tr.keys| + 1
    ensures |tr.kids[i].keys| != t - 1 ==> tr.kids[i] == Entered(t, tr, i)
    ensures |tr.kids[i].keys| == t - 1 ==> EnteredChanged(t, tr, i)
  {
  }

  /** Before the descent into child i: give it at least t keys, by borrowing or merging. */
  method Fill(t: nat, x: KbNode, i: nat, k: int, ghost tr: Tree, ghost h: nat, ghost repr: set<KbNode>)
    returns (i': nat, ghost tr': Tree, ghost repr': set<KbNode>)
    requires Stands(t, x, tr, h, repr) && h > 0 && i <= |tr.keys| && |tr.keys| > 0 && Sorted(InOrder(tr))
    modifies repr
    ensures repr' <= repr && Stands(t, x, tr', h, repr') && InOrder(tr') == InOrder(tr)
    ensures i' <= |tr'.keys| && |tr'.kids| == |tr'.keys| + 1 && |tr'.kids[i'].keys| >= t
    ensures |tr.keys| - 1 <= |tr'.keys| <= |tr.keys|
    ensures StrictlyAround(tr.keys, i, k) ==> StrictlyAround(tr'.keys, i', k)
    ensures (i == 0 ==> i' == 0) && (i == |tr.keys| ==> i' == |tr'.keys|)
    ensures i < |tr.kids| == |tr.keys| + 1 && t > 0 && tr'.kids[i'] == Entered(t, tr, i)
  {
    hide Separate, Footprints, InOrder, Subtrees, Balanced, StrictlyAround, Sorted, MergeKids, Join,
      LendLeft, LendRight, Entered;
    KidNodes(t, x, tr, h, repr);
    EnteredFilled(t, tr, i);
    i', tr', repr' := i, tr, repr;
    if x.ptr[i].n == t - 1 {
      if i > 0 && x.ptr[i - 1].n >= t {
        StepBorrowFromLeft(t, x, i, tr, h, repr);
        BorrowedFromLeftSound(t, tr, h, i, k);
        tr' := BorrowedFromLeft(tr, i);
      } else if i < x.n && x.ptr[i + 1].n >= t {
        StepBorrowFromRight(t, x, i, tr, h, repr);
        BorrowedFromRightSound(t, tr, h, i, k);
        tr' := BorrowedFromRight(tr, i);
      } else if i > 0 && x.ptr[i - 1].n == t - 1 {
        i' := i - 1;
        tr', repr' := StepMerge(t, x, i - 1, x.keys[i - 1], k, tr, h, repr);
      } else if i < x.n && x.ptr[i + 1].n == t - 1 {
        tr', repr' := StepMerge(t, x, i, x.keys[i], k, tr, h, repr);
      }
    }
  }

  // ---------- __kb_delp_aux ----------

  /** What mode s takes out: a given key (0), the largest key (1) or the smallest key (2).  A key that is not there
    * costs the largest smaller key its place, or the search ends before the first key of a leaf: then the next
    * access is outside the node, and the answer is None. */
  ghost predicate Takes(s: int, k: int, before: seq<int>, p: nat, kp: Option<int>, after: seq<int>) {
    match kp
    case Some(v) =>
      && RemovedAt(before, p, v, after) && (s == 1 ==> p == |before| - 1) && (s == 2 ==> p == 0)
      && (s == 0 ==> v == k || (k !in before && v < k && (p + 1 < |before| ==> k < before[p + 1])))
    case None => s == 0 && k !in before && after == before
  }

  method RemoveFromLeaf(t: nat, x: KbNode, i: nat, ghost tr: Tree) returns (kp: int)
    requires NodeHolds(t, tr) && x == tr.node && tr.kids == [] && i < |tr.keys|
    modifies x
    ensures kp == tr.keys[i] && NodeHolds(t, tr.(keys := tr.keys[..i] + tr.keys[i + 1..]))
  {
    assert x.keys[..x.n][i] == x.keys[i];
    kp := x.keys[i];
    x.keys := MemMove(x.keys, i, i + 1, x.n - i - 1);
    x.n := x.n - 1;
  }

  lemma LeafChoice(ks: seq<int>, k: int, i: int, r: int)
    requires if ks == [] then i == -1 else FoundAt(ks, k, i, r)
    ensures -1 <= i < |ks| && (i == -1 <==> forall j :: 0 <= j < |ks| ==> k < ks[j])
    ensures i >= 0 ==> Takes(0, k, ks, i, Some(ks[i]), ks[..i] + ks[i + 1..])
    ensures i == -1 ==> k !in ks
  {
    if i >= 0 && ks[i] != k {
      assert forall j :: 0 <= j < |ks| ==> ks[j] != k;
    }
  }

  method DelLeaf(t: nat, x: KbNode, k: int, s: int, ghost tr: Tree)
    returns (kp: Option<int>, ghost tr': Tree, ghost p: nat)
    requires t >= 2 && NodeHolds(t, tr) && x == tr.node && tr.kids == [] && Sorted(tr.keys)
    requires 0 <= s <= 2 && (s != 0 ==> tr.keys != [])
    modifies x
    ensures NodeHolds(t, tr') && tr'.node == x && tr'.kids == [] && |tr.keys| - 1 <= |tr'.keys|
    ensures Takes(s, k, tr.keys, p, kp, tr'.keys)
    ensures kp.None? <==> s == 0 && forall j :: 0 <= j < |tr.keys| ==> k < tr.keys[j]
  {
    hide Image, Sorted, FoundAt;
    ImageShape(t, x, tr);
    var i: int, r;
    if s != 0 {
      i := if s == 1 then x.n - 1 else -1;
    } else {
      i, r := GetpAux(x, k, 0);
      LeafChoice(tr.keys, k, i, r);
    }
    if s == 2 { i := i + 1; }
    p, tr' := 0, tr;
    if i < 0 { return None, tr, 0; }
    var v := RemoveFromLeaf(t, x, i, tr);
    kp, p := Some(v), i;
    tr' := tr.(keys := tr.keys[..i] + tr.keys[i + 1..]);
  }

  /** __kb_delp_aux: every node entered below the root has at least t keys. */
  method DelAux(t: nat, x: KbNode, k: int, s: int, ghost tr: Tree, ghost h: nat, ghost repr: set<KbNode>)
    returns (kp: Option<int>, ghost tr': Tree, ghost repr': set<KbNode>, ghost p: nat)
    requires Stands(t, x, tr, h, repr) && Sorted(InOrder(tr)) && (h > 0 || s != 0 ==> tr.keys != [])
    requires 0 <= s <= 2
    modifies repr
    ensures repr' <= repr && Stands(t, x, tr', h, repr') && |tr.keys| - 1 <= |tr'.keys|
    ensures Takes(s, k, InOrder(tr), p, kp, InOrder(tr'))
    ensures t > 0 && (s == 0 && k !in InOrder(tr) ==> (kp.None? <==> AllAbove(LeafReached(t, tr, h, k), k)))
    decreases h, 1
  {
    hide Separate, Footprints, InOrder, Subtrees, Takes, Entered, AllAbove, LeafReached;
    SubtreeSorted(t, tr, h);
    ImageBounds(t, x, tr);
    if !x.isInternal {
      LeafSound(t, tr);
      LeafIsReached(t, tr, h, k);
      kp, tr', p := DelLeaf(t, x, k, s, tr);
      LeafSound(t, tr');
      repr' := repr;
      return;
    }
    var i, r: int;
    if s != 0 {
      r := if s == 1 then 1 else -1;
      i := if s == 1 then x.n - 1 else -1;
    } else {
      i, r := GetpAux(x, k, 0);
    }
    if r == 0 {
      KeyInOrder(t, tr, h, i);
      kp, tr', repr', p := DelHere(t, x, i, k, tr, h, repr);
    } else {
      i := i + 1;
      assert s == 0 ==> StrictlyAround(tr.keys, i, k);
      if s == 0 { LeafBelow(t, tr, h, k, i); }
      var i1;
      ghost var tr1, repr1;
      i1, tr1, repr1 := Fill(t, x, i, k, tr, h, repr);
      kp, tr', repr', p := DelBelow(t, x, i1, k, s, tr1, h, repr1);
    }
  }

  lemma LeafIsReached(t: nat, tr: Tree, h: nat, k: int)
    requires Balanced(t, tr, h) && tr.kids == [] && t > 0
    ensures LeafReached(t, tr, h, k) == tr.keys == InOrder(tr)
    ensures AllAbove(tr.keys, k) <==> forall j :: 0 <= j < |tr.keys| ==> k < tr.keys[j]
  {
  }

  lemma KeyInOrder(t: nat, tr: Tree, h: nat, i: nat)
    requires Balanced(t, tr, h) && h > 0 && i < |tr.keys| && Sorted(InOrder(tr))
    ensures tr.keys[i] in InOrder(tr)
  {
    KeysSorted(tr.keys, Lists(tr.kids));
  }

  /** The recursive call on child i. */
  method DelChild(t: nat, x: KbNode, i: nat, k: int, s: int, ghost tr: Tree, ghost h: nat, ghost repr: set<KbNode>)
    returns (kp: Option<int>, ghost c': Tree, ghost repr': set<KbNode>, ghost p: nat)
    requires Stands(t, x, tr, h, repr) && h > 0 && Sorted(InOrder(tr)) && 0 <= s <= 2
    requires i < |tr.kids| == |tr.keys| + 1 && |tr.kids[i].keys| >= t
    modifies repr
    ensures repr' <= repr && Stands(t, x, ReplaceKid(tr, i, c'), h, repr')
    ensures Takes(s, k, InOrder(tr.kids[i]), p, kp, InOrder(c'))
    ensures t > 0 && (s == 0 && k !in InOrder(tr.kids[i]) ==>
                        (kp.None? <==> AllAbove(LeafReached(t, tr.kids[i], h - 1, k), k)))
    decreases h, 0, 0
  {
    hide Separate, Footprints, InOrder, Subtrees, Balanced, Takes, AllAbove, LeafReached;
    KidBalanced(t, tr, h, i);
    OpenOthers(t, tr, i);
    OpenOthersRep(t, tr, i);
    KidRange(tr, i);
    ImageBounds(t, x, tr);
    ghost var c, rc := tr.kids[i], repr;
    kp, c', rc, p := DelAux(t, x.ptr[i], k, s, c, h - 1, Footprint(c));
    assert RepAll(t, Others(tr, i));
    ReplaceKidRep(t, tr, i, c');
    ReplaceKidSound(t, tr, h, i, c', {});
    repr' := Footprint(ReplaceKid(tr, i, c'));
  }

  /** What is taken out of the child entered is taken out of the node. */
  lemma TakesInside(tr: Tree, i: nat, c': Tree, s: int, k: int, p: nat, kp: Option<int>)
    requires i < |tr.kids| == |tr.keys| + 1 && Sorted(InOrder(tr))
    requires Takes(s, k, InOrder(tr.kids[i]), p, kp, InOrder(c'))
    requires s == 0 ==> k in InOrder(tr.kids[i]) || StrictlyAround(tr.keys, i, k)
    requires (s == 1 ==> i == |tr.keys|) && (s == 2 ==> i == 0)
    ensures Takes(s, k, InOrder(tr), |Before(tr.keys, Lists(tr.kids), i)| + p, kp, InOrder(ReplaceKid(tr, i, c')))
  {
    hide InOrder, Weave, Before, After, Takes;
    var c, l, r := InOrder(tr.kids[i]), Before(tr.keys, Lists(tr.kids), i), After(tr.keys, Lists(tr.kids), i);
    SideEnds(tr, i);
    ReplaceKidInOrder(tr, i, c');
    ReplaceKidInOrder(tr, i, tr.kids[i]);
    assert ReplaceKid(tr, i, tr.kids[i]) == tr;
    if s == 0 && k !in c && k in InOrder(tr) { Locate(tr, i, k); }
    TakesFromMiddle(l, c, r, s, k, p, kp, InOrder(c'));
  }

  lemma TakesFromMiddle(l: seq<int>, c: seq<int>, r: seq<int>, s: int, k: int, p: nat, kp: Option<int>, c': seq<int>)
    requires Takes(s, k, c, p, kp, c')
    requires s == 0 ==> k in c || (k !in l + c + r && (r != [] ==> k < r[0]))
    requires (s == 1 ==> r == []) && (s == 2 ==> l == [])
    ensures Takes(s, k, l + c + r, |l| + p, kp, l + c' + r)
  {
    hide RemovedAt;
    if kp.Some? {
      assert p < |c| by { RemovedBound(c, p, kp.value, c'); }
      RemovedInside(l, c, r, p, kp.value, c');
      NextInside(l, c, r, p);
    }
  }

  lemma RemovedBound(s: seq<int>, p: nat, k: int, s': seq<int>)
    requires RemovedAt(s, p, k, s')
    ensures p < |s|
  {
  }

  lemma NextInside(l: seq<int>, c: seq<int>, r: seq<int>, p: nat)
    requires p < |c|
    ensures var s, q := l + c + r, |l| + p + 1;
      && (p + 1 < |c| ==> s[q] == c[p + 1])
      && (p + 1 == |c| && r != [] ==> s[q] == r[0])
      && (q < |s| ==> p + 1 < |c| || r != [])
  {
  }

  lemma KidKeyIn(tr: Tree, i: nat, k: int)
    requires i < |tr.kids| == |tr.keys| + 1 && k in InOrder(tr.kids[i])
    ensures k in InOrder(tr)
  {
    hide Weave, Before, After;
    WeaveAround(tr.keys, Lists(tr.kids), i);
    assert k in Lists(tr.kids)[i];
  }

  method DelBelow(t: nat, x: KbNode, i: nat, k: int, s: int, ghost tr: Tree, ghost h: nat, ghost repr: set<KbNode>)
    returns (kp: Option<int>, ghost tr': Tree, ghost repr': set<KbNode>, ghost p: nat)
    requires Stands(t, x, tr, h, repr) && h > 0 && Sorted(InOrder(tr)) && 0 <= s <= 2
    requires i < |tr.kids| == |tr.keys| + 1 && |tr.kids[i].keys| >= t
    requires s == 0 ==> k in InOrder(tr.kids[i]) || StrictlyAround(tr.keys, i, k)
    requires (s == 1 ==> i == |tr.keys|) && (s == 2 ==> i == 0)
    modifies repr
    ensures repr' <= repr && Stands(t, x, tr', h, repr') && |tr.keys| == |tr'.keys|
    ensures Takes(s, k, InOrder(tr), p, kp, InOrder(tr'))
    ensures t > 0 && (s == 0 && k !in InOrder(tr) ==>
                        (kp.None? <==> AllAbove(LeafReached(t, tr.kids[i], h - 1, k), k)))
    decreases h, 0, 1
  {
    hide Separate, Footprints, InOrder, Subtrees, Balanced, Rep, Takes, AllAbove, LeafReached;
    if k in InOrder(tr.kids[i]) { KidKeyIn(tr, i, k); }
    ghost var c' := tr;
    kp, c', repr', p := DelChild(t, x, i, k, s, tr, h, repr);
    tr' := ReplaceKid(tr, i, c');
    TakesInside(tr, i, c', s, k, p, kp);
    p := |Before(tr.keys, Lists(tr.kids), i)| + p;
  }

  /** A separator overwritten. */
  function SetKey(tr: Tree, i: nat, m: int): Tree
    requires i < |tr.keys|
  {
    tr.(keys := tr.keys[i := m])
  }

  lemma SetKeySound(t: nat, tr: Tree, h: nat, i: nat, m: int)
    requires Sound(t, tr, h) && i < |tr.keys|
    ensures Sound(t, SetKey(tr, i, m), h) && Footprint(SetKey(tr, i, m)) == Footprint(tr)
  {
  }

  lemma OpenTop(t: nat, tr: Tree)
    requires Separate(tr)
    ensures tr.node !in Footprints(tr.kids) && Footprints(tr.kids) <= Footprint(tr)
  {
  }

  lemma SetKeyImage(t: nat, internal: bool, n: nat, keys: seq<int>, ptr: seq<KbNode?>, tr: Tree, i: nat, m: int)
    requires Image(t, internal, n, keys, ptr, tr) && i < |tr.keys|
    ensures Image(t, internal, n, keys[i := m], ptr, SetKey(tr, i, m))
  {
  }

  lemma SetKeyInOrder(tr: Tree, i: nat, m: int)
    requires i < |tr.keys| && |tr.kids| == |tr.keys| + 1
    ensures InOrder(SetKey(tr, i, m)) ==
      Weave(tr.keys[..i], Lists(tr.kids)[..i + 1]) + [m] + Weave(tr.keys[i + 1..], Lists(tr.kids)[i + 1..])
  {
    var r := SetKey(tr, i, m);
    WeaveSplit(r.keys, Lists(tr.kids), i);
    assert r.keys[..i] == tr.keys[..i] && r.keys[i + 1..] == tr.keys[i + 1..];
  }

  /** The two sides of separator i in terms of the children next to it. */
  lemma SidesOfKey(tr: Tree, i: nat)
    requires i < |tr.keys| && |tr.kids| == |tr.keys| + 1
    ensures var cs := Lists(tr.kids);
      && Weave(tr.keys[..i], cs[..i + 1]) == Before(tr.keys, cs, i) + InOrder(tr.kids[i])
      && Weave(tr.keys[i + 1..], cs[i + 1..]) == InOrder(tr.kids[i + 1]) + After(tr.keys, cs, i + 1)
  {
    var cs := Lists(tr.kids);
    var kl, cl, kr, cr := tr.keys[..i], cs[..i + 1], tr.keys[i + 1..], cs[i + 1..];
    WeaveAround(kl, cl, i);
    assert i > 0 ==> kl[..i - 1] == tr.keys[..i - 1] && cl[..i] == cs[..i];
    WeaveAround(kr, cr, 0);
    assert kr != [] ==> kr[1..] == tr.keys[i + 2..] && cr[1..] == cs[i + 2..];
  }

  lemma SameSides(ks: seq<int>, cs: seq<seq<int>>, cs': seq<seq<int>>, i: nat)
    requires |cs| == |cs'| == |ks| + 1 && i < |cs|
    ensures cs[..i] == cs'[..i] ==> Before(ks, cs, i) == Before(ks, cs', i)
    ensures cs[i + 1..] == cs'[i + 1..] ==> After(ks, cs, i) == After(ks, cs', i)
  {
  }

  /** Key i replaced by the largest key of the child on its left. */
  lemma PredecessorInOrder(tr: Tree, i: nat, m: int, c: Tree)
    requires i < |tr.keys| && |tr.kids| == |tr.keys| + 1
    requires InOrder(tr.kids[i]) == InOrder(c) + [m]
    ensures var l := Before(tr.keys, Lists(tr.kids), i);
      RemovedAt(InOrder(tr), |l| + |InOrder(tr.kids[i])|, tr.keys[i], InOrder(SetKey(ReplaceKid(tr, i, c), i, m)))
  {
    hide InOrder, Weave, Before, After;
    var r := ReplaceKid(tr, i, c);
    var cs, cs' := Lists(tr.kids), Lists(r.kids);
    SetKeyInOrder(tr, i, tr.keys[i]);
    SetKeyInOrder(r, i, m);
    SidesOfKey(tr, i);
    SidesOfKey(r, i);
    assert SetKey(tr, i, tr.keys[i]) == tr;
    assert cs'[i + 1..] == cs[i + 1..];
    assert cs'[..i] == cs[..i];
    SameSides(tr.keys, cs, cs', i);
    RemovedBetween(Before(tr.keys, cs, i) + InOrder(tr.kids[i]), tr.keys[i], Weave(tr.keys[i + 1..], cs[i + 1..]));
  }

  /** Key i replaced by the smallest key of the child on its right. */
  lemma SuccessorInOrder(tr: Tree, i: nat, m: int, c: Tree)
    requires i < |tr.keys| && |tr.kids| == |tr.keys| + 1
    requires InOrder(tr.kids[i + 1]) == [m] + InOrder(c)
    ensures var w := Weave(tr.keys[..i], Lists(tr.kids)[..i + 1]);
      RemovedAt(InOrder(tr), |w|, tr.keys[i], InOrder(SetKey(ReplaceKid(tr, i + 1, c), i, m)))
  {
    hide InOrder, Weave, Before, After;
    var r := ReplaceKid(tr, i + 1, c);
    var cs, cs' := Lists(tr.kids), Lists(r.kids);
    SetKeyInOrder(tr, i, tr.keys[i]);
    SetKeyInOrder(r, i, m);
    SidesOfKey(tr, i);
    SidesOfKey(r, i);
    assert SetKey(tr, i, tr.keys[i]) == tr;
    assert cs'[..i + 1] == cs[..i + 1];
    assert cs'[i + 2..] == cs[i + 2..];
    SameSides(tr.keys, cs, cs', i + 1);
    RemovedBetween(Weave(tr.keys[..i], cs[..i + 1]), tr.keys[i], InOrder(tr.kids[i + 1]) + After(tr.keys, cs, i + 1));
  }

  lemma RemovedBetween(a: seq<int>, k: int, b: seq<int>)
    ensures RemovedAt(a + [k] + b, |a|, k, a + b)
  {
  }

  lemma TakesGiven(k: int, before: seq<int>, p: nat, after: seq<int>)
    requires RemovedAt(before, p, k, after)
    ensures Takes(0, k, before, p, Some(k), after)
  {
  }

  lemma TakesEnd(s: int, before: seq<int>, p: nat, kp: Option<int>, after: seq<int>)
    requires Takes(s, 0, before, p, kp, after)
    ensures s == 1 ==> kp.Some? && before == after + [kp.value]
    ensures s == 2 ==> kp.Some? && before == [kp.value] + after
  {
  }

  /** Separator i of x overwritten by m. */
  method Overwrite(t: nat, x: KbNode, i: nat, m: int, ghost tr: Tree, ghost h: nat, ghost repr: set<KbNode>)
    requires Stands(t, x, tr, h, repr) && h > 0 && i < |tr.keys|
    modifies x
    ensures Stands(t, x, SetKey(tr, i, m), h, repr)
  {
    hide Separate, Footprints, InOrder, Subtrees, Balanced;
    KidNodes(t, x, tr, h, repr);
    SetKeySound(t, tr, h, i, m);
    SetKeyImage(t, x.isInternal, x.n, x.keys, x.ptr, tr, i, m);
    OpenTop(t, tr);
    x.keys := x.keys[i := m];
    assert RepAll(t, tr.kids);
  }

  /** Key i gives way to the largest key of the child on its left. */
  method TakePredecessor(t: nat, x: KbNode, i: nat, ghost tr: Tree, ghost h: nat, ghost repr: set<KbNode>)
    returns (ghost tr': Tree, ghost repr': set<KbNode>, ghost p: nat)
    requires Stands(t, x, tr, h, repr) && h > 0 && Sorted(InOrder(tr))
    requires i < |tr.keys| && |tr.kids| == |tr.keys| + 1 && |tr.kids[i].keys| >= t
    modifies repr
    ensures repr' <= repr && Stands(t, x, tr', h, repr') && |tr.keys| == |tr'.keys|
    ensures RemovedAt(InOrder(tr), p, tr.keys[i], InOrder(tr'))
    decreases h, 0, 1
  {
    hide Separate, Footprints, InOrder, Subtrees, Balanced, Takes, Rep, RemovedAt;
    var last;
    ghost var c' := tr;
    last, c', repr', p := DelChild(t, x, i, 0, 1, tr, h, repr);
    TakesEnd(1, InOrder(tr.kids[i]), p, last, InOrder(c'));
    Overwrite(t, x, i, last.value, ReplaceKid(tr, i, c'), h, repr');
    tr' := SetKey(ReplaceKid(tr, i, c'), i, last.value);
    PredecessorInOrder(tr, i, last.value, c');
    p := |Before(tr.keys, Lists(tr.kids), i)| + |InOrder(tr.kids[i])|;
  }

  /** Key i gives way to the smallest key of the child on its right. */
  method TakeSuccessor(t: nat, x: KbNode, i: nat, ghost tr: Tree, ghost h: nat, ghost repr: set<KbNode>)
    returns (ghost tr': Tree, ghost repr': set<KbNode>, ghost p: nat)
    requires Stands(t, x, tr, h, repr) && h > 0 && Sorted(InOrder(tr))
    requires i < |tr.keys| && |tr.kids| == |tr.keys| + 1 && |tr.kids[i + 1].keys| >= t
    modifies repr
    ensures repr' <= repr && Stands(t, x, tr', h, repr') && |tr.keys| == |tr'.keys|
    ensures RemovedAt(InOrder(tr), p, tr.keys[i], InOrder(tr'))
    decreases h, 0, 1
  {
    hide Separate, Footprints, InOrder, Subtrees, Balanced, Takes, Rep, RemovedAt;
    var first;
    ghost var c' := tr;
    first, c', repr', p := DelChild(t, x, i + 1, 0, 2, tr, h, repr);
    TakesEnd(2, InOrder(tr.kids[i + 1]), p, first, InOrder(c'));
    Overwrite(t, x, i, first.value, ReplaceKid(tr, i + 1, c'), h, repr');
    tr' := SetKey(ReplaceKid(tr, i + 1, c'), i, first.value);
    SuccessorInOrder(tr, i, first.value, c');
    p := |Weave(tr.keys[..i], Lists(tr.kids)[..i + 1])|;
  }

  /** The key is key i of the internal node x. */
  method DelHere(t: nat, x: KbNode, i: nat, k: int, ghost tr: Tree, ghost h: nat, ghost repr: set<KbNode>)
    returns (kp: Option<int>, ghost tr': Tree, ghost repr': set<KbNode>, ghost p: nat)
    requires Stands(t, x, tr, h, repr) && h > 0 && Sorted(InOrder(tr)) && i < |tr.keys| && k == tr.keys[i]
    modifies repr
    ensures repr' <= repr && Stands(t, x, tr', h, repr') && |tr.keys| - 1 <= |tr'.keys|
    ensures Takes(0, k, InOrder(tr), p, kp, InOrder(tr'))
    decreases h, 0, 2
  {
    hide Separate, Footprints, InOrder, Subtrees, Balanced, Takes;
    KidNodes(t, x, tr, h, repr);
    if x.ptr[i].n >= t {
      kp := Some(x.keys[i]);
      tr', repr', p := TakePredecessor(t, x, i, tr, h, repr);
      TakesGiven(k, InOrder(tr), p, InOrder(tr'));
    } else if x.ptr[i + 1].n >= t {
      kp := Some(x.keys[i]);
      tr', repr', p := TakeSuccessor(t, x, i, tr, h, repr);
      TakesGiven(k, InOrder(tr), p, InOrder(tr'));
    } else {
      ghost var tr1, repr1;
      tr1, repr1 := StepMerge(t, x, i, k, k, tr, h, repr);
      kp, tr', repr', p := DelBelow(t, x, i, k, 0, tr1, h, repr1);
    }
  }
}
