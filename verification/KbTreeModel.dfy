/** The nodes of the B-tree of kbtree.h and the mathematical tree they represent.
  *
  * A node is one zero-initialised block holding its key buffer (2t-1 cells) and, when it is
  * internal, its pointer buffer (2t cells) inline, so both are fields of the node
  * rather than separate heap objects.  Only the first `n` keys and `n+1` pointers are live.
  */
module KbTreeModel {

  class KbNode {
    var isInternal: bool
    var n: nat
    var keys: seq<int>
    var ptr: seq<KbNode?>

    // calloc of ilen or elen bytes: all cells zero, no pointer space in a leaf
    constructor (t: nat, internal: bool)
      requires t >= 2
      ensures isInternal == internal && n == 0
      ensures |keys| == 2 * t - 1 && |ptr| == if internal then 2 * t else 0
    {
      isInternal := internal;
      n := 0;
      keys := seq(2 * t - 1, _ => 0);
      ptr := seq(if internal then 2 * t else 0, _ => null);
    }
  }

  /** memmove within one buffer: the source is read before the destination is written. */
  function MemMove<T>(s: seq<T>, dst: nat, src: nat, len: nat): (r: seq<T>)
    requires dst + len <= |s| && src + len <= |s|
    ensures |r| == |s|
    ensures forall j :: 0 <= j < |s| ==> r[j] == if dst <= j < dst + len then s[src + j - dst] else s[j]
  {
    s[..dst] + s[src..src + len] + s[dst + len..]
  }

  /** memcpy or memmove from one node's buffer into another's. */
  function CopyInto<T>(d: seq<T>, dst: nat, s: seq<T>, src: nat, len: nat): (r: seq<T>)
    requires dst + len <= |d| && src + len <= |s|
    ensures |r| == |d|
    ensures forall j :: 0 <= j < |d| ==> r[j] == if dst <= j < dst + len then s[src + j - dst] else d[j]
  {
    d[..dst] + s[src..src + len] + d[dst + len..]
  }

  /** The value a subtree represents, together with the address of every node in it. */
  datatype Tree = Tree(node: KbNode, keys: seq<int>, kids: seq<Tree>)

  ghost function Footprint(tr: Tree): set<KbNode> {
    {tr.node} + Footprints(tr.kids)
  }

  ghost function Footprints(kids: seq<Tree>): (r: set<KbNode>)
    ensures forall i :: 0 <= i < |kids| ==> Footprint(kids[i]) <= r
  {
    if kids == [] then {} else Footprint(kids[0]) + Footprints(kids[1..])
  }

  /** Every subtree of the given trees. */
  ghost function Subtrees(kids: seq<Tree>): (r: set<Tree>)
    ensures forall s :: s in r ==> s.node in Footprints(kids)
  {
    if kids == [] then {} else SelfAndBelow(kids[0]) + Subtrees(kids[1..])
  }

  ghost function SelfAndBelow(tr: Tree): (r: set<Tree>)
    ensures forall s :: s in r ==> s.node in Footprint(tr)
  {
    {tr} + Subtrees(tr.kids)
  }

  /** The heap holds exactly the tree `tr`. */
  ghost predicate Rep(t: nat, tr: Tree)
    reads Footprint(tr)
  {
    NodeHolds(t, tr) && RepAll(t, tr.kids)
  }

  ghost predicate RepAll(t: nat, kids: seq<Tree>)
    reads Footprints(kids)
  {
    forall s :: s in Subtrees(kids) ==> NodeHolds(t, s)
  }

  ghost predicate NodeHolds(t: nat, tr: Tree)
    reads tr.node
  {
    Image(t, tr.node.isInternal, tr.node.n, tr.node.keys, tr.node.ptr, tr)
  }

  /** The fields of one node, read as the top of the tree `tr`. */
  ghost predicate Image(t: nat, internal: bool, n: nat, keys: seq<int>, ptr: seq<KbNode?>, tr: Tree) {
    && n == |tr.keys| <= |keys| == 2 * t - 1
    && keys[..n] == tr.keys
    && internal == (tr.kids != [])
    && (internal ==>
        && |ptr| == 2 * t
        && |tr.kids| == n + 1
        && forall i :: 0 <= i < |tr.kids| ==> ptr[i] == tr.kids[i].node)
  }

  /** No node occurs twice. */
  ghost predicate Separate(tr: Tree) {
    && tr.node !in Footprints(tr.kids)
    && SeparateKids(tr.kids)
  }

  ghost predicate SeparateKids(kids: seq<Tree>)
    ensures SeparateKids(kids) ==> forall i :: 0 <= i < |kids| ==> Separate(kids[i])
    ensures SeparateKids(kids) ==> forall i, j :: 0 <= i < j < |kids| ==> Footprint(kids[i]) !! Footprint(kids[j])
  {
    kids == [] ||
    (Separate(kids[0]) && SeparateKids(kids[1..]) && Footprint(kids[0]) !! Footprints(kids[1..]))
  }

  /** Uniform depth h, n+1 children, at most 2t-1 keys, at least t-1 keys below the top node. */
  predicate Balanced(t: nat, tr: Tree, h: nat) {
    && |tr.keys| <= 2 * t - 1
    && (h == 0 <==> tr.kids == [])
    && (h > 0 ==> |tr.kids| == |tr.keys| + 1)
    && (forall i :: 0 <= i < |tr.kids| ==> h > 0 && t - 1 <= |tr.kids[i].keys| && Balanced(t, tr.kids[i], h - 1))
  }

  /** In-order key sequence. */
  function InOrder(tr: Tree): seq<int>
    decreases tr, 1
  {
    if tr.kids == [] then tr.keys
    else if |tr.kids| == |tr.keys| + 1 then Weave(tr.keys, Lists(tr.kids))
    else []
  }

  function Lists(kids: seq<Tree>): (r: seq<seq<int>>)
    ensures |r| == |kids|
    ensures forall i :: 0 <= i < |kids| ==> r[i] == InOrder(kids[i])
    decreases kids, 0
  {
    seq(|kids|, i requires 0 <= i < |kids| => InOrder(kids[i]))
  }

  function Weave(ks: seq<int>, cs: seq<seq<int>>): seq<int>
    requires |cs| == |ks| + 1
  {
    if ks == [] then cs[0] else cs[0] + [ks[0]] + Weave(ks[1..], cs[1..])
  }

  ghost predicate Sorted(s: seq<int>) {
    forall i, j :: 0 <= i < j < |s| ==> s[i] <= s[j]
  }

  /** Splitting a weave at one of its separators. */
  lemma {:induction false} WeaveSplit(ks: seq<int>, cs: seq<seq<int>>, j: nat)
    requires |cs| == |ks| + 1 && j < |ks|
    ensures Weave(ks, cs) == Weave(ks[..j], cs[..j + 1]) + [ks[j]] + Weave(ks[j + 1..], cs[j + 1..])
  {
    if j > 0 {
      WeaveSplit(ks[1..], cs[1..], j - 1);
      assert ks[..j][1..] == ks[1..][..j - 1];
      assert cs[..j + 1][1..] == cs[1..][..j];
      assert ks[1..][j..] == ks[j + 1..];
      assert cs[1..][j..] == cs[j + 1..];
    }
  }

  /** What a weave holds before and after child i. */
  function Before(ks: seq<int>, cs: seq<seq<int>>, i: nat): seq<int>
    requires |cs| == |ks| + 1 && i < |cs|
  {
    if i == 0 then [] else Weave(ks[..i - 1], cs[..i]) + [ks[i - 1]]
  }

  function After(ks: seq<int>, cs: seq<seq<int>>, i: nat): seq<int>
    requires |cs| == |ks| + 1 && i < |cs|
  {
    if i == |ks| then [] else [ks[i]] + Weave(ks[i + 1..], cs[i + 1..])
  }

  lemma WeaveUpTo(ks: seq<int>, cs: seq<seq<int>>, i: nat)
    requires |cs| == |ks| + 1 && i < |cs|
    ensures Weave(ks[..i], cs[..i + 1]) == Before(ks, cs, i) + cs[i]
  {
    if i > 0 {
      var kl, cl := ks[..i], cs[..i + 1];
      WeaveSplit(kl, cl, i - 1);
      assert kl[..i - 1] == ks[..i - 1] && cl[..i] == cs[..i] && kl[i..] == [] && cl[i..] == [cs[i]];
    }
  }

  lemma WeaveAround(ks: seq<int>, cs: seq<seq<int>>, i: nat)
    requires |cs| == |ks| + 1 && i < |cs|
    ensures Weave(ks, cs) == Before(ks, cs, i) + cs[i] + After(ks, cs, i)
  {
    hide Weave, Before;
    WeaveUpTo(ks, cs, i);
    if i < |ks| {
      WeaveSplit(ks, cs, i);
    } else {
      assert ks[..i] == ks && cs[..i + 1] == cs;
    }
  }
}
