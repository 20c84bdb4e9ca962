/** src/util.c: the Merkle root, computed level by level in one flat array. */
module Merkle {
  import HashArith
  import NatBits
  import opened VarInt
  import opened DoubleSha

  /** The ints that index the flat array. */
  type int32 = x: int | -0x8000_0000 <= x < 0x8000_0000

  function Zero(): Hash {
    seq(32, _ => 0)
  }

  // ---------- the recursive tree ----------

  /** The parents of a level: pairs hashed together, the last node paired with itself when it is alone. */
  function Parents(s: seq<Hash>): (r: seq<Hash>)
    ensures |r| == (|s| + 1) / 2
  {
    seq((|s| + 1) / 2, i requires 0 <= i < (|s| + 1) / 2 =>
      DoubleSha256(s[2 * i] + s[if 2 * i + 1 < |s| then 2 * i + 1 else |s| - 1]))
  }

  function Root(s: seq<Hash>): Hash
    decreases |s|
  {
    if s == [] then Zero() else if |s| == 1 then s[0] else Root(Parents(s))
  }

  // ---------- the same tree, seen from its root and from a leaf ----------

  /** The root of a tree of depth k: what the first 2^(k-1) leaves hash to, followed by what the others hash to, or by
    * the same again when there are no others. */
  function FromTop(s: seq<Hash>, k: nat): Hash
    requires 0 < |s| <= NatBits.Pow2(k)
  {
    if k == 0 then s[0]
    else
      var half := NatBits.Pow2(k - 1);
      if |s| > half then DoubleSha256(FromTop(s[..half], k - 1) + FromTop(s[half..], k - 1))
      else DoubleSha256(FromTop(s, k - 1) + FromTop(s, k - 1))
  }

  lemma FromTopStep(s: seq<Hash>, k: nat)
    requires 0 < |s| <= NatBits.Pow2(k + 1)
    ensures NatBits.Pow2(k + 1) == 2 * NatBits.Pow2(k)
    ensures var half := NatBits.Pow2(k);
      FromTop(s, k + 1) ==
        if |s| > half then DoubleSha256(FromTop(s[..half], k) + FromTop(s[half..], k))
        else DoubleSha256(FromTop(s, k) + FromTop(s, k))
  {
    hide DoubleSha256;
  }

  /** Two halves, the first of an even length, have their parents apart. */
  lemma ParentsSplit(s: seq<Hash>, m: nat)
    requires 2 * m < |s|
    ensures Parents(s)[..m] == Parents(s[..2 * m]) && Parents(s)[m..] == Parents(s[2 * m..])
  {
    hide DoubleSha256;
    forall i | 0 <= i < |Parents(s[2 * m..])| ensures Parents(s)[m + i] == Parents(s[2 * m..])[i] {
      assert s[2 * m..][2 * i] == s[2 * (m + i)];
    }
  }

  lemma ParentsSmall(s: seq<Hash>)
    requires 0 < |s| <= 2
    ensures Parents(s) == [DoubleSha256(s[0] + s[|s| - 1])]
  {
    hide DoubleSha256;
  }

  /** One level of parents makes the tree one shorter. */
  lemma {:induction false} ParentsFromTop(s: seq<Hash>, k: nat)
    requires 0 < |s| <= NatBits.Pow2(k + 1)
    ensures 0 < |Parents(s)| <= NatBits.Pow2(k) && FromTop(Parents(s), k) == FromTop(s, k + 1)
    decreases k
  {
    hide DoubleSha256, Parents, FromTop, NatBits.Pow2;
    FromTopStep(s, k);
    if k == 0 {
      NatBits.PowOne();
      ParentsSmall(s);
      LeafFromTop(s);
    } else {
      FromTopStep(Parents(s), k - 1);
      var half := NatBits.Pow2(k - 1);
      if |s| > 2 * half {
        ParentsSplit(s, half);
        ParentsFromTop(s[..2 * half], k - 1);
        ParentsFromTop(s[2 * half..], k - 1);
      } else {
        ParentsFromTop(s, k - 1);
      }
    }
  }

  lemma LeafFromTop(s: seq<Hash>)
    requires 0 < |s| <= 2
    ensures NatBits.Pow2(0) == 1 && FromTop([s[0]], 0) == s[0]
    ensures |s| == 2 ==> FromTop(s[..1], 0) == s[0] && FromTop(s[1..], 0) == s[1]
    ensures FromTop(Parents(s), 0) == Parents(s)[0]
    ensures |s| == 1 ==> FromTop(s, 0) == s[0]
  {
    hide DoubleSha256;
  }

  /** The recursive root of n leaves, 2^(k-1) < n <= 2^k, is that of the tree of depth k. */
  lemma {:induction false} RootFromTop(s: seq<Hash>, k: nat)
    requires 0 < |s| <= NatBits.Pow2(k) && (k > 0 ==> |s| > NatBits.Pow2(k - 1))
    ensures Root(s) == FromTop(s, k)
    decreases k
  {
    hide DoubleSha256, Parents;
    if k > 0 {
      RootStep(s);
      ParentsFromTop(s, k - 1);
      RootFromTop(Parents(s), k - 1);
    }
  }

  /** A leaf hashed with the siblings on its way up, on the side that the bits of its number say. */
  function Folded(h: Hash, i: nat, siblings: seq<Hash>): Hash
    decreases |siblings|
  {
    if siblings == [] then h
    else
      var parent := if i % 2 == 0 then DoubleSha256(h + siblings[0]) else DoubleSha256(siblings[0] + h);
      Folded(parent, i / 2, siblings[1..])
  }

  /** The siblings of node i of a level and of the nodes above it; a last node without one is its own. */
  function Siblings(s: seq<Hash>, i: nat): seq<Hash>
    requires i < |s|
    decreases |s|
  {
    if |s| == 1 then []
    else [s[if i % 2 == 1 then i - 1 else if i + 1 < |s| then i + 1 else i]] + Siblings(Parents(s), i / 2)
  }

  /** Every leaf leads to the root. */
  lemma {:induction false} LeafProves(s: seq<Hash>, i: nat)
    requires i < |s|
    ensures Folded(s[i], i, Siblings(s, i)) == Root(s)
    decreases |s|
  {
    hide DoubleSha256, Parents, Root;
    if |s| == 1 {
      RootSmall(s);
    } else {
      RootStep(s);
      ParentOf(s, i);
      LeafProves(Parents(s), i / 2);
      assert Siblings(s, i)[1..] == Siblings(Parents(s), i / 2);
    }
  }

  lemma ParentOf(s: seq<Hash>, i: nat)
    requires i < |s|
    ensures var sibling := s[if i % 2 == 1 then i - 1 else if i + 1 < |s| then i + 1 else i];
      Parents(s)[i / 2] == if i % 2 == 0 then DoubleSha256(s[i] + sibling) else DoubleSha256(sibling + s[i])
  {
    hide DoubleSha256;
    if i % 2 == 1 { assert 2 * (i / 2) + 1 == i; }
  }

  /** The number of nodes in the levels of a tree of n leaves. */
  function Nodes(n: nat): (c: nat)
    ensures n <= c
  {
    if n <= 1 then n else n + Nodes((n + 1) / 2)
  }

  /** Up to 2^k leaves make fewer than 2^(k+1) nodes, so the ints of calc_merkle_root suffice for 2^30. */
  lemma {:induction false} NodesBound(n: nat, k: nat)
    requires n <= NatBits.Pow2(k)
    ensures Nodes(n) < 2 * NatBits.Pow2(k)
  {
    if n > 1 { NodesBound((n + 1) / 2, k - 1); }
  }

  // ---------- the flat array ----------

  /** calc_merkle_size. */
  method CalcMerkleSize(leafCount: nat) returns (len: nat)
    ensures len == if leafCount == 0 then 1 else Nodes(leafCount)
  {
    len := 0;
    var i := leafCount;
    while i > 1
      invariant leafCount == 0 ==> i == 0 && len == 0
      invariant leafCount > 0 ==> i > 0 && len + Nodes(i) == Nodes(leafCount)
      invariant len == 0 || len >= 2
      invariant len == 0 ==> i == leafCount
    {
      len := len + i;
      i := (i + 1) / 2;
    }
    if len >= 2 {
      len := len + 1;
    } else {
      len := 1;
    }
  }

  /** The pairs of one level, written behind it. */
  method HashLevel(tree: array<Hash>, j: int32, s: int32)
    requires j >= 0 && s > 1 && j + s + (s + 1) / 2 <= tree.Length < 0x8000_0000
    modifies tree
    ensures tree[..][j + s..j + s + (s + 1) / 2] == Parents(old(tree[..])[j..j + s])
    ensures tree[..j + s] == old(tree[..j + s])
  {
    hide DoubleSha256, Parents;
    var i: int32, p: int32 := 0, j + s;
    ghost var level := tree[j..j + s];
    while i < s
      invariant i % 2 == 0 && 0 <= i <= s + 1 && p == j + s + i / 2
      invariant tree[..j + s] == old(tree[..j + s])
      invariant forall q :: 0 <= q < i / 2 ==> tree[j + s + q] == Parents(level)[q]
    {
      var i2: int32 := if i + 1 < s - 1 then i + 1 else s - 1;
      assert tree[j + i] == tree[..j + s][j + i] == level[i] && tree[j + i2] == tree[..j + s][j + i2] == level[i2];
      ParentOf(level, i);
      var parent := HashedPair(tree[j + i], tree[j + i2]);
      tree[p] := parent;
      p := p + 1;
      i := i + 2;
    }
  }

  /** A level of s nodes starts at cell j and ends where the next is to be written; its root is that of the leaves. */
  ghost predicate Level(cells: seq<Hash>, leaves: seq<Hash>, j: int, p: int, s: int) {
    && 0 <= j && 0 <= s && p == j + s <= |cells|
    && (if leaves == [] then p == 0 else s > 0 && j + Nodes(s) == |cells|)
    && Root(cells[j..j + s]) == Root(leaves)
  }

  lemma LevelFirst(cells: seq<Hash>, leaves: seq<Hash>)
    requires |cells| == if leaves == [] then 1 else Nodes(|leaves|)
    requires |leaves| <= |cells| && cells[..|leaves|] == leaves
    ensures Level(cells, leaves, 0, |leaves|, |leaves|)
  {
    hide Root, Nodes;
    assert cells[0..|leaves|] == leaves;
  }

  lemma LevelRoom(cells: seq<Hash>, leaves: seq<Hash>, j: int, p: int, s: int)
    requires Level(cells, leaves, j, p, s)
    ensures 0 <= j && p == j + s <= |cells| && 0 <= s
    ensures s > 1 ==> j + s + (s + 1) / 2 <= |cells|
  {
    hide Root, Nodes;
    NodesStep(s);
    NodesStep((s + 1) / 2);
  }

  lemma LevelNext(cells: seq<Hash>, cells': seq<Hash>, leaves: seq<Hash>, j: int, p: int, s: int)
    requires Level(cells, leaves, j, p, s) && s > 1 && |cells'| == |cells|
    requires j + s + (s + 1) / 2 <= |cells| && cells'[j + s..j + s + (s + 1) / 2] == Parents(cells[j..j + s])
    ensures Level(cells', leaves, j + s, p + (s + 1) / 2, (s + 1) / 2)
  {
    hide Root, Nodes, Parents;
    NodesStep(s);
    RootStep(cells[j..j + s]);
  }

  lemma LevelLast(cells: seq<Hash>, leaves: seq<Hash>, j: int, p: int, s: int)
    requires Level(cells, leaves, j, p, s) && s <= 1
    ensures if p == 0 then Root(leaves) == Zero() else cells != [] && Root(leaves) == cells[|cells| - 1]
  {
    hide Root, Nodes, Zero;
    NodesStep(s);
    RootSmall(cells[j..j + s]);
  }

  /** calc_merkle_root: the flat array holds level after level, and its last cell is the root. */
  method CalcMerkleRoot(txHashes: seq<Hash>) returns (result: Hash)
    requires |txHashes| <= 0x4000_0000
    ensures result == Root(txHashes)
    ensures txHashes == [] ==> |result| == 32 && forall i :: 0 <= i < 32 ==> result[i] == 0
  {
    hide DoubleSha256, Root, Nodes, Parents, Level, Zero;
    var nNodes := CalcMerkleSize(|txHashes|);
    var tree := new Hash[nNodes](_ => Zero());
    NodesStep(|txHashes|);
    IntsSuffice(|txHashes|);
    forall i | 0 <= i < |txHashes| { tree[i] := txHashes[i]; }
    var j: int32, p: int32, s: int32 := 0, |txHashes|, |txHashes|;
    LevelFirst(tree[..], txHashes);
    while s > 1
      invariant Level(tree[..], txHashes, j, p, s)
    {
      ghost var cells := tree[..];
      LevelRoom(cells, txHashes, j, p, s);
      HashLevel(tree, j, s);
      LevelNext(cells, tree[..], txHashes, j, p, s);
      p := p + (s + 1) / 2;
      j := j + s;
      s := (s + 1) / 2;
    }
    LevelLast(tree[..], txHashes, j, p, s);
    ZeroBytes();
    RootSmall(txHashes);
    if p == 0 {
      result := Zero();
    } else {
      result := tree[nNodes - 1];
    }
  }

  lemma IntsSuffice(n: nat)
    requires n <= 0x4000_0000
    ensures Nodes(n) < 0x8000_0000
  {
    hide Nodes;
    HashArith.Powers();
    NodesBound(n, 30);
  }

  lemma NodesStep(s: nat)
    ensures s > 1 ==> Nodes(s) == s + Nodes((s + 1) / 2)
    ensures s <= 1 ==> Nodes(s) == s
    ensures Nodes(s) >= s
  {
  }

  lemma RootStep(s: seq<Hash>)
    requires |s| > 1
    ensures Root(Parents(s)) == Root(s)
  {
    hide DoubleSha256;
  }

  lemma ZeroBytes()
    ensures |Zero()| == 32 && forall i :: 0 <= i < 32 ==> Zero()[i] == 0
  {
  }

  lemma RootSmall(s: seq<Hash>)
    ensures s == [] ==> Root(s) == Zero()
    ensures |s| == 1 ==> Root(s) == s[0]
  {
  }
}
