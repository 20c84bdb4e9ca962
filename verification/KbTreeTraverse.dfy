/** kbtree.h: __kb_traverse, the in-order walk with an explicit stack that grows by doubling. */
module KbTreeTraverse {
  import opened KbTreeModel
  import opened KbTreeEdits
  import opened KbTreeOrder
  import opened KbTreeDel
  import opened KbTreeSearch

  /** __kbstack_t. */
  datatype Frame = Frame(x: KbNode?, i: nat)

  /** The subtree a frame stands for; a leaf's children are null. */
  datatype Pending = Null | At(tr: Tree, i: nat)

  /** What a subtree's children contribute; those of a leaf contribute nothing. */
  function ChildLists(tr: Tree): (r: seq<seq<int>>) {
    if tr.kids == [] then seq(|tr.keys| + 1, _ => []) else Lists(tr.kids)
  }

  lemma {:induction false} WeaveEmpty(ks: seq<int>, cs: seq<seq<int>>)
    requires |cs| == |ks| + 1 && forall j :: 0 <= j < |cs| ==> cs[j] == []
    ensures Weave(ks, cs) == ks
  {
    if ks != [] { WeaveEmpty(ks[1..], cs[1..]); }
  }

  predicate Proper(p: Pending) {
    p.At? ==> p.i <= |p.tr.keys| + 1 && (p.tr.kids != [] ==> |p.tr.kids| == |p.tr.keys| + 1)
  }

  /** What is still to be visited from the frame on top of the stack. */
  function Ahead(p: Pending): seq<int>
    requires Proper(p)
  {
    if p.Null? || p.i > |p.tr.keys| then [] else Weave(p.tr.keys[p.i..], ChildLists(p.tr)[p.i..])
  }

  /** The frame after its current child has been walked and the key behind it visited. */
  function Advanced(p: Pending): Pending
    requires p.At?
  {
    At(p.tr, p.i + 1)
  }

  predicate Busy(p: Pending) {
    Proper(p) && p.At? && p.i <= |p.tr.keys|
  }

  /** What is still to be visited from a frame whose current child is being walked. */
  function Behind(p: Pending): seq<int>
    requires Busy(p)
  {
    (if p.i < |p.tr.keys| then [p.tr.keys[p.i]] else []) + Ahead(Advanced(p))
  }

  function AllBehind(ps: seq<Pending>): seq<int>
    requires forall j :: 0 <= j < |ps| ==> Busy(ps[j])
  {
    if |ps| == 0 then [] else Behind(ps[|ps| - 1]) + AllBehind(ps[..|ps| - 1])
  }

  function Child(p: Pending): Pending
    requires Busy(p)
  {
    if p.tr.kids == [] then Null else At(p.tr.kids[p.i], 0)
  }

  /** Entering the current child. */
  lemma {:induction false} StepIn(p: Pending)
    requires Busy(p) && Proper(Child(p))
    ensures Ahead(p) == Ahead(Child(p)) + Behind(p)
  {
    var ks, cs := p.tr.keys[p.i..], ChildLists(p.tr)[p.i..];
    assert Ahead(p) == cs[0] + (if ks == [] then [] else [ks[0]] + Weave(ks[1..], cs[1..]));
    if p.i < |p.tr.keys| {
      assert ks[1..] == p.tr.keys[p.i + 1..] && cs[1..] == ChildLists(p.tr)[p.i + 1..];
    }
    if p.tr.kids != [] {
      StartOf(p.tr.kids[p.i]);
    }
  }

  lemma {:induction false} StartOf(tr: Tree)
    requires Proper(At(tr, 0))
    ensures Ahead(At(tr, 0)) == InOrder(tr)
  {
    assert tr.keys[0..] == tr.keys && ChildLists(tr)[0..] == ChildLists(tr);
    if tr.kids == [] { WeaveEmpty(tr.keys, ChildLists(tr)); }
  }

  /** Steps a subtree still needs: one per child position. */
  function Work(tr: Tree): nat
    decreases tr, 1
  {
    |tr.keys| + 1 + WorkAll(tr.kids)
  }

  function WorkAll(kids: seq<Tree>): nat
    decreases kids, 0
  {
    if kids == [] then 0 else Work(kids[0]) + WorkAll(kids[1..])
  }

  function WorkAhead(p: Pending): nat
    requires Proper(p)
  {
    if p.Null? || p.i > |p.tr.keys| then 0
    else |p.tr.keys| + 1 - p.i + if p.tr.kids == [] then 0 else WorkAll(p.tr.kids[p.i..])
  }

  function WorkAfter(p: Pending): nat
    requires Busy(p)
  {
    WorkAhead(Advanced(p))
  }

  function WorkBehind(ps: seq<Pending>): nat
    requires forall j :: 0 <= j < |ps| ==> Busy(ps[j])
  {
    if |ps| == 0 then 0 else WorkAfter(ps[|ps| - 1]) + WorkBehind(ps[..|ps| - 1])
  }

  lemma {:induction false} StepInWork(p: Pending)
    requires Busy(p) && Proper(Child(p))
    ensures WorkAhead(p) == 1 + WorkAhead(Child(p)) + WorkAfter(p)
  {
    if p.tr.kids != [] {
      var kid, rest := p.tr.kids[p.i], p.tr.kids[p.i..];
      assert rest[0] == kid && rest[1..] == p.tr.kids[p.i + 1..];
      assert WorkAll(rest) == Work(kid) + WorkAll(rest[1..]);
      assert kid.kids[0..] == kid.kids;
      assert WorkAhead(At(kid, 0)) == Work(kid);
    }
  }

  predicate AllBusy(below: seq<Pending>) {
    forall j :: 0 <= j < |below| ==> Busy(below[j])
  }

  /** The keys visited so far, followed by what the stack still holds, are the whole in-order sequence. */
  predicate Consistent(visited: seq<int>, below: seq<Pending>, top: Pending, tree: Tree) {
    AllBusy(below) && Proper(top) && visited + (Ahead(top) + AllBehind(below)) == InOrder(tree)
  }

  function Todo(below: seq<Pending>, top: Pending): nat
    requires AllBusy(below) && Proper(top)
  {
    WorkAhead(top) + WorkBehind(below)
  }

  lemma {:induction false} Push(below: seq<Pending>, p: Pending)
    requires AllBusy(below) && Busy(p)
    ensures AllBusy(below + [p])
    ensures AllBehind(below + [p]) == Behind(p) + AllBehind(below)
    ensures WorkBehind(below + [p]) == WorkAfter(p) + WorkBehind(below)
  {
    assert (below + [p])[..|below|] == below;
  }

  /** Pushing the current child keeps the account and uses up one step. */
  lemma {:induction false} Enter(visited: seq<int>, below: seq<Pending>, p: Pending, tree: Tree)
    requires Consistent(visited, below, p, tree) && Busy(p) && Proper(Child(p))
    ensures Consistent(visited, below + [p], Child(p), tree)
    ensures Todo(below + [p], Child(p)) == Todo(below, p) - 1
  {
    hide Ahead, Behind, WorkAhead, WorkAfter, AllBehind, WorkBehind, InOrder;
    StepIn(p);
    StepInWork(p);
    Push(below, p);
    Regrouped(visited, Ahead(Child(p)), Behind(p), AllBehind(below));
  }

  lemma Regrouped(a: seq<int>, b: seq<int>, c: seq<int>, d: seq<int>)
    ensures a + ((b + c) + d) == a + (b + (c + d)) == (a + b) + (c + d)
  {
  }

  lemma {:induction false} Exhausted(p: Pending)
    requires Proper(p) && !Busy(p)
    ensures Ahead(p) == [] && WorkAhead(p) == 0
  {
  }

  /** Popping an exhausted frame, visiting the key behind it and advancing the frame below. */
  lemma {:induction false} Leave(visited: seq<int>, below: seq<Pending>, q: Pending, top: Pending, tree: Tree)
    requires AllBusy(below) && Busy(q) && !Busy(top) && Consistent(visited, below + [q], top, tree)
    ensures var v := if q.i < |q.tr.keys| then [q.tr.keys[q.i]] else [];
      Consistent(visited + v, below, Advanced(q), tree)
    ensures Todo(below + [q], top) == Todo(below, Advanced(q))
  {
    hide Ahead, WorkAhead, AllBehind, WorkBehind, InOrder;
    Exhausted(top);
    Push(below, q);
    var v := if q.i < |q.tr.keys| then [q.tr.keys[q.i]] else [];
    assert Behind(q) == v + Ahead(Advanced(q));
    Regrouped(visited, v, Ahead(Advanced(q)), AllBehind(below));
    assert [] + AllBehind(below + [q]) == AllBehind(below + [q]);
  }

  lemma {:induction false} Finished(visited: seq<int>, top: Pending, tree: Tree)
    requires !Busy(top) && Consistent(visited, [], top, tree)
    ensures visited == InOrder(tree)
  {
    Exhausted(top);
  }

  /** Level j of the stack stands for a subtree of height height-j, or for a leaf's null child. */
  ghost predicate Level(t: nat, tree: Tree, p: Pending, h: int) {
    p.At? ==> h >= 0 && p.tr in SelfAndBelow(tree) && Balanced(t, p.tr, h) && p.i <= |p.tr.keys| + 1
  }

  predicate Matches(f: Frame, p: Pending) {
    if p.Null? then f.x == null else f.x == p.tr.node && f.i == p.i
  }

  lemma {:induction false} BelowIsTransitive(tr: Tree, kids: seq<Tree>, i: nat)
    requires tr in Subtrees(kids) && i < |tr.kids|
    ensures tr.kids[i] in Subtrees(kids)
    decreases kids
  {
    if tr in SelfAndBelow(kids[0]) {
      if tr == kids[0] { KidIsBelow(tr.kids, i); } else { BelowIsTransitive(tr, kids[0].kids, i); }
    } else {
      BelowIsTransitive(tr, kids[1..], i);
    }
  }

  lemma {:induction false} KidIsBelow(kids: seq<Tree>, i: nat)
    requires i < |kids|
    ensures kids[i] in Subtrees(kids)
  {
    if i > 0 { KidIsBelow(kids[1..], i - 1); }
  }

  lemma {:induction false} LevelFacts(t: nat, tree: Tree, p: Pending, h: int, repr: set<KbNode>)
    requires Level(t, tree, p, h) && t >= 2 && Rep(t, tree) && Footprint(tree) == repr
    ensures Proper(p)
    ensures p.At? ==> p.tr.node in repr && p.tr.node.n == |p.tr.keys| <= |p.tr.node.keys|
    ensures p.At? ==> p.tr.node.isInternal == (p.tr.kids != [])
    ensures p.At? ==> forall j :: 0 <= j < p.tr.node.n ==> p.tr.node.keys[j] == p.tr.keys[j]
    ensures Busy(p) ==> Level(t, tree, Child(p), h - 1) && Proper(Child(p))
    ensures Busy(p) && p.tr.kids != [] ==> p.i < |p.tr.node.ptr| && p.tr.node.ptr[p.i] == p.tr.kids[p.i].node
  {
    if p.At? {
      BalancedParts(t, p.tr, h);
      assert NodeHolds(t, p.tr);
      ImageBounds(t, p.tr.node, p.tr);
      if Busy(p) && p.tr.kids != [] {
        KidBalanced(t, p.tr, h, p.i);
        BalancedParts(t, p.tr.kids[p.i], h - 1);
        Single(tree);
        assert Subtrees([tree]) == SelfAndBelow(tree);
        BelowIsTransitive(p.tr, [tree], p.i);
      }
    }
  }

  ghost predicate Aligned(t: nat, tree: Tree, height: nat, frames: seq<Frame>, ps: seq<Pending>) {
    |frames| == |ps| &&
    forall j :: 0 <= j < |ps| ==> Level(t, tree, ps[j], height - j) && Matches(frames[j], ps[j])
  }

  lemma AlignedAt(t: nat, tree: Tree, height: nat, frames: seq<Frame>, ps: seq<Pending>, j: nat)
    requires Aligned(t, tree, height, frames, ps) && j < |ps|
    ensures |frames| == |ps| && Level(t, tree, ps[j], height - j) && Matches(frames[j], ps[j])
    ensures Aligned(t, tree, height, frames[..j], ps[..j])
  {
  }

  lemma AlignedPush(t: nat, tree: Tree, height: nat, frames: seq<Frame>, ps: seq<Pending>, f: Frame, p: Pending)
    requires Aligned(t, tree, height, frames, ps) && Level(t, tree, p, height - |ps|) && Matches(f, p)
    ensures Aligned(t, tree, height, frames + [f], ps + [p])
  {
  }

  /** Growing the stack: the frames in use keep their places. */
  method Reserve(stack: array<Frame>, kp: nat, kmax: nat) returns (stack': array<Frame>, kmax': nat)
    requires kp < kmax == stack.Length
    ensures stack'.Length == kmax' && kp + 1 < kmax' && (stack' == stack || fresh(stack'))
    ensures stack'[..kp + 1] == stack[..kp + 1]
  {
    stack', kmax' := stack, kmax;
    if kp == kmax - 1 {
      kmax' := 2 * kmax;
      stack' := new Frame[kmax'](_ => Frame(null, 0));
      forall j | 0 <= j < kmax { stack'[j] := stack[j]; }
    }
  }

  /** One pass of the inner loop: the child at the frame's index is pushed. */
  method PushOne(t: nat, stack0: array<Frame>, kp0: nat, kmax0: nat, ghost tree: Tree, ghost height: nat,
              ghost repr: set<KbNode>, ghost visited: seq<int>, ghost below0: seq<Pending>, ghost top0: Pending)
    returns (stack: array<Frame>, kp: nat, kmax: nat, ghost below: seq<Pending>, ghost top: Pending)
    requires t >= 2 && Rep(t, tree) && Footprint(tree) == repr && |below0| == kp0 < kmax0 == stack0.Length
    requires Aligned(t, tree, height, stack0[..kp0 + 1], below0 + [top0]) && Consistent(visited, below0, top0, tree)
    requires Matches(stack0[kp0], top0) && Level(t, tree, top0, height - kp0) && Busy(top0)
    modifies stack0
    ensures stack == stack0 || fresh(stack)
    ensures Rep(t, tree) && kp < kmax == stack.Length && |below| == kp
    ensures Aligned(t, tree, height, stack[..kp + 1], below + [top]) && Consistent(visited, below, top, tree)
    ensures Todo(below, top) < Todo(below0, top0)
    ensures Matches(stack[kp], top) && Level(t, tree, top, height - kp)
  {
    hide Balanced, Image, Footprint, InOrder, SelfAndBelow, Todo, Level, Ahead, AllBehind, Aligned, Consistent;
    stack, kp, kmax := stack0, kp0, kmax0;
    LevelFacts(t, tree, top0, height - kp, repr);
    Enter(visited, below0, top0, tree);
    ghost var frames := stack[..kp + 1];
    stack, kmax := Reserve(stack, kp, kmax);
    assert stack[kp] == stack[..kp + 1][kp] == frames[kp];
    stack[kp + 1] := Frame(if stack[kp].x.isInternal then stack[kp].x.ptr[stack[kp].i] else null, 0);
    kp := kp + 1;
    assert stack[..kp + 1] == frames + [stack[kp]];
    AlignedPush(t, tree, height, frames, below0 + [top0], stack[kp], Child(top0));
    below, top := below0 + [top0], Child(top0);
  }

  /** The inner loop: descends to the leftmost unfinished position. */
  method PushAll(t: nat, stack0: array<Frame>, kp0: nat, kmax0: nat, ghost tree: Tree, ghost height: nat,
                 ghost repr: set<KbNode>, ghost visited: seq<int>, ghost below0: seq<Pending>, ghost top0: Pending)
    returns (stack: array<Frame>, kp: nat, kmax: nat, ghost below: seq<Pending>, ghost top: Pending)
    requires t >= 2 && Rep(t, tree) && Footprint(tree) == repr && |below0| == kp0 < kmax0 == stack0.Length
    requires Aligned(t, tree, height, stack0[..kp0 + 1], below0 + [top0]) && Consistent(visited, below0, top0, tree)
    modifies stack0
    ensures stack == stack0 || fresh(stack)
    ensures Rep(t, tree) && kp < kmax == stack.Length
    ensures Aligned(t, tree, height, stack[..kp + 1], below + [top]) && Consistent(visited, below, top, tree)
    ensures !Busy(top) && |below| == kp
    ensures Todo(below, top) < Todo(below0, top0) || (Todo(below, top) == Todo(below0, top0) && kp == kp0)
  {
    hide Balanced, Image, Footprint, InOrder, SelfAndBelow, Todo, Level, Ahead, AllBehind, Aligned;
    stack, kp, kmax, below, top := stack0, kp0, kmax0, below0, top0;
    AlignedAt(t, tree, height, stack[..kp + 1], below + [top], kp);
    LevelFacts(t, tree, top, height - kp, repr);
    while stack[kp].x != null && stack[kp].i <= stack[kp].x.n
      invariant Rep(t, tree) && (stack == stack0 || fresh(stack)) && kp < kmax == stack.Length
      invariant Aligned(t, tree, height, stack[..kp + 1], below + [top]) && Consistent(visited, below, top, tree)
      invariant Todo(below, top) < Todo(below0, top0) || (Todo(below, top) == Todo(below0, top0) && kp == kp0)
      invariant |below| == kp && Matches(stack[kp], top) && Level(t, tree, top, height - kp)
      decreases Todo(below, top)
    {
      LevelFacts(t, tree, top, height - kp, repr);
      stack, kp, kmax, below, top := PushOne(t, stack, kp, kmax, tree, height, repr, visited, below, top);
    }
    LevelFacts(t, tree, top, height - kp, repr);
  }

  /** Back at frame kp: its next key is visited, and its index moves on. */
  method Return(t: nat, stack: array<Frame>, kp: nat, ghost tree: Tree, ghost height: nat, ghost repr: set<KbNode>,
                visited0: seq<int>, ghost rest: seq<Pending>, ghost q: Pending, ghost top: Pending)
    returns (visited: seq<int>)
    requires t >= 2 && Rep(t, tree) && Footprint(tree) == repr && |rest| == kp && kp + 1 < stack.Length
    requires Aligned(t, tree, height, stack[..kp + 2], rest + [q] + [top])
    requires Consistent(visited0, rest + [q], top, tree) && !Busy(top)
    modifies stack
    ensures Rep(t, tree) && q.At?
    ensures Aligned(t, tree, height, stack[..kp + 1], rest + [Advanced(q)])
    ensures Consistent(visited, rest, Advanced(q), tree)
    ensures Todo(rest, Advanced(q)) <= Todo(rest + [q], top)
  {
    hide Balanced, Image, Footprint, InOrder, SelfAndBelow, Todo, Level, Ahead, AllBehind, Aligned;
    visited := visited0;
    ghost var frames, ps := stack[..kp + 2], rest + [q] + [top];
    assert ps[kp] == q && ps[..kp] == rest;
    AlignedAt(t, tree, height, frames, ps, kp);
    AlignedAt(t, tree, height, frames, ps, kp + 1);
    assert frames[kp] == stack[kp] && frames[..kp] == stack[..kp];
    LevelFacts(t, tree, q, height - kp, repr);
    Leave(visited, rest, q, top, tree);
    if stack[kp].x != null && stack[kp].i < stack[kp].x.n {
      visited := visited + [stack[kp].x.keys[stack[kp].i]];
    }
    AdvancedLevel(t, tree, Advanced(q), height - kp);
    stack[kp] := stack[kp].(i := stack[kp].i + 1);
    assert stack[..kp + 1] == frames[..kp] + [stack[kp]];
    AlignedPush(t, tree, height, frames[..kp], rest, stack[kp], Advanced(q));
  }

  /** __kb_traverse; `visited` collects the keys handed to the callback, in order. */
  method Traverse(t: nat, root: KbNode, ghost tree: Tree, ghost height: nat, ghost repr: set<KbNode>)
    returns (visited: seq<int>)
    requires t >= 2 && Balanced(t, tree, height) && Rep(t, tree) && root == tree.node && Footprint(tree) == repr
    ensures visited == InOrder(tree)
  {
    hide Balanced, Image, Footprint, InOrder, SelfAndBelow, Todo, Level, Ahead, AllBehind, Aligned;
    visited := [];
    var kmax: nat := 8;
    var stack := new Frame[kmax](_ => Frame(null, 0));
    var kp: int := 0;
    stack[0] := Frame(root, 0);
    ghost var below, top := [], At(tree, 0);
    Start(t, tree, height);
    AlignedPush(t, tree, height, [], [], stack[0], top);
    assert stack[..1] == [] + [stack[0]];
    while true
      invariant Rep(t, tree) && fresh(stack) && 0 <= kp == |below| < kmax == stack.Length
      invariant Aligned(t, tree, height, stack[..kp + 1], below + [top]) && Consistent(visited, below, top, tree)
      decreases Todo(below, top), kp
    {
      stack, kp, kmax, below, top := PushAll(t, stack, kp, kmax, tree, height, repr, visited, below, top);
      kp := kp - 1;
      if kp < 0 {
        assert below == [];
        Finished(visited, top, tree);
        break;
      }
      ghost var rest, q := below[..kp], below[kp];
      assert below == rest + [q];
      visited := Return(t, stack, kp, tree, height, repr, visited, rest, q, top);
      below, top := rest, Advanced(q);
    }
  }

  lemma {:induction false} AdvancedLevel(t: nat, tree: Tree, p: Pending, h: int)
    ensures p.At? && p.i > 0 && Busy(At(p.tr, p.i - 1)) && Level(t, tree, At(p.tr, p.i - 1), h) ==> Level(t, tree, p, h)
  {
  }

  lemma {:induction false} Start(t: nat, tree: Tree, h: nat)
    requires Balanced(t, tree, h)
    ensures Level(t, tree, At(tree, 0), h) && Aligned(t, tree, h, [], [])
    ensures Consistent([], [], At(tree, 0), tree)
  {
    BalancedParts(t, tree, h);
    StartOf(tree);
  }
}
