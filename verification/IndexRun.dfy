/** src/bzing.c: what adding blocks and transactions does to the index, and what a whole run of them leaves behind. */
module IndexRun {
  import opened Options
  import opened VarInt
  import opened DoubleSha
  import opened SpentWord
  import opened SpentMap
  import opened BlockFormat

  // ---------- one transaction, one block header ----------

  /** The inputs of a transaction at `offset` spend outputs; None when one of them names a transaction or an
    * output that is not there, or there is no room. */
  function MarkIns(ix: Index, ins: seq<TxIn>, offset: nat): Option<Index>
    decreases |ins|
  {
    if ins == [] then Some(ix)
    else
      var o := ins[0].outpoint;
      if |o| == 36 && CanMark(ix, o[..32], LeNat(o[32..36])) then
        MarkIns(Mark(ix, o[..32], LeNat(o[32..36]), offset), ins[1..], offset)
      else None
  }

  function TxHash(t: Tx): Hash {
    DoubleSha256(SerTx(t))
  }

  function TxEntry(t: Tx, offset: nat): Entry {
    Entry(offset, Fresh(|t.outs| % 0x1_0000_0000))
  }

  /** The first transaction of a block spends nothing. */
  function AddTx(ix: Index, t: Tx, offset: nat, coinbase: bool): Option<Index> {
    var marked := if coinbase then Some(ix) else MarkIns(ix, t.ins, offset);
    if marked.Some? then Some(Put(marked.value, TxHash(t), TxEntry(t, offset))) else None
  }

  function WithBlock(ix: Index, header: seq<octet>, offset: nat): Index {
    Put(ix, DoubleSha256(header), Entry(offset, SpentWord.Block))
  }

  // ---------- runs ----------

  /** What is indexed, one at a time, and the offset it is indexed at: a block at the end of its header. */
  datatype Step = OfBlock(header: seq<octet>, offset: nat) | OfTx(t: Tx, offset: nat, coinbase: bool)

  function HashOf(s: Step): Hash {
    match s
    case OfBlock(header, _) => DoubleSha256(header)
    case OfTx(t, _, _) => TxHash(t)
  }

  function Apply(ix: Index, s: Step): Option<Index> {
    match s
    case OfBlock(header, offset) => Some(WithBlock(ix, header, offset))
    case OfTx(t, offset, coinbase) => AddTx(ix, t, offset, coinbase)
  }

  function Run(ix: Index, steps: seq<Step>): Option<Index>
    decreases |steps|
  {
    if steps == [] then Some(ix)
    else
      var next := Apply(ix, steps[0]);
      if next.Some? then Run(next.value, steps[1..]) else None
  }

  /** Transactions one behind the other, the first of them at `offset`. */
  function TxSteps(txs: seq<Tx>, offset: nat, coinbase: bool): seq<Step>
    decreases |txs|
  {
    if txs == [] then [] else [OfTx(txs[0], offset, coinbase)] + TxSteps(txs[1..], offset + |SerTx(txs[0])|, false)
  }

  /** The block whose header lies at `outer`. */
  function BlockSteps(b: BlockFormat.Block, outer: nat): seq<Step> {
    [OfBlock(b.header, outer + 80)] + TxSteps(b.txs, outer + 80 + |b.nTx|, true)
  }

  /** A file of blocks, each behind eight bytes. */
  function FileSteps(fs: seq<Frame>, at: nat): seq<Step>
    decreases |fs|
  {
    if fs == [] then []
    else BlockSteps(fs[0].block, at + 8) + FileSteps(fs[1..], at + 8 + |SerBlock(fs[0].block)|)
  }

  function AddTxs(ix: Index, txs: seq<Tx>, offset: nat, coinbase: bool): Option<Index> {
    Run(ix, TxSteps(txs, offset, coinbase))
  }

  function AddBlock(ix: Index, b: BlockFormat.Block, outer: nat): Option<Index> {
    Run(ix, BlockSteps(b, outer))
  }

  function AddFrames(ix: Index, fs: seq<Frame>, at: nat): Option<Index> {
    Run(ix, FileSteps(fs, at))
  }

  lemma RunFirst(ix: Index, s: Step, rest: seq<Step>)
    ensures Run(ix, [s] + rest) == if Apply(ix, s).Some? then Run(Apply(ix, s).value, rest) else None
  {
    hide Apply;
    assert ([s] + rest)[0] == s && ([s] + rest)[1..] == rest;
  }

  lemma RunNothing(ix: Index)
    ensures Run(ix, []) == Some(ix)
  {
  }

  lemma TxsStep(ix: Index, txs: seq<Tx>, offset: nat, coinbase: bool)
    requires txs != []
    ensures var next := AddTx(ix, txs[0], offset, coinbase);
      AddTxs(ix, txs, offset, coinbase) ==
        if next.Some? then AddTxs(next.value, txs[1..], offset + |SerTx(txs[0])|, false) else None
  {
    hide Run, AddTx, SerTx;
    RunFirst(ix, OfTx(txs[0], offset, coinbase), TxSteps(txs[1..], offset + |SerTx(txs[0])|, false));
  }

  lemma BlockStep(ix: Index, b: BlockFormat.Block, outer: nat)
    ensures AddBlock(ix, b, outer) ==
      AddTxs(WithBlock(ix, b.header, outer + 80), b.txs, outer + 80 + |b.nTx|, true)
  {
    hide Run, TxSteps, WithBlock;
    RunFirst(ix, OfBlock(b.header, outer + 80), TxSteps(b.txs, outer + 80 + |b.nTx|, true));
  }

  lemma FramesStep(ix: Index, fs: seq<Frame>, at: nat)
    requires fs != [] && AddFrames(ix, fs, at).Some?
    ensures AddBlock(ix, fs[0].block, at + 8).Some?
    ensures AddFrames(ix, fs, at) ==
      AddFrames(AddBlock(ix, fs[0].block, at + 8).value, fs[1..], at + 8 + |SerBlock(fs[0].block)|)
  {
    hide SerBlock, BlockSteps, Run;
    RunConcat(ix, BlockSteps(fs[0].block, at + 8), FileSteps(fs[1..], at + 8 + |SerBlock(fs[0].block)|));
  }

  lemma {:induction false} RunConcat(ix: Index, a: seq<Step>, b: seq<Step>)
    ensures Run(ix, a + b) == if Run(ix, a).Some? then Run(Run(ix, a).value, b) else None
    decreases |a|
  {
    hide Apply;
    if a == [] {
      assert a + b == b;
    } else {
      assert (a + b)[0] == a[0] && (a + b)[1..] == a[1..] + b;
      var next := Apply(ix, a[0]);
      if next.Some? { RunConcat(next.value, a[1..], b); }
    }
  }

  /** A run seen from its last step. */
  lemma RunLast(ix: Index, steps: seq<Step>) returns (before: Index, last: Step, after: Index)
    requires steps != [] && Run(ix, steps).Some?
    ensures last == steps[|steps| - 1] && after == Run(ix, steps).value
    ensures Run(ix, steps[..|steps| - 1]) == Some(before) && Apply(before, last) == Some(after)
  {
    hide Apply;
    last := steps[|steps| - 1];
    assert steps == steps[..|steps| - 1] + [last];
    RunConcat(ix, steps[..|steps| - 1], [last]);
    before := Run(ix, steps[..|steps| - 1]).value;
    assert [last][1..] == [];
    after := Run(before, [last]).value;
  }

  // ---------- what one step does to an entry ----------

  /** Outputs that can be spent: marks on a block, or on a transaction without outputs, do nothing. */
  predicate HasOuts(st: Status) {
    !st.Block? && st != Fresh(0)
  }

  /** How many outputs the entry says there are; a block has no number. */
  function OutCount(st: Status): Option<nat> {
    match st
    case Block => None
    case Fresh(n) => Some(n)
    case Spent(_, n, _) => Some(n)
  }

  /** Where output i is spent. */
  function SpenderOf(st: Status, i: nat): Option<nat> {
    if st.Spent? && i in st.spenders then Some(st.spenders[i]) else None
  }

  predicate NamesOutput(t: TxIn, h: Hash, i: nat) {
    |t.outpoint| == 36 && t.outpoint[..32] == h && LeNat(t.outpoint[32..36]) == i
  }

  /** Some input names output i of transaction h. */
  predicate Names(ins: seq<TxIn>, h: Hash, i: nat) {
    exists j :: 0 <= j < |ins| && NamesOutput(ins[j], h, i)
  }

  predicate Spends(s: Step, h: Hash, i: nat) {
    s.OfTx? && !s.coinbase && Names(s.t.ins, h, i)
  }

  /** How many outputs a transaction has, as far as 32 bits tell. */
  function OutsOf(s: Step): Option<nat> {
    if s.OfTx? then Some(|s.t.outs| % 0x1_0000_0000) else None
  }

  /** A transaction whose outputs can be spent, as far as that number tells. */
  predicate Spendable(s: Step) {
    s.OfTx? && |s.t.outs| % 0x1_0000_0000 != 0
  }

  /** The entry e became e' and nothing but the spender of output i may differ. */
  predicate Spent1(e: Entry, e': Entry, i: nat, offset: Option<nat>) {
    && e'.offset == e.offset && HasOuts(e'.status) == HasOuts(e.status) && OutCount(e'.status) == OutCount(e.status)
    && SpenderOf(e'.status, i) == if offset.Some? && HasOuts(e.status) then offset else SpenderOf(e.status, i)
  }

  lemma MarkEffect(ix: Index, h0: Hash, i0: nat, offset: nat, h: Hash, i: nat)
    requires CanMark(ix, h0, i0)
    ensures h in Mark(ix, h0, i0, offset).entries <==> h in ix.entries
    ensures h in ix.entries ==>
      Spent1(ix.entries[h], Mark(ix, h0, i0, offset).entries[h], i, if h == h0 && i == i0 then Some(offset) else None)
  {
  }

  /** All inputs of a transaction: exactly the outputs they name are spent, at the transaction's offset. */
  lemma {:induction false} MarkInsEffect(ix: Index, ins: seq<TxIn>, offset: nat, h: Hash, i: nat)
    requires MarkIns(ix, ins, offset).Some?
    ensures var ix' := MarkIns(ix, ins, offset).value;
      && (h in ix'.entries <==> h in ix.entries)
      && (h in ix.entries ==>
            Spent1(ix.entries[h], ix'.entries[h], i, if Names(ins, h, i) then Some(offset) else None))
    ensures Names(ins, h, i) ==> h in ix.entries
    decreases |ins|
  {
    hide LeNat, Mark;
    if ins != [] {
      var o := ins[0].outpoint;
      var h0, i0 := o[..32], LeNat(o[32..36]);
      MarkEffect(ix, h0, i0, offset, h, i);
      MarkInsEffect(Mark(ix, h0, i0, offset), ins[1..], offset, h, i);
      NamesFirst(ins, h, i);
    }
  }

  lemma NamesFirst(ins: seq<TxIn>, h: Hash, i: nat)
    requires ins != []
    ensures Names(ins, h, i) <==> NamesOutput(ins[0], h, i) || Names(ins[1..], h, i)
  {
    hide NamesOutput;
    if j :| 0 <= j < |ins| && NamesOutput(ins[j], h, i) {
      if j > 0 { assert ins[1..][j - 1] == ins[j]; }
    }
    if j :| 0 <= j < |ins[1..]| && NamesOutput(ins[1..][j], h, i) {
      assert ins[j + 1] == ins[1..][j];
    }
  }

  /** A step puts its own entry, unspent, and of every other entry it changes the outputs it spends. */
  lemma StepEffect(ix: Index, s: Step, h: Hash, i: nat)
    requires Apply(ix, s).Some?
    ensures var ix' := Apply(ix, s).value;
      && (h in ix'.entries <==> h == HashOf(s) || h in ix.entries)
      && (h == HashOf(s) ==>
            && ix'.entries[h].offset == s.offset && HasOuts(ix'.entries[h].status) == Spendable(s)
            && OutCount(ix'.entries[h].status) == OutsOf(s)
            && SpenderOf(ix'.entries[h].status, i) == None)
      && (h != HashOf(s) && h in ix.entries ==>
            Spent1(ix.entries[h], ix'.entries[h], i, if Spends(s, h, i) then Some(s.offset) else None))
    ensures Spends(s, h, i) ==> h in ix.entries
  {
    hide TxHash, DoubleSha256, Names, Spent1;
    if s.OfTx? && !s.coinbase {
      MarkInsEffect(ix, s.t.ins, s.offset, h, i);
    } else if h in ix.entries {
      Spent1Same(ix.entries[h], i);
    }
  }

  lemma Spent1Same(e: Entry, i: nat)
    ensures Spent1(e, e, i, None)
  {
  }

  // ---------- what a run leaves behind ----------

  /** No step after the first n touches hash h. */
  ghost predicate NotPutFrom(steps: seq<Step>, n: nat, h: Hash) {
    forall k :: n <= k < |steps| ==> HashOf(steps[k]) != h
  }

  ghost predicate NotSpentFrom(steps: seq<Step>, n: nat, h: Hash, i: nat) {
    forall k :: n <= k < |steps| ==> !Spends(steps[k], h, i)
  }

  predicate Describes(e: Entry, s: Step) {
    e.offset == s.offset && HasOuts(e.status) == Spendable(s) && OutCount(e.status) == OutsOf(s)
  }

  /** The entry e is that of the last step with hash h. */
  ghost predicate PutLast(steps: seq<Step>, h: Hash, e: Entry) {
    exists j :: 0 <= j < |steps| && HashOf(steps[j]) == h && NotPutFrom(steps, j + 1, h) && Describes(e, steps[j])
  }

  /** The last step with hash h decides where h leads; a hash no step has leads where it led before. */
  lemma {:induction false} LastPut(ix: Index, steps: seq<Step>, h: Hash)
    requires Run(ix, steps).Some?
    ensures var ix' := Run(ix, steps).value;
      if NotPutFrom(steps, 0, h) then
        && (h in ix'.entries <==> h in ix.entries)
        && (h in ix.entries ==>
              && ix'.entries[h].offset == ix.entries[h].offset
              && HasOuts(ix'.entries[h].status) == HasOuts(ix.entries[h].status)
              && OutCount(ix'.entries[h].status) == OutCount(ix.entries[h].status))
      else
        h in ix'.entries && PutLast(steps, h, ix'.entries[h])
    decreases |steps|
  {
    hide HashOf, Apply, Run, HasOuts, Spendable, SpenderOf, OutCount, OutsOf, PutLast, NotPutFrom;
    if steps == [] {
      RunNothing(ix);
      NotPutBefore(steps, h);
    } else {
      var before, last, after := RunLast(ix, steps);
      NotPutBefore(steps, h);
      StepEffect(before, last, h, 0);
      LastPut(ix, steps[..|steps| - 1], h);
      if HashOf(last) == h {
        PutJustNow(steps, h, after.entries[h]);
      } else if !NotPutFrom(steps, 0, h) {
        PutEarlier(steps, h, before.entries[h], after.entries[h]);
      }
    }
  }

  lemma NotPutBefore(steps: seq<Step>, h: Hash)
    ensures steps == [] ==> NotPutFrom(steps, 0, h)
    ensures steps != [] ==>
      (NotPutFrom(steps, 0, h) <==>
         NotPutFrom(steps[..|steps| - 1], 0, h) && HashOf(steps[|steps| - 1]) != h)
  {
    hide HashOf;
    if steps != [] {
      var init := steps[..|steps| - 1];
      assert forall k :: 0 <= k < |init| ==> init[k] == steps[k];
    }
  }

  lemma PutJustNow(steps: seq<Step>, h: Hash, e: Entry)
    requires steps != [] && HashOf(steps[|steps| - 1]) == h && Describes(e, steps[|steps| - 1])
    ensures PutLast(steps, h, e)
  {
    hide HashOf, Describes;
    assert NotPutFrom(steps, |steps|, h);
  }

  lemma PutEarlier(steps: seq<Step>, h: Hash, e: Entry, e': Entry)
    requires steps != [] && HashOf(steps[|steps| - 1]) != h && PutLast(steps[..|steps| - 1], h, e)
    requires e'.offset == e.offset && HasOuts(e'.status) == HasOuts(e.status)
    requires OutCount(e'.status) == OutCount(e.status)
    ensures PutLast(steps, h, e')
  {
    hide HashOf, HasOuts, Spendable, OutCount, OutsOf;
    var init := steps[..|steps| - 1];
    var j :| 0 <= j < |init| && HashOf(init[j]) == h && NotPutFrom(init, j + 1, h) && Describes(e, init[j]);
    assert forall k :: 0 <= k < |init| ==> init[k] == steps[k];
    assert NotPutFrom(steps, j + 1, h) && Describes(e', steps[j]);
  }

  // ---------- what is still as it was put ----------

  /** The first mark of a transaction reserves a slot for each of its outputs, behind those handed out before; other
    * marks reserve none. */
  lemma MarkReserves(ix: Index, h: Hash, i: nat, offset: nat)
    requires CanMark(ix, h, i)
    ensures var st, ix' := ix.entries[h].status, Mark(ix, h, i, offset);
      if st.Fresh? && st.nOut > 0 then
        && ix'.len == ix.len + st.nOut && ix'.entries[h].status == Spent(ix.len, st.nOut, map[i := offset])
        && ix'.size == if 8 * ix'.len > ix.size then 2 * ix.size else ix.size
      else ix'.len == ix.len && ix'.size == ix.size
  {
  }

  /** The input spends no output of h. */
  predicate NamesNothing(t: TxIn, h: Hash) {
    |t.outpoint| != 36 || t.outpoint[..32] != h
  }

  predicate SpendsNone(s: Step, h: Hash) {
    !s.OfTx? || s.coinbase || forall j :: 0 <= j < |s.t.ins| ==> NamesNothing(s.t.ins[j], h)
  }

  lemma {:induction false} MarkInsElsewhere(ix: Index, ins: seq<TxIn>, offset: nat, h: Hash)
    requires MarkIns(ix, ins, offset).Some? && h in ix.entries
    requires forall j :: 0 <= j < |ins| ==> NamesNothing(ins[j], h)
    ensures var ix' := MarkIns(ix, ins, offset).value;
      h in ix'.entries && ix'.entries[h] == ix.entries[h]
    decreases |ins|
  {
    hide LeNat;
    if ins != [] {
      var o := ins[0].outpoint;
      MarkInsElsewhere(Mark(ix, o[..32], LeNat(o[32..36]), offset), ins[1..], offset, h);
    }
  }

  /** What a step puts. */
  function PutBy(s: Step): Entry {
    match s
    case OfBlock(_, offset) => Entry(offset, SpentWord.Block)
    case OfTx(t, offset, _) => Entry(offset, Fresh(|t.outs| % 0x1_0000_0000))
  }

  /** As long as no later step spends one of its outputs, the entry of the last step with hash h stays what it was:
    * a block, or a transaction with that many unspent outputs. */
  lemma {:induction false} UnspentStays(ix: Index, steps: seq<Step>, j: nat, h: Hash)
    requires Run(ix, steps).Some? && j < |steps| && HashOf(steps[j]) == h && NotPutFrom(steps, j + 1, h)
    requires forall k :: j < k < |steps| ==> SpendsNone(steps[k], h)
    ensures var ix' := Run(ix, steps).value;
      h in ix'.entries && ix'.entries[h] == PutBy(steps[j])
    decreases |steps|
  {
    hide HashOf, Run, TxHash, DoubleSha256;
    var before, last, after := RunLast(ix, steps);
    var n := |steps| - 1;
    if j < n {
      assert forall k :: 0 <= k < n ==> steps[..n][k] == steps[k];
      UnspentStays(ix, steps[..n], j, h);
      OtherStep(before, last, h);
    } else {
      OwnStep(before, last);
    }
  }

  lemma OwnStep(ix: Index, s: Step)
    requires Apply(ix, s).Some?
    ensures HashOf(s) in Apply(ix, s).value.entries && Apply(ix, s).value.entries[HashOf(s)] == PutBy(s)
  {
    hide DoubleSha256, MarkIns, SerTx;
  }

  lemma OtherStep(ix: Index, s: Step, h: Hash)
    requires Apply(ix, s).Some? && h in ix.entries && HashOf(s) != h && SpendsNone(s, h)
    ensures h in Apply(ix, s).value.entries && Apply(ix, s).value.entries[h] == ix.entries[h]
  {
    hide DoubleSha256, SerTx;
    if s.OfTx? && !s.coinbase { MarkInsElsewhere(ix, s.t.ins, s.offset, h); }
  }

  /** Step j spends output i of h, and nothing after it spends that output or puts h anew. */
  ghost predicate LastSpend(steps: seq<Step>, j: nat, h: Hash, i: nat) {
    && j < |steps| && Spends(steps[j], h, i)
    && NotPutFrom(steps, j, h) && NotSpentFrom(steps, j + 1, h, i)
  }

  /** The last step that spends an output is its recorded spender. */
  lemma {:induction false} LastSpendRecorded(ix: Index, steps: seq<Step>, j: nat, h: Hash, i: nat)
    requires Run(ix, steps).Some? && LastSpend(steps, j, h, i)
    ensures var ix' := Run(ix, steps).value;
      && h in ix'.entries
      && (HasOuts(ix'.entries[h].status) ==> SpenderOf(ix'.entries[h].status, i) == Some(steps[j].offset))
    decreases |steps|
  {
    hide HashOf, Apply, Run, Spends;
    var before, last, after := RunLast(ix, steps);
    var n := |steps| - 1;
    StepEffect(before, last, h, i);
    if j < n {
      assert forall k :: 0 <= k < n ==> steps[..n][k] == steps[k];
      LastSpendRecorded(ix, steps[..n], j, h, i);
    }
  }

  /** The last step that spends output i of h lies at offset o. */
  ghost predicate LastSpentAt(steps: seq<Step>, h: Hash, i: nat, o: nat) {
    exists j: nat :: LastSpend(steps, j, h, i) && steps[j].offset == o
  }

  /** Every recorded spender is the last step that spends the output, or it was recorded before the run and
    * nothing has touched it since. */
  lemma {:induction false} SpenderSpends(ix: Index, steps: seq<Step>, h: Hash, i: nat)
    requires Run(ix, steps).Some? && h in Run(ix, steps).value.entries
    ensures match SpenderOf(Run(ix, steps).value.entries[h].status, i)
            case None =>
              NotPutFrom(steps, 0, h) && NotSpentFrom(steps, 0, h, i) && h in ix.entries ==>
                SpenderOf(ix.entries[h].status, i) == None
            case Some(o) =>
              || LastSpentAt(steps, h, i, o)
              || (NotPutFrom(steps, 0, h) && NotSpentFrom(steps, 0, h, i) && h in ix.entries &&
                    SpenderOf(ix.entries[h].status, i) == Some(o))
    decreases |steps|
  {
    hide HashOf, Apply, Run, Spends, SpenderOf, HasOuts, NotPutFrom, NotSpentFrom, LastSpentAt;
    if steps == [] {
      RunNothing(ix);
      UntouchedBefore(steps, h, i);
    } else {
      var before, last, after := RunLast(ix, steps);
      StepEffect(before, last, h, i);
      UntouchedBefore(steps, h, i);
      var spender := SpenderOf(after.entries[h].status, i);
      if spender.Some? {
        SpenderHasOuts(after.entries[h].status, i);
      }
      if spender.Some? && Spends(last, h, i) {
        SpentJustNow(steps, h, i);
      } else if HashOf(last) != h {
        SpenderSpends(ix, steps[..|steps| - 1], h, i);
        if spender.Some? && LastSpentAt(steps[..|steps| - 1], h, i, spender.value) {
          SpentEarlier(steps, h, i, spender.value);
        }
      }
    }
  }

  lemma UntouchedBefore(steps: seq<Step>, h: Hash, i: nat)
    ensures steps == [] ==> NotPutFrom(steps, 0, h) && NotSpentFrom(steps, 0, h, i)
    ensures steps != [] ==>
      (NotPutFrom(steps, 0, h) && NotSpentFrom(steps, 0, h, i) <==>
         && NotPutFrom(steps[..|steps| - 1], 0, h) && NotSpentFrom(steps[..|steps| - 1], 0, h, i)
         && HashOf(steps[|steps| - 1]) != h && !Spends(steps[|steps| - 1], h, i))
  {
    hide HashOf, Spends;
    if steps != [] {
      var init := steps[..|steps| - 1];
      assert forall k :: 0 <= k < |init| ==> init[k] == steps[k];
    }
  }

  lemma SpentJustNow(steps: seq<Step>, h: Hash, i: nat)
    requires steps != [] && HashOf(steps[|steps| - 1]) != h && Spends(steps[|steps| - 1], h, i)
    ensures LastSpentAt(steps, h, i, steps[|steps| - 1].offset)
  {
    hide HashOf, Spends;
    assert LastSpend(steps, |steps| - 1, h, i);
  }

  lemma SpentEarlier(steps: seq<Step>, h: Hash, i: nat, o: nat)
    requires steps != [] && HashOf(steps[|steps| - 1]) != h && !Spends(steps[|steps| - 1], h, i)
    requires LastSpentAt(steps[..|steps| - 1], h, i, o)
    ensures LastSpentAt(steps, h, i, o)
  {
    hide HashOf, Spends;
    var init := steps[..|steps| - 1];
    var j: nat :| LastSpend(init, j, h, i) && init[j].offset == o;
    assert forall k :: 0 <= k < |init| ==> init[k] == steps[k];
    assert LastSpend(steps, j, h, i);
  }

  lemma SpenderHasOuts(st: Status, i: nat)
    requires SpenderOf(st, i).Some?
    ensures HasOuts(st)
  {
  }
}
