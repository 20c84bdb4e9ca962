/** src/bzing.c: bzing_block_add and bzing_index_regen, a walk over serialised blocks that indexes them. */
module ChainIndex {
  import opened NatBits
  import opened Options
  import opened VarInt
  import opened DoubleSha
  import opened SpentWord
  import opened Merkle
  import opened SpentMap
  import opened BlockFormat
  import opened IndexRun

  // ---------- the walk ----------

  /** The loop over a transaction's inputs. */
  method WalkInputs(hnd: Handle, data: seq<octet>, offset0: nat, nTxin0: nat, mark: bool, spender: nat,
                    ghost ins: seq<TxIn>)
    returns (offset: nat)
    requires hnd.Valid() && nTxin0 == |ins| && (forall k :: 0 <= k < |ins| ==> TxInOk(ins[k]))
    requires At(data, offset0, SerIns(ins)) && (mark ==> MarkIns(hnd.ix, ins, spender).Some?)
    modifies hnd, hnd.spentData
    ensures hnd.Valid() && (hnd.spentData == old(hnd.spentData) || fresh(hnd.spentData))
    ensures Some(hnd.ix) == if mark then MarkIns(old(hnd.ix), ins, spender) else Some(old(hnd.ix))
    ensures offset == offset0 + |SerIns(ins)|
  {
    hide At, Mark, CanMark, Value, IsVarInt;
    offset := offset0;
    var nTxin := nTxin0;
    ghost var rest := ins;
    while nTxin > 0
      invariant hnd.Valid() && (hnd.spentData == old(hnd.spentData) || fresh(hnd.spentData))
      invariant nTxin == |rest| && (forall k :: 0 <= k < |rest| ==> TxInOk(rest[k])) && At(data, offset, SerIns(rest))
      invariant offset + |SerIns(rest)| == offset0 + |SerIns(ins)|
      invariant mark ==> MarkIns(hnd.ix, rest, spender) == MarkIns(old(hnd.ix), ins, spender)
      invariant !mark ==> hnd.ix == old(hnd.ix)
    {
      ghost var i := rest[0];
      InputParts(data, offset, rest);
      if mark {
        var _ := hnd.MarkSpent(data[offset..offset + 36], spender);
      }
      offset := offset + 36;
      var scriptLen;
      scriptLen, offset := ParseWritten(data, offset, i.scriptLen);
      offset := offset + scriptLen + 4;
      nTxin := nTxin - 1;
      rest := rest[1..];
    }
  }

  lemma InputParts(data: seq<octet>, offset: nat, ins: seq<TxIn>)
    requires ins != [] && TxInOk(ins[0]) && At(data, offset, SerIns(ins))
    ensures var i := ins[0];
      && offset + 36 <= |data| && data[offset..offset + 36] == i.outpoint
      && IsVarInt(i.scriptLen) && Value(i.scriptLen) == |i.script|
      && offset + 36 + |i.scriptLen| <= |data| && data[offset + 36..offset + 36 + |i.scriptLen|] == i.scriptLen
      && At(data, offset + 36 + |i.scriptLen| + |i.script| + 4, SerIns(ins[1..]))
      && |SerIns(ins)| == 36 + |i.scriptLen| + |i.script| + 4 + |SerIns(ins[1..])|
  {
    var i := ins[0];
    AtParts(data, offset, SerIn(i), SerIns(ins[1..]));
    AtParts(data, offset, i.outpoint, i.scriptLen + (i.script + i.sequence));
    AtParts(data, offset + 36, i.scriptLen, i.script + i.sequence);
  }

  /** The loop over a transaction's outputs. */
  method WalkOutputs(data: seq<octet>, offset0: nat, nTxout0: nat, ghost outs: seq<TxOut>) returns (offset: nat)
    requires nTxout0 == |outs| && (forall k :: 0 <= k < |outs| ==> TxOutOk(outs[k])) && At(data, offset0, SerOuts(outs))
    ensures offset == offset0 + |SerOuts(outs)|
  {
    hide At, Value, IsVarInt;
    offset := offset0;
    var nTxout := nTxout0;
    ghost var rest := outs;
    while nTxout > 0
      invariant nTxout == |rest| && (forall k :: 0 <= k < |rest| ==> TxOutOk(rest[k]))
      invariant At(data, offset, SerOuts(rest))
      invariant offset + |SerOuts(rest)| == offset0 + |SerOuts(outs)|
    {
      ghost var o := rest[0];
      OutputParts(data, offset, rest);
      offset := offset + 8;
      var scriptLen;
      scriptLen, offset := ParseWritten(data, offset, o.scriptLen);
      offset := offset + scriptLen;
      nTxout := nTxout - 1;
      rest := rest[1..];
    }
  }

  lemma OutputParts(data: seq<octet>, offset: nat, outs: seq<TxOut>)
    requires outs != [] && TxOutOk(outs[0]) && At(data, offset, SerOuts(outs))
    ensures var o := outs[0];
      && offset + 8 <= |data|
      && IsVarInt(o.scriptLen) && Value(o.scriptLen) == |o.script|
      && offset + 8 + |o.scriptLen| <= |data| && data[offset + 8..offset + 8 + |o.scriptLen|] == o.scriptLen
      && At(data, offset + 8 + |o.scriptLen| + |o.script|, SerOuts(outs[1..]))
      && |SerOuts(outs)| == 8 + |o.scriptLen| + |o.script| + |SerOuts(outs[1..])|
  {
    var o := outs[0];
    AtParts(data, offset, SerOut(o), SerOuts(outs[1..]));
    AtParts(data, offset, o.value, o.scriptLen + o.script);
    AtParts(data, offset + 8, o.scriptLen, o.script);
  }

  /** Where the fields of a transaction are. */
  lemma TxInParts(data: seq<octet>, offset: nat, t: Tx)
    requires TxOk(t) && At(data, offset, SerTx(t))
    ensures var o1 := offset + 4;
      var o2 := o1 + |t.nIn|;
      && o2 <= |data| && data[o1..o2] == t.nIn && IsVarInt(t.nIn) && Value(t.nIn) == |t.ins|
      && At(data, o2, SerIns(t.ins))
      && At(data, o2 + |SerIns(t.ins)|, t.nOut + (SerOuts(t.outs) + t.lockTime))
      && |SerTx(t)| == 4 + |t.nIn| + |SerIns(t.ins)| + |t.nOut| + |SerOuts(t.outs)| + 4
  {
    hide IsVarInt, Value, SerIns, SerOuts;
    var r3 := t.nOut + (SerOuts(t.outs) + t.lockTime);
    var r2 := SerIns(t.ins) + r3;
    AtParts(data, offset, t.version, t.nIn + r2);
    AtParts(data, offset + 4, t.nIn, r2);
    AtParts(data, offset + 4 + |t.nIn|, SerIns(t.ins), r3);
  }

  lemma TxOutParts(data: seq<octet>, offset: nat, t: Tx)
    requires TxOk(t) && At(data, offset, t.nOut + (SerOuts(t.outs) + t.lockTime))
    ensures var o := offset + |t.nOut|;
      && o <= |data| && data[offset..o] == t.nOut && IsVarInt(t.nOut) && Value(t.nOut) == |t.outs|
      && At(data, o, SerOuts(t.outs))
  {
    hide IsVarInt, Value, SerOuts;
    AtParts(data, offset, t.nOut, SerOuts(t.outs) + t.lockTime);
    AtParts(data, offset + |t.nOut|, SerOuts(t.outs), t.lockTime);
  }

  /** inv.spent for a transaction with nTxout outputs. */
  lemma FreshWord(nTxout: nat)
    ensures Encodes(Or(SPENT_UMARK, And(nTxout, SPENT_UMASK)), Fresh(nTxout % 0x1_0000_0000))
  {
    hide And, Or, IsUnmarked;
    UnmarkedRead(nTxout);
    Constants();
  }

  /** The body of the loop over transactions: mark what the inputs spend, find the end, hash, index. */
  method WalkTx(hnd: Handle, data: seq<octet>, txStart: nat, i: nat, outer: nat, ghost t: Tx)
    returns (offset: nat, txHash: Hash)
    requires hnd.Valid() && TxOk(t) && At(data, txStart, SerTx(t)) && AddTx(hnd.ix, t, outer + txStart, i == 0).Some?
    modifies hnd, hnd.spentData
    ensures hnd.Valid() && (hnd.spentData == old(hnd.spentData) || fresh(hnd.spentData))
    ensures Some(hnd.ix) == AddTx(old(hnd.ix), t, outer + txStart, i == 0)
    ensures offset == txStart + |SerTx(t)| && txHash == TxHash(t)
  {
    hide At, Mark, CanMark, Value, IsVarInt, SerTx, SerIns, SerOuts, And, Or, DoubleSha256, MarkIns;
    TxInParts(data, txStart, t);
    TxOutParts(data, txStart + 4 + |t.nIn| + |SerIns(t.ins)|, t);
    offset := txStart + 4;
    var nTxin, nTxout;
    nTxin, offset := ParseWritten(data, offset, t.nIn);
    offset := WalkInputs(hnd, data, offset, nTxin, i != 0, outer + txStart, t.ins);
    nTxout, offset := ParseWritten(data, offset, t.nOut);
    var spent := Or(SPENT_UMARK, And(nTxout, SPENT_UMASK));
    FreshWord(nTxout);
    offset := WalkOutputs(data, offset, nTxout, t.outs);
    offset := offset + 4;
    Hashed(data, txStart, t);
    txHash := DoubleHash(data[txStart..offset]);
    hnd.Set(txHash, Inv(outer + txStart, spent), TxEntry(t, outer + txStart));
  }

  lemma Hashed(data: seq<octet>, txStart: nat, t: Tx)
    requires At(data, txStart, SerTx(t))
    ensures txStart + |SerTx(t)| <= |data| && DoubleSha256(data[txStart..txStart + |SerTx(t)|]) == TxHash(t)
  {
    hide DoubleSha256, SerTx;
  }

  function TxHashes(txs: seq<Tx>): (r: seq<Hash>)
    ensures |r| == |txs| && forall k :: 0 <= k < |txs| ==> r[k] == TxHash(txs[k])
  {
    seq(|txs|, k requires 0 <= k < |txs| => TxHash(txs[k]))
  }

  /** The loop over the transactions of a block. */
  method WalkTxs(hnd: Handle, data: seq<octet>, offset0: nat, nTx: nat, outer: nat, ghost txs: seq<Tx>)
    returns (offset: nat, txHashes: seq<Hash>)
    requires hnd.Valid() && nTx == |txs| && (forall k :: 0 <= k < |txs| ==> TxOk(txs[k]))
    requires At(data, offset0, SerTxs(txs))
    requires AddTxs(hnd.ix, txs, outer + offset0, true).Some?
    modifies hnd, hnd.spentData
    ensures hnd.Valid() && (hnd.spentData == old(hnd.spentData) || fresh(hnd.spentData))
    ensures Some(hnd.ix) == AddTxs(old(hnd.ix), txs, outer + offset0, true)
    ensures offset == offset0 + |SerTxs(txs)| && txHashes == TxHashes(txs)
  {
    hide At, TxOk, SerTx, TxHash, AddTx, AddTxs;
    offset := offset0;
    var hashes := new Hash[nTx](_ => []);
    var i := 0;
    ghost var rest := txs;
    while i < nTx
      invariant hnd.Valid() && (hnd.spentData == old(hnd.spentData) || fresh(hnd.spentData))
      invariant i <= nTx && rest == txs[i..] && At(data, offset, SerTxs(rest))
      invariant offset + |SerTxs(rest)| == offset0 + |SerTxs(txs)|
      invariant AddTxs(hnd.ix, rest, outer + offset, i == 0) == AddTxs(old(hnd.ix), txs, outer + offset0, true)
      invariant forall k :: 0 <= k < i ==> hashes[k] == TxHash(txs[k])
    {
      AtParts(data, offset, SerTx(rest[0]), SerTxs(rest[1..]));
      TxsStep(hnd.ix, rest, outer + offset, i == 0);
      var h;
      offset, h := WalkTx(hnd, data, offset, i, outer, rest[0]);
      hashes[i] := h;
      i := i + 1;
      rest := rest[1..];
    }
    TxsNone(hnd.ix, outer + offset);
    txHashes := hashes[..];
  }

  lemma TxsNone(ix: Index, at: nat)
    ensures forall coinbase :: AddTxs(ix, [], at, coinbase) == Some(ix)
  {
  }

  /** bzing_block_add: `data` starts with a block and goes on with anything. */
  method BlockAdd(hnd: Handle, outer: nat, data: seq<octet>, ghost b: BlockFormat.Block)
    returns (actualLen: nat, merkleOk: bool)
    requires hnd.Valid() && BlockOk(b) && At(data, 0, SerBlock(b)) && AddBlock(hnd.ix, b, outer).Some?
    modifies hnd, hnd.spentData
    ensures hnd.Valid() && (hnd.spentData == old(hnd.spentData) || fresh(hnd.spentData))
    ensures Some(hnd.ix) == AddBlock(old(hnd.ix), b, outer)
    ensures actualLen == |SerBlock(b)|
    ensures merkleOk <==> Root(TxHashes(b.txs)) == b.header[36..68]
  {
    hide At, DoubleSha256, Root, AddTxs, AddBlock, SerTxs, TxHashes;
    BlockParts(data, b);
    BlockStep(hnd.ix, b, outer);
    BlockWord();
    var blockHash := DoubleHash(data[..80]);
    hnd.Set(blockHash, Inv(outer + 80, BLOCK), Entry(outer + 80, SpentWord.Block));
    var nTx, offset := ParseWritten(data, 80, b.nTx);
    var txHashes;
    offset, txHashes := WalkTxs(hnd, data, offset, nTx, outer, b.txs);
    var merkleRoot := CalcMerkleRoot(txHashes);
    merkleOk := merkleRoot == data[36..68];
    actualLen := offset;
  }

  lemma BlockParts(data: seq<octet>, b: BlockFormat.Block)
    requires BlockOk(b) && At(data, 0, SerBlock(b))
    ensures |data| >= 80 && data[..80] == b.header && data[36..68] == b.header[36..68]
    ensures 80 + |b.nTx| <= |data| && data[80..80 + |b.nTx|] == b.nTx && IsVarInt(b.nTx) && Value(b.nTx) == |b.txs|
    ensures At(data, 80 + |b.nTx|, SerTxs(b.txs)) && |SerBlock(b)| == 80 + |b.nTx| + |SerTxs(b.txs)|
  {
    hide SerTxs;
    AtParts(data, 0, b.header, b.nTx + SerTxs(b.txs));
    AtParts(data, 80, b.nTx, SerTxs(b.txs));
    assert data[..80] == data[0..80];
    assert data[36..68] == data[..80][36..68];
  }

  lemma BlockWord()
    ensures Encodes(BLOCK, SpentWord.Block)
  {
  }

  /** One pass of the loop of bzing_index_regen. */
  method RegenOne(hnd: Handle, data: seq<octet>, offset0: nat, ghost frames: seq<Frame>) returns (offset: nat)
    requires hnd.Valid() && FramesOk(frames) && At(data, offset0, SerFrames(frames)) && |SerFrames(frames)| > 0
    requires AddFrames(hnd.ix, frames, offset0).Some?
    modifies hnd, hnd.spentData
    ensures hnd.Valid() && (hnd.spentData == old(hnd.spentData) || fresh(hnd.spentData))
    ensures frames != [] && FramesOk(frames[1..]) && At(data, offset, SerFrames(frames[1..]))
    ensures offset + |SerFrames(frames[1..])| == offset0 + |SerFrames(frames)|
    ensures AddFrames(hnd.ix, frames[1..], offset) == AddFrames(old(hnd.ix), frames, offset0)
  {
    hide At, SerBlock, SerFrames, AddBlock, AddFrames, FramesOk, BlockOk;
    ghost var next := FrameParts(data, offset0, frames);
    FramesStep(hnd.ix, frames, offset0);
    offset := offset0 + 8;
    var blockLen, _ := BlockAdd(hnd, offset, data[offset..], frames[0].block);
    offset := offset + blockLen;
    assert offset == next;
  }

  /** len - 1 in a size_t. */
  function LastOffset(len: nat): nat {
    if len == 0 then U64 - 1 else len - 1
  }

  /** bzing_index_regen, on a file of blocks that up to one byte may follow.  The walk leaves the file exactly when
    * the file is empty, because its end then wraps around. */
  method IndexRegen(hnd: Handle, data: seq<octet>, ghost frames: seq<Frame>, ghost tail: seq<octet>)
    returns (inside: bool)
    requires hnd.Valid() && data == SerFrames(frames) + tail && |tail| <= 1
    requires FramesOk(frames) && AddFrames(hnd.ix, frames, 0).Some?
    modifies hnd, hnd.spentData
    ensures hnd.Valid() && (inside <==> data != [])
    ensures Some(hnd.ix) == AddFrames(old(hnd.ix), frames, 0)
  {
    hide At, SerFrames, AddFrames, FramesOk;
    var offset: nat := 0;
    ghost var rest := frames;
    AtStart(data, SerFrames(frames), tail);
    while offset < LastOffset(|data|)
      invariant hnd.Valid() && (hnd.spentData == old(hnd.spentData) || fresh(hnd.spentData))
      invariant FramesOk(rest) && At(data, offset, SerFrames(rest))
      invariant offset + |SerFrames(rest)| + |tail| == |data|
      invariant AddFrames(hnd.ix, rest, offset) == AddFrames(old(hnd.ix), frames, 0)
      decreases |rest|
    {
      if offset + 8 >= |data| {
        NothingLeft(rest);
        return false;
      }
      offset := RegenOne(hnd, data, offset, rest);
      rest := rest[1..];
    }
    NothingLeft(rest);
    inside := true;
  }

  lemma AtStart(data: seq<octet>, s: seq<octet>, tail: seq<octet>)
    requires data == s + tail
    ensures At(data, 0, s)
  {
  }

  lemma FrameParts(data: seq<octet>, offset: nat, fs: seq<Frame>) returns (next: nat)
    requires At(data, offset, SerFrames(fs)) && |SerFrames(fs)| > 0 && FramesOk(fs)
    ensures fs != [] && offset + 8 <= |data| && At(data[offset + 8..], 0, SerBlock(fs[0].block)) && BlockOk(fs[0].block)
    ensures next == offset + 8 + |SerBlock(fs[0].block)|
    ensures At(data, next, SerFrames(fs[1..])) && FramesOk(fs[1..])
    ensures offset + |SerFrames(fs)| == next + |SerFrames(fs[1..])|
  {
    hide SerBlock, BlockOk;
    var f := fs[0];
    var b := SerBlock(f.block);
    next := offset + 8 + |b|;
    AtParts(data, offset, f.preamble + b, SerFrames(fs[1..]));
    AtParts(data, offset, f.preamble, b);
    assert data[offset + 8..][0..|b|] == data[offset + 8..offset + 8 + |b|];
  }

  /** A frame is longer than its preamble. */
  lemma NothingLeft(fs: seq<Frame>)
    requires |SerFrames(fs)| <= 8 && FramesOk(fs)
    ensures fs == [] && SerFrames(fs) == [] && forall ix, at :: AddFrames(ix, fs, at) == Some(ix)
  {
    if fs != [] { FrameLong(fs); }
  }

  lemma FrameLong(fs: seq<Frame>)
    requires fs != [] && FramesOk(fs)
    ensures |SerFrames(fs)| >= 88
  {
    hide SerTxs, IsVarInt, Value, TxOk;
    assert FrameOk(fs[0]) && |SerBlock(fs[0].block)| >= 80;
  }

  // ---------- what the index leads to ----------

  /** The bytes a step indexes lie in the data, whose first byte is at `outer`. */
  ghost predicate Lies(s: Step, data: seq<octet>, outer: nat) {
    match s
    case OfBlock(header, offset) => outer + 80 <= offset && At(data, offset - outer - 80, header)
    case OfTx(t, offset, _) => outer <= offset && At(data, offset - outer, SerTx(t))
  }

  lemma {:induction false} TxsLie(data: seq<octet>, outer: nat, txs: seq<Tx>, at: nat, coinbase: bool, j: nat)
    requires At(data, at, SerTxs(txs)) && j < |TxSteps(txs, outer + at, coinbase)|
    ensures Lies(TxSteps(txs, outer + at, coinbase)[j], data, outer)
    decreases |txs|
  {
    hide At, SerTx;
    AtParts(data, at, SerTx(txs[0]), SerTxs(txs[1..]));
    if j > 0 { TxsLie(data, outer, txs[1..], at + |SerTx(txs[0])|, false, j - 1); }
  }

  lemma BlockLies(data: seq<octet>, outer: nat, b: BlockFormat.Block, at: nat, j: nat)
    requires BlockOk(b) && At(data, at, SerBlock(b)) && j < |BlockSteps(b, outer + at)|
    ensures Lies(BlockSteps(b, outer + at)[j], data, outer)
  {
    hide At, SerTxs, TxSteps;
    AtParts(data, at, b.header, b.nTx + SerTxs(b.txs));
    AtParts(data, at + 80, b.nTx, SerTxs(b.txs));
    if j > 0 { TxsLie(data, outer, b.txs, at + 80 + |b.nTx|, true, j - 1); }
  }

  lemma {:induction false} FileLies(data: seq<octet>, fs: seq<Frame>, at: nat, j: nat)
    requires FramesOk(fs) && At(data, at, SerFrames(fs)) && j < |FileSteps(fs, at)|
    ensures Lies(FileSteps(fs, at)[j], data, 0)
    decreases |fs|
  {
    hide At, SerBlock, BlockSteps, Lies, BlockOk;
    var b := fs[0].block;
    var s := SerBlock(b);
    AtParts(data, at, fs[0].preamble + s, SerFrames(fs[1..]));
    AtParts(data, at, fs[0].preamble, s);
    var first := BlockSteps(b, at + 8);
    if j < |first| {
      BlockLies(data, 0, b, at + 8, j);
    } else {
      FileLies(data, fs[1..], at + 8 + |s|, j - |first|);
    }
  }

  /** Bytes of a block header or of a transaction with hash h, indexed at offset o, lie in the data. */
  ghost predicate LeadsTo(steps: seq<Step>, h: Hash, o: nat, data: seq<octet>, outer: nat) {
    exists j :: 0 <= j < |steps| && HashOf(steps[j]) == h && steps[j].offset == o && Lies(steps[j], data, outer)
  }

  lemma PutLeads(steps: seq<Step>, h: Hash, e: Entry, data: seq<octet>, outer: nat)
    requires PutLast(steps, h, e) && forall j :: 0 <= j < |steps| ==> Lies(steps[j], data, outer)
    ensures LeadsTo(steps, h, e.offset, data, outer)
  {
    hide HashOf, Lies, Spendable, HasOuts;
    var j :| 0 <= j < |steps| && HashOf(steps[j]) == h && NotPutFrom(steps, j + 1, h) && Describes(e, steps[j]);
  }

  lemma {:induction false} TxIsStep(txs: seq<Tx>, offset: nat, coinbase: bool)
    ensures |TxSteps(txs, offset, coinbase)| == |txs|
    ensures forall k :: 0 <= k < |txs| ==>
      TxSteps(txs, offset, coinbase)[k] == OfTx(txs[k], offset + TxStart(txs, k), coinbase && k == 0)
    decreases |txs|
  {
    hide TxHash, SerTx;
    if txs != [] {
      var rest := TxSteps(txs[1..], offset + |SerTx(txs[0])|, false);
      TxIsStep(txs[1..], offset + |SerTx(txs[0])|, false);
      assert forall k :: 0 < k < |txs| ==> TxSteps(txs, offset, coinbase)[k] == rest[k - 1];
    }
  }

  /** A block or transaction of the file has hash h. */
  ghost predicate InFile(fs: seq<Frame>, h: Hash) {
    exists f :: 0 <= f < |fs| && InBlock(fs[f].block, h)
  }

  ghost predicate InBlock(b: BlockFormat.Block, h: Hash) {
    h == DoubleSha256(b.header) || exists k :: 0 <= k < |b.txs| && h == TxHash(b.txs[k])
  }

  lemma BlockPuts(b: BlockFormat.Block, outer: nat, h: Hash)
    ensures NotPutFrom(BlockSteps(b, outer), 0, h) <==> !InBlock(b, h)
  {
    hide TxHash, DoubleSha256, TxSteps;
    var rest := TxSteps(b.txs, outer + 80 + |b.nTx|, true);
    TxIsStep(b.txs, outer + 80 + |b.nTx|, true);
    var steps := BlockSteps(b, outer);
    assert forall k :: 0 <= k < |rest| ==> steps[k + 1] == rest[k];
    assert HashOf(steps[0]) == DoubleSha256(b.header);
    if k :| 0 <= k < |steps| && HashOf(steps[k]) == h {
      if k > 0 { assert HashOf(rest[k - 1]) == TxHash(b.txs[k - 1]); }
    }
    if k :| 0 <= k < |b.txs| && h == TxHash(b.txs[k]) {
      assert HashOf(steps[k + 1]) == HashOf(rest[k]) == h;
    }
  }

  lemma {:induction false} FilePuts(fs: seq<Frame>, at: nat, h: Hash)
    ensures NotPutFrom(FileSteps(fs, at), 0, h) <==> !InFile(fs, h)
    decreases |fs|
  {
    hide InBlock, SerBlock, BlockSteps, HashOf;
    if fs != [] {
      var next := at + 8 + |SerBlock(fs[0].block)|;
      BlockPuts(fs[0].block, at + 8, h);
      FilePuts(fs[1..], next, h);
      NotPutConcat(BlockSteps(fs[0].block, at + 8), FileSteps(fs[1..], next), h);
      InFileFirst(fs, h);
    }
  }

  lemma NotPutConcat(a: seq<Step>, b: seq<Step>, h: Hash)
    ensures NotPutFrom(a + b, 0, h) <==> NotPutFrom(a, 0, h) && NotPutFrom(b, 0, h)
  {
    hide HashOf;
    assert forall k :: 0 <= k < |a| ==> (a + b)[k] == a[k];
    assert forall k :: 0 <= k < |b| ==> (a + b)[|a| + k] == b[k];
  }

  lemma InFileFirst(fs: seq<Frame>, h: Hash)
    requires fs != []
    ensures InFile(fs, h) <==> InBlock(fs[0].block, h) || InFile(fs[1..], h)
  {
    hide InBlock;
    assert forall f :: 0 <= f < |fs[1..]| ==> fs[1..][f] == fs[f + 1];
    if f :| 0 <= f < |fs| && InBlock(fs[f].block, h) {
      if f > 0 { assert InBlock(fs[1..][f - 1].block, h); }
    }
    if f :| 0 <= f < |fs[1..]| && InBlock(fs[1..][f].block, h) {
      assert InBlock(fs[f + 1].block, h);
    }
  }

  /** After a block, every hash of it is indexed at an offset where bytes with that hash lie, and every other hash
    * leads where it led before. */
  lemma BlockIndexed(ix: Index, b: BlockFormat.Block, outer: nat, data: seq<octet>, h: Hash)
    requires AddBlock(ix, b, outer).Some? && BlockOk(b) && At(data, 0, SerBlock(b))
    ensures var steps, entries := BlockSteps(b, outer), AddBlock(ix, b, outer).value.entries;
      if InBlock(b, h) then
        h in entries && LeadsTo(steps, h, entries[h].offset, data, outer)
      else
        && (h in entries <==> h in ix.entries)
        && (h in entries ==> entries[h].offset == ix.entries[h].offset)
  {
    hide At, HashOf, Lies, Run, BlockSteps, BlockOk, SerBlock, PutLast, LeadsTo, HasOuts, NotPutFrom,
      InBlock;
    var steps := BlockSteps(b, outer);
    LastPut(ix, steps, h);
    BlockPuts(b, outer, h);
    forall j | 0 <= j < |steps| ensures Lies(steps[j], data, outer) {
      BlockLies(data, outer, b, 0, j);
    }
    if !NotPutFrom(steps, 0, h) { PutLeads(steps, h, AddBlock(ix, b, outer).value.entries[h], data, outer); }
  }

  /** The same after a whole file, for the transactions and block headers of all its frames. */
  lemma FileIndexed(ix: Index, fs: seq<Frame>, data: seq<octet>, h: Hash)
    requires AddFrames(ix, fs, 0).Some? && FramesOk(fs) && At(data, 0, SerFrames(fs))
    ensures var steps, entries := FileSteps(fs, 0), AddFrames(ix, fs, 0).value.entries;
      if InFile(fs, h) then
        h in entries && LeadsTo(steps, h, entries[h].offset, data, 0)
      else
        && (h in entries <==> h in ix.entries)
        && (h in entries ==> entries[h].offset == ix.entries[h].offset)
  {
    hide At, HashOf, Lies, Run, FileSteps, FramesOk, SerFrames, PutLast, LeadsTo, HasOuts, NotPutFrom,
      InFile;
    var steps := FileSteps(fs, 0);
    LastPut(ix, steps, h);
    FilePuts(fs, 0, h);
    forall j | 0 <= j < |steps| ensures Lies(steps[j], data, 0) {
      FileLies(data, fs, 0, j);
    }
    if !NotPutFrom(steps, 0, h) { PutLeads(steps, h, AddFrames(ix, fs, 0).value.entries[h], data, 0); }
  }

  // ---------- what the spent map leads to ----------

  lemma ValidParts(hnd: Handle)
    requires hnd.Valid()
    ensures Stored(hnd.inv, hnd.spentData[..], hnd.ix) && Sound(hnd.ix) && 8 * hnd.spentData.Length == hnd.ix.size
    ensures Untouched(hnd.uncleared, hnd.spentData[..], hnd.ix)
  {
  }

  /** Step j of the file is the last with hash h, and no output of it is spent afterwards. */
  ghost predicate LeftUnspent(steps: seq<Step>, j: nat, h: Hash) {
    && j < |steps| && HashOf(steps[j]) == h && NotPutFrom(steps, j + 1, h)
    && forall k :: j < k < |steps| ==> SpendsNone(steps[k], h)
  }

  /** After a whole file, the word stored for what is not spent: all ones for a block, and for a transaction a marker
    * with the number of its outputs. */
  lemma UnspentWord(hnd: Handle, ix: Index, fs: seq<Frame>, j: nat, h: Hash)
    requires hnd.Valid() && Some(hnd.ix) == AddFrames(ix, fs, 0) && LeftUnspent(FileSteps(fs, 0), j, h)
    ensures h in hnd.inv && h in hnd.ix.entries && hnd.inv[h].offset == FileSteps(fs, 0)[j].offset
    ensures match FileSteps(fs, 0)[j]
            case OfBlock(_, _) => hnd.inv[h].spent == 0xffff_ffff_ffff_ffff
            case OfTx(t, _, _) =>
              && hnd.inv[h].spent == 0x00ff_ffff_0000_0000 + |t.outs| % 0x1_0000_0000
              && And(hnd.inv[h].spent, SPENT_UMASK) == |t.outs| % 0x1_0000_0000
              && hnd.ix.entries[h].status == Fresh(|t.outs| % 0x1_0000_0000)
  {
    hide And, HashOf, Run, FileSteps, Sound, NotPutFrom, SpendsNone;
    ValidParts(hnd);
    UnspentStays(ix, FileSteps(fs, 0), j, h);
    EntryStored(hnd.inv, hnd.spentData[..], hnd.ix, h);
    FreshWords(hnd.inv[h].spent, hnd.ix.entries[h].status);
  }

  /** The first spend of such a transaction takes one slot for each of its outputs, from the end of those in use. */
  method FirstSpend(hnd: Handle, outpoint: seq<octet>, offset: nat, ghost ix: Index, ghost fs: seq<Frame>, ghost j: nat)
    returns (spentOffset: nat)
    requires hnd.Valid() && Some(hnd.ix) == AddFrames(ix, fs, 0) && |outpoint| == 36
    requires LeftUnspent(FileSteps(fs, 0), j, outpoint[..32]) && FileSteps(fs, 0)[j].OfTx?
    requires CanMark(hnd.ix, outpoint[..32], LeNat(outpoint[32..36]))
    modifies hnd, hnd.spentData
    ensures hnd.Valid() && (hnd.spentData == old(hnd.spentData) || fresh(hnd.spentData))
    ensures var n := |FileSteps(fs, 0)[j].t.outs| % 0x1_0000_0000;
      && hnd.spentLen == old(hnd.spentLen) + n
      && spentOffset == if n == 0 then 0 else 8 * (old(hnd.spentLen) + LeNat(outpoint[32..36]))
  {
    hide And, FileSteps, LeftUnspent, LeNat, Marked, IsUnmarked, SlotWritten, Handle.Valid;
    UnspentWord(hnd, ix, fs, j, outpoint[..32]);
    ghost var w := hnd.inv[outpoint[..32]].spent;
    UnmarkedWord(w);
    spentOffset := hnd.MarkSpent(outpoint, offset);
  }

  lemma UnmarkedWord(w: nat)
    requires 0x00ff_ffff_0000_0000 <= w <= 0x00ff_ffff_ffff_ffff
    ensures IsUnmarked(w) && w != BLOCK
  {
    hide And, IsUnmarked, Pow2;
    Constants();
    UnmarkedRead(w - 0x00ff_ffff_0000_0000);
    ModUnique(w - 0x00ff_ffff_0000_0000, Pow2(32), 0, w - 0x00ff_ffff_0000_0000);
  }

  /** Following the stored word of h to the slot of output i gives o, and the quick bit of the output is set. */
  ghost predicate Recorded(inv: map<Hash, Inv>, slots: seq<nat>, h: Hash, i: nat, o: nat) {
    && h in inv && inv[h].spent != BLOCK && !IsUnmarked(inv[h].spent)
    && (i < SPENT_BITS ==> Marked(inv[h].spent, i))
    && var slot := And(inv[h].spent, SPENT_MASK) + i;
      1 <= slot < |slots| && slots[slot] == o
  }

  lemma SpenderRecorded(hnd: Handle, h: Hash, i: nat, o: nat)
    requires hnd.Valid() && h in hnd.ix.entries && SpenderOf(hnd.ix.entries[h].status, i) == Some(o)
    ensures Recorded(hnd.inv, hnd.spentData[..], h, i, o)
  {
    hide And, IsUnmarked, Stored, Sound, Marked;
    ValidParts(hnd);
    SpenderFound(hnd.inv, hnd.spentData[..], hnd.ix, h, i);
  }

  /** After a whole file, the slot of every output that the file spends holds where the transaction lies that
    * spends it last. */
  lemma SpenderLeads(hnd: Handle, ix: Index, fs: seq<Frame>, data: seq<octet>, h: Hash, i: nat, o: nat)
    requires hnd.Valid() && Some(hnd.ix) == AddFrames(ix, fs, 0) && FramesOk(fs) && At(data, 0, SerFrames(fs))
    requires LastSpentAt(FileSteps(fs, 0), h, i, o)
    ensures h in hnd.ix.entries
    ensures HasOuts(hnd.ix.entries[h].status) ==>
      && Recorded(hnd.inv, hnd.spentData[..], h, i, o)
      && exists t: Tx :: Names(t.ins, h, i) && At(data, o, SerTx(t))
  {
    hide At, HashOf, Run, Apply, FileSteps, FramesOk, SerFrames, SerTx, Names, Recorded;
    var steps := FileSteps(fs, 0);
    var j: nat :| LastSpend(steps, j, h, i) && steps[j].offset == o;
    LastSpendRecorded(ix, steps, j, h, i);
    FileLies(data, fs, 0, j);
    if HasOuts(hnd.ix.entries[h].status) { SpenderRecorded(hnd, h, i, o); }
  }

  /** The slot of an output that the file brings and does not spend has never been written: it is zero, unless it is one
    * of those that bzing_alloc leaves uncleared. */
  lemma UnspentLeads(hnd: Handle, ix: Index, fs: seq<Frame>, h: Hash, i: nat)
    requires hnd.Valid() && Some(hnd.ix) == AddFrames(ix, fs, 0) && InFile(fs, h)
    requires forall o :: !LastSpentAt(FileSteps(fs, 0), h, i, o)
    requires h in hnd.ix.entries && hnd.ix.entries[h].status.Spent? && i < hnd.ix.entries[h].status.nOut
    ensures h in hnd.inv && var slot := And(hnd.inv[h].spent, SPENT_MASK) + i;
      1 <= slot < hnd.spentData.Length && hnd.spentData[slot] == Initial(hnd.uncleared, slot)
    ensures i < SPENT_BITS ==> !Marked(hnd.inv[h].spent, i)
  {
    hide And, Run, FileSteps, LastSpentAt, NotPutFrom, NotSpentFrom, Stored, Sound, Untouched, Marked, InFile;
    ValidParts(hnd);
    FilePuts(fs, 0, h);
    SpenderSpends(ix, FileSteps(fs, 0), h, i);
    UnspentReads(hnd.inv, hnd.uncleared, hnd.spentData[..], hnd.ix, h, i);
  }

  /** A bit or slot that says an output is spent is right: some transaction of the file spends it there, or the
    * index said so before. */
  lemma SpenderIsSpender(ix: Index, fs: seq<Frame>, h: Hash, i: nat)
    requires AddFrames(ix, fs, 0).Some? && h in AddFrames(ix, fs, 0).value.entries
    ensures var st := AddFrames(ix, fs, 0).value.entries[h].status;
      st.Spent? && i in st.spenders ==>
        || LastSpentAt(FileSteps(fs, 0), h, i, st.spenders[i])
        || (h in ix.entries && SpenderOf(ix.entries[h].status, i) == Some(st.spenders[i]))
  {
    hide Run, FileSteps, LastSpentAt;
    SpenderSpends(ix, FileSteps(fs, 0), h, i);
  }
}
