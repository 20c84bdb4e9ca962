/** The byte layout of blocks and transactions that the block walker of bzing.c expects. */
module BlockFormat {
  import opened VarInt

  datatype TxIn = TxIn(outpoint: seq<octet>, scriptLen: seq<octet>, script: seq<octet>, sequence: seq<octet>)
  datatype TxOut = TxOut(value: seq<octet>, scriptLen: seq<octet>, script: seq<octet>)
  datatype Tx = Tx(version: seq<octet>, nIn: seq<octet>, ins: seq<TxIn>, nOut: seq<octet>, outs: seq<TxOut>,
                   lockTime: seq<octet>)
  datatype Block = Block(header: seq<octet>, nTx: seq<octet>, txs: seq<Tx>)

  /** What bzing_index_regen finds in front of a block, and the block. */
  datatype Frame = Frame(preamble: seq<octet>, block: Block)

  /** A variable-length integer, in any of its encodings. */
  predicate Counts(s: seq<octet>, n: nat) {
    IsVarInt(s) && Value(s) == n
  }

  predicate TxInOk(i: TxIn) {
    |i.outpoint| == 36 && Counts(i.scriptLen, |i.script|) && |i.sequence| == 4
  }

  predicate TxOutOk(o: TxOut) {
    |o.value| == 8 && Counts(o.scriptLen, |o.script|)
  }

  predicate TxOk(t: Tx) {
    && |t.version| == 4 && |t.lockTime| == 4
    && Counts(t.nIn, |t.ins|) && (forall k :: 0 <= k < |t.ins| ==> TxInOk(t.ins[k]))
    && Counts(t.nOut, |t.outs|) && (forall k :: 0 <= k < |t.outs| ==> TxOutOk(t.outs[k]))
  }

  predicate BlockOk(b: Block) {
    |b.header| == 80 && Counts(b.nTx, |b.txs|) && |b.txs| <= 0x4000_0000 &&
    forall k :: 0 <= k < |b.txs| ==> TxOk(b.txs[k])
  }

  predicate FrameOk(f: Frame) {
    |f.preamble| == 8 && BlockOk(f.block)
  }

  predicate FramesOk(fs: seq<Frame>) {
    forall k :: 0 <= k < |fs| ==> FrameOk(fs[k])
  }

  // ---------- serialisation ----------

  function SerIn(i: TxIn): seq<octet> {
    i.outpoint + (i.scriptLen + (i.script + i.sequence))
  }

  function SerIns(s: seq<TxIn>): seq<octet> {
    if s == [] then [] else SerIn(s[0]) + SerIns(s[1..])
  }

  function SerOut(o: TxOut): seq<octet> {
    o.value + (o.scriptLen + o.script)
  }

  function SerOuts(s: seq<TxOut>): seq<octet> {
    if s == [] then [] else SerOut(s[0]) + SerOuts(s[1..])
  }

  function SerTx(t: Tx): seq<octet> {
    t.version + (t.nIn + (SerIns(t.ins) + (t.nOut + (SerOuts(t.outs) + t.lockTime))))
  }

  function SerTxs(s: seq<Tx>): seq<octet> {
    if s == [] then [] else SerTx(s[0]) + SerTxs(s[1..])
  }

  function SerBlock(b: Block): seq<octet> {
    b.header + (b.nTx + SerTxs(b.txs))
  }

  function SerFrames(s: seq<Frame>): seq<octet> {
    if s == [] then [] else (s[0].preamble + SerBlock(s[0].block)) + SerFrames(s[1..])
  }

  // ---------- reading at an offset ----------

  /** The bytes s are stored at an offset. */
  predicate At(data: seq<octet>, offset: nat, s: seq<octet>) {
    offset + |s| <= |data| && data[offset..offset + |s|] == s
  }

  lemma AtParts(data: seq<octet>, offset: nat, a: seq<octet>, b: seq<octet>)
    requires At(data, offset, a + b)
    ensures At(data, offset, a) && At(data, offset + |a|, b)
  {
    assert data[offset..offset + |a|] == (a + b)[..|a|];
    assert data[offset + |a|..offset + |a| + |b|] == (a + b)[|a|..];
  }

  /** Where a transaction starts within the transactions of a block. */
  function TxStart(s: seq<Tx>, k: nat): nat
    requires k <= |s|
  {
    if k == 0 then 0 else |SerTx(s[0])| + TxStart(s[1..], k - 1)
  }

  lemma {:induction false} TxAt(data: seq<octet>, offset: nat, s: seq<Tx>, k: nat)
    requires At(data, offset, SerTxs(s)) && k < |s|
    ensures At(data, offset + TxStart(s, k), SerTx(s[k]))
    decreases k
  {
    AtParts(data, offset, SerTx(s[0]), SerTxs(s[1..]));
    if k > 0 { TxAt(data, offset + |SerTx(s[0])|, s[1..], k - 1); }
  }
}
