/** src/sha2/sha2.c: the compression function over the context's own buffer, on little-endian machines. */
module Sha256Transform {
  import opened Sha256Spec

  // ---------- macros ----------

  function RotateRight32(b: bv6, x: word): word
    requires 0 < b < 32
  {
    (x >> b) | (x << (32 - b))
  }

  function MacroBigSigma0(x: word): word {
    Xor3(RotateRight32(2, x), RotateRight32(13, x), RotateRight32(22, x))
  }

  function MacroBigSigma1(x: word): word {
    Xor3(RotateRight32(6, x), RotateRight32(11, x), RotateRight32(25, x))
  }

  function MacroSmallSigma0(x: word): word {
    Xor3(RotateRight32(7, x), RotateRight32(18, x), x >> 3)
  }

  function MacroSmallSigma1(x: word): word {
    Xor3(RotateRight32(17, x), RotateRight32(19, x), x >> 10)
  }

  /** REVERSE32. */
  function Reverse32(w: word): word {
    var tmp := (w >> 16) | (w << 16);
    ((tmp & 0xff00_ff00) >> 8) | ((tmp & 0x00ff_00ff) << 8)
  }

  /** The macros' rotations are those of section 3.2 of FIPS 180-4, and the rest the functions of section 4.1.2. */
  lemma RotationsAgree(x: word)
    ensures RotateRight32(2, x) == x.RotateRight(2) && RotateRight32(13, x) == x.RotateRight(13)
    ensures RotateRight32(22, x) == x.RotateRight(22)
    ensures RotateRight32(6, x) == x.RotateRight(6) && RotateRight32(11, x) == x.RotateRight(11)
    ensures RotateRight32(25, x) == x.RotateRight(25)
    ensures RotateRight32(7, x) == x.RotateRight(7) && RotateRight32(18, x) == x.RotateRight(18)
    ensures RotateRight32(17, x) == x.RotateRight(17) && RotateRight32(19, x) == x.RotateRight(19)
  {
  }

  lemma SigmasAgree(x: word)
    ensures MacroBigSigma0(x) == BigSigma0(x) && MacroBigSigma1(x) == BigSigma1(x)
    ensures MacroSmallSigma0(x) == SmallSigma0(x) && MacroSmallSigma1(x) == SmallSigma1(x)
  {
    hide RotateRight32, Xor3;
    RotationsAgree(x);
  }

  // ---------- words in a byte buffer ----------

  /** The 32-bit word stored at four bytes. */
  function Le(b0: byte, b1: byte, b2: byte, b3: byte): word {
    (b0 as word) | ((b1 as word) << 8) | ((b2 as word) << 16) | ((b3 as word) << 24)
  }

  function LeBytes(w: word): (b: seq<byte>)
    ensures |b| == 4
  {
    [(w & 0xff) as byte, ((w >> 8) & 0xff) as byte, ((w >> 16) & 0xff) as byte, (w >> 24) as byte]
  }

  lemma StoredAndLoaded(w: word)
    ensures var b := LeBytes(w); Le(b[0], b[1], b[2], b[3]) == w
  {
  }

  /** Reversing a word loaded from memory gives the big-endian word there. */
  lemma ReverseLoaded(b: seq<byte>)
    requires |b| == 4
    ensures Reverse32(Le(b[0], b[1], b[2], b[3])) == Be(b)
  {
  }

  /** Storing a reversed word gives its big-endian bytes. */
  lemma ReverseStored(w: word)
    ensures LeBytes(Reverse32(w)) == BeBytes(w)
  {
  }

  /** The buffer seen through W256 = (sha2_word32*)context->buffer. */
  function Words(b: seq<byte>): (w: seq<word>)
    requires |b| == 64
    ensures |w| == 16
  {
    seq(16, j requires 0 <= j < 16 => Le(b[4 * j], b[4 * j + 1], b[4 * j + 2], b[4 * j + 3]))
  }

  /** W256[j] = w. */
  method StoreWord(buffer: array<byte>, j: nat, w: word)
    requires buffer.Length == 64 && j < 16
    modifies buffer
    ensures Words(buffer[..]) == old(Words(buffer[..]))[j := w]
    ensures forall k :: 0 <= k < 64 && !(4 * j <= k < 4 * j + 4) ==> buffer[k] == old(buffer[k])
  {
    hide Le, LeBytes;
    var b := LeBytes(w);
    StoredAndLoaded(w);
    ghost var was := buffer[..];
    buffer[4 * j], buffer[4 * j + 1], buffer[4 * j + 2], buffer[4 * j + 3] := b[0], b[1], b[2], b[3];
    ghost var now := buffer[..];
    forall i | 0 <= i < 16 ensures Words(now)[i] == if i == j then w else Words(was)[i] {
    }
  }

  // ---------- rounds ----------

  function Temp1(e: word, f: word, g: word, h: word, k: word, w: word): word {
    Sum(Sum(Sum(Sum(h, MacroBigSigma1(e)), Ch(e, f, g)), k), w)
  }

  function Temp2(a: word, b: word, c: word): word {
    Sum(MacroBigSigma0(a), Maj(a, b, c))
  }

  /** One pass through the rolled loop. */
  lemma RolledRound(r: Regs, k: word, w: word)
    ensures var t1, t2 := Temp1(r.e, r.f, r.g, r.h, k, w), Temp2(r.a, r.b, r.c);
      Regs(Sum(t1, t2), r.a, r.b, r.c, Sum(r.d, t1), r.e, r.f, r.g) == Round(r, k, w)
  {
    hide Sum, Ch, Maj, BigSigma0, BigSigma1, MacroBigSigma0, MacroBigSigma1;
    SigmasAgree(r.e);
    SigmasAgree(r.a);
  }

  /** The word that replaces word t - 16 of the schedule. */
  function NextWord(ws: seq<word>, j: nat): word
    requires |ws| == 16
  {
    var s0 := MacroSmallSigma0(ws[(j + 1) % 16]);
    var s1 := MacroSmallSigma1(ws[(j + 14) % 16]);
    Sum(ws[j % 16], Sum(Sum(s1, ws[(j + 9) % 16]), s0))
  }

  /** The sixteen words of the circular schedule are the last sixteen of the full one. */
  ghost predicate Window(ws: seq<word>, m: seq<word>, t: nat)
    requires |ws| == |m| == 16
  {
    forall u :: 0 <= u < t && t - 16 <= u ==> ws[u % 16] == W(m, u)
  }

  lemma WindowStarts(ws: seq<word>, m: seq<word>)
    requires |ws| == |m| == 16
    ensures Window(ws, m, 0)
  {
  }

  /** The word stored over word t - 16 is word t. */
  lemma NextScheduled(ws: seq<word>, m: seq<word>, t: nat)
    requires |ws| == |m| == 16 && Window(ws, m, t) && t >= 16
    ensures NextWord(ws, t) == W(m, t)
  {
    hide Sum, SmallSigma0, SmallSigma1, MacroSmallSigma0, MacroSmallSigma1, W;
    SigmasAgree(W(m, t - 15));
    SigmasAgree(W(m, t - 2));
    InWindow(ws, m, t, t - 15);
    InWindow(ws, m, t, t - 2);
    InWindow(ws, m, t, t - 7);
    InWindow(ws, m, t, t - 16);
    assert (t - 15) % 16 == (t + 1) % 16 && (t - 2) % 16 == (t + 14) % 16;
    assert (t - 7) % 16 == (t + 9) % 16 && (t - 16) % 16 == t % 16;
    AddLast(W(m, t - 16), SmallSigma1(W(m, t - 2)), W(m, t - 7), SmallSigma0(W(m, t - 15)));
    Schedule(m, t);
  }

  lemma InWindow(ws: seq<word>, m: seq<word>, t: nat, u: nat)
    requires |ws| == |m| == 16 && Window(ws, m, t) && u < t <= u + 16
    ensures ws[u % 16] == W(m, u)
  {
  }

  lemma WindowMoves(ws: seq<word>, m: seq<word>, t: nat)
    requires |ws| == |m| == 16 && Window(ws, m, t)
    ensures Window(ws[t % 16 := W(m, t)], m, t + 1)
  {
    hide W;
    forall u: nat | u < t + 1 && t + 1 - 16 <= u ensures ws[t % 16 := W(m, t)][u % 16] == W(m, u) {
      if u < t { assert u % 16 != t % 16; }
    }
  }

  lemma Schedule(m: seq<word>, t: nat)
    requires |m| == 16
    ensures t < 16 ==> W(m, t) == m[t]
    ensures t >= 16 ==>
      W(m, t) == Sum(Sum(Sum(SmallSigma1(W(m, t - 2)), W(m, t - 7)), SmallSigma0(W(m, t - 15))), W(m, t - 16))
  {
    hide Sum, SmallSigma0, SmallSigma1;
  }

  lemma AddLast(a: word, b: word, c: word, d: word)
    ensures Sum(a, Sum(Sum(b, c), d)) == Sum(Sum(Sum(b, c), d), a)
  {
  }

  lemma RoundsNext(r0: Regs, m: seq<word>, t: nat)
    requires |m| == 16 && t < 64
    ensures Rounds(r0, m, t + 1) == Round(Rounds(r0, m, t), K(t), W(m, t)) && Rounds(r0, m, 0) == r0
  {
  }

  /** Word j of the block, from the four bytes it is stored in. */
  lemma BlockWord(block: seq<byte>, j: nat)
    requires |block| == 64 && j < 16
    ensures Reverse32(Le(block[4 * j], block[4 * j + 1], block[4 * j + 2], block[4 * j + 3])) ==
      Parse(block)[j] == W(Parse(block), j)
  {
    hide Reverse32, Le, Be;
    var b := block[4 * j..4 * j + 4];
    ReverseLoaded(b);
  }

  // ---------- SHA256_Transform ----------

  function RegsOf(s: seq<word>): Regs
    requires |s| == 8
  {
    Regs(s[0], s[1], s[2], s[3], s[4], s[5], s[6], s[7])
  }

  /** REVERSE32(*data++, W256[j]), where data may point into the very buffer being written. */
  method LoadBlockWord(buffer: array<byte>, data: array<byte>, at: nat, j: nat, ghost block: seq<byte>)
    returns (w: word)
    requires buffer.Length == 64 && at + 64 <= data.Length && (data == buffer ==> at == 0) && j < 16 && |block| == 64
    requires forall k :: 4 * j <= k < 64 ==> data[at + k] == block[k]
    requires Window(Words(buffer[..]), Parse(block), j)
    modifies buffer
    ensures w == W(Parse(block), j) && Window(Words(buffer[..]), Parse(block), j + 1)
    ensures forall k :: 4 * j + 4 <= k < 64 ==> data[at + k] == block[k]
  {
    hide Reverse32, Le, Words, W, Window, Parse;
    var i := at + 4 * j;
    BlockWord(block, j);
    assert data[at + 4 * j] == block[4 * j] && data[at + (4 * j + 1)] == block[4 * j + 1];
    assert data[at + (4 * j + 2)] == block[4 * j + 2] && data[at + (4 * j + 3)] == block[4 * j + 3];
    w := Reverse32(Le(data[i], data[i + 1], data[i + 2], data[i + 3]));
    WindowMoves(Words(buffer[..]), Parse(block), j);
    StoreWord(buffer, j, w);
  }

  /** W256[j&0x0f] += s1 + W256[(j+9)&0x0f] + s0. */
  method ExpandWord(buffer: array<byte>, j: nat, ghost m: seq<word>) returns (w: word)
    requires buffer.Length == 64 && |m| == 16 && j >= 16 && Window(Words(buffer[..]), m, j)
    modifies buffer
    ensures w == W(m, j) && Window(Words(buffer[..]), m, j + 1)
  {
    hide Words, W, Window, NextWord;
    var ws := Words(buffer[..]);
    NextScheduled(ws, m, j);
    WindowMoves(ws, m, j);
    w := NextWord(ws, j);
    StoreWord(buffer, j % 16, w);
  }

  method Transform(state: array<word>, buffer: array<byte>, data: array<byte>, at: nat)
    requires state.Length == 8 && buffer.Length == 64 && at + 64 <= data.Length && (data == buffer ==> at == 0)
    modifies state, buffer
    ensures RegsOf(state[..]) == Compress(old(RegsOf(state[..])), old(data[at..at + 64]))
  {
    hide Words, W, Window, Parse, Round, Rounds, Temp1, Temp2, Sum, Add;
    ghost var block, r0 := data[at..at + 64], RegsOf(state[..]);
    ghost var m := Parse(block);
    var a, b, c, d := state[0], state[1], state[2], state[3];
    var e, f, g, h := state[4], state[5], state[6], state[7];
    var j := 0;
    WindowStarts(Words(buffer[..]), m);
    RoundsNext(r0, m, 0);
    while j < 16
      invariant j <= 16 && state[..] == old(state[..]) && Window(Words(buffer[..]), m, j)
      invariant forall k :: 4 * j <= k < 64 ==> data[at + k] == block[k]
      invariant Regs(a, b, c, d, e, f, g, h) == Rounds(r0, m, j)
    {
      var w := LoadBlockWord(buffer, data, at, j, block);
      var t1, t2 := Temp1(e, f, g, h, K(j), w), Temp2(a, b, c);
      RolledRound(Regs(a, b, c, d, e, f, g, h), K(j), w);
      RoundsNext(r0, m, j);
      a, b, c, d, e, f, g, h := Sum(t1, t2), a, b, c, Sum(d, t1), e, f, g;
      j := j + 1;
    }
    while j < 64
      invariant 16 <= j <= 64 && state[..] == old(state[..]) && Window(Words(buffer[..]), m, j)
      invariant Regs(a, b, c, d, e, f, g, h) == Rounds(r0, m, j)
    {
      var w := ExpandWord(buffer, j, m);
      var t1, t2 := Temp1(e, f, g, h, K(j), w), Temp2(a, b, c);
      RolledRound(Regs(a, b, c, d, e, f, g, h), K(j), w);
      RoundsNext(r0, m, j);
      a, b, c, d, e, f, g, h := Sum(t1, t2), a, b, c, Sum(d, t1), e, f, g;
      j := j + 1;
    }
    AddToState(state, a, b, c, d, e, f, g, h);
  }

  /** context->state[0] += a; ... */
  method AddToState(state: array<word>, a: word, b: word, c: word, d: word, e: word, f: word, g: word, h: word)
    requires state.Length == 8
    modifies state
    ensures RegsOf(state[..]) == Add(old(RegsOf(state[..])), Regs(a, b, c, d, e, f, g, h))
  {
    hide Sum;
    state[0], state[1], state[2], state[3] := Sum(state[0], a), Sum(state[1], b), Sum(state[2], c), Sum(state[3], d);
    state[4], state[5], state[6], state[7] := Sum(state[4], e), Sum(state[5], f), Sum(state[6], g), Sum(state[7], h);
  }

  // ---------- SHA256_Transform with SHA2_UNROLL_TRANSFORM ----------

  /** The macros compute the round function with the registers renamed instead of shifted. */
  lemma UnrolledRound(r: Regs, k: word, w: word)
    ensures var t1 := Temp1(r.e, r.f, r.g, r.h, k, w);
      Regs(Sum(Sum(t1, MacroBigSigma0(r.a)), Maj(r.a, r.b, r.c)), r.a, r.b, r.c, Sum(r.d, t1), r.e, r.f, r.g) ==
        Round(r, k, w)
  {
    hide Sum, Ch, Maj, BigSigma0, BigSigma1, MacroBigSigma0, MacroBigSigma1;
    SigmasAgree(r.e);
    SigmasAgree(r.a);
    AddGrouped(Temp1(r.e, r.f, r.g, r.h, k, w), MacroBigSigma0(r.a), Maj(r.a, r.b, r.c));
  }

  lemma AddGrouped(a: word, b: word, c: word)
    ensures Sum(Sum(a, b), c) == Sum(a, Sum(b, c))
  {
    assert Sum(a + b, c) == Sum(a, b + c);
  }

  /** ROUND256_0_TO_15: new values for its fourth and eighth arguments. */
  method Round0To15(buffer: array<byte>, data: array<byte>, at: nat, j: nat, a: word, b: word, c: word, d: word,
                    e: word, f: word, g: word, h: word, ghost block: seq<byte>, ghost r0: Regs)
    returns (d': word, h': word)
    requires buffer.Length == 64 && at + 64 <= data.Length && (data == buffer ==> at == 0) && j < 16 && |block| == 64
    requires forall k :: 4 * j <= k < 64 ==> data[at + k] == block[k]
    requires Window(Words(buffer[..]), Parse(block), j) && Regs(a, b, c, d, e, f, g, h) == Rounds(r0, Parse(block), j)
    modifies buffer
    ensures Window(Words(buffer[..]), Parse(block), j + 1)
    ensures Regs(h', a, b, c, d', e, f, g) == Rounds(r0, Parse(block), j + 1)
    ensures forall k :: 4 * j + 4 <= k < 64 ==> data[at + k] == block[k]
  {
    hide Words, W, Window, Parse, Round, Rounds, Temp1, Sum, Maj, MacroBigSigma0;
    var w := LoadBlockWord(buffer, data, at, j, block);
    var t1 := Temp1(e, f, g, h, K(j), w);
    UnrolledRound(Regs(a, b, c, d, e, f, g, h), K(j), w);
    RoundsNext(r0, Parse(block), j);
    d' := Sum(d, t1);
    h' := Sum(Sum(t1, MacroBigSigma0(a)), Maj(a, b, c));
  }

  /** ROUND256. */
  method Round16To63(buffer: array<byte>, j: nat, a: word, b: word, c: word, d: word,
                     e: word, f: word, g: word, h: word, ghost m: seq<word>, ghost r0: Regs)
    returns (d': word, h': word)
    requires buffer.Length == 64 && |m| == 16 && 16 <= j < 64
    requires Window(Words(buffer[..]), m, j) && Regs(a, b, c, d, e, f, g, h) == Rounds(r0, m, j)
    modifies buffer
    ensures Window(Words(buffer[..]), m, j + 1) && Regs(h', a, b, c, d', e, f, g) == Rounds(r0, m, j + 1)
  {
    hide Words, W, Window, Round, Rounds, Temp1, Sum, Maj, MacroBigSigma0;
    var w := ExpandWord(buffer, j, m);
    var t1 := Temp1(e, f, g, h, K(j), w);
    UnrolledRound(Regs(a, b, c, d, e, f, g, h), K(j), w);
    RoundsNext(r0, m, j);
    d' := Sum(d, t1);
    h' := Sum(Sum(t1, MacroBigSigma0(a)), Maj(a, b, c));
  }

  /** Four macros in a row, each with the arguments of the one before moved on by one. */
  method FirstFour(buffer: array<byte>, data: array<byte>, at: nat, j: nat, a0: word, b0: word, c0: word, d0: word,
                   e0: word, f0: word, g0: word, h0: word, ghost block: seq<byte>, ghost r0: Regs)
    returns (a: word, b: word, c: word, d: word, e: word, f: word, g: word, h: word)
    requires buffer.Length == 64 && at + 64 <= data.Length && (data == buffer ==> at == 0) && j <= 12 && |block| == 64
    requires forall k :: 4 * j <= k < 64 ==> data[at + k] == block[k]
    requires Window(Words(buffer[..]), Parse(block), j)
    requires Regs(a0, b0, c0, d0, e0, f0, g0, h0) == Rounds(r0, Parse(block), j)
    modifies buffer
    ensures Window(Words(buffer[..]), Parse(block), j + 4)
    ensures Regs(e, f, g, h, a, b, c, d) == Rounds(r0, Parse(block), j + 4)
    ensures forall k :: 4 * j + 16 <= k < 64 ==> data[at + k] == block[k]
  {
    hide Words, Window, Parse, Rounds;
    a, b, c, d, e, f, g, h := a0, b0, c0, d0, e0, f0, g0, h0;
    d, h := Round0To15(buffer, data, at, j, a, b, c, d, e, f, g, h, block, r0);
    c, g := Round0To15(buffer, data, at, j + 1, h, a, b, c, d, e, f, g, block, r0);
    b, f := Round0To15(buffer, data, at, j + 2, g, h, a, b, c, d, e, f, block, r0);
    a, e := Round0To15(buffer, data, at, j + 3, f, g, h, a, b, c, d, e, block, r0);
  }

  method LaterFour(buffer: array<byte>, j: nat, a0: word, b0: word, c0: word, d0: word,
                   e0: word, f0: word, g0: word, h0: word, ghost m: seq<word>, ghost r0: Regs)
    returns (a: word, b: word, c: word, d: word, e: word, f: word, g: word, h: word)
    requires buffer.Length == 64 && |m| == 16 && 16 <= j <= 60
    requires Window(Words(buffer[..]), m, j) && Regs(a0, b0, c0, d0, e0, f0, g0, h0) == Rounds(r0, m, j)
    modifies buffer
    ensures Window(Words(buffer[..]), m, j + 4) && Regs(e, f, g, h, a, b, c, d) == Rounds(r0, m, j + 4)
  {
    hide Words, Window, Rounds;
    a, b, c, d, e, f, g, h := a0, b0, c0, d0, e0, f0, g0, h0;
    d, h := Round16To63(buffer, j, a, b, c, d, e, f, g, h, m, r0);
    c, g := Round16To63(buffer, j + 1, h, a, b, c, d, e, f, g, m, r0);
    b, f := Round16To63(buffer, j + 2, g, h, a, b, c, d, e, f, m, r0);
    a, e := Round16To63(buffer, j + 3, f, g, h, a, b, c, d, e, m, r0);
  }

  /** The first of the two unrolled loops: the eight macros of its body are four, and four with the registers that
    * those leave behind. */
  method FirstRounds(buffer: array<byte>, data: array<byte>, at: nat, a0: word, b0: word, c0: word, d0: word,
                     e0: word, f0: word, g0: word, h0: word, ghost block: seq<byte>, ghost r0: Regs)
    returns (a: word, b: word, c: word, d: word, e: word, f: word, g: word, h: word)
    requires buffer.Length == 64 && at + 64 <= data.Length && (data == buffer ==> at == 0) && |block| == 64
    requires forall k :: 0 <= k < 64 ==> data[at + k] == block[k]
    requires Window(Words(buffer[..]), Parse(block), 0)
    requires Regs(a0, b0, c0, d0, e0, f0, g0, h0) == Rounds(r0, Parse(block), 0)
    modifies buffer
    ensures Window(Words(buffer[..]), Parse(block), 16)
    ensures Regs(a, b, c, d, e, f, g, h) == Rounds(r0, Parse(block), 16)
  {
    hide Words, Window, Parse, Rounds;
    a, b, c, d, e, f, g, h := a0, b0, c0, d0, e0, f0, g0, h0;
    var j := 0;
    while j < 16
      invariant j % 8 == 0 && j <= 16 && Window(Words(buffer[..]), Parse(block), j)
      invariant forall k :: 4 * j <= k < 64 ==> data[at + k] == block[k]
      invariant Regs(a, b, c, d, e, f, g, h) == Rounds(r0, Parse(block), j)
    {
      a, b, c, d, e, f, g, h := FirstFour(buffer, data, at, j, a, b, c, d, e, f, g, h, block, r0);
      e, f, g, h, a, b, c, d := FirstFour(buffer, data, at, j + 4, e, f, g, h, a, b, c, d, block, r0);
      j := j + 8;
    }
  }

  method LaterRounds(buffer: array<byte>, a0: word, b0: word, c0: word, d0: word,
                     e0: word, f0: word, g0: word, h0: word, ghost m: seq<word>, ghost r0: Regs)
    returns (a: word, b: word, c: word, d: word, e: word, f: word, g: word, h: word)
    requires buffer.Length == 64 && |m| == 16
    requires Window(Words(buffer[..]), m, 16) && Regs(a0, b0, c0, d0, e0, f0, g0, h0) == Rounds(r0, m, 16)
    modifies buffer
    ensures Regs(a, b, c, d, e, f, g, h) == Rounds(r0, m, 64)
  {
    hide Words, Window, Rounds;
    a, b, c, d, e, f, g, h := a0, b0, c0, d0, e0, f0, g0, h0;
    var j := 16;
    while j < 64
      invariant j % 8 == 0 && 16 <= j <= 64 && Window(Words(buffer[..]), m, j)
      invariant Regs(a, b, c, d, e, f, g, h) == Rounds(r0, m, j)
    {
      a, b, c, d, e, f, g, h := LaterFour(buffer, j, a, b, c, d, e, f, g, h, m, r0);
      e, f, g, h, a, b, c, d := LaterFour(buffer, j + 4, e, f, g, h, a, b, c, d, m, r0);
      j := j + 8;
    }
  }

  method TransformUnrolled(state: array<word>, buffer: array<byte>, data: array<byte>, at: nat)
    requires state.Length == 8 && buffer.Length == 64 && at + 64 <= data.Length && (data == buffer ==> at == 0)
    modifies state, buffer
    ensures RegsOf(state[..]) == Compress(old(RegsOf(state[..])), old(data[at..at + 64]))
  {
    hide Words, W, Window, Parse, Rounds, Add;
    ghost var block, r0 := data[at..at + 64], RegsOf(state[..]);
    ghost var m := Parse(block);
    var a, b, c, d := state[0], state[1], state[2], state[3];
    var e, f, g, h := state[4], state[5], state[6], state[7];
    WindowStarts(Words(buffer[..]), m);
    RoundsNext(r0, m, 0);
    a, b, c, d, e, f, g, h := FirstRounds(buffer, data, at, a, b, c, d, e, f, g, h, block, r0);
    a, b, c, d, e, f, g, h := LaterRounds(buffer, a, b, c, d, e, f, g, h, m, r0);
    AddToState(state, a, b, c, d, e, f, g, h);
  }
}
