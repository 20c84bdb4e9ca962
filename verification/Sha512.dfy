/** src/sha2/sha2.c: the compression function of SHA-512 and SHA-384 over the context's own buffer, on
  * little-endian machines. */
module Sha512Transform {
  import opened Sha512Spec
  import Sha256Context

  // ---------- macros ----------

  function RotateRight64(b: bv7, x: word): word
    requires 0 < b < 64
  {
    (x >> b) | (x << (64 - b))
  }

  function MacroBigSigma0(x: word): word {
    Xor3(RotateRight64(28, x), RotateRight64(34, x), RotateRight64(39, x))
  }

  function MacroBigSigma1(x: word): word {
    Xor3(RotateRight64(14, x), RotateRight64(18, x), RotateRight64(41, x))
  }

  function MacroSmallSigma0(x: word): word {
    Xor3(RotateRight64(1, x), RotateRight64(8, x), x >> 7)
  }

  function MacroSmallSigma1(x: word): word {
    Xor3(RotateRight64(19, x), RotateRight64(61, x), x >> 6)
  }

  /** REVERSE64. */
  function Reverse64(w: word): word {
    Sha256Context.Reverse64(w)
  }

  /** The macros' rotations are those of section 3.2 of FIPS 180-4, and the rest the functions of section 4.1.3. */
  lemma RotationsAgree(x: word)
    ensures RotateRight64(28, x) == x.RotateRight(28) && RotateRight64(34, x) == x.RotateRight(34)
    ensures RotateRight64(39, x) == x.RotateRight(39)
    ensures RotateRight64(14, x) == x.RotateRight(14) && RotateRight64(18, x) == x.RotateRight(18)
    ensures RotateRight64(41, x) == x.RotateRight(41)
    ensures RotateRight64(1, x) == x.RotateRight(1) && RotateRight64(8, x) == x.RotateRight(8)
    ensures RotateRight64(19, x) == x.RotateRight(19) && RotateRight64(61, x) == x.RotateRight(61)
  {
  }

  lemma SigmasAgree(x: word)
    ensures MacroBigSigma0(x) == BigSigma0(x) && MacroBigSigma1(x) == BigSigma1(x)
    ensures MacroSmallSigma0(x) == SmallSigma0(x) && MacroSmallSigma1(x) == SmallSigma1(x)
  {
    hide RotateRight64, Xor3;
    RotationsAgree(x);
  }

  // ---------- words in a byte buffer ----------

  /** The 64-bit word stored at eight bytes. */
  function Le(b: seq<byte>): word
    requires |b| == 8
  {
    (b[0] as word) | ((b[1] as word) << 8) | ((b[2] as word) << 16) | ((b[3] as word) << 24)
    | ((b[4] as word) << 32) | ((b[5] as word) << 40) | ((b[6] as word) << 48) | ((b[7] as word) << 56)
  }

  function LeBytes(w: word): (b: seq<byte>)
    ensures |b| == 8
  {
    Sha256Context.LeBytes64(w)
  }

  lemma StoredAndLoaded(w: word)
    ensures Le(LeBytes(w)) == w
  {
  }

  /** Reversing a word loaded from memory gives the big-endian word there. */
  lemma ReverseLoaded(b: seq<byte>)
    requires |b| == 8
    ensures Reverse64(Le(b)) == Be(b)
  {
  }

  /** Storing a reversed word gives its big-endian bytes. */
  lemma ReverseStored(w: word)
    ensures LeBytes(Reverse64(w)) == BeBytes(w)
  {
    Sha256Context.ReverseStored64(w);
  }

  /** The buffer seen through W512 = (sha2_word64*)context->buffer. */
  function Words(b: seq<byte>): (w: seq<word>)
    requires |b| == 128
    ensures |w| == 16
  {
    seq(16, j requires 0 <= j < 16 => Le(b[8 * j..8 * j + 8]))
  }

  /** W512[j] = w. */
  method StoreWord(buffer: array<byte>, j: nat, w: word)
    requires buffer.Length == 128 && j < 16
    modifies buffer
    ensures Words(buffer[..]) == old(Words(buffer[..]))[j := w]
    ensures forall k :: 0 <= k < 128 && !(8 * j <= k < 8 * j + 8) ==> buffer[k] == old(buffer[k])
  {
    hide Le, LeBytes;
    var b := LeBytes(w);
    StoredAndLoaded(w);
    ghost var was := buffer[..];
    forall k | 0 <= k < 8 { buffer[8 * j + k] := b[k]; }
    ghost var now := buffer[..];
    forall i | 0 <= i < 16 ensures Words(now)[i] == if i == j then w else Words(was)[i] {
      if i == j {
        assert now[8 * j..8 * j + 8] == b;
      } else {
        assert now[8 * i..8 * i + 8] == was[8 * i..8 * i + 8];
      }
    }
  }

  // ---------- rounds ----------

  function Temp1(e: word, f: word, g: word, h: word, k: word, w: word): word {
    Sum(Sum(Sum(Sum(h, MacroBigSigma1(e)), Ch(e, f, g)), k), w)
  }

  function Temp2(a: word, b: word, c: word): word {
    Sum(MacroBigSigma0(a), Maj(a, b, c))
  }

  /** One pass through the rolled loop. */
  lemma RolledRound(r: Regs, k: word, w: word)
    ensures var t1, t2 := Temp1(r.e, r.f, r.g, r.h, k, w), Temp2(r.a, r.b, r.c);
      Regs(Sum(t1, t2), r.a, r.b, r.c, Sum(r.d, t1), r.e, r.f, r.g) == Round(r, k, w)
  {
    hide Sum, Ch, Maj, BigSigma0, BigSigma1, MacroBigSigma0, MacroBigSigma1;
    SigmasAgree(r.e);
    SigmasAgree(r.a);
  }

  /** The word that replaces word t - 16 of the schedule. */
  function NextWord(ws: seq<word>, j: nat): word
    requires |ws| == 16
  {
    var s0 := MacroSmallSigma0(ws[(j + 1) % 16]);
    var s1 := MacroSmallSigma1(ws[(j + 14) % 16]);
    Sum(ws[j % 16], Sum(Sum(s1, ws[(j + 9) % 16]), s0))
  }

  /** The sixteen words of the circular schedule are the last sixteen of the full one. */
  ghost predicate Window(ws: seq<word>, m: seq<word>, t: nat)
    requires |ws| == |m| == 16
  {
    forall u :: 0 <= u < t && t - 16 <= u ==> ws[u % 16] == W(m, u)
  }

  lemma WindowStarts(ws: seq<word>, m: seq<word>)
    requires |ws| == |m| == 16
    ensures Window(ws, m, 0)
  {
  }

  /** The word stored over word t - 16 is word t. */
  lemma NextScheduled(ws: seq<word>, m: seq<word>, t: nat)
    requires |ws| == |m| == 16 && Window(ws, m, t) && t >= 16
    ensures NextWord(ws, t) == W(m, t)
  {
    hide Sum, SmallSigma0, SmallSigma1, MacroSmallSigma0, MacroSmallSigma1, W;
    SigmasAgree(W(m, t - 15));
    SigmasAgree(W(m, t - 2));
    InWindow(ws, m, t, t - 15);
    InWindow(ws, m, t, t - 2);
    InWindow(ws, m, t, t - 7);
    InWindow(ws, m, t, t - 16);
    assert (t - 15) % 16 == (t + 1) % 16 && (t - 2) % 16 == (t + 14) % 16;
    assert (t - 7) % 16 == (t + 9) % 16 && (t - 16) % 16 == t % 16;
    AddLast(W(m, t - 16), SmallSigma1(W(m, t - 2)), W(m, t - 7), SmallSigma0(W(m, t - 15)));
    Schedule(m, t);
  }

  lemma InWindow(ws: seq<word>, m: seq<word>, t: nat, u: nat)
    requires |ws| == |m| == 16 && Window(ws, m, t) && u < t <= u + 16
    ensures ws[u % 16] == W(m, u)
  {
  }

  lemma WindowMoves(ws: seq<word>, m: seq<word>, t: nat)
    requires |ws| == |m| == 16 && Window(ws, m, t)
    ensures Window(ws[t % 16 := W(m, t)], m, t + 1)
  {
    hide W;
    forall u: nat | u < t + 1 && t + 1 - 16 <= u ensures ws[t % 16 := W(m, t)][u % 16] == W(m, u) {
      if u < t { assert u % 16 != t % 16; }
    }
  }

  lemma Schedule(m: seq<word>, t: nat)
    requires |m| == 16
    ensures t < 16 ==> W(m, t) == m[t]
    ensures t >= 16 ==>
      W(m, t) == Sum(Sum(Sum(SmallSigma1(W(m, t - 2)), W(m, t - 7)), SmallSigma0(W(m, t - 15))), W(m, t - 16))
  {
    hide Sum, SmallSigma0, SmallSigma1;
  }

  lemma AddLast(a: word, b: word, c: word, d: word)
    ensures Sum(a, Sum(Sum(b, c), d)) == Sum(Sum(Sum(b, c), d), a)
  {
  }

  lemma RoundsNext(r0: Regs, m: seq<word>, t: nat)
    requires |m| == 16 && t < 80
    ensures Rounds(r0, m, t + 1) == Round(Rounds(r0, m, t), K(t), W(m, t)) && Rounds(r0, m, 0) == r0
  {
  }

  /** Word j of the block, from the eight bytes it is stored in. */
  lemma BlockWord(block: seq<byte>, j: nat)
    requires |block| == 128 && j < 16
    ensures Reverse64(Le(block[8 * j..8 * j + 8])) == Parse(block)[j] == W(Parse(block), j)
  {
    hide Reverse64, Le, Be;
    var b := block[8 * j..8 * j + 8];
    ReverseLoaded(b);
  }

  // ---------- SHA512_Transform ----------

  function RegsOf(s: seq<word>): Regs
    requires |s| == 8
  {
    Regs(s[0], s[1], s[2], s[3], s[4], s[5], s[6], s[7])
  }

  lemma SameBytes(data: seq<byte>, at: nat, block: seq<byte>, j: nat)
    requires at + 128 <= |data| && |block| == 128 && j < 16
    requires forall k :: 8 * j <= k < 128 ==> data[at + k] == block[k]
    ensures data[at + 8 * j..at + 8 * j + 8] == block[8 * j..8 * j + 8]
  {
    var a, b := data[at + 8 * j..at + 8 * j + 8], block[8 * j..8 * j + 8];
    forall k | 0 <= k < 8 ensures a[k] == b[k] {
      assert data[at + (8 * j + k)] == block[8 * j + k];
    }
  }

  /** REVERSE64(*data++, W512[j]), where data may point into the very buffer being written. */
  method LoadBlockWord(buffer: array<byte>, data: array<byte>, at: nat, j: nat, ghost block: seq<byte>)
    returns (w: word)
    requires buffer.Length == 128 && at + 128 <= data.Length && (data == buffer ==> at == 0) && j < 16 && |block| == 128
    requires forall k :: 8 * j <= k < 128 ==> data[at + k] == block[k]
    requires Window(Words(buffer[..]), Parse(block), j)
    modifies buffer
    ensures w == W(Parse(block), j) && Window(Words(buffer[..]), Parse(block), j + 1)
    ensures forall k :: 8 * j + 8 <= k < 128 ==> data[at + k] == block[k]
  {
    hide Reverse64, Le, Words, W, Window, Parse;
    BlockWord(block, j);
    var i := at + 8 * j;
    SameBytes(data[..], at, block, j);
    assert data[i..i + 8] == data[..][i..i + 8];
    w := Reverse64(Le(data[i..i + 8]));
    WindowMoves(Words(buffer[..]), Parse(block), j);
    StoreWord(buffer, j, w);
  }

  /** W512[j&0x0f] += s1 + W512[(j+9)&0x0f] + s0. */
  method ExpandWord(buffer: array<byte>, j: nat, ghost m: seq<word>) returns (w: word)
    requires buffer.Length == 128 && |m| == 16 && j >= 16 && Window(Words(buffer[..]), m, j)
    modifies buffer
    ensures w == W(m, j) && Window(Words(buffer[..]), m, j + 1)
  {
    hide Words, W, Window, NextWord;
    var ws := Words(buffer[..]);
    NextScheduled(ws, m, j);
    WindowMoves(ws, m, j);
    w := NextWord(ws, j);
    StoreWord(buffer, j % 16, w);
  }

  method Transform(state: array<word>, buffer: array<byte>, data: array<byte>, at: nat)
    requires state.Length == 8 && buffer.Length == 128 && at + 128 <= data.Length && (data == buffer ==> at == 0)
    modifies state, buffer
    ensures RegsOf(state[..]) == Compress(old(RegsOf(state[..])), old(data[at..at + 128]))
  {
    hide Words, W, Window, Parse, Round, Rounds, Temp1, Temp2, Sum, Add;
    ghost var block, r0 := data[at..at + 128], RegsOf(state[..]);
    ghost var m := Parse(block);
    var a, b, c, d := state[0], state[1], state[2], state[3];
    var e, f, g, h := state[4], state[5], state[6], state[7];
    var j := 0;
    WindowStarts(Words(buffer[..]), m);
    RoundsNext(r0, m, 0);
    while j < 16
      invariant j <= 16 && state[..] == old(state[..]) && Window(Words(buffer[..]), m, j)
      invariant forall k :: 8 * j <= k < 128 ==> data[at + k] == block[k]
      invariant Regs(a, b, c, d, e, f, g, h) == Rounds(r0, m, j)
    {
      var w := LoadBlockWord(buffer, data, at, j, block);
      var t1, t2 := Temp1(e, f, g, h, K(j), w), Temp2(a, b, c);
      RolledRound(Regs(a, b, c, d, e, f, g, h), K(j), w);
      RoundsNext(r0, m, j);
      a, b, c, d, e, f, g, h := Sum(t1, t2), a, b, c, Sum(d, t1), e, f, g;
      j := j + 1;
    }
    while j < 80
      invariant 16 <= j <= 80 && state[..] == old(state[..]) && Window(Words(buffer[..]), m, j)
      invariant Regs(a, b, c, d, e, f, g, h) == Rounds(r0, m, j)
    {
      var w := ExpandWord(buffer, j, m);
      var t1, t2 := Temp1(e, f, g, h, K(j), w), Temp2(a, b, c);
      RolledRound(Regs(a, b, c, d, e, f, g, h), K(j), w);
      RoundsNext(r0, m, j);
      a, b, c, d, e, f, g, h := Sum(t1, t2), a, b, c, Sum(d, t1), e, f, g;
      j := j + 1;
    }
    AddToState(state, a, b, c, d, e, f, g, h);
  }

  /** context->state[0] += a; ... */
  method AddToState(state: array<word>, a: word, b: word, c: word, d: word, e: word, f: word, g: word, h: word)
    requires state.Length == 8
    modifies state
    ensures RegsOf(state[..]) == Add(old(RegsOf(state[..])), Regs(a, b, c, d, e, f, g, h))
  {
    hide Sum;
    state[0], state[1], state[2], state[3] := Sum(state[0], a), Sum(state[1], b), Sum(state[2], c), Sum(state[3], d);
    state[4], state[5], state[6], state[7] := Sum(state[4], e), Sum(state[5], f), Sum(state[6], g), Sum(state[7], h);
  }

  // ---------- SHA512_Transform with SHA2_UNROLL_TRANSFORM ----------

  /** The macros compute the round function with the registers renamed instead of shifted. */
  lemma UnrolledRound(r: Regs, k: word, w: word)
    ensures var t1 := Temp1(r.e, r.f, r.g, r.h, k, w);
      Regs(Sum(Sum(t1, MacroBigSigma0(r.a)), Maj(r.a, r.b, r.c)), r.a, r.b, r.c, Sum(r.d, t1), r.e, r.f, r.g) ==
        Round(r, k, w)
  {
    hide Sum, Ch, Maj, BigSigma0, BigSigma1, MacroBigSigma0, MacroBigSigma1;
    SigmasAgree(r.e);
    SigmasAgree(r.a);
    AddGrouped(Temp1(r.e, r.f, r.g, r.h, k, w), MacroBigSigma0(r.a), Maj(r.a, r.b, r.c));
  }

  lemma AddGrouped(a: word, b: word, c: word)
    ensures Sum(Sum(a, b), c) == Sum(a, Sum(b, c))
  {
    assert Sum(a + b, c) == Sum(a, b + c);
  }

  /** ROUND512_0_TO_15: new values for its fourth and eighth arguments. */
  method Round0To15(buffer: array<byte>, data: array<byte>, at: nat, j: nat, a: word, b: word, c: word, d: word,
                    e: word, f: word, g: word, h: word, ghost block: seq<byte>, ghost r0: Regs)
    returns (d': word, h': word)
    requires buffer.Length == 128 && at + 128 <= data.Length && (data == buffer ==> at == 0) && j < 16 && |block| == 128
    requires forall k :: 8 * j <= k < 128 ==> data[at + k] == block[k]
    requires Window(Words(buffer[..]), Parse(block), j) && Regs(a, b, c, d, e, f, g, h) == Rounds(r0, Parse(block), j)
    modifies buffer
    ensures Window(Words(buffer[..]), Parse(block), j + 1)
    ensures Regs(h', a, b, c, d', e, f, g) == Rounds(r0, Parse(block), j + 1)
    ensures forall k :: 8 * j + 8 <= k < 128 ==> data[at + k] == block[k]
  {
    hide Words, W, Window, Parse, Round, Rounds, Temp1, Sum, Maj, MacroBigSigma0;
    var w := LoadBlockWord(buffer, data, at, j, block);
    var t1 := Temp1(e, f, g, h, K(j), w);
    UnrolledRound(Regs(a, b, c, d, e, f, g, h), K(j), w);
    RoundsNext(r0, Parse(block), j);
    d' := Sum(d, t1);
    h' := Sum(Sum(t1, MacroBigSigma0(a)), Maj(a, b, c));
  }

  /** ROUND512. */
  method Round16To79(buffer: array<byte>, j: nat, a: word, b: word, c: word, d: word,
                     e: word, f: word, g: word, h: word, ghost m: seq<word>, ghost r0: Regs)
    returns (d': word, h': word)
    requires buffer.Length == 128 && |m| == 16 && 16 <= j < 80
    requires Window(Words(buffer[..]), m, j) && Regs(a, b, c, d, e, f, g, h) == Rounds(r0, m, j)
    modifies buffer
    ensures Window(Words(buffer[..]), m, j + 1) && Regs(h', a, b, c, d', e, f, g) == Rounds(r0, m, j + 1)
  {
    hide Words, W, Window, Round, Rounds, Temp1, Sum, Maj, MacroBigSigma0;
    var w := ExpandWord(buffer, j, m);
    var t1 := Temp1(e, f, g, h, K(j), w);
    UnrolledRound(Regs(a, b, c, d, e, f, g, h), K(j), w);
    RoundsNext(r0, m, j);
    d' := Sum(d, t1);
    h' := Sum(Sum(t1, MacroBigSigma0(a)), Maj(a, b, c));
  }

  /** Four macros in a row, each with the arguments of the one before moved on by one. */
  method FirstFour(buffer: array<byte>, data: array<byte>, at: nat, j: nat, a0: word, b0: word, c0: word, d0: word,
                   e0: word, f0: word, g0: word, h0: word, ghost block: seq<byte>, ghost r0: Regs)
    returns (a: word, b: word, c: word, d: word, e: word, f: word, g: word, h: word)
    requires buffer.Length == 128 && at + 128 <= data.Length && (data == buffer ==> at == 0)
    requires j <= 12 && |block| == 128
    requires forall k :: 8 * j <= k < 128 ==> data[at + k] == block[k]
    requires Window(Words(buffer[..]), Parse(block), j)
    requires Regs(a0, b0, c0, d0, e0, f0, g0, h0) == Rounds(r0, Parse(block), j)
    modifies buffer
    ensures Window(Words(buffer[..]), Parse(block), j + 4)
    ensures Regs(e, f, g, h, a, b, c, d) == Rounds(r0, Parse(block), j + 4)
    ensures forall k :: 8 * j + 32 <= k < 128 ==> data[at + k] == block[k]
  {
    hide Words, Window, Parse, Rounds;
    a, b, c, d, e, f, g, h := a0, b0, c0, d0, e0, f0, g0, h0;
    d, h := Round0To15(buffer, data, at, j, a, b, c, d, e, f, g, h, block, r0);
    c, g := Round0To15(buffer, data, at, j + 1, h, a, b, c, d, e, f, g, block, r0);
    b, f := Round0To15(buffer, data, at, j + 2, g, h, a, b, c, d, e, f, block, r0);
    a, e := Round0To15(buffer, data, at, j + 3, f, g, h, a, b, c, d, e, block, r0);
  }

  method LaterFour(buffer: array<byte>, j: nat, a0: word, b0: word, c0: word, d0: word,
                   e0: word, f0: word, g0: word, h0: word, ghost m: seq<word>, ghost r0: Regs)
    returns (a: word, b: word, c: word, d: word, e: word, f: word, g: word, h: word)
    requires buffer.Length == 128 && |m| == 16 && 16 <= j <= 76
    requires Window(Words(buffer[..]), m, j) && Regs(a0, b0, c0, d0, e0, f0, g0, h0) == Rounds(r0, m, j)
    modifies buffer
    ensures Window(Words(buffer[..]), m, j + 4) && Regs(e, f, g, h, a, b, c, d) == Rounds(r0, m, j + 4)
  {
    hide Words, Window, Rounds;
    a, b, c, d, e, f, g, h := a0, b0, c0, d0, e0, f0, g0, h0;
    d, h := Round16To79(buffer, j, a, b, c, d, e, f, g, h, m, r0);
    c, g := Round16To79(buffer, j + 1, h, a, b, c, d, e, f, g, m, r0);
    b, f := Round16To79(buffer, j + 2, g, h, a, b, c, d, e, f, m, r0);
    a, e := Round16To79(buffer, j + 3, f, g, h, a, b, c, d, e, m, r0);
  }

  /** The first of the two unrolled loops: the eight macros of its body are four, and four with the registers that
    * those leave behind. */
  method FirstRounds(buffer: array<byte>, data: array<byte>, at: nat, a0: word, b0: word, c0: word, d0: word,
                     e0: word, f0: word, g0: word, h0: word, ghost block: seq<byte>, ghost r0: Regs)
    returns (a: word, b: word, c: word, d: word, e: word, f: word, g: word, h: word)
    requires buffer.Length == 128 && at + 128 <= data.Length && (data == buffer ==> at == 0) && |block| == 128
    requires forall k :: 0 <= k < 128 ==> data[at + k] == block[k]
    requires Window(Words(buffer[..]), Parse(block), 0)
    requires Regs(a0, b0, c0, d0, e0, f0, g0, h0) == Rounds(r0, Parse(block), 0)
    modifies buffer
    ensures Window(Words(buffer[..]), Parse(block), 16)
    ensures Regs(a, b, c, d, e, f, g, h) == Rounds(r0, Parse(block), 16)
  {
    hide Words, Window, Parse, Rounds;
    a, b, c, d, e, f, g, h := a0, b0, c0, d0, e0, f0, g0, h0;
    var j := 0;
    while j < 16
      invariant j % 8 == 0 && j <= 16 && Window(Words(buffer[..]), Parse(block), j)
      invariant forall k :: 8 * j <= k < 128 ==> data[at + k] == block[k]
      invariant Regs(a, b, c, d, e, f, g, h) == Rounds(r0, Parse(block), j)
    {
      a, b, c, d, e, f, g, h := FirstFour(buffer, data, at, j, a, b, c, d, e, f, g, h, block, r0);
      e, f, g, h, a, b, c, d := FirstFour(buffer, data, at, j + 4, e, f, g, h, a, b, c, d, block, r0);
      j := j + 8;
    }
  }

  method LaterRounds(buffer: array<byte>, a0: word, b0: word, c0: word, d0: word,
                     e0: word, f0: word, g0: word, h0: word, ghost m: seq<word>, ghost r0: Regs)
    returns (a: word, b: word, c: word, d: word, e: word, f: word, g: word, h: word)
    requires buffer.Length == 128 && |m| == 16
    requires Window(Words(buffer[..]), m, 16) && Regs(a0, b0, c0, d0, e0, f0, g0, h0) == Rounds(r0, m, 16)
    modifies buffer
    ensures Regs(a, b, c, d, e, f, g, h) == Rounds(r0, m, 80)
  {
    hide Words, Window, Rounds;
    a, b, c, d, e, f, g, h := a0, b0, c0, d0, e0, f0, g0, h0;
    var j := 16;
    while j < 80
      invariant j % 8 == 0 && 16 <= j <= 80 && Window(Words(buffer[..]), m, j)
      invariant Regs(a, b, c, d, e, f, g, h) == Rounds(r0, m, j)
    {
      a, b, c, d, e, f, g, h := LaterFour(buffer, j, a, b, c, d, e, f, g, h, m, r0);
      e, f, g, h, a, b, c, d := LaterFour(buffer, j + 4, e, f, g, h, a, b, c, d, m, r0);
      j := j + 8;
    }
  }

  method TransformUnrolled(state: array<word>, buffer: array<byte>, data: array<byte>, at: nat)
    requires state.Length == 8 && buffer.Length == 128 && at + 128 <= data.Length && (data == buffer ==> at == 0)
    modifies state, buffer
    ensures RegsOf(state[..]) == Compress(old(RegsOf(state[..])), old(data[at..at + 128]))
  {
    hide Words, W, Window, Parse, Rounds, Add;
    ghost var block, r0 := data[at..at + 128], RegsOf(state[..]);
    ghost var m := Parse(block);
    var a, b, c, d := state[0], state[1], state[2], state[3];
    var e, f, g, h := state[4], state[5], state[6], state[7];
    WindowStarts(Words(buffer[..]), m);
    RoundsNext(r0, m, 0);
    a, b, c, d, e, f, g, h := FirstRounds(buffer, data, at, a, b, c, d, e, f, g, h, block, r0);
    a, b, c, d, e, f, g, h := LaterRounds(buffer, a, b, c, d, e, f, g, h, m, r0);
    AddToState(state, a, b, c, d, e, f, g, h);
  }
}
