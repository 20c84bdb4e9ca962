/** src/sha2/sha2.c: SHA512_Init, SHA512_Update, SHA512_Final, and those of SHA-384, a streaming hash with a bit
  * count of two 64-bit words. */
module Sha512Context {
  import opened NatBits
  import opened Sha512Spec
  import opened Sha512Transform
  import Bytes = Sha256Context

  /** The whole blocks at the front of a message, and the rest. */
  function WholeBlocks(m: seq<byte>): (p: seq<byte>)
    ensures |p| % 128 == 0 && |p| <= |m| < |p| + 128
  {
    m[..|m| / 128 * 128]
  }

  function Tail(m: seq<byte>): (p: seq<byte>)
    ensures |p| == |m| % 128
  {
    m[|m| / 128 * 128..]
  }

  lemma BlockDone(s: Regs, m: seq<byte>, d: seq<byte>)
    requires |m| % 128 + |d| == 128
    ensures WholeBlocks(m + d) == WholeBlocks(m) + (Tail(m) + d) && Tail(m + d) == []
    ensures HashBlocks(s, WholeBlocks(m + d)) == Compress(HashBlocks(s, WholeBlocks(m)), Tail(m) + d)
  {
    hide Compress;
    assert m == WholeBlocks(m) + Tail(m);
    assert (|m| + |d|) / 128 * 128 == |m| + |d|;
    HashBlocksConcat(s, WholeBlocks(m), Tail(m) + d);
    HashOneBlock(HashBlocks(s, WholeBlocks(m)), Tail(m) + d);
  }

  lemma BlockOpen(m: seq<byte>, d: seq<byte>)
    requires |m| % 128 + |d| < 128
    ensures WholeBlocks(m + d) == WholeBlocks(m) && Tail(m + d) == Tail(m) + d
  {
    assert (|m| + |d|) / 128 == |m| / 128;
  }

  lemma PadOne(s: Regs, m: seq<byte>)
    requires |m| % 128 <= 111
    ensures HashBlocks(s, Pad(m)) ==
      Compress(HashBlocks(s, WholeBlocks(m)), Tail(m) + [0x80] + seq(111 - |m| % 128, _ => 0) + LengthField(|m|))
  {
    hide Compress, LengthField;
    assert m == WholeBlocks(m) + Tail(m);
    assert (239 - |m| % 128) % 128 == 111 - |m| % 128;
    var tail := Tail(m) + [0x80] + seq(111 - |m| % 128, _ => 0) + LengthField(|m|);
    assert Pad(m) == WholeBlocks(m) + tail;
    HashBlocksConcat(s, WholeBlocks(m), tail);
    HashOneBlock(HashBlocks(s, WholeBlocks(m)), tail);
  }

  lemma PadTwo(s: Regs, m: seq<byte>)
    requires |m| % 128 > 111
    ensures HashBlocks(s, Pad(m)) ==
      Compress(Compress(HashBlocks(s, WholeBlocks(m)), Tail(m) + [0x80] + seq(127 - |m| % 128, _ => 0)),
               seq(112, _ => 0) + LengthField(|m|))
  {
    hide Compress, LengthField;
    assert m == WholeBlocks(m) + Tail(m);
    assert (239 - |m| % 128) % 128 == 239 - |m| % 128;
    var one, two := Tail(m) + [0x80] + seq(127 - |m| % 128, _ => 0), seq(112, _ => 0) + LengthField(|m|);
    assert seq(239 - |m| % 128, _ => 0 as byte) == seq(127 - |m| % 128, _ => 0 as byte) + seq(112, _ => 0 as byte);
    assert Pad(m) == WholeBlocks(m) + (one + two);
    var r := HashBlocks(s, WholeBlocks(m));
    HashBlocksConcat(s, WholeBlocks(m), one + two);
    HashBlocksConcat(r, one, two);
    HashOneBlock(r, one);
    HashOneBlock(Compress(r, one), two);
  }

  // ---------- the 128-bit count ----------

  /** ADDINC128: the carry is seen by the low word having become smaller than what was added. */
  function AddLow(w0: nat, n: nat): nat {
    (w0 + n) % U64
  }

  function AddHigh(w0: nat, w1: nat, n: nat): nat {
    if AddLow(w0, n) < n then (w1 + 1) % U64 else w1
  }

  lemma AddInc128(w0: nat, w1: nat, n: nat)
    requires w0 < U64 && w1 < U64 && n < U64
    ensures AddHigh(w0, w1, n) < U64 && AddLow(w0, n) < U64
    ensures AddHigh(w0, w1, n) * U64 + AddLow(w0, n) == (w1 * U64 + w0 + n) % U128
  {
    if w0 + n < U64 {
      assert AddLow(w0, n) == w0 + n >= n;
    } else {
      assert AddLow(w0, n) == w0 + n - U64 < n;
    }
  }

  /** Two digits to the base u; v is the square of u. */
  lemma Digits(x: nat, u: nat, v: nat, w0: nat, w1: nat) returns (z: nat)
    requires u > 0 && v > 0 && v == Times(u, u) && w0 < u && w1 < u && Times(w1, u) + w0 == x % v
    ensures w0 == x % u && w1 == x % v / u && x == Times(z, u) + w0
  {
    hide Times;
    var q := x / v;
    DivModTimes(x, v);
    TimesAssoc(q, u, u);
    TimesDistribute(Times(q, u), w1, u);
    TimesNat(q, u);
    z := Times(q, u) + w1;
    ModTimes(x, u, z, w0);
    ModTimes(x % v, u, w1, w0);
  }

  lemma TimesNat(a: nat, b: nat)
    ensures Times(a, b) >= 0
  {
  }

  lemma LowBits(n: nat, z: nat, w0: nat)
    requires 8 * n == 1024 * z + w0
    ensures w0 / 8 % 128 == n % 128
  {
    assert w0 / 8 == n - 128 * z;
  }

  /** The two words of a count of n bytes. */
  lemma CountWords(n: nat, w0: nat, w1: nat)
    requires w0 < U64 && w1 < U64 && w1 * U64 + w0 == 8 * n % U128
    ensures w0 == 8 * n % U64 && w1 == 8 * n % U128 / U64 && w0 / 8 % 128 == n % 128
  {
    var z := Digits(8 * n, U64, U128, w0, w1);
    LowBits(n, z * (U64 / 1024), w0);
  }

  lemma CountGrows(n: nat, k: nat, w0: nat, w1: nat)
    requires w0 < U64 && w1 < U64 && w1 * U64 + w0 == 8 * n % U128 && 8 * k < U64
    ensures AddHigh(w0, w1, 8 * k) * U64 + AddLow(w0, 8 * k) == 8 * (n + k) % U128
    ensures AddHigh(w0, w1, 8 * k) < U64 && AddLow(w0, 8 * k) < U64
  {
    hide AddHigh, AddLow;
    AddInc128(w0, w1, 8 * k);
    AddMod(8 * n, 8 * k);
  }

  lemma AddMod(x: nat, y: nat)
    requires y < U64
    ensures (x % U128 + y) % U128 == (x + y) % U128
  {
    var q, t := x / U128, x % U128 + y;
    assert x + y == q * U128 + t;
    if t < U128 {
      assert (x + y) / U128 == q;
    } else {
      assert (x + y) / U128 == q + 1;
    }
  }

  // ---------- the streaming interface ----------

  /** SHA512_CTX, for SHA-512 and SHA-384. */
  class Context512 {
    const initial: Regs
    const state: array<word>
    const buffer: array<byte>
    /** bitcount[0] and bitcount[1]. */
    var low: nat
    var high: nat
    /** Everything passed to Update so far. */
    ghost var message: seq<byte>

    ghost predicate Valid()
      reads this, state, buffer
    {
      && state.Length == 8 && buffer.Length == 128 && low < U64 && high < U64
      && high * U64 + low == 8 * |message| % U128
      && RegsOf(state[..]) == HashBlocks(initial, WholeBlocks(message))
      && buffer[..|message| % 128] == Tail(message)
    }

    /** SHA512_Init and SHA384_Init, with their initial values. */
    constructor (initial: Regs)
      ensures Valid() && message == [] && fresh(state) && fresh(buffer) && this.initial == initial
    {
      this.initial := initial;
      state := new word[][initial.a, initial.b, initial.c, initial.d, initial.e, initial.f, initial.g, initial.h];
      buffer := new byte[128](_ => 0);
      low, high, message := 0, 0, [];
    }

    /** (bitcount[0] >> 3) % SHA512_BLOCK_LENGTH. */
    method UsedBytes() returns (usedspace: nat)
      requires Valid()
      ensures usedspace == |message| % 128
    {
      CountWords(|message|, low, high);
      usedspace := low / 8 % 128;
    }

    /** ADDINC128(context->bitcount, n << 3). */
    method Count(n: nat)
      requires low < U64 && high < U64 && high * U64 + low == 8 * |message| % U128 && n <= 128
      modifies this`low, this`high
      ensures low < U64 && high < U64 && high * U64 + low == 8 * (|message| + n) % U128
    {
      CountGrows(|message|, n, low, high);
      low, high := AddLow(low, 8 * n), AddHigh(low, high, 8 * n);
    }

    method Buffered(data: array<byte>, from: nat, n: nat)
      requires Valid() && data != buffer && from + n <= data.Length && |message| % 128 + n < 128
      modifies this`message, this`low, this`high, buffer
      ensures Valid() && message == old(message) + data[from..from + n]
    {
      hide HashBlocks, RegsOf, Compress;
      ghost var chunk := data[from..from + n];
      BlockOpen(message, chunk);
      var usedspace := UsedBytes();
      Bytes.CopyBytes(buffer, usedspace, data, from, n);
      Count(n);
      message := message + chunk;
    }

    method Completed(data: array<byte>, from: nat, n: nat)
      requires Valid() && data != buffer && from + n <= data.Length && |message| % 128 + n == 128
      modifies this`message, this`low, this`high, buffer, state
      ensures Valid() && message == old(message) + data[from..from + n] && |message| % 128 == 0
    {
      hide HashBlocks, RegsOf, Compress;
      ghost var chunk := data[from..from + n];
      BlockDone(initial, message, chunk);
      var usedspace := UsedBytes();
      Bytes.CopyBytes(buffer, usedspace, data, from, n);
      assert buffer[0..128] == Tail(message) + chunk;
      Count(n);
      Transform(state, buffer, buffer, 0);
      message := message + chunk;
    }

    method FillBuffer(data: array<byte>, from0: nat, len0: nat) returns (from: nat, len: nat)
      requires Valid() && data != buffer && from0 + len0 <= data.Length && len0 > 0
      modifies this`message, this`low, this`high, buffer, state
      ensures Valid() && from0 <= from && from + len == from0 + len0 && (len == 0 || |message| % 128 == 0)
      ensures message == old(message) + data[from0..from]
    {
      hide HashBlocks, RegsOf, Compress, Valid;
      from, len := from0, len0;
      var usedspace := UsedBytes();
      if usedspace > 0 {
        var freespace := 128 - usedspace;
        if len >= freespace {
          Completed(data, from, freespace);
          len := len - freespace;
          from := from + freespace;
        } else {
          Buffered(data, from, len);
          from, len := from + len, 0;
        }
      }
    }

    method Direct(data: array<byte>, from: nat)
      requires Valid() && data != buffer && from + 128 <= data.Length && |message| % 128 == 0
      modifies this`message, this`low, this`high, buffer, state
      ensures Valid() && message == old(message) + data[from..from + 128] && |message| % 128 == 0
    {
      hide HashBlocks, RegsOf, Compress;
      ghost var chunk := data[from..from + 128];
      BlockDone(initial, message, chunk);
      assert Tail(message) + chunk == chunk;
      Transform(state, buffer, data, from);
      Count(128);
      message := message + chunk;
    }

    method Blocks(data: array<byte>, from0: nat, len0: nat) returns (from: nat, len: nat)
      requires Valid() && data != buffer && from0 + len0 <= data.Length && |message| % 128 == 0
      modifies this`message, this`low, this`high, buffer, state
      ensures Valid() && from0 <= from && from + len == from0 + len0 && len < 128 && |message| % 128 == 0
      ensures message == old(message) + data[from0..from]
    {
      hide HashBlocks, RegsOf, Compress, Valid;
      from, len := from0, len0;
      ghost var was, all := message, data[..];
      while len >= 128
        invariant Valid() && from0 <= from && from + len == from0 + len0 && |message| % 128 == 0
        invariant data[..] == all && message == was + all[from0..from]
      {
        Direct(data, from);
        Bytes.Appended(was, all, from0, from, from + 128);
        len := len - 128;
        from := from + 128;
      }
    }

    /** SHA512_Update. */
    method Update(data: array<byte>, from0: nat, len0: nat)
      requires Valid() && data != buffer && from0 + len0 <= data.Length
      modifies this`message, this`low, this`high, buffer, state
      ensures Valid() && message == old(message) + data[from0..from0 + len0]
    {
      hide HashBlocks, RegsOf, Compress, Valid;
      if len0 == 0 { return; }
      ghost var was, all := message, data[..];
      var from, len := FillBuffer(data, from0, len0);
      if len == 0 { return; }
      ghost var mid := from;
      from, len := Blocks(data, from, len);
      Bytes.Appended(was, all, from0, mid, from);
      if len > 0 {
        Buffered(data, from, len);
        Bytes.Appended(was, all, from0, from, from0 + len0);
      }
    }

    /** The one bit and zeros behind the message, up to byte `end`. */
    method OpenPadding(used: nat, end: nat)
      requires Valid() && used == |message| % 128 && used < end <= 128
      modifies buffer
      ensures buffer[..end] == Tail(message) + [0x80] + seq(end - 1 - used, _ => 0)
    {
      hide HashBlocks, RegsOf;
      var usedspace := used;
      buffer[usedspace] := 0x80;
      usedspace := usedspace + 1;
      if usedspace < end {
        Bytes.Zero(buffer, usedspace, end - usedspace);
      }
    }

    /** The padding up to the length.  The length still fits behind the message, ... */
    method PadShort(used: nat)
      requires Valid() && 0 < used == |message| % 128 <= 111
      modifies buffer
      ensures HashBlocks(initial, Pad(message)) == Compress(RegsOf(state[..]), buffer[..112] + LengthField(|message|))
    {
      hide HashBlocks, RegsOf, Compress, Pad, LengthField;
      OpenPadding(used, 112);
      PadOne(initial, message);
    }

    /** ... or needs a block of its own, of which 126 bytes are cleared, ... */
    method PadLong(used: nat)
      requires Valid() && used == |message| % 128 > 111
      modifies buffer, state
      ensures HashBlocks(initial, Pad(message)) == Compress(RegsOf(state[..]), buffer[..112] + LengthField(|message|))
    {
      hide HashBlocks, RegsOf, Compress, Pad, LengthField, WholeBlocks, Tail;
      OpenPadding(used, 128);
      PadTwo(initial, message);
      assert buffer[0..128] == buffer[..128];
      Transform(state, buffer, buffer, 0);
      Bytes.Zero(buffer, 0, 126);
      assert buffer[..112] == seq(112, _ => 0);
    }

    /** ... or the message ends with a block. */
    method PadEmpty()
      requires Valid() && |message| % 128 == 0
      modifies buffer
      ensures HashBlocks(initial, Pad(message)) == Compress(RegsOf(state[..]), buffer[..112] + LengthField(|message|))
    {
      hide HashBlocks, RegsOf, Compress, Pad, LengthField;
      ghost var rest := Tail(message);
      Bytes.Zero(buffer, 0, 112);
      buffer[0] := 0x80;
      PadOne(initial, message);
      assert buffer[..112] == rest + [0x80] + seq(111, _ => 0);
    }

    method PadLast()
      requires Valid()
      modifies buffer, state
      ensures HashBlocks(initial, Pad(message)) == Compress(RegsOf(state[..]), buffer[..112] + LengthField(|message|))
    {
      hide HashBlocks, RegsOf, Compress, Pad, LengthField, Valid;
      var usedspace := UsedBytes();
      if usedspace > 0 {
        if usedspace + 1 <= 112 { PadShort(usedspace); } else { PadLong(usedspace); }
      } else {
        PadEmpty();
      }
    }

    /** The reversed words of the count, the high one first. */
    method StoreLength()
      requires buffer.Length == 128 && low < U64 && high < U64 && high * U64 + low == 8 * |message| % U128
      modifies buffer
      ensures buffer[..] == old(buffer[..112]) + LengthField(|message|)
    {
      hide LeBytes, Reverse64, BeBytes, Word64;
      CountWords(|message|, low, high);
      ReverseStored(Word64(high));
      ReverseStored(Word64(low));
      var b := LeBytes(Reverse64(Word64(high))) + LeBytes(Reverse64(Word64(low)));
      forall i | 0 <= i < 16 { buffer[112 + i] := b[i]; }
    }

    /** SHA512_Last: the state is that of the padded concatenation of all chunks. */
    method Last()
      requires Valid()
      modifies buffer, state
      ensures RegsOf(state[..]) == HashBlocks(initial, Pad(message))
    {
      hide HashBlocks, RegsOf, Compress, Pad, LengthField;
      PadLast();
      StoreLength();
      assert buffer[0..128] == buffer[..];
      Transform(state, buffer, buffer, 0);
    }

    /** The state's words reversed in place, and the first of them copied out. */
    method Output(digest: array<byte>, words: nat)
      requires state.Length == 8 && digest.Length == 8 * words && words <= 8
      modifies digest, state
      ensures digest[..] == DigestOf(old(RegsOf(state[..])))[..8 * words]
    {
      hide BeBytes, LeBytes, Reverse64, DigestOf, RegsOf, Emitted;
      ghost var s := state[..];
      var j := 0;
      EmittedNone(s);
      while j < words
        invariant j <= words
        invariant forall i :: j <= i < 8 ==> state[i] == s[i]
        invariant digest[..8 * j] == Emitted(s, j)
      {
        ReverseStored(state[j]);
        state[j] := Reverse64(state[j]);
        PutWord(digest, j, LeBytes(state[j]));
        EmittedNext(s, j);
        j := j + 1;
      }
      EmittedAll(s, words);
      assert digest[..] == digest[..8 * words];
    }

    /** SHA512_Final: the digest of everything passed to Update. */
    method Final512(digest: array<byte>)
      requires Valid() && initial == INITIAL_512 && digest.Length == 64 && digest != buffer
      modifies digest, buffer, state
      ensures digest[..] == Sha512(message)
    {
      hide HashBlocks, Pad, DigestOf, RegsOf;
      Last();
      Output(digest, 8);
    }

    /** SHA384_Final. */
    method Final384(digest: array<byte>)
      requires Valid() && initial == INITIAL_384 && digest.Length == 48 && digest != buffer
      modifies digest, buffer, state
      ensures digest[..] == Sha384(message)
    {
      hide HashBlocks, Pad, DigestOf, RegsOf;
      Last();
      Output(digest, 6);
    }
  }

  /** The first j words, big-endian. */
  function Emitted(s: seq<word>, j: nat): (d: seq<byte>)
    requires j <= |s|
    ensures |d| == 8 * j
  {
    if j == 0 then [] else Emitted(s, j - 1) + BeBytes(s[j - 1])
  }

  lemma EmittedNone(s: seq<word>)
    ensures Emitted(s, 0) == []
  {
  }

  lemma EmittedNext(s: seq<word>, j: nat)
    requires j < |s|
    ensures Emitted(s, j + 1) == Emitted(s, j) + BeBytes(s[j])
  {
  }

  lemma {:induction false} EmittedPrefix(s: seq<word>, j: nat, k: nat)
    requires j <= k <= |s|
    ensures Emitted(s, j) == Emitted(s, k)[..8 * j]
  {
    hide BeBytes;
    if j < k { EmittedPrefix(s, j, k - 1); }
  }

  lemma EmittedAll(s: seq<word>, j: nat)
    requires |s| == 8 && j <= 8
    ensures Emitted(s, j) == DigestOf(RegsOf(s))[..8 * j]
  {
    hide Emitted, DigestOf;
    EmittedEight(s);
    EmittedPrefix(s, j, 8);
  }

  lemma EmittedEight(s: seq<word>)
    requires |s| == 8
    ensures Emitted(s, 8) == DigestOf(RegsOf(s))
  {
    hide BeBytes, Emitted;
    EmittedNone(s);
    EmittedTwo(s, 2);
    EmittedTwo(s, 4);
    EmittedTwo(s, 6);
    EmittedTwo(s, 8);
    assert Emitted(s, 2) == BeBytes(s[0]) + BeBytes(s[1]);
  }

  lemma EmittedTwo(s: seq<word>, j: nat)
    requires 2 <= j <= |s|
    ensures Emitted(s, j) == Emitted(s, j - 2) + BeBytes(s[j - 2]) + BeBytes(s[j - 1])
  {
  }

  method PutWord(digest: array<byte>, j: nat, b: seq<byte>)
    requires 8 * j + 8 <= digest.Length && |b| == 8
    modifies digest
    ensures digest[..8 * j + 8] == old(digest[..8 * j]) + b
  {
    forall k | 0 <= k < 8 { digest[8 * j + k] := b[k]; }
  }
}
