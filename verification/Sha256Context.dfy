/** src/sha2/sha2.c: SHA256_Init, SHA256_Update and SHA256_Final, a streaming hash. */
module Sha256Context {
  import opened Sha256Spec
  import opened Sha256Transform

  const U64: nat := 0x1_0000_0000_0000_0000

  /** The whole blocks at the front of a message, and the rest. */
  function Whole(m: seq<byte>): (p: seq<byte>)
    ensures |p| % 64 == 0 && |p| <= |m| < |p| + 64
  {
    m[..|m| / 64 * 64]
  }

  function Rest(m: seq<byte>): (p: seq<byte>)
    ensures |p| == |m| % 64
  {
    m[|m| / 64 * 64..]
  }

  /** usedspace = (context->bitcount >> 3) % SHA256_BLOCK_LENGTH. */
  lemma UsedSpace(n: nat)
    ensures 8 * n % U64 / 8 % 64 == n % 64
  {
    LowBits(n, 8 * n / U64 * (U64 / 512), 8 * n % U64);
  }

  lemma LowBits(n: nat, z: nat, r: nat)
    requires 8 * n == 512 * z + r
    ensures r / 8 % 64 == n % 64
  {
    assert r / 8 == n - 64 * z;
  }

  /** memcpy of n bytes. */
  method CopyBytes(dst: array<byte>, to: nat, src: array<byte>, from: nat, n: nat)
    requires dst != src && to + n <= dst.Length && from + n <= src.Length
    modifies dst
    ensures dst[..] == old(dst[..to]) + src[from..from + n] + old(dst[to + n..])
  {
    forall i | 0 <= i < n { dst[to + i] := src[from + i]; }
    assert dst[to..to + n] == src[from..from + n];
  }

  method Zero(dst: array<byte>, to: nat, n: nat)
    requires to + n <= dst.Length
    modifies dst
    ensures dst[..] == old(dst[..to]) + seq(n, _ => 0) + old(dst[to + n..])
  {
    forall i | to <= i < to + n { dst[i] := 0; }
  }

  lemma CountBits(n: nat, k: nat)
    ensures (8 * n % U64 + k * 8 % U64) % U64 == 8 * (n + k) % U64
  {
    var x, y := 8 * n, k * 8;
    var qx, qy := x / U64, y / U64;
    var r := x % U64 + y % U64;
    assert x == qx * U64 + x % U64 && y == qy * U64 + y % U64;
    assert x + y == (qx + qy) * U64 + r;
    if r < U64 {
      assert (x + y) / U64 == qx + qy;
    } else {
      assert (x + y) / U64 == qx + qy + 1;
    }
  }

  lemma Appended(m: seq<byte>, d: seq<byte>, a: nat, b: nat, c: nat)
    requires a <= b <= c <= |d|
    ensures m + d[a..b] + d[b..c] == m + d[a..c]
  {
  }

  /** A chunk that completes the block in the buffer. */
  lemma BlockComplete(m: seq<byte>, d: seq<byte>)
    requires |m| % 64 + |d| == 64
    ensures Whole(m + d) == Whole(m) + (Rest(m) + d) && Rest(m + d) == []
    ensures HashBlocks(INITIAL, Whole(m + d)) == Compress(HashBlocks(INITIAL, Whole(m)), Rest(m) + d)
  {
    hide Compress;
    assert m == Whole(m) + Rest(m);
    assert (|m| + |d|) / 64 * 64 == |m| + |d|;
    HashBlocksConcat(INITIAL, Whole(m), Rest(m) + d);
    HashOneBlock(HashBlocks(INITIAL, Whole(m)), Rest(m) + d);
  }

  /** A chunk that does not. */
  lemma BlockGrows(m: seq<byte>, d: seq<byte>)
    requires |m| % 64 + |d| < 64
    ensures Whole(m + d) == Whole(m) && Rest(m + d) == Rest(m) + d
  {
    assert (|m| + |d|) / 64 == |m| / 64;
  }

  // ---------- padding ----------

  /** The tail of the padded message when the length still fits behind the message in its last block. */
  lemma PadOneBlock(m: seq<byte>)
    requires |m| % 64 <= 55
    ensures Pad(m) == Whole(m) + (Rest(m) + [0x80] + seq(55 - |m| % 64, _ => 0) + BeBytes64(BitLength(|m|)))
    ensures HashBlocks(INITIAL, Pad(m)) ==
      Compress(HashBlocks(INITIAL, Whole(m)), Rest(m) + [0x80] + seq(55 - |m| % 64, _ => 0) + BeBytes64(BitLength(|m|)))
  {
    hide Compress, BeBytes64, BitLength;
    assert m == Whole(m) + Rest(m);
    assert (119 - |m| % 64) % 64 == 55 - |m| % 64;
    var tail := Rest(m) + [0x80] + seq(55 - |m| % 64, _ => 0) + BeBytes64(BitLength(|m|));
    assert Pad(m) == Whole(m) + tail;
    HashBlocksConcat(INITIAL, Whole(m), tail);
    HashOneBlock(HashBlocks(INITIAL, Whole(m)), tail);
  }

  /** ... and when it does not. */
  lemma PadTwoBlocks(m: seq<byte>)
    requires |m| % 64 > 55
    ensures HashBlocks(INITIAL, Pad(m)) ==
      Compress(Compress(HashBlocks(INITIAL, Whole(m)), Rest(m) + [0x80] + seq(63 - |m| % 64, _ => 0)),
               seq(56, _ => 0) + BeBytes64(BitLength(|m|)))
  {
    hide Compress, BeBytes64, BitLength;
    assert m == Whole(m) + Rest(m);
    assert (119 - |m| % 64) % 64 == 119 - |m| % 64;
    var one, two := Rest(m) + [0x80] + seq(63 - |m| % 64, _ => 0), seq(56, _ => 0) + BeBytes64(BitLength(|m|));
    assert seq(119 - |m| % 64, _ => 0 as byte) == seq(63 - |m| % 64, _ => 0 as byte) + seq(56, _ => 0 as byte);
    assert Pad(m) == Whole(m) + (one + two);
    var r := HashBlocks(INITIAL, Whole(m));
    HashBlocksConcat(INITIAL, Whole(m), one + two);
    HashBlocksConcat(r, one, two);
    HashOneBlock(r, one);
    HashOneBlock(Compress(r, one), two);
  }

  // ---------- the length ----------

  /** REVERSE64. */
  function Reverse64(w: bv64): bv64 {
    var tmp := (w >> 32) | (w << 32);
    var tmp := ((tmp & 0xff00_ff00_ff00_ff00) >> 8) | ((tmp & 0x00ff_00ff_00ff_00ff) << 8);
    ((tmp & 0xffff_0000_ffff_0000) >> 16) | ((tmp & 0x0000_ffff_0000_ffff) << 16)
  }

  /** A 64-bit word in memory. */
  function LeBytes64(x: bv64): (b: seq<byte>)
    ensures |b| == 8
  {
    LeBytes((x & 0xffff_ffff) as word) + LeBytes((x >> 32) as word)
  }

  lemma ReverseStored64(x: bv64)
    ensures LeBytes64(Reverse64(x)) == BeBytes64(x)
  {
  }

  class Context {
    const state: array<word>
    const buffer: array<byte>
    var bitcount: nat
    /** Everything passed to Update so far. */
    ghost var message: seq<byte>

    ghost predicate Valid()
      reads this, state, buffer
    {
      && state.Length == 8 && buffer.Length == 64
      && bitcount == 8 * |message| % U64
      && RegsOf(state[..]) == HashBlocks(INITIAL, Whole(message))
      && buffer[..|message| % 64] == Rest(message)
    }

    /** SHA256_Init. */
    constructor ()
      ensures Valid() && message == [] && fresh(state) && fresh(buffer)
    {
      state := new word[][0x6a09e667, 0xbb67ae85, 0x3c6ef372, 0xa54ff53a,
                          0x510e527f, 0x9b05688c, 0x1f83d9ab, 0x5be0cd19];
      buffer := new byte[64](_ => 0);
      bitcount := 0;
      message := [];
    }

    /** The number of bytes of an unfinished block. */
    method UsedBytes() returns (usedspace: nat)
      requires Valid()
      ensures usedspace == |message| % 64
    {
      UsedSpace(|message|);
      usedspace := bitcount / 8 % 64;
    }

    /** Bytes that do not complete a block only go into the buffer. */
    method Buffered(data: array<byte>, from: nat, n: nat)
      requires Valid() && data != buffer && from + n <= data.Length && |message| % 64 + n < 64
      modifies this`message, this`bitcount, buffer
      ensures Valid() && message == old(message) + data[from..from + n]
    {
      hide HashBlocks, RegsOf;
      ghost var chunk := data[from..from + n];
      BlockGrows(message, chunk);
      CountBits(|message|, n);
      var usedspace := UsedBytes();
      CopyBytes(buffer, usedspace, data, from, n);
      bitcount := (bitcount + n * 8 % U64) % U64;
      message := message + chunk;
    }

    /** Bytes that complete the block in the buffer, which is then hashed over itself. */
    method Completed(data: array<byte>, from: nat, n: nat)
      requires Valid() && data != buffer && from + n <= data.Length && |message| % 64 + n == 64
      modifies this`message, this`bitcount, buffer, state
      ensures Valid() && message == old(message) + data[from..from + n] && |message| % 64 == 0
    {
      hide HashBlocks, RegsOf, Compress;
      ghost var chunk := data[from..from + n];
      BlockComplete(message, chunk);
      CountBits(|message|, n);
      var usedspace := UsedBytes();
      CopyBytes(buffer, usedspace, data, from, n);
      assert buffer[0..64] == Rest(message) + chunk;
      bitcount := (bitcount + n * 8 % U64) % U64;
      Transform(state, buffer, buffer, 0);
      message := message + chunk;
    }

    /** A whole block hashed where it is, the buffer serving as the schedule. */
    method Direct(data: array<byte>, from: nat)
      requires Valid() && data != buffer && from + 64 <= data.Length && |message| % 64 == 0
      modifies this`message, this`bitcount, buffer, state
      ensures Valid() && message == old(message) + data[from..from + 64]
    {
      hide HashBlocks, RegsOf, Compress;
      ghost var chunk := data[from..from + 64];
      BlockComplete(message, chunk);
      assert Rest(message) + chunk == chunk;
      CountBits(|message|, 64);
      Transform(state, buffer, data, from);
      bitcount := (bitcount + 64 * 8) % U64;
      message := message + chunk;
    }

    /** As many complete blocks as there are. */
    method Blocks(data: array<byte>, from0: nat, len0: nat) returns (from: nat, len: nat)
      requires Valid() && data != buffer && from0 + len0 <= data.Length && |message| % 64 == 0
      modifies this`message, this`bitcount, buffer, state
      ensures Valid() && from0 <= from && from + len == from0 + len0 && len < 64 && |message| % 64 == 0
      ensures message == old(message) + data[from0..from]
    {
      hide HashBlocks, RegsOf, Compress, Whole, Rest, Valid;
      from, len := from0, len0;
      ghost var was, all := message, data[..];
      while len >= 64
        invariant Valid() && from0 <= from && from + len == from0 + len0 && |message| % 64 == 0
        invariant data[..] == all && message == was + all[from0..from]
      {
        Direct(data, from);
        Appended(was, all, from0, from, from + 64);
        len := len - 64;
        from := from + 64;
      }
    }

    /** The bytes that go behind those already in the buffer: all there are, or enough to fill it. */
    method FillBuffer(data: array<byte>, from0: nat, len0: nat) returns (from: nat, len: nat)
      requires Valid() && data != buffer && from0 + len0 <= data.Length && len0 > 0
      modifies this`message, this`bitcount, buffer, state
      ensures Valid() && from0 <= from && from + len == from0 + len0 && (len == 0 || |message| % 64 == 0)
      ensures message == old(message) + data[from0..from]
    {
      hide HashBlocks, RegsOf, Compress, Whole, Rest, Valid;
      from, len := from0, len0;
      var usedspace := UsedBytes();
      if usedspace > 0 {
        var freespace := 64 - usedspace;
        if len >= freespace {
          Completed(data, from, freespace);
          len := len - freespace;
          from := from + freespace;
        } else {
          Buffered(data, from, len);
          from, len := from + len, 0;
        }
      }
    }

    /** SHA256_Update. */
    method Update(data: array<byte>, from0: nat, len0: nat)
      requires Valid() && data != buffer && from0 + len0 <= data.Length
      modifies this`message, this`bitcount, buffer, state
      ensures Valid() && message == old(message) + data[from0..from0 + len0]
    {
      hide HashBlocks, RegsOf, Compress, Whole, Rest, Valid;
      if len0 == 0 { return; }
      ghost var was, all := message, data[..];
      var from, len := FillBuffer(data, from0, len0);
      if len == 0 { return; }
      ghost var mid := from;
      from, len := Blocks(data, from, len);
      Appended(was, all, from0, mid, from);
      if len > 0 {
        Buffered(data, from, len);
        Appended(was, all, from0, from, from0 + len0);
      }
    }

    /** The one bit and zeros behind the message, up to byte `end`. */
    method OpenPadding(used: nat, end: nat)
      requires Valid() && used == |message| % 64 && used < end <= 64
      modifies buffer
      ensures buffer[..end] == Rest(message) + [0x80] + seq(end - 1 - used, _ => 0)
    {
      hide HashBlocks, RegsOf;
      var usedspace := used;
      buffer[usedspace] := 0x80;
      usedspace := usedspace + 1;
      if usedspace < end {
        Zero(buffer, usedspace, end - usedspace);
      }
    }

    /** The padding of SHA256_Final, up to the length.  The length still fits behind the message, ... */
    method PadShort(used: nat)
      requires Valid() && 0 < used == |message| % 64 <= 55
      modifies buffer
      ensures HashBlocks(INITIAL, Pad(message)) ==
        Compress(RegsOf(state[..]), buffer[..56] + BeBytes64(BitLength(|message|)))
    {
      hide HashBlocks, RegsOf, Compress, Pad, BeBytes64, BitLength;
      OpenPadding(used, 56);
      PadOneBlock(message);
    }

    /** ... or needs a block of its own, ... */
    method PadLong(used: nat)
      requires Valid() && used == |message| % 64 > 55
      modifies buffer, state
      ensures HashBlocks(INITIAL, Pad(message)) ==
        Compress(RegsOf(state[..]), buffer[..56] + BeBytes64(BitLength(|message|)))
    {
      hide HashBlocks, RegsOf, Compress, Pad, BeBytes64, BitLength;
      OpenPadding(used, 64);
      PadTwoBlocks(message);
      assert buffer[0..64] == buffer[..64];
      Transform(state, buffer, buffer, 0);
      Zero(buffer, 0, 56);
      assert buffer[..56] == seq(56, _ => 0);
    }

    /** ... or the message ends with a block. */
    method PadEmpty()
      requires Valid() && |message| % 64 == 0
      modifies buffer
      ensures HashBlocks(INITIAL, Pad(message)) ==
        Compress(RegsOf(state[..]), buffer[..56] + BeBytes64(BitLength(|message|)))
    {
      hide HashBlocks, RegsOf, Compress, Pad, BeBytes64, BitLength;
      ghost var rest := Rest(message);
      Zero(buffer, 0, 56);
      buffer[0] := 0x80;
      PadOneBlock(message);
      assert buffer[..56] == rest + [0x80] + seq(55, _ => 0);
    }

    method PadLast()
      requires Valid()
      modifies buffer, state
      ensures HashBlocks(INITIAL, Pad(message)) ==
        Compress(RegsOf(state[..]), buffer[..56] + BeBytes64(BitLength(|message|)))
    {
      hide HashBlocks, RegsOf, Compress, Pad, BeBytes64, BitLength, Valid;
      var usedspace := UsedBytes();
      if usedspace > 0 {
        if usedspace + 1 <= 56 { PadShort(usedspace); } else { PadLong(usedspace); }
      } else {
        PadEmpty();
      }
    }

    /** *(sha2_word64*)&context->buffer[56] = the reversed bit count. */
    method StoreLength()
      requires buffer.Length == 64 && bitcount == 8 * |message| % U64
      modifies buffer
      ensures buffer[..] == old(buffer[..56]) + BeBytes64(BitLength(|message|))
    {
      hide LeBytes64, Reverse64, BeBytes64;
      var b := LeBytes64(Reverse64(bitcount as bv64));
      ReverseStored64(bitcount as bv64);
      forall i | 0 <= i < 8 { buffer[56 + i] := b[i]; }
    }

    /** SHA256_Final: the digest of everything passed to Update. */
    method Final(digest: array<byte>)
      requires Valid() && digest.Length == 32 && digest != buffer
      modifies digest, buffer, state
      ensures digest[..] == Sha256(message)
    {
      hide HashBlocks, Compress, Pad, BeBytes64, BitLength, BeBytes, DigestOf, RegsOf;
      PadLast();
      StoreLength();
      assert buffer[0..64] == buffer[..];
      Transform(state, buffer, buffer, 0);
      Output(digest);
    }

    /** REVERSE32(context->state[j],context->state[j]); *d++ = context->state[j]; */
    method Output(digest: array<byte>)
      requires state.Length == 8 && digest.Length == 32
      modifies digest, state
      ensures digest[..] == DigestOf(old(RegsOf(state[..])))
    {
      hide BeBytes, LeBytes, Reverse32;
      ghost var s := state[..];
      var j := 0;
      while j < 8
        invariant j <= 8
        invariant forall i :: j <= i < 8 ==> state[i] == s[i]
        invariant digest[..4 * j] == Emitted(s, j)
      {
        ReverseStored(state[j]);
        state[j] := Reverse32(state[j]);
        PutWord(digest, j, LeBytes(state[j]));
        j := j + 1;
      }
      EmittedAll(s);
      assert digest[..] == digest[..32];
    }
  }

  /** The first j words, big-endian. */
  function Emitted(s: seq<word>, j: nat): (d: seq<byte>)
    requires j <= |s|
    ensures |d| == 4 * j
  {
    if j == 0 then [] else Emitted(s, j - 1) + BeBytes(s[j - 1])
  }

  lemma EmittedAll(s: seq<word>)
    requires |s| == 8
    ensures Emitted(s, 8) == DigestOf(RegsOf(s))
  {
    hide BeBytes;
    assert Emitted(s, 2) == BeBytes(s[0]) + BeBytes(s[1]);
    assert Emitted(s, 4) == BeBytes(s[0]) + BeBytes(s[1]) + BeBytes(s[2]) + BeBytes(s[3]);
    assert Emitted(s, 6) == Emitted(s, 4) + BeBytes(s[4]) + BeBytes(s[5]);
  }

  method PutWord(digest: array<byte>, j: nat, b: seq<byte>)
    requires 4 * j + 4 <= digest.Length && |b| == 4
    modifies digest
    ensures digest[..4 * j + 4] == old(digest[..4 * j]) + b
  {
    digest[4 * j], digest[4 * j + 1], digest[4 * j + 2], digest[4 * j + 3] := b[0], b[1], b[2], b[3];
  }
}
