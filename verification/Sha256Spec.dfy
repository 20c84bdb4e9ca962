/** SHA-256 as sections 4.1.2, 4.2.2, 5.1.1, 5.2.1, 5.3.3 and 6.2.2 of FIPS 180-4 define it. */
module Sha256Spec {
  type byte = bv8
  type word = bv32

  // ---------- section 4.1.2 ----------

  function Ch(x: word, y: word, z: word): word {
    (x & y) ^ ((!x) & z)
  }

  function Maj(x: word, y: word, z: word): word {
    (x & y) ^ (x & z) ^ (y & z)
  }

  /** Addition modulo 2^32. */
  function Sum(x: word, y: word): word {
    x + y
  }

  function Xor3(x: word, y: word, z: word): word {
    x ^ y ^ z
  }

  function BigSigma0(x: word): word {
    Xor3(x.RotateRight(2), x.RotateRight(13), x.RotateRight(22))
  }

  function BigSigma1(x: word): word {
    Xor3(x.RotateRight(6), x.RotateRight(11), x.RotateRight(25))
  }

  function SmallSigma0(x: word): word {
    Xor3(x.RotateRight(7), x.RotateRight(18), x >> 3)
  }

  function SmallSigma1(x: word): word {
    Xor3(x.RotateRight(17), x.RotateRight(19), x >> 10)
  }

  // ---------- section 4.2.2 ----------

  const K256: seq<seq<word>> := [
    [0x428a2f98, 0x71374491, 0xb5c0fbcf, 0xe9b5dba5, 0x3956c25b, 0x59f111f1, 0x923f82a4, 0xab1c5ed5],
    [0xd807aa98, 0x12835b01, 0x243185be, 0x550c7dc3, 0x72be5d74, 0x80deb1fe, 0x9bdc06a7, 0xc19bf174],
    [0xe49b69c1, 0xefbe4786, 0x0fc19dc6, 0x240ca1cc, 0x2de92c6f, 0x4a7484aa, 0x5cb0a9dc, 0x76f988da],
    [0x983e5152, 0xa831c66d, 0xb00327c8, 0xbf597fc7, 0xc6e00bf3, 0xd5a79147, 0x06ca6351, 0x14292967],
    [0x27b70a85, 0x2e1b2138, 0x4d2c6dfc, 0x53380d13, 0x650a7354, 0x766a0abb, 0x81c2c92e, 0x92722c85],
    [0xa2bfe8a1, 0xa81a664b, 0xc24b8b70, 0xc76c51a3, 0xd192e819, 0xd6990624, 0xf40e3585, 0x106aa070],
    [0x19a4c116, 0x1e376c08, 0x2748774c, 0x34b0bcb5, 0x391c0cb3, 0x4ed8aa4a, 0x5b9cca4f, 0x682e6ff3],
    [0x748f82ee, 0x78a5636f, 0x84c87814, 0x8cc70208, 0x90befffa, 0xa4506ceb, 0xbef9a3f7, 0xc67178f2]]

  function K(t: nat): word
    requires t < 64
  {
    K256Rows();
    K256[t / 8][t % 8]
  }

  lemma K256Rows()
    ensures |K256| == 8 && forall r :: 0 <= r < 8 ==> |K256[r]| == 8
  {
  }

  // ---------- bytes and words ----------

  /** Big-endian word. */
  function Be(b: seq<byte>): word
    requires |b| == 4
  {
    ((b[0] as word) << 24) | ((b[1] as word) << 16) | ((b[2] as word) << 8) | (b[3] as word)
  }

  function BeBytes(w: word): (b: seq<byte>)
    ensures |b| == 4
  {
    [(w >> 24) as byte, ((w >> 16) & 0xff) as byte, ((w >> 8) & 0xff) as byte, (w & 0xff) as byte]
  }

  function BeBytes64(x: bv64): (b: seq<byte>)
    ensures |b| == 8
  {
    BeBytes((x >> 32) as word) + BeBytes((x & 0xffff_ffff) as word)
  }

  // ---------- section 5.1.1 ----------

  /** The message, a one bit, zeros, and the length in bits (64 bits of it), to a multiple of 512 bits. */
  function Pad(m: seq<byte>): (p: seq<byte>)
    ensures |p| % 64 == 0 && |m| + 9 <= |p| < |m| + 73
  {
    PadLength(|m|);
    m + [0x80] + seq((119 - |m| % 64) % 64, _ => 0) + BeBytes64(BitLength(|m|))
  }

  lemma PadLength(n: nat)
    ensures (n + 1 + (119 - n % 64) % 64 + 8) % 64 == 0
  {
    var q, r := n / 64, n % 64;
    var z := (119 - r) % 64;
    assert n == 64 * q + r;
    assert z == if r <= 55 then 55 - r else 119 - r;
  }

  function BitLength(n: nat): bv64 {
    (8 * n % 0x1_0000_0000_0000_0000) as bv64
  }

  // ---------- section 6.2.2 ----------

  /** The message block M(i) of section 5.2.1. */
  function Parse(b: seq<byte>): (m: seq<word>)
    requires |b| == 64
    ensures |m| == 16
  {
    seq(16, j requires 0 <= j < 16 => Be(b[4 * j..4 * j + 4]))
  }

  /** Step 1: the message schedule. */
  function W(m: seq<word>, t: nat): word
    requires |m| == 16
  {
    if t < 16 then m[t]
    else Sum(Sum(Sum(SmallSigma1(W(m, t - 2)), W(m, t - 7)), SmallSigma0(W(m, t - 15))), W(m, t - 16))
  }

  datatype Regs = Regs(a: word, b: word, c: word, d: word, e: word, f: word, g: word, h: word)

  function T1(r: Regs, k: word, w: word): word {
    Sum(Sum(Sum(Sum(r.h, BigSigma1(r.e)), Ch(r.e, r.f, r.g)), k), w)
  }

  function T2(r: Regs): word {
    Sum(BigSigma0(r.a), Maj(r.a, r.b, r.c))
  }

  /** Step 3, for one t. */
  function Round(r: Regs, k: word, w: word): Regs {
    Regs(Sum(T1(r, k, w), T2(r)), r.a, r.b, r.c, Sum(r.d, T1(r, k, w)), r.e, r.f, r.g)
  }

  function Rounds(r: Regs, m: seq<word>, t: nat): Regs
    requires |m| == 16 && t <= 64
  {
    if t == 0 then r else Round(Rounds(r, m, t - 1), K(t - 1), W(m, t - 1))
  }

  function Add(x: Regs, y: Regs): Regs {
    Regs(Sum(x.a, y.a), Sum(x.b, y.b), Sum(x.c, y.c), Sum(x.d, y.d),
         Sum(x.e, y.e), Sum(x.f, y.f), Sum(x.g, y.g), Sum(x.h, y.h))
  }

  /** Steps 1 to 4. */
  function Compress(r: Regs, block: seq<byte>): Regs
    requires |block| == 64
  {
    Add(r, Rounds(r, Parse(block), 64))
  }

  /** Section 5.3.3. */
  const INITIAL: Regs := Regs(0x6a09e667, 0xbb67ae85, 0x3c6ef372, 0xa54ff53a,
                              0x510e527f, 0x9b05688c, 0x1f83d9ab, 0x5be0cd19)

  /** The hash value after the whole blocks of p, from r on. */
  function HashBlocks(r: Regs, p: seq<byte>): Regs
    decreases |p|
  {
    if |p| < 64 then r else HashBlocks(Compress(r, p[..64]), p[64..])
  }

  function DigestOf(r: Regs): (d: seq<byte>)
    ensures |d| == 32
  {
    BeBytes(r.a) + BeBytes(r.b) + BeBytes(r.c) + BeBytes(r.d) + BeBytes(r.e) + BeBytes(r.f) + BeBytes(r.g)
    + BeBytes(r.h)
  }

  function Sha256(m: seq<byte>): (d: seq<byte>)
    ensures |d| == 32
  {
    DigestOf(HashBlocks(INITIAL, Pad(m)))
  }

  // ---------- block by block ----------

  lemma {:induction false} HashBlocksConcat(r: Regs, p: seq<byte>, q: seq<byte>)
    requires |p| % 64 == 0
    ensures HashBlocks(r, p + q) == HashBlocks(HashBlocks(r, p), q)
    decreases |p|
  {
    hide Compress;
    if |p| == 0 {
      assert p + q == q;
    } else {
      HashBlocksConcat(Compress(r, p[..64]), p[64..], q);
      assert (p + q)[..64] == p[..64] && (p + q)[64..] == p[64..] + q;
    }
  }

  lemma HashOneBlock(r: Regs, p: seq<byte>)
    requires |p| == 64
    ensures HashBlocks(r, p) == Compress(r, p)
  {
    hide Compress;
    assert p[..64] == p && p[64..] == [];
  }
}
