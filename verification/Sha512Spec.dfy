/** SHA-512 and SHA-384 as sections 4.1.3, 4.2.3, 5.1.2, 5.2.2, 5.3.4, 5.3.5, 6.4.2 and 6.5 of FIPS 180-4 define
  * them. */
module Sha512Spec {
  import Sha256Spec

  type byte = Sha256Spec.byte
  type word = bv64

  // ---------- section 4.1.3 ----------

  function Ch(x: word, y: word, z: word): word {
    (x & y) ^ ((!x) & z)
  }

  function Maj(x: word, y: word, z: word): word {
    (x & y) ^ (x & z) ^ (y & z)
  }

  /** Addition modulo 2^64. */
  function Sum(x: word, y: word): word {
    x + y
  }

  function Xor3(x: word, y: word, z: word): word {
    x ^ y ^ z
  }

  function BigSigma0(x: word): word {
    Xor3(x.RotateRight(28), x.RotateRight(34), x.RotateRight(39))
  }

  function BigSigma1(x: word): word {
    Xor3(x.RotateRight(14), x.RotateRight(18), x.RotateRight(41))
  }

  function SmallSigma0(x: word): word {
    Xor3(x.RotateRight(1), x.RotateRight(8), x >> 7)
  }

  function SmallSigma1(x: word): word {
    Xor3(x.RotateRight(19), x.RotateRight(61), x >> 6)
  }

  // ---------- section 4.2.3 ----------

  const K512: seq<seq<word>> := [
    [0x428a2f98_d728ae22, 0x71374491_23ef65cd, 0xb5c0fbcf_ec4d3b2f, 0xe9b5dba5_8189dbbc,
     0x3956c25b_f348b538, 0x59f111f1_b605d019, 0x923f82a4_af194f9b, 0xab1c5ed5_da6d8118],
    [0xd807aa98_a3030242, 0x12835b01_45706fbe, 0x243185be_4ee4b28c, 0x550c7dc3_d5ffb4e2,
     0x72be5d74_f27b896f, 0x80deb1fe_3b1696b1, 0x9bdc06a7_25c71235, 0xc19bf174_cf692694],
    [0xe49b69c1_9ef14ad2, 0xefbe4786_384f25e3, 0x0fc19dc6_8b8cd5b5, 0x240ca1cc_77ac9c65,
     0x2de92c6f_592b0275, 0x4a7484aa_6ea6e483, 0x5cb0a9dc_bd41fbd4, 0x76f988da_831153b5],
    [0x983e5152_ee66dfab, 0xa831c66d_2db43210, 0xb00327c8_98fb213f, 0xbf597fc7_beef0ee4,
     0xc6e00bf3_3da88fc2, 0xd5a79147_930aa725, 0x06ca6351_e003826f, 0x14292967_0a0e6e70],
    [0x27b70a85_46d22ffc, 0x2e1b2138_5c26c926, 0x4d2c6dfc_5ac42aed, 0x53380d13_9d95b3df,
     0x650a7354_8baf63de, 0x766a0abb_3c77b2a8, 0x81c2c92e_47edaee6, 0x92722c85_1482353b],
    [0xa2bfe8a1_4cf10364, 0xa81a664b_bc423001, 0xc24b8b70_d0f89791, 0xc76c51a3_0654be30,
     0xd192e819_d6ef5218, 0xd6990624_5565a910, 0xf40e3585_5771202a, 0x106aa070_32bbd1b8],
    [0x19a4c116_b8d2d0c8, 0x1e376c08_5141ab53, 0x2748774c_df8eeb99, 0x34b0bcb5_e19b48a8,
     0x391c0cb3_c5c95a63, 0x4ed8aa4a_e3418acb, 0x5b9cca4f_7763e373, 0x682e6ff3_d6b2b8a3],
    [0x748f82ee_5defb2fc, 0x78a5636f_43172f60, 0x84c87814_a1f0ab72, 0x8cc70208_1a6439ec,
     0x90befffa_23631e28, 0xa4506ceb_de82bde9, 0xbef9a3f7_b2c67915, 0xc67178f2_e372532b],
    [0xca273ece_ea26619c, 0xd186b8c7_21c0c207, 0xeada7dd6_cde0eb1e, 0xf57d4f7f_ee6ed178,
     0x06f067aa_72176fba, 0x0a637dc5_a2c898a6, 0x113f9804_bef90dae, 0x1b710b35_131c471b],
    [0x28db77f5_23047d84, 0x32caab7b_40c72493, 0x3c9ebe0a_15c9bebc, 0x431d67c4_9c100d4c,
     0x4cc5d4be_cb3e42b6, 0x597f299c_fc657e2a, 0x5fcb6fab_3ad6faec, 0x6c44198c_4a475817]]

  function K(t: nat): word
    requires t < 80
  {
    K512Rows();
    K512[t / 8][t % 8]
  }

  lemma K512Rows()
    ensures |K512| == 10 && forall r :: 0 <= r < 10 ==> |K512[r]| == 8
  {
  }

  // ---------- bytes and words ----------

  /** Big-endian word. */
  function Be(b: seq<byte>): word
    requires |b| == 8
  {
    ((b[0] as word) << 56) | ((b[1] as word) << 48) | ((b[2] as word) << 40) | ((b[3] as word) << 32)
    | ((b[4] as word) << 24) | ((b[5] as word) << 16) | ((b[6] as word) << 8) | (b[7] as word)
  }

  function BeBytes(w: word): (b: seq<byte>)
    ensures |b| == 8
  {
    Sha256Spec.BeBytes64(w)
  }

  // ---------- section 5.1.2 ----------

  const U64: nat := 0x1_0000_0000_0000_0000
  const U128: nat := U64 * U64

  function Word64(n: nat): word
    requires n < U64
  {
    n as word
  }

  /** The 128-bit length field. */
  function LengthField(n: nat): (b: seq<byte>)
    ensures |b| == 16
  {
    BeBytes(Word64(8 * n % U128 / U64)) + BeBytes(Word64(8 * n % U64))
  }

  lemma PadLength(n: nat)
    ensures (n + 1 + (239 - n % 128) % 128 + 16) % 128 == 0
  {
    var q, r := n / 128, n % 128;
    if r <= 111 {
      assert (239 - r) % 128 == 111 - r;
      assert n + 1 + (111 - r) + 16 == 128 * (q + 1);
    } else {
      assert (239 - r) % 128 == 239 - r;
      assert n + 1 + (239 - r) + 16 == 128 * (q + 2);
    }
  }

  /** The message, a one bit, zeros, and the length in bits (128 bits of it), to a multiple of 1024 bits. */
  function Pad(m: seq<byte>): (p: seq<byte>)
    ensures |p| % 128 == 0 && |m| + 17 <= |p| < |m| + 145
  {
    PadLength(|m|);
    m + [0x80] + seq((239 - |m| % 128) % 128, _ => 0) + LengthField(|m|)
  }

  // ---------- section 6.4.2 ----------

  /** The message block M(i) of section 5.2.2. */
  function Parse(b: seq<byte>): (m: seq<word>)
    requires |b| == 128
    ensures |m| == 16
  {
    seq(16, j requires 0 <= j < 16 => Be(b[8 * j..8 * j + 8]))
  }

  /** Step 1: the message schedule. */
  function W(m: seq<word>, t: nat): word
    requires |m| == 16
  {
    if t < 16 then m[t]
    else Sum(Sum(Sum(SmallSigma1(W(m, t - 2)), W(m, t - 7)), SmallSigma0(W(m, t - 15))), W(m, t - 16))
  }

  datatype Regs = Regs(a: word, b: word, c: word, d: word, e: word, f: word, g: word, h: word)

  function T1(r: Regs, k: word, w: word): word {
    Sum(Sum(Sum(Sum(r.h, BigSigma1(r.e)), Ch(r.e, r.f, r.g)), k), w)
  }

  function T2(r: Regs): word {
    Sum(BigSigma0(r.a), Maj(r.a, r.b, r.c))
  }

  /** Step 3, for one t. */
  function Round(r: Regs, k: word, w: word): Regs {
    Regs(Sum(T1(r, k, w), T2(r)), r.a, r.b, r.c, Sum(r.d, T1(r, k, w)), r.e, r.f, r.g)
  }

  function Rounds(r: Regs, m: seq<word>, t: nat): Regs
    requires |m| == 16 && t <= 80
  {
    if t == 0 then r else Round(Rounds(r, m, t - 1), K(t - 1), W(m, t - 1))
  }

  function Add(x: Regs, y: Regs): Regs {
    Regs(Sum(x.a, y.a), Sum(x.b, y.b), Sum(x.c, y.c), Sum(x.d, y.d),
         Sum(x.e, y.e), Sum(x.f, y.f), Sum(x.g, y.g), Sum(x.h, y.h))
  }

  /** Steps 1 to 4. */
  function Compress(r: Regs, block: seq<byte>): Regs
    requires |block| == 128
  {
    Add(r, Rounds(r, Parse(block), 80))
  }

  /** Section 5.3.5. */
  const INITIAL_512: Regs := Regs(
    0x6a09e667_f3bcc908, 0xbb67ae85_84caa73b, 0x3c6ef372_fe94f82b, 0xa54ff53a_5f1d36f1,
    0x510e527f_ade682d1, 0x9b05688c_2b3e6c1f, 0x1f83d9ab_fb41bd6b, 0x5be0cd19_137e2179)

  /** Section 5.3.4. */
  const INITIAL_384: Regs := Regs(
    0xcbbb9d5d_c1059ed8, 0x629a292a_367cd507, 0x9159015a_3070dd17, 0x152fecd8_f70e5939,
    0x67332667_ffc00b31, 0x8eb44a87_68581511, 0xdb0c2e0d_64f98fa7, 0x47b5481d_befa4fa4)

  /** The hash value after the whole blocks of p, from r on. */
  function HashBlocks(r: Regs, p: seq<byte>): Regs
    decreases |p|
  {
    if |p| < 128 then r else HashBlocks(Compress(r, p[..128]), p[128..])
  }

  /** All eight words, big-endian. */
  function DigestOf(r: Regs): (d: seq<byte>)
    ensures |d| == 64
  {
    BeBytes(r.a) + BeBytes(r.b) + BeBytes(r.c) + BeBytes(r.d) + BeBytes(r.e) + BeBytes(r.f) + BeBytes(r.g)
    + BeBytes(r.h)
  }

  function Sha512(m: seq<byte>): (d: seq<byte>)
    ensures |d| == 64
  {
    DigestOf(HashBlocks(INITIAL_512, Pad(m)))
  }

  /** Section 6.5: the first 384 bits. */
  function Sha384(m: seq<byte>): (d: seq<byte>)
    ensures |d| == 48
  {
    DigestOf(HashBlocks(INITIAL_384, Pad(m)))[..48]
  }

  // ---------- block by block ----------

  lemma {:induction false} HashBlocksConcat(r: Regs, p: seq<byte>, q: seq<byte>)
    requires |p| % 128 == 0
    ensures HashBlocks(r, p + q) == HashBlocks(HashBlocks(r, p), q)
    decreases |p|
  {
    hide Compress;
    if |p| == 0 {
      assert p + q == q;
    } else {
      HashBlocksConcat(Compress(r, p[..128]), p[128..], q);
      assert (p + q)[..128] == p[..128] && (p + q)[128..] == p[128..] + q;
    }
  }

  lemma HashOneBlock(r: Regs, p: seq<byte>)
    requires |p| == 128
    ensures HashBlocks(r, p) == Compress(r, p)
  {
    hide Compress;
    assert p[..128] == p && p[128..] == [];
  }
}
