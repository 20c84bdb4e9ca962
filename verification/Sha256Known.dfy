/** A known answer: SHA-256 of the three bytes "abc", the example of FIPS 180-4, round by round. */
module Sha256Known {
  import opened Sha256Spec
  import opened Sha256Context

  /** Names the t that a round is asked of, so that the equations below are not unfolded for every t. */
  predicate Step(t: nat) {
    true
  }

  /** The registers after t rounds and word t of the schedule, as two functions of t. */
  ghost predicate Runs(r: nat -> Regs, s: nat -> word) {
    && (forall t: nat {:trigger Step(t)} :: Step(t) && t < 64 ==> r(t + 1) == Round(r(t), K(t), s(t)))
    && (forall t: nat {:trigger Step(t)} :: Step(t) ==> s(t + 16) == Grown(s(t + 14), s(t + 9), s(t + 1), s(t)))
  }

  /** T1 of step 3, on the words it takes. */
  function Temp(e: word, f: word, g: word, h: word, k: word, w: word): word {
    Sum(Sum(Sum(Sum(h, BigSigma1(e)), Ch(e, f, g)), k), w)
  }

  /** Step 1 of section 6.2.2, on the words it takes. */
  function Grown(w14: word, w9: word, w1: word, w0: word): word {
    Sum(Sum(Sum(SmallSigma1(w14), w9), SmallSigma0(w1)), w0)
  }

  /** Round t, and word t + 16 of the schedule. */
  lemma Turned(r: nat -> Regs, s: nat -> word, t: nat, a: word, b: word, c: word, d: word, e: word, f: word, g: word,
               h: word, k: word, w0: word, w1: word, w9: word, w14: word, w16: word, x: word, y: word)
    requires Runs(r, s) && t < 64 && K(t) == k && r(t) == Regs(a, b, c, d, e, f, g, h)
    requires s(t) == w0 && s(t + 1) == w1 && s(t + 9) == w9 && s(t + 14) == w14 && w16 == Grown(w14, w9, w1, w0)
    requires y == Sum(d, Temp(e, f, g, h, k, w0)) && x == Sum(Temp(e, f, g, h, k, w0), Sum(BigSigma0(a), Maj(a, b, c)))
    ensures r(t + 1) == Regs(x, a, b, c, y, e, f, g) && s(t + 16) == w16
  {
    hide Sum, BigSigma0, BigSigma1, SmallSigma0, SmallSigma1, Ch, Maj, K;
    assert Step(t);
  }

  lemma Keys0()
    ensures K(0) == 0x428a2f98 && K(1) == 0x71374491 && K(2) == 0xb5c0fbcf && K(3) == 0xe9b5dba5
    ensures K(4) == 0x3956c25b && K(5) == 0x59f111f1 && K(6) == 0x923f82a4 && K(7) == 0xab1c5ed5
    ensures K(8) == 0xd807aa98 && K(9) == 0x12835b01 && K(10) == 0x243185be && K(11) == 0x550c7dc3
    ensures K(12) == 0x72be5d74 && K(13) == 0x80deb1fe && K(14) == 0x9bdc06a7 && K(15) == 0xc19bf174
  {
  }

  lemma Keys16()
    ensures K(16) == 0xe49b69c1 && K(17) == 0xefbe4786 && K(18) == 0x0fc19dc6 && K(19) == 0x240ca1cc
    ensures K(20) == 0x2de92c6f && K(21) == 0x4a7484aa && K(22) == 0x5cb0a9dc && K(23) == 0x76f988da
    ensures K(24) == 0x983e5152 && K(25) == 0xa831c66d && K(26) == 0xb00327c8 && K(27) == 0xbf597fc7
    ensures K(28) == 0xc6e00bf3 && K(29) == 0xd5a79147 && K(30) == 0x06ca6351 && K(31) == 0x14292967
  {
  }

  lemma Keys32()
    ensures K(32) == 0x27b70a85 && K(33) == 0x2e1b2138 && K(34) == 0x4d2c6dfc && K(35) == 0x53380d13
    ensures K(36) == 0x650a7354 && K(37) == 0x766a0abb && K(38) == 0x81c2c92e && K(39) == 0x92722c85
    ensures K(40) == 0xa2bfe8a1 && K(41) == 0xa81a664b && K(42) == 0xc24b8b70 && K(43) == 0xc76c51a3
    ensures K(44) == 0xd192e819 && K(45) == 0xd6990624 && K(46) == 0xf40e3585 && K(47) == 0x106aa070
  {
  }

  lemma Keys48()
    ensures K(48) == 0x19a4c116 && K(49) == 0x1e376c08 && K(50) == 0x2748774c && K(51) == 0x34b0bcb5
    ensures K(52) == 0x391c0cb3 && K(53) == 0x4ed8aa4a && K(54) == 0x5b9cca4f && K(55) == 0x682e6ff3
    ensures K(56) == 0x748f82ee && K(57) == 0x78a5636f && K(58) == 0x84c87814 && K(59) == 0x8cc70208
    ensures K(60) == 0x90befffa && K(61) == 0xa4506ceb && K(62) == 0xbef9a3f7 && K(63) == 0xc67178f2
  {
  }

  lemma Rounds0To15(r: nat -> Regs, s: nat -> word)
    requires Runs(r, s) && r(0) == Regs(0x6a09e667, 0xbb67ae85, 0x3c6ef372, 0xa54ff53a,
                                         0x510e527f, 0x9b05688c, 0x1f83d9ab, 0x5be0cd19)
    requires s(0) == 0x61626380 && s(1) == 0x00000000 && s(2) == 0x00000000 && s(3) == 0x00000000
    requires s(4) == 0x00000000 && s(5) == 0x00000000 && s(6) == 0x00000000 && s(7) == 0x00000000
    requires s(8) == 0x00000000 && s(9) == 0x00000000 && s(10) == 0x00000000 && s(11) == 0x00000000
    requires s(12) == 0x00000000 && s(13) == 0x00000000 && s(14) == 0x00000000 && s(15) == 0x00000018
    ensures r(16) == Regs(0xb0fa238e, 0xc0645fde, 0xd932eb16, 0x87912990,
                         0x07590dcd, 0x0b92f20c, 0x745a48de, 0x1e578218)
    ensures s(16) == 0x61626380 && s(17) == 0x000f0000 && s(18) == 0x7da86405 && s(19) == 0x600003c6
    ensures s(20) == 0x3e9d7b78 && s(21) == 0x0183fc00 && s(22) == 0x12dcbfdb && s(23) == 0xe2e2c38e
    ensures s(24) == 0xc8215c1a && s(25) == 0xb73679a2 && s(26) == 0xe5bc3909 && s(27) == 0x32663c5b
    ensures s(28) == 0x9d209d67 && s(29) == 0xec8726cb && s(30) == 0x702138a4 && s(31) == 0xd3b7973b
  {
    hide Runs, K;
    Keys0();
    var w0, w1, w2, w3 := 0x61626380, 0x00000000, 0x00000000, 0x00000000;
    var w4, w5, w6, w7 := 0x00000000, 0x00000000, 0x00000000, 0x00000000;
    var w8, w9, w10, w11 := 0x00000000, 0x00000000, 0x00000000, 0x00000000;
    var w12, w13, w14, w15 := 0x00000000, 0x00000000, 0x00000000, 0x00000018;
    var a0, a1, a2, a3 := 0xa54ff53a, 0x3c6ef372, 0xbb67ae85, 0x6a09e667;
    var e0, e1, e2, e3 := 0x5be0cd19, 0x1f83d9ab, 0x9b05688c, 0x510e527f;
    var w16, a4, e4 := 0x61626380, 0x5d6aebcd, 0xfa2a4622;
    Turned(r, s, 0, a3, a2, a1, a0, e3, e2, e1, e0, 0x428a2f98, w0, w1, w9, w14, w16, a4, e4);
    var w17, a5, e5 := 0x000f0000, 0x5a6ad9ad, 0x78ce7989;
    Turned(r, s, 1, a4, a3, a2, a1, e4, e3, e2, e1, 0x71374491, w1, w2, w10, w15, w17, a5, e5);
    var w18, a6, e6 := 0x7da86405, 0xc8c347a7, 0xf92939eb;
    Turned(r, s, 2, a5, a4, a3, a2, e5, e4, e3, e2, 0xb5c0fbcf, w2, w3, w11, w16, w18, a6, e6);
    var w19, a7, e7 := 0x600003c6, 0xd550f666, 0x24e00850;
    Turned(r, s, 3, a6, a5, a4, a3, e6, e5, e4, e3, 0xe9b5dba5, w3, w4, w12, w17, w19, a7, e7);
    var w20, a8, e8 := 0x3e9d7b78, 0x04409a6a, 0x43ada245;
    Turned(r, s, 4, a7, a6, a5, a4, e7, e6, e5, e4, 0x3956c25b, w4, w5, w13, w18, w20, a8, e8);
    var w21, a9, e9 := 0x0183fc00, 0x2b4209f5, 0x714260ad;
    Turned(r, s, 5, a8, a7, a6, a5, e8, e7, e6, e5, 0x59f111f1, w5, w6, w14, w19, w21, a9, e9);
    var w22, a10, e10 := 0x12dcbfdb, 0xe5030380, 0x9b27a401;
    Turned(r, s, 6, a9, a8, a7, a6, e9, e8, e7, e6, 0x923f82a4, w6, w7, w15, w20, w22, a10, e10);
    var w23, a11, e11 := 0xe2e2c38e, 0x85a07b5f, 0x0c657a79;
    Turned(r, s, 7, a10, a9, a8, a7, e10, e9, e8, e7, 0xab1c5ed5, w7, w8, w16, w21, w23, a11, e11);
    var w24, a12, e12 := 0xc8215c1a, 0x8e04ecb9, 0x32ca2d8c;
    Turned(r, s, 8, a11, a10, a9, a8, e11, e10, e9, e8, 0xd807aa98, w8, w9, w17, w22, w24, a12, e12);
    var w25, a13, e13 := 0xb73679a2, 0x8c87346b, 0x1cc92596;
    Turned(r, s, 9, a12, a11, a10, a9, e12, e11, e10, e9, 0x12835b01, w9, w10, w18, w23, w25, a13, e13);
    var w26, a14, e14 := 0xe5bc3909, 0x4798a3f4, 0x436b23e8;
    Turned(r, s, 10, a13, a12, a11, a10, e13, e12, e11, e10, 0x243185be, w10, w11, w19, w24, w26, a14, e14);
    var w27, a15, e15 := 0x32663c5b, 0xf71fc5a9, 0x816fd6e9;
    Turned(r, s, 11, a14, a13, a12, a11, e14, e13, e12, e11, 0x550c7dc3, w11, w12, w20, w25, w27, a15, e15);
    var w28, a16, e16 := 0x9d209d67, 0x87912990, 0x1e578218;
    Turned(r, s, 12, a15, a14, a13, a12, e15, e14, e13, e12, 0x72be5d74, w12, w13, w21, w26, w28, a16, e16);
    var w29, a17, e17 := 0xec8726cb, 0xd932eb16, 0x745a48de;
    Turned(r, s, 13, a16, a15, a14, a13, e16, e15, e14, e13, 0x80deb1fe, w13, w14, w22, w27, w29, a17, e17);
    var w30, a18, e18 := 0x702138a4, 0xc0645fde, 0x0b92f20c;
    Turned(r, s, 14, a17, a16, a15, a14, e17, e16, e15, e14, 0x9bdc06a7, w14, w15, w23, w28, w30, a18, e18);
    var w31, a19, e19 := 0xd3b7973b, 0xb0fa238e, 0x07590dcd;
    Turned(r, s, 15, a18, a17, a16, a15, e18, e17, e16, e15, 0xc19bf174, w15, w16, w24, w29, w31, a19, e19);
  }

  lemma Rounds16To31(r: nat -> Regs, s: nat -> word)
    requires Runs(r, s) && r(16) == Regs(0xb0fa238e, 0xc0645fde, 0xd932eb16, 0x87912990,
                                          0x07590dcd, 0x0b92f20c, 0x745a48de, 0x1e578218)
    requires s(16) == 0x61626380 && s(17) == 0x000f0000 && s(18) == 0x7da86405 && s(19) == 0x600003c6
    requires s(20) == 0x3e9d7b78 && s(21) == 0x0183fc00 && s(22) == 0x12dcbfdb && s(23) == 0xe2e2c38e
    requires s(24) == 0xc8215c1a && s(25) == 0xb73679a2 && s(26) == 0xe5bc3909 && s(27) == 0x32663c5b
    requires s(28) == 0x9d209d67 && s(29) == 0xec8726cb && s(30) == 0x702138a4 && s(31) == 0xd3b7973b
    ensures r(32) == Regs(0x73b33bf5, 0xea992a22, 0xa0060b30, 0x363482c9,
                         0xba591112, 0x0109ab3a, 0xade79437, 0x6112a3b7)
    ensures s(32) == 0x93f5997f && s(33) == 0x3b68ba73 && s(34) == 0xaff4ffc1 && s(35) == 0xf10a5c62
    ensures s(36) == 0x0a8b3996 && s(37) == 0x72af830a && s(38) == 0x9409e33e && s(39) == 0x24641522
    ensures s(40) == 0x9f47bf94 && s(41) == 0xf0a64f5a && s(42) == 0x3e246a79 && s(43) == 0x27333ba3
    ensures s(44) == 0x0c4763f2 && s(45) == 0x840abf27 && s(46) == 0x7a290d5d && s(47) == 0x065c43da
  {
    hide Runs, K;
    Keys16();
    var w16, w17, w18, w19 := 0x61626380, 0x000f0000, 0x7da86405, 0x600003c6;
    var w20, w21, w22, w23 := 0x3e9d7b78, 0x0183fc00, 0x12dcbfdb, 0xe2e2c38e;
    var w24, w25, w26, w27 := 0xc8215c1a, 0xb73679a2, 0xe5bc3909, 0x32663c5b;
    var w28, w29, w30, w31 := 0x9d209d67, 0xec8726cb, 0x702138a4, 0xd3b7973b;
    var a16, a17, a18, a19 := 0x87912990, 0xd932eb16, 0xc0645fde, 0xb0fa238e;
    var e16, e17, e18, e19 := 0x1e578218, 0x745a48de, 0x0b92f20c, 0x07590dcd;
    var w32, a20, e20 := 0x93f5997f, 0x21da9a9b, 0x8034229c;
    Turned(r, s, 16, a19, a18, a17, a16, e19, e18, e17, e16, 0xe49b69c1, w16, w17, w25, w30, w32, a20, e20);
    var w33, a21, e21 := 0x3b68ba73, 0xc2fbd9d1, 0x846ee454;
    Turned(r, s, 17, a20, a19, a18, a17, e20, e19, e18, e17, 0xefbe4786, w17, w18, w26, w31, w33, a21, e21);
    var w34, a22, e22 := 0xaff4ffc1, 0xfe777bbf, 0xcc899961;
    Turned(r, s, 18, a21, a20, a19, a18, e21, e20, e19, e18, 0x0fc19dc6, w18, w19, w27, w32, w34, a22, e22);
    var w35, a23, e23 := 0xf10a5c62, 0xe1f20c33, 0xb0638179;
    Turned(r, s, 19, a22, a21, a20, a19, e22, e21, e20, e19, 0x240ca1cc, w19, w20, w28, w33, w35, a23, e23);
    var w36, a24, e24 := 0x0a8b3996, 0x9dc68b63, 0x8ada8930;
    Turned(r, s, 20, a23, a22, a21, a20, e23, e22, e21, e20, 0x2de92c6f, w20, w21, w29, w34, w36, a24, e24);
    var w37, a25, e25 := 0x72af830a, 0xc2606d6d, 0xe1257970;
    Turned(r, s, 21, a24, a23, a22, a21, e24, e23, e22, e21, 0x4a7484aa, w21, w22, w30, w35, w37, a25, e25);
    var w38, a26, e26 := 0x9409e33e, 0xa7a3623f, 0x49f5114a;
    Turned(r, s, 22, a25, a24, a23, a22, e25, e24, e23, e22, 0x5cb0a9dc, w22, w23, w31, w36, w38, a26, e26);
    var w39, a27, e27 := 0x24641522, 0xc5d53d8d, 0xaa47c347;
    Turned(r, s, 23, a26, a25, a24, a23, e26, e25, e24, e23, 0x76f988da, w23, w24, w32, w37, w39, a27, e27);
    var w40, a28, e28 := 0x9f47bf94, 0x1c2c2838, 0x2823ef91;
    Turned(r, s, 24, a27, a26, a25, a24, e27, e26, e25, e24, 0x983e5152, w24, w25, w33, w38, w40, a28, e28);
    var w41, a29, e29 := 0xf0a64f5a, 0xcde8037d, 0x14383d8e;
    Turned(r, s, 25, a28, a27, a26, a25, e28, e27, e26, e25, 0xa831c66d, w25, w26, w34, w39, w41, a29, e29);
    var w42, a30, e30 := 0x3e246a79, 0xb62ec4bc, 0xc74c6516;
    Turned(r, s, 26, a29, a28, a27, a26, e29, e28, e27, e26, 0xb00327c8, w26, w27, w35, w40, w42, a30, e30);
    var w43, a31, e31 := 0x27333ba3, 0x77d37528, 0xedffbff8;
    Turned(r, s, 27, a30, a29, a28, a27, e30, e29, e28, e27, 0xbf597fc7, w27, w28, w36, w41, w43, a31, e31);
    var w44, a32, e32 := 0x0c4763f2, 0x363482c9, 0x6112a3b7;
    Turned(r, s, 28, a31, a30, a29, a28, e31, e30, e29, e28, 0xc6e00bf3, w28, w29, w37, w42, w44, a32, e32);
    var w45, a33, e33 := 0x840abf27, 0xa0060b30, 0xade79437;
    Turned(r, s, 29, a32, a31, a30, a29, e32, e31, e30, e29, 0xd5a79147, w29, w30, w38, w43, w45, a33, e33);
    var w46, a34, e34 := 0x7a290d5d, 0xea992a22, 0x0109ab3a;
    Turned(r, s, 30, a33, a32, a31, a30, e33, e32, e31, e30, 0x06ca6351, w30, w31, w39, w44, w46, a34, e34);
    var w47, a35, e35 := 0x065c43da, 0x73b33bf5, 0xba591112;
    Turned(r, s, 31, a34, a33, a32, a31, e34, e33, e32, e31, 0x14292967, w31, w32, w40, w45, w47, a35, e35);
  }

  lemma Rounds32To47(r: nat -> Regs, s: nat -> word)
    requires Runs(r, s) && r(32) == Regs(0x73b33bf5, 0xea992a22, 0xa0060b30, 0x363482c9,
                                          0xba591112, 0x0109ab3a, 0xade79437, 0x6112a3b7)
    requires s(32) == 0x93f5997f && s(33) == 0x3b68ba73 && s(34) == 0xaff4ffc1 && s(35) == 0xf10a5c62
    requires s(36) == 0x0a8b3996 && s(37) == 0x72af830a && s(38) == 0x9409e33e && s(39) == 0x24641522
    requires s(40) == 0x9f47bf94 && s(41) == 0xf0a64f5a && s(42) == 0x3e246a79 && s(43) == 0x27333ba3
    requires s(44) == 0x0c4763f2 && s(45) == 0x840abf27 && s(46) == 0x7a290d5d && s(47) == 0x065c43da
    ensures r(48) == Regs(0x4172328d, 0xa14c14b0, 0x72ab4b91, 0x26628815,
                         0xfecf0bc6, 0xd57b94a9, 0xb7755da1, 0xa80f11f0)
    ensures s(48) == 0xfb3e89cb && s(49) == 0xcc7617db && s(50) == 0xb9e66c34 && s(51) == 0xa9993667
    ensures s(52) == 0x84badedd && s(53) == 0xc21462bc && s(54) == 0x1487472c && s(55) == 0xb20f7a99
    ensures s(56) == 0xef57b9cd && s(57) == 0xebe6b238 && s(58) == 0x9fe3095e && s(59) == 0x78bc8d4b
    ensures s(60) == 0xa43fcf15 && s(61) == 0x668b2ff8 && s(62) == 0xeeaba2cc && s(63) == 0x12b1edeb
  {
    hide Runs, K;
    Keys32();
    var w32, w33, w34, w35 := 0x93f5997f, 0x3b68ba73, 0xaff4ffc1, 0xf10a5c62;
    var w36, w37, w38, w39 := 0x0a8b3996, 0x72af830a, 0x9409e33e, 0x24641522;
    var w40, w41, w42, w43 := 0x9f47bf94, 0xf0a64f5a, 0x3e246a79, 0x27333ba3;
    var w44, w45, w46, w47 := 0x0c4763f2, 0x840abf27, 0x7a290d5d, 0x065c43da;
    var a32, a33, a34, a35 := 0x363482c9, 0xa0060b30, 0xea992a22, 0x73b33bf5;
    var e32, e33, e34, e35 := 0x6112a3b7, 0xade79437, 0x0109ab3a, 0xba591112;
    var w48, a36, e36 := 0xfb3e89cb, 0x98e12507, 0x9cd9f5f6;
    Turned(r, s, 32, a35, a34, a33, a32, e35, e34, e33, e32, 0x27b70a85, w32, w33, w41, w46, w48, a36, e36);
    var w49, a37, e37 := 0xcc7617db, 0xfe604df5, 0x59249dd3;
    Turned(r, s, 33, a36, a35, a34, a33, e36, e35, e34, e33, 0x2e1b2138, w33, w34, w42, w47, w49, a37, e37);
    var w50, a38, e38 := 0xb9e66c34, 0xa9a7738c, 0x085f3833;
    Turned(r, s, 34, a37, a36, a35, a34, e37, e36, e35, e34, 0x4d2c6dfc, w34, w35, w43, w48, w50, a38, e38);
    var w51, a39, e39 := 0xa9993667, 0x65a0cfe4, 0xf4b002d6;
    Turned(r, s, 35, a38, a37, a36, a35, e38, e37, e36, e35, 0x53380d13, w35, w36, w44, w49, w51, a39, e39);
    var w52, a40, e40 := 0x84badedd, 0x41a65cb1, 0x0772a26b;
    Turned(r, s, 36, a39, a38, a37, a36, e39, e38, e37, e36, 0x650a7354, w36, w37, w45, w50, w52, a40, e40);
    var w53, a41, e41 := 0xc21462bc, 0x34df1604, 0xa507a53d;
    Turned(r, s, 37, a40, a39, a38, a37, e40, e39, e38, e37, 0x766a0abb, w37, w38, w46, w51, w53, a41, e41);
    var w54, a42, e42 := 0x1487472c, 0x6dc57a8a, 0xf0781bc8;
    Turned(r, s, 38, a41, a40, a39, a38, e41, e40, e39, e38, 0x81c2c92e, w38, w39, w47, w52, w54, a42, e42);
    var w55, a43, e43 := 0xb20f7a99, 0x79ea687a, 0x1efbc0a0;
    Turned(r, s, 39, a42, a41, a40, a39, e42, e41, e40, e39, 0x92722c85, w39, w40, w48, w53, w55, a43, e43);
    var w56, a44, e44 := 0xef57b9cd, 0xd6670766, 0x26352d63;
    Turned(r, s, 40, a43, a42, a41, a40, e43, e42, e41, e40, 0xa2bfe8a1, w40, w41, w49, w54, w56, a44, e44);
    var w57, a45, e45 := 0xebe6b238, 0xdf46652f, 0x838b2711;
    Turned(r, s, 41, a44, a43, a42, a41, e44, e43, e42, e41, 0xa81a664b, w41, w42, w50, w55, w57, a45, e45);
    var w58, a46, e46 := 0x9fe3095e, 0x17aa0dfe, 0xdecd4715;
    Turned(r, s, 42, a45, a44, a43, a42, e45, e44, e43, e42, 0xc24b8b70, w42, w43, w51, w56, w58, a46, e46);
    var w59, a47, e47 := 0x78bc8d4b, 0x9d4baf93, 0xfda24c2e;
    Turned(r, s, 43, a46, a45, a44, a43, e46, e45, e44, e43, 0xc76c51a3, w43, w44, w52, w57, w59, a47, e47);
    var w60, a48, e48 := 0xa43fcf15, 0x26628815, 0xa80f11f0;
    Turned(r, s, 44, a47, a46, a45, a44, e47, e46, e45, e44, 0xd192e819, w44, w45, w53, w58, w60, a48, e48);
    var w61, a49, e49 := 0x668b2ff8, 0x72ab4b91, 0xb7755da1;
    Turned(r, s, 45, a48, a47, a46, a45, e48, e47, e46, e45, 0xd6990624, w45, w46, w54, w59, w61, a49, e49);
    var w62, a50, e50 := 0xeeaba2cc, 0xa14c14b0, 0xd57b94a9;
    Turned(r, s, 46, a49, a48, a47, a46, e49, e48, e47, e46, 0xf40e3585, w46, w47, w55, w60, w62, a50, e50);
    var w63, a51, e51 := 0x12b1edeb, 0x4172328d, 0xfecf0bc6;
    Turned(r, s, 47, a50, a49, a48, a47, e50, e49, e48, e47, 0x106aa070, w47, w48, w56, w61, w63, a51, e51);
  }

  lemma Rounds48To63(r: nat -> Regs, s: nat -> word)
    requires Runs(r, s) && r(48) == Regs(0x4172328d, 0xa14c14b0, 0x72ab4b91, 0x26628815,
                                          0xfecf0bc6, 0xd57b94a9, 0xb7755da1, 0xa80f11f0)
    requires s(48) == 0xfb3e89cb && s(49) == 0xcc7617db && s(50) == 0xb9e66c34 && s(51) == 0xa9993667
    requires s(52) == 0x84badedd && s(53) == 0xc21462bc && s(54) == 0x1487472c && s(55) == 0xb20f7a99
    requires s(56) == 0xef57b9cd && s(57) == 0xebe6b238 && s(58) == 0x9fe3095e && s(59) == 0x78bc8d4b
    requires s(60) == 0xa43fcf15 && s(61) == 0x668b2ff8 && s(62) == 0xeeaba2cc && s(63) == 0x12b1edeb
    ensures r(64) == Regs(0x506e3058, 0xd39a2165, 0x04d24d6c, 0xb85e2ce9,
                         0x5ef50f24, 0xfb121210, 0x948d25b6, 0x961f4894)
  {
    hide Runs, K;
    Keys48();
    var w48, w49, w50, w51 := 0xfb3e89cb, 0xcc7617db, 0xb9e66c34, 0xa9993667;
    var w52, w53, w54, w55 := 0x84badedd, 0xc21462bc, 0x1487472c, 0xb20f7a99;
    var w56, w57, w58, w59 := 0xef57b9cd, 0xebe6b238, 0x9fe3095e, 0x78bc8d4b;
    var w60, w61, w62, w63 := 0xa43fcf15, 0x668b2ff8, 0xeeaba2cc, 0x12b1edeb;
    var a48, a49, a50, a51 := 0x26628815, 0x72ab4b91, 0xa14c14b0, 0x4172328d;
    var e48, e49, e50, e51 := 0xa80f11f0, 0xb7755da1, 0xd57b94a9, 0xfecf0bc6;
    var w64, a52, e52 := 0xb80a5a34, 0x05757ceb, 0xbd714038;
    Turned(r, s, 48, a51, a50, a49, a48, e51, e50, e49, e48, 0x19a4c116, w48, w49, w57, w62, w64, a52, e52);
    var w65, a53, e53 := 0x1ce797d5, 0xf11bfaa8, 0x6e5c390c;
    Turned(r, s, 49, a52, a51, a50, a49, e52, e51, e50, e49, 0x1e376c08, w49, w50, w58, w63, w65, a53, e53);
    var w66, a54, e54 := 0x310fc1d7, 0x7a0508a1, 0x52f1ccf7;
    Turned(r, s, 50, a53, a52, a51, a50, e53, e52, e51, e50, 0x2748774c, w50, w51, w59, w64, w66, a54, e54);
    var w67, a55, e55 := 0xa31968ce, 0x886e7a22, 0x49231c1e;
    Turned(r, s, 51, a54, a53, a52, a51, e54, e53, e52, e51, 0x34b0bcb5, w51, w52, w60, w65, w67, a55, e55);
    var w68, a56, e56 := 0x7d8ce042, 0x101fd28f, 0x529e7d00;
    Turned(r, s, 52, a55, a54, a53, a52, e55, e54, e53, e52, 0x391c0cb3, w52, w53, w61, w66, w68, a56, e56);
    var w69, a57, e57 := 0xd5892c87, 0xf5702fdb, 0x9f4787c3;
    Turned(r, s, 53, a56, a55, a54, a53, e56, e55, e54, e53, 0x4ed8aa4a, w53, w54, w62, w67, w69, a57, e57);
    var w70, a58, e58 := 0x0ef2e48b, 0x3ec45cdb, 0xe50e1b4f;
    Turned(r, s, 54, a57, a56, a55, a54, e57, e56, e55, e54, 0x5b9cca4f, w54, w55, w63, w68, w70, a58, e58);
    var w71, a59, e59 := 0x86476aaa, 0x38cc9913, 0x54cb266b;
    Turned(r, s, 55, a58, a57, a56, a55, e58, e57, e56, e55, 0x682e6ff3, w55, w56, w64, w69, w71, a59, e59);
    var w72, a60, e60 := 0xfb3bcd9a, 0xfcd1887b, 0x9b5e906c;
    Turned(r, s, 56, a59, a58, a57, a56, e59, e58, e57, e56, 0x748f82ee, w56, w57, w65, w70, w72, a60, e60);
    var w73, a61, e61 := 0xe1abf701, 0xc062d46f, 0x7e44008e;
    Turned(r, s, 57, a60, a59, a58, a57, e60, e59, e58, e57, 0x78a5636f, w57, w58, w66, w71, w73, a61, e61);
    var w74, a62, e62 := 0x9cf194d1, 0xffb70472, 0x6d83bfc6;
    Turned(r, s, 58, a61, a60, a59, a58, e61, e60, e59, e58, 0x84c87814, w58, w59, w67, w72, w74, a62, e62);
    var w75, a63, e63 := 0x47ad031d, 0xb6ae8fff, 0xb21bad3d;
    Turned(r, s, 59, a62, a61, a60, a59, e62, e61, e60, e59, 0x8cc70208, w59, w60, w68, w73, w75, a63, e63);
    var w76, a64, e64 := 0xaa812721, 0xb85e2ce9, 0x961f4894;
    Turned(r, s, 60, a63, a62, a61, a60, e63, e62, e61, e60, 0x90befffa, w60, w61, w69, w74, w76, a64, e64);
    var w77, a65, e65 := 0x04360d9c, 0x04d24d6c, 0x948d25b6;
    Turned(r, s, 61, a64, a63, a62, a61, e64, e63, e62, e61, 0xa4506ceb, w61, w62, w70, w75, w77, a65, e65);
    var w78, a66, e66 := 0xdb5ae899, 0xd39a2165, 0xfb121210;
    Turned(r, s, 62, a65, a64, a63, a62, e65, e64, e63, e62, 0xbef9a3f7, w62, w63, w71, w76, w78, a66, e66);
    var w79, a67, e67 := 0xbe66bc93, 0x506e3058, 0x5ef50f24;
    Turned(r, s, 63, a66, a65, a64, a63, e66, e65, e64, e63, 0xc67178f2, w63, w64, w72, w77, w79, a67, e67);
  }

  ghost function Registers(m: seq<word>, t: nat): Regs
    requires |m| == 16
  {
    if t <= 64 then Rounds(INITIAL, m, t) else INITIAL
  }

  lemma BlockRuns(m: seq<word>)
    requires |m| == 16
    ensures Runs((t: nat) => Registers(m, t), (t: nat) => W(m, t))
  {
    hide Sum, BigSigma0, BigSigma1, SmallSigma0, SmallSigma1, Ch, Maj, K;
  }

  lemma FirstWords(m: seq<word>, t: nat)
    requires m == [0x61626380, 0, 0, 0, 0, 0, 0, 0, 0, 0, 0, 0, 0, 0, 0, 24] && t < 16
    ensures W(m, t) == if t == 0 then 0x61626380 else if t == 15 then 24 else 0
    ensures Rounds(INITIAL, m, 0) == INITIAL
  {
  }

  /** All 64 rounds over the one padded block of "abc". */
  lemma AllRounds(m: seq<word>)
    requires m == [0x61626380, 0, 0, 0, 0, 0, 0, 0, 0, 0, 0, 0, 0, 0, 0, 24]
    ensures Rounds(INITIAL, m, 64) ==
      Regs(0x506e3058, 0xd39a2165, 0x04d24d6c, 0xb85e2ce9,
           0x5ef50f24, 0xfb121210, 0x948d25b6, 0x961f4894)
  {
    hide Rounds, W, Runs;
    var r, s := (t: nat) => Registers(m, t), (t: nat) => W(m, t);
    BlockRuns(m);
    forall t: nat | t < 16 ensures s(t) == if t == 0 then 0x61626380 else if t == 15 then 24 else 0 {
      FirstWords(m, t);
    }
    FirstWords(m, 0);
    assert r(0) == INITIAL;
    Rounds0To15(r, s);
    Rounds16To31(r, s);
    Rounds32To47(r, s);
    Rounds48To63(r, s);
    assert r(64) == Rounds(INITIAL, m, 64);
  }

  lemma AbcPadded(m: seq<byte>)
    requires m == [0x61, 0x62, 0x63]
    ensures Pad(m) == [0x61, 0x62, 0x63, 0x80] + seq(52, _ => 0) + [0, 0, 0, 0, 0, 0, 0, 24]
  {
    hide BeBytes64, BitLength;
    LengthBits(|m|);
    LengthBytes(24);
    assert (119 - |m| % 64) % 64 == 52;
  }

  lemma LengthBits(n: nat)
    requires n == 3
    ensures BitLength(n) == 24
  {
    assert 8 * n % 0x1_0000_0000_0000_0000 == 24;
  }

  lemma LengthBytes(x: bv64)
    requires x == 24
    ensures BeBytes64(x) == [0, 0, 0, 0, 0, 0, 0, 24]
  {
    hide BeBytes;
    assert (x >> 32) as word == 0 && (x & 0xffff_ffff) as word == 24;
    assert BeBytes(0) == [0, 0, 0, 0] by { SmallBytes(0); }
    assert BeBytes(24) == [0, 0, 0, 24] by { SmallBytes(24); }
  }

  lemma SmallBytes(w: word)
    requires w < 256
    ensures BeBytes(w) == [0, 0, 0, w as byte]
  {
  }

  lemma AbcParsed(p: seq<byte>, j: nat)
    requires p == [0x61, 0x62, 0x63, 0x80] + seq(52, _ => 0) + [0, 0, 0, 0, 0, 0, 0, 24] && j < 16
    ensures Be(p[4 * j..4 * j + 4]) == if j == 0 then 0x61626380 else if j == 15 then 24 else 0
  {
    assert Be([0x61, 0x62, 0x63, 0x80]) == 0x61626380 && Be([0, 0, 0, 24]) == 24 && Be([0, 0, 0, 0]) == 0;
    assert p[4 * j..4 * j + 4] ==
      if j == 0 then [0x61, 0x62, 0x63, 0x80] else if j == 15 then [0, 0, 0, 24] else [0, 0, 0, 0];
  }

  lemma WordBytes0()
    ensures BeBytes(0xba7816bf) == [0xba, 0x78, 0x16, 0xbf]
    ensures BeBytes(0x8f01cfea) == [0x8f, 0x01, 0xcf, 0xea]
    ensures BeBytes(0x414140de) == [0x41, 0x41, 0x40, 0xde]
    ensures BeBytes(0x5dae2223) == [0x5d, 0xae, 0x22, 0x23]
  {
  }

  lemma WordBytes4()
    ensures BeBytes(0xb00361a3) == [0xb0, 0x03, 0x61, 0xa3]
    ensures BeBytes(0x96177a9c) == [0x96, 0x17, 0x7a, 0x9c]
    ensures BeBytes(0xb410ff61) == [0xb4, 0x10, 0xff, 0x61]
    ensures BeBytes(0xf20015ad) == [0xf2, 0x00, 0x15, 0xad]
  {
  }

  lemma DigestBytes(r: Regs)
    requires r == Regs(0xba7816bf, 0x8f01cfea, 0x414140de, 0x5dae2223,
                    0xb00361a3, 0x96177a9c, 0xb410ff61, 0xf20015ad)
    ensures DigestOf(r) == [
      0xba, 0x78, 0x16, 0xbf, 0x8f, 0x01, 0xcf, 0xea, 0x41, 0x41, 0x40, 0xde, 0x5d, 0xae, 0x22, 0x23,
      0xb0, 0x03, 0x61, 0xa3, 0x96, 0x17, 0x7a, 0x9c, 0xb4, 0x10, 0xff, 0x61, 0xf2, 0x00, 0x15, 0xad]
  {
    hide BeBytes;
    WordBytes0();
    WordBytes4();
  }

  /** Sha256("abc") = ba7816bf 8f01cfea 414140de 5dae2223 b00361a3 96177a9c b410ff61 f20015ad. */
  lemma Abc(m: seq<byte>)
    requires m == [0x61, 0x62, 0x63]
    ensures Sha256(m) == [
      0xba, 0x78, 0x16, 0xbf, 0x8f, 0x01, 0xcf, 0xea, 0x41, 0x41, 0x40, 0xde, 0x5d, 0xae, 0x22, 0x23,
      0xb0, 0x03, 0x61, 0xa3, 0x96, 0x17, 0x7a, 0x9c, 0xb4, 0x10, 0xff, 0x61, 0xf2, 0x00, 0x15, 0xad]
  {
    hide Rounds, Pad, Be, DigestOf, BeBytes;
    AbcPadded(m);
    var p := Pad(m);
    HashOneBlock(INITIAL, p);
    forall j | 0 <= j < 16 ensures Be(p[4 * j..4 * j + 4]) == if j == 0 then 0x61626380 else if j == 15 then 24 else 0 {
      AbcParsed(p, j);
    }
    assert Parse(p) == [0x61626380, 0, 0, 0, 0, 0, 0, 0, 0, 0, 0, 0, 0, 0, 0, 24];
    AllRounds(Parse(p));
    DigestBytes(Compress(INITIAL, p));
  }

  /** SHA256_Init, two calls of SHA256_Update and SHA256_Final. */
  method DigestAbc() returns (digest: array<byte>)
    ensures digest[..] == [
      0xba, 0x78, 0x16, 0xbf, 0x8f, 0x01, 0xcf, 0xea, 0x41, 0x41, 0x40, 0xde, 0x5d, 0xae, 0x22, 0x23,
      0xb0, 0x03, 0x61, 0xa3, 0x96, 0x17, 0x7a, 0x9c, 0xb4, 0x10, 0xff, 0x61, 0xf2, 0x00, 0x15, 0xad]
  {
    hide *;
    var ctx := new Context();
    var data := new byte[3](i => if i == 0 then 0x61 else if i == 1 then 0x62 else 0x63);
    assert data[0..1] == [0x61] && data[1..3] == [0x62, 0x63];
    ctx.Update(data, 0, 1);
    ctx.Update(data, 1, 2);
    assert [] + [0x61] + [0x62, 0x63] == [0x61, 0x62, 0x63];
    assert ctx.message == [0x61, 0x62, 0x63];
    Abc(ctx.message);
    digest := new byte[32];
    ctx.Final(digest);
  }
}
