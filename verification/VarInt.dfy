/** Little-endian numbers and the variable-length integers of bzing_parser.c. */
module VarInt {

  type octet = n: nat | n < 256

  // ---------- little-endian words ----------

  /** The number stored in the bytes of s, lowest first: *(uintXX_t*) of a pointer to them. */
  function LeNat(s: seq<octet>): nat {
    if s == [] then 0 else s[0] + 256 * LeNat(s[1..])
  }

  function LeBytes(n: nat, k: nat): (s: seq<octet>)
    ensures |s| == k
  {
    if k == 0 then [] else [n % 256] + LeBytes(n / 256, k - 1)
  }

  function Pow256(k: nat): nat {
    if k == 0 then 1 else 256 * Pow256(k - 1)
  }

  lemma {:induction false} StoredAndLoaded(n: nat, k: nat)
    requires n < Pow256(k)
    ensures LeNat(LeBytes(n, k)) == n
  {
    if k > 0 { StoredAndLoaded(n / 256, k - 1); }
  }

  lemma {:induction false} LeNatBound(s: seq<octet>)
    ensures LeNat(s) < Pow256(|s|)
  {
    if s != [] { LeNatBound(s[1..]); }
  }

  /** The words of two, four and eight bytes at offset i, the low half first. */
  function Word16(s: seq<octet>, i: nat): nat
    requires i + 2 <= |s|
  {
    var hi: nat := s[i + 1];
    s[i] + 0x100 * hi
  }

  function Word32(s: seq<octet>, i: nat): nat
    requires i + 4 <= |s|
  {
    Word16(s, i) + 0x1_0000 * Word16(s, i + 2)
  }

  function Word64(s: seq<octet>, i: nat): nat
    requires i + 8 <= |s|
  {
    Word32(s, i) + 0x1_0000_0000 * Word32(s, i + 4)
  }

  lemma LeNatWords(s: seq<octet>, i: nat)
    ensures i + 2 <= |s| ==> LeNat(s[i..i + 2]) == Word16(s, i)
    ensures i + 4 <= |s| ==> LeNat(s[i..i + 4]) == Word32(s, i)
    ensures i + 8 <= |s| ==> LeNat(s[i..i + 8]) == Word64(s, i)
  {
    if i + 2 <= |s| { LeNatPair(s[i..i + 2]); }
    if i + 4 <= |s| { LeNatFour(s[i..i + 4]); }
    if i + 8 <= |s| {
      LeNatFour(s[i..i + 8]);
      LeNatFour(s[i..i + 8][4..]);
    }
  }

  lemma LeNatPair(s: seq<octet>)
    requires |s| >= 2
    ensures LeNat(s) == Word16(s, 0) + 0x1_0000 * LeNat(s[2..]) && LeNat([]) == 0
  {
    assert s[1..][1..] == s[2..];
    assert LeNat(s[1..]) == s[1] + 256 * LeNat(s[2..]);
  }

  lemma LeNatFour(s: seq<octet>)
    requires |s| >= 4
    ensures LeNat(s) == Word32(s, 0) + 0x1_0000_0000 * LeNat(s[4..]) && LeNat([]) == 0
  {
    LeNatPair(s);
    LeNatPair(s[2..]);
    assert s[2..][2..] == s[4..];
  }

  // ---------- variable-length integers ----------

  /** The whole length of an encoding, from its first byte. */
  function WidthOf(prefix: octet): (w: nat)
    ensures 1 <= w <= 9
  {
    if prefix < 0xFD then 1 else if prefix == 0xFD then 3 else if prefix == 0xFE then 5 else 9
  }

  /** An encoding, canonical or not. */
  predicate IsVarInt(s: seq<octet>) {
    s != [] && |s| == WidthOf(s[0])
  }

  function Value(s: seq<octet>): nat
    requires IsVarInt(s)
  {
    if |s| == 1 then s[0] else LeNat(s[1..])
  }

  /** The shortest encoding. */
  function Encode(n: nat): (s: seq<octet>)
    requires n < Pow256(8)
  {
    if n < 0xFD then [n]
    else if n < 0x1_0000 then [0xFD] + LeBytes(n, 2)
    else if n < 0x1_0000_0000 then [0xFE] + LeBytes(n, 4)
    else [0xFF] + LeBytes(n, 8)
  }

  lemma Encoded(n: nat)
    requires n < Pow256(8)
    ensures IsVarInt(Encode(n)) && Value(Encode(n)) == n
  {
    Powers256();
    if n >= 0x1_0000_0000 { StoredAndLoaded(n, 8); }
    else if n >= 0x1_0000 { StoredAndLoaded(n, 4); }
    else { StoredAndLoaded(n, 2); }
  }

  lemma Powers256()
    ensures Pow256(2) == 0x1_0000 && Pow256(4) == 0x1_0000_0000 && Pow256(8) == 0x1_0000_0000_0000_0000
  {
    assert Pow256(3) == 0x100_0000;
    assert Pow256(5) == 0x100_0000_0000;
    assert Pow256(6) == 0x1_0000_0000_0000;
    assert Pow256(7) == 0x100_0000_0000_0000;
  }

  /** No shorter encoding has the same value. */
  lemma ShortestEncoding(s: seq<octet>)
    requires IsVarInt(s)
    ensures Value(s) < Pow256(8) && |Encode(Value(s))| <= |s|
  {
    Powers256();
    if |s| > 1 { LeNatBound(s[1..]); }
  }

  /** An encoding of n, byte by byte. */
  predicate Spelled(s: seq<octet>, n: nat) {
    || (|s| == 1 && s[0] < 0xFD && n == s[0])
    || (|s| == 3 && s[0] == 0xFD && n == Word16(s, 1))
    || (|s| == 5 && s[0] == 0xFE && n == Word32(s, 1))
    || (|s| == 9 && s[0] == 0xFF && n == Word64(s, 1))
  }

  /** The encodings and their values are exactly these. */
  lemma SpelledOut(s: seq<octet>)
    ensures IsVarInt(s) ==> Spelled(s, Value(s))
    ensures forall n :: Spelled(s, n) ==> IsVarInt(s) && n == Value(s)
  {
    hide LeNat, Word16, Word32, Word64;
    LeNatWords(s, 1);
    if |s| > 1 { assert s[1..] == s[1..|s|]; }
  }

  /** Some encoding of a field is stored at an offset. */
  predicate VarIntAt(data: seq<octet>, offset: nat) {
    offset < |data| && offset + WidthOf(data[offset]) <= |data|
  }

  /** parse_var_int: reads an encoding and moves the offset past it. */
  method ParseVarInt(data: seq<octet>, offset: nat) returns (result: nat, offset': nat)
    requires VarIntAt(data, offset)
    ensures offset < offset' <= |data| && IsVarInt(data[offset..offset']) && result == Value(data[offset..offset'])
    ensures Spelled(data[offset..offset'], result)
  {
    if data[offset] < 0xFD {
      result := data[offset];
      offset' := offset + 1;
    } else if data[offset] == 0xFD {
      result := LeNat(data[offset + 1..offset + 3]);
      offset' := offset + 3;
    } else if data[offset] == 0xFE {
      result := LeNat(data[offset + 1..offset + 5]);
      offset' := offset + 5;
    } else {
      result := LeNat(data[offset + 1..offset + 9]);
      offset' := offset + 9;
    }
    assert data[offset..offset'][1..] == data[offset + 1..offset'];
    SpelledOut(data[offset..offset']);
  }

  /** parse_var_int inverts every encoding, whatever comes before and after it. */
  method ParseWritten(data: seq<octet>, offset: nat, ghost s: seq<octet>) returns (result: nat, offset': nat)
    requires IsVarInt(s) && offset + |s| <= |data| && data[offset..offset + |s|] == s
    ensures result == Value(s) && offset' == offset + |s|
  {
    assert data[offset] == s[0];
    result, offset' := ParseVarInt(data, offset);
  }
}
