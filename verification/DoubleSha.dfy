/** src/util.c: double SHA-256, by the streaming interface. */
module DoubleSha {
  import opened VarInt
  import Sha256Spec
  import Sha256Context

  type byte = Sha256Spec.byte

  /** bz_uint256_t. */
  type Hash = seq<octet>

  function Bytes(data: seq<octet>): (b: seq<byte>)
    ensures |b| == |data|
  {
    seq(|data|, i requires 0 <= i < |data| => data[i] as byte)
  }

  function Octets(b: seq<byte>): (data: seq<octet>)
    ensures |data| == |b|
  {
    seq(|b|, i requires 0 <= i < |b| => b[i] as octet)
  }

  function DoubleSha256(data: seq<octet>): (h: Hash)
    ensures |h| == 32
  {
    Octets(Sha256Spec.Sha256(Sha256Spec.Sha256(Bytes(data))))
  }

  method Copied(data: seq<octet>) returns (a: array<byte>)
    ensures fresh(a) && a[..] == Bytes(data)
  {
    a := new byte[|data|](i requires 0 <= i < |data| => data[i] as byte);
  }

  lemma BytesConcat(a: seq<octet>, b: seq<octet>)
    ensures Bytes(a + b) == Bytes(a) + Bytes(b)
  {
  }

  /** SHA256_Init and SHA256_Update over one or two pieces, and SHA256_Final. */
  method HashPieces(first: seq<octet>, second: seq<octet>) returns (digest: array<byte>)
    ensures fresh(digest) && digest.Length == 32 && digest[..] == Sha256Spec.Sha256(Bytes(first + second))
  {
    hide *;
    var ctx := new Sha256Context.Context();
    var a := Copied(first);
    ctx.Update(a, 0, a.Length);
    var b := Copied(second);
    ctx.Update(b, 0, b.Length);
    BytesConcat(first, second);
    assert ctx.message == Bytes(first + second);
    digest := new byte[32];
    ctx.Final(digest);
  }

  /** The digest hashed once more. */
  method HashAgain(once: array<byte>) returns (hash: Hash)
    requires once.Length == 32
    ensures hash == Octets(Sha256Spec.Sha256(once[..]))
  {
    hide Sha256Spec.Sha256, Sha256Context.Context.Valid;
    var ctx := new Sha256Context.Context();
    ctx.Update(once, 0, 32);
    assert ctx.message == once[..];
    var twice := new byte[32];
    ctx.Final(twice);
    hash := Octets(twice[..]);
  }

  /** double_sha256. */
  method DoubleHash(data: seq<octet>) returns (hash: Hash)
    ensures hash == DoubleSha256(data)
  {
    hide Sha256Spec.Sha256;
    var once := HashPieces(data, []);
    assert data + [] == data;
    hash := HashAgain(once);
  }

  /** What calc_merkle_root does with two nodes: both go into one hash, which is hashed again. */
  method HashedPair(left: Hash, right: Hash) returns (hash: Hash)
    ensures hash == DoubleSha256(left + right)
  {
    hide Sha256Spec.Sha256;
    var once := HashPieces(left, right);
    hash := HashAgain(once);
  }
}
