/**
 Bytes, fixed-width big-endian integers and the small generic types the other
 modules share.
 */
module Bytes {

  type Byte = b: int | 0 <= b < 256

  type ByteString = seq<Byte>

  datatype Option<+T> = None | Some(value: T)

  datatype Result<+T, +E> = Ok(value: T) | Err(error: E)

  datatype List<+T> = Nil | Cons(head: T, tail: List<T>)

  function Pow256(w: nat): (p: nat)
    ensures p > 0
  {
    if w == 0 then 1 else 256 * Pow256(w - 1)
  }

  /** `to_be_bytes` of an unsigned integer; higher bits are cut off, as by an `as` cast. */
  function BigEndian(n: nat, w: nat): (bytes: ByteString)
    ensures |bytes| == w
  {
    if w == 0 then [] else BigEndian(n / 256, w - 1) + [n % 256]
  }

  /** `from_be_bytes` of an unsigned integer. */
  function FromBigEndian(bytes: ByteString): (n: nat)
    ensures n < Pow256(|bytes|)
  {
    if bytes == [] then 0
    else 256 * FromBigEndian(bytes[..|bytes| - 1]) + bytes[|bytes| - 1]
  }

  lemma {:induction false} BigEndianRoundTrip(n: nat, w: nat)
    requires n < Pow256(w)
    ensures FromBigEndian(BigEndian(n, w)) == n
  {
    if w > 0 {
      BigEndianRoundTrip(n / 256, w - 1);
      var bytes := BigEndian(n, w);
      assert bytes[..w - 1] == BigEndian(n / 256, w - 1);
    }
  }

  lemma {:induction false} FromBigEndianRoundTrip(bytes: ByteString)
    ensures BigEndian(FromBigEndian(bytes), |bytes|) == bytes
  {
    if bytes != [] {
      FromBigEndianRoundTrip(bytes[..|bytes| - 1]);
    }
  }

  /** Positional: what stands in front counts for more. */
  lemma {:induction false} FromBigEndianJoins(a: ByteString, b: ByteString)
    ensures FromBigEndian(a + b) == FromBigEndian(a) * Pow256(|b|) + FromBigEndian(b)
  {
    if b == [] {
      assert a + b == a;
    } else {
      var (before, last) := (b[..|b| - 1], b[|b| - 1]);
      FromBigEndianJoins(a, before);
      assert (a + b)[..|a + b| - 1] == a + before;
      TimesPower(FromBigEndian(a), |b|);
    }
  }

  lemma TimesPower(n: nat, w: nat)
    requires w > 0
    ensures n * Pow256(w) == 256 * (n * Pow256(w - 1))
  {
  }

  /** The range of a two's-complement integer of `w` bytes. */
  predicate FitsSigned(x: int, w: nat) {
    0 <= 2 * x + Pow256(w) < 2 * Pow256(w)
  }

  /** `to_be_bytes` of a signed integer. */
  function SignedBigEndian(x: int, w: nat): (bytes: ByteString)
    requires FitsSigned(x, w)
    ensures |bytes| == w
  {
    BigEndian(if x < 0 then x + Pow256(w) else x, w)
  }

  type Int16 = x: int | -0x8000 <= x < 0x8000

  type Int64 = x: int | -0x8000_0000_0000_0000 <= x < 0x8000_0000_0000_0000

  type Int128 = x: int
    | -0x8000_0000_0000_0000_0000_0000_0000_0000 <= x < 0x8000_0000_0000_0000_0000_0000_0000_0000

  lemma Pow256Values()
    ensures Pow256(2) == 0x1_0000
    ensures Pow256(8) == 0x1_0000_0000_0000_0000
    ensures Pow256(16) == 0x1_0000_0000_0000_0000_0000_0000_0000_0000
  {
  }

  function BigEndian16(x: Int16): (bytes: ByteString)
    ensures |bytes| == 2
  {
    Pow256Values();
    SignedBigEndian(x, 2)
  }

  function BigEndian64(x: Int64): (bytes: ByteString)
    ensures |bytes| == 8
  {
    Pow256Values();
    SignedBigEndian(x, 8)
  }

  function BigEndian128(x: Int128): (bytes: ByteString)
    ensures |bytes| == 16
  {
    Pow256Values();
    SignedBigEndian(x, 16)
  }

  /** `from_be_bytes` of a signed integer. */
  function FromSignedBigEndian(bytes: ByteString): int {
    var n := FromBigEndian(bytes);
    if 2 * n < Pow256(|bytes|) then n else n - Pow256(|bytes|)
  }

  lemma SignedRoundTrip(x: int, w: nat)
    requires FitsSigned(x, w)
    ensures FromSignedBigEndian(SignedBigEndian(x, w)) == x
  {
    BigEndianRoundTrip(if x < 0 then x + Pow256(w) else x, w);
  }

  lemma FromSignedRoundTrip(bytes: ByteString)
    requires |bytes| > 0
    ensures FitsSigned(FromSignedBigEndian(bytes), |bytes|)
    ensures SignedBigEndian(FromSignedBigEndian(bytes), |bytes|) == bytes
  {
    FromBigEndianRoundTrip(bytes);
  }

  lemma Associative(x: ByteString, y: ByteString, z: ByteString)
    ensures x + y + z == x + (y + z)
  {
  }
}
