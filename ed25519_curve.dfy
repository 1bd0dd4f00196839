/**
 * The Ed25519 group object (`Ed25519`): the encoded lengths, the scalar and point factories, and
 * `newKey`, which hashes 32 random bytes with SHA-512 and clamps the digest in place.
 */
module Edwards25519Curve {
  import opened Bytes
  import opened Wrappers
  import Edwards25519Scalar
  import Edwards25519Point
  import Group
  import Schnorr

  /** `Ed25519`, holding the elliptic curve object `ec.curve`. */
  class Ed25519 {
    const engine: Edwards25519Point.EdwardsEngine

    constructor (e: Edwards25519Point.EdwardsEngine)
      ensures engine == e
    {
      engine := e;
    }

    /** `scalarLen()` */
    function ScalarLen(): (r: nat)
      ensures r == Edwards25519Scalar.MarshalSize == 32
    {
      32
    }

    /** `pointLen()` */
    function PointLen(): (r: nat)
      ensures r == Edwards25519Point.PointSize == 32
    {
      32
    }

    /** `scalar()`: a fresh scalar holding 0. */
    method Scalar() returns (r: Edwards25519Scalar.Ed25519Scalar)
      ensures fresh(r) && fresh(r.ref) && r.Valid() && r.Value() == 0
    {
      r := new Edwards25519Scalar.Ed25519Scalar();
    }

    /** `point()`: `new Ed25519Point(this)`, holding the engine's `unset` point. */
    method Point() returns (r: Edwards25519Point.Ed25519Point)
      ensures fresh(r) && fresh(r.ref) && r.engine == engine && r.Point() == engine.unset
    {
      r := new Edwards25519Point.Ed25519Point(engine);
    }

    /**
     * `newKey()`: `random` stands for `crypto.randomBytes(32)` and `sha512` for the digest. The digest
     * is clamped in place and all 64 bytes go to `setBytes`.
     */
    method NewKey(random: seq<byte>, sha512: seq<byte> -> Digest) returns (r: Edwards25519Scalar.Ed25519Scalar)
      requires |random| == 32
      ensures fresh(r) && r.Valid()
      ensures r.Value() == Edwards25519Scalar.FromBytes(ClampAsWritten(sha512(random)))
    {
      var digest := sha512(random);
      var scalar := new byte[64](i requires 0 <= i < 64 => digest[i]);
      scalar[0] := AndAssign(scalar[0], 0xf8);
      scalar[31] := AndAssign(scalar[31], 0x3f);
      scalar[31] := AndAssign(scalar[31], 0x40);
      assert scalar[..] == ClampAsWritten(digest);
      r := Scalar();
      r := r.SetBytes(scalar[..]);
    }
  }

  /** The digest after the three compound assignments of `newKey`. */
  function ClampAsWritten(d: Digest): (r: seq<byte>)
    ensures |r| == 64
  {
    d[0 := AndAssign(d[0], 0xf8)][31 := AndAssign(AndAssign(d[31], 0x3f), 0x40)]
  }

  /** As written, the clamp clears the three low bits of byte 0, zeroes byte 31 and keeps every other byte. */
  lemma ClampAsWrittenBytes(d: Digest)
    ensures ClampAsWritten(d)[0] == d[0] - d[0] % 8
    ensures ClampAsWritten(d)[31] == 0
    ensures forall i :: 0 <= i < 64 && i != 0 && i != 31 ==> ClampAsWritten(d)[i] == d[i]
  {
    ClearLow3(d[0]);
    MaskThenBit6(d[31]);
  }

  /** The value handed to `setBytes` is a multiple of 8. */
  lemma ClampAsWrittenMultipleOf8(d: Digest)
    ensures LE(ClampAsWritten(d)) % 8 == 0
  {
    var c := ClampAsWritten(d);
    ClampAsWrittenBytes(d);
    assert c == [c[0]] + c[1..];
    var rest := LE(c[1..]);
    assert LE(c) == c[0] + 256 * rest;
    var q := d[0] / 8;
    DivModUnique(d[0], 8, q, d[0] % 8);
    assert c[0] == 8 * q;
    assert LE(c) == 8 * (q + 32 * rest);
    DivModUnique(LE(c), 8, q + 32 * rest, 0);
  }

  /** Bits 248 to 255 of the value handed to `setBytes` are clear. */
  lemma ClampAsWrittenByte31(d: Digest)
    ensures (LE(ClampAsWritten(d)) / Pow2(248)) % 256 == 0
  {
    var c := ClampAsWritten(d);
    var low, high := c[..31], c[31..];
    var p: int, lo: int, h: int := Pow2(248), LE(low), LE(high);
    assert |low| == 31 && c == low + high;
    assert LE(c) == lo + p * h by { LEAppend(low, high); }
    assert lo < p by { LEBound(low); }
    var hi := LE(c[32..]);
    assert h == 256 * hi by {
      ClampAsWrittenBytes(d);
      assert high == [0] + c[32..];
    }
    assert LE(c) / p == h by { DivModUnique(LE(c), p, h, lo); }
    DivModUnique(h, 256, hi, 0);
  }

  /**
   * The comment on `newKey` promises a key that is a multiple of 8, but `setBytes` reduces the 64
   * clamped bytes mod ℓ: the digest whose only non-zero byte is byte 32, set to 1, is kept by the
   * clamp and gives the key 2^256 mod ℓ, which is 5 mod 8.
   */
  lemma ClampedKeyNotMultipleOf8()
    ensures var d: Digest := Zeros(32) + ([1] + Zeros(31));
      Edwards25519Scalar.FromBytes(ClampAsWritten(d)) % 8 == 5
  {
    var d: Digest := Zeros(32) + ([1] + Zeros(31));
    assert ClampAsWritten(d) == d by { ClampAsWrittenBytes(d); }
    assert LE(d) == Pow2(256) by { LEUnit(32, 31); }
    Pow2Known();
    var key := 7237005577332262213973186563042994240413239274941949949428319933631315875101;
    DivModUnique(Pow2(256), Edwards25519Scalar.L, 15, key);
  }

  /** A single 1 after `n` zero bytes is worth `2^(8n)` little-endian. */
  lemma LEUnit(n: nat, m: nat)
    ensures LE(Zeros(n) + ([1] + Zeros(m))) == Pow2(8 * n)
  {
    var high := [1] + Zeros(m);
    LEAppend(Zeros(n), high);
    LEOfZeros(n);
    assert high[1..] == Zeros(m);
    LEOfZeros(m);
  }

  /** The key clamp of section 5.1.5 of RFC 8032, on the first 32 digest bytes: clear bits 0-2 of byte 0, clear bit 7 and set bit 6 of byte 31. */
  function ClampRfc8032(d: Digest): (r: seq<byte>)
    ensures |r| == 32
  {
    d[..32][0 := AndAssign(d[0], 0xf8)][31 := OrAssign(AndAssign(d[31], 0x7f), 0x40)]
  }

  /** The RFC 8032 clamp keeps bit 6 of byte 31 set, so its byte 31 never agrees with the code's. */
  lemma ClampDiffers(d: Digest)
    ensures ClampRfc8032(d)[31] == 64 + d[31] % 64
    ensures ClampRfc8032(d)[31] != ClampAsWritten(d)[31]
    ensures ClampRfc8032(d)[0] == ClampAsWritten(d)[0]
  {
    ClearBit7SetBit6(d[31]);
    ClampAsWrittenBytes(d);
  }

  // ---------------------------------------------------------------------------
  // Ed25519 as the group suite of the signature code

  /** `Ed25519` behind the `Group`, `Scalar` and `Point` interfaces; `equal` compares encodings. */
  function Suite(e: Edwards25519Point.EdwardsEngine): (r: Group.Suite<Edwards25519Point.EdPoint>)
    ensures r.order == Edwards25519Scalar.L && r.base == e.g
    ensures r.pointLen == Edwards25519Point.PointSize && r.scalarLen == Edwards25519Scalar.MarshalSize
  {
    var equal: (Edwards25519Point.EdPoint, Edwards25519Point.EdPoint) -> bool :=
      (p: Edwards25519Point.EdPoint, q: Edwards25519Point.EdPoint) => Edwards25519Point.Encode(p) == Edwards25519Point.Encode(q);
    var marshalPoint: Edwards25519Point.EdPoint -> Result<seq<byte>> :=
      (q: Edwards25519Point.EdPoint) => Ok(Edwards25519Point.Encode(q));
    var decodePoint: seq<byte> -> Result<Edwards25519Point.EdPoint> :=
      (b: seq<byte>) => Edwards25519Point.Decode(e, b);
    Group.Suite(
      Edwards25519Scalar.L, 32, 32, e.g, e.mul, e.add, equal, marshalPoint, decodePoint,
      Edwards25519Scalar.Encode, Edwards25519Scalar.Decode, Edwards25519Scalar.FromBytes)
  }

  /** Under the engine's laws, the Ed25519 suite keeps the laws of a prime-order group with round-tripping codecs. */
  lemma SuiteLawful(e: Edwards25519Point.EdwardsEngine)
    requires Edwards25519Point.Lawful(e)
    ensures Group.Lawful(Suite(e))
  {
    SuiteGroupLaws(e);
    SuitePointCodec(e);
    SuiteScalarCodec(e);
  }

  lemma SuiteGroupLaws(e: Edwards25519Point.EdwardsEngine)
    requires Edwards25519Point.Lawful(e)
    ensures var s := Suite(e);
      (forall a: nat, b: nat :: s.add(s.mul(a, s.base), s.mul(b, s.base)) == s.mul((a + b) % s.order, s.base)) &&
      (forall a: nat, b: nat :: s.mul(a, s.mul(b, s.base)) == s.mul((a * b) % s.order, s.base)) &&
      (forall p :: s.equal(p, p))
  {
  }

  lemma SuitePointCodec(e: Edwards25519Point.EdwardsEngine)
    requires Edwards25519Point.Lawful(e)
    ensures var s := Suite(e);
      (forall k: nat :: s.marshalPoint(s.mul(k, s.base)).Ok?) &&
      (forall k: nat :: |s.marshalPoint(s.mul(k, s.base)).value| == s.pointLen) &&
      (forall k: nat :: s.decodePoint(s.marshalPoint(s.mul(k, s.base)).value) == Ok(s.mul(k, s.base)))
  {
    MultiplesDecode(e);
  }

  /** Every multiple of the base point survives `marshalBinary` then `unmarshalBinary`. */
  lemma MultiplesDecode(e: Edwards25519Point.EdwardsEngine)
    requires Edwards25519Point.Lawful(e)
    ensures forall k: nat :: Edwards25519Point.Decode(e, Edwards25519Point.Encode(e.mul(k, e.g))) == Ok(e.mul(k, e.g))
  {
    forall k: nat
      ensures Edwards25519Point.Decode(e, Edwards25519Point.Encode(e.mul(k, e.g))) == Ok(e.mul(k, e.g))
    {
      Edwards25519Point.DecodeEncode(e, e.mul(k, e.g));
    }
  }

  lemma SuiteScalarCodec(e: Edwards25519Point.EdwardsEngine)
    ensures var s := Suite(e);
      (forall v: nat :: v < s.order ==> |s.marshalScalar(v)| == s.scalarLen) &&
      (forall v: nat :: v < s.order ==> s.decodeScalar(s.marshalScalar(v)) == Ok(v)) &&
      (forall b: seq<byte> :: s.fromBytes(b) < s.order)
  {
    var s := Suite(e);
    forall v: nat | v < Edwards25519Scalar.L
      ensures s.decodeScalar(s.marshalScalar(v)) == Ok(v)
    {
      Edwards25519Scalar.DecodeEncode(v);
    }
  }

  /** Ed25519 Schnorr signatures made with private key `x` verify under `x·G`. */
  lemma SchnorrCorrect(e: Edwards25519Point.EdwardsEngine, sha512: seq<byte> -> Digest, x: nat, message: seq<byte>, r: nat)
    requires Edwards25519Point.Lawful(e) && x < Edwards25519Scalar.L && r < Edwards25519Scalar.L
    ensures Schnorr.Signature(Suite(e), sha512, x, message, r).Ok?
    ensures Schnorr.Verification(Suite(e), sha512, e.mul(x, e.g), message,
      Schnorr.Signature(Suite(e), sha512, x, message, r).value) == Ok(true)
  {
    SuiteLawful(e);
    Schnorr.SignThenVerify(Suite(e), sha512, x, message, r);
  }
}
