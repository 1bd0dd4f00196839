/**
 * The `Group`, `Scalar` and `Point` interfaces the signature code is written against, as one value
 * of function fields: scalars are their values mod the group order, points are of a type `P`.
 * `Lawful` states what a group of prime order with round-tripping codecs provides.
 */
module Group {
  import opened Bytes
  import opened Wrappers
  import Modular

  /**
   * A group suite. `mul(k, p)` is `point().mul(s, p)` for a scalar `s` of value `k`; `fromBytes`
   * is `scalar().setBytes`; the scalar codecs are `marshalBinary`/`unmarshalBinary` of a scalar.
   */
  datatype Suite<!P> = Suite(
    order: nat,
    scalarLen: nat,
    pointLen: nat,
    base: P,
    mul: (nat, P) -> P,
    add: (P, P) -> P,
    equal: (P, P) -> bool,
    marshalPoint: P -> Result<seq<byte>>,
    decodePoint: seq<byte> -> Result<P>,
    marshalScalar: nat -> seq<byte>,
    decodeScalar: seq<byte> -> Result<nat>,
    fromBytes: seq<byte> -> nat)

  /**
   * The laws the signature code relies on: multiples of the base point add and multiply as their
   * factors do mod the order, `equal` is reflexive, and every multiple of the base point and every
   * reduced scalar survives its codec with the advertised length.
   */
  ghost predicate Lawful<P(!new)>(s: Suite<P>)
  {
    && s.order > 1
    && (forall a: nat, b: nat :: s.add(s.mul(a, s.base), s.mul(b, s.base)) == s.mul((a + b) % s.order, s.base))
    && (forall a: nat, b: nat :: s.mul(a, s.mul(b, s.base)) == s.mul((a * b) % s.order, s.base))
    && (forall p: P :: s.equal(p, p))
    && (forall k: nat :: s.marshalPoint(s.mul(k, s.base)).Ok?)
    && (forall k: nat :: |s.marshalPoint(s.mul(k, s.base)).value| == s.pointLen)
    && (forall k: nat :: s.decodePoint(s.marshalPoint(s.mul(k, s.base)).value) == Ok(s.mul(k, s.base)))
    && (forall v: nat :: v < s.order ==> |s.marshalScalar(v)| == s.scalarLen)
    && (forall v: nat :: v < s.order ==> s.decodeScalar(s.marshalScalar(v)) == Ok(v))
    && (forall b: seq<byte> :: s.fromBytes(b) < s.order)
  }

  /**
   * The group of exponents: a point is its discrete logarithm `k` (standing for `k·G`), so the
   * base point is 1 and the group law is arithmetic mod `n`; both codecs are `len` little-endian bytes.
   */
  function ExponentSuite(n: nat, len: nat): (r: Suite<nat>)
    requires 1 < n <= Pow2(8 * len)
    ensures r.order == n && r.base == 1 && r.scalarLen == len && r.pointLen == len
  {
    var mul: (nat, nat) -> nat := (k: nat, p: nat) => (k * p) % n;
    var add: (nat, nat) -> nat := (p: nat, q: nat) => (p + q) % n;
    var equal: (nat, nat) -> bool := (p: nat, q: nat) => p == q;
    var marshalPoint: nat -> Result<seq<byte>> := (p: nat) => Ok(ToLE(p, len));
    var decodePoint: seq<byte> -> Result<nat> := (b: seq<byte>) =>
      if |b| != len then Err(InvalidEncoding) else if LE(b) >= n then Err(PointDecodeFailure) else Ok(LE(b));
    var marshalScalar: nat -> seq<byte> := (v: nat) => ToLE(v, len);
    var decodeScalar: seq<byte> -> Result<nat> := (b: seq<byte>) =>
      if |b| > len then Err(InvalidScalarEncoding) else Ok(LE(b) % n);
    var fromBytes: seq<byte> -> nat := (b: seq<byte>) => LE(b) % n;
    Suite(n, len, len, 1, mul, add, equal, marshalPoint, decodePoint, marshalScalar, decodeScalar, fromBytes)
  }

  /** The exponent group keeps every law, so `Lawful` can be met. */
  lemma ExponentSuiteLawful(n: nat, len: nat)
    requires 1 < n <= Pow2(8 * len)
    ensures Lawful(ExponentSuite(n, len))
  {
    ExponentGroupLaws(n, len);
    ExponentCodecs(n, len);
  }

  lemma ExponentGroupLaws(n: nat, len: nat)
    requires 1 < n <= Pow2(8 * len)
    ensures var s := ExponentSuite(n, len);
      (forall a: nat, b: nat :: s.add(s.mul(a, s.base), s.mul(b, s.base)) == s.mul((a + b) % n, s.base)) &&
      (forall a: nat, b: nat :: s.mul(a, s.mul(b, s.base)) == s.mul((a * b) % n, s.base))
  {
    var s := ExponentSuite(n, len);
    forall a: nat, b: nat
      ensures s.add(s.mul(a, s.base), s.mul(b, s.base)) == s.mul((a + b) % n, s.base)
    {
      ExponentAdd(n, a, b);
    }
    forall a: nat, b: nat
      ensures s.mul(a, s.mul(b, s.base)) == s.mul((a * b) % n, s.base)
    {
      ExponentMul(n, a, b);
    }
  }

  lemma ExponentCodecs(n: nat, len: nat)
    requires 1 < n <= Pow2(8 * len)
    ensures var s := ExponentSuite(n, len);
      (forall k: nat :: s.decodePoint(s.marshalPoint(s.mul(k, s.base)).value) == Ok(s.mul(k, s.base))) &&
      (forall v: nat :: v < n ==> s.decodeScalar(s.marshalScalar(v)) == Ok(v))
  {
    var s := ExponentSuite(n, len);
    forall k: nat
      ensures s.decodePoint(s.marshalPoint(s.mul(k, s.base)).value) == Ok(s.mul(k, s.base))
    {
      LEOfToLE((k * 1) % n, len);
    }
    forall v: nat | v < n
      ensures s.decodeScalar(s.marshalScalar(v)) == Ok(v)
    {
      LEOfToLE(v, len);
      DivModUnique(v, n, 0, v);
    }
  }

  lemma ExponentAdd(n: nat, a: nat, b: nat)
    requires n > 1
    ensures ((a * 1) % n + (b * 1) % n) % n == (((a + b) % n) * 1) % n
  {
    assert a * 1 == a && b * 1 == b && ((a + b) % n) * 1 == (a + b) % n;
    Modular.AddModLeft(a, b, n);
    Modular.AddModLeft(b, a % n, n);
    assert (a % n + b) % n == (a % n + b % n) % n;
    DivModUnique((a + b) % n, n, 0, (a + b) % n);
  }

  lemma ExponentMul(n: nat, a: nat, b: nat)
    requires n > 1
    ensures (a * ((b * 1) % n)) % n == (((a * b) % n) * 1) % n
  {
    assert b * 1 == b && ((a * b) % n) * 1 == (a * b) % n;
    Modular.MulModRight(a, b, n);
    DivModUnique((a * b) % n, n, 0, (a * b) % n);
  }
}
