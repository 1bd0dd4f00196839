/**
 * The Weierstrass group object: its configuration, converted from little-endian bytes, the
 * encoded lengths, and the short-curve engine of elliptic, axiomatised.
 */
module NistCurve {
  import opened Bytes
  import opened Wrappers

  /** A point of the curve as elliptic holds it: the point at infinity, or affine coordinates. */
  datatype WPoint = Infinity | Affine(x: nat, y: nat)

  /** The parameters of `elliptic.curve.short`: `y² = x³ + a·x + b` over the integers mod `p`, order `n`, generator `g`. */
  datatype ShortCurve = ShortCurve(p: nat, a: nat, b: nat, n: nat, g: WPoint)

  /** A constructor option: before conversion, after conversion, or the generator pair. */
  datatype Param = Raw(bytes: seq<byte>) | Num(value: nat) | Generator(x: nat, y: nat)

  /** The right-hand side `x³ + a·x + b mod p`. */
  function Rhs(c: ShortCurve, x: nat): nat
    requires c.p > 0
  {
    (x * x * x + c.a * x + c.b) % c.p
  }

  /** Coordinates are held reduced mod `p` (bn.js `toRed`). */
  predicate Reduced(c: ShortCurve, q: WPoint)
  {
    q.Affine? ==> q.x < c.p && q.y < c.p
  }

  /** elliptic's `validate`: the point at infinity, or reduced coordinates that satisfy the curve equation. */
  predicate OnCurve(c: ShortCurve, q: WPoint)
    requires c.p > 0
  {
    q.Infinity? || (q.x < c.p && q.y < c.p && (q.y * q.y) % c.p == Rhs(c, q.x))
  }

  /**
   * The operations of elliptic and bn.js the points use: the group law, `redSqrt`, and the value
   * `p.sub(y).toRed(red)` the embedding takes as the other root.
   */
  datatype WeierstrassEngine = WeierstrassEngine(
    add: (WPoint, WPoint) -> WPoint,
    neg: WPoint -> WPoint,
    mul: (nat, WPoint) -> WPoint,
    sqrt: nat -> nat,
    flip: nat -> nat)

  /** What the model assumes of the engine: its results are reduced field elements and reduced points. */
  ghost predicate Lawful(e: WeierstrassEngine, c: ShortCurve)
  {
    && (forall v :: e.sqrt(v) < c.p)
    && (forall v :: e.flip(v) < c.p)
    && (forall q, r :: Reduced(c, e.add(q, r)))
    && (forall q :: Reduced(c, e.neg(q)))
    && (forall k, q :: Reduced(c, e.mul(k, q)))
  }

  /**
   * The body of the constructor's loop over `options`: every entry except `g` is converted from
   * little-endian bytes; `g` is the pair converted from `gx, gy`.
   */
  method ConvertOptions(options: map<string, seq<byte>>, gx: seq<byte>, gy: seq<byte>) returns (r: map<string, Param>)
    ensures r.Keys == options.Keys + {"g"}
    ensures r["g"] == Generator(LE(gx), LE(gy))
    ensures forall k :: k in options && k != "g" ==> r[k] == Num(LE(options[k]))
  {
    r := map k | k in options :: Raw(options[k]);
    r := r["g" := Generator(LE(gx), LE(gy))];
    var keys := r.Keys;
    while keys != {}
      invariant keys <= r.Keys == options.Keys + {"g"}
      invariant r["g"] == Generator(LE(gx), LE(gy))
      invariant forall k :: k in options && k != "g" ==> r[k] == if k in keys then Raw(options[k]) else Num(LE(options[k]))
      decreases keys
    {
      var k :| k in keys;
      keys := keys - {k};
      if k == "g" {
        continue;
      }
      r := r[k := Num(LE(r[k].bytes))];
    }
  }

  /** The value of a converted option, 0 for one that is missing or not a number. */
  function NumOf(m: map<string, Param>, k: string): nat
  {
    if k in m && m[k].Num? then m[k].value else 0
  }

  /** `(bitLength(v) + 7) >> 3` bytes hold `v`, and no fewer do. */
  lemma ByteLengthFits(v: nat, k: nat)
    requires k == BitLength(v)
    ensures v < Pow2(8 * ((k + 7) / 8))
    ensures (k + 7) / 8 > 0 ==> Pow2(8 * ((k + 7) / 8 - 1)) <= v
  {
    BitLengthBounds(v);
    BitLengthZero(v);
    var m := (k + 7) / 8;
    RoundUpBytes(k);
    assert v < Pow2(8 * m) by { Pow2Mono(k, 8 * m); }
    if m > 0 {
      var lo := 8 * (m - 1);
      assert Pow2(lo) <= Pow2(k - 1) by { Pow2Mono(lo, k - 1); }
    }
  }

  /** `(k + 7) >> 3` whole bytes hold `k` bits, and one byte fewer holds fewer than `k`. */
  lemma RoundUpBytes(k: nat)
    ensures k <= 8 * ((k + 7) / 8)
    ensures (k + 7) / 8 > 0 ==> 0 < k && 8 * ((k + 7) / 8 - 1) <= k - 1
  {
  }

  /** Only 0 has no significant bits. */
  lemma BitLengthZero(v: nat)
    ensures BitLength(v) == 0 <==> v == 0
  {
  }

  /** `Weierstrass`: the curve and the order's reduction context, fixed at construction. */
  class Weierstrass {
    const name: string
    const bitSize: nat
    const curve: ShortCurve
    /** The modulus of the reduction context `redN` that `scalar()` hands to every new scalar. */
    const redN: nat
    const engine: WeierstrassEngine

    /**
     * `new Weierstrass(config)`: `options` holds the remaining config fields (`p`, `a`, `b`, `n`) as
     * little-endian bytes. The short curve reduces the generator's coordinates mod `p`.
     */
    constructor (name: string, bitSize: nat, gx: seq<byte>, gy: seq<byte>, options: map<string, seq<byte>>, e: WeierstrassEngine)
      requires "p" in options && "a" in options && "b" in options && "n" in options
      requires LE(options["p"]) > 1 && LE(options["n"]) > 1
      ensures this.name == name && this.bitSize == bitSize && engine == e
      ensures curve.p == LE(options["p"]) && curve.a == LE(options["a"])
      ensures curve.b == LE(options["b"]) && curve.n == LE(options["n"])
      ensures curve.g == Affine(LE(gx) % curve.p, LE(gy) % curve.p)
      ensures redN == curve.n && Reduced(curve, curve.g)
    {
      var opts := ConvertOptions(options, gx, gy);
      var p := NumOf(opts, "p");
      var gen := opts["g"];
      this.name := name;
      this.bitSize := bitSize;
      curve := ShortCurve(p, NumOf(opts, "a"), NumOf(opts, "b"), NumOf(opts, "n"), Affine(gen.x % p, gen.y % p));
      redN := NumOf(opts, "n");
      engine := e;
    }

    /** `coordLen()`: the fewest bytes that hold `bitSize` bits. */
    function CoordLen(): (r: nat)
      ensures 8 * r >= bitSize && (r > 0 ==> 8 * (r - 1) < bitSize)
    {
      (bitSize + 7) / 8
    }

    /** `scalarLen()`: the fewest bytes that hold the group order. */
    function ScalarLen(): (r: nat)
      ensures curve.n < Pow2(8 * r)
      ensures r > 0 ==> Pow2(8 * (r - 1)) <= curve.n
    {
      var k := BitLength(curve.n);
      ByteLengthFits(curve.n, k);
      (k + 7) / 8
    }

    /** `pointLen()`: ANSI X9.62 uncompressed form, a header byte and two coordinates. */
    function PointLen(): (r: nat)
      ensures r == 1 + 2 * CoordLen()
    {
      CoordLen() * 2 + 1
    }

    /** A curve the model's points live on: well formed, with an engine that keeps its laws. */
    ghost predicate Valid()
    {
      WellFormed() && Lawful(engine, curve)
    }

    /**
     * The layouts of `marshalBinary` and `data` assume that every coordinate fits in `coordLen()`
     * bytes; the generator is held reduced, as the constructor leaves it.
     */
    predicate WellFormed()
    {
      curve.p > 2 && curve.p <= Pow2(8 * CoordLen()) && Reduced(curve, curve.g)
    }
  }

  /**
   * `new Weierstrass(config)` with its throws: the curve's reduction context over `p`
   * (curve.ts:30) and `BN.red(options.n)` (curve.ts:32) both reject a modulus of at most 1.
   */
  method NewWeierstrass(name: string, bitSize: nat, gx: seq<byte>, gy: seq<byte>, options: map<string, seq<byte>>, e: WeierstrassEngine) returns (r: Result<Weierstrass>)
    requires "p" in options && "a" in options && "b" in options && "n" in options
    ensures r.Err? <==> LE(options["p"]) <= 1 || LE(options["n"]) <= 1
    ensures r.Err? ==> r.error == InvalidModulus
    ensures r.Ok? ==> fresh(r.value) && r.value.name == name && r.value.bitSize == bitSize && r.value.engine == e
    ensures r.Ok? ==> var c := r.value.curve;
      c.p == LE(options["p"]) && c.a == LE(options["a"]) && c.b == LE(options["b"]) && c.n == LE(options["n"]) &&
      c.g == Affine(LE(gx) % c.p, LE(gy) % c.p) && r.value.redN == c.n
  {
    if LE(options["p"]) <= 1 || LE(options["n"]) <= 1 {
      return Err(InvalidModulus);
    }
    var w := new Weierstrass(name, bitSize, gx, gy, options, e);
    return Ok(w);
  }
}
