/**
 * Points of a Weierstrass curve (`NistPoint`): the uncompressed encoding of section 4.3.6 of
 * ANSI X9.62, the payload embedding in the x coordinate, and the group operations of elliptic.
 */
module NistPoint {
  import opened Bytes
  import opened Wrappers
  import opened NistCurve
  import Random

  // ---------------------------------------------------------------------------
  // ANSI X9.62 uncompressed encoding

  /** `marshalBinary` as a function: `0x04 ‖ x ‖ y`, each coordinate big-endian in `coordLen()` bytes. */
  function Marshal(w: Weierstrass, q: WPoint): (r: Result<seq<byte>>)
    requires q.Affine? ==> q.x < Pow2(8 * w.CoordLen()) && q.y < Pow2(8 * w.CoordLen())
    ensures q.Infinity? <==> r == Err(NullCoordinate)
    ensures r.Ok? ==> |r.value| == w.PointLen() && r.value[0] == 4
    ensures r.Ok? ==> BE(r.value[1..1 + w.CoordLen()]) == q.x && BE(r.value[1 + w.CoordLen()..]) == q.y
  {
    if q.Infinity? then Err(NullCoordinate)
    else
      var l := w.CoordLen();
      var enc := [4] + ToBE(q.x, l) + ToBE(q.y, l);
      assert enc[1..1 + l] == ToBE(q.x, l) && enc[1 + l..] == ToBE(q.y, l);
      BEOfToBE(q.x, l);
      BEOfToBE(q.y, l);
      Ok(enc)
  }

  /** The point `unmarshalBinary` stores, or the error it throws before storing one. */
  function Parse(w: Weierstrass, bytes: seq<byte>): (r: Result<WPoint>)
    requires w.curve.p > 0
    ensures r.Err? <==> |bytes| != w.PointLen() || bytes[0] != 4
    ensures r.Err? ==> r.error == if |bytes| != w.PointLen() then InvalidEncoding else NotUncompressed
    ensures r.Ok? ==> Reduced(w.curve, r.value)
  {
    var l := w.CoordLen();
    if |bytes| != 1 + 2 * l then Err(InvalidEncoding)
    else if bytes[0] != 4 then Err(NotUncompressed)
    else
      var x := BE(bytes[1..1 + l]);
      var y := BE(bytes[1 + l..]);
      if x == 0 && y == 0 then Ok(Infinity)
      else Ok(Affine(x % w.curve.p, y % w.curve.p))
  }

  /** Whether `unmarshalBinary` returns: the stored point must pass `validate`. */
  function Decode(w: Weierstrass, bytes: seq<byte>): (r: Result<WPoint>)
    requires w.curve.p > 0
    ensures r.Ok? ==> OnCurve(w.curve, r.value) && Parse(w, bytes) == r
    ensures Parse(w, bytes).Err? ==> r == Parse(w, bytes)
    ensures Parse(w, bytes).Ok? && r.Err? ==> r.error == PointNotOnCurve
  {
    match Parse(w, bytes)
    case Err(e) => Err(e)
    case Ok(q) => if OnCurve(w.curve, q) then Ok(q) else Err(PointNotOnCurve)
  }

  /** Decoding a marshalled curve point gives the point back; `(0, 0)` is excluded, as its encoding reads as the identity. */
  lemma DecodeMarshal(w: Weierstrass, q: WPoint)
    requires w.WellFormed() && q.Affine? && OnCurve(w.curve, q) && q != Affine(0, 0)
    ensures Decode(w, Marshal(w, q).value) == Ok(q)
  {
    var enc := Marshal(w, q).value;
    assert BE(enc[1..1 + w.CoordLen()]) % w.curve.p == q.x by {
      DivModUnique(q.x, w.curve.p, 0, q.x);
    }
    assert BE(enc[1 + w.CoordLen()..]) % w.curve.p == q.y by {
      DivModUnique(q.y, w.curve.p, 0, q.y);
    }
  }

  /** A decoded encoding whose coordinates were already reduced is the encoding of the decoded point. */
  lemma MarshalDecode(w: Weierstrass, bytes: seq<byte>)
    requires w.WellFormed() && Decode(w, bytes).Ok? && Decode(w, bytes).value.Affine?
    requires BE(bytes[1..1 + w.CoordLen()]) < w.curve.p && BE(bytes[1 + w.CoordLen()..]) < w.curve.p
    ensures Marshal(w, Decode(w, bytes).value) == Ok(bytes)
  {
    var l := w.CoordLen();
    var xs, ys := bytes[1..1 + l], bytes[1 + l..];
    DivModUnique(BE(xs), w.curve.p, 0, BE(xs));
    DivModUnique(BE(ys), w.curve.p, 0, BE(ys));
    ToBEOfBE(xs);
    ToBEOfBE(ys);
    assert bytes == [4] + xs + ys;
  }

  /** An all-zero coordinate payload decodes to the identity without a curve check. */
  lemma DecodeZeros(w: Weierstrass)
    requires w.curve.p > 0
    ensures Parse(w, [4] + Zeros(2 * w.CoordLen())) == Ok(Infinity)
    ensures Decode(w, [4] + Zeros(2 * w.CoordLen())) == Ok(Infinity)
  {
    var l := w.CoordLen();
    var b := [4] + Zeros(2 * l);
    assert b[1..1 + l] == Zeros(l) && b[1 + l..] == Zeros(l);
    BEOfZeros(l);
  }

  /** A coordinate below `p` fits `coordLen()` bytes on a well-formed curve. */
  lemma CoordinateFits(w: Weierstrass, v: nat)
    requires w.WellFormed() && v < w.curve.p
    ensures v < Pow2(8 * w.CoordLen()) && w.CoordLen() >= 1
    ensures MinBytes(v) <= w.CoordLen()
  {
    var l := w.CoordLen();
    if l == 0 {
      assert Pow2(0) == 1;
    }
    BitLengthBounds(v);
    if BitLength(v) > 8 * l {
      Pow2Mono(8 * l, BitLength(v) - 1);
    }
  }

  // ---------------------------------------------------------------------------
  // Embedding data in the x coordinate

  /** `embedLen()`: `(bitLength(p) - 16) >> 3`, negative for primes below 16 bits. */
  function EmbedLen(w: Weierstrass): (r: int)
    ensures 8 * r + 16 <= BitLength(w.curve.p) < 8 * r + 24
  {
    (BitLength(w.curve.p) - 16) / 8
  }

  /** The number of bytes each round draws: `bitLength(p) >> 3`. */
  function BuffLen(w: Weierstrass): nat
  {
    BitLength(w.curve.p) / 8
  }

  /**
   * The layout under which `embed` and `data` agree: `p` has a whole number of bytes, and that is
   * `coordLen()`, so the length byte lands at the last index of the draw.
   */
  predicate Layout(w: Weierstrass)
  {
    BitLength(w.curve.p) % 8 == 0 && BuffLen(w) == w.CoordLen()
  }

  /**
   * One round's candidate bytes: the draw with the bits above `bitLength(p)` cleared in byte 0
   * and, for a non-empty payload, its length (mod 256) at index `coordLen()-1`, which is dropped
   * when that index is past the end, and the payload just before it. `bytes.set` throws when the
   * payload does not fit.
   */
  function Candidate(w: Weierstrass, data: seq<byte>, draw: seq<byte>): (r: Result<seq<byte>>)
    ensures r.Ok? ==> |r.value| == |draw|
  {
    var l := w.CoordLen();
    var dl := |data|;
    var h := BitLength(w.curve.p) % 8;
    var masked := if h != 0 && |draw| > 0 then draw[0 := AndAssign(draw[0], Random.NotShifted(h))] else draw;
    if dl == 0 then Ok(masked)
    else if l - dl - 1 < 0 || l - 1 > |draw| then Err(OutOfRange)
    else
      var written := if l - 1 < |draw| then masked[l - 1 := (dl % 256) as byte] else masked;
      Ok(written[..l - dl - 1] + data + written[l - 1..])
  }

  /** Under the layout, the candidate is `l` bytes with the length at `l-1` and the payload right before it. */
  lemma CandidateLayout(w: Weierstrass, data: seq<byte>, draw: seq<byte>)
    requires Layout(w) && 0 < |data| <= EmbedLen(w) && |draw| == BuffLen(w)
    ensures Candidate(w, data, draw).Ok?
    ensures var b := Candidate(w, data, draw).value;
      |b| == w.CoordLen() && b[w.CoordLen() - 1] == |data| % 256 &&
      b[w.CoordLen() - |data| - 1..w.CoordLen() - 1] == data
  {
  }

  /** The first candidate of at most `p` (as written, a candidate equal to `p` passes) whose chosen root squares back. */
  function EmbedFrom(w: Weierstrass, data: seq<byte>, stream: seq<byte>): (r: Result<Option<WPoint>>)
    requires w.curve.p > 0
    decreases |stream|
  {
    var n := BuffLen(w);
    var p := w.curve.p;
    if |stream| < n then Ok(None)
    else
      match Candidate(w, data, stream[..n])
      case Err(e) => Err(e)
      case Ok(bytes) =>
        var x := BE(bytes);
        if x > p then
          assert bytes != [];
          EmbedFrom(w, data, stream[n..])
        else if |stream| < n + 1 then Ok(None)
        else
          var xr := x % p;
          var y2 := Rhs(w.curve, xr);
          var root := w.engine.sqrt(y2);
          var y := if AndAssign(stream[n], 0x80) != 0 then w.engine.flip(root) else root;
          if (y * y) % p == y2 then Ok(Some(Affine(xr, y)))
          else EmbedFrom(w, data, stream[n + 1..])
  }

  /** `data()` as a function: bytes `[l-dl-1, l-1)` of `x` in `l` big-endian bytes, `dl` being the last byte. */
  function DataOf(w: Weierstrass, q: WPoint): (r: Result<seq<byte>>)
    requires w.CoordLen() >= 1
    ensures q.Infinity? ==> r == Err(NullCoordinate)
    ensures r.Ok? ==> |r.value| <= w.CoordLen() - 1
  {
    var l := w.CoordLen();
    if q.Infinity? then Err(NullCoordinate)
    else if q.x >= Pow2(8 * l) then Err(OutOfRange)
    else
      var b := ToBE(q.x, l);
      var dl := b[l - 1];
      if dl > EmbedLen(w) then Err(InvalidEmbeddedLength)
      else Ok(JsSlice(b, l - dl - 1, l - 1))
  }

  /** `Uint8Array.prototype.slice(start, end)` for `0 <= end <= |s|`: a negative start counts from the end. */
  function JsSlice(s: seq<byte>, start: int, end: nat): (r: seq<byte>)
    requires end <= |s|
    ensures 0 <= start <= end ==> r == s[start..end]
    ensures |r| <= end
  {
    var from := if start >= 0 then start else if |s| + start >= 0 then |s| + start else 0;
    if from >= end then [] else s[from..end]
  }

  /**
   * What `embed` returns: a curve point; under the layout, with a payload of fewer than 256 bytes,
   * `data()` gives the payload back unless the accepted candidate was `p` itself, whose x is 0.
   */
  lemma {:induction false} EmbedFromProperties(w: Weierstrass, data: seq<byte>, stream: seq<byte>, q: WPoint)
    requires w.Valid() && |data| <= EmbedLen(w)
    requires EmbedFrom(w, data, stream) == Ok(Some(q))
    ensures OnCurve(w.curve, q) && q.Affine?
    ensures Layout(w) && 0 < |data| < 256 && q.x != 0 ==> DataOf(w, q) == Ok(data)
    decreases |stream|
  {
    var n := BuffLen(w);
    var p := w.curve.p;
    var bytes := Candidate(w, data, stream[..n]).value;
    var x := BE(bytes);
    if x > p {
      assert bytes != [];
      assert EmbedFrom(w, data, stream[n..]) == Ok(Some(q));
      EmbedFromProperties(w, data, stream[n..], q);
    } else {
      var xr := x % p;
      var y2 := Rhs(w.curve, xr);
      var root := w.engine.sqrt(y2);
      var y := if AndAssign(stream[n], 0x80) != 0 then w.engine.flip(root) else root;
      if (y * y) % p == y2 {
        assert q == Affine(xr, y) && y < p;
        if Layout(w) && 0 < |data| < 256 && xr != 0 {
          EmbeddedData(w, data, stream[..n], y);
        }
      } else {
        assert EmbedFrom(w, data, stream[n + 1..]) == Ok(Some(q));
        EmbedFromProperties(w, data, stream[n + 1..], q);
      }
    }
  }

  /** The payload round trip for one accepted candidate below `p`. */
  lemma EmbeddedData(w: Weierstrass, data: seq<byte>, draw: seq<byte>, y: nat)
    requires w.Valid() && Layout(w) && 0 < |data| < 256 && |data| <= EmbedLen(w) && |draw| == BuffLen(w)
    requires BE(Candidate(w, data, draw).value) <= w.curve.p
    requires BE(Candidate(w, data, draw).value) % w.curve.p != 0
    ensures DataOf(w, Affine(BE(Candidate(w, data, draw).value) % w.curve.p, y)) == Ok(data)
  {
    var l := w.CoordLen();
    var p := w.curve.p;
    CandidateLayout(w, data, draw);
    var b := Candidate(w, data, draw).value;
    var x := BE(b);
    if x == p {
      DivModUnique(x, p, 1, 0);
    }
    assert x < p;
    DivModUnique(x, p, 0, x);
    BEBound(b);
    ToBEOfBE(b);
    assert ToBE(x, l) == b;
    assert b[l - 1] == |data|;
  }

  /**
   * As written, `embed` accepts a first candidate equal to `p` whose chosen root squares back: the
   * point it returns has x = 0, and `data()` of that point gives the empty payload, not the one embedded.
   */
  lemma CandidateEqualToP(w: Weierstrass, data: seq<byte>, stream: seq<byte>, y: nat)
    requires w.WellFormed() && Layout(w) && 0 < |data| <= EmbedLen(w)
    requires |stream| > BuffLen(w) && Candidate(w, data, stream[..BuffLen(w)]).Ok?
    requires BE(Candidate(w, data, stream[..BuffLen(w)]).value) == w.curve.p
    requires var root := w.engine.sqrt(Rhs(w.curve, 0));
      y == (if AndAssign(stream[BuffLen(w)], 0x80) != 0 then w.engine.flip(root) else root)
    requires (y * y) % w.curve.p == Rhs(w.curve, 0)
    ensures EmbedFrom(w, data, stream) == Ok(Some(Affine(0, y)))
    ensures DataOf(w, Affine(0, y)) == Ok([])
    ensures DataOf(w, Affine(0, y)) != Ok(data)
  {
    var p := w.curve.p;
    var l := w.CoordLen();
    DivModUnique(p, p, 1, 0);
    CoordinateFits(w, 0);
    ToBEOfZero(l);
    assert ToBE(0, l)[l - 1] == 0;
  }

  /**
   * When `bitLength(p) >> 3` is one byte short of `coordLen()` (a 521-bit `p` with 66-byte
   * coordinates), index `coordLen()-1` is past the end of the draw, so the length byte is dropped:
   * the candidate has `bitLength(p) >> 3` bytes and ends with the payload.
   */
  lemma ShortCandidate(w: Weierstrass, data: seq<byte>, draw: seq<byte>)
    requires BuffLen(w) + 1 == w.CoordLen() && 0 < |data| <= EmbedLen(w) && |draw| == BuffLen(w)
    ensures Candidate(w, data, draw).Ok?
    ensures var c := Candidate(w, data, draw).value;
      |c| == BuffLen(w) && c[BuffLen(w) - |data|..] == data
  {
  }

  /** One accepted candidate of the short layout: `data()` reads the payload's last byte as the length. */
  lemma ShortDataOf(w: Weierstrass, data: seq<byte>, draw: seq<byte>, y: nat)
    requires w.WellFormed() && BuffLen(w) + 1 == w.CoordLen() && 0 < |data| <= EmbedLen(w) && |draw| == BuffLen(w)
    requires data[|data| - 1] != |data|
    requires BE(Candidate(w, data, draw).value) <= w.curve.p
    ensures DataOf(w, Affine(BE(Candidate(w, data, draw).value) % w.curve.p, y)) != Ok(data)
  {
    ShortCandidate(w, data, draw);
    var l := w.CoordLen();
    var p := w.curve.p;
    var c := Candidate(w, data, draw).value;
    var x := BE(c);
    CoordinateFits(w, 0);
    if x == p {
      DivModUnique(x, p, 1, 0);
      ToBEOfZero(l);
      assert ToBE(0, l)[l - 1] == 0;
    } else {
      DivModUnique(x, p, 0, x);
      BEBound(c);
      assert ToBE(x, l) == [0] + c by {
        ToBEPad(x, l - 1, l);
        ToBEOfBE(c);
      }
      var b := ToBE(x, l);
      assert b[l - 1] == data[|data| - 1] by {
        assert b[l - 1] == c[l - 2];
        assert c[l - 2] == c[l - 1 - |data|..][|data| - 1];
      }
    }
  }

  /**
   * In the short layout, a payload whose last byte is not its length never comes back: `data()`
   * of any point `embed` returns differs from the payload.
   */
  lemma {:induction false} EmbedLosesLength(w: Weierstrass, data: seq<byte>, stream: seq<byte>, q: WPoint)
    requires w.WellFormed() && BuffLen(w) + 1 == w.CoordLen() && 0 < |data| <= EmbedLen(w)
    requires data[|data| - 1] != |data|
    requires EmbedFrom(w, data, stream) == Ok(Some(q))
    ensures DataOf(w, q) != Ok(data)
    decreases |stream|
  {
    var n := BuffLen(w);
    var p := w.curve.p;
    var bytes := Candidate(w, data, stream[..n]).value;
    var x := BE(bytes);
    if x > p {
      assert bytes != [];
      assert EmbedFrom(w, data, stream[n..]) == Ok(Some(q));
      EmbedLosesLength(w, data, stream[n..], q);
    } else {
      var xr := x % p;
      var y2 := Rhs(w.curve, xr);
      var root := w.engine.sqrt(y2);
      var y := if AndAssign(stream[n], 0x80) != 0 then w.engine.flip(root) else root;
      if (y * y) % p == y2 {
        assert q == Affine(xr, y);
        ShortDataOf(w, data, stream[..n], y);
      } else {
        assert EmbedFrom(w, data, stream[n + 1..]) == Ok(Some(q));
        EmbedLosesLength(w, data, stream[n + 1..], q);
      }
    }
  }

  // ---------------------------------------------------------------------------
  // Point handles

  /** The object `ref` that point handles share (its `curve` part is the handle's `curve`). */
  class NistPointRef {
    var point: WPoint

    constructor (q: WPoint)
      ensures point == q
    {
      point := q;
    }
  }

  /** `NistPoint`: every operation writes `ref.point` and returns the receiver. */
  class NistPoint {
    var ref: NistPointRef
    const curve: Weierstrass

    /** `new NistPoint(curve)` with no coordinates: the point at infinity. */
    constructor (c: Weierstrass)
      ensures curve == c && fresh(ref) && ref.point == Infinity
    {
      curve := c;
      ref := new NistPointRef(Infinity);
    }

    /** `new NistPoint(curve, x, y)`: the curve object reduces both coordinates. */
    constructor FromCoordinates(c: Weierstrass, x: nat, y: nat)
      requires c.curve.p > 0
      ensures curve == c && fresh(ref) && ref.point == Affine(x % c.curve.p, y % c.curve.p)
    {
      curve := c;
      ref := new NistPointRef(Affine(x % c.curve.p, y % c.curve.p));
    }

    function Point(): WPoint
      reads this, ref
    {
      ref.point
    }

    /** The handle's curve is well formed and lawful, and its point is held reduced. */
    ghost predicate Valid()
      reads this, ref
    {
      curve.Valid() && Reduced(curve.curve, ref.point)
    }

    /** `equal(p2)`: the identity equals only the identity; other points compare both coordinates. */
    predicate Equal(p2: NistPoint)
      reads this, ref, p2, p2.ref
      ensures Equal(p2) <==> Point() == p2.Point()
    {
      if Point().Infinity? != p2.Point().Infinity? then false
      else if Point().Infinity? then true
      else Point().x == p2.Point().x && Point().y == p2.Point().y
    }

    /** `set(p2)`: the receiver shares `p2`'s `ref` object from now on. */
    method Set(p2: NistPoint) returns (r: NistPoint)
      modifies this
      ensures r == this && ref == p2.ref && ref == old(p2.ref)
    {
      ref := p2.ref;
      return this;
    }

    /** `clone()`: a fresh handle on the same point; the point at infinity has null coordinates, which the constructor cannot read. */
    method Clone() returns (r: Result<NistPoint>)
      requires Valid()
      ensures Point().Infinity? ==> r == Err(NullCoordinate)
      ensures Point().Affine? ==>
        (r.Ok? && fresh(r.value) && fresh(r.value.ref) && r.value.curve == curve && r.value.Point() == Point())
    {
      var q := ref.point;
      if q.Infinity? {
        return Err(NullCoordinate);
      }
      DivModUnique(q.x, curve.curve.p, 0, q.x);
      DivModUnique(q.y, curve.curve.p, 0, q.y);
      var c := new NistPoint.FromCoordinates(curve, q.x, q.y);
      return Ok(c);
    }

    /** `null()`: the point at infinity. */
    method Null() returns (r: NistPoint)
      modifies ref
      ensures r == this && Point() == Infinity
      ensures curve.Valid() ==> Valid()
    {
      ref.point := Infinity;
      return this;
    }

    /** `base()`: the curve's generator. */
    method Base() returns (r: NistPoint)
      modifies ref
      ensures r == this && Point() == curve.curve.g
      ensures curve.Valid() ==> Valid()
    {
      ref.point := curve.curve.g;
      return this;
    }

    /** `add(p1, p2)` */
    method Add(p1: NistPoint, p2: NistPoint) returns (r: NistPoint)
      requires Valid()
      modifies ref
      ensures r == this && Valid() && Point() == curve.engine.add(old(p1.Point()), old(p2.Point()))
    {
      ref.point := curve.engine.add(p1.ref.point, p2.ref.point);
      return this;
    }

    /** `sub(p1, p2)`: `p1 + (-p2)`. */
    method Sub(p1: NistPoint, p2: NistPoint) returns (r: NistPoint)
      requires Valid()
      modifies ref
      ensures r == this && Valid() &&
        Point() == curve.engine.add(old(p1.Point()), curve.engine.neg(old(p2.Point())))
    {
      ref.point := curve.engine.add(p1.ref.point, curve.engine.neg(p2.ref.point));
      return this;
    }

    /** `neg(p)` */
    method Neg(p: NistPoint) returns (r: NistPoint)
      requires Valid()
      modifies ref
      ensures r == this && Valid() && Point() == curve.engine.neg(old(p.Point()))
    {
      ref.point := curve.engine.neg(p.ref.point);
      return this;
    }

    /** `mul(s, p)`: `s` is the scalar's value; without `p` the generator is multiplied. */
    method Mul(s: nat, p: Option<NistPoint>) returns (r: NistPoint)
      requires Valid()
      modifies ref
      ensures r == this && Valid()
      ensures p.Some? ==> Point() == curve.engine.mul(s, old(p.value.Point()))
      ensures p.None? ==> Point() == curve.engine.mul(s, curve.curve.g)
    {
      if p.Some? {
        ref.point := curve.engine.mul(s, p.value.ref.point);
      } else {
        ref.point := curve.engine.mul(s, curve.curve.g);
      }
      return this;
    }

    /** `marshalSize()` */
    function MarshalSize(): (r: nat)
      ensures r == 1 + 2 * curve.CoordLen()
    {
      curve.PointLen()
    }

    /** `marshalBinary()`: the point at infinity has no coordinates to write. */
    method MarshalBinary() returns (r: Result<seq<byte>>)
      requires Valid()
      ensures Point().Affine? ==> Point().x < Pow2(8 * curve.CoordLen()) && Point().y < Pow2(8 * curve.CoordLen())
      ensures r == Marshal(curve, Point())
    {
      var q := ref.point;
      if q.Infinity? {
        return Err(NullCoordinate);
      }
      CoordinateFits(curve, q.x);
      CoordinateFits(curve, q.y);
      var buf := X962(curve.CoordLen(), q.x, q.y);
      return Ok(buf);
    }

    /**
     * `unmarshalBinary(bytes)`: checks the length and the header, then stores the decoded point
     * and only then validates it, so a point off the curve stays stored when it throws.
     */
    method UnmarshalBinary(bytes: seq<byte>) returns (r: Outcome)
      requires Valid()
      modifies ref
      ensures Valid()
      ensures Parse(curve, bytes).Err? ==> Point() == old(Point())
      ensures Parse(curve, bytes).Ok? ==> Point() == Parse(curve, bytes).value
      ensures r == Pass <==> Decode(curve, bytes).Ok?
      ensures r.Fail? ==> r.error == Decode(curve, bytes).error
    {
      var byteLen := curve.CoordLen();
      if |bytes| != 1 + 2 * byteLen {
        return Fail(InvalidEncoding);
      }
      if bytes[0] != 4 {
        return Fail(NotUncompressed);
      }
      var x := BE(bytes[1..1 + byteLen]);
      var y := BE(bytes[1 + byteLen..]);
      if x == 0 && y == 0 {
        ref.point := Infinity;
        return Pass;
      }
      ref.point := Affine(x % curve.curve.p, y % curve.curve.p);
      if !OnCurve(curve.curve, ref.point) {
        return Fail(PointNotOnCurve);
      }
      return Pass;
    }

    /** `data()` */
    method Data() returns (r: Result<seq<byte>>)
      requires Valid()
      ensures curve.CoordLen() >= 1 && r == DataOf(curve, Point())
    {
      var q := ref.point;
      if q.Infinity? {
        CoordinateFits(curve, 0);
        return Err(NullCoordinate);
      }
      var l := curve.CoordLen();
      CoordinateFits(curve, q.x);
      var b := ToBE(q.x, l);
      var dl := b[l - 1];
      if dl > EmbedLen(curve) {
        return Err(InvalidEmbeddedLength);
      }
      return Ok(JsSlice(b, l - dl - 1, l - 1));
    }

    /**
     * `embed(data, callback)`: each round draws `bitLength(p) >> 3` bytes for x and, when x is at
     * most `p`, one byte whose bit 7 chooses the root. The receiver is not changed; `Ok(None)`
     * when the stream runs out first.
     */
    method Embed(data: seq<byte>, stream: seq<byte>) returns (r: Result<Option<NistPoint>>)
      requires Valid()
      ensures |data| > EmbedLen(curve) ==> r == Err(DataTooLong)
      ensures |data| <= EmbedLen(curve) ==>
        (r.Err? <==> EmbedFrom(curve, data, stream).Err?) &&
        (r.Err? ==> r.error == EmbedFrom(curve, data, stream).error) &&
        (r.Ok? ==> (r.value.None? <==> EmbedFrom(curve, data, stream).value.None?))
      ensures r.Ok? && r.value.Some? ==>
        fresh(r.value.value) && fresh(r.value.value.ref) && r.value.value.curve == curve &&
        r.value.value.Point() == EmbedFrom(curve, data, stream).value.value
    {
      var l := curve.CoordLen();
      var dl := EmbedLen(curve);
      if |data| > dl {
        return Err(DataTooLong);
      }
      var p := curve.curve.p;
      var n := BuffLen(curve);
      var used := 0;
      while true
        invariant used <= |stream|
        invariant EmbedFrom(curve, data, stream) == EmbedFrom(curve, data, stream[used..])
        decreases |stream| - used
      {
        var rest := stream[used..];
        if |rest| < n {
          return Ok(None);
        }
        var bytes := FillCandidate(curve, data, rest[..n]);
        if bytes.Err? {
          return Err(bytes.error);
        }
        var x := BE(bytes.value);
        if x > p {
          assert bytes.value != [];
          used := used + n;
          assert rest[n..] == stream[used..];
          continue;
        }
        var xRed := x % p;
        var y2 := Rhs(curve.curve, xRed);
        var y := curve.engine.sqrt(y2);
        if |rest| < n + 1 {
          return Ok(None);
        }
        var b := rest[n];
        if AndAssign(b, 0x80) != 0 {
          y := curve.engine.flip(y);
        }
        if (y * y) % p == y2 {
          assert xRed < p && y < p;
          DivModUnique(xRed, p, 0, xRed);
          DivModUnique(y, p, 0, y);
          var point := new NistPoint.FromCoordinates(curve, xRed, y);
          return Ok(Some(point));
        }
        used := used + n + 1;
        assert rest[n + 1..] == stream[used..];
      }
    }
  }

  /** `curve.point()`: a fresh handle on the point at infinity. */
  method NewPoint(c: Weierstrass) returns (r: NistPoint)
    ensures fresh(r) && fresh(r.ref) && r.curve == c && r.Point() == Infinity
  {
    r := new NistPoint(c);
  }

  /** `pick(callback)`: `embed` with an empty payload. */
  method Pick(p: NistPoint, stream: seq<byte>) returns (r: Result<Option<NistPoint>>)
    requires p.Valid()
    ensures EmbedLen(p.curve) < 0 ==> r == Err(DataTooLong)
    ensures EmbedLen(p.curve) >= 0 ==> (r.Err? <==> EmbedFrom(p.curve, [], stream).Err?)
    ensures EmbedLen(p.curve) >= 0 ==> (r.Ok? ==> (r.value.None? <==> EmbedFrom(p.curve, [], stream).value.None?))
    ensures EmbedLen(p.curve) >= 0 && r.Ok? && r.value.Some? ==> fresh(r.value.value) && r.value.value.Point() == EmbedFrom(p.curve, [], stream).value.value
  {
    r := p.Embed([], stream);
  }

  /** The buffer of `marshalBinary`: the header 4, then each coordinate's minimal big-endian bytes written right-aligned in its field. */
  method X962(l: nat, x: nat, y: nat) returns (r: seq<byte>)
    requires MinBytes(x) <= l && MinBytes(y) <= l
    ensures r == [4] + ToBE(x, l) + ToBE(y, l)
  {
    var buf := new byte[1 + 2 * l](_ => 0);
    buf[0] := 4;
    SetRightAligned(buf, 1, l, x);
    SetRightAligned(buf, 1 + l, l, y);
    assert buf[..] == buf[..1] + buf[1..1 + l] + buf[1 + l..1 + 2 * l];
    return buf[..];
  }

  /** `buf.set(v.toArray("be"), start + l - length)`: writes the minimal bytes of `v` right-aligned in the zero field `[start, start + l)`. */
  method SetRightAligned(buf: array<byte>, start: nat, l: nat, v: nat)
    requires MinBytes(v) <= l && start + l <= buf.Length
    requires forall i :: start <= i < start + l ==> buf[i] == 0
    modifies buf
    ensures buf[start..start + l] == ToBE(v, l)
    ensures forall i :: 0 <= i < buf.Length && !(start <= i < start + l) ==> buf[i] == old(buf[i])
  {
    var bytes := ToBE(v, MinBytes(v));
    FieldBytes(v, l);
    var off := start + l - |bytes|;
    ghost var before := buf[..];
    assert before[start..off] == Zeros(l - |bytes|);
    SetAt(buf, bytes, off);
    assert buf[start..start + l] == before[start..off] + bytes;
  }

  /** The minimal big-endian bytes of `v`, zero-padded on the left to `l` bytes, are `v` in `l` bytes. */
  lemma FieldBytes(v: nat, l: nat)
    requires MinBytes(v) <= l
    ensures |ToBE(v, MinBytes(v))| == MinBytes(v)
    ensures Zeros(l - |ToBE(v, MinBytes(v))|) + ToBE(v, MinBytes(v)) == ToBE(v, l)
  {
    MinBytesFits(v);
    ToBEPad(v, MinBytes(v), l);
  }

  /** `buf.set(src, off)` */
  method SetAt(buf: array<byte>, src: seq<byte>, off: nat)
    requires off + |src| <= buf.Length
    modifies buf
    ensures buf[..] == old(buf[..])[..off] + src + old(buf[..])[off + |src|..]
  {
    ghost var before := buf[..];
    for i := 0 to |src|
      invariant buf[..] == before[..off] + src[..i] + before[off + i..]
    {
      buf[off + i] := src[i];
      assert src[..i + 1] == src[..i] + [src[i]];
    }
    assert src[..|src|] == src;
  }

  /** One round's buffer, built as `embed` builds it: copy the draw, mask byte 0, write the length, then the payload. */
  method FillCandidate(w: Weierstrass, data: seq<byte>, draw: seq<byte>) returns (r: Result<seq<byte>>)
    ensures r == Candidate(w, data, draw)
  {
    var l := w.CoordLen();
    var dl := |data|;
    var bytes := new byte[|draw|](i requires 0 <= i < |draw| => draw[i]);
    var highbits := BitLength(w.curve.p) % 8;
    if highbits != 0 && bytes.Length > 0 {
      bytes[0] := AndAssign(bytes[0], Random.NotShifted(highbits));
    }
    ghost var masked := bytes[..];
    assert masked == if highbits != 0 && |draw| > 0 then draw[0 := AndAssign(draw[0], Random.NotShifted(highbits))] else draw;
    if dl == 0 {
      assert Candidate(w, data, draw) == Ok(masked);
      return Ok(bytes[..]);
    }
    if 0 <= l - 1 < bytes.Length {
      bytes[l - 1] := dl % 256;
    }
    if l - dl - 1 < 0 || l - 1 > bytes.Length {
      return Err(OutOfRange);
    }
    ghost var written := bytes[..];
    assert written == if l - 1 < |draw| then masked[l - 1 := (dl % 256) as byte] else masked;
    assert Candidate(w, data, draw) == Ok(written[..l - dl - 1] + data + written[l - 1..]);
    SetAt(bytes, data, l - dl - 1);
    return Ok(bytes[..]);
  }
}
