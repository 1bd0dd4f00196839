/**
 * Points of the Ed25519 curve (`Ed25519Point`): the compressed 32-byte encoding of section 5.1.2 of
 * RFC 8032, the `embed`/`data` payload layout, and the point handles that share a `ref` object.
 * The group law, `pointFromY` and scalar multiplication belong to the elliptic library; they are
 * the fields of an `EdwardsEngine` value, constrained by `Lawful`.
 */
module Edwards25519Point {
  import opened Bytes
  import opened Wrappers
  import Edwards25519Scalar

  /** p = 2^255 - 19, the field prime. */
  const Prime: nat := 0x7fff_ffff_ffff_ffff_ffff_ffff_ffff_ffff_ffff_ffff_ffff_ffff_ffff_ffff_ffff_ffed

  /** d = -121665/121666 mod p, the curve constant of edwards25519 (section 5.1 of RFC 8032). */
  const D: nat := 37095705934669439343138083508754565189542113879843219016388785533085940283555

  /** The group order ℓ (`curve.n`). */
  const N: nat := Edwards25519Scalar.L

  /** The length of an encoded point. */
  const PointSize: nat := 32

  /** A point in affine coordinates, as `getX()`/`getY()` return them after `normalize()`. */
  datatype EdPoint = EdPoint(x: nat, y: nat)

  /** The neutral element (0, 1). */
  const Identity: EdPoint := EdPoint(0, 1)

  /** `isInfinity()` */
  predicate IsIdentity(q: EdPoint)
  {
    q == Identity
  }

  /** Reduced coordinates satisfying -x² + y² = 1 + d·x²·y² (mod p). */
  predicate OnCurve(q: EdPoint)
  {
    q.x < Prime && q.y < Prime &&
    (q.y * q.y - q.x * q.x) % Prime == (1 + D * (q.x * q.x) * (q.y * q.y)) % Prime
  }

  /** `x.isOdd()` */
  function Parity(q: EdPoint): nat
  {
    q.x % 2
  }

  /** The operations the elliptic library supplies for `ec.curve`. */
  datatype EdwardsEngine = EdwardsEngine(
    /** `pointFromY(y, odd)`; `None` when it throws. */
    pointFromY: (nat, bool) -> Option<EdPoint>,
    add: (EdPoint, EdPoint) -> EdPoint,
    neg: EdPoint -> EdPoint,
    /** `P.mul(k)` */
    mul: (nat, EdPoint) -> EdPoint,
    /** the base point `g` */
    g: EdPoint,
    /** what `curve.point(undefined, undefined, undefined, undefined)` makes: `new Ed25519Point(curve)` with no coordinates */
    unset: EdPoint)

  /**
   * What the model assumes of the elliptic library: `pointFromY` returns the curve point with the
   * given `y` and the requested parity of `x`, and finds every curve point; multiples of the base
   * point form a group of order ℓ. For `x = 0` the model does not assume that an odd sign bit is
   * rejected: `pointFromY` may then throw or return the point with `x = 0`.
   */
  ghost predicate Lawful(e: EdwardsEngine)
  {
    (forall y: nat, odd: bool :: e.pointFromY(y, odd).Some? ==>
      var q := e.pointFromY(y, odd).value;
      q.y == y && OnCurve(q) && (q.x == 0 || (Parity(q) == 1) == odd)) &&
    (forall q :: OnCurve(q) ==> e.pointFromY(q.y, Parity(q) == 1) == Some(q)) &&
    (forall a: nat :: OnCurve(e.mul(a, e.g))) &&
    (forall a: nat, b: nat :: e.add(e.mul(a, e.g), e.mul(b, e.g)) == e.mul((a + b) % N, e.g)) &&
    (forall a: nat, b: nat :: e.mul(a, e.mul(b, e.g)) == e.mul((a * b) % N, e.g)) &&
    (forall a: nat :: e.neg(e.mul(a, e.g)) == e.mul((N - a % N) % N, e.g)) &&
    e.mul(0, e.g) == Identity
  }

  // ---------------------------------------------------------------------------
  // Encoding

  /** `marshalBinary`: `y` in 32 little-endian bytes, then `buffer[31] ^= parity << 7`. */
  function Encode(q: EdPoint): (r: seq<byte>)
    ensures |r| == PointSize
  {
    var buffer := ToLE(q.y, PointSize);
    buffer[..31] + [XorAssign(buffer[31], Parity(q) * 128)]
  }

  /** The 32 bytes `unmarshalBinary` works on: the input copied over zeros. */
  function Padded(bytes: seq<byte>): (r: seq<byte>)
    requires |bytes| <= PointSize
    ensures |r| == PointSize
  {
    bytes + Zeros(PointSize - |bytes|)
  }

  /** The `y` that `unmarshalBinary` reads: the padded bytes with bit 7 of byte 31 cleared. */
  function DecodedY(b: seq<byte>): nat
    requires |b| == PointSize
  {
    LE(b[..31] + [AndAssign(b[31], 0x7f)])
  }

  /** `unmarshalBinary` as a function of the input bytes. */
  function Decode(e: EdwardsEngine, bytes: seq<byte>): (r: Result<EdPoint>)
    ensures |bytes| > PointSize ==> r == Err(InvalidEncoding)
  {
    if |bytes| > PointSize then Err(InvalidEncoding)
    else
      var b := Padded(bytes);
      var odd := b[31] / 128 == 1;
      var y := DecodedY(b);
      if y >= Prime then Err(PointDecodeFailure)
      else match e.pointFromY(y, odd)
        case None => Err(PointNotOnCurve)
        case Some(q) => Ok(q)
  }

  /** 32 bytes are their first 31 bytes followed by byte 31. */
  lemma Split31(b: seq<byte>)
    requires |b| == PointSize
    ensures b == b[..31] + [b[31]]
  {
  }

  /** A 32-byte little-endian value is its 31 low bytes plus byte 31 weighted by `2^248`. */
  lemma LESplit31(b: seq<byte>)
    requires |b| == PointSize
    ensures LE(b) == LE(b[..31]) + Pow2(248) * b[31]
    ensures LE(b[..31]) < Pow2(248)
  {
    Split31(b);
    LEAppend(b[..31], [b[31]]);
    assert LE([b[31]]) == b[31] by { assert [b[31]][1..] == []; }
    LEBound(b[..31]);
  }

  /** `2^255` is `2^248` times 128. */
  lemma Pow2TopByte()
    ensures Pow2(255) == Pow2(248) * 128
  {
    Pow2Add(248, 7);
    Pow2Eight();
  }

  /** Below `2^255` the top byte is below 128. */
  lemma TopByteBelow128(h: nat, top: nat, v: nat)
    requires v == h + Pow2(248) * top && v < Pow2(255)
    ensures top < 128
  {
    var p := Pow2(248);
    assert Pow2(255) == p * 128 by { Pow2TopByte(); }
    MulLtCancel(p, top, 128);
  }

  /** Byte 31 `low + 128·bit` weighs `low·2^248` plus `bit·2^255`. */
  lemma TopByteWeight(h: nat, low: nat, bit: nat, top: nat)
    requires top == low + 128 * bit
    ensures h + Pow2(248) * top == (h + Pow2(248) * low) + Pow2(255) * bit
  {
    var p, q := Pow2(248), Pow2(255);
    assert q == p * 128 by { Pow2TopByte(); }
    Distribute(p, q, low, bit, top);
  }

  lemma Distribute(p: int, q: int, low: int, bit: int, top: int)
    requires q == p * 128 && top == low + 128 * bit
    ensures p * top == p * low + q * bit
  {
  }

  /** `y` little-endian in 32 bytes, for `y < p`: its byte 31 has bit 7 clear. */
  lemma YBytes(y: nat)
    requires y < Prime
    ensures LE(ToLE(y, PointSize)) == y
    ensures ToLE(y, PointSize)[31] < 128
    ensures LE(ToLE(y, PointSize)[..31]) + Pow2(248) * ToLE(y, PointSize)[31] == y
  {
    assert y < Pow2(8 * PointSize) && y < Pow2(255) by { Pow2Known(); }
    var b := ToLE(y, PointSize);
    LEOfToLE(y, PointSize);
    LESplit31(b);
    TopByteBelow128(LE(b[..31]), b[31], y);
  }

  /** The encoding's low 255 bits hold `y` and bit 255 holds the parity of `x`. */
  lemma EncodeLayout(q: EdPoint)
    requires q.y < Prime
    ensures LE(Encode(q)) == q.y + Pow2(255) * Parity(q)
    ensures Encode(q)[31] / 128 == Parity(q)
    ensures DecodedY(Encode(q)) == q.y
    ensures Encode(q)[..31] == ToLE(q.y, PointSize)[..31]
  {
    var buffer := ToLE(q.y, PointSize);
    var head, last := buffer[..31], buffer[31];
    var par := Parity(q);
    assert LE(buffer) == q.y && last < 128 && LE(head) + Pow2(248) * last == q.y by { YBytes(q.y); }
    var top := XorAssign(last, par * 128);
    assert top == last + 128 * par && top / 128 == par && AndAssign(top, 0x7f) == last by { FlipTop(last, par); }
    var enc := Encode(q);
    assert enc[..31] == head && enc[31] == top;
    var le, lh := LE(enc), LE(head);
    assert le == lh + Pow2(248) * top by { LESplit31(enc); }
    assert le == q.y + Pow2(255) * par by { TopByteWeight(lh, last, par, top); }
    assert DecodedY(enc) == LE(buffer) by { Split31(buffer); }
  }

  /** Byte 31 of an encoding, when the top byte of `y` is below 128. */
  lemma FlipTop(last: byte, par: nat)
    requires last < 128 && par < 2
    ensures XorAssign(last, par * 128) == last + 128 * par
    ensures XorAssign(last, par * 128) / 128 == par
    ensures AndAssign(XorAssign(last, par * 128), 0x7f) == last
  {
    var top := last + 128 * par;
    assert XorAssign(last, par * 128) == top by {
      FlipBit7(last);
      if par == 0 { assert par * 128 == 0; } else { assert par * 128 == 0x80; }
    }
    DivModUnique(top, 128, par, last);
    ClearBit7(top);
  }

  /** A curve point survives encoding and decoding. */
  lemma DecodeEncode(e: EdwardsEngine, q: EdPoint)
    requires Lawful(e) && OnCurve(q)
    ensures Decode(e, Encode(q)) == Ok(q)
  {
    EncodeLayout(q);
    assert Padded(Encode(q)) == Encode(q);
  }

  /** Short inputs are zero-padded to 32 bytes. */
  lemma DecodeShort(e: EdwardsEngine, bytes: seq<byte>)
    requires |bytes| <= PointSize
    ensures Decode(e, bytes) == Decode(e, Padded(bytes))
  {
    assert Padded(Padded(bytes)) == Padded(bytes);
  }

  /** A decoded `y` of p or more is rejected, whatever the engine. */
  lemma DecodeRejectsLargeY(e: EdwardsEngine, bytes: seq<byte>)
    requires |bytes| == PointSize && DecodedY(bytes) >= Prime
    ensures Decode(e, bytes) == Err(PointDecodeFailure)
  {
    assert Padded(bytes) == bytes;
  }

  /**
   * A decoded point re-encodes to the input bytes, except bit 7 of byte 31 when `x = 0` (the model
   * does not assume that `pointFromY` rejects an odd sign bit for `x = 0`).
   */
  lemma EncodeDecode(e: EdwardsEngine, bytes: seq<byte>)
    requires Lawful(e) && |bytes| == PointSize && Decode(e, bytes).Ok?
    ensures Encode(Decode(e, bytes).value)[..31] == bytes[..31]
    ensures Decode(e, bytes).value.x != 0 ==> Encode(Decode(e, bytes).value) == bytes
  {
    var q := Decode(e, bytes).value;
    assert Padded(bytes) == bytes;
    var b31 := bytes[31];
    var cleared := bytes[..31] + [AndAssign(b31, 0x7f)];
    assert q.y == LE(cleared);
    Pow2Known();
    ToLEOfLE(cleared);
    assert ToLE(q.y, PointSize) == cleared;
    EncodeLayout(q);
    if q.x != 0 {
      EncodeSignBit(q, b31);
      assert Encode(q) == Encode(q)[..31] + [Encode(q)[31]];
      assert bytes == bytes[..31] + [b31];
    }
  }

  /** Byte 31 of an encoding: the top byte of `y` plus the parity of `x` in bit 7. */
  lemma EncodeSignBit(q: EdPoint, b31: byte)
    requires q.y < Prime && ToLE(q.y, PointSize)[31] == AndAssign(b31, 0x7f)
    requires Parity(q) == b31 / 128
    ensures Encode(q)[31] == b31
  {
    ClearBit7(b31);
    FlipBit7(b31 % 128);
  }

  /** Two curve points are equal exactly when their encodings are. */
  lemma EncodeInjective(e: EdwardsEngine, q1: EdPoint, q2: EdPoint)
    requires Lawful(e) && OnCurve(q1) && OnCurve(q2)
    ensures Encode(q1) == Encode(q2) <==> q1 == q2
  {
    if Encode(q1) == Encode(q2) {
      DecodeEncode(e, q1);
      DecodeEncode(e, q2);
    }
  }

  // ---------------------------------------------------------------------------
  // Embedding data

  /** `embedLen()`: `floor((255 - 8 - 8) / 8)`, one byte for the length and one for randomness. */
  const EmbedLen: nat := (255 - 8 - 8) / 8

  lemma EmbedLenValue()
    ensures EmbedLen == 29
  {
  }

  /** The candidate bytes of one round of `embed`: the draw with, for a non-empty payload, its length in byte 0 and the payload after it. */
  function EmbedBytes(data: seq<byte>, draw: seq<byte>): (r: seq<byte>)
    requires |data| <= EmbedLen && |draw| == PointSize
    ensures |r| == PointSize
  {
    if |data| > 0 then [|data| as byte] + data + draw[|data| + 1..] else draw
  }

  /** `data()` on an encoding: bytes `[1, dl+1)` where `dl` is byte 0. */
  function DataOf(b: seq<byte>): (r: Result<seq<byte>>)
    requires |b| == PointSize
    ensures r.Err? <==> b[0] > EmbedLen
    ensures r.Err? ==> r.error == InvalidEmbeddedLength
    ensures r.Ok? ==> |r.value| == b[0] && r.value == b[1..b[0] + 1]
  {
    if b[0] > EmbedLen then Err(InvalidEmbeddedLength) else Ok(b[1..b[0] + 1])
  }

  /** The subgroup check as intended: the candidate's ℓ-multiple is the identity. */
  predicate InSubgroup(e: EdwardsEngine, q: EdPoint)
  {
    IsIdentity(e.mul(N, q))
  }

  /**
   * The subgroup check as written: `point_obj.clone()` goes through the constructor, which drops
   * coordinates that are not Uint8Arrays, so the check multiplies the fixed point `unset`.
   */
  predicate InSubgroupAsWritten(e: EdwardsEngine, q: EdPoint)
  {
    IsIdentity(e.mul(N, e.unset))
  }

  /** What one round of `embed` returns for a decoded candidate, if it accepts it. */
  function EmbedAccept(e: EdwardsEngine, data: seq<byte>, q: EdPoint): Option<EdPoint>
  {
    if |data| == 0 then
      var q8 := e.mul(8, q);
      if IsIdentity(q8) then None else Some(q8)
    else if InSubgroup(e, q) then Some(q)
    else None
  }

  /** The point `embed(data, callback)` returns, drawing 32 bytes per round; `None` if the stream runs out first. */
  function EmbedFrom(e: EdwardsEngine, data: seq<byte>, stream: seq<byte>): Option<EdPoint>
    requires |data| <= EmbedLen
    decreases |stream|
  {
    if |stream| < PointSize then None
    else
      var candidate := EmbedBytes(data, stream[..PointSize]);
      match Decode(e, candidate)
      case Err(_) => EmbedFrom(e, data, stream[PointSize..])
      case Ok(q) =>
        match EmbedAccept(e, data, q)
        case Some(r) => Some(r)
        case None => EmbedFrom(e, data, stream[PointSize..])
  }

  /** What one round of `embed` as written returns: the same as intended for an empty payload, else the fixed check. */
  function EmbedAcceptAsWritten(e: EdwardsEngine, data: seq<byte>, q: EdPoint): Option<EdPoint>
  {
    if |data| == 0 then EmbedAccept(e, data, q)
    else if InSubgroupAsWritten(e, q) then Some(q)
    else None
  }

  /** The point `embed(data, callback)` as written returns; `None` if the stream runs out first. */
  function EmbedFromAsWritten(e: EdwardsEngine, data: seq<byte>, stream: seq<byte>): Option<EdPoint>
    requires |data| <= EmbedLen
    decreases |stream|
  {
    if |stream| < PointSize then None
    else
      var candidate := EmbedBytes(data, stream[..PointSize]);
      match Decode(e, candidate)
      case Err(_) => EmbedFromAsWritten(e, data, stream[PointSize..])
      case Ok(q) =>
        match EmbedAcceptAsWritten(e, data, q)
        case Some(r) => Some(r)
        case None => EmbedFromAsWritten(e, data, stream[PointSize..])
  }

  /** The payload layout: `data()` of an accepted non-empty embedding gives the payload back. */
  lemma EmbedDataRoundTrip(e: EdwardsEngine, data: seq<byte>, draw: seq<byte>)
    requires Lawful(e) && 0 < |data| <= EmbedLen && |draw| == PointSize
    requires Decode(e, EmbedBytes(data, draw)).Ok?
    ensures DataOf(Encode(Decode(e, EmbedBytes(data, draw)).value)) == Ok(data)
  {
    var c := EmbedBytes(data, draw);
    var n := |data|;
    var b := Encode(Decode(e, c).value);
    assert b[..31] == c[..31] by { EncodeDecode(e, c); }
    assert c[0] == n && c[1..n + 1] == data;
    assert b[0] == n by { assert b[0] == b[..31][0]; }
    assert b[1..n + 1] == data by {
      assert b[1..n + 1] == b[..31][1..n + 1];
      assert c[1..n + 1] == c[..31][1..n + 1];
    }
  }

  /**
   * What `embed` returns: for a non-empty payload a decoded candidate in the subgroup that
   * carries the payload; for an empty one, 8 times a decoded candidate, not the identity.
   */
  lemma {:induction false} EmbedFromProperties(e: EdwardsEngine, data: seq<byte>, stream: seq<byte>)
    requires Lawful(e) && |data| <= EmbedLen && EmbedFrom(e, data, stream).Some?
    ensures |data| > 0 ==> DataOf(Encode(EmbedFrom(e, data, stream).value)) == Ok(data)
    ensures |data| > 0 ==> InSubgroup(e, EmbedFrom(e, data, stream).value)
    ensures |data| > 0 ==> OnCurve(EmbedFrom(e, data, stream).value)
    ensures |data| == 0 ==> !IsIdentity(EmbedFrom(e, data, stream).value)
    ensures |data| == 0 ==> exists q :: OnCurve(q) && EmbedFrom(e, data, stream).value == e.mul(8, q)
    decreases |stream|
  {
    var candidate := EmbedBytes(data, stream[..PointSize]);
    var rest := stream[PointSize..];
    match Decode(e, candidate)
    case Err(_) =>
      EmbedFromProperties(e, data, rest);
    case Ok(q) =>
      match EmbedAccept(e, data, q)
      case Some(r) =>
        DecodeOnCurve(e, candidate);
        if |data| > 0 {
          EmbedDataRoundTrip(e, data, stream[..PointSize]);
        }
      case None =>
        EmbedFromProperties(e, data, rest);
  }

  /** With an empty payload `embed` as written is `embed` as intended: scale by 8 and skip the identity. */
  lemma {:induction false} AsWrittenEmptyPayload(e: EdwardsEngine, stream: seq<byte>)
    ensures EmbedFromAsWritten(e, [], stream) == EmbedFrom(e, [], stream)
    decreases |stream|
  {
    if |stream| >= PointSize {
      AsWrittenEmptyPayload(e, stream[PointSize..]);
    }
  }

  /**
   * What `embed` as written returns for a non-empty payload: a decoded candidate that carries the
   * payload, and only when the fixed point `unset` passes the check; with an empty payload, what
   * `embed` as intended returns.
   */
  lemma {:induction false} EmbedFromAsWrittenProperties(e: EdwardsEngine, data: seq<byte>, stream: seq<byte>)
    requires Lawful(e) && |data| <= EmbedLen && EmbedFromAsWritten(e, data, stream).Some?
    ensures |data| > 0 ==> DataOf(Encode(EmbedFromAsWritten(e, data, stream).value)) == Ok(data)
    ensures |data| > 0 ==> OnCurve(EmbedFromAsWritten(e, data, stream).value)
    ensures |data| > 0 ==> IsIdentity(e.mul(N, e.unset))
    ensures |data| == 0 ==> EmbedFromAsWritten(e, data, stream) == EmbedFrom(e, data, stream)
    decreases |stream|
  {
    if |data| == 0 {
      assert data == [];
      AsWrittenEmptyPayload(e, stream);
    } else {
      var candidate := EmbedBytes(data, stream[..PointSize]);
      var rest := stream[PointSize..];
      match Decode(e, candidate)
      case Err(_) =>
        EmbedFromAsWrittenProperties(e, data, rest);
      case Ok(q) =>
        if InSubgroupAsWritten(e, q) {
          DecodeOnCurve(e, candidate);
          EmbedDataRoundTrip(e, data, stream[..PointSize]);
        } else {
          EmbedFromAsWrittenProperties(e, data, rest);
        }
    }
  }

  /** As written, when `unset` fails the check, `embed` of a non-empty payload accepts no candidate on any stream. */
  lemma {:induction false} AsWrittenNeverAccepts(e: EdwardsEngine, data: seq<byte>, stream: seq<byte>)
    requires 0 < |data| <= EmbedLen && !IsIdentity(e.mul(N, e.unset))
    ensures EmbedFromAsWritten(e, data, stream) == None
    decreases |stream|
  {
    if |stream| >= PointSize {
      AsWrittenNeverAccepts(e, data, stream[PointSize..]);
    }
  }

  /**
   * As written, when `unset` passes the check, `embed` of a non-empty payload returns the first
   * candidate that decodes, even one outside the prime-order subgroup, which `embed` as intended
   * never returns.
   */
  lemma AsWrittenAcceptsOutsideSubgroup(e: EdwardsEngine, data: seq<byte>, stream: seq<byte>, q: EdPoint)
    requires Lawful(e) && 0 < |data| <= EmbedLen && IsIdentity(e.mul(N, e.unset))
    requires |stream| >= PointSize && Decode(e, EmbedBytes(data, stream[..PointSize])) == Ok(q)
    requires !InSubgroup(e, q)
    ensures EmbedFromAsWritten(e, data, stream) == Some(q)
    ensures EmbedFrom(e, data, stream) != Some(q)
  {
    if EmbedFrom(e, data, stream).Some? {
      EmbedFromProperties(e, data, stream);
    }
  }

  /** Every decoded point is a curve point. */
  lemma DecodeOnCurve(e: EdwardsEngine, bytes: seq<byte>)
    requires Lawful(e) && Decode(e, bytes).Ok?
    ensures OnCurve(Decode(e, bytes).value)
  {
  }

  // ---------------------------------------------------------------------------
  // Point handles

  /** The object `ref` that point handles share. */
  class PointRef {
    var point: EdPoint

    constructor (q: EdPoint)
      ensures point == q
    {
      point := q;
    }
  }

  /** `Ed25519Point`: every operation writes `ref.point` and returns the receiver. */
  class Ed25519Point {
    var ref: PointRef
    const engine: EdwardsEngine

    /** `new Ed25519Point(curve)` with no coordinates; the same point results from `clone()`, whose coordinates are not Uint8Arrays. */
    constructor (e: EdwardsEngine)
      ensures engine == e && fresh(ref) && ref.point == e.unset
    {
      engine := e;
      ref := new PointRef(e.unset);
    }

    function Point(): EdPoint
      reads this, ref
    {
      ref.point
    }

    /** `marshalBinary`: writes `y` little-endian into a buffer, then flips bit 7 of byte 31 by the parity of `x`. */
    method MarshalBinary() returns (r: seq<byte>)
      ensures r == Encode(Point())
    {
      var q := ref.point;
      var le := ToLE(q.y, PointSize);
      var buffer := new byte[PointSize](i requires 0 <= i < PointSize => le[i]);
      buffer[31] := XorAssign(buffer[31], Parity(q) * 128);
      assert buffer[..31] == le[..31];
      return buffer[..];
    }

    /**
     * `unmarshalBinary`: copies the input over 32 zero bytes (throwing if it is longer), takes the sign
     * bit from byte 31 and clears it, rejects `y >= p`, and asks `pointFromY` for the point.
     * The receiver keeps its point when it throws.
     */
    method UnmarshalBinary(bytes: seq<byte>) returns (r: Outcome)
      modifies ref
      ensures ref == old(ref)
      ensures Decode(engine, bytes).Err? ==> r == Fail(Decode(engine, bytes).error) && Point() == old(Point())
      ensures Decode(engine, bytes).Ok? ==> r == Pass && Point() == Decode(engine, bytes).value
    {
      if |bytes| > PointSize {
        return Fail(InvalidEncoding);
      }
      var b := CopyPadded(bytes);
      var odd := b[31] / 128 == 1;
      b[31] := AndAssign(b[31], 0x7f);
      var y := LE(b[..]);
      assert b[..] == Padded(bytes)[..31] + [AndAssign(Padded(bytes)[31], 0x7f)];
      assert y == DecodedY(Padded(bytes)) && odd == (Padded(bytes)[31] / 128 == 1);
      if y >= Prime {
        return Fail(PointDecodeFailure);
      }
      var q := engine.pointFromY(y, odd);
      if q.None? {
        return Fail(PointNotOnCurve);
      }
      ref.point := q.value;
      return Pass;
    }

    /** `equal`: compares the two encodings byte by byte. */
    method Equal(p2: Ed25519Point) returns (r: bool)
      ensures r <==> Encode(Point()) == Encode(p2.Point())
    {
      var b1 := MarshalBinary();
      var b2 := p2.MarshalBinary();
      for i := 0 to 32
        invariant b1[..i] == b2[..i]
      {
        if b1[i] != b2[i] {
          return false;
        }
        assert b1[..i + 1] == b1[..i] + [b1[i]];
        assert b2[..i + 1] == b2[..i] + [b2[i]];
      }
      assert b1 == b1[..32] && b2 == b2[..32];
      return true;
    }

    /** `null`: the identity. */
    method Null() returns (r: Ed25519Point)
      modifies ref
      ensures r == this && ref == old(ref) && IsIdentity(Point())
    {
      ref.point := Identity;
      return this;
    }

    /** `base`: the base point. */
    method Base() returns (r: Ed25519Point)
      modifies ref
      ensures r == this && ref == old(ref) && Point() == engine.g
    {
      ref.point := engine.g;
      return this;
    }

    /** `set`: share `p`'s ref. */
    method Set(p: Ed25519Point) returns (r: Ed25519Point)
      modifies this
      ensures r == this && ref == old(p.ref)
    {
      ref := p.ref;
      return this;
    }

    /** `clone`: as written, a fresh point holding `unset` rather than this point. */
    method Clone() returns (r: Ed25519Point)
      ensures fresh(r) && fresh(r.ref) && r.engine == engine && r.Point() == engine.unset
    {
      r := new Ed25519Point(engine);
    }

    /** `add` */
    method Add(p1: Ed25519Point, p2: Ed25519Point) returns (r: Ed25519Point)
      modifies ref
      ensures r == this && ref == old(ref) && Point() == engine.add(old(p1.Point()), old(p2.Point()))
    {
      ref.point := engine.add(p1.ref.point, p2.ref.point);
      return this;
    }

    /** `sub`: adds the negation of `p2`. */
    method Sub(p1: Ed25519Point, p2: Ed25519Point) returns (r: Ed25519Point)
      modifies ref
      ensures r == this && ref == old(ref)
      ensures Point() == engine.add(old(p1.Point()), engine.neg(old(p2.Point())))
    {
      ref.point := engine.add(p1.ref.point, engine.neg(p2.ref.point));
      return this;
    }

    /** `neg` */
    method Neg(p: Ed25519Point) returns (r: Ed25519Point)
      modifies ref
      ensures r == this && ref == old(ref) && Point() == engine.neg(old(p.Point()))
    {
      ref.point := engine.neg(p.ref.point);
      return this;
    }

    /** `mul(s, p)`: `p` times the scalar's value, or the base point's multiple when `p` is omitted. */
    method Mul(s: Edwards25519Scalar.Ed25519Scalar, p: Option<Ed25519Point>) returns (r: Ed25519Point)
      modifies ref
      ensures r == this && ref == old(ref)
      ensures p.None? ==> Point() == engine.mul(old(s.Value()), engine.g)
      ensures p.Some? ==> Point() == engine.mul(old(s.Value()), old(p.value.Point()))
    {
      var k := s.ref.arr;
      if p.Some? {
        ref.point := engine.mul(k, p.value.ref.point);
      } else {
        ref.point := engine.mul(k, engine.g);
      }
      return this;
    }

    /** `data()`: the payload an encoding carries. */
    method Data() returns (r: Result<seq<byte>>)
      ensures r == DataOf(Encode(Point()))
    {
      var bytes := MarshalBinary();
      var dl := bytes[0];
      if dl > EmbedLen {
        return Err(InvalidEmbeddedLength);
      }
      return Ok(bytes[1..dl + 1]);
    }

    /**
     * `embed(data, callback)`: draws 32 bytes per round, writes the payload in, and keeps the first
     * candidate that decodes and passes the check of its kind. For a non-empty payload that check
     * multiplies `clone()` of the candidate by ℓ, and the clone holds `unset`. The receiver is not
     * changed. `Ok(None)` when the stream runs out first.
     */
    method Embed(data: seq<byte>, stream: seq<byte>) returns (r: Result<Option<Ed25519Point>>)
      ensures |data| > EmbedLen ==> r == Err(DataTooLong)
      ensures |data| <= EmbedLen ==> r.Ok? && (r.value.None? <==> EmbedFromAsWritten(engine, data, stream).None?)
      ensures r.Ok? && r.value.Some? ==>
        fresh(r.value.value) && fresh(r.value.value.ref) && r.value.value.engine == engine &&
        r.value.value.Point() == EmbedFromAsWritten(engine, data, stream).value
    {
      var dl := EmbedLen;
      if |data| > dl {
        return Err(DataTooLong);
      }
      if dl > |data| {
        dl := |data|;
      }
      var pointObj := new Ed25519Point(engine);
      var used := 0;
      while used + PointSize <= |stream|
        invariant used <= |stream|
        invariant EmbedFromAsWritten(engine, data, stream) == EmbedFromAsWritten(engine, data, stream[used..])
        invariant fresh(pointObj) && fresh(pointObj.ref) && pointObj.engine == engine
        decreases |stream| - used
      {
        var rest := stream[used..];
        var bytes := FillCandidate(data, rest[..PointSize]);
        used := used + PointSize;
        assert rest[PointSize..] == stream[used..];
        var outcome := pointObj.UnmarshalBinary(bytes);
        if outcome.Fail? {
          continue;
        }
        if dl == 0 {
          pointObj.ref.point := engine.mul(8, pointObj.ref.point);
          if IsIdentity(pointObj.ref.point) {
            continue;
          }
          return Ok(Some(pointObj));
        }
        var q := pointObj.Clone();
        q.ref.point := engine.mul(N, q.ref.point);
        if IsIdentity(q.ref.point) {
          return Ok(Some(pointObj));
        }
      }
      return Ok(None);
    }
  }

  /** `new Uint8Array(32)` followed by `set(bytes, 0)`. */
  method CopyPadded(bytes: seq<byte>) returns (b: array<byte>)
    requires |bytes| <= PointSize
    ensures fresh(b) && b[..] == Padded(bytes)
  {
    b := new byte[PointSize](_ => 0);
    for i := 0 to |bytes|
      invariant b[..] == bytes[..i] + Zeros(PointSize - i)
    {
      b[i] := bytes[i];
      assert bytes[..i + 1] == bytes[..i] + [bytes[i]];
    }
    assert bytes[..|bytes|] == bytes;
  }

  /** One round's buffer: `bytes[0] = dl; bytes.set(data, 1)` on a copy of the draw when the payload is non-empty. */
  method FillCandidate(data: seq<byte>, draw: seq<byte>) returns (r: seq<byte>)
    requires |data| <= EmbedLen && |draw| == PointSize
    ensures r == EmbedBytes(data, draw)
  {
    var bytes := new byte[PointSize](i requires 0 <= i < PointSize => draw[i]);
    if |data| > 0 {
      bytes[0] := |data|;
      for i := 0 to |data|
        invariant bytes[0] == |data|
        invariant forall j :: 0 <= j < i ==> bytes[j + 1] == data[j]
        invariant forall j :: i < j < PointSize ==> bytes[j] == draw[j]
      {
        bytes[i + 1] := data[i];
      }
      var want := EmbedBytes(data, draw);
      assert want == [|data| as byte] + data + draw[|data| + 1..];
      forall j | 0 <= j < PointSize
        ensures bytes[j] == want[j]
      {
        if 0 < j <= |data| {
          assert bytes[(j - 1) + 1] == data[j - 1];
        }
      }
    }
    return bytes[..];
  }

  /** `pick(callback)`: `embed` with an empty payload. */
  method Pick(p: Ed25519Point, stream: seq<byte>) returns (r: Option<Ed25519Point>)
    ensures r.None? <==> EmbedFrom(p.engine, [], stream).None?
    ensures r.Some? ==> fresh(r.value) && r.value.Point() == EmbedFrom(p.engine, [], stream).value
  {
    var e := p.Embed([], stream);
    AsWrittenEmptyPayload(p.engine, stream);
    return e.value;
  }
}
