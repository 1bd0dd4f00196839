/**
 * Scalars of the Ed25519 group (`Ed25519Scalar`): values modulo the prime order ℓ of the
 * base point, held in a shared `ref` object that every operation overwrites in place.
 */
module Edwards25519Scalar {
  import opened Bytes
  import opened Wrappers
  import Modular
  import Random

  /** ℓ = 2^252 + 27742317777372353535851937790883648493, the order of the Ed25519 base point (section 5.1 of RFC 8032). */
  const L: nat := 7237005577332262213973186563042994240857116359379907606001950938285454250989

  /** The length of an encoded scalar. */
  const MarshalSize: nat := 32

  // ---------------------------------------------------------------------------
  // Arithmetic of the reduction context `BN.red(ℓ)` on reduced values

  /** `redAdd`: the sum with one conditional subtraction of ℓ. */
  function AddMod(a: nat, b: nat): (r: nat)
    requires a < L && b < L
    ensures r == (a + b) % L
  {
    if a + b >= L then a + b - L else a + b
  }

  /** `redSub`: the difference with one conditional addition of ℓ. */
  function SubMod(a: nat, b: nat): (r: nat)
    requires a < L && b < L
    ensures r == (a - b) % L
  {
    if a >= b then a - b else a - b + L
  }

  /** `redNeg`: the additive inverse. */
  function NegMod(a: nat): (r: nat)
    requires a < L
    ensures r < L && (a + r) % L == 0
  {
    if a == 0 then 0 else L - a
  }

  /** `redMul`: the product, reduced. */
  function MulMod(a: nat, b: nat): (r: nat)
    ensures r < L
  {
    (a * b) % L
  }

  /** `redInvm`: the multiplicative inverse, where one exists. */
  function InvMod(a: nat): (r: nat)
    ensures r < L
    ensures Modular.Gcd(a % L, L) == 1 ==> MulMod(a, r) == 1
  {
    Modular.Inverse(a, L)
  }

  /** `a.redMul(b.redInvm())`: division. */
  function DivMod(a: nat, b: nat): (r: nat)
    ensures r < L
    ensures Modular.Gcd(b % L, L) == 1 ==> MulMod(r, b) == a % L
  {
    var q := MulMod(a, InvMod(b));
    DivCorrect(a, b);
    q
  }

  lemma DivCorrect(a: nat, b: nat)
    ensures Modular.Gcd(b % L, L) == 1 ==> MulMod(MulMod(a, InvMod(b)), b) == a % L
  {
    if Modular.Gcd(b % L, L) == 1 {
      Modular.MulInverseCancels(a, b, InvMod(b), L);
    }
  }

  /** Subtraction undoes addition. */
  lemma SubAfterAdd(a: nat, b: nat)
    requires a < L && b < L
    ensures SubMod(AddMod(a, b), b) == a
  {
  }

  /** Negation is subtraction from zero, and negating twice gives the value back. */
  lemma NegProperties(a: nat)
    requires a < L
    ensures NegMod(a) == SubMod(0, a)
    ensures NegMod(NegMod(a)) == a
    ensures AddMod(a, NegMod(a)) == 0
  {
  }

  // ---------------------------------------------------------------------------
  // Encoding: 32 bytes, little-endian

  /** `fromRed().toArray("le", 32)` */
  function Encode(v: nat): (r: seq<byte>)
    ensures |r| == MarshalSize
  {
    ToLE(v, MarshalSize)
  }

  /** `new BN(bytes, 16, "le").toRed(red)`: any-length little-endian input, reduced mod ℓ (`setBytes`). */
  function FromBytes(bytes: seq<byte>): (r: nat)
    ensures r < L
  {
    LE(bytes) % L
  }

  /** `unmarshalBinary`: at most 32 bytes, read little-endian and reduced mod ℓ. */
  function Decode(bytes: seq<byte>): (r: Result<nat>)
    ensures r.Err? <==> |bytes| > MarshalSize
    ensures r.Err? ==> r.error == InvalidScalarEncoding
    ensures r.Ok? ==> r.value == FromBytes(bytes)
  {
    if |bytes| > MarshalSize then Err(InvalidScalarEncoding) else Ok(FromBytes(bytes))
  }

  /** Encoding a reduced value gives its little-endian bytes, which decode back to it. */
  lemma DecodeEncode(v: nat)
    requires v < L
    ensures LE(Encode(v)) == v
    ensures Decode(Encode(v)) == Ok(v)
  {
    assert v < Pow2(8 * MarshalSize) by { Pow2Known(); }
    LEOfToLE(v, MarshalSize);
    DivModUnique(v, L, 0, v);
  }

  /** Two reduced values with the same encoding are equal. */
  lemma EncodeInjective(v: nat, w: nat)
    requires v < L && w < L && Encode(v) == Encode(w)
    ensures v == w
  {
    DecodeEncode(v);
    DecodeEncode(w);
  }

  // ---------------------------------------------------------------------------
  // Scalar handles

  /** The object `ref` that handles share: the value in the reduction context mod ℓ. */
  class ScalarRef {
    var arr: nat

    constructor (v: nat)
      ensures arr == v
    {
      arr := v;
    }
  }

  /**
   * `Ed25519Scalar`. Every operation writes the new value into `ref` and returns the receiver;
   * `set` makes two handles share one `ref`.
   */
  class Ed25519Scalar {
    var ref: ScalarRef

    /** The stored value is reduced. */
    ghost predicate Valid()
      reads this, ref
    {
      ref.arr < L
    }

    function Value(): nat
      reads this, ref
    {
      ref.arr
    }

    /** `new Ed25519Scalar(curve, red)`: a fresh ref holding 0. */
    constructor ()
      ensures Valid() && Value() == 0 && fresh(ref)
    {
      ref := new ScalarRef(0);
    }

    /** `marshalBinary` */
    function MarshalBinary(): (r: seq<byte>)
      reads this, ref
      ensures |r| == MarshalSize
      ensures Valid() ==> LE(r) == Value()
    {
      DecodeEncodeIf(Value());
      Encode(Value())
    }

    /** `unmarshalBinary`: throws on more than 32 bytes and then leaves the value as it was. */
    method UnmarshalBinary(bytes: seq<byte>) returns (r: Outcome)
      requires Valid()
      modifies ref
      ensures ref == old(ref) && Valid()
      ensures r.Fail? <==> |bytes| > MarshalSize
      ensures Decode(bytes).Err? ==> r == Fail(Decode(bytes).error) && ref.arr == old(ref.arr)
      ensures Decode(bytes).Ok? ==> r == Pass && ref.arr == Decode(bytes).value
    {
      if |bytes| > MarshalSize {
        return Fail(InvalidScalarEncoding);
      }
      ref.arr := FromBytes(bytes);
      return Pass;
    }

    /** `equal`: the reduced values agree; for valid scalars, exactly when their encodings do. */
    predicate Equal(s2: Ed25519Scalar): (r: bool)
      reads this, ref, s2, s2.ref
      ensures Valid() && s2.Valid() ==> (r <==> MarshalBinary() == s2.MarshalBinary())
    {
      EncodeInjectiveIf(Value(), s2.Value());
      Value() == s2.Value()
    }

    /** `set`: share `a`'s ref. */
    method Set(a: Ed25519Scalar) returns (r: Ed25519Scalar)
      modifies this
      ensures r == this && ref == a.ref && ref == old(a.ref)
    {
      ref := a.ref;
      return this;
    }

    /** `clone`: a fresh scalar set from the minimal little-endian bytes of the value. */
    method Clone() returns (r: Ed25519Scalar)
      requires Valid()
      ensures fresh(r) && fresh(r.ref) && r.Valid() && r.Value() == Value()
    {
      var v := Value();
      var bytes := ToLE(v, MinBytes(v));
      MinimalBytesBack(v);
      r := new Ed25519Scalar();
      r := r.SetBytes(bytes);
    }

    /** `zero` */
    method Zero() returns (r: Ed25519Scalar)
      modifies ref
      ensures r == this && ref == old(ref) && Valid() && Value() == 0
    {
      ref.arr := 0;
      return this;
    }

    /** `one` */
    method One() returns (r: Ed25519Scalar)
      modifies ref
      ensures r == this && ref == old(ref) && Valid() && Value() == 1
    {
      ref.arr := 1;
      return this;
    }

    /** `add`: the operands are read before the receiver's ref is written, so they may share it. */
    method Add(a: Ed25519Scalar, b: Ed25519Scalar) returns (r: Ed25519Scalar)
      requires a.Valid() && b.Valid()
      modifies ref
      ensures r == this && ref == old(ref) && Valid()
      ensures Value() == (old(a.Value()) + old(b.Value())) % L
    {
      ref.arr := AddMod(a.ref.arr, b.ref.arr);
      return this;
    }

    /** `sub` */
    method Sub(a: Ed25519Scalar, b: Ed25519Scalar) returns (r: Ed25519Scalar)
      requires a.Valid() && b.Valid()
      modifies ref
      ensures r == this && ref == old(ref) && Valid()
      ensures Value() == (old(a.Value()) - old(b.Value())) % L
    {
      ref.arr := SubMod(a.ref.arr, b.ref.arr);
      return this;
    }

    /** `neg` */
    method Neg(a: Ed25519Scalar) returns (r: Ed25519Scalar)
      requires a.Valid()
      modifies ref
      ensures r == this && ref == old(ref) && Valid()
      ensures (old(a.Value()) + Value()) % L == 0
    {
      ref.arr := NegMod(a.ref.arr);
      return this;
    }

    /** `mul` */
    method Mul(s1: Ed25519Scalar, s2: Ed25519Scalar) returns (r: Ed25519Scalar)
      modifies ref
      ensures r == this && ref == old(ref) && Valid()
      ensures Value() == (old(s1.Value()) * old(s2.Value())) % L
    {
      ref.arr := MulMod(s1.ref.arr, s2.ref.arr);
      return this;
    }

    /** `div`: multiplication by the inverse of `s2`. */
    method Div(s1: Ed25519Scalar, s2: Ed25519Scalar) returns (r: Ed25519Scalar)
      modifies ref
      ensures r == this && ref == old(ref) && Valid()
      ensures Value() == DivMod(old(s1.Value()), old(s2.Value()))
      ensures Modular.Gcd(old(s2.Value()) % L, L) == 1 ==> MulMod(Value(), old(s2.Value())) == old(s1.Value()) % L
    {
      ref.arr := DivMod(s1.ref.arr, s2.ref.arr);
      return this;
    }

    /** `inv` */
    method Inv(a: Ed25519Scalar) returns (r: Ed25519Scalar)
      modifies ref
      ensures r == this && ref == old(ref) && Valid()
      ensures Value() == InvMod(old(a.Value()))
      ensures Modular.Gcd(old(a.Value()) % L, L) == 1 ==> MulMod(old(a.Value()), Value()) == 1
    {
      ref.arr := InvMod(a.ref.arr);
      return this;
    }

    /**
     * `pick`: `int(ℓ, callback)` read big-endian. `None` when the stream runs out before a
     * draw is accepted; the value is then unchanged.
     */
    method Pick(stream: seq<byte>) returns (r: Option<Ed25519Scalar>)
      requires Valid()
      modifies ref
      ensures ref == old(ref) && Valid()
      ensures Random.IntFrom(L, stream).None? <==> r == None
      ensures r == None ==> Value() == old(Value())
      ensures r.Some? ==> r.value == this && 0 < Value() < L
      ensures r.Some? ==> Value() == BE(Random.IntFrom(L, stream).value.0)
    {
      var bytes, used := Random.Int(L, stream);
      if bytes == None {
        return None;
      }
      var v := BE(bytes.value);
      assert 0 < v < L && v % L == v by { DivModUnique(v, L, 0, v); }
      ref.arr := v % L;
      return Some(this);
    }

    /** `setBytes`: any-length little-endian input, reduced mod ℓ. */
    method SetBytes(bytes: seq<byte>) returns (r: Ed25519Scalar)
      modifies ref
      ensures r == this && ref == old(ref) && Valid()
      ensures Value() == FromBytes(bytes)
    {
      ref.arr := FromBytes(bytes);
      return this;
    }
  }

  /** A reduced value survives its minimal little-endian bytes and `setBytes`. */
  lemma MinimalBytesBack(v: nat)
    requires v < L
    ensures FromBytes(ToLE(v, MinBytes(v))) == v
  {
    MinBytesFits(v);
    LEOfToLE(v, MinBytes(v));
    DivModUnique(v, L, 0, v);
  }

  lemma EncodeInjectiveIf(v: nat, w: nat)
    ensures v < L && w < L ==> (Encode(v) == Encode(w) <==> v == w)
  {
    if v < L && w < L && Encode(v) == Encode(w) {
      EncodeInjective(v, w);
    }
  }

  lemma DecodeEncodeIf(v: nat)
    ensures v < L ==> LE(Encode(v)) == v
  {
    if v < L { DecodeEncode(v); }
  }

  /** After `s.set(a)`, a write through `s` is seen through `a`. */
  method SetThenWrite(s: Ed25519Scalar, a: Ed25519Scalar, x: Ed25519Scalar, y: Ed25519Scalar)
    requires x.Valid() && y.Valid() && x != s && y != s
    modifies s, a.ref
    ensures s.ref == a.ref && a.Value() == (old(x.Value()) + old(y.Value())) % L
  {
    var _ := s.Set(a);
    var _ := s.Add(x, y);
  }
}
