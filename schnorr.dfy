/**
 * Schnorr signatures over any group suite: `Sign` gives `R ‖ s` with `R = r·G` and
 * `s = x·c + r mod n`, where `c` hashes `R ‖ X ‖ m` with SHA-512; `Verify` checks the length,
 * decodes both parts, and compares `s·G` with `c·X + R`.
 */
module Schnorr {
  import opened Bytes
  import opened Wrappers
  import opened Group
  import Modular

  /** The bytes that successive `update` calls feed to the hash, in order. */
  function Concat(inputs: seq<seq<byte>>): (r: seq<byte>)
  {
    if inputs == [] then [] else Concat(inputs[..|inputs| - 1]) + inputs[|inputs| - 1]
  }

  /** Three inputs are hashed as their concatenation, first to last. */
  lemma ConcatThree(a: seq<byte>, b: seq<byte>, c: seq<byte>)
    ensures Concat([a, b, c]) == a + b + c
  {
    assert [a, b, c][..2] == [a, b];
    assert [a, b][..1] == [a];
    assert [a][..0] == [];
    assert Concat([a]) == a;
    assert Concat([a, b]) == Concat([a]) + b;
    assert Concat([a, b, c]) == Concat([a, b]) + c;
  }

  /** The challenge `setBytes(SHA512(R ‖ X ‖ m))`. */
  function Challenge<P>(s: Suite<P>, sha512: seq<byte> -> Digest, buffR: seq<byte>, buffPub: seq<byte>, message: seq<byte>): nat
  {
    s.fromBytes(sha512(buffR + buffPub + message))
  }

  /** `hashSchnorr(suite, ...inputs)`: feeds each input to one SHA-512 state, then reduces the digest to a scalar. */
  method HashSchnorr<P>(s: Suite<P>, sha512: seq<byte> -> Digest, inputs: seq<seq<byte>>) returns (c: nat)
    ensures c == s.fromBytes(sha512(Concat(inputs)))
  {
    var fed: seq<byte> := [];
    for i := 0 to |inputs|
      invariant fed == Concat(inputs[..i])
    {
      fed := fed + inputs[i];
      assert inputs[..i + 1][..i] == inputs[..i];
    }
    assert inputs[..|inputs|] == inputs;
    c := s.fromBytes(sha512(fed));
  }

  /** The signature `Sign` produces for private key `x` and nonce `r`, or the error marshalling throws. */
  function Signature<P>(s: Suite<P>, sha512: seq<byte> -> Digest, x: nat, message: seq<byte>, r: nat): Result<seq<byte>>
    requires s.order > 0
  {
    match s.marshalPoint(s.mul(r, s.base))
    case Err(e) => Err(e)
    case Ok(buffR) =>
      match s.marshalPoint(s.mul(x, s.base))
      case Err(e) => Err(e)
      case Ok(buffPub) =>
        var c := Challenge(s, sha512, buffR, buffPub, message);
        var sig := ((x * c) % s.order + r) % s.order;
        Ok(buffR + s.marshalScalar(sig))
  }

  /**
   * `Sign(suite, privateKey, message)`: `r` is the nonce `suite.scalar().pick()` draws. The
   * signature is `marshal(R) ‖ marshal(s)`, written into a fresh buffer with `set`.
   */
  method Sign<P>(s: Suite<P>, sha512: seq<byte> -> Digest, privateKey: nat, message: seq<byte>, r: nat) returns (sig: Result<seq<byte>>)
    requires s.order > 0
    ensures sig == Signature(s, sha512, privateKey, message, r)
  {
    var bigR := s.mul(r, s.base);
    var marshalledR := s.marshalPoint(bigR);
    if marshalledR.Err? {
      return Err(marshalledR.error);
    }
    var buffR := marshalledR.value;
    var pub := s.mul(privateKey, s.base);
    var marshalledPub := s.marshalPoint(pub);
    if marshalledPub.Err? {
      return Err(marshalledPub.error);
    }
    var challenge := HashSchnorr(s, sha512, [buffR, marshalledPub.value, message]);
    ConcatThree(buffR, marshalledPub.value, message);
    var sc := (privateKey * challenge) % s.order;
    sc := (sc + r) % s.order;
    var buffS := s.marshalScalar(sc);
    var buffSig := Join(buffR, buffS);
    return Ok(buffSig);
  }

  /** `new Uint8Array(a.length + b.length)`, then `set(a)` and `set(b, a.length)`. */
  method Join(a: seq<byte>, b: seq<byte>) returns (r: seq<byte>)
    ensures r == a + b
  {
    var buffSig := new byte[|a| + |b|](_ => 0);
    for i := 0 to |a|
      invariant buffSig[..i] == a[..i]
    {
      buffSig[i] := a[i];
      assert buffSig[..i + 1] == buffSig[..i] + [buffSig[i]];
      assert a[..i + 1] == a[..i] + [a[i]];
    }
    for i := 0 to |b|
      invariant buffSig[..|a|] == a
      invariant buffSig[|a|..|a| + i] == b[..i]
    {
      buffSig[|a| + i] := b[i];
      assert b[..i + 1] == b[..i] + [b[i]];
    }
    assert buffSig[..] == buffSig[..|a|] + buffSig[|a|..|a| + |b|];
    return buffSig[..];
  }

  /** A signature under a lawful suite: `marshal(r·G)` then `marshal(x·c + r mod n)`, of total length `pointLen + scalarLen`. */
  lemma SignatureLayout<P(!new)>(s: Suite<P>, sha512: seq<byte> -> Digest, x: nat, message: seq<byte>, r: nat)
    requires Lawful(s)
    ensures Signature(s, sha512, x, message, r).Ok?
    ensures var sig := Signature(s, sha512, x, message, r).value;
      var buffR := s.marshalPoint(s.mul(r, s.base)).value;
      var c := Challenge(s, sha512, buffR, s.marshalPoint(s.mul(x, s.base)).value, message);
      |sig| == s.pointLen + s.scalarLen &&
      sig[..s.pointLen] == buffR &&
      sig[s.pointLen..] == s.marshalScalar((x * c + r) % s.order)
  {
    var buffR := s.marshalPoint(s.mul(r, s.base)).value;
    var c := Challenge(s, sha512, buffR, s.marshalPoint(s.mul(x, s.base)).value, message);
    Modular.AddModLeft(x * c, r, s.order);
    var sc := (x * c + r) % s.order;
    assert |s.marshalScalar(sc)| == s.scalarLen;
  }

  /** What `Verify` returns, or the error it throws while decoding. */
  function Verification<P>(s: Suite<P>, sha512: seq<byte> -> Digest, publicKey: P, message: seq<byte>, signature: seq<byte>): (r: Result<bool>)
    ensures |signature| != s.pointLen + s.scalarLen ==> r == Ok(false)
  {
    var plen := s.pointLen;
    if |signature| != plen + s.scalarLen then Ok(false)
    else
      var buffR := signature[..plen];
      match s.decodePoint(buffR)
      case Err(e) => Err(e)
      case Ok(bigR) =>
        match s.decodeScalar(signature[plen..])
        case Err(e) => Err(e)
        case Ok(sc) =>
          match s.marshalPoint(publicKey)
          case Err(e) => Err(e)
          case Ok(buffPub) =>
            var c := Challenge(s, sha512, buffR, buffPub, message);
            Ok(s.equal(s.add(s.mul(c, publicKey), bigR), s.mul(sc, s.base)))
  }

  /** `Verify(suite, publicKey, message, signature)`, through the mutating handles of the interfaces. */
  method Verify<P>(s: Suite<P>, sha512: seq<byte> -> Digest, publicKey: P, message: seq<byte>, signature: seq<byte>) returns (r: Result<bool>)
    ensures r == Verification(s, sha512, publicKey, message, signature)
  {
    var plen := s.pointLen;
    var slen := s.scalarLen;
    var totalSize := plen + slen;
    if |signature| != totalSize {
      return Ok(false);
    }
    var buffR := signature[..plen];
    var decodedR := s.decodePoint(buffR);
    if decodedR.Err? {
      return Err(decodedR.error);
    }
    var buffs := signature[plen..|signature|];
    assert buffs == signature[plen..];
    var decodedS := s.decodeScalar(buffs);
    if decodedS.Err? {
      return Err(decodedS.error);
    }
    var marshalledPub := s.marshalPoint(publicKey);
    if marshalledPub.Err? {
      return Err(marshalledPub.error);
    }
    var challenge := HashSchnorr(s, sha512, [buffR, marshalledPub.value, message]);
    ConcatThree(buffR, marshalledPub.value, message);
    var left := s.mul(decodedS.value, s.base);
    var right := s.mul(challenge, publicKey);
    right := s.add(right, decodedR.value);
    if !s.equal(right, left) {
      return Ok(false);
    }
    return Ok(true);
  }

  /** Correctness: a signature made with private key `x` verifies under the public key `x·G`. */
  lemma SignThenVerify<P(!new)>(s: Suite<P>, sha512: seq<byte> -> Digest, x: nat, message: seq<byte>, r: nat)
    requires Lawful(s) && x < s.order && r < s.order
    ensures Signature(s, sha512, x, message, r).Ok?
    ensures Verification(s, sha512, s.mul(x, s.base), message, Signature(s, sha512, x, message, r).value) == Ok(true)
  {
    SignatureLayout(s, sha512, x, message, r);
    var n := s.order;
    var g := s.base;
    var pub := s.mul(x, g);
    var buffR := s.marshalPoint(s.mul(r, g)).value;
    var buffPub := s.marshalPoint(pub).value;
    var c := Challenge(s, sha512, buffR, buffPub, message);
    var sc := (x * c + r) % n;
    var sig := Signature(s, sha512, x, message, r).value;
    assert s.decodePoint(sig[..s.pointLen]) == Ok(s.mul(r, g));
    assert s.decodeScalar(sig[s.pointLen..]) == Ok(sc);
    calc {
      s.add(s.mul(c, pub), s.mul(r, g));
      s.add(s.mul((c * x) % n, g), s.mul(r, g));
      s.mul(((c * x) % n + r) % n, g);
      { Modular.AddModLeft(c * x, r, n); assert c * x == x * c; }
      s.mul(sc, g);
    }
  }

  /**
   * In the group of exponents, where a point is its logarithm, a well-formed signature `(R, s)`
   * verifies under `X` exactly when `s ≡ c·X + R (mod n)`: the equation `s·G == c·X + R`.
   */
  lemma VerifyEquation(n: nat, len: nat, sha512: seq<byte> -> Digest, publicKey: nat, message: seq<byte>, signature: seq<byte>)
    requires 1 < n <= Pow2(8 * len)
    requires Verification(ExponentSuite(n, len), sha512, publicKey, message, signature).Ok?
    requires |signature| == 2 * len
    ensures var es := ExponentSuite(n, len);
      var bigR := LE(signature[..len]);
      var sc := LE(signature[len..]) % n;
      var c := Challenge(es, sha512, signature[..len], ToLE(publicKey, len), message);
      Verification(es, sha512, publicKey, message, signature).value <==> sc == (c * publicKey + bigR) % n
  {
    var es := ExponentSuite(n, len);
    var bigR := LE(signature[..len]);
    var sc := LE(signature[len..]) % n;
    var c := Challenge(es, sha512, signature[..len], ToLE(publicKey, len), message);
    assert es.decodePoint(signature[..len]) == Ok(bigR);
    assert es.decodeScalar(signature[len..]) == Ok(sc);
    assert es.mul(sc, 1) == sc by { DivModUnique(sc, n, 0, sc); }
    assert es.add(es.mul(c, publicKey), bigR) == (c * publicKey + bigR) % n by {
      Modular.AddModLeft(c * publicKey, bigR, n);
    }
  }
}
