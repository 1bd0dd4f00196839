# kyber (TypeScript) group arithmetic, modelled in Dafny

This project models the core of the TypeScript `kyber` library: the two prime-order groups it ships (Ed25519 and the short Weierstrass NIST-style curves), their scalars and points with byte codecs, the rejection-sampling helpers that draw random values, and Schnorr signatures written against the abstract `Group`/`Scalar`/`Point` interfaces.

The parts and their mapping:

- `random.dfy` (`Random`) covers `bits` and `int`. The random callback is a byte stream, and each call takes the next `length` bytes. The source loops until a draw is accepted. In the model such a loop ends with `None` once the stream is exhausted, and the lemmas say which draw is returned: the first one accepted.
- `ed25519_scalar.dfy` (`Edwards25519Scalar`) covers `Ed25519Scalar`: values mod ℓ held in a shared `ScalarRef` object. Every operation overwrites that object and returns the receiver, and `set` aliases it.
- `ed25519_point.dfy` (`Edwards25519Point`) covers `Ed25519Point`:
  - the 32-byte compressed encoding of section 5.1.2 of RFC 8032;
  - the `embed`/`data` payload layout;
  - the `embed` retry loop.

  The elliptic library's curve (`pointFromY`, the group law, scalar multiplication) is an `EdwardsEngine` value with axioms in `Lawful`.
- `ed25519_curve.dfy` (`Edwards25519Curve`) covers the `Ed25519` group object:
  - its lengths and factories;
  - `newKey`'s clamp, as written and compared with section 5.1.5 of RFC 8032;
  - Ed25519 packaged as a group suite, for which Schnorr signatures are proved correct.
- `nist_curve.dfy` (`NistCurve`) covers the `Weierstrass` group: option conversion, `coordLen`/`scalarLen`/`pointLen`, and the curve equation. elliptic's short-curve engine is abstract (`WeierstrassEngine` with `Lawful`).
- `nist_point.dfy` (`NistPoint`) covers `NistPoint`:
  - the uncompressed encoding of section 4.3.6 of ANSI X9.62;
  - `unmarshalBinary` with its curve check;
  - embedding a payload in the x coordinate, with the JavaScript semantics of typed arrays;
  - the group operations.
- `group.dfy` (`Group`) gives the `Group`/`Scalar`/`Point` interfaces as a `Suite` value of function fields. `Lawful` gives the laws of a prime-order group whose codecs round-trip. It also builds the exponent group, where a point is its discrete logarithm, as a suite that meets `Lawful`.
- `schnorr.dfy` (`Schnorr`) covers `Sign`, `Verify` and `hashSchnorr` over any suite. SHA-512 is an uninterpreted function `seq<byte> -> Digest`.
- `bytes.dfy`, `modular.dfy` and `wrappers.dfy` hold helpers:
  - little- and big-endian conversion;
  - bytewise `&`, `|`, `^`;
  - the extended Euclidean inverse behind `redInvm`;
  - `Option`/`Result`/`Outcome`.

  A thrown exception is an `Err`/`Fail` carrying an `Error` tag.

Some behaviour of the code differs from what its comments or the standards promise. The model reproduces that behaviour and flags it:

- **Seven discrepancies are proved about the model:**
  - **The `newKey` clamp zeroes byte 31** (curve.ts:68-69). `Edwards25519Curve.ClampAsWrittenBytes` proves it. `Edwards25519Curve.ClampDiffers` shows that this byte never agrees with the RFC 8032 clamp.
  - **`newKey` hands all 64 digest bytes to `setBytes`** (curve.ts:66,71). This is stated by `Edwards25519Curve.Ed25519.NewKey`.
  - **The `newKey` key need not be a multiple of 8** (curve.ts:58-60 promise one). The clamped 64 bytes are a multiple of 8 (`Edwards25519Curve.ClampAsWrittenMultipleOf8`), but `setBytes` reduces them mod ℓ. `Edwards25519Curve.ClampedKeyNotMultipleOf8` gives a digest whose key is 5 mod 8.
  - **The Ed25519 `embed` subgroup check tests a fixed point** (edwards25519/point.ts:143-146). `clone()` drops the candidate's coordinates, so the check multiplies `unset`. `Edwards25519Point.Ed25519Point.Embed` does this, as written. `Edwards25519Point.AsWrittenNeverAccepts` and `Edwards25519Point.AsWrittenAcceptsOutsideSubgroup` show the two outcomes; see "## Findings".
  - **NIST `embed` draws `bitLength(p) >> 3` bytes but writes the length byte at `coordLen() - 1`** (nist/point.ts:151,160). When the draw is one byte short, as for a 521-bit `p` in 66-byte coordinates, the length byte is dropped (`NistPoint.ShortCandidate`). A payload whose last byte is not its length then never comes back through `data()` (`NistPoint.EmbedLosesLength`). The payload round trip is proved only under `NistPoint.Layout`; see "## Findings".
  - **NIST `embed` accepts a candidate equal to `p`** (nist/point.ts:166). `NistPoint.CandidateEqualToP` shows `embed` returning the point with x = 0, whose `data()` is empty instead of the payload; see "## Findings".
  - **NIST `marshalBinary` of the identity throws** (nist/point.ts:277), yet `unmarshalBinary` accepts an all-zero payload as the identity (nist/point.ts:301-304). See `NistPoint.Marshal` and `NistPoint.DecodeZeros`.
- **`Verify` can throw on a malformed `R` or `s`** (schnorr.ts:49,53), so only a wrong length is guaranteed to give `false`. `Schnorr.Verification` returns `Err` for the other malformed cases.
- **Two are modelled as intended, not as written:**
  - **Scalar reduction context.** `edwards25519/scalar.ts:18` stores the imported identifier `Red` instead of the constructor's `red`. The scalar writes that use `this.ref.red` are modelled as reducing mod ℓ, which is what the constructor's context does.
  - **Hashed bytes.** `schnorr.ts:78` hashes `i.buffer`, the whole underlying buffer of each input. The model hashes the bytes of each input view.

## Model

| member | source | states |
|---|---|---|
| Random.Masked | external/js/kyber/src/random.ts:9-24 | the result of `bits` for a draw has exactly `(bitlen+7)>>3` bytes |
| Random.ClearHighBits | external/js/kyber/src/random.ts:12-14 | `b &= ~(0xff << h)` for `0 < h < 8` keeps exactly the `h` low bits of the byte |
| Random.LeadByteValue | external/js/kyber/src/random.ts:11-22 | without `exact` the leading byte keeps its `bitlen & 7` (or 8) low bits; with `exact` the top of those bits is also set, bit 7 when `bitlen` is a multiple of 8 |
| Random.MaskedValue | external/js/kyber/src/random.ts:9-24 | the big-endian value of `bits` is the draw mod `2^bitlen`; with `exact` it is `2^(bitlen-1)` plus the draw mod `2^(bitlen-1)` |
| Random.MaskedProperties | external/js/kyber/src/random.ts:9-24 | `bits` gives `(bitlen+7)>>3` bytes with value below `2^bitlen`; with `exact`, at least `2^(bitlen-1)`; without `exact` and with `bitlen` a multiple of 8, the draw unchanged |
| Random.Bits | external/js/kyber/src/random.ts:9-24 | the method draws `(bitlen+7)>>3` bytes and returns them masked as above; `None` when the stream is shorter |
| Random.Rounds | external/js/kyber/src/random.ts:30-38 | the reference definition of the `while` loop for a draw width: the first block whose masked value lies in `(0, mod)` and the bytes consumed up to it, `None` when the stream runs out; `RoundsFirst` and `RoundsNone` state this, and `DrawUntilAccepted` is proved to compute it |
| Random.IntFrom | external/js/kyber/src/random.ts:29-39 | `int` as a function: the rounds at width `bitLength(mod)`; `IntFromFirstAccepted` and `IntFromNone` state its outcome, and `Int` is proved to compute it |
| Random.IntFromFirstAccepted | external/js/kyber/src/random.ts:29-39 | `int` returns the first draw whose big-endian value lies in `(0, mod)`, of `(bitLength(mod)+7)>>3` bytes, and every earlier draw was rejected |
| Random.IntFromNone | external/js/kyber/src/random.ts:29-39 | when `int` finds nothing in the stream, every whole draw in it was 0 or at least `mod` |
| Random.Int | external/js/kyber/src/random.ts:29-39 | the loop returns exactly the first accepted draw and how many bytes it consumed, with value in `(0, mod)`; `None` when no draw in the stream is accepted |
| Random.DrawUntilAccepted | external/js/kyber/src/random.ts:32-38 | the `while` loop, drawing `bits(bitlength, false)` each round, ends with exactly the outcome of the round-by-round definition: the accepted draw and the bytes consumed, or `None` exactly when the stream runs out first |
| Random.RoundsFirst | external/js/kyber/src/random.ts:32-38 | for any draw width, the accepted draw is the masked block ending at the reported byte count, its value lies in `(0, mod)`, and every whole block before it was rejected |
| Random.RoundsNone | external/js/kyber/src/random.ts:32-38 | for any draw width, when no draw is accepted every whole block of the stream was rejected |
| Edwards25519Scalar.AddMod | external/js/kyber/src/curve/edwards25519/scalar.ts:56-59 | `redAdd` on reduced values is `(a + b) mod ℓ` |
| Edwards25519Scalar.SubMod | external/js/kyber/src/curve/edwards25519/scalar.ts:61-64 | `redSub` on reduced values is `(a - b) mod ℓ` |
| Edwards25519Scalar.NegMod | external/js/kyber/src/curve/edwards25519/scalar.ts:66-69 | `redNeg` is reduced and adds to `a` to give 0 mod ℓ |
| Edwards25519Scalar.MulMod | external/js/kyber/src/curve/edwards25519/scalar.ts:71-74 | `redMul` gives a reduced value |
| Edwards25519Scalar.InvMod | external/js/kyber/src/curve/edwards25519/scalar.ts:81-84 | `redInvm` is reduced and is a multiplicative inverse of every `a` coprime to ℓ |
| Edwards25519Scalar.DivMod | external/js/kyber/src/curve/edwards25519/scalar.ts:76-79 | the quotient times the divisor gives the dividend mod ℓ when the divisor is coprime to ℓ |
| Edwards25519Scalar.SubAfterAdd | external/js/kyber/src/curve/edwards25519/scalar.ts:56-64 | subtracting `b` undoes adding `b` |
| Edwards25519Scalar.NegProperties | external/js/kyber/src/curve/edwards25519/scalar.ts:61-69 | negation is subtraction from 0, is an involution and is the additive inverse |
| Edwards25519Scalar.Encode | external/js/kyber/src/curve/edwards25519/scalar.ts:26-28 | an encoded scalar has 32 bytes |
| Edwards25519Scalar.FromBytes | external/js/kyber/src/curve/edwards25519/scalar.ts:97-100 | `setBytes` accepts any length and gives a value below ℓ |
| Edwards25519Scalar.Decode | external/js/kyber/src/curve/edwards25519/scalar.ts:30-35 | `unmarshalBinary` fails exactly on inputs longer than 32 bytes; otherwise it reads the bytes as `setBytes` does |
| Edwards25519Scalar.DecodeEncode | external/js/kyber/src/curve/edwards25519/scalar.ts:26-35 | a reduced value's encoding is its little-endian bytes and decodes back to it |
| Edwards25519Scalar.EncodeInjective | external/js/kyber/src/curve/edwards25519/scalar.ts:26-28 | distinct reduced values have distinct encodings |
| Edwards25519Scalar.Ed25519Scalar.constructor | external/js/kyber/src/curve/edwards25519/scalar.ts:14-20 | a new scalar holds 0 in a fresh `ref` |
| Edwards25519Scalar.Ed25519Scalar.MarshalBinary | external/js/kyber/src/curve/edwards25519/scalar.ts:26-28 | 32 bytes whose little-endian value is the stored value |
| Edwards25519Scalar.Ed25519Scalar.UnmarshalBinary | external/js/kyber/src/curve/edwards25519/scalar.ts:30-35 | throws exactly on more than 32 bytes and then keeps the old value; otherwise stores the decoded value |
| Edwards25519Scalar.Ed25519Scalar.Equal | external/js/kyber/src/curve/edwards25519/scalar.ts:37-39 | two reduced scalars are equal exactly when their encodings are |
| Edwards25519Scalar.Ed25519Scalar.Set | external/js/kyber/src/curve/edwards25519/scalar.ts:41-44 | the receiver shares `a`'s `ref` and is returned |
| Edwards25519Scalar.SetThenWrite | external/js/kyber/src/curve/edwards25519/scalar.ts:41-59 | after `s.set(a)`, a write through `s` is seen through `a` |
| Edwards25519Scalar.Ed25519Scalar.Clone | external/js/kyber/src/curve/edwards25519/scalar.ts:46-50 | a fresh scalar with its own `ref` holding the same value |
| Edwards25519Scalar.Ed25519Scalar.Zero | external/js/kyber/src/curve/edwards25519/scalar.ts:52-55 | stores 0 and returns the receiver |
| Edwards25519Scalar.Ed25519Scalar.One | external/js/kyber/src/curve/edwards25519/scalar.ts:86-89 | stores 1 and returns the receiver |
| Edwards25519Scalar.Ed25519Scalar.Add | external/js/kyber/src/curve/edwards25519/scalar.ts:56-59 | stores `(a + b) mod ℓ` of the operands' values before the write |
| Edwards25519Scalar.Ed25519Scalar.Sub | external/js/kyber/src/curve/edwards25519/scalar.ts:61-64 | stores `(a - b) mod ℓ` |
| Edwards25519Scalar.Ed25519Scalar.Neg | external/js/kyber/src/curve/edwards25519/scalar.ts:66-69 | stores the additive inverse of `a` |
| Edwards25519Scalar.Ed25519Scalar.Mul | external/js/kyber/src/curve/edwards25519/scalar.ts:71-74 | stores `(s1 · s2) mod ℓ` |
| Edwards25519Scalar.Ed25519Scalar.Div | external/js/kyber/src/curve/edwards25519/scalar.ts:76-79 | stores the quotient, which times `s2` gives `s1` mod ℓ when `s2` is coprime to ℓ |
| Edwards25519Scalar.Ed25519Scalar.Inv | external/js/kyber/src/curve/edwards25519/scalar.ts:81-84 | stores the inverse, whose product with `a` is 1 when `a` is coprime to ℓ |
| Edwards25519Scalar.Ed25519Scalar.Pick | external/js/kyber/src/curve/edwards25519/scalar.ts:90-95 | stores the big-endian value of the first draw `int(ℓ)` accepts, which lies in `(0, ℓ)`; unchanged and `None` when the stream runs out |
| Edwards25519Scalar.Ed25519Scalar.SetBytes | external/js/kyber/src/curve/edwards25519/scalar.ts:97-100 | stores the little-endian value of any-length input reduced mod ℓ |
| Edwards25519Point.Encode | external/js/kyber/src/curve/edwards25519/point.ts:189-196 | an encoded point has 32 bytes |
| Edwards25519Point.Padded | external/js/kyber/src/curve/edwards25519/point.ts:202-204 | the input copied over 32 zero bytes |
| Edwards25519Point.Decode | external/js/kyber/src/curve/edwards25519/point.ts:198-214 | inputs longer than 32 bytes are rejected |
| Edwards25519Point.EncodeLayout | external/js/kyber/src/curve/edwards25519/point.ts:189-196 | the encoding's low 255 bits are `y` little-endian and bit 7 of byte 31 is the parity of `x` |
| Edwards25519Point.DecodeEncode | external/js/kyber/src/curve/edwards25519/point.ts:189-214 | every curve point decodes from its encoding |
| Edwards25519Point.EncodeDecode | external/js/kyber/src/curve/edwards25519/point.ts:189-214 | a decoded point re-encodes to the input, except the sign bit when `x = 0` |
| Edwards25519Point.DecodeShort | external/js/kyber/src/curve/edwards25519/point.ts:202-204 | a short input decodes as its zero-padded form |
| Edwards25519Point.DecodeRejectsLargeY | external/js/kyber/src/curve/edwards25519/point.ts:206-212 | once the sign bit is cleared, a `y` of at least p is rejected whatever the engine |
| Edwards25519Point.DecodeOnCurve | external/js/kyber/src/curve/edwards25519/point.ts:213 | every decoded point lies on the curve |
| Edwards25519Point.EncodeInjective | external/js/kyber/src/curve/edwards25519/point.ts:57-66 | two curve points are equal exactly when their encodings are |
| Edwards25519Point.EmbedLenValue | external/js/kyber/src/curve/edwards25519/point.ts:95-100 | `embedLen()` is 29 |
| Edwards25519Point.EmbedBytes | external/js/kyber/src/curve/edwards25519/point.ts:116-122 | a round's candidate keeps the 32-byte length of the draw |
| Edwards25519Point.DataOf | external/js/kyber/src/curve/edwards25519/point.ts:151-158 | `data()` fails exactly when byte 0 exceeds 29; otherwise it gives byte-0-many bytes starting at byte 1 |
| Edwards25519Point.EmbedDataRoundTrip | external/js/kyber/src/curve/edwards25519/point.ts:119-158 | for a non-empty payload, `data()` of the decoded candidate gives the payload back |
| Edwards25519Point.InSubgroupAsWritten | external/js/kyber/src/curve/edwards25519/point.ts:143-146 | the check as written: `clone()` of the candidate holds `unset`, so the test is whether `unset` times ℓ is the identity; `AsWrittenNeverAccepts` and `AsWrittenAcceptsOutsideSubgroup` state what that does to `embed` |
| Edwards25519Point.EmbedAccept | external/js/kyber/src/curve/edwards25519/point.ts:135-147 | one round as intended: an empty payload gives 8 times the candidate unless that is the identity, a payload keeps a candidate whose ℓ-multiple is the identity |
| Edwards25519Point.EmbedFrom | external/js/kyber/src/curve/edwards25519/point.ts:102-149 | the reference definition of `embed` as intended, the first accepted candidate of the stream; `EmbedFromProperties` states what it returns |
| Edwards25519Point.EmbedAcceptAsWritten | external/js/kyber/src/curve/edwards25519/point.ts:135-147 | one round as written: the empty-payload path as intended, and for a payload the fixed check on `unset` |
| Edwards25519Point.EmbedFromAsWritten | external/js/kyber/src/curve/edwards25519/point.ts:102-149 | the reference definition of `embed` as written; `Ed25519Point.Embed` is proved to compute it, and `EmbedFromAsWrittenProperties` states what it returns |
| Edwards25519Point.EmbedFromProperties | external/js/kyber/src/curve/edwards25519/point.ts:102-149 | `embed` with the subgroup check applied to the candidate, as intended: with a payload it returns a curve point in the prime-order subgroup that carries the payload; with an empty payload, 8 times a curve point, not the identity |
| Edwards25519Point.AsWrittenEmptyPayload | external/js/kyber/src/curve/edwards25519/point.ts:130-140 | with an empty payload, `embed` as written and as intended return the same point on every stream |
| Edwards25519Point.EmbedFromAsWrittenProperties | external/js/kyber/src/curve/edwards25519/point.ts:102-149 | `embed` as written returns, for a payload, a curve point that carries the payload, and only when `unset` times ℓ is the identity |
| Edwards25519Point.AsWrittenNeverAccepts | external/js/kyber/src/curve/edwards25519/point.ts:143-147 | as written, when `unset` times ℓ is not the identity, `embed` of a payload accepts nothing on any stream |
| Edwards25519Point.AsWrittenAcceptsOutsideSubgroup | external/js/kyber/src/curve/edwards25519/point.ts:130-147 | as written, when `unset` times ℓ is the identity, `embed` of a payload returns the first decodable candidate even outside the subgroup, which the intended `embed` never returns |
| Edwards25519Point.Ed25519Point.constructor | external/js/kyber/src/curve/edwards25519/point.ts:20-40 | a handle without coordinates holds the engine's point for undefined coordinates, in a fresh `ref` |
| Edwards25519Point.Ed25519Point.MarshalBinary | external/js/kyber/src/curve/edwards25519/point.ts:189-196 | the method returns the encoding of the stored point |
| Edwards25519Point.Ed25519Point.UnmarshalBinary | external/js/kyber/src/curve/edwards25519/point.ts:198-214 | stores the decoded point, or throws the decoding error and keeps the old point |
| Edwards25519Point.Ed25519Point.Equal | external/js/kyber/src/curve/edwards25519/point.ts:57-66 | true exactly when the two 32-byte encodings match |
| Edwards25519Point.Ed25519Point.Null | external/js/kyber/src/curve/edwards25519/point.ts:68-71 | stores the identity `(0, 1)` |
| Edwards25519Point.Ed25519Point.Base | external/js/kyber/src/curve/edwards25519/point.ts:73-79 | stores the base point |
| Edwards25519Point.Ed25519Point.Set | external/js/kyber/src/curve/edwards25519/point.ts:85-88 | the receiver shares `p`'s `ref` |
| Edwards25519Point.Ed25519Point.Clone | external/js/kyber/src/curve/edwards25519/point.ts:90-93 | as written, a fresh handle holding the point for undefined coordinates |
| Edwards25519Point.Ed25519Point.Add | external/js/kyber/src/curve/edwards25519/point.ts:160-166 | stores the engine's sum of the operands |
| Edwards25519Point.Ed25519Point.Sub | external/js/kyber/src/curve/edwards25519/point.ts:168-174 | stores `p1` plus the negation of `p2` |
| Edwards25519Point.Ed25519Point.Neg | external/js/kyber/src/curve/edwards25519/point.ts:176-179 | stores the negation of `p` |
| Edwards25519Point.Ed25519Point.Mul | external/js/kyber/src/curve/edwards25519/point.ts:181-187 | stores the scalar's multiple of `p`, or of the base point when `p` is omitted |
| Edwards25519Point.Ed25519Point.Data | external/js/kyber/src/curve/edwards25519/point.ts:151-158 | returns `data()` of the stored point's encoding |
| Edwards25519Point.Ed25519Point.Embed | external/js/kyber/src/curve/edwards25519/point.ts:102-149 | throws on more than 29 bytes; otherwise returns a fresh point that is the point `embed` as written picks from the stream (the check on `clone()` multiplies `unset`), leaving the receiver unchanged |
| Edwards25519Point.CopyPadded | external/js/kyber/src/curve/edwards25519/point.ts:203-204 | the copy is the input over 32 zero bytes |
| Edwards25519Point.FillCandidate | external/js/kyber/src/curve/edwards25519/point.ts:116-122 | the in-place writes build exactly the round's candidate |
| Edwards25519Point.Pick | external/js/kyber/src/curve/edwards25519/point.ts:81-83 | `pick` is `embed` of the empty payload |
| Edwards25519Curve.Ed25519.constructor | external/js/kyber/src/curve/edwards25519/curve.ts:16-19 | the group holds the elliptic curve object |
| Edwards25519Curve.Ed25519.ScalarLen | external/js/kyber/src/curve/edwards25519/curve.ts:31-33 | 32, the scalar encoding length |
| Edwards25519Curve.Ed25519.PointLen | external/js/kyber/src/curve/edwards25519/curve.ts:47-49 | 32, the point encoding length |
| Edwards25519Curve.Ed25519.Scalar | external/js/kyber/src/curve/edwards25519/curve.ts:38-40 | a fresh scalar holding 0 |
| Edwards25519Curve.Ed25519.Point | external/js/kyber/src/curve/edwards25519/curve.ts:54-56 | a fresh point handle on this curve |
| Edwards25519Curve.Ed25519.NewKey | external/js/kyber/src/curve/edwards25519/curve.ts:62-72 | the key is the whole 64-byte digest, clamped as written, read little-endian and reduced mod ℓ |
| Edwards25519Curve.ClampAsWritten | external/js/kyber/src/curve/edwards25519/curve.ts:66-69 | the clamped digest keeps its 64 bytes |
| Edwards25519Curve.ClampAsWrittenBytes | external/js/kyber/src/curve/edwards25519/curve.ts:67-69 | as written, byte 0 loses its three low bits, byte 31 becomes 0 and no other byte changes |
| Edwards25519Curve.ClampAsWrittenMultipleOf8 | external/js/kyber/src/curve/edwards25519/curve.ts:58-69 | the 64 clamped bytes handed to `setBytes` are a multiple of 8 before the reduction mod ℓ |
| Edwards25519Curve.ClampedKeyNotMultipleOf8 | external/js/kyber/src/curve/edwards25519/curve.ts:58-71 | the key `setBytes` stores need not be the multiple of 8 the comment promises: a digest whose only non-zero byte is byte 32 gives a key 5 mod 8 |
| Edwards25519Curve.ClampAsWrittenByte31 | external/js/kyber/src/curve/edwards25519/curve.ts:68-69 | bits 248-255 of that value are all clear |
| Edwards25519Curve.ClampRfc8032 | external/js/kyber/src/curve/edwards25519/curve.ts:66-69 | the RFC 8032 clamp on the first 32 digest bytes has 32 bytes |
| Edwards25519Curve.ClampDiffers | external/js/kyber/src/curve/edwards25519/curve.ts:68-69 | the RFC clamp's byte 31 is `64 + d[31] mod 64`, which never equals the code's byte 31; byte 0 agrees |
| Edwards25519Curve.Suite | external/js/kyber/src/curve/edwards25519/curve.ts:12-56 | Ed25519 as a group suite has order ℓ, the base point, and 32-byte point and scalar encodings |
| Edwards25519Curve.SuiteLawful | external/js/kyber/src/curve/edwards25519/curve.ts:12-56 | under the engine's laws the Ed25519 suite keeps every law of a prime-order group with round-tripping codecs |
| Edwards25519Curve.SuiteGroupLaws | external/js/kyber/src/curve/edwards25519/point.ts:160-187 | multiples of the base point add and multiply as their factors mod ℓ, and `equal` is reflexive |
| Edwards25519Curve.SuitePointCodec | external/js/kyber/src/curve/edwards25519/point.ts:189-214 | every multiple of the base point marshals to 32 bytes that unmarshal back to it |
| Edwards25519Curve.SuiteScalarCodec | external/js/kyber/src/curve/edwards25519/scalar.ts:26-35 | every reduced scalar marshals to 32 bytes that unmarshal back to it, and `setBytes` is reduced |
| Edwards25519Curve.SchnorrCorrect | external/js/kyber/src/sign/schnorr/schnorr.ts:8-69 | an Ed25519 Schnorr signature with private key `x` verifies under `x·G` |
| NistCurve.ConvertOptions | external/js/kyber/src/curve/nist/curve.ts:21-29 | the options keep their keys plus `g`; `g` is the pair of `gx, gy` read little-endian, and every other entry is its bytes read little-endian |
| NistCurve.ByteLengthFits | external/js/kyber/src/curve/nist/curve.ts:42-44 | `(bitLength(v)+7)>>3` bytes hold `v` and one byte fewer does not |
| NistCurve.Weierstrass.constructor | external/js/kyber/src/curve/nist/curve.ts:20-33 | for moduli above 1: name and bit size are kept; `p, a, b, n` are their little-endian values; the generator is reduced mod p; `redN` reduces mod `n` |
| NistCurve.NewWeierstrass | external/js/kyber/src/curve/nist/curve.ts:20-33 | `new Weierstrass(config)` throws exactly when `p` or `n` is at most 1, where bn.js refuses the reduction context; otherwise it gives the constructed curve |
| NistCurve.Weierstrass.CoordLen | external/js/kyber/src/curve/nist/curve.ts:35-37 | the fewest bytes that hold `bitSize` bits |
| NistCurve.Weierstrass.ScalarLen | external/js/kyber/src/curve/nist/curve.ts:42-44 | the fewest bytes that hold the order `n` |
| NistCurve.Weierstrass.PointLen | external/js/kyber/src/curve/nist/curve.ts:56-59 | the X9.62 uncompressed length: one header byte and two coordinates |
| NistPoint.Marshal | external/js/kyber/src/curve/nist/point.ts:272-283 | fails exactly on the identity; otherwise `pointLen()` bytes, header 4, then `x` and `y` big-endian in their `coordLen()`-byte fields |
| NistPoint.Parse | external/js/kyber/src/curve/nist/point.ts:290-305 | throws exactly on a wrong length or a header other than 4; all zeros give the identity; otherwise stores the coordinates reduced mod p |
| NistPoint.Decode | external/js/kyber/src/curve/nist/point.ts:290-309 | `unmarshalBinary` returns only for a point that passes `validate`; otherwise it throws the parse error or "not on curve" |
| NistPoint.DecodeMarshal | external/js/kyber/src/curve/nist/point.ts:272-309 | every affine curve point other than `(0, 0)` decodes from its encoding |
| NistPoint.MarshalDecode | external/js/kyber/src/curve/nist/point.ts:272-309 | a decoded encoding with reduced coordinates is the encoding of the decoded point |
| NistPoint.DecodeZeros | external/js/kyber/src/curve/nist/point.ts:299-304 | an all-zero payload decodes to the identity without the curve check |
| NistPoint.CoordinateFits | external/js/kyber/src/curve/nist/point.ts:273-280 | a coordinate below p fits its `coordLen()`-byte field on a well-formed curve |
| NistPoint.EmbedLen | external/js/kyber/src/curve/nist/point.ts:119-124 | `(bitLength(p)-16)>>3` leaves at least 16 bits of p for the length and randomness |
| NistPoint.Candidate | external/js/kyber/src/curve/nist/point.ts:150-162 | a round's candidate keeps the length of the draw, or throws when `set` runs past the end |
| NistPoint.CandidateLayout | external/js/kyber/src/curve/nist/point.ts:159-162 | under the layout, the length byte is at `coordLen()-1` and the payload directly before it |
| NistPoint.DataOf | external/js/kyber/src/curve/nist/point.ts:199-207 | `data()` throws on the identity and otherwise gives at most `coordLen()-1` bytes |
| NistPoint.JsSlice | external/js/kyber/src/curve/nist/point.ts:206 | `slice` behaves as a sequence slice for in-range bounds |
| NistPoint.BuffLen | external/js/kyber/src/curve/nist/point.ts:150-152 | each round draws `bitLength(p) >> 3` bytes; `ShortCandidate` and `EmbedLosesLength` state what happens when that is one byte short of `coordLen()` |
| NistPoint.EmbedFrom | external/js/kyber/src/curve/nist/point.ts:149-191 | the reference definition of the `embed` loop: the first candidate of at most `p` whose chosen root squares back, the `set` RangeError, or `None` when the stream runs out; `NistPoint.NistPoint.Embed` is proved to compute it, and `EmbedFromProperties`, `CandidateEqualToP` and `EmbedLosesLength` state what it returns |
| NistCurve.Rhs | external/js/kyber/src/curve/nist/point.ts:171-177 | `y² = x³ + a·x + b mod p`, the value the root must square back to; `OnCurve` and `EmbedFromProperties` use it |
| NistPoint.EmbedFromProperties | external/js/kyber/src/curve/nist/point.ts:132-192 | `embed` returns an affine point on the curve; under the layout and for fewer than 256 bytes, `data()` of it gives the payload back unless its x is 0 |
| NistPoint.EmbeddedData | external/js/kyber/src/curve/nist/point.ts:159-207 | for one accepted candidate below p, `data()` gives the payload back |
| NistPoint.CandidateEqualToP | external/js/kyber/src/curve/nist/point.ts:164-189 | when the first candidate equals p and its root squares back, `embed` returns the point with x = 0, and `data()` of it is empty, not the payload |
| NistPoint.ShortCandidate | external/js/kyber/src/curve/nist/point.ts:149-161 | when `bitLength(p) >> 3` is `coordLen() - 1`, the length byte is dropped: the candidate has `bitLength(p) >> 3` bytes and ends with the payload |
| NistPoint.ShortDataOf | external/js/kyber/src/curve/nist/point.ts:149-170 | in that short layout, `data()` of an accepted candidate reads the payload's last byte as the length and does not give the payload back when that byte differs from the length |
| NistPoint.EmbedLosesLength | external/js/kyber/src/curve/nist/point.ts:149-189 | in that short layout, no point `embed` returns gives a payload back through `data()` when the payload's last byte is not its length |
| NistPoint.NistPoint.constructor | external/js/kyber/src/curve/nist/point.ts:19-36 | a handle without coordinates holds the point at infinity |
| NistPoint.NistPoint.FromCoordinates | external/js/kyber/src/curve/nist/point.ts:19-36 | a handle with coordinates holds them reduced mod p |
| NistPoint.NistPoint.Equal | external/js/kyber/src/curve/nist/point.ts:66-77 | true exactly when the two stored points are the same |
| NistPoint.NistPoint.Set | external/js/kyber/src/curve/nist/point.ts:84-87 | the receiver shares `p2`'s `ref` |
| NistPoint.NistPoint.Clone | external/js/kyber/src/curve/nist/point.ts:92-95 | a fresh handle on the same affine point; throws for the identity, whose coordinates are null |
| NistPoint.NistPoint.Null | external/js/kyber/src/curve/nist/point.ts:101-104 | stores the point at infinity; the handle stays valid on a valid curve |
| NistPoint.NistPoint.Base | external/js/kyber/src/curve/nist/point.ts:110-114 | stores the generator; the handle stays valid on a valid curve, since a well-formed curve holds its generator reduced |
| NistPoint.NistPoint.Add | external/js/kyber/src/curve/nist/point.ts:213-219 | stores the engine's sum of the operands |
| NistPoint.NistPoint.Sub | external/js/kyber/src/curve/nist/point.ts:225-231 | stores `p1` plus the negation of `p2` |
| NistPoint.NistPoint.Neg | external/js/kyber/src/curve/nist/point.ts:237-240 | stores the negation of `p` |
| NistPoint.NistPoint.Mul | external/js/kyber/src/curve/nist/point.ts:248-254 | stores `s` times `p`, or times the generator when `p` is omitted |
| NistPoint.NistPoint.MarshalSize | external/js/kyber/src/curve/nist/point.ts:264-267 | `1 + 2·coordLen()` |
| NistPoint.NistPoint.MarshalBinary | external/js/kyber/src/curve/nist/point.ts:272-283 | the buffer is the X9.62 encoding of the stored point; throws for the identity |
| NistPoint.NistPoint.UnmarshalBinary | external/js/kyber/src/curve/nist/point.ts:290-309 | returns exactly when the input decodes; a parsed point off the curve is stored before the throw |
| NistPoint.NistPoint.Data | external/js/kyber/src/curve/nist/point.ts:199-207 | returns `data()` of the stored point |
| NistPoint.NistPoint.Embed | external/js/kyber/src/curve/nist/point.ts:132-192 | throws on a payload over `embedLen()`; otherwise returns a fresh point that is the first accepted candidate of the stream, or the error `set` throws |
| NistPoint.NewPoint | external/js/kyber/src/curve/nist/curve.ts:64-66 | `point()` gives a fresh handle on the point at infinity |
| NistPoint.Pick | external/js/kyber/src/curve/nist/point.ts:259-262 | `pick` is `embed` of the empty payload |
| NistPoint.X962 | external/js/kyber/src/curve/nist/point.ts:273-282 | writing the minimal big-endian bytes right-aligned gives `4 ‖ x ‖ y`, each zero-padded to `coordLen()` |
| NistPoint.SetRightAligned | external/js/kyber/src/curve/nist/point.ts:277-280 | `set` of the minimal big-endian bytes of `v` at `start + l - length` into a zeroed field leaves that field holding `v` as `l` big-endian bytes and every other byte unchanged |
| NistPoint.SetAt | external/js/kyber/src/curve/nist/point.ts:278 | `set` overwrites exactly the target range |
| NistPoint.FillCandidate | external/js/kyber/src/curve/nist/point.ts:150-162 | the in-place writes build exactly the round's candidate, including the dropped out-of-range write and the `set` error |
| Group.ExponentSuite | external/js/kyber/src/index.ts:4-76 | the exponent group has order `n`, base 1 and `len`-byte codecs |
| Group.ExponentSuiteLawful | external/js/kyber/src/index.ts:4-76 | the exponent group meets every law the signature code relies on |
| Schnorr.ConcatThree | external/js/kyber/src/sign/schnorr/schnorr.ts:75-80 | three hash updates feed the inputs' concatenation, in order |
| Schnorr.Challenge | external/js/kyber/src/sign/schnorr/schnorr.ts:75-84 | the challenge `setBytes(SHA512(R ‖ X ‖ m))`; `HashSchnorr` is proved to compute it over the three inputs |
| Schnorr.Signature | external/js/kyber/src/sign/schnorr/schnorr.ts:8-30 | the reference definition of `Sign` for a nonce `r`; `Sign` is proved to compute it, and `SignatureLayout` and `SignThenVerify` state its layout and that it verifies |
| Schnorr.HashSchnorr | external/js/kyber/src/sign/schnorr/schnorr.ts:75-84 | the challenge is `setBytes(SHA512(concatenation of the inputs))` |
| Schnorr.Sign | external/js/kyber/src/sign/schnorr/schnorr.ts:8-30 | the method computes exactly the signature `marshal(r·G) ‖ marshal(x·c + r mod n)`, or the marshalling error |
| Schnorr.Join | external/js/kyber/src/sign/schnorr/schnorr.ts:26-28 | the buffer filled by the two `set` calls is the concatenation |
| Schnorr.SignatureLayout | external/js/kyber/src/sign/schnorr/schnorr.ts:8-30 | for a lawful suite, the signature has `pointLen + scalarLen` bytes: `marshal(r·G)` followed by `marshal(x·c + r mod n)` with `c` hashed from `R ‖ x·G ‖ m` |
| Schnorr.Verification | external/js/kyber/src/sign/schnorr/schnorr.ts:37-44 | a signature of the wrong length is rejected before anything is decoded |
| Schnorr.Verify | external/js/kyber/src/sign/schnorr/schnorr.ts:37-69 | the method returns exactly the verification outcome, including the errors the decoders throw |
| Schnorr.SignThenVerify | external/js/kyber/src/sign/schnorr/schnorr.ts:8-69 | over any lawful suite, a signature made with `x < n` verifies under `x·G` |
| Schnorr.VerifyEquation | external/js/kyber/src/sign/schnorr/schnorr.ts:56-68 | in the exponent group, a well-formed signature `(R, s)` verifies exactly when `s ≡ c·X + R (mod n)` |

## Left out

- Randomness and hashing. `crypto.randomBytes` is a byte stream and SHA-512 an uninterpreted function, both passed as parameters. Where the source loops forever, the model stops with `None` or `Ok(None)` when the stream is exhausted.
- The elliptic and bn.js internals. The Edwards and short-Weierstrass group laws, `pointFromY`, `redSqrt`, `validate` and scalar multiplication are function fields of the engine datatypes. Their axioms are the `Lawful` predicates; they are assumptions about code that is not part of this model.
- Montgomery form: bn.js holds custom-curve field elements in Montgomery form, so `p.sub(y).toRed(red)` at nist/point.ts:183 does not compute `p - y`. The model leaves that value abstract as `flip`, and the NIST embed lemmas only assume that it is reduced.
- The `TypeError`s thrown for arguments that are not `Uint8Array`s (nist/point.ts:133-135, edwards25519/point.ts:199-201). Every input is a byte sequence.
- `toString`, `inspect` and `string` on points and groups, which only format values.
- `nist/scalar.ts` is not part of this model. The Weierstrass `scalar()` (nist/curve.ts:49-51) is left out, and `redN` is recorded only as its modulus. The NIST curve is therefore not packaged as a group suite for the signature code.
- NistCurve.Weierstrass.constructor: only the byte-array form of each parameter is modelled, not hex strings or BN values. It requires `p, a, b, n` to be present, although the type makes `p, a, b` optional.
- Edwards25519Scalar.Ed25519Scalar.Div, Edwards25519Scalar.Ed25519Scalar.Inv, Edwards25519Scalar.InvMod and Edwards25519Scalar.DivMod: the inverse is proved under `gcd(a, ℓ) = 1`, because the primality of ℓ is not proved. `redInvm` of 0 is not modelled as a throw: the model's inverse of 0 is 0.
- Edwards25519Scalar.Ed25519Scalar.SetBytes: the model reduces with the context passed to the constructor and does not reproduce the stored `Red` (scalar.ts:18). The same holds for `UnmarshalBinary`, `Zero`, `One` and `Pick`, for `Edwards25519Scalar.Ed25519Scalar.Clone` (scalar.ts:47 passes the stored `Red` on to the new scalar), and for `Edwards25519Curve.Ed25519.NewKey` (curve.ts:71 writes through `setBytes`).
- Edwards25519Point.EncodeDecode: the model does not assume that `pointFromY` rejects an odd sign bit for `x = 0`, so the re-encoding is proved to agree with the input only when `x ≠ 0`.
- Edwards25519Point.EmbedFromProperties: it states the subgroup property of `embed` as intended, with the check on the candidate. `embed` as written does not keep it; what it does keep is stated by `Edwards25519Point.EmbedFromAsWrittenProperties`.
- NistCurve.Weierstrass.WellFormed: every NIST point operation requires `p > 2`, `p <= 2^(8·coordLen())` and a reduced generator through `Valid()`. The source also runs on curves outside these bounds (`p = 2`, or a `bitSize` too small for `p`). These bounds are what the byte layouts of `marshalBinary` and `data` need, and the named curves meet them.
- NistCurve.Weierstrass.constructor requires `p > 1` and `n > 1`. The source throws there, because bn.js refuses a reduction context over a modulus of at most 1 (curve.ts:30, 32). That throw is modelled by `NistCurve.NewWeierstrass`, which returns `Err(InvalidModulus)`. bn.js and elliptic are not part of this model; the throw rests on their published behaviour.
- Schnorr.HashSchnorr: it hashes the bytes of each input view, not the whole underlying `ArrayBuffer` as schnorr.ts:78 does.
- Edwards25519Point.Ed25519Point.constructor: the coordinates the constructor could take as `Uint8Array`s (point.ts:22-33) are not modelled. Every handle is made without coordinates and then written through `ref`.
- `index.ts` and `nist/index.ts`: interfaces and re-exports, used only as the shape of `Group.Suite`.

## Findings

| source | as written | input that shows it | evidently intended | confidence | as-written member | corrected member |
|---|---|---|---|---|---|---|
| external/js/kyber/src/curve/edwards25519/point.ts:143-147 | `point_obj.clone()` builds a point through the constructor, which ignores coordinates that are not `Uint8Array`s (point.ts:90-93, 20-40). The subgroup check therefore multiplies a fixed point, not the candidate. | a non-empty payload: when `unset` times ℓ is the identity, the first decodable candidate is returned even outside the prime-order subgroup; otherwise nothing is accepted on any stream (`Edwards25519Point.AsWrittenNeverAccepts`) | accept a non-empty-payload candidate only when its ℓ-multiple is the identity | not executed | Edwards25519Point.AsWrittenAcceptsOutsideSubgroup | Edwards25519Point.EmbedFromProperties |
| external/js/kyber/src/curve/nist/point.ts:149-161 | Each round draws `bitLength(p) >> 3` bytes but writes the length byte at `coordLen() - 1`. When the draw is one byte short, as for a 521-bit `p` with 66-byte coordinates, that write is dropped. | a 521-bit `p` with `bitSize` 521 and any payload whose last byte is not its length: `data()` of the point `embed` returns never gives the payload back | draw `coordLen()` bytes, so the length byte lands at the last index, as under `NistPoint.Layout` | not executed | NistPoint.EmbedLosesLength | NistPoint.EmbedFromProperties |
| external/js/kyber/src/curve/nist/point.ts:164-189 | Candidates are rejected only when `x > p`, so a candidate equal to `p` is accepted and reduces to x = 0. | a payload and draw whose candidate bytes equal `p`, with a root of `b` that squares back: `embed` returns `(0, y)`, and `data()` is empty | reject candidates of at least `p`, so every accepted point has x ≠ 0 and carries the payload | not executed | NistPoint.CandidateEqualToP | NistPoint.EmbedFromProperties |
