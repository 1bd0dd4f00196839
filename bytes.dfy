/**
 * Byte strings and the big-integer conversions the library uses on them:
 * little- and big-endian values (bn.js `new BN(bytes, 16, "le")`, `toArray("le", n)`, ...),
 * bit lengths, and the bitwise operators JavaScript applies to Uint8Array elements.
 */
module Bytes {

  /** One element of a Uint8Array. */
  type byte = x: int | 0 <= x < 256

  /** A SHA-512 digest: always 64 bytes. */
  type Digest = s: seq<byte> | |s| == 64 witness seq(64, _ => 0)

  function Pow2(k: nat): (r: nat)
    ensures r >= 1
  {
    if k == 0 then 1 else 2 * Pow2(k - 1)
  }

  function Zeros(n: nat): (r: seq<byte>)
    ensures |r| == n && forall i :: 0 <= i < n ==> r[i] == 0
  {
    seq(n, _ => 0)
  }

  // ---------------------------------------------------------------------------
  // Arithmetic helpers

  lemma MulSign(d: int, k: int)
    requires d > 0
    ensures k >= 1 ==> d * k >= d
    ensures k <= -1 ==> d * k <= -d
  {
    if k >= 1 { assert d * k == d * (k - 1) + d; assert d * (k - 1) >= 0; }
    if k <= -1 { assert d * k == d * (k + 1) - d; assert d * (k + 1) <= 0; }
  }

  /** Quotient and remainder are determined by `b == d * q + r` with `0 <= r < d`. */
  lemma DivModUnique(b: int, d: int, q: int, r: int)
    requires d > 0 && b == d * q + r && 0 <= r < d
    ensures b % d == r && b / d == q
  {
    var k := q - b / d;
    assert b == d * (b / d) + b % d;
    assert d * k == d * q - d * (b / d);
    assert d * k == b % d - r;
    MulSign(d, k);
  }

  /** A positive factor can be cancelled from a strict inequality. */
  lemma MulLtCancel(a: int, b: int, c: int)
    requires a > 0 && a * b < a * c
    ensures b < c
  {
    MulSign(a, c - b);
    assert a * (c - b) == a * c - a * b;
  }

  lemma {:induction false} Pow2Add(a: nat, b: nat)
    ensures Pow2(a + b) == Pow2(a) * Pow2(b)
  {
    if a > 0 {
      Pow2Add(a - 1, b);
      assert Pow2(a + b) == 2 * (Pow2(a - 1) * Pow2(b));
      assert 2 * (Pow2(a - 1) * Pow2(b)) == (2 * Pow2(a - 1)) * Pow2(b);
    }
  }

  lemma {:induction false} Pow2Mono(a: nat, b: nat)
    requires a <= b
    ensures Pow2(a) <= Pow2(b)
  {
    if a < b { Pow2Mono(a, b - 1); }
  }

  lemma Pow2Eight()
    ensures Pow2(8) == 256
  {
    assert Pow2(1) == 2;
    assert Pow2(2) == 4;
    assert Pow2(3) == 8;
    assert Pow2(4) == 16;
    assert Pow2(5) == 32;
    assert Pow2(6) == 64;
    assert Pow2(7) == 128;
  }

  lemma Pow2Sixteen()
    ensures Pow2(16) == 0x1_0000
  {
    Pow2Eight();
    Pow2Add(8, 8);
  }

  lemma Pow2ThirtyTwo()
    ensures Pow2(32) == 0x1_0000_0000
  {
    Pow2Sixteen();
    Pow2Add(16, 16);
  }

  lemma Pow2SixtyFour()
    ensures Pow2(64) == 0x1_0000_0000_0000_0000
  {
    Pow2ThirtyTwo();
    Pow2Add(32, 32);
  }

  /** The powers of two that bound 32-byte values. */
  lemma Pow2Known()
    ensures Pow2(255) == 0x8000_0000_0000_0000_0000_0000_0000_0000_0000_0000_0000_0000_0000_0000_0000_0000
    ensures Pow2(256) == 0x1_0000_0000_0000_0000_0000_0000_0000_0000_0000_0000_0000_0000_0000_0000_0000_0000
  {
    var p64 := Pow2(64);
    assert p64 == 0x1_0000_0000_0000_0000 by { Pow2SixtyFour(); }
    var p128 := Pow2(128);
    assert p128 == p64 * p64 by { Pow2Add(64, 64); }
    assert Pow2(256) == p128 * p128 by { Pow2Add(128, 128); }
    assert Pow2(256) == 2 * Pow2(255);
  }

  /** `Pow2(8 * (n + 1)) == 256 * Pow2(8 * n)`. */
  lemma Pow2Byte(n: nat)
    ensures Pow2(8 * (n + 1)) == 256 * Pow2(8 * n)
  {
    Pow2Add(8, 8 * n);
    Pow2Eight();
  }

  /** Splitting off the lowest bit. */
  lemma ModPow2Step(b: nat, k: nat)
    requires k >= 1
    ensures b % Pow2(k) == 2 * ((b / 2) % Pow2(k - 1)) + b % 2
    ensures (b / 2) / Pow2(k - 1) == b / Pow2(k)
  {
    var m := Pow2(k - 1);
    var q := (b / 2) / m;
    var r := (b / 2) % m;
    assert b / 2 == m * q + r;
    assert b == 2 * (b / 2) + b % 2;
    assert b == (2 * m) * q + (2 * r + b % 2);
    DivModUnique(b, 2 * m, q, 2 * r + b % 2);
  }

  // ---------------------------------------------------------------------------
  // Little-endian values

  /** The value of `s` read little-endian (`new BN(s, 16, "le")`). */
  function LE(s: seq<byte>): nat
  {
    if s == [] then 0 else s[0] + 256 * LE(s[1..])
  }

  /** The `len` low-order bytes of `v`, least significant first (`toArray("le", len)`). */
  function ToLE(v: nat, len: nat): (r: seq<byte>)
    ensures |r| == len
  {
    if len == 0 then [] else [v % 256] + ToLE(v / 256, len - 1)
  }

  lemma {:induction false} LEBound(s: seq<byte>)
    ensures LE(s) < Pow2(8 * |s|)
  {
    if s != [] {
      LEBound(s[1..]);
      Pow2Byte(|s| - 1);
    }
  }

  lemma {:induction false} LEOfToLE(v: nat, len: nat)
    requires v < Pow2(8 * len)
    ensures LE(ToLE(v, len)) == v
  {
    if len > 0 {
      Pow2Byte(len - 1);
      LEOfToLE(v / 256, len - 1);
      assert ToLE(v, len)[1..] == ToLE(v / 256, len - 1);
    }
  }

  lemma {:induction false} ToLEOfLE(s: seq<byte>)
    ensures ToLE(LE(s), |s|) == s
  {
    if s != [] {
      ToLEOfLE(s[1..]);
      assert LE(s) % 256 == s[0] && LE(s) / 256 == LE(s[1..]);
    }
  }

  lemma ShiftDistrib(lo: int, x: int, p: int, y: int)
    ensures lo + 256 * (x + p * y) == (lo + 256 * x) + (256 * p) * y
  {
  }

  lemma {:induction false} LEAppend(a: seq<byte>, b: seq<byte>)
    ensures LE(a + b) == LE(a) + Pow2(8 * |a|) * LE(b)
  {
    if a == [] {
      assert a + b == b;
    } else {
      var c := a + b;
      assert c[0] == a[0] && c[1..] == a[1..] + b;
      LEAppend(a[1..], b);
      Pow2Byte(|a| - 1);
      ShiftDistrib(a[0], LE(a[1..]), Pow2(8 * (|a| - 1)), LE(b));
    }
  }

  /** Appending zero bytes does not change a little-endian value. */
  lemma LEZeroPad(s: seq<byte>, n: nat)
    ensures LE(s + Zeros(n)) == LE(s)
  {
    LEAppend(s, Zeros(n));
    LEOfZeros(n);
  }

  lemma {:induction false} LEOfZeros(n: nat)
    ensures LE(Zeros(n)) == 0
  {
    if n > 0 {
      assert Zeros(n)[1..] == Zeros(n - 1);
      LEOfZeros(n - 1);
    }
  }

  // ---------------------------------------------------------------------------
  // Big-endian values

  /** The value of `s` read big-endian (`new BN(s)`, `new BN(s, 16)`). */
  function BE(s: seq<byte>): nat
  {
    if s == [] then 0 else 256 * BE(s[..|s| - 1]) + s[|s| - 1]
  }

  /** The `len` low-order bytes of `v`, most significant first (`toArray("be", len)`). */
  function ToBE(v: nat, len: nat): (r: seq<byte>)
    ensures |r| == len
  {
    if len == 0 then [] else ToBE(v / 256, len - 1) + [v % 256]
  }

  lemma {:induction false} BEBound(s: seq<byte>)
    ensures BE(s) < Pow2(8 * |s|)
  {
    if s != [] {
      BEBound(s[..|s| - 1]);
      Pow2Byte(|s| - 1);
    }
  }

  lemma {:induction false} BEOfToBE(v: nat, len: nat)
    requires v < Pow2(8 * len)
    ensures BE(ToBE(v, len)) == v
  {
    if len > 0 {
      Pow2Byte(len - 1);
      BEOfToBE(v / 256, len - 1);
      var r := ToBE(v, len);
      assert r[..len - 1] == ToBE(v / 256, len - 1);
    }
  }

  lemma {:induction false} ToBEOfBE(s: seq<byte>)
    ensures ToBE(BE(s), |s|) == s
  {
    if s != [] {
      var init := s[..|s| - 1];
      ToBEOfBE(init);
      assert BE(s) % 256 == s[|s| - 1] && BE(s) / 256 == BE(init);
      assert s == init + [s[|s| - 1]];
    }
  }

  lemma {:induction false} BEAppend(a: seq<byte>, b: seq<byte>)
    ensures BE(a + b) == BE(a) * Pow2(8 * |b|) + BE(b)
  {
    if b == [] {
      assert a + b == a;
    } else {
      var c := a + b;
      var b' := b[..|b| - 1];
      var last := b[|b| - 1];
      assert c[..|c| - 1] == a + b' && c[|c| - 1] == last;
      assert BE(c) == 256 * BE(a + b') + last;
      assert BE(b) == 256 * BE(b') + last;
      BEAppend(a, b');
      var p := Pow2(8 * |b'|);
      assert Pow2(8 * |b|) == 256 * p by { Pow2Byte(|b'|); }
      ShiftLeft(BE(a), p, BE(b'), last);
    }
  }

  lemma ShiftLeft(x: int, p: int, y: int, z: int)
    ensures 256 * (x * p + y) + z == x * (256 * p) + (256 * y + z)
  {
  }

  /** The leading byte carries the weight `256^(|s|-1)`. */
  lemma BELeading(s: seq<byte>)
    requires |s| > 0
    ensures BE(s) == s[0] * Pow2(8 * (|s| - 1)) + BE(s[1..])
  {
    assert s == [s[0]] + s[1..];
    BEAppend([s[0]], s[1..]);
    assert BE([s[0]]) == s[0] by { assert [s[0]][..0] == []; }
  }

  lemma {:induction false} BEOfZeros(n: nat)
    ensures BE(Zeros(n)) == 0
  {
    if n > 0 {
      assert Zeros(n)[..n - 1] == Zeros(n - 1);
      BEOfZeros(n - 1);
    }
  }

  /** A big-endian encoding of a value that fits in `m` bytes is its `m`-byte encoding left-padded with zeros. */
  lemma {:induction false} ToBEPad(v: nat, m: nat, n: nat)
    requires m <= n && v < Pow2(8 * m)
    ensures ToBE(v, n) == Zeros(n - m) + ToBE(v, m)
  {
    if m == 0 {
      ToBEOfZero(n);
    } else {
      Pow2Byte(m - 1);
      ToBEPad(v / 256, m - 1, n - 1);
      assert ToBE(v, n) == ToBE(v / 256, n - 1) + [v % 256];
      assert ToBE(v, m) == ToBE(v / 256, m - 1) + [v % 256];
    }
  }

  lemma {:induction false} ToBEOfZero(n: nat)
    ensures ToBE(0, n) == Zeros(n)
  {
    if n > 0 { ToBEOfZero(n - 1); }
  }

  /** A big-endian encoding is all zeros exactly when the value is zero. */
  lemma BEZero(s: seq<byte>)
    ensures BE(s) == 0 <==> s == Zeros(|s|)
  {
    if BE(s) == 0 {
      ToBEOfBE(s);
      ToBEOfZero(|s|);
    } else if s == Zeros(|s|) {
      BEOfZeros(|s|);
    }
  }

  // ---------------------------------------------------------------------------
  // Bit lengths

  /** bn.js `bitLength()`: the number of significant bits, 0 for 0. */
  function BitLength(v: nat): nat
  {
    if v == 0 then 0 else 1 + BitLength(v / 2)
  }

  lemma {:induction false} BitLengthBounds(v: nat)
    ensures v < Pow2(BitLength(v))
    ensures v > 0 ==> Pow2(BitLength(v) - 1) <= v
  {
    if v > 0 { BitLengthBounds(v / 2); }
  }

  /** The length bn.js `toArray()` gives without a requested length: the byte length, at least 1. */
  function MinBytes(v: nat): (r: nat)
    ensures r >= 1
  {
    if BitLength(v) == 0 then 1 else (BitLength(v) + 7) / 8
  }

  lemma MinBytesFits(v: nat)
    ensures v < Pow2(8 * MinBytes(v))
  {
    BitLengthBounds(v);
    Pow2Mono(BitLength(v), 8 * MinBytes(v));
  }

  // ---------------------------------------------------------------------------
  // Bitwise operators on non-negative integers, bit by bit

  /** `a & b` */
  function BitAnd(a: nat, b: nat): nat
    decreases a
  {
    if a == 0 || b == 0 then 0
    else 2 * BitAnd(a / 2, b / 2) + (if a % 2 == 1 && b % 2 == 1 then 1 else 0)
  }

  /** `a | b` */
  function BitOr(a: nat, b: nat): nat
    decreases a + b
  {
    if a == 0 then b
    else if b == 0 then a
    else 2 * BitOr(a / 2, b / 2) + (if a % 2 == 1 || b % 2 == 1 then 1 else 0)
  }

  /** `a ^ b` */
  function BitXor(a: nat, b: nat): nat
    decreases a + b
  {
    if a == 0 then b
    else if b == 0 then a
    else 2 * BitXor(a / 2, b / 2) + (if a % 2 != b % 2 then 1 else 0)
  }

  /** The lowest bit and the rest of `2^k - 1`, `2^k` and `2^n - 2^k`. */
  lemma Pow2Halves(k: nat)
    requires k >= 1
    ensures Pow2(k) % 2 == 0 && Pow2(k) / 2 == Pow2(k - 1)
    ensures (Pow2(k) - 1) % 2 == 1 && (Pow2(k) - 1) / 2 == Pow2(k - 1) - 1
  {
    DivModUnique(Pow2(k), 2, Pow2(k - 1), 0);
    DivModUnique(Pow2(k) - 1, 2, Pow2(k - 1) - 1, 1);
  }

  /** Masking with `2^k - 1` keeps the `k` low bits. */
  lemma {:induction false} AndLowMask(b: nat, k: nat)
    ensures BitAnd(b, Pow2(k) - 1) == b % Pow2(k)
  {
    if k == 0 {
      assert Pow2(k) == 1;
    } else if b == 0 {
      assert 0 % Pow2(k) == 0;
    } else {
      var m := Pow2(k) - 1;
      var h := Pow2(k - 1);
      assert m % 2 == 1 && m / 2 == h - 1 by { Pow2Halves(k); }
      assert b % Pow2(k) == 2 * ((b / 2) % h) + b % 2 by { ModPow2Step(b, k); }
      AndLowMask(b / 2, k - 1);
      assert BitAnd(b, m) == 2 * BitAnd(b / 2, m / 2) + b % 2;
    }
  }

  /** Only the `k` low bits of a mask matter for an operand below `2^k`. */
  lemma {:induction false} AndBelow(b: nat, m: nat, k: nat)
    requires b < Pow2(k)
    ensures BitAnd(b, m) == BitAnd(b, m % Pow2(k))
  {
    if b == 0 {
    } else if m == 0 {
      assert m % Pow2(k) == 0;
    } else {
      var m' := m % Pow2(k);
      var h := Pow2(k - 1);
      assert m' % 2 == m % 2 && m' / 2 == (m / 2) % h by {
        ModPow2Step(m, k);
        DivModUnique(m', 2, (m / 2) % h, m % 2);
      }
      assert b / 2 < h by { Pow2Halves(k); }
      AndBelow(b / 2, m / 2, k - 1);
      var low := if b % 2 == 1 && m % 2 == 1 then 1 else 0;
      assert BitAnd(b, m) == 2 * BitAnd(b / 2, m / 2) + low;
      if m' == 0 {
        assert BitAnd(b / 2, m / 2) == BitAnd(b / 2, 0);
      } else {
        assert BitAnd(b, m') == 2 * BitAnd(b / 2, m' / 2) + low;
      }
    }
  }

  /** One step of `&` on two positive operands. */
  lemma AndStep(a: nat, b: nat)
    requires a > 0 && b > 0
    ensures BitAnd(a, b) == 2 * BitAnd(a / 2, b / 2) + (if a % 2 == 1 && b % 2 == 1 then 1 else 0)
  {
  }

  lemma Double(h: int, x: int, p: int)
    requires p == 2 * h
    ensures 2 * (h * x) == p * x
  {
  }

  /** `b & 2^k` isolates bit `k`. */
  lemma {:induction false} AndBit(b: nat, k: nat)
    ensures BitAnd(b, Pow2(k)) == Pow2(k) * ((b / Pow2(k)) % 2)
  {
    var p := Pow2(k);
    if b == 0 {
      assert 0 / p == 0;
    } else if k == 0 {
      assert p == 1;
    } else {
      var h := Pow2(k - 1);
      var bit := (b / p) % 2;
      assert p % 2 == 0 && p / 2 == h && p == 2 * h by { Pow2Halves(k); }
      assert (b / 2) / h == b / p by { ModPow2Step(b, k); }
      assert BitAnd(b / 2, h) == h * bit by { AndBit(b / 2, k - 1); }
      assert BitAnd(b, p) == 2 * BitAnd(b / 2, h) by { AndStep(b, p); }
      Double(h, bit, p);
    }
  }

  /** Masking with `2^n - 2^k` clears the `k` low bits of an operand below `2^n`. */
  lemma {:induction false} AndClearLow(b: nat, n: nat, k: nat, pn: nat, pk: nat)
    requires k <= n && pn == Pow2(n) && pk == Pow2(k) && b < pn
    ensures pk <= pn
    ensures BitAnd(b, pn - pk) == b - b % pk
  {
    Pow2Mono(k, n);
    if k == 0 {
      AndLowMaskBelow(b, n);
    } else if b == 0 {
      assert BitAnd(0, pn - pk) == 0;
      assert 0 % pk == 0 by { DivModUnique(0, pk, 0, 0); }
    } else {
      var hn, hk := Pow2(n - 1), Pow2(k - 1);
      assert pn == 2 * hn && pk == 2 * hk;
      assert b / 2 < hn by { assert b == 2 * (b / 2) + b % 2; }
      AndClearLow(b / 2, n - 1, k - 1, hn, hk);
      AndClearLowLift(b, pn, pk, hn, hk);
    }
  }

  /** Masking an operand below `2^n` with `2^n - 1` keeps it. */
  lemma AndLowMaskBelow(b: nat, n: nat)
    requires b < Pow2(n)
    ensures BitAnd(b, Pow2(n) - Pow2(0)) == b - b % Pow2(0)
  {
    assert Pow2(0) == 1;
    AndLowMask(b, n);
    DivModUnique(b, Pow2(n), 0, b);
  }

  /** `AndClearLow` for `b`, `n`, `k` from `AndClearLow` for `b / 2`, `n - 1`, `k - 1`. */
  lemma AndClearLowLift(b: nat, pn: nat, pk: nat, hn: nat, hk: nat)
    requires 0 < b && 0 < hk <= hn && pn == 2 * hn && pk == 2 * hk
    requires BitAnd(b / 2, hn - hk) == b / 2 - (b / 2) % hk
    ensures BitAnd(b, pn - pk) == b - b % pk
  {
    var m := pn - pk;
    assert m % 2 == 0 && m / 2 == hn - hk by { DivModUnique(m, 2, hn - hk, 0); }
    AndClearLowStep(b, m, hk);
  }

  /** The inductive step of `AndClearLow`, for `m == 2^n - 2^k` and `hk == 2^(k-1)`. */
  lemma AndClearLowStep(b: nat, m: nat, hk: nat)
    requires b > 0 && hk > 0 && m % 2 == 0
    requires m == 0 ==> b < 2 * hk
    requires BitAnd(b / 2, m / 2) == b / 2 - (b / 2) % hk
    ensures BitAnd(b, m) == b - b % (2 * hk)
  {
    var c, e := b / 2, b % 2;
    var rc, rb := c % hk, b % (2 * hk);
    assert b == 2 * c + e;
    assert rb == 2 * rc + e by { ModDouble(b, hk); }
    if m == 0 {
      assert rb == b by { DivModUnique(b, 2 * hk, 0, b); }
    } else {
      assert BitAnd(b, m) == 2 * BitAnd(c, m / 2) by { AndStep(b, m); }
    }
  }

  /** A remainder modulo `2·d` from the remainder of the halved operand modulo `d`. */
  lemma ModDouble(b: nat, d: nat)
    requires d > 0
    ensures b % (2 * d) == 2 * ((b / 2) % d) + b % 2
  {
    var c, e := b / 2, b % 2;
    var q, r := c / d, c % d;
    assert c == d * q + r && 0 <= r < d;
    assert 2 * c == (2 * d) * q + 2 * r by { Double(d, q, 2 * d); }
    DivModUnique(b, 2 * d, q, 2 * r + e);
  }

  lemma {:induction false} OrAtLeast(a: nat, b: nat)
    ensures BitOr(a, b) >= a && BitOr(a, b) >= b
    decreases a + b
  {
    if a > 0 && b > 0 { OrAtLeast(a / 2, b / 2); }
  }

  lemma {:induction false} OrBelow(a: nat, b: nat, k: nat)
    requires a < Pow2(k) && b < Pow2(k)
    ensures BitOr(a, b) < Pow2(k)
    decreases a + b
  {
    if a > 0 && b > 0 { OrBelow(a / 2, b / 2, k - 1); }
  }

  /** Flipping a bit above every bit of `b` adds it. */
  lemma {:induction false} XorHigh(b: nat, k: nat)
    requires b < Pow2(k)
    ensures BitXor(b, Pow2(k)) == b + Pow2(k)
  {
    if b > 0 { XorHigh(b / 2, k - 1); }
  }

  /** Setting the top bit of a `k`-bit operand replaces that bit by 1. */
  lemma {:induction false} OrTopBit(x: nat, k: nat)
    requires k >= 1 && x < Pow2(k)
    ensures BitOr(x, Pow2(k - 1)) == Pow2(k - 1) + x % Pow2(k - 1)
  {
    if k == 1 {
      assert Pow2(0) == 1 && x % 1 == 0;
      assert x == 0 || BitOr(x, 1) == 2 * BitOr(0, 0) + 1;
    } else if x == 0 {
      assert 0 % Pow2(k - 1) == 0;
    } else {
      var h, q := Pow2(k - 1), Pow2(k - 2);
      assert h == 2 * q && Pow2(k) == 2 * h;
      assert h % 2 == 0 && h / 2 == q by { Pow2Halves(k - 1); }
      assert x % h == 2 * ((x / 2) % q) + x % 2 by { ModPow2Step(x, k - 1); }
      OrTopBit(x / 2, k - 1);
      assert BitOr(x, h) == 2 * BitOr(x / 2, q) + x % 2;
    }
  }

  /** Adding a multiple of `d` does not change a remainder. */
  lemma ModAddMultiple(d: int, k: int, t: int)
    requires d > 0
    ensures (d * k + t) % d == t % d
  {
    assert t == d * (t / d) + t % d;
    assert d * k + t == d * (k + t / d) + t % d;
    DivModUnique(d * k + t, d, k + t / d, t % d);
  }

  lemma ModOfProduct(b: int, p: int, q: int)
    requires p > 0 && q > 0
    ensures (b % (p * q)) % p == b % p
  {
    var pq := p * q;
    var t := b / pq;
    assert b == pq * t + b % pq;
    assert pq * t == p * (q * t);
    ModAddMultiple(p, q * t, b % pq);
  }

  /** Reducing modulo `2^k` first does not change a remainder modulo a smaller power. */
  lemma ModMod(b: nat, k: nat, j: nat)
    requires j <= k
    ensures (b % Pow2(k)) % Pow2(j) == b % Pow2(j)
  {
    Pow2Add(j, k - j);
    ModOfProduct(b, Pow2(j), Pow2(k - j));
  }

  /** The remainder of a value split at a power: `(a·M + c) mod (P·M) == (a mod P)·M + c` for `c < M`. */
  lemma ModScaled(a: nat, c: nat, p: nat, m: nat)
    requires p > 0 && c < m
    ensures (a * m + c) % (p * m) == (a % p) * m + c
    ensures (a * m + c) < p * m <==> a < p
  {
    var q, r := a / p, a % p;
    assert a == p * q + r;
    assert a * m == (p * m) * q + r * m;
    assert r * m + c < p * m by {
      assert r <= p - 1;
      assert r * m <= (p - 1) * m;
      assert (p - 1) * m == p * m - m;
    }
    DivModUnique(a * m + c, p * m, q, r * m + c);
    if a >= p {
      assert a * m >= p * m;
    }
  }

  /** `b &= m` on a Uint8Array element: the result is truncated to its low 8 bits. */
  function AndAssign(b: byte, m: nat): byte
  {
    BitAnd(b, m) % 256
  }

  /** `b |= m` on a Uint8Array element. */
  function OrAssign(b: byte, m: nat): byte
  {
    BitOr(b, m) % 256
  }

  /** `b ^= m` on a Uint8Array element. */
  function XorAssign(b: byte, m: nat): byte
  {
    BitXor(b, m) % 256
  }

  lemma ByteResult(v: nat)
    requires v < 256
    ensures v % 256 == v
  {
    DivModUnique(v, 256, 0, v);
  }

  /** `b &= 0x7f` clears bit 7. */
  lemma ClearBit7(b: byte)
    ensures AndAssign(b, 0x7f) == b % 128
  {
    Pow2Eight();
    AndLowMask(b, 7);
    ByteResult(b % 128);
  }

  /** `b &= 0xf8` clears the three low bits. */
  lemma ClearLow3(b: byte)
    ensures AndAssign(b, 0xf8) == b - b % 8
  {
    Pow2Eight();
    assert Pow2(3) == 8;
    AndClearLow(b, 8, 3, 256, 8);
    ByteResult(b - b % 8);
  }

  /** `b &= 0x3f` keeps the six low bits, and a following `&= 0x40` clears everything. */
  lemma MaskThenBit6(b: byte)
    ensures AndAssign(b, 0x3f) == b % 64
    ensures AndAssign(AndAssign(b, 0x3f), 0x40) == 0
  {
    Pow2Eight();
    assert Pow2(6) == 64;
    AndLowMask(b, 6);
    ByteResult(b % 64);
    AndBit(b % 64, 6);
    DivModUnique(b % 64, 64, 0, b % 64);
  }

  /** `b &= 0x7f; b |= 0x40` clears bit 7 and sets bit 6. */
  lemma ClearBit7SetBit6(b: byte)
    ensures OrAssign(AndAssign(b, 0x7f), 0x40) == 64 + b % 64
  {
    ClearBit7(b);
    Pow2Eight();
    assert Pow2(6) == 64;
    OrTopBit(b % 128, 7);
    ModMod(b, 7, 6);
    ByteResult(64 + b % 64);
  }

  /** `b & 0x80` tests bit 7. */
  lemma TestBit7(b: byte)
    ensures AndAssign(b, 0x80) != 0 <==> b >= 128
  {
    Pow2Eight();
    AndBit(b, 7);
    ByteResult(BitAnd(b, 0x80));
  }

  /** `b ^= 0x80` sets bit 7 when it is clear; `b ^= 0` changes nothing. */
  lemma FlipBit7(b: byte)
    ensures b < 128 ==> XorAssign(b, 0x80) == b + 128
    ensures XorAssign(b, 0) == b
  {
    if b < 128 {
      Pow2Eight();
      XorHigh(b, 7);
      ByteResult(b + 128);
    }
    ByteResult(b);
  }
}
