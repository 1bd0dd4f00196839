/**
 * Modular arithmetic the scalar code obtains from bn.js reduction contexts:
 * remainders of sums and products, and the inverse computed by the extended Euclidean algorithm.
 */
module Modular {
  import Bytes

  lemma MulModLeft(a: int, b: int, m: int)
    requires m > 0
    ensures (a * b) % m == ((a % m) * b) % m
  {
    var q := a / m;
    assert a == m * q + a % m;
    assert a * b == m * (q * b) + (a % m) * b;
    Bytes.ModAddMultiple(m, q * b, (a % m) * b);
  }

  lemma MulModRight(a: int, b: int, m: int)
    requires m > 0
    ensures (a * b) % m == (a * (b % m)) % m
  {
    MulModLeft(b, a, m);
    assert a * b == b * a && a * (b % m) == (b % m) * a;
  }

  lemma AddModLeft(a: int, b: int, m: int)
    requires m > 0
    ensures (a + b) % m == ((a % m) + b) % m
  {
    assert a == m * (a / m) + a % m;
    Bytes.ModAddMultiple(m, a / m, (a % m) + b);
  }

  /** Greatest common divisor, by Euclid's algorithm. */
  function Gcd(a: nat, b: nat): nat
    decreases b
  {
    if b == 0 then a else Gcd(b, a % b)
  }

  /** Bezout coefficients `(x, y)` with `a·x + b·y == Gcd(a, b)` (the extended Euclidean algorithm). */
  function Bezout(a: nat, b: nat): (r: (int, int))
    decreases b
    ensures a * r.0 + b * r.1 == Gcd(a, b)
  {
    if b == 0 then (1, 0)
    else
      var (x, y) := Bezout(b, a % b);
      BezoutStep(a, b, x, y);
      (y, x - (a / b) * y)
  }

  lemma BezoutStep(a: nat, b: nat, x: int, y: int)
    requires b > 0
    ensures a * y + b * (x - (a / b) * y) == b * x + (a % b) * y
  {
    var q := a / b;
    assert a == b * q + a % b;
    assert a * y == (b * q) * y + (a % b) * y;
    assert b * (x - q * y) == b * x - (b * q) * y;
  }

  /**
   * `a⁻¹ mod m` as bn.js `invm` computes it. When `a` shares a factor with `m` there is no
   * inverse; the result is then still defined (0 for `a ≡ 0`) but carries no promise.
   */
  function Inverse(a: nat, m: nat): (r: nat)
    requires m > 1
    ensures r < m
    ensures Gcd(a % m, m) == 1 ==> (a * r) % m == 1
  {
    var (x, y) := Bezout(a % m, m);
    var r := x % m;
    InverseCorrect(a, m, x, y);
    r
  }

  lemma InverseCorrect(a: nat, m: nat, x: int, y: int)
    requires m > 1
    requires (a % m) * x + m * y == Gcd(a % m, m)
    ensures Gcd(a % m, m) == 1 ==> (a * (x % m)) % m == 1
  {
    if Gcd(a % m, m) == 1 {
      BezoutUnit(a % m, m, x, y);
      MulModLeft(a, x, m);
      MulModRight(a, x, m);
    }
  }

  lemma BezoutUnit(c: int, m: int, x: int, y: int)
    requires m > 1 && c * x + m * y == 1
    ensures (c * x) % m == 1
  {
    assert c * x == m * (-y) + 1;
    Bytes.ModAddMultiple(m, -y, 1);
  }

  /** Multiplying by an inverse of `b` and then by `b` gives the value back. */
  lemma MulInverseCancels(a: int, b: int, i: int, m: int)
    requires m > 0 && (b * i) % m == 1
    ensures (((a * i) % m) * b) % m == a % m
  {
    MulModLeft(a * i, b, m);
    assert (a * i) * b == a * (b * i);
    MulModRight(a, b * i, m);
  }

  /** The inverse of zero is zero, the value bn.js returns for it. */
  lemma InverseOfZero(m: nat)
    requires m > 1
    ensures Inverse(0, m) == 0
  {
    assert Bezout(m, 0) == (1, 0);
    assert Bezout(0, m) == (0, 1);
  }
}
