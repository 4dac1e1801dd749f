/** The gcd of win_getopt.h, and the arithmetic of the cycles that permute_args follows. */
module Euclid {

  predicate Divides(d: int, a: int)
    requires d != 0
  {
    a % d == 0
  }

  // Euclid's algorithm; the operands of the source are positive, where C and Dafny agree on %.
  function Gcd(a: nat, b: nat): (g: nat)
    requires b > 0
    ensures 0 < g <= b
    decreases b
  {
    if a % b == 0 then b else Gcd(b, a % b)
  }

  // gcd
  method ComputeGcd(a0: nat, b0: nat) returns (g: nat)
    requires b0 > 0
    ensures g == Gcd(a0, b0)
  {
    var a, b := a0, b0;
    var c := a % b;
    while c != 0
      invariant b > 0 && c == a % b && Gcd(a, b) == Gcd(a0, b0)
      decreases c
    {
      a := b;
      b := c;
      c := a % b;
    }
    g := b;
  }

  lemma Multiple(d: int, q: int)
    requires d > 0
    ensures (q * d) % d == 0 && (d * q) % d == 0
  {
    Reduce(q * d, q, 0, d);
  }

  // Division with remainder is unique.
  lemma SameQuotient(q: int, r: int, q2: int, r2: int, d: int)
    requires 0 <= r < d && 0 <= r2 < d && q * d + r == q2 * d + r2
    ensures q == q2 && r == r2
  {
    Distribute(q2, -q, d);
    Distribute(q, -q2, d);
    Magnitude(q2 - q, d);
    Magnitude(q - q2, d);
  }

  lemma Distribute(a: int, b: int, d: int)
    ensures (a + b) * d == a * d + b * d
  {
  }

  lemma Magnitude(k: int, d: int)
    requires d > 0
    ensures k > 0 ==> k * d >= d
    ensures k <= 0 ==> k * d <= 0
  {
  }

  lemma Reduce(a: int, q: int, r: int, d: int)
    requires 0 <= r < d && a == q * d + r
    ensures a % d == r && a / d == q
  {
    SameQuotient(q, r, a / d, a % d, d);
  }

  // Coefficients of a and b in their gcd.
  lemma {:induction false} Bezout(a: nat, b: nat) returns (u: int, v: int)
    requires b > 0
    ensures u * a + v * b == Gcd(a, b)
    decreases b
  {
    if a % b == 0 {
      u, v := 0, 1;
    } else {
      var x, y := Bezout(b, a % b);
      u, v := y, x - y * (a / b);
      var q, r := a / b, a % b;
      assert a == q * b + r;
      assert y * a == y * (q * b + r) == y * q * b + y * r;
      assert v * b == x * b - y * q * b;
    }
  }

  // The gcd divides both.
  lemma {:induction false} GcdDivides(a: nat, b: nat)
    requires b > 0
    ensures Divides(Gcd(a, b), a) && Divides(Gcd(a, b), b)
    decreases b
  {
    if a % b != 0 {
      var g, q, r := Gcd(a, b), a / b, a % b;
      GcdDivides(b, r);
      assert b == (b / g) * g && r == (r / g) * g && a == q * b + r;
      var k := q * (b / g) + r / g;
      assert a == k * g;
      Multiple(g, k);
    }
  }

  // It is the greatest common divisor.
  lemma GcdGreatest(a: nat, b: nat, d: int)
    requires b > 0 && d > 0 && Divides(d, a) && Divides(d, b)
    ensures d <= Gcd(a, b)
  {
    var u, v := Bezout(a, b);
    var x, y := a / d, b / d;
    var k := u * x + v * y;
    Exact(a, d);
    Exact(b, d);
    CommonFactor(u, a, x, v, b, y, d);
    assert Gcd(a, b) == k * d && k * d > 0;
    Magnitude(k, d);
  }

  lemma CommonFactor(u: int, a: int, x: int, v: int, b: int, y: int, d: int)
    requires a == x * d && b == y * d
    ensures u * a + v * b == (u * x + v * y) * d
  {
    Distribute(u * x, v * y, d);
    assert u * (x * d) == (u * x) * d && v * (y * d) == (v * y) * d;
  }

  lemma Exact(a: int, d: int)
    requires d > 0 && a % d == 0
    ensures a == (a / d) * d
  {
  }
}
