/** Greatest common divisors. */
module Arithmetic {

  function Gcd(a: nat, b: nat): nat
    decreases b
  {
    if b == 0 then a else Gcd(b, a % b)
  }

  ghost predicate Divides(d: nat, n: int)
  {
    exists q: int :: d * q == n
  }

  lemma DividesBy(d: nat, n: int, q: int)
    requires d * q == n
    ensures Divides(d, n)
  {
  }

  lemma DividesSum(d: nat, m: int, n: int, k: int)
    requires Divides(d, m) && Divides(d, n)
    ensures Divides(d, m * k + n)
  {
    var p: int :| d * p == m;
    var q: int :| d * q == n;
    assert d * (p * k + q) == (d * p) * k + d * q;
    DividesBy(d, m * k + n, p * k + q);
  }

  lemma DivMod(a: nat, b: nat)
    requires b > 0
    ensures a == b * (a / b) + a % b
  {
  }

  lemma {:induction false} GcdDivides(a: nat, b: nat)
    ensures Divides(Gcd(a, b), a) && Divides(Gcd(a, b), b)
    ensures a > 0 || b > 0 ==> Gcd(a, b) > 0
    decreases b
  {
    if b == 0 {
      DividesBy(a, a, 1);
      DividesBy(a, 0, 0);
    } else {
      GcdDivides(b, a % b);
      DivMod(a, b);
      DividesSum(Gcd(a, b), b, a % b, a / b);
    }
  }

  /** The greatest common divisor is an integer combination. */
  lemma {:induction false} Bezout(a: nat, b: nat) returns (x: int, y: int)
    ensures a * x + b * y == Gcd(a, b)
    decreases b
  {
    if b == 0 {
      x, y := 1, 0;
    } else {
      var u, v := Bezout(b, a % b);
      DivMod(a, b);
      Combine(a, b, a / b, a % b, u, v);
      x, y := v, u - (a / b) * v;
    }
  }

  lemma Combine(a: int, b: int, q: int, r: int, u: int, v: int)
    requires a == b * q + r
    ensures a * v + b * (u - q * v) == b * u + r * v
  {
    assert a * v == b * q * v + r * v;
    assert b * (u - q * v) == b * u - b * q * v;
  }

  /** A number prime to one factor of a product and dividing it divides the other. */
  lemma Euclid(k: nat, g: int, p: nat, m: int) returns (t: int)
    requires k * g == p * m && Gcd(p, k) == 1
    ensures m == k * t
  {
    var x, y := Bezout(p, k);
    t := x * g + y * m;
    assert m == (p * x + k * y) * m == (p * m) * x + k * (y * m);
    assert (k * g) * x == k * (x * g);
  }
}
