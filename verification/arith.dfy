/**
 * Integer facts the models lean on: Euclidean division is unique, products
 * grow with their factors, and divisibility is closed under linear
 * combinations.
 */
module Arith {
  function Abs(x: int): (r: nat)
    ensures r == x || r == -x
  {
    if x < 0 then -x else x
  }

  /** `d` is a positive divisor of `x`. */
  predicate Divides(d: nat, x: int)
  {
    d > 0 && x % d == 0
  }

  lemma MulAtLeast(k: int, d: int)
    requires k >= 1 && d >= 0
    ensures k * d >= d
  {
    assert k * d == (k - 1) * d + d;
    assert (k - 1) * d >= 0;
  }

  lemma MulLe(a: nat, b: nat, k: nat)
    requires a <= b
    ensures a * k <= b * k
  {
    assert b * k == a * k + (b - a) * k;
  }

  /** Division by `d` is determined by any quotient-remainder split with `0 <= r < d`. */
  lemma DivModUnique(x: int, d: int, q: int, r: int)
    requires d > 0 && 0 <= r < d && x == q * d + r
    ensures x / d == q && x % d == r
  {
    var q', r' := x / d, x % d;
    assert q' * d + r' == x;
    if q' < q {
      assert (q - q') * d == q * d - q' * d;
      MulAtLeast(q - q', d);
    } else if q < q' {
      assert (q' - q) * d == q' * d - q * d;
      MulAtLeast(q' - q, d);
    }
  }

  /** A quotient of a natural number by a positive divisor is a natural number. */
  lemma DivNonneg(x: int, d: int)
    requires x >= 0 && d > 0
    ensures x / d >= 0
  {
  }

  /** Every multiple of `d` is divisible by `d`. */
  lemma DividesMultiple(d: nat, k: int)
    requires d > 0
    ensures Divides(d, d * k)
  {
    DivModUnique(d * k, d, k, 0);
  }

  /** A divisible number is `d` times its quotient. */
  lemma DividesQuotient(d: nat, x: int)
    requires Divides(d, x)
    ensures x == d * (x / d)
  {
  }

  /** A divisor of `x` and `y` divides `k * x + m * y`. */
  lemma DividesLinear(d: nat, x: int, y: int, k: int, m: int)
    requires Divides(d, x) && Divides(d, y)
    ensures Divides(d, k * x + m * y)
  {
    var p, q := x / d, y / d;
    assert k * x == d * (k * p) by {
      assert x == d * p;
    }
    assert m * y == d * (m * q) by {
      assert y == d * q;
    }
    assert k * x + m * y == d * (k * p + m * q);
    DividesMultiple(d, k * p + m * q);
  }

  /** A positive multiple of `d` is at least `d`. */
  lemma DividesLe(d: nat, x: int)
    requires Divides(d, x) && x > 0
    ensures d <= x
  {
    DividesQuotient(d, x);
    assert x / d != 0;
    MulAtLeast(x / d, d);
  }

  /** Divisibility only depends on the magnitude. */
  lemma DividesAbs(d: nat, x: int)
    requires d > 0
    ensures Divides(d, x) <==> Divides(d, Abs(x))
  {
    if x < 0 {
      if Divides(d, x) {
        DividesLinear(d, x, x, -1, 0);
      }
      if Divides(d, -x) {
        DividesLinear(d, -x, -x, -1, 0);
      }
    }
  }

  /** `(a + n * m) % n == a % n`. */
  lemma ModShift(a: int, n: nat, m: int)
    requires n > 0
    ensures (a + n * m) % n == a % n
  {
    DivModUnique(a + n * m, n, a / n + m, a % n);
  }

  /** Equal remainders differ by a multiple. */
  lemma SameRemainder(a: int, b: int, n: nat)
    requires n > 0 && a % n == b % n
    ensures Divides(n, a - b)
  {
    assert a - b == n * (a / n - b / n);
    DividesMultiple(n, a / n - b / n);
  }

  /** `g * a == g * b` with `g > 0` gives `a == b`. */
  lemma Cancel(g: int, a: int, b: int)
    requires g > 0 && g * a == g * b
    ensures a == b
  {
    if a < b {
      assert g * (b - a) == g * b - g * a;
      MulAtLeast(b - a, g);
    } else if b < a {
      assert g * (a - b) == g * a - g * b;
      MulAtLeast(a - b, g);
    }
  }

  /** Reducing before adding changes nothing modulo `n`. */
  lemma ModAddMod(a: int, b: int, n: nat)
    requires n > 0
    ensures (a % n + b) % n == (a + b) % n
  {
    assert a % n + b == a + b + n * -(a / n);
    ModShift(a + b, n, -(a / n));
  }

  /** Adding a multiple of `g` keeps the remainder. */
  lemma ModAddMultiple(a: int, t: int, g: nat)
    requires Divides(g, t)
    ensures (a + t) % g == a % g
  {
    DividesQuotient(g, t);
    ModShift(a, g, t / g);
  }

  /** Reducing modulo a multiple of `g` keeps the remainder modulo `g`. */
  lemma ModMod(a: int, n: nat, g: nat)
    requires n > 0 && Divides(g, n)
    ensures (a % n) % g == a % g
  {
    DividesLinear(g, n, n, -(a / n), 0);
    assert a % n == a + -(a / n) * n;
    ModAddMultiple(a, -(a / n) * n, g);
  }

  /** The remainder differs from the dividend by a multiple of the divisor, and is the dividend when that is smaller. */
  lemma ModResidue(v: nat, m: nat)
    requires m > 0
    ensures (v - v % m) % m == 0
    ensures v < m ==> v % m == v
  {
    DivModUnique(v - v % m, m, v / m, 0);
    if v < m {
      DivModUnique(v, m, 0, v);
    }
  }
}
