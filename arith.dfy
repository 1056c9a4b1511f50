/** Facts about Euclidean division that the index arithmetic needs.
    All operands are non-negative, where Dafny's `/` and `%` agree with C#'s. */
module Arith {

  lemma DivModUnique(x: int, m: int, q: int, r: int)
    requires m > 0 && 0 <= r < m && x == q * m + r
    ensures x / m == q && x % m == r
  {
    var q', r' := x / m, x % m;
    assert x == q' * m + r';
    if q > q' {
      assert (q - q') * m >= m by { MulMonotone(q - q', 1, m); }
    } else if q < q' {
      assert (q' - q) * m >= m by { MulMonotone(q' - q, 1, m); }
    }
  }

  /** An exact division multiplies back. */
  lemma DivExact(x: int, m: int)
    requires m > 0 && x % m == 0
    ensures (x / m) * m == x
  {
    assert x == (x / m) * m + x % m;
  }

  /** A positive multiple of `m` is at least `m`. */
  lemma MultipleAtLeast(x: int, m: int)
    requires m > 0 && x > 0 && x % m == 0
    ensures x >= m
  {
    var q := x / m;
    assert x == q * m;
    if q <= 0 {
      MulMonotone(0, q, m);
    } else {
      MulMonotone(q, 1, m);
    }
  }

  /** One step of scaling a block `[s * p, (s + 1) * p)` by a further factor `d`. */
  lemma BlockStep(s: int, p: int, d: int)
    ensures (s * p) * d == s * (p * d)
    ensures ((s + 1) * p - 1) * d + (d - 1) == (s + 1) * (p * d) - 1
  {
    MulAssoc(s, p, d);
    MulAssoc(s + 1, p, d);
  }

  /** Horner's rule absorbs a whole multiple of the leading block. */
  lemma HornerCarry(k: int, p: int, o: int, d: int, c: int)
    ensures k * (p * d) + (o * d + c) == (k * p + o) * d + c
  {
    MulAssoc(k, p, d);
    assert (k * p + o) * d == k * p * d + o * d;
  }

  lemma MulAssoc(x: int, y: int, z: int)
    ensures x * (y * z) == x * y * z
  {
  }

  lemma Distrib(k: int, a: int, c: int, p: int)
    ensures (k * a + c) * p == k * (a * p) + c * p
  {
    assert (k * a + c) * p == k * a * p + c * p;
  }

  lemma MulMonotone(a: int, b: int, m: int)
    requires a >= b && m >= 0
    ensures a * m >= b * m
  {
    assert a * m - b * m == (a - b) * m;
  }

  /** Dividing by `b` and then by `a` is dividing by `a * b`; the remainders combine mixed-radix. */
  lemma DivDiv(x: int, a: int, b: int)
    requires x >= 0 && a > 0 && b > 0
    ensures (x / b) / a == x / (a * b)
    ensures x % (a * b) == ((x / b) % a) * b + x % b
  {
    var q1, r1 := x / b, x % b;
    var q2, r2 := q1 / a, q1 % a;
    assert x == q2 * (a * b) + (r2 * b + r1) by {
      assert x == q1 * b + r1;
      assert q1 == q2 * a + r2;
      assert q1 * b == q2 * a * b + r2 * b;
    }
    assert r2 * b + r1 < a * b by {
      MulMonotone(a - 1, r2, b);
      assert (a - 1) * b == a * b - b;
    }
    assert 0 <= r2 * b by { MulMonotone(r2, 0, b); }
    DivModUnique(x, a * b, q2, r2 * b + r1);
  }

  /** A quotient stays below `p` exactly when the dividend stays below `p` blocks. */
  lemma DivLess(x: int, d: int, p: int)
    requires x >= 0 && d > 0
    ensures x / d < p <==> x < p * d
  {
    var q, r := x / d, x % d;
    assert x == q * d + r;
    if q < p {
      MulMonotone(p, q + 1, d);
    } else {
      MulMonotone(q, p, d);
    }
  }
}
