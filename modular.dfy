/** Facts about `%` with a positive divisor, the wrap-around that turns
    the grid into a torus. For a positive divisor Dafny's `%` and Python's
    `%` agree: both give the remainder in [0, n). */
module Modular {

  /** Euclidean division has one quotient and one remainder: if
      a == q * n + r with 0 <= r < n, then a % n == r. */
  lemma ModUnique(a: int, q: int, r: int, n: int)
    requires n > 0 && 0 <= r < n && a == q * n + r
    ensures a % n == r && a / n == q
  {
    var q', r' := a / n, a % n;
    assert a == q' * n + r';
    if q' < q {
      QuotientOrder(q', r', q, r, n);
    } else if q < q' {
      QuotientOrder(q, r, q', r', n);
    }
  }

  /** A larger quotient gives a larger value, whatever the remainders. */
  lemma QuotientOrder(q1: int, r1: int, q2: int, r2: int, n: int)
    requires q1 < q2 && 0 <= r1 < n && 0 <= r2
    ensures q1 * n + r1 < q2 * n + r2
  {
    var d := q2 - q1;
    assert q2 * n == q1 * n + d * n;
    assert d * n == (d - 1) * n + n;
    assert (d - 1) * n >= 0;
  }

  /** A value already in [0, n) wraps to itself. */
  lemma ModSmall(k: int, n: int)
    requires 0 <= k < n
    ensures k % n == k
  {
    ModUnique(k, 0, k, n);
  }

  /** Wrapping before adding changes nothing modulo n. */
  lemma ModAddLeft(a: int, b: int, n: int)
    requires n > 0
    ensures (a % n + b) % n == (a + b) % n
  {
    var q, r := (a + b) / n, (a + b) % n;
    assert a == (a / n) * n + a % n;
    assert a % n + b == (q - a / n) * n + r by {
      assert (q - a / n) * n == q * n - (a / n) * n;
    }
    ModUnique(a % n + b, q - a / n, r, n);
  }

  /** Adding `a` and then `d` with a wrap after each step lands where
      adding `d` and then `a` does: a neighbour offset and a shift of the
      torus commute. */
  lemma WrapOffset(i: int, a: int, d: int, n: int)
    requires n > 0
    ensures ((i + a) % n + d) % n == ((i + d) % n + a) % n
  {
    calc {
      ((i + a) % n + d) % n;
      { ModAddLeft(i + a, d, n); }
      (i + a + d) % n;
      { ModAddLeft(i + d, a, n); }
      ((i + d) % n + a) % n;
    }
  }
}
