/** Facts about integer division the grouping and splitting contracts need;
    the solver does not find them unaided when the divisor is a variable. */
module Arith {

  lemma MulTwice(x: int, y: int)
    ensures x * (2 * y) == 2 * (x * y)
  {
  }

  lemma MulSucc(m: int, q: int)
    ensures m * (q + 1) == m * q + m
  {
  }

  lemma {:induction false} MulAtLeast(n: nat, x: nat)
    requires x >= 1
    ensures n * x >= n
  {
    if x > 1 {
      MulAtLeast(n, x - 1);
      assert n * x == n * (x - 1) + n;
    }
  }

  /** The quotient is the one `q` with `n * q <= a < n * q + n`. */
  lemma DivUnique(a: int, n: int, q: int)
    requires 0 < n && 0 <= a
    requires n * q <= a < n * q + n
    ensures a / n == q
  {
    var d := a / n;
    assert n * d <= a < n * d + n;
    if d > q {
      assert n * d == n * q + n * (d - q);
      MulAtLeast(n, d - q);
    } else if d < q {
      assert n * q == n * d + n * (q - d);
      MulAtLeast(n, q - d);
    }
  }

  lemma DivStep(a: int, n: int)
    requires 0 <= a && 0 < n
    ensures (a + n) / n == a / n + 1
  {
    var q := a / n;
    assert n * (q + 1) == n * q + n;
    DivUnique(a + n, n, q + 1);
  }

  lemma ModStep(a: int, n: int)
    requires 0 <= a && 0 < n
    ensures (a + n) % n == a % n
  {
    MulSucc(n, a / n);
    DivModUnique(a + n, n, a / n + 1, a % n);
  }

  lemma DivSmall(a: int, n: int)
    requires 0 <= a < n
    ensures a / n == 0
  {
    DivUnique(a, n, 0);
  }

  lemma DivOne(a: int, n: int)
    requires 0 < n <= a < 2 * n
    ensures a / n == 1
  {
    DivUnique(a, n, 1);
  }

  /** Quotient and remainder are the `q` and `r` with `a == q * n + r` and
      `0 <= r < n`. */
  lemma DivModUnique(a: int, n: int, q: int, r: int)
    requires 0 < n && 0 <= a && 0 <= r < n
    requires a == q * n + r
    ensures a / n == q && a % n == r
  {
    assert n * q <= a < n * q + n;
    DivUnique(a, n, q);
  }
}
