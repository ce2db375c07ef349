/** Facts about integer division by a positive divisor that the solver does
    not find on its own when the divisor is a variable. */
module Arith {

  /** A positive multiple of `n` is at least `n`. */
  lemma {:induction false} MulAtLeast(d: int, n: int)
    requires d >= 1 && n > 0
    ensures d * n >= n
    decreases d
  {
    if d > 1 {
      MulAtLeast(d - 1, n);
      assert d * n == (d - 1) * n + n;
    }
  }

  /** Euclidean division is unique: a quotient/remainder pair with the
      remainder in range is the one Dafny's `/` and `%` compute. */
  lemma DivModUnique(x: int, n: int, q: int, r: int)
    requires n > 0 && 0 <= r < n && x == q * n + r
    ensures x / n == q && x % n == r
  {
    var q', r' := x / n, x % n;
    assert x == q' * n + r';
    assert (q - q') * n == r' - r;
    if q > q' {
      MulAtLeast(q - q', n);
    } else if q < q' {
      MulAtLeast(q' - q, n);
    }
  }

  /** One more step of a counter taken modulo `n`. */
  lemma ModSucc(x: int, n: int)
    requires n > 0
    ensures (x + 1) % n == (if x % n == n - 1 then 0 else x % n + 1)
  {
    var q, r := x / n, x % n;
    assert x == q * n + r;
    if r == n - 1 {
      DivModUnique(x + 1, n, q + 1, 0);
    } else {
      DivModUnique(x + 1, n, q, r + 1);
    }
  }

  /** `x / k` goes up by one exactly when `x` reaches a multiple of `k`. */
  lemma DivStep(x: int, k: int)
    requires k > 0
    ensures x / k - (x - 1) / k == (if x % k == 0 then 1 else 0)
  {
    var q, r := x / k, x % k;
    assert x == q * k + r;
    if r == 0 {
      DivModUnique(x - 1, k, q - 1, k - 1);
    } else {
      DivModUnique(x - 1, k, q, r - 1);
    }
  }

  /** Multiplying by a non-negative factor keeps the order. */
  lemma MulMonotone(a: int, b: int, p: int)
    requires a <= b && p >= 0
    ensures a * p <= b * p
  {
    if a < b {
      if p > 0 {
        MulAtLeast(b - a, p);
      }
      assert b * p - a * p == (b - a) * p;
    }
  }
}
