/** Multiplication and division facts shared by the other modules. */
module Arith {

  lemma Distribute(a: int, b: int, n: int)
    ensures (a + b) * n == a * n + b * n
  {
  }

  /** A larger multiple is larger by at least one step. */
  lemma MulGap(a: int, b: int, n: int)
    requires a < b && n > 0
    ensures a * n + n <= b * n
  {
    var d: nat := b - a - 1;
    Distribute(a + 1, d, n);
    Distribute(a, 1, n);
    MulNonNegative(d, n);
  }

  lemma {:induction false} MulNonNegative(a: nat, n: nat)
    ensures a * n >= 0
  {
  }

  /** Quotient and remainder are unique. */
  lemma DivModUnique(m: int, n: int, q: int, r: int)
    requires 0 <= r < n && m == q * n + r
    ensures m / n == q && m % n == r
  {
    var q', r' := m / n, m % n;
    assert m == q' * n + r';
    if q < q' {
      MulGap(q, q', n);
    } else if q' < q {
      MulGap(q', q, n);
    }
  }
}
