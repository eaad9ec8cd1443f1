/** Facts about products that the solver is slow to find by itself, one to a lemma. */
module Arithmetic {

  lemma MulMonotone(a: int, b: int, m: int)
    requires a <= b && 0 <= m
    ensures m * a <= m * b
    ensures a * m <= b * m
  {
  }

  lemma MulDistributes(m: int, a: int, b: int)
    ensures m * (a + b) == m * a + m * b
    ensures (a + b) * m == a * m + b * m
  {
  }

  lemma MulAssociates(a: int, b: int, c: int)
    ensures (a * b) * c == a * (b * c)
  {
  }

  lemma DivMod(n: int, m: int)
    requires m > 0
    ensures n == m * (n / m) + n % m
    ensures 0 <= n % m < m
  {
  }

  /** Quotient and remainder are determined by the equation they satisfy. */
  lemma DivModUnique(n: int, m: int, q: int, r: int)
    requires m > 0 && n == m * q + r && 0 <= r < m
    ensures n / m == q && n % m == r
  {
    DivMod(n, m);
    if n / m < q {
      MulMonotone(n / m + 1, q, m);
      MulDistributes(m, n / m, 1);
    } else if n / m > q {
      MulMonotone(q + 1, n / m, m);
      MulDistributes(m, q, 1);
    }
  }
}
