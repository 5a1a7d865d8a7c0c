/** Facts about products and quotients that the solver does not find by itself. */
module Arithmetic {

  lemma ProductMonotone(i: int, j: int, m: int)
    requires i <= j && m > 0
    ensures i * m <= j * m
  {
  }

  lemma DivisionParts(x: int, m: int)
    requires m > 0
    ensures x == (x / m) * m + x % m && 0 <= x % m < m
  {
  }

  /** A quotient is determined by the multiple at or below the dividend. */
  lemma QuotientIs(x: int, q: int, m: int)
    requires m > 0
    ensures q * m <= x < (q + 1) * m <==> x / m == q
  {
    var p := x / m;
    DivisionParts(x, m);
    if q * m <= x < (q + 1) * m {
      if p < q {
        ProductMonotone(p + 1, q, m);
      } else if p > q {
        ProductMonotone(q + 1, p, m);
      }
    }
  }

  lemma MultipleOf(q: int, m: int)
    requires m > 0
    ensures (q * m) % m == 0 && (q * m) / m == q
  {
    QuotientIs(q * m, q, m);
    assert (q + 1) * m == q * m + m;
    DivisionParts(q * m, m);
  }

  /** Adding a multiple adds to the quotient. */
  lemma QuotientOfSum(x: int, j: int, m: int)
    requires m > 0
    ensures (x + j * m) / m == x / m + j
  {
    var q := x / m;
    DivisionParts(x, m);
    assert (q + j) * m == q * m + j * m;
    assert (q + j + 1) * m == (q + j) * m + m;
    QuotientIs(x + j * m, q + j, m);
  }

  /** Multiples at or below a number are those up to its quotient. */
  lemma Quotient(x: int, j: int, m: int)
    requires m > 0 && x >= 0
    ensures j * m <= x <==> j <= x / m
  {
    DivisionParts(x, m);
    if j <= x / m {
      ProductMonotone(j, x / m, m);
    } else {
      ProductMonotone(x / m + 1, j, m);
      assert (x / m + 1) * m == (x / m) * m + m;
    }
  }
}
