/** Integer multiplication and division facts the arithmetic proofs share. */
module Arith {

  lemma Distribute(a: int, b: int, c: int)
    ensures (a + b) * c == a * c + b * c
    ensures (a - b) * c == a * c - b * c
  {
  }

  lemma MulMonotone(a: int, b: int, c: int)
    requires a <= b && 0 <= c
    ensures a * c <= b * c
  {
    Distribute(b, a, c);
    assert (b - a) * c >= 0;
  }

  /** The floor quotient q of n by b is the only q with q * b <= n < (q + 1) * b. */
  lemma QuotientIs(n: int, b: int, q: int)
    requires 0 < b && q * b <= n < (q + 1) * b
    ensures n / b == q
  {
    var x := n / b;
    DivBounds(n, b);
    if x > q {
      MulMonotone(q + 1, x, b);
    } else if x < q {
      MulMonotone(x + 1, q, b);
    }
  }

  lemma DivBounds(n: int, b: int)
    requires 0 < b
    ensures n / b * b <= n < (n / b + 1) * b
  {
    Distribute(n / b, 1, b);
  }

  /** Floor division and multiplication form a Galois connection. */
  lemma DivAdjoint(n: int, b: int, q: int)
    requires 0 < b
    ensures q * b <= n <==> q <= n / b
  {
    DivBounds(n, b);
    if q <= n / b {
      MulMonotone(q, n / b, b);
    } else {
      MulMonotone(n / b + 1, q, b);
    }
  }
}
