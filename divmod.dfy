/** Facts about Euclidean division that the crop-box geometry relies on. */
module DivMod {
  /** Multiplying by a non-negative factor preserves order. */
  lemma MulMonotone(a: int, b: int, d: int)
    requires a <= b && 0 <= d
    ensures a * d <= b * d
  {

  }

  /** Quotient and remainder are the only pair with `n == q * d + r` and `0 <= r < d`. */
  lemma {:induction false} DivModUnique(n: int, d: int, q: int, r: int)
    requires 0 < d && 0 <= r < d && n == q * d + r
    ensures n / d == q && n % d == r
  {
    var q', r' := n / d, n % d;
    assert n == q' * d + r';
    if q' < q {
      assert (q' + 1) * d == q' * d + d;
      MulMonotone(q' + 1, q, d);
    } else if q < q' {
      assert (q + 1) * d == q * d + d;
      MulMonotone(q + 1, q', d);
    }
  }

  /** `x` lies in the `c`-th band of width `d` exactly when `x / d == c`. */
  lemma BandOf(x: int, d: int, c: int)
    requires 0 < d && c * d <= x < c * d + d
    ensures x / d == c
  {
    DivModUnique(x, d, c, x - c * d);
  }

  /** An integer quotient `i / j` equal to `k` means `i == k * j`. */
  lemma RealQuotient(i: int, j: int, k: int)
    requires j != 0 && i as real / j as real == k as real
    ensures i == k * j
  {

  }
}
