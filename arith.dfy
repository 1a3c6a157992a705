/** Facts about multiplying and dividing exact reals by a positive width. */
module RealArith {

  /** A count divided by a length it does not exceed lies in [0, 1], and is
      0 or 1 exactly when the count is 0 or the whole length. */
  lemma DivBounds(c: real, n: real)
    requires 0.0 <= c <= n && 0.0 < n
    ensures 0.0 <= c / n <= 1.0
    ensures (c / n) * n == c
    ensures c / n == 0.0 <==> c == 0.0
    ensures c / n == 1.0 <==> c == n
  {
  }

  /** A non-negative range is less than one width exactly when their
      quotient is less than 1. */
  lemma BelowOneWidth(range: real, width: real)
    requires 0.0 <= range && 0.0 < width
    ensures 0.0 <= range / width
    ensures range < width <==> range / width < 1.0
  {
  }

  /** `n` widths fit into `range`, and `n + 1` do not. */
  predicate WidthsFit(n: int, width: real, range: real) {
    n as real * width <= range < (n + 1) as real * width
  }

  /** If `n` is `range / width` rounded down, `n` widths fit into `range`
      and `n + 1` do not. */
  lemma FloorScale(range: real, width: real, n: int)
    requires 0.0 < width
    requires n as real <= range / width < (n + 1) as real
    ensures WidthsFit(n, width, range)
  {
    var q := range / width;
    assert q * width == range;
    assert n as real * width <= q * width;
    assert q * width < (n + 1) as real * width;
  }
}
