/** Integer division by a positive divisor. */
module Division {

  /** Quotient and remainder are determined by their defining equation. */
  lemma DivUnique(x: int, d: int, q: int, r: int)
    requires d > 0 && x == q * d + r && 0 <= r < d
    ensures x / d == q && x % d == r
  {
    var k := q - x / d;
    assert x == x / d * d + x % d;
    assert k * d == x % d - r;
    assert k >= 1 ==> k * d >= d;
    assert k <= -1 ==> k * d <= -d;
  }
}
