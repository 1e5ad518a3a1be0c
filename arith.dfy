/** Integer division facts shared by the ring buffer and the grid coordinates. */
module Arith {
  /** Quotient and remainder are unique: `a == q * m + r` with `0 <= r < m` fixes both. */
  lemma DivModUnique(a: int, m: int, q: int, r: int)
    requires m > 0 && 0 <= r < m && a == q * m + r
    ensures a / m == q && a % m == r
  {
    var q', r' := a / m, a % m;
    assert (q - q') * m == r' - r;
    if q - q' >= 1 {
      assert false;
    } else if q - q' <= -1 {
      assert false;
    }
  }
}
