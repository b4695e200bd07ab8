/** Floor division by its defining inequality. */
module Arithmetic {
  lemma {:induction false} DivBounds(a: int, m: int, q: int)
    requires m > 0
    ensures q <= a / m <==> q * m <= a
  {
    var d, r := a / m, a % m;
    assert a == d * m + r && 0 <= r < m;
    if q <= d {
      assert q * m <= d * m;
    } else {
      assert (d + 1) * m <= q * m;
    }
  }
}
