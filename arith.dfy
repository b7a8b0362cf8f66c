/** Facts about Euclidean division, used by the time base and by the user-IO loop bound. */
module Arith {

  /** Euclidean division is determined by quotient and remainder. */
  lemma DivUnique(a: int, p: int, q: int, r: int)
    requires p > 0 && 0 <= r < p && a == q * p + r
    ensures a / p == q && a % p == r
  {
    var q', r' := a / p, a % p;
    assert a == q' * p + r';
    if q' < q {
      assert q * p - q' * p == (q - q') * p;
      MulAtLeast(q - q', p);
    } else if q' > q {
      assert q' * p - q * p == (q' - q) * p;
      MulAtLeast(q' - q, p);
    }
  }

  lemma MulAtLeast(k: int, p: int)
    requires k >= 1 && p > 0
    ensures k * p >= p
  {
  }
}
