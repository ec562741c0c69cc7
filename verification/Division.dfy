/** Quotients and remainders read off products. */
module Division {
  lemma OneMore(m: int, d: int)
    ensures (m + 1) * d == m * d + d
  {
  }

  lemma Times(a: int, b: int, d: int)
    requires a <= b && d >= 1
    ensures a * d <= b * d
  {
  }

  lemma Cancel(a: int, b: int, d: int)
    requires a * d < b * d && d >= 1
    ensures a < b
  {
    if b <= a {
      Times(b, a, d);
    }
  }

  lemma DivisionIs(x: int, d: int, q: int, r: int)
    requires 0 <= r < d && x == q * d + r
    ensures x / d == q && x % d == r
  {
    var p := x / d;
    assert x == p * d + x % d;
    OneMore(p, d);
    OneMore(q, d);
    Cancel(p, q + 1, d);
    Cancel(q, p + 1, d);
  }
}
