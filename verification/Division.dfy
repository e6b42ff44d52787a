/** Uniqueness of quotient and remainder. */
module Division {
  lemma DivisionIs(a: int, m: int, q: int, r: int)
    requires 0 <= r < m && a == m * q + r
    ensures a / m == q && a % m == r
  {
    var d := q - a / m;
    assert m * d == m * q - m * (a / m) == a % m - r;
    MultipleIsFar(m, d);
  }

  lemma MultipleIsFar(m: int, d: int)
    requires m > 0
    ensures d >= 1 ==> m * d >= m
    ensures d <= -1 ==> m * d <= -m
  {}

  lemma AddModulus(v: int, m: int)
    requires m > 0
    ensures (v + m) % m == v % m
  {
    var q := v / m;
    assert v + m == m * (q + 1) + v % m;
    DivisionIs(v + m, m, q + 1, v % m);
  }

  lemma NextRemainder(a: nat, m: nat)
    requires m > 0
    ensures (a + 1) % m == if a % m + 1 == m then 0 else a % m + 1
  {
    var q, r := a / m, a % m;
    if r + 1 == m {
      assert m * (q + 1) == m * q + m;
      DivisionIs(a + 1, m, q + 1, 0);
    } else {
      DivisionIs(a + 1, m, q, r + 1);
    }
  }

  /** Reducing an operand first changes no sum. */
  lemma ReduceOnce(a: int, d: int, m: int)
    requires m > 0
    ensures (a % m + d) % m == (a + d) % m
    ensures (d - a % m) % m == (d - a) % m
  {
    QuotientOf(a, m);
    SameRemainder(a + d, a % m + d, a / m, m);
    SameRemainder(d - a, d - a % m, -(a / m), m);
  }

  lemma SameRemainder(x: int, y: int, q: int, m: int)
    requires m > 0 && x - y == m * q
    ensures x % m == y % m
  {
    Shifted(y, q, m);
  }

  lemma QuotientOf(a: int, m: int)
    requires m > 0
    ensures m * (a / m) == a - a % m && m * -(a / m) == a % m - a
  {
    NegativeTimes(m, a / m);
  }

  lemma NegativeTimes(m: int, q: int)
    ensures m * -q == -(m * q)
  {}

  lemma Shifted(a: int, q: int, m: int)
    requires m > 0
    ensures (a + m * q) % m == a % m
  {
    var k := a / m;
    assert a + m * q == m * (k + q) + a % m;
    DivisionIs(a + m * q, m, k + q, a % m);
  }
}
