/** A few facts about remainders, for sequence numbers, timestamps and ring positions. */
module Modular {

  lemma MulAtLeast(m: int, d: int)
    requires m > 0
    ensures d >= 1 ==> m * d >= m
    ensures d <= -1 ==> m * d <= -m
  {}

  lemma ModIs(a: int, q: int, r: int, m: int)
    requires m > 0 && 0 <= r < m && a == m * q + r
    ensures a % m == r
  {
    var d := a / m - q;
    assert m * d == m * (a / m) - m * q;
    MulAtLeast(m, d);
  }

  lemma ModStep(a: int, d: int, m: int)
    requires m > 0
    ensures (a % m + d) % m == (a + d) % m
  {
    var x := a % m + d;
    assert a + d == m * (a / m + x / m) + x % m;
    ModIs(a + d, a / m + x / m, x % m, m);
  }

  /** Numbers less than m apart have different remainders. */
  lemma ModApart(a: int, b: int, m: int)
    requires m > 0 && 0 < b - a < m
    ensures a % m != b % m
  {
    var d := b / m - a / m;
    assert m * d == m * (b / m) - m * (a / m);
    MulAtLeast(m, d);
  }

  lemma QuotientIs(a: int, q: int, r: int, m: int)
    requires m > 0 && 0 <= r < m && a == m * q + r
    ensures a / m == q && a % m == r
  {
    ModIs(a, q, r, m);
    var d := a / m - q;
    assert m * d == m * (a / m) - m * q;
    MulAtLeast(m, d);
  }

  lemma ModDifference(a: int, b: int, m: int)
    requires m > 0
    ensures (a % m - b % m) % m == (a - b) % m
  {
    ModStep(a, -(b % m), m);
    var x := a - b % m;
    assert a - b == m * (x / m - b / m) + x % m by {
      assert m * (x / m - b / m) == m * (x / m) - m * (b / m);
    }
    ModIs(a - b, x / m - b / m, x % m, m);
  }
}
