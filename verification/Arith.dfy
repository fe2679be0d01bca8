/** Remainders and powers of two. */
module Arith {

  lemma ModIs(x: int, q: int, r: int, m: int)
    requires m > 0 && 0 <= r < m && x == m * q + r
    ensures x % m == r
  {
    var d := x / m - q;
    assert m * d == r - x % m by {
      assert x == m * (x / m) + x % m;
      assert m * (x / m) - m * q == m * d;
    }
    assert d >= 1 ==> m * d >= m;
    assert d <= -1 ==> m * d <= -m;
  }

  lemma ModShift(x: int, m: int)
    requires m > 0
    ensures (x + m) % m == x % m && (x - m) % m == x % m
  {
    assert x == m * (x / m) + x % m;
    ModIs(x + m, x / m + 1, x % m, m);
    ModIs(x - m, x / m - 1, x % m, m);
  }

  lemma ModAdd(x: int, y: int, m: int)
    requires m > 0
    ensures (x % m + y) % m == (x + y) % m
  {
    var s := x % m + y;
    assert s == m * (s / m) + s % m;
    assert x == m * (x / m) + x % m;
    assert x + y == m * (x / m + s / m) + s % m by {
      assert m * (x / m + s / m) == m * (x / m) + m * (s / m);
    }
    ModIs(x + y, x / m + s / m, s % m, m);
  }

  lemma ModSmall(x: int, m: int)
    requires m > 0 && 0 <= x < 2 * m
    ensures x % m == if x < m then x else x - m
  {
    ModIs(x, if x < m then 0 else 1, if x < m then x else x - m, m);
  }

  function Pow2(n: nat): (p: nat)
    ensures p > 0
  {
    if n == 0 then 1 else 2 * Pow2(n - 1)
  }

  lemma {:induction false} Pow2Monotone(m: nat, n: nat)
    requires m <= n
    ensures Pow2(m) <= Pow2(n)
    decreases n - m
  {
    if m < n { Pow2Monotone(m, n - 1); }
  }
}
