/** Remainders with a variable modulus, from products up. */
module Modular {
  lemma {:induction false} ProductAtLeast(x: int, m: nat)
    requires x >= 1
    ensures x * m >= m
  {
    if x > 1 {
      ProductAtLeast(x - 1, m);
      assert x * m == (x - 1) * m + m;
    }
  }

  lemma UniqueRemainder(a: int, q: int, r: int, m: nat)
    requires m > 0 && a == q * m + r && 0 <= r < m
    ensures a % m == r
  {
    var q', r' := a / m, a % m;
    assert a == q' * m + r';
    assert (q - q') * m == q * m - q' * m == r' - r;
    if q - q' >= 1 {
      ProductAtLeast(q - q', m);
    } else if q' - q >= 1 {
      assert (q' - q) * m == r - r';
      ProductAtLeast(q' - q, m);
    } else {
      assert q == q';
    }
  }

  lemma ModOfSmall(a: int, m: nat)
    requires 0 <= a < m
    ensures a % m == a
  {
    UniqueRemainder(a, 0, a, m);
  }

  lemma ModOnce(a: int, m: nat)
    requires m <= a < 2 * m || 0 - m <= a < 0
    ensures a % m == if a < 0 then a + m else a - m
  {
    UniqueRemainder(a, if a < 0 then -1 else 1, if a < 0 then a + m else a - m, m);
  }

  lemma SameResidue(a: int, q: int, m: nat)
    requires m > 0
    ensures (a + q * m) % m == a % m
  {
    var q', r := a / m, a % m;
    assert a == q' * m + r;
    assert a + q * m == (q' + q) * m + r;
    UniqueRemainder(a + q * m, q' + q, r, m);
  }
}
