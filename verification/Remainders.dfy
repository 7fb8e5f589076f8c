/** Remainders by a variable modulus. */
module Remainders {

  lemma {:induction false} MulAtLeast(m: int, k: int)
    requires m > 0 && k >= 1
    ensures m * k >= m
    decreases k
  {
    if k > 1 {
      MulAtLeast(m, k - 1);
      assert m * k == m * (k - 1) + m;
    }
  }

  lemma MulGrows(m: int, a: int, b: int)
    requires m > 0 && a < b
    ensures m * a + m <= m * b
  {
    MulAtLeast(m, b - a);
    assert m * b == m * a + m * (b - a);
  }

  lemma QuotientIsUnique(m: int, q: int, r: int, q': int, r': int)
    requires m > 0 && m * q + r == m * q' + r' && 0 <= r < m && 0 <= r' < m
    ensures q == q' && r == r'
  {
    if q < q' {
      MulGrows(m, q, q');
    } else if q' < q {
      MulGrows(m, q', q);
    }
  }

  lemma DivMod(n: int, m: int)
    requires m > 0
    ensures n == m * (n / m) + n % m && 0 <= n % m < m
  {
  }

  lemma RemainderIsUnique(n: int, m: int, q: int, r: int)
    requires m > 0 && n == m * q + r && 0 <= r < m
    ensures n % m == r
  {
    DivMod(n, m);
    QuotientIsUnique(m, q, r, n / m, n % m);
  }

  lemma ProductIsMultiple(m: int, q: int)
    requires m > 0
    ensures (m * q) % m == 0
  {
    RemainderIsUnique(m * q, m, q, 0);
  }

  lemma MultipleOf(value: int, unit: int)
    requires unit > 0
    ensures (value - value % unit) % unit == 0 && 0 <= value % unit < unit
  {
    DivMod(value, unit);
    ProductIsMultiple(unit, value / unit);
  }

  lemma NegatedMultiple(a: int, unit: int)
    requires unit > 0 && a % unit == 0
    ensures (-a) % unit == 0
  {
    DivMod(a, unit);
    NegatedProduct(unit, a / unit);
    ProductIsMultiple(unit, -(a / unit));
  }

  lemma NegatedProduct(m: int, q: int)
    ensures m * -q == -(m * q)
  {
  }
}
