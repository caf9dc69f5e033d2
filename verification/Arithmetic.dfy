/** Small facts about division that several components need. */
module Arithmetic {

  function Pow2(n: nat): (p: nat)
    ensures p >= 1
  {
    if n == 0 then 1 else 2 * Pow2(n - 1)
  }

  lemma ModBelowTwice(n: int, d: int)
    requires 0 < d <= n < 2 * d
    ensures n % d == n - d
  {
    assert (n - d) % d == n - d;
    assert ((n - d) + d) % d == n - d;
  }

  lemma MulAtLeast(k: int, n: int)
    requires k >= 1 && n >= 0
    ensures k * n >= n
  {
  }

  lemma Division(x: nat, n: nat)
    requires n > 0
    ensures x / n >= 0 && x - x / n * n == x % n
  {
  }

  lemma QuotientBelow(x: nat, n: nat, m: nat)
    requires n > 0
    ensures x / n < m <==> x < m * n
  {
    var q := x / n;
    assert x == q * n + x % n;
    if q < m {
      MulAtLeast(m - q, n);
      assert (m - q) * n == m * n - q * n;
    } else {
      assert (q - m) * n == q * n - m * n;
    }
  }

  /** Division with remainder is unique. */
  lemma RemainderIs(x: nat, q: nat, r: nat, n: nat)
    requires n > 0 && x == q * n + r && r < n
    ensures x % n == r && x / n == q
  {
    var q', r' := x / n, x % n;
    assert x == q' * n + r';
    assert (q - q') * n == r' - r;
    if q > q' { MulAtLeast(q - q', n); }
    if q' > q {
      assert (q' - q) * n == r - r';
      MulAtLeast(q' - q, n);
    }
  }

  lemma WholeTurn(x: nat, n: nat)
    requires n > 0
    ensures (x + n) % n == x % n
  {
    var q, r := x / n, x % n;
    assert x == q * n + r;
    assert (q + 1) * n == q * n + n;
    RemainderIs(x + n, q + 1, r, n);
  }

  lemma DivisionShrinks(n: nat, b: nat)
    requires 2 <= b <= n
    ensures 0 < n / b < n && n % b < b && n == n / b * b + n % b
  {
    var q, r := n / b, n % b;
    assert n == q * b + r;
    if q >= 1 {
      MulAtLeast(q, b - 1);
      assert q * b == q * (b - 1) + q;
    }
  }
}
