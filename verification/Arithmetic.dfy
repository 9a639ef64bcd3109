/** Powers, and facts about Euclidean division that the solver does not find by itself. */
module Arithmetic {

  function Pow2(k: nat): (r: nat)
    ensures r >= 1
  {
    if k == 0 then 1 else 2 * Pow2(k - 1)
  }

  lemma MulAtLeast(k: int, n: int)
    requires k >= 1 && n > 0
    ensures k * n >= n
  {
  }

  lemma DivUnique(x: int, n: int, q: int, r: int)
    requires n > 0 && x == q * n + r && 0 <= r < n
    ensures x / n == q && x % n == r
  {
    var q', r' := x / n, x % n;
    assert (q - q') * n == r' - r;
    if q != q' {
      MulAtLeast(if q > q' then q - q' else q' - q, n);
    }
  }

  lemma DivShift(x: int, n: int, k: int)
    requires n > 0
    ensures (x + n * k) / n == x / n + k && (x + n * k) % n == x % n
  {
    assert x + n * k == (x / n + k) * n + x % n;
    DivUnique(x + n * k, n, x / n + k, x % n);
  }

  lemma DivStep(y: int, n: int)
    requires n > 0
    ensures y / n - (y - 1) / n == if y % n == 0 then 1 else 0
  {
    var q, r := y / n, y % n;
    assert y == q * n + r;
    if r == 0 {
      assert y - 1 == (q - 1) * n + (n - 1);
      DivUnique(y - 1, n, q - 1, n - 1);
    } else {
      DivUnique(y - 1, n, q, r - 1);
    }
  }

  lemma NegDiv(y: int, n: int)
    requires n > 0
    ensures (-(y + 1)) / n == -(y / n) - 1
  {
    var q, r := y / n, y % n;
    assert -(y + 1) == (-q - 1) * n + (n - 1 - r);
    DivUnique(-(y + 1), n, -q - 1, n - 1 - r);
  }
}
