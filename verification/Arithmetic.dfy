/** Facts about division with remainder. */
module Arithmetic {
  lemma ModUnique(x: int, b: int, q: int, m: int)
    requires 0 < b && 0 <= m < b && x == q * b + m
    ensures x % b == m
  {
    var d, m' := x / b, x % b;
    assert x == d * b + m';
    assert (q - d) * b == m' - m;
    if q > d {
      MulAtLeast(q - d, b);
    } else if q < d {
      MulAtLeast(d - q, b);
    }
  }

  lemma MulAtLeast(k: int, b: int)
    requires k >= 1 && b > 0
    ensures k * b >= b
  {
  }

  lemma ModPlus(x: int, b: int)
    requires 0 < b
    ensures (x + b) % b == x % b
  {
    assert x == x / b * b + x % b;
    assert (x / b + 1) * b == x / b * b + b;
    ModUnique(x + b, b, x / b + 1, x % b);
  }
}
