/** Facts about multiplication and division. */
module Arith {

  lemma SmallMultiple(g: int, d: int)
    requires g > 0 && -g < g * d < g
    ensures d == 0
  {}

  lemma DivMod(n: int, k: int, r: int)
    requires 0 <= r < n
    ensures (n * k + r) / n == k && (n * k + r) % n == r
  {
    var q, r' := (n * k + r) / n, (n * k + r) % n;
    assert n * (k - q) == r' - r;
    SmallMultiple(n, k - q);
  }

  lemma Multiple(g: int, k: int)
    requires g > 0
    ensures (g * k) % g == 0 && (g * k) / g == k
  {
    DivMod(g, k, 0);
  }

  lemma Apart(y: nat, q: nat, r: nat)
    requires q * y < r * y + y
    ensures q * y <= r * y
  {
    if q > r {
      assert (r + 1) * y == r * y + y;
      Times(r + 1, q, y);
    }
  }

  lemma {:induction false} Times(a: nat, b: nat, y: nat)
    requires a <= b
    ensures a * y <= b * y
    decreases b - a
  {
    if a < b {
      Times(a + 1, b, y);
      assert (a + 1) * y == a * y + y;
    }
  }
}
