// Divisibility facts behind the choice of tick.
module Divisibility {

  lemma ProductBounds(d: nat, k: int)
    ensures k >= 1 ==> d * k >= d
    ensures k <= -1 ==> d * k + d <= 0
  {
  }

  lemma QuotientUnique(a: int, d: nat, q: int, r: int)
    requires d > 0 && a == d * q + r && 0 <= r < d
    ensures a / d == q && a % d == r
  {
    var k := a / d - q;
    assert d * (a / d) == d * q + d * k;
    assert r - a % d == d * k;
    ProductBounds(d, k);
  }

  lemma MultipleMod(d: nat, k: int)
    requires d > 0
    ensures (d * k) % d == 0 && (d * k) / d == k
  {
    QuotientUnique(d * k, d, k, 0);
  }

  lemma SumOfMultiples(d: nat, x: int, y: int)
    requires d > 0 && x % d == 0 && y % d == 0
    ensures (x + y) % d == 0 && (x - y) % d == 0
  {
    var a, b := x / d, y / d;
    assert x == d * a && y == d * b;
    assert x + y == d * (a + b) && x - y == d * (a - b);
    MultipleMod(d, a + b);
    MultipleMod(d, a - b);
  }

  lemma ScaledMultiple(d: nat, x: int, k: int)
    requires d > 0 && x % d == 0
    ensures (x * k) % d == 0
  {
    var a := x / d;
    assert x * k == d * (a * k) by {
      assert x == d * a;
    }
    MultipleMod(d, a * k);
  }

  lemma DividesTransitive(d: nat, e: nat, x: int)
    requires d > 0 && e > 0 && e % d == 0 && x % e == 0
    ensures x % d == 0
  {
    assert x == e * (x / e);
    ScaledMultiple(d, e, x / e);
  }

  /** Adding a multiple of d does not change a remainder. */
  lemma ModShift(d: nat, x: int, y: int)
    requires d > 0 && x % d == 0
    ensures (x + y) % d == y % d
  {
    assert x + y == d * (x / d + y / d) + y % d;
    QuotientUnique(x + y, d, x / d + y / d, y % d);
  }

  /** A multiple of d that is not below x + 1 when x is a multiple of d is at least x + d. */
  lemma NextMultiple(d: nat, x: int, y: int)
    requires d > 0 && x % d == 0 && y % d == 0 && x < y
    ensures x + d <= y
  {
    SumOfMultiples(d, y, x);
    assert y - x == d * ((y - x) / d);
    ProductBounds(d, (y - x) / d);
  }

  /** Strictly inside a cell between two multiples there is no multiple. */
  lemma InsideCell(d: nat, x: int, j: int)
    requires d > 0 && x % d == 0 && 0 < j < d
    ensures (x + j) % d == j
  {
    ModShift(d, x, j);
    QuotientUnique(j, d, 0, j);
  }

  /** The instant of the last of n ticks, and the end of that tick. */
  lemma GridStep(q: nat, n: nat)
    requires q > 0 && n > 0
    ensures ((n - 1) * q) % q == 0 && n * q == (n - 1) * q + q
  {
    MultipleMod(q, n - 1);
  }
}
