/** The few facts about whole division and products that the decay and ban arguments rest on. */
module Arith {

  lemma {:induction false} DivUnique(a: int, d: int, q: int, r: int)
    requires d > 0 && a == d * q + r && 0 <= r < d
    ensures a / d == q
  {
    var q', r' := a / d, a % d;
    assert a == d * q' + r';
    if q' > q {
      ProductMonotone(d, q + 1, q');
      assert false;
    } else if q' < q {
      ProductMonotone(d, q' + 1, q);
      assert false;
    }
  }

  lemma ProductMonotone(d: int, a: int, b: int)
    requires d >= 0 && a <= b
    ensures d * a <= d * b
  {
    assert d * b == d * a + d * (b - a);
  }

  lemma ProductNonNegative(a: int, b: int)
    requires a >= 0 && b >= 0
    ensures a * b >= 0
  {
  }

  lemma Distribute(d: int, a: int, b: int)
    ensures d * (a + b) == d * a + d * b && d * (a - b) == d * a - d * b
  {
  }

  /** Dropping whole intervals drops as many from the quotient. */
  lemma {:induction false} DivShift(x: int, d: int, k: int)
    requires d > 0
    ensures (x - d * k) / d == x / d - k
  {
    Distribute(d, x / d, k);
    DivUnique(x - d * k, d, x / d - k, x % d);
  }

  lemma {:induction false} DivMonotone(a: int, b: int, d: int)
    requires d > 0 && a <= b
    ensures a / d <= b / d
  {
    if a / d > b / d {
      ProductMonotone(d, b / d + 1, a / d);
      Distribute(d, b / d, 1);
      assert false;
    }
  }

  lemma DivBounds(a: int, d: int)
    requires d > 0
    ensures d * (a / d) <= a < d * (a / d) + d
  {
  }

  /** A gap of `g` always crosses at least `g / d` boundaries, wherever the grid lies. */
  lemma {:induction false} GapCrosses(a: int, b: int, g: int, d: int)
    requires d > 0 && b - a >= g
    ensures b / d - a / d >= g / d
  {
    DivShift(a + g, d, g / d);
    assert d * (g / d) <= g;
    DivMonotone(a, a + g - d * (g / d), d);
    DivMonotone(a + g, b, d);
  }
}
