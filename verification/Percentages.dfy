/** Percentages of a total, over the reals; the share of an empty total is 0. */
module Percentages {

  function Percent(part: int, whole: int): real {
    if whole == 0 then 0.0 else 100.0 * part as real / whole as real
  }

  lemma PercentMonotone(a: int, b: int, whole: int)
    requires whole > 0
    ensures a <= b <==> Percent(a, whole) <= Percent(b, whole)
    ensures Percent(0, whole) == 0.0 && Percent(whole, whole) == 100.0
  {
    var w := whole as real;
    Scaled(a, w);
    Scaled(b, w);
    Scaled(whole, w);
    Order(100.0 * a as real / w, 100.0 * b as real / w, w);
  }

  lemma Scaled(a: int, w: real)
    requires w > 0.0
    ensures 100.0 * a as real / w * w == 100.0 * a as real
  {}

  lemma Order(x: real, y: real, w: real)
    requires w > 0.0
    ensures x <= y <==> x * w <= y * w
  {}

  lemma SamePercentIff(a: int, b: int, c: int, d: int)
    requires b != 0 && d != 0
    ensures Percent(a, b) == Percent(c, d) <==> a * d == c * b
  {
    Product(a, d);
    Product(c, b);
    SameQuotientIff(100.0 * a as real, b as real, 100.0 * c as real, d as real);
    assert 100.0 * a as real * d as real == 100.0 * (a * d) as real;
    assert 100.0 * c as real * b as real == 100.0 * (c * b) as real;
  }

  lemma QuotientTimes(part: int, whole: int)
    requires whole != 0
    ensures part as real / whole as real * 100.0 == Percent(part, whole)
  {
    assert part as real / whole as real * whole as real == part as real;
    assert Percent(part, whole) * whole as real == 100.0 * part as real;
    Cancel(part as real / whole as real * 100.0, Percent(part, whole), whole as real);
  }

  lemma Product(a: int, b: int)
    ensures (a * b) as real == a as real * b as real
  {}

  lemma SameQuotientIff(a: real, b: real, c: real, d: real)
    requires b != 0.0 && d != 0.0
    ensures a / b == c / d <==> a * d == c * b
  {
    var x, y := a / b, c / d;
    assert x * b == a && y * d == c;
    assert a * d == x * (b * d) && c * b == y * (b * d);
    assert b * d != 0.0;
    if a * d == c * b {
      Cancel(x, y, b * d);
    }
  }

  lemma Cancel(a: real, b: real, m: real)
    requires m != 0.0 && a * m == b * m
    ensures a == b
  {}
}
