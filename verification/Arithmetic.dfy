/** Products and quotients of reals, one step at a time. */
module Arithmetic {
  function Abs(x: real): real {
    if x < 0.0 then -x else x
  }

  function SumOf(values: seq<real>): real {
    if values == [] then 0.0 else SumOf(values[..|values| - 1]) + values[|values| - 1]
  }

  lemma SumOfSnoc(values: seq<real>, v: real)
    ensures SumOf(values + [v]) == SumOf(values) + v
  {
    assert (values + [v])[..|values|] == values;
  }

  lemma Positive(x: real, y: real)
    requires x > 0.0 && y > 0.0
    ensures x * y > 0.0
  {
  }

  lemma Nonnegative(x: real, y: real)
    requires x >= 0.0 && y >= 0.0
    ensures x * y >= 0.0
  {
  }

  /** Scaling by a positive number keeps the order, both ways. */
  lemma ScaleOrder(x: real, y: real, d: real)
    requires d > 0.0
    ensures x < y <==> x * d < y * d
    ensures x <= y <==> x * d <= y * d
  {
    if x < y { Positive(y - x, d); }
    if x > y { Positive(x - y, d); }
    assert (y - x) * d == y * d - x * d;
  }

  lemma QuotientOf(y: real, d: real) returns (x: real)
    requires d > 0.0
    ensures x == y / d && x * d == y
  {
    x := y / d;
  }

  lemma Monotone(a: int, b: int, d: nat)
    requires a <= b
    ensures a * d <= b * d
  {
    assert (b - a) * d >= 0;
    assert b * d == a * d + (b - a) * d;
  }
}
