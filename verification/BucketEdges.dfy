/** Cutting `total` rows into `count` buckets at the floored multiples of total / count. */
module BucketEdges {
  import opened Arithmetic

  /** floor(k * bucketSize) with bucketSize = total / count. */
  function Edge(k: nat, total: nat, count: nat): int
    requires count >= 1
  {
    (k as real * (total as real / count as real)).Floor
  }

  lemma DivMod(x: nat, d: nat) returns (q: nat, r: nat)
    requires d >= 1
    ensures q == x / d && r < d && x == q * d + r
  {
    q, r := x / d, x % d;
  }

  lemma FloorBetween(v: real, q: int)
    requires q as real <= v < (q + 1) as real
    ensures v.Floor == q
  {
  }

  lemma RealProduct(x: nat, y: nat)
    ensures (x * y) as real == x as real * y as real
  {
  }

  lemma Quotient(k: real, total: real, count: real) returns (v: real)
    requires count > 0.0
    ensures v == k * (total / count) && v * count == k * total
  {
    var s := total / count;
    assert s * count == total;
    v := k * s;
    assert v * count == k * (s * count);
  }

  /** The edges are integer quotients. */
  lemma EdgeIsQuotient(k: nat, total: nat, count: nat)
    requires count >= 1
    ensures Edge(k, total, count) == k * total / count
  {
    var q, r := DivMod(k * total, count);
    var v := Quotient(k as real, total as real, count as real);
    RealProduct(k, total);
    RealProduct(q, count);
    var n := count as real;
    assert v * n == q as real * n + r as real;
    assert (q as real + 1.0) * n == q as real * n + n;
    ScaleOrder(v, q as real, n);
    ScaleOrder(v, q as real + 1.0, n);
    FloorBetween(v, q);
  }

  lemma DivBelow(x: nat, y: nat, d: nat)
    requires d >= 1 && x + d <= y
    ensures x / d + 1 <= y / d
  {
    var q, r := DivMod(x, d);
    var p, s := DivMod(y, d);
    if p <= q {
      Monotone(p, q, d);
    }
  }

  /** With at least as many rows as buckets, each edge is past the previous one. */
  lemma EdgesIncrease(k: nat, total: nat, count: nat)
    requires 1 <= count <= total
    ensures Edge(k, total, count) + 1 <= Edge(k + 1, total, count)
    ensures Edge(k, total, count) >= 0
  {
    EdgeIsQuotient(k, total, count);
    EdgeIsQuotient(k + 1, total, count);
    hide Edge;
    assert (k + 1) * total == k * total + total;
    DivBelow(k * total, (k + 1) * total, count);
    NonnegativeQuotient(k * total, count);
  }

  lemma NonnegativeQuotient(x: nat, d: nat)
    requires d >= 1
    ensures x / d >= 0
  {
  }

  lemma ExactQuotient(x: nat, d: nat)
    requires d >= 1
    ensures d * x / d == x
  {
    var q, r := DivMod(d * x, d);
    assert (q + 1) * d == q * d + d && (x + 1) * d == x * d + d;
    if q < x { Monotone(q + 1, x, d); }
    if q > x { Monotone(x + 1, q, d); }
  }

  /** The first edge is 0 and the last one is the number of rows. */
  lemma OuterEdges(total: nat, count: nat)
    requires count >= 1
    ensures Edge(0, total, count) == 0 && Edge(count, total, count) == total
  {
    EdgeIsQuotient(count, total, count);
    ExactQuotient(total, count);
  }

  lemma {:induction false} EdgesOrdered(k: nat, l: nat, total: nat, count: nat)
    requires 1 <= count <= total && k <= l
    ensures Edge(k, total, count) + (l - k) <= Edge(l, total, count)
    decreases l - k
  {
    hide Edge;
    if k < l {
      EdgesOrdered(k, l - 1, total, count);
      EdgesIncrease(l - 1, total, count);
    }
  }
}
