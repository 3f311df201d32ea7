/** Vectors and the squared L2 distance shared by both indexes. */
module Vectors {
  import opened Basics

  type Vector = seq<real>

  /** Squared L2 over the common prefix, as zipping the two slices does. */
  function SquaredL2(a: Vector, b: Vector): (d: real)
    ensures d >= 0.0
  {
    if a == [] || b == [] then 0.0
    else
      var x := a[0] - b[0];
      x * x + SquaredL2(a[1..], b[1..])
  }

  /** The sum of the squared differences of the first `n` coordinates. */
  ghost function SumOfSquares(a: Vector, b: Vector, n: nat): (d: real)
    requires n <= |a| && n <= |b|
  {
    if n == 0 then 0.0
    else SumOfSquares(a, b, n - 1) + (a[n - 1] - b[n - 1]) * (a[n - 1] - b[n - 1])
  }

  /** The distance over all the coordinates both vectors have. */
  ghost function Distance(a: Vector, b: Vector): (d: real)
  {
    SumOfSquares(a, b, Min(|a|, |b|))
  }

  lemma {:induction false} SumFromFront(a: Vector, b: Vector, n: nat)
    requires 0 < n <= |a| && n <= |b|
    ensures SumOfSquares(a, b, n) == (a[0] - b[0]) * (a[0] - b[0]) + SumOfSquares(a[1..], b[1..], n - 1)
  {
    if n > 1 {
      SumFromFront(a, b, n - 1);
    }
  }

  /** The recursive distance is the sum over every common coordinate. */
  lemma {:induction false} SquaredL2IsSum(a: Vector, b: Vector)
    ensures SquaredL2(a, b) == Distance(a, b)
  {
    if a != [] && b != [] {
      SquaredL2IsSum(a[1..], b[1..]);
      SumFromFront(a, b, Min(|a|, |b|));
    }
  }

  lemma {:induction false} SumOfPrefix(a: Vector, b: Vector, c: Vector, d: Vector, n: nat)
    requires n <= |a| && n <= |b| && a <= c && b <= d
    ensures SumOfSquares(a, b, n) == SumOfSquares(c, d, n)
  {
    if n > 0 {
      SumOfPrefix(a, b, c, d, n - 1);
    }
  }

  lemma EmptyDistance()
    ensures SquaredL2([], []) == 0.0
  {
  }

  lemma SumStep(a: Vector, b: Vector, n: nat, x: real, y: real)
    requires n < |a| && n < |b| && a[n] == x && b[n] == y
    ensures SumOfSquares(a, b, n + 1) == SumOfSquares(a, b, n) + (x - y) * (x - y)
  {
  }

  /** One more coordinate adds its squared difference. */
  lemma OneMoreCoordinate(a: Vector, b: Vector, x: real, y: real)
    requires |a| == |b|
    ensures SquaredL2(a + [x], b + [y]) == SquaredL2(a, b) + (x - y) * (x - y)
  {
    hide SquaredL2, SumOfSquares;
    var c, d := a + [x], b + [y];
    SquaredL2IsSum(a, b);
    SquaredL2IsSum(c, d);
    SumOfPrefix(a, b, c, d, |a|);
    SumStep(c, d, |a|, x, y);
  }

  /** Only the coordinates both vectors have count. */
  lemma OnlyCommonCoordinates(a: Vector, b: Vector, tail: Vector)
    requires |a| == |b|
    ensures SquaredL2(a + tail, b) == SquaredL2(a, b) == SquaredL2(a, b + tail)
  {
    hide SquaredL2, SumOfSquares;
    SquaredL2IsSum(a, b);
    SquaredL2IsSum(a + tail, b);
    SquaredL2IsSum(a, b + tail);
    SumOfPrefix(a, b, a + tail, b, |a|);
    SumOfPrefix(a, b, a, b + tail, |a|);
  }

  lemma {:induction false} SumSymmetric(a: Vector, b: Vector, n: nat)
    requires n <= |a| && n <= |b|
    ensures SumOfSquares(a, b, n) == SumOfSquares(b, a, n)
  {
    if n > 0 {
      SumSymmetric(a, b, n - 1);
    }
  }

  lemma {:induction false} SumZero(a: Vector, b: Vector, n: nat)
    requires n <= |a| && n <= |b|
    ensures SumOfSquares(a, b, n) >= 0.0
    ensures SumOfSquares(a, b, n) == 0.0 <==> a[..n] == b[..n]
  {
    if n > 0 {
      SumZero(a, b, n - 1);
      var x := a[n - 1] - b[n - 1];
      var before := SumOfSquares(a, b, n - 1);
      var square := SquareOf(x);
      assert SumOfSquares(a, b, n) == before + square;
      SamePrefix(a, b, n);
    }
  }

  lemma SamePrefix(a: Vector, b: Vector, n: nat)
    requires 0 < n <= |a| && n <= |b|
    ensures a[..n] == b[..n] <==> a[..n - 1] == b[..n - 1] && a[n - 1] == b[n - 1]
  {
    assert a[..n] == a[..n - 1] + [a[n - 1]] && b[..n] == b[..n - 1] + [b[n - 1]];
    if a[..n] == b[..n] {
      assert a[..n][n - 1] == b[..n][n - 1];
      assert a[..n - 1] == a[..n][..n - 1] && b[..n - 1] == b[..n][..n - 1];
    }
  }

  lemma SquareOf(x: real) returns (square: real)
    ensures square == x * x && square >= 0.0
    ensures x == 0.0 ==> square == 0.0
    ensures x != 0.0 ==> square > 0.0
  {
    square := x * x;
    if x == 0.0 {
      assert x * x == 0.0 * x;
    } else if x > 0.0 {
      PositiveProduct(x, x, square);
    } else {
      var y := -x;
      assert y * y == x * x;
      PositiveProduct(y, y, square);
    }
  }

  lemma PositiveProduct(x: real, y: real, product: real)
    requires x > 0.0 && y > 0.0 && product == x * y
    ensures product > 0.0
  {
  }

  /** Symmetric, and zero exactly between equal vectors. */
  lemma DistanceSeparates(a: Vector, b: Vector)
    ensures SquaredL2(a, b) == SquaredL2(b, a)
    ensures |a| == |b| ==> (SquaredL2(a, b) == 0.0 <==> a == b)
  {
    hide SquaredL2, SumOfSquares;
    var n := Min(|a|, |b|);
    SquaredL2IsSum(a, b);
    SquaredL2IsSum(b, a);
    assert n == Min(|b|, |a|);
    SumSymmetric(a, b, n);
    SumZero(a, b, n);
    if |a| == |b| {
      assert a[..n] == a && b[..n] == b;
    }
  }
}
