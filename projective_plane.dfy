/** The points and lines of the projective plane of order n built over the integers
    modulo n, and the inverse lookup from a point count back to the order
    (src/spot_it/projective_plane.py). Python generators become sequences. */
module ProjectivePlane {

  /** The `num` of a point at infinity: the slope shared by the lines through it, or the
      direction of the vertical lines, which have no slope (`None` in the source). */
  datatype Direction = Slope(k: int) | Vertical

  /** An ordinary (affine) point. */
  datatype Point = Point(x: int, y: int)

  /** A point at infinity of the plane of order `order`. */
  datatype PointAtInfinity = PointAtInfinity(num: Direction, order: nat)
  {
    /** Line number `offset` through this point at infinity: the point itself, then one affine
        point per column x (slope m: y = (m*x + offset) mod order), or, for the vertical
        direction, the column x = offset. The remainder is taken only when order > 0, where
        the source's floored `%` and Dafny's Euclidean `%` agree. */
    function Line(offset: int): (l: Line)
      ensures |l| == order + 1 && l[0] == AtInfinity(this)
    {
      [AtInfinity(this)] + seq(order, i requires 0 <= i < order =>
        match num
        case Slope(m) => Affine(Point(i, (m * i + offset) % order))
        case Vertical => Affine(Point(offset, i)))
    }

    /** The `order` lines through this point at infinity, by increasing offset. */
    function Lines(): (ls: seq<Line>)
      ensures |ls| == order
      ensures forall k :: 0 <= k < order ==> ls[k] == Line(k)
    {
      seq(order, k requires 0 <= k < order => Line(k))
    }
  }

  /** An element of a line: an affine point or a point at infinity. */
  datatype Element = Affine(p: Point) | AtInfinity(q: PointAtInfinity)

  type Line = seq<Element>

  /** The points at infinity of the plane of order n: finite slopes 0..n-1, then the vertical
      direction, each tagged with the order n. */
  function PointsAtInfinity(n: nat): (ps: seq<PointAtInfinity>)
    ensures |ps| == n + 1
  {
    seq(n + 1, i requires 0 <= i <= n => PointAtInfinity(if i < n then Slope(i) else Vertical, n))
  }

  /** The points at infinity as line elements; `list(infinity_points)`. */
  function InfinityPoints(n: nat): (l: Line)
    ensures |l| == n + 1
  {
    seq(n + 1, i requires 0 <= i <= n => AtInfinity(PointsAtInfinity(n)[i]))
  }

  /** The lines through each of the given points at infinity, in turn. */
  function LinesThrough(ps: seq<PointAtInfinity>): seq<Line>
  {
    if ps == [] then [] else ps[0].Lines() + LinesThrough(ps[1..])
  }

  /** All lines of the plane of order n: the lines through each point at infinity, then the
      line at infinity. */
  function AllLines(n: nat): seq<Line>
  {
    LinesThrough(PointsAtInfinity(n)) + [InfinityPoints(n)]
  }

  /** Row i of the affine points: (i, 0), ..., (i, n-1). */
  function Row(i: int, n: nat): (r: seq<Element>)
    ensures |r| == n
  {
    seq(n, j requires 0 <= j < n => Affine(Point(i, j)))
  }

  /** The affine points of the first `rows` rows, row by row (i outer, j inner). */
  function AffinePoints(rows: nat, n: nat): seq<Element>
  {
    if rows == 0 then [] else AffinePoints(rows - 1, n) + Row(rows - 1, n)
  }

  /** All points of the plane of order n: the n*n affine points, then the points at infinity. */
  function AllPoints(n: nat): seq<Element>
  {
    AffinePoints(n, n) + InfinityPoints(n)
  }

  /** q is the integer square root of m, rounded down. */
  predicate IsFloorSqrt(m: int, q: nat) {
    q * q <= m < (q + 1) * (q + 1)
  }

  /** floor(sqrt(m)), as an exact integer. */
  function FloorSqrt(m: nat): (r: nat)
    ensures IsFloorSqrt(m, r)
  {
    if m == 0 then 0
    else
      var r := FloorSqrt(m - 1);
      if (r + 1) * (r + 1) <= m then
        assert (r + 2) * (r + 2) == (r + 1) * (r + 1) + 2 * r + 3;
        r + 1
      else r
  }

  /** The outcome of `get_order`: the order, or a `ProjectivePlaneError` that reports the
      nearest valid count. */
  datatype OrderResult = Order(n: nat) | ProjectivePlaneError(nearest: int)

  /** The order of the projective plane with `number` points (or lines). `number` is at
      least 1: below that the source's square root fails. */
  function GetOrder(number: int): (res: OrderResult)
    requires number >= 1
    ensures res.Order? ==> res.n * res.n + res.n + 1 == number
    ensures res.ProjectivePlaneError? ==>
      res.nearest != number &&
      exists q: nat :: IsFloorSqrt(number - 1, q) && res.nearest == q * q + q + 1
  {
    var q := FloorSqrt(number - 1);
    if q * q + q + 1 != number then ProjectivePlaneError(q * q + q + 1) else Order(q)
  }

  /** floor(sqrt(m)) is the only r with r*r <= m < (r+1)*(r+1). */
  lemma FloorSqrtUnique(m: nat, r: nat)
    requires IsFloorSqrt(m, r)
    ensures FloorSqrt(m) == r
  {
    var s := FloorSqrt(m);
    if s < r {
      assert s + 1 <= r;
      assert (s + 1) * (s + 1) <= r * r by { MulMonotone(s + 1, r); }
    } else if r < s {
      assert r + 1 <= s;
      assert (r + 1) * (r + 1) <= s * s by { MulMonotone(r + 1, s); }
    }
  }

  lemma MulMonotone(a: nat, b: nat)
    requires a <= b
    ensures a * a <= b * b
  {
    assert b * b - a * a == (b - a) * (b + a);
  }

  /** Every count of the form p*p + p + 1 is recognised, with order p. */
  lemma GetOrderOfCount(p: nat)
    ensures GetOrder(p * p + p + 1) == Order(p)
  {
    assert p * p <= p * p + p < (p + 1) * (p + 1);
    FloorSqrtUnique(p * p + p, p);
  }

  /** `get_order` fails exactly on the counts that are not of the form p*p + p + 1. */
  lemma GetOrderFails(number: int)
    requires number >= 1
    ensures GetOrder(number).ProjectivePlaneError? <==> forall p: nat :: p * p + p + 1 != number
  {
    if GetOrder(number).ProjectivePlaneError? {
      forall p: nat ensures p * p + p + 1 != number {
        if p * p + p + 1 == number { GetOrderOfCount(p); }
      }
    }
  }

  function Abs(x: int): nat {
    if x < 0 then -x else x
  }

  /** The count that `get_order` reports is a nearest count p*p + p + 1: no order p gives a
      count closer to `number`. Ties happen at number = q*q + 1, which is as near to
      (q-1)*(q-1) + (q-1) + 1 as to q*q + q + 1; the source reports the larger (2 gives 3,
      not 1). */
  lemma GetOrderNearest(number: int, p: nat)
    requires number >= 1 && GetOrder(number).ProjectivePlaneError?
    ensures Abs(GetOrder(number).nearest - number) <= Abs(p * p + p + 1 - number)
  {
    var q := FloorSqrt(number - 1);
    assert q * q + 1 <= number <= q * q + 2 * q + 1 by {
      assert (q + 1) * (q + 1) == q * q + 2 * q + 1;
    }
    if p < q {
      MulMonotone(p, q - 1);
      assert (q - 1) * (q - 1) == q * q - 2 * q + 1;
    } else if p > q {
      MulMonotone(q + 1, p);
      assert (q + 1) * (q + 1) == q * q + 2 * q + 1;
    }
  }

  /** Two points: orders 0 and 1 give counts 1 and 3, equally near; 3 is reported. */
  lemma GetOrderOfTwo()
    ensures GetOrder(2) == ProjectivePlaneError(3)
  {
    FloorSqrtUnique(1, 1);
  }

  /** Six images do not make a plane; the nearest valid count is 7 (order 2). */
  lemma GetOrderOfSix()
    ensures GetOrder(6) == ProjectivePlaneError(7)
  {
    FloorSqrtUnique(5, 2);
  }
}
