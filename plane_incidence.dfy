/** What the generated points and lines of ProjectivePlane are: which elements each line
    holds, that all of them are points of the plane, that parallel lines meet only at
    infinity, and that for a prime order any two distinct lines meet in exactly one point
    (src/spot_it/projective_plane.py). */
module PlaneIncidence {
  import opened ModArith
  import opened ProjectivePlane

  /** q is one of the n+1 points at infinity of the plane of order n. */
  predicate IsDirectionOf(n: nat, q: PointAtInfinity) {
    q.order == n && (q.num.Vertical? || 0 <= q.num.k < n)
  }

  /** e is a point of the plane of order n. */
  predicate IsPointOf(n: nat, e: Element) {
    match e
    case Affine(p) => 0 <= p.x < n && 0 <= p.y < n
    case AtInfinity(q) => IsDirectionOf(n, q)
  }

  /** Incidence stated algebraically: e lies on line `offset` through q when it is q itself,
      or an affine point (x, y) with x in [0, order) and y = (m*x + offset) mod order for
      slope m, or with x = offset and y in [0, order) for the vertical direction. */
  predicate OnLine(q: PointAtInfinity, offset: int, e: Element) {
    match e
    case AtInfinity(r) => r == q
    case Affine(p) =>
      match q.num
      case Slope(m) => 0 <= p.x < q.order && p.y == (m * p.x + offset) % q.order
      case Vertical => p.x == offset && 0 <= p.y < q.order
  }

  /** The elements two lines have in common. */
  function Meet(l1: Line, l2: Line): set<Element> {
    set e | e in l1 && e in l2
  }

  // ---------------------------------------------------------------------------------------
  // Points at infinity and points

  /** points_at_infinity(n) lists each of the n+1 directions exactly once: slopes 0..n-1 in
      order, then the vertical one, all of order n. */
  lemma PointsAtInfinityEnumerate(n: nat)
    ensures forall q :: q in PointsAtInfinity(n) <==> IsDirectionOf(n, q)
    ensures forall i :: 0 <= i < n ==> PointsAtInfinity(n)[i] == PointAtInfinity(Slope(i), n)
    ensures PointsAtInfinity(n)[n] == PointAtInfinity(Vertical, n)
    ensures forall i, j :: 0 <= i < j <= n ==> PointsAtInfinity(n)[i] != PointsAtInfinity(n)[j]
  {
    var ps := PointsAtInfinity(n);
    forall q ensures q in ps <==> IsDirectionOf(n, q) {
      if IsDirectionOf(n, q) {
        var i := if q.num.Vertical? then n else q.num.k;
        assert ps[i] == q;
      }
    }
  }

  lemma InfinityPointsMembers(n: nat, e: Element)
    ensures e in InfinityPoints(n) <==> e.AtInfinity? && IsDirectionOf(n, e.q)
  {
    PointsAtInfinityEnumerate(n);
    if e.AtInfinity? && IsDirectionOf(n, e.q) {
      var i :| 0 <= i <= n && PointsAtInfinity(n)[i] == e.q;
      assert InfinityPoints(n)[i] == e;
    }
  }

  lemma {:induction false} AffinePointsMembers(rows: nat, n: nat, e: Element)
    ensures |AffinePoints(rows, n)| == rows * n
    ensures e in AffinePoints(rows, n) <==> e.Affine? && 0 <= e.p.x < rows && 0 <= e.p.y < n
  {
    if rows > 0 {
      AffinePointsMembers(rows - 1, n, e);
      assert AffinePoints(rows, n) == AffinePoints(rows - 1, n) + Row(rows - 1, n);
      if e.Affine? && e.p.x == rows - 1 && 0 <= e.p.y < n {
        assert Row(rows - 1, n)[e.p.y] == e;
      }
    }
  }

  /** The affine points come row by row: index i*n + j holds (i, j). */
  lemma {:induction false} AffinePointsAt(rows: nat, n: nat, i: int, j: int)
    requires 0 <= i < rows && 0 <= j < n
    ensures i * n + j < |AffinePoints(rows, n)| && AffinePoints(rows, n)[i * n + j] == Affine(Point(i, j))
  {
    AffinePointsMembers(rows - 1, n, Affine(Point(i, j)));
    AffinePointsMembers(rows, n, Affine(Point(i, j)));
    if i < rows - 1 {
      AffinePointsAt(rows - 1, n, i, j);
    } else {
      assert i * n + j == (rows - 1) * n + j;
    }
  }

  lemma {:induction false} AffinePointsDistinct(rows: nat, n: nat)
    ensures forall a, b :: 0 <= a < b < |AffinePoints(rows, n)| ==> AffinePoints(rows, n)[a] != AffinePoints(rows, n)[b]
  {
    if rows > 0 {
      AffinePointsDistinct(rows - 1, n);
      var prefix, row := AffinePoints(rows - 1, n), Row(rows - 1, n);
      var s := AffinePoints(rows, n);
      assert s == prefix + row;
      forall a, b | 0 <= a < b < |s| ensures s[a] != s[b] {
        if a < |prefix| && |prefix| <= b {
          AffinePointsMembers(rows - 1, n, s[a]);
          assert s[a] in prefix;
          assert s[b] == row[b - |prefix|];
        }
      }
    }
  }

  /** all_points(n) has n*n + n + 1 pairwise distinct elements, which are exactly the points
      of the plane of order n. */
  lemma AllPointsEnumerate(n: nat)
    ensures |AllPoints(n)| == n * n + n + 1
    ensures forall e :: e in AllPoints(n) <==> IsPointOf(n, e)
    ensures forall a, b :: 0 <= a < b < |AllPoints(n)| ==> AllPoints(n)[a] != AllPoints(n)[b]
  {
    var aff, inf := AffinePoints(n, n), InfinityPoints(n);
    assert AllPoints(n) == aff + inf;
    AffinePointsMembers(n, n, Affine(Point(0, 0)));
    forall e ensures e in AllPoints(n) <==> IsPointOf(n, e) {
      AffinePointsMembers(n, n, e);
      InfinityPointsMembers(n, e);
    }
    AffinePointsDistinct(n, n);
    PointsAtInfinityEnumerate(n);
    forall a, b | 0 <= a < b < |AllPoints(n)| ensures AllPoints(n)[a] != AllPoints(n)[b] {
      if b >= |aff| && a < |aff| {
        assert AllPoints(n)[b] == inf[b - |aff|];
        assert AllPoints(n)[a] == aff[a];
        AffinePointsMembers(n, n, aff[a]);
        assert aff[a] in aff;
      } else if a >= |aff| {
        assert AllPoints(n)[a] == inf[a - |aff|];
        assert AllPoints(n)[b] == inf[b - |aff|];
      }
    }
  }

  /** The order of all_points(n): (i, j) at i*n + j (i outer, j inner), then the points at
      infinity. */
  lemma AllPointsOrder(n: nat, i: int, j: int, k: int)
    requires 0 <= i < n && 0 <= j < n && 0 <= k <= n
    ensures i * n + j < |AllPoints(n)| && AllPoints(n)[i * n + j] == Affine(Point(i, j))
    ensures n * n + k < |AllPoints(n)| && AllPoints(n)[n * n + k] == AtInfinity(PointsAtInfinity(n)[k])
  {
    AffinePointsAt(n, n, i, j);
    AffinePointsMembers(n, n, Affine(Point(0, 0)));
  }

  // ---------------------------------------------------------------------------------------
  // Lines

  /** The generated line `offset` through q holds exactly the elements OnLine describes. */
  lemma LineMembers(q: PointAtInfinity, offset: int, e: Element)
    ensures e in q.Line(offset) <==> OnLine(q, offset, e)
  {
    var l := q.Line(offset);
    if e in l {
      var i :| 0 <= i < |l| && l[i] == e;
      if i > 0 {
        assert l[i] == l[1..][i - 1];
      }
    }
    if OnLine(q, offset, e) && e.Affine? {
      var i := if q.num.Slope? then e.p.x else e.p.y;
      assert l[i + 1] == l[1..][i];
      assert l[i + 1] == e;
    }
  }

  /** The lines of each point at infinity, one block of n after the other. */
  lemma {:induction false} LinesThroughAt(ps: seq<PointAtInfinity>, n: nat, d: int, k: int)
    requires forall i :: 0 <= i < |ps| ==> ps[i].order == n
    requires 0 <= d < |ps| && 0 <= k < n
    ensures |LinesThrough(ps)| == |ps| * n
    ensures d * n + k < |LinesThrough(ps)| && LinesThrough(ps)[d * n + k] == ps[d].Line(k)
  {
    LinesThroughLength(ps, n);
    LinesThroughLength(ps[1..], n);
    if d > 0 {
      LinesThroughAt(ps[1..], n, d - 1, k);
      assert d * n + k == (d - 1) * n + k + n;
    }
  }

  lemma {:induction false} LinesThroughLength(ps: seq<PointAtInfinity>, n: nat)
    requires forall i :: 0 <= i < |ps| ==> ps[i].order == n
    ensures |LinesThrough(ps)| == |ps| * n
  {
    if ps != [] {
      LinesThroughLength(ps[1..], n);
      assert |ps| * n == |ps[1..]| * n + n;
    }
  }

  /** Line index t < n*(n+1) is offset k of direction d. */
  lemma LineIndex(n: nat, t: int) returns (d: int, k: int)
    requires 0 <= t < n * (n + 1)
    ensures 0 <= d <= n && 0 <= k < n && t == d * n + k
  {
    d, k := t / n, t % n;
    assert t == d * n + k;
  }

  /** all_lines(n): n*(n+1) + 1 lines of n+1 elements each; line d*n + k is offset k through
      the d-th point at infinity, and the last line is the line at infinity. */
  lemma AllLinesShape(n: nat)
    ensures |AllLines(n)| == n * (n + 1) + 1
    ensures forall t :: 0 <= t < |AllLines(n)| ==> |AllLines(n)[t]| == n + 1
    ensures AllLines(n)[n * (n + 1)] == InfinityPoints(n)
    ensures forall d, k :: 0 <= d <= n && 0 <= k < n ==> AllLines(n)[d * n + k] == PointsAtInfinity(n)[d].Line(k)
  {
    AllLinesLength(n);
    forall d, k | 0 <= d <= n && 0 <= k < n ensures AllLines(n)[d * n + k] == PointsAtInfinity(n)[d].Line(k) {
      AllLinesAt(n, d, k);
    }
    forall t | 0 <= t < n * (n + 1) ensures |AllLines(n)[t]| == n + 1 {
      var d, k := LineIndex(n, t);
      AllLinesAt(n, d, k);
    }
  }

  lemma AllLinesLength(n: nat)
    ensures |AllLines(n)| == n * (n + 1) + 1
    ensures AllLines(n)[n * (n + 1)] == InfinityPoints(n)
  {
    LinesThroughLength(PointsAtInfinity(n), n);
  }

  lemma AllLinesAt(n: nat, d: int, k: int)
    requires 0 <= d <= n && 0 <= k < n
    ensures d * n + k < |AllLines(n)| && AllLines(n)[d * n + k] == PointsAtInfinity(n)[d].Line(k)
  {
    var ps := PointsAtInfinity(n);
    LinesThroughAt(ps, n, d, k);
    assert AllLines(n) == LinesThrough(ps) + [InfinityPoints(n)];
  }

  /** Every element of every line of all_lines(n) is one of all_points(n). */
  lemma LinesArePoints(n: nat, t: int, e: Element)
    requires 0 <= t < |AllLines(n)| && e in AllLines(n)[t]
    ensures e in AllPoints(n)
  {
    AllLinesShape(n);
    AllPointsEnumerate(n);
    PointsAtInfinityEnumerate(n);
    if t == n * (n + 1) {
      InfinityPointsMembers(n, e);
    } else {
      var d, k := LineIndex(n, t);
      var q := PointsAtInfinity(n)[d];
      LineMembers(q, k, e);
      assert IsDirectionOf(n, q);
    }
  }

  /** 0 < |a| < n means a is not a multiple of n. */
  lemma SmallNonMultiple(a: int, n: int)
    requires n > 0 && a != 0 && -n < a < n
    ensures a % n != 0
  {
    if a > 0 {
      ModOfSmall(a, n);
    } else {
      ModAddMultiple(1, n, a);
      ModOfSmall(a + n, n);
    }
  }

  lemma MeetIsSingleton(l1: Line, l2: Line, e0: Element)
    requires e0 in l1 && e0 in l2
    requires forall e :: e in l1 && e in l2 ==> e == e0
    ensures Meet(l1, l2) == {e0} && |Meet(l1, l2)| == 1
  {
  }

  /** Two distinct lines through the same point at infinity share no affine point: their
      only common element is that point at infinity. This holds for every order. */
  lemma ParallelLinesMeetAtInfinity(q: PointAtInfinity, k1: int, k2: int)
    requires 0 <= k1 < q.order && 0 <= k2 < q.order && k1 != k2
    ensures Meet(q.Line(k1), q.Line(k2)) == {AtInfinity(q)}
  {
    var n := q.order;
    forall e | e in q.Line(k1) && e in q.Line(k2) ensures e == AtInfinity(q) {
      LineMembers(q, k1, e);
      LineMembers(q, k2, e);
      if e.Affine? && q.num.Slope? {
        var m, x := q.num.k, e.p.x;
        CongruentIffDiff(m * x + k1, m * x + k2, n);
        assert (m * x + k1) - (m * x + k2) == k1 - k2;
        SmallNonMultiple(k1 - k2, n);
      }
    }
    MeetIsSingleton(q.Line(k1), q.Line(k2), AtInfinity(q));
  }

  /** A line with slope m and a vertical line meet only in the affine point of column k2. */
  lemma SlopeMeetsVertical(n: nat, m: int, k1: int, k2: int)
    requires 0 <= k1 < n && 0 <= k2 < n
    ensures |Meet(PointAtInfinity(Slope(m), n).Line(k1), PointAtInfinity(Vertical, n).Line(k2))| == 1
  {
    var q1, q2 := PointAtInfinity(Slope(m), n), PointAtInfinity(Vertical, n);
    var e0 := Affine(Point(k2, (m * k2 + k1) % n));
    LineMembers(q1, k1, e0);
    LineMembers(q2, k2, e0);
    forall e | e in q1.Line(k1) && e in q2.Line(k2) ensures e == e0 {
      LineMembers(q1, k1, e);
      LineMembers(q2, k2, e);
    }
    MeetIsSingleton(q1.Line(k1), q2.Line(k2), e0);
  }

  /** The columns where lines of slopes m1 and m2 (offsets k1, k2) agree are the solutions
      of (m1 - m2)*x = k2 - k1 modulo n. */
  lemma AgreeIffSolves(n: nat, m1: int, k1: int, m2: int, k2: int, x: int)
    requires n > 0
    ensures (m1 * x + k1) % n == (m2 * x + k2) % n <==> ((m1 - m2) * x) % n == (k2 - k1) % n
  {
    assert (m1 * x + k1) - (m2 * x + k2) == (m1 - m2) * x - (k2 - k1);
    CongruentIffDiff(m1 * x + k1, m2 * x + k2, n);
    CongruentIffDiff((m1 - m2) * x, k2 - k1, n);
  }

  /** For a prime order, lines with different slopes m1, m2 meet in exactly one affine
      point: the column x solving (m1 - m2)*x = k2 - k1 modulo n. */
  lemma CrossingSlopesMeetOnce(n: nat, m1: int, k1: int, m2: int, k2: int)
    requires IsPrime(n)
    requires 0 <= m1 < n && 0 <= m2 < n && m1 != m2 && 0 <= k1 < n && 0 <= k2 < n
    ensures |Meet(PointAtInfinity(Slope(m1), n).Line(k1), PointAtInfinity(Slope(m2), n).Line(k2))| == 1
  {
    var q1, q2 := PointAtInfinity(Slope(m1), n), PointAtInfinity(Slope(m2), n);
    SmallNonMultiple(m1 - m2, n);
    var x0 := Solve(m1 - m2, k2 - k1, n);
    var e0 := Affine(Point(x0, (m1 * x0 + k1) % n));
    AgreeIffSolves(n, m1, k1, m2, k2, x0);
    LineMembers(q1, k1, e0);
    LineMembers(q2, k2, e0);
    forall e | e in q1.Line(k1) && e in q2.Line(k2) ensures e == e0 {
      LineMembers(q1, k1, e);
      LineMembers(q2, k2, e);
      AgreeIffSolves(n, m1, k1, m2, k2, e.p.x);
      Cancel(m1 - m2, e.p.x, x0, n);
      CongruentSmallEqual(e.p.x, x0, n);
    }
    MeetIsSingleton(q1.Line(k1), q2.Line(k2), e0);
  }

  /** A line through a point at infinity q meets the line at infinity only at q. */
  lemma LineMeetsInfinity(n: nat, q: PointAtInfinity, k: int)
    requires IsDirectionOf(n, q)
    ensures Meet(q.Line(k), InfinityPoints(n)) == {AtInfinity(q)}
  {
    InfinityPointsMembers(n, AtInfinity(q));
    forall e | e in q.Line(k) && e in InfinityPoints(n) ensures e == AtInfinity(q) {
      LineMembers(q, k, e);
      InfinityPointsMembers(n, e);
    }
    MeetIsSingleton(q.Line(k), InfinityPoints(n), AtInfinity(q));
  }

  /** Two lines with different offsets or directions, neither the line at infinity. */
  lemma AffineLinesMeetOnce(n: nat, d1: int, k1: int, d2: int, k2: int)
    requires IsPrime(n)
    requires 0 <= d1 <= n && 0 <= k1 < n && 0 <= d2 <= n && 0 <= k2 < n && (d1, k1) != (d2, k2)
    ensures |Meet(PointsAtInfinity(n)[d1].Line(k1), PointsAtInfinity(n)[d2].Line(k2))| == 1
  {
    PointsAtInfinityEnumerate(n);
    var l1, l2 := PointsAtInfinity(n)[d1].Line(k1), PointsAtInfinity(n)[d2].Line(k2);
    if d1 == d2 {
      ParallelLinesMeetAtInfinity(PointsAtInfinity(n)[d1], k1, k2);
    } else if d1 < n && d2 < n {
      CrossingSlopesMeetOnce(n, d1, k1, d2, k2);
    } else if d1 < n {
      SlopeMeetsVertical(n, d1, k1, k2);
    } else {
      SlopeMeetsVertical(n, d2, k2, k1);
      assert Meet(l1, l2) == Meet(l2, l1);
    }
  }

  /** When the order n is prime, any two distinct lines of all_lines(n) have exactly one
      element in common: the generated lines form a projective plane. */
  lemma LinesMeetOnce(n: nat, t1: int, t2: int)
    requires IsPrime(n)
    requires 0 <= t1 < |AllLines(n)| && 0 <= t2 < |AllLines(n)| && t1 != t2
    ensures |Meet(AllLines(n)[t1], AllLines(n)[t2])| == 1
  {
    var last := LineAtInfinity(n);
    if t1 < last && t2 < last {
      var d1, k1 := LineAt(n, t1);
      var d2, k2 := LineAt(n, t2);
      AffineLinesMeetOnce(n, d1, k1, d2, k2);
    } else if t1 < last {
      var d1, k1 := LineAt(n, t1);
      PointsAtInfinityEnumerate(n);
      LineMeetsInfinity(n, PointsAtInfinity(n)[d1], k1);
    } else {
      var d2, k2 := LineAt(n, t2);
      PointsAtInfinityEnumerate(n);
      LineMeetsInfinity(n, PointsAtInfinity(n)[d2], k2);
      assert Meet(AllLines(n)[t1], AllLines(n)[t2]) == Meet(AllLines(n)[t2], AllLines(n)[t1]);
    }
  }

  /** The index of the line at infinity, the last of all_lines(n). */
  lemma LineAtInfinity(n: nat) returns (last: int)
    ensures last == n * (n + 1) && |AllLines(n)| == last + 1 && AllLines(n)[last] == InfinityPoints(n)
  {
    AllLinesShape(n);
    last := n * (n + 1);
  }

  /** Every other line of all_lines(n) is offset k through the d-th point at infinity. */
  lemma LineAt(n: nat, t: int) returns (d: int, k: int)
    requires 0 <= t < n * (n + 1)
    ensures 0 <= d <= n && 0 <= k < n && t == d * n + k
    ensures t < |AllLines(n)| && AllLines(n)[t] == PointsAtInfinity(n)[d].Line(k)
  {
    d, k := LineIndex(n, t);
    LinesThroughAt(PointsAtInfinity(n), n, d, k);
  }

  /** Without a prime order the construction is not a projective plane: for n = 4 the line
      y = 0 (slope 0, offset 0) and the line y = 2x mod 4 (slope 2, offset 0) have the two
      points (0, 0) and (2, 0) in common. */
  lemma CompositeOrderLinesMeetTwice()
    ensures Affine(Point(0, 0)) in Meet(AllLines(4)[0], AllLines(4)[8])
    ensures Affine(Point(2, 0)) in Meet(AllLines(4)[0], AllLines(4)[8])
  {
    AllLinesShape(4);
    assert AllLines(4)[0 * 4 + 0] == PointsAtInfinity(4)[0].Line(0);
    assert AllLines(4)[2 * 4 + 0] == PointsAtInfinity(4)[2].Line(0);
    LineMembers(PointAtInfinity(Slope(0), 4), 0, Affine(Point(0, 0)));
    LineMembers(PointAtInfinity(Slope(0), 4), 0, Affine(Point(2, 0)));
    LineMembers(PointAtInfinity(Slope(2), 4), 0, Affine(Point(0, 0)));
    LineMembers(PointAtInfinity(Slope(2), 4), 0, Affine(Point(2, 0)));
  }
}
