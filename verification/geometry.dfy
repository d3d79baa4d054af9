/**
 * Geometry primitives (geom/Polygon.cs, geom/LineSegment.cs, geom/Circle.cs and the
 * Unity value types they use). Coordinates are mathematical reals: float rounding is
 * not modelled, and lengths are compared through their squares so that no square root
 * is needed.
 */
module Geom {
  import opened Wrappers

  /** Unity's `Vector2`. */
  datatype Point = Point(x: real, y: real)

  /** Unity's `Rect`: an origin plus a width and a height. */
  datatype Rect = Rect(x: real, y: real, width: real, height: real)
  {
    function xMin(): real { x }
    function xMax(): real { x + width }
    function yMin(): real { y }
    function yMax(): real { y + height }

    /** The closed rectangle contains `p`. */
    predicate Contains(p: Point) {
      xMin() <= p.x <= xMax() && yMin() <= p.y <= yMax()
    }
  }

  /** Squared Euclidean distance; `Vector2.Distance(p, q)` is its square root. */
  function SqDist(p: Point, q: Point): (d: real)
    ensures d >= 0.0
    ensures p == q ==> d == 0.0
  {
    SquareNonNegative(p.x - q.x);
    SquareNonNegative(p.y - q.y);
    (p.x - q.x) * (p.x - q.x) + (p.y - q.y) * (p.y - q.y)
  }

  lemma SquareNonNegative(a: real)
    ensures a * a >= 0.0
  {
  }

  lemma SqDistSymmetric(p: Point, q: Point)
    ensures SqDist(p, q) == SqDist(q, p)
  {
  }

  /**
   * `Voronoi.CompareByYThenX`: lexicographic on `(y, x)`, returning -1, 0 or 1.
   * Both C# overloads (site/site and site/point) compare the coordinates alike.
   */
  function CompareByYThenX(p: Point, q: Point): (r: int)
    ensures r == -1 <==> p.y < q.y || (p.y == q.y && p.x < q.x)
    ensures r == 1 <==> p.y > q.y || (p.y == q.y && p.x > q.x)
    ensures r == 0 <==> p == q
  {
    if p.y < q.y then -1
    else if p.y > q.y then 1
    else if p.x < q.x then -1
    else if p.x > q.x then 1
    else 0
  }

  /** The comparison is antisymmetric. */
  lemma CompareByYThenXAntisymmetric(p: Point, q: Point)
    ensures CompareByYThenX(p, q) == -CompareByYThenX(q, p)
  {
  }

  /** The comparison is transitive. */
  lemma CompareByYThenXTransitive(p: Point, q: Point, s: Point)
    requires CompareByYThenX(p, q) <= 0 && CompareByYThenX(q, s) <= 0
    ensures CompareByYThenX(p, s) <= 0
  {
  }

  // ---------------------------------------------------------------- Polygon

  datatype Winding = CLOCKWISE | COUNTERCLOCKWISE | NONE

  /** The term one polygon edge from `p` to `q` contributes to the shoelace sum. */
  function Cross(p: Point, q: Point): real {
    p.x * q.y - q.x * p.y
  }

  /** Shoelace sum along the open path `vs[0], vs[1], ..., vs[n-1]`. */
  function PathSum(vs: seq<Point>): real
    decreases |vs|
  {
    if |vs| < 2 then 0.0 else Cross(vs[0], vs[1]) + PathSum(vs[1..])
  }

  /**
   * Twice the signed area of the closed polygon `vs`: the open path plus the closing
   * edge from the last vertex back to the first; 0 for an empty vertex list.
   */
  function SignedDoubleArea(vs: seq<Point>): real {
    if |vs| == 0 then 0.0 else PathSum(vs) + Cross(vs[|vs| - 1], vs[0])
  }

  /** `Polygon.Winding`: the sign of the signed double area. */
  function WindingOf(vs: seq<Point>): (w: Winding)
    ensures w == CLOCKWISE <==> SignedDoubleArea(vs) < 0.0
    ensures w == COUNTERCLOCKWISE <==> SignedDoubleArea(vs) > 0.0
    ensures w == NONE <==> SignedDoubleArea(vs) == 0.0
  {
    var s := SignedDoubleArea(vs);
    if s < 0.0 then CLOCKWISE else if s > 0.0 then COUNTERCLOCKWISE else NONE
  }

  /** `Polygon.Area`: half the absolute signed double area. */
  function Area(vs: seq<Point>): (a: real)
    ensures a >= 0.0
    ensures a == 0.0 <==> WindingOf(vs) == NONE
    ensures 2.0 * a == SignedDoubleArea(vs) || 2.0 * a == -SignedDoubleArea(vs)
  {
    var s := SignedDoubleArea(vs) * 0.5;
    if s < 0.0 then -s else s
  }

  /**
   * `Polygon.SignedDoubleArea` as the source computes it: one pass over the indices,
   * pairing each vertex with the next one modulo `n`.
   */
  method SignedDoubleAreaLoop(vs: seq<Point>) returns (area: real)
    ensures area == SignedDoubleArea(vs)
  {
    var n := |vs|;
    area := 0.0;
    var index := 0;
    while index < n
      invariant 0 <= index <= n
      invariant index < n ==> area == PathSum(vs[..index + 1])
      invariant index == n ==> area == SignedDoubleArea(vs)
    {
      var nextIndex := (index + 1) % n;
      var point := vs[index];
      var next := vs[nextIndex];
      AreaStep(vs, index);
      area := area + Cross(point, next);
      index := index + 1;
    }
    if n == 0 {
      assert area == SignedDoubleArea(vs);
    }
  }

  /** One step of `SignedDoubleAreaLoop`: the edge to the next vertex, or the closing edge. */
  lemma AreaStep(vs: seq<Point>, index: nat)
    requires index < |vs|
    ensures var s := PathSum(vs[..index + 1]) + Cross(vs[index], vs[(index + 1) % |vs|]);
      && (index + 1 < |vs| ==> s == PathSum(vs[..index + 2]))
      && (index + 1 == |vs| ==> s == SignedDoubleArea(vs))
  {
    var n := |vs|;
    if index + 1 < n {
      assert (index + 1) % n == index + 1;
      PathSumSnoc(vs[..index + 1], vs[index + 1]);
      assert vs[..index + 1] + [vs[index + 1]] == vs[..index + 2];
    } else {
      assert (index + 1) % n == 0;
      assert vs[..index + 1] == vs;
    }
  }

  /** Extending an open path by one vertex adds the edge from its old end. */
  lemma {:induction false} PathSumSnoc(vs: seq<Point>, p: Point)
    requires |vs| > 0
    ensures PathSum(vs + [p]) == PathSum(vs) + Cross(vs[|vs| - 1], p)
    decreases |vs|
  {
    if |vs| == 1 {
      assert vs + [p] == [vs[0], p];
      assert (vs + [p])[1..] == [p];
    } else {
      assert (vs + [p])[1..] == vs[1..] + [p];
      PathSumSnoc(vs[1..], p);
    }
  }

  /** Sequence reversal (`List.Reverse`). */
  function Reverse<T>(s: seq<T>): (r: seq<T>)
    ensures |r| == |s|
    ensures forall i :: 0 <= i < |s| ==> r[i] == s[|s| - 1 - i]
  {
    if |s| == 0 then [] else Reverse(s[1..]) + [s[0]]
  }

  /** Reversal keeps every element, as often as it occurs. */
  lemma {:induction false} ReverseMultiset<T>(s: seq<T>)
    ensures multiset(Reverse(s)) == multiset(s)
    decreases |s|
  {
    if |s| > 0 {
      ReverseMultiset(s[1..]);
      assert s == [s[0]] + s[1..];
    }
  }

  /** Walking a path backwards negates every cross term. */
  lemma {:induction false} PathSumReverse(vs: seq<Point>)
    ensures PathSum(Reverse(vs)) == -PathSum(vs)
    decreases |vs|
  {
    if |vs| >= 2 {
      var rest := Reverse(vs[1..]);
      PathSumReverse(vs[1..]);
      assert Reverse(vs) == rest + [vs[0]];
      PathSumSnoc(rest, vs[0]);
      assert rest[|rest| - 1] == vs[1];
    }
  }

  /** Reversing the vertex list negates the signed double area. */
  lemma ReverseNegatesArea(vs: seq<Point>)
    ensures SignedDoubleArea(Reverse(vs)) == -SignedDoubleArea(vs)
  {
    PathSumReverse(vs);
  }

  /** Reversal turns a clockwise polygon into a counter-clockwise one and back. */
  lemma ReverseFlipsWinding(vs: seq<Point>)
    ensures WindingOf(vs) == CLOCKWISE <==> WindingOf(Reverse(vs)) == COUNTERCLOCKWISE
    ensures WindingOf(vs) == COUNTERCLOCKWISE <==> WindingOf(Reverse(vs)) == CLOCKWISE
    ensures WindingOf(vs) == NONE <==> WindingOf(Reverse(vs)) == NONE
  {
    ReverseNegatesArea(vs);
  }

  /** Starting the polygon at its second vertex does not change its signed area. */
  lemma RotateKeepsArea(vs: seq<Point>)
    requires |vs| > 0
    ensures SignedDoubleArea(vs[1..] + [vs[0]]) == SignedDoubleArea(vs)
  {
    var n := |vs|;
    if n >= 2 {
      var rot := vs[1..] + [vs[0]];
      PathSumSnoc(vs[1..], vs[0]);
      assert rot[0] == vs[1] && rot[|rot| - 1] == vs[0];
    }
  }

  /** Any cyclic rotation of the vertex list keeps the signed area. */
  lemma {:induction false} RotateByKeepsArea(vs: seq<Point>, k: nat)
    requires k <= |vs|
    ensures SignedDoubleArea(vs[k..] + vs[..k]) == SignedDoubleArea(vs)
    decreases k
  {
    if k == 0 {
      assert vs[0..] + vs[..0] == vs;
    } else {
      RotateByKeepsArea(vs, k - 1);
      var prev := vs[k - 1..] + vs[..k - 1];
      RotateKeepsArea(prev);
      assert prev[1..] + [prev[0]] == vs[k..] + vs[..k];
    }
  }

  // ------------------------------------------------------------ LineSegment

  /** `LineSegment`: two nullable end points, stored as given. */
  datatype LineSegment = LineSegment(p0: Option<Point>, p1: Option<Point>)
  {
    /** Both ends are present, so the length is defined. */
    predicate Complete() { p0.Some? && p1.Some? }
  }

  /** The squared length; `Vector2.Distance` is monotone in it. */
  function SqLength(s: LineSegment): real
    requires s.Complete()
  {
    SqDist(s.p0.value, s.p1.value)
  }

  /**
   * `LineSegment.CompareLengths_MAX`: orders longer segments first (1 when the first
   * segment is the shorter one).
   */
  function CompareLengthsMax(s0: LineSegment, s1: LineSegment): (r: int)
    requires s0.Complete() && s1.Complete()
    ensures r == 1 <==> SqLength(s0) < SqLength(s1)
    ensures r == -1 <==> SqLength(s0) > SqLength(s1)
    ensures r == 0 <==> SqLength(s0) == SqLength(s1)
  {
    var l0 := SqLength(s0);
    var l1 := SqLength(s1);
    if l0 < l1 then 1 else if l0 > l1 then -1 else 0
  }

  /** `LineSegment.CompareLengths`: shorter segments first. */
  function CompareLengths(s0: LineSegment, s1: LineSegment): (r: int)
    requires s0.Complete() && s1.Complete()
    ensures r == -CompareLengthsMax(s0, s1)
    ensures r == -1 <==> SqLength(s0) < SqLength(s1)
  {
    -CompareLengthsMax(s0, s1)
  }

  /** Both length comparators are antisymmetric. */
  lemma CompareLengthsAntisymmetric(s0: LineSegment, s1: LineSegment)
    requires s0.Complete() && s1.Complete()
    ensures CompareLengthsMax(s0, s1) == -CompareLengthsMax(s1, s0)
    ensures CompareLengths(s0, s1) == -CompareLengths(s1, s0)
  {
  }

  // ----------------------------------------------------------------- Circle

  /** `Circle`: a centre and a radius. */
  datatype Circle = Circle(center: Point, radius: real)
}
