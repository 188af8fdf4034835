/**
 * Landmark geometry shared by both versions of the face-landmarks helpers:
 * the fixed index tables of the 468-point face mesh, the selection of a
 * subset of mesh indices, the axis-aligned bounding box of a point set, the
 * shoelace polygon area and the classification of the nose-area ratio.
 *
 * Coordinates are exact reals. The two versions encode a point differently
 * (an `[x, y]` array in 0.0.3, an `{x, y}` record in 1.0.6); both are read
 * through the accessors of the one `Point` datatype below.
 */
module Geometry {

  datatype Option<T> = None | Some(value: T)

  /** Either the value of a call, or the failure raised when a selection is
      asked of a detection without usable mesh points. In the JavaScript helpers the
      name thrown, `EmptyDetectionResultError`, is never defined, so what actually
      propagates is a ReferenceError; either way the call yields no value. */
  datatype Result<T> = Success(value: T) | EmptyDetectionFailure

  datatype Point = Point(x: real, y: real)

  // ---------------------------------------------------------------------
  // Index tables
  // ---------------------------------------------------------------------

  /** Number of points of the base mesh; iris points are appended after it. */
  const MAX_MESH_POINT: nat := 468

  const RIGHT_NOSE: seq<nat> :=
    [6, 197, 195, 5, 4, 1, 274, 457, 438, 344, 360, 420, 437, 343, 412, 351]

  const LEFT_NOSE: seq<nat> :=
    [6, 197, 195, 5, 4, 1, 44, 237, 218, 115, 131, 198, 217, 114, 188, 122]

  const SILHOUETTE: seq<nat> :=
    [10, 338, 297, 332, 284, 251, 389, 356, 454, 323, 361, 288, 397, 365, 379, 378,
     400, 377, 152, 148, 176, 140, 150, 136, 172, 58, 132, 93, 234, 127, 162, 21,
     54, 103, 67, 109]

  /** Every entry of `idx` names a point of the base mesh. */
  predicate InBaseMesh(idx: seq<nat>)
  {
    forall k :: 0 <= k < |idx| ==> idx[k] < MAX_MESH_POINT
  }

  lemma TablesInBaseMesh()
    ensures |RIGHT_NOSE| == 16 && |LEFT_NOSE| == 16 && |SILHOUETTE| == 36
    ensures InBaseMesh(RIGHT_NOSE) && InBaseMesh(LEFT_NOSE) && InBaseMesh(SILHOUETTE)
  {
  }

  // ---------------------------------------------------------------------
  // Index selection
  // ---------------------------------------------------------------------

  /** The indices of `idx` that lie in the base mesh, in their input order
      (the `filter((n) => n < MAX_MESH_POINT)` step of the selection). */
  function KeepMeshIndices(idx: seq<nat>): (kept: seq<nat>)
    ensures |kept| <= |idx|
    ensures InBaseMesh(kept)
    ensures forall n :: multiset(kept)[n] == if n < MAX_MESH_POINT then multiset(idx)[n] else 0
  {
    if idx == [] then []
    else
      assert idx == [idx[0]] + idx[1..];
      (if idx[0] < MAX_MESH_POINT then [idx[0]] else []) + KeepMeshIndices(idx[1..])
  }

  /** Filtering distributes over concatenation: the kept indices of a list
      keep the relative order they had in it. */
  lemma {:induction false} KeepMeshIndicesAppend(a: seq<nat>, b: seq<nat>)
    ensures KeepMeshIndices(a + b) == KeepMeshIndices(a) + KeepMeshIndices(b)
  {
    if a == [] {
      assert a + b == b;
    } else {
      assert (a + b)[1..] == a[1..] + b;
      KeepMeshIndicesAppend(a[1..], b);
    }
  }

  /** A list that lies entirely in the base mesh is kept whole. */
  lemma {:induction false} KeepMeshIndicesAllBelow(idx: seq<nat>)
    requires InBaseMesh(idx)
    ensures KeepMeshIndices(idx) == idx
  {
    if idx != [] {
      KeepMeshIndicesAllBelow(idx[1..]);
    }
  }

  /** The points of `mesh` at the indices `idx`, in the order of `idx`
      (the `map((idx) => mesh[idx])` step of the selection). */
  function PointsAt(mesh: seq<Point>, idx: seq<nat>): (pts: seq<Point>)
    requires forall k :: 0 <= k < |idx| ==> idx[k] < |mesh|
  {
    seq(|idx|, k requires 0 <= k < |idx| => mesh[idx[k]])
  }

  /** Selection from a mesh that has every base point: the kept indices,
      mapped to their points. */
  function SelectFromMesh(mesh: seq<Point>, idx: seq<nat>): (pts: seq<Point>)
    requires |mesh| >= MAX_MESH_POINT
    ensures |pts| == |KeepMeshIndices(idx)|
    ensures forall k :: 0 <= k < |pts| ==> pts[k] == mesh[KeepMeshIndices(idx)[k]]
  {
    PointsAt(mesh, KeepMeshIndices(idx))
  }

  /** Selecting a table of base-mesh indices (such as the three fixed
      tables) drops nothing: point k of the selection is the mesh point named
      by entry k of the table. */
  lemma SelectInBaseMesh(mesh: seq<Point>, table: seq<nat>)
    requires |mesh| >= MAX_MESH_POINT
    requires InBaseMesh(table)
    ensures |SelectFromMesh(mesh, table)| == |table|
    ensures forall k :: 0 <= k < |table| ==> SelectFromMesh(mesh, table)[k] == mesh[table[k]]
  {
    KeepMeshIndicesAllBelow(table);
  }

  // ---------------------------------------------------------------------
  // Bounding box
  // ---------------------------------------------------------------------

  datatype Box = Box(left: real, top: real, right: real, bottom: real, width: real, height: real)

  /** The x coordinates of `pts`, in order. */
  function Xs(pts: seq<Point>): seq<real>
  {
    seq(|pts|, k requires 0 <= k < |pts| => pts[k].x)
  }

  /** The y coordinates of `pts`, in order. */
  function Ys(pts: seq<Point>): seq<real>
  {
    seq(|pts|, k requires 0 <= k < |pts| => pts[k].y)
  }

  /** `Math.min` of a non-empty list: a lower bound that is one of its elements. */
  function MinOf(s: seq<real>): (m: real)
    requires |s| > 0
    ensures forall k :: 0 <= k < |s| ==> m <= s[k]
    ensures exists k :: 0 <= k < |s| && s[k] == m
  {
    if |s| == 1 then s[0]
    else
      var rest := MinOf(s[1..]);
      if s[0] <= rest then s[0] else rest
  }

  /** `Math.max` of a non-empty list: an upper bound that is one of its elements. */
  function MaxOf(s: seq<real>): (m: real)
    requires |s| > 0
    ensures forall k :: 0 <= k < |s| ==> s[k] <= m
    ensures exists k :: 0 <= k < |s| && s[k] == m
  {
    if |s| == 1 then s[0]
    else
      var rest := MaxOf(s[1..]);
      if s[0] >= rest then s[0] else rest
  }

  /** `b` encloses every point of `pts`. */
  predicate Encloses(b: Box, pts: seq<Point>)
  {
    forall k :: 0 <= k < |pts| ==>
      b.left <= pts[k].x <= b.right && b.top <= pts[k].y <= b.bottom
  }

  /** Each of the four sides of `b` touches some point of `pts`. */
  predicate Touches(b: Box, pts: seq<Point>)
  {
    && (exists k :: 0 <= k < |pts| && pts[k].x == b.left)
    && (exists k :: 0 <= k < |pts| && pts[k].x == b.right)
    && (exists k :: 0 <= k < |pts| && pts[k].y == b.top)
    && (exists k :: 0 <= k < |pts| && pts[k].y == b.bottom)
  }

  /** `b` is the tightest axis-aligned box around `pts`, with its extent. */
  predicate TightBox(b: Box, pts: seq<Point>)
  {
    && Encloses(b, pts)
    && Touches(b, pts)
    && b.width == b.right - b.left && b.width >= 0.0
    && b.height == b.bottom - b.top && b.height >= 0.0
  }

  /** The box of a non-empty point list: minimum and maximum of the x and
      the y coordinates, and the width and height between them. */
  function BoundingBox(pts: seq<Point>): (b: Box)
    requires |pts| > 0
    ensures TightBox(b, pts)
  {
    var xs, ys := Xs(pts), Ys(pts);
    assert |xs| == |ys| == |pts|;
    assert forall k :: 0 <= k < |pts| ==> xs[k] == pts[k].x && ys[k] == pts[k].y;
    var right, left := MaxOf(xs), MinOf(xs);
    var bottom, top := MaxOf(ys), MinOf(ys);
    assert left <= xs[0] <= right && top <= ys[0] <= bottom;
    Box(left, top, right, bottom, right - left, bottom - top)
  }

  /** At most one box is tight around a point list: `TightBox` determines
      the box entirely. */
  lemma TightBoxUnique(b1: Box, b2: Box, pts: seq<Point>)
    requires TightBox(b1, pts) && TightBox(b2, pts)
    ensures b1 == b2
  {
  }

  /** The box of a point list, or `None` when the list is empty: there
      `Math.max()` and `Math.min()` of nothing give -Infinity and +Infinity,
      which is no box at all. */
  function BoxOf(pts: seq<Point>): (r: Option<Box>)
    ensures r.None? <==> |pts| == 0
    ensures r.Some? ==> TightBox(r.value, pts)
  {
    if |pts| == 0 then None else Some(BoundingBox(pts))
  }

  // ---------------------------------------------------------------------
  // Polygon area
  // ---------------------------------------------------------------------

  function Abs(v: real): (a: real)
    ensures a >= 0.0 && (a == v || a == -v)
  {
    if v < 0.0 then -v else v
  }

  /** Twice the signed area of the triangle (origin, p, q). */
  function Cross(p: Point, q: Point): real
  {
    p.x * q.y - p.y * q.x
  }

  /** The term the area reduction adds for vertex `id`: half the
      determinant of that vertex and the next, the last vertex wrapping
      round to the first. */
  function Determinant(polygon: seq<Point>, id: nat): (term: real)
    requires id < |polygon|
    ensures term == Cross(polygon[id], polygon[(id + 1) % |polygon|]) / 2.0
  {
    assert id + 1 < |polygon| ==> (id + 1) % |polygon| == id + 1;
    assert id + 1 == |polygon| ==> (id + 1) % |polygon| == 0;
    var curr := polygon[id];
    var next := if id == |polygon| - 1 then polygon[0] else polygon[id + 1];
    (curr.x * next.y - curr.y * next.x) / 2.0
  }

  /** The accumulator of the area reduction after its first `n` steps,
      starting from 0: half of the first `n` terms of the shoelace formula. */
  function ReduceSum(polygon: seq<Point>, n: nat): (sum: real)
    requires n <= |polygon|
    ensures sum == ShoelaceTerms(polygon, n) / 2.0
  {
    if n == 0 then 0.0 else ReduceSum(polygon, n - 1) + Determinant(polygon, n - 1)
  }

  /** The shoelace sum of the formula: the first `n` terms of
      sum_i (x_i * y_(i+1 mod N) - y_i * x_(i+1 mod N)) over the N vertices. */
  function ShoelaceTerms(polygon: seq<Point>, n: nat): real
    requires n <= |polygon|
  {
    if n == 0 then 0.0 else ShoelaceTerms(polygon, n - 1) + Cross(polygon[n - 1], polygon[n % |polygon|])
  }

  /** Twice the signed area of the closed polygon. */
  function Shoelace(polygon: seq<Point>): real
  {
    ShoelaceTerms(polygon, |polygon|)
  }

  /** Area of the closed polygon through the vertices of `polygon`: the
      absolute value of the reduction, which is the shoelace formula. */
  function PolygonArea(polygon: seq<Point>): (area: real)
    ensures area >= 0.0
    ensures area == Abs(Shoelace(polygon)) / 2.0
  {
    Abs(ReduceSum(polygon, |polygon|))
  }

  // Orientation- and start-independence of the area, proved through the
  // open chain of edges between consecutive vertices.

  /** Sum of the cross terms along the open chain polygon[0], ..., polygon[N-1]. */
  function ChainSum(s: seq<Point>): real
  {
    if |s| < 2 then 0.0 else Cross(s[0], s[1]) + ChainSum(s[1..])
  }

  /** The closed shoelace sum: the chain plus the edge back to the start. */
  function ClosedSum(s: seq<Point>): real
  {
    if s == [] then 0.0 else ChainSum(s) + Cross(s[|s| - 1], s[0])
  }

  lemma {:induction false} ChainSumSnoc(u: seq<Point>, b: Point)
    requires |u| > 0
    ensures ChainSum(u + [b]) == ChainSum(u) + Cross(u[|u| - 1], b)
  {
    if |u| > 1 {
      assert (u + [b])[1..] == u[1..] + [b];
      ChainSumSnoc(u[1..], b);
    }
  }

  lemma {:induction false} ShoelaceTermsIsChain(s: seq<Point>, n: nat)
    requires 0 < n < |s|
    ensures ShoelaceTerms(s, n) == ChainSum(s[..n + 1])
  {
    assert n % |s| == n;
    if n == 1 {
      assert ShoelaceTerms(s, 1) == Cross(s[0], s[1]);
      assert s[..2][1..] == [s[1]];
    } else {
      ShoelaceTermsIsChain(s, n - 1);
      assert s[..n + 1] == s[..n] + [s[n]];
      ChainSumSnoc(s[..n], s[n]);
      assert s[..n][n - 1] == s[n - 1];
    }
  }

  /** The modular shoelace sum is the closed chain sum. */
  lemma ShoelaceIsClosedSum(s: seq<Point>)
    ensures Shoelace(s) == ClosedSum(s)
  {
    var n := |s|;
    if n == 1 {
      assert 1 % n == 0;
      assert Shoelace(s) == ShoelaceTerms(s, 0) + Cross(s[0], s[0]);
    } else if n > 1 {
      ShoelaceTermsIsChain(s, n - 1);
      assert s[..n] == s;
      assert n % n == 0;
    }
  }

  /** Cross is antisymmetric. */
  lemma CrossSwap(p: Point, q: Point)
    ensures Cross(q, p) == -Cross(p, q)
  {
  }

  /** The polygon started one vertex later. */
  function RotateLeft(s: seq<Point>): (r: seq<Point>)
  {
    if s == [] then [] else s[1..] + [s[0]]
  }

  function Reversed(s: seq<Point>): (r: seq<Point>)
  {
    seq(|s|, k requires 0 <= k < |s| => s[|s| - 1 - k])
  }

  lemma ClosedSumRotateLeft(s: seq<Point>)
    ensures ClosedSum(RotateLeft(s)) == ClosedSum(s)
  {
    if |s| >= 2 {
      var t := s[1..];
      ChainSumSnoc(t, s[0]);
      assert RotateLeft(s) == t + [s[0]];
      assert (t + [s[0]])[|t|] == s[0];
      assert t[|t| - 1] == s[|s| - 1];
    } else if |s| == 1 {
      assert RotateLeft(s) == s;
    }
  }

  lemma {:induction false} ChainSumReversed(s: seq<Point>)
    ensures ChainSum(Reversed(s)) == -ChainSum(s)
  {
    if |s| >= 2 {
      var t := s[1..];
      ChainSumReversed(t);
      assert Reversed(s) == Reversed(t) + [s[0]];
      ChainSumSnoc(Reversed(t), s[0]);
      CrossSwap(s[0], s[1]);
    } else {
      assert |Reversed(s)| < 2;
    }
  }

  lemma ClosedSumReversed(s: seq<Point>)
    ensures ClosedSum(Reversed(s)) == -ClosedSum(s)
  {
    if s != [] {
      ChainSumReversed(s);
      CrossSwap(s[0], s[|s| - 1]);
    }
  }

  /** Starting the cycle k vertices later leaves the signed sum unchanged. */
  lemma {:induction false} ClosedSumRotation(s: seq<Point>, k: nat)
    requires k <= |s|
    ensures ClosedSum(s[k..] + s[..k]) == ClosedSum(s)
  {
    if k == 0 {
      assert s[k..] + s[..k] == s;
    } else {
      ClosedSumRotation(s, k - 1);
      var r := s[k - 1..] + s[..k - 1];
      assert RotateLeft(r) == s[k..] + s[..k];
      ClosedSumRotateLeft(r);
    }
  }

  /** The area does not depend on which vertex the list starts at. */
  lemma PolygonAreaRotation(s: seq<Point>, k: nat)
    requires k <= |s|
    ensures PolygonArea(s[k..] + s[..k]) == PolygonArea(s)
  {
    ClosedSumRotation(s, k);
    ShoelaceIsClosedSum(s);
    ShoelaceIsClosedSum(s[k..] + s[..k]);
  }

  /** The area does not depend on the orientation of the vertex list. */
  lemma PolygonAreaReversal(s: seq<Point>)
    ensures PolygonArea(Reversed(s)) == PolygonArea(s)
  {
    ClosedSumReversed(s);
    ShoelaceIsClosedSum(s);
    ShoelaceIsClosedSum(Reversed(s));
  }

  /** Repeating the first vertex at the end does not change the area: the
      closing edge is added by the formula itself. */
  lemma PolygonAreaRepeatedStart(s: seq<Point>)
    requires s != []
    ensures PolygonArea(s + [s[0]]) == PolygonArea(s)
  {
    ChainSumSnoc(s, s[0]);
    ShoelaceIsClosedSum(s);
    ShoelaceIsClosedSum(s + [s[0]]);
  }

  /** Fewer than three vertices enclose nothing. */
  lemma PolygonAreaDegenerate(s: seq<Point>)
    requires |s| <= 2
    ensures PolygonArea(s) == 0.0
  {
    ShoelaceIsClosedSum(s);
    if |s| == 2 {
      CrossSwap(s[0], s[1]);
      assert ChainSum(s) == Cross(s[0], s[1]) + ChainSum(s[1..]);
      assert ChainSum(s[1..]) == 0.0;
    } else if |s| == 1 {
      CrossSwap(s[0], s[0]);
      assert ClosedSum(s) == 0.0;
    } else {
      assert Shoelace(s) == 0.0;
    }
  }

  // The two example polygons below take their vertices as parameters fixed
  // by the requires: a polygon written as a literal sequence of literal
  // points lets the verifier unfold the area recursion without bound.

  /** The unit square has area 1. */
  lemma UnitSquareArea(a: Point, b: Point, c: Point, d: Point)
    requires a == Point(0.0, 0.0) && b == Point(1.0, 0.0) && c == Point(1.0, 1.0) && d == Point(0.0, 1.0)
    ensures PolygonArea([a, b, c, d]) == 1.0
  {
    var square := [a, b, c, d];
    ShoelaceIsClosedSum(square);
    assert ChainSum(square[3..]) == 0.0;
    assert ChainSum(square[2..]) == Cross(c, d);
    assert ChainSum(square[1..]) == Cross(b, c) + ChainSum(square[2..]);
    assert ChainSum(square) == Cross(a, b) + ChainSum(square[1..]);
  }

  /** The right triangle with legs 4 and 3 has area 6, whether or not its
      first vertex is repeated at the end. */
  lemma TriangleArea(a: Point, b: Point, c: Point)
    requires a == Point(0.0, 0.0) && b == Point(4.0, 0.0) && c == Point(0.0, 3.0)
    ensures PolygonArea([a, b, c]) == 6.0
    ensures PolygonArea([a, b, c, a]) == 6.0
  {
    var tri := [a, b, c];
    ShoelaceIsClosedSum(tri);
    assert ChainSum(tri[2..]) == 0.0;
    assert ChainSum(tri[1..]) == Cross(b, c) + ChainSum(tri[2..]);
    assert ChainSum(tri) == Cross(a, b) + ChainSum(tri[1..]);
    assert tri + [tri[0]] == [a, b, c, a];
    PolygonAreaRepeatedStart(tri);
  }

  // ---------------------------------------------------------------------
  // Face direction
  // ---------------------------------------------------------------------

  datatype Direction = Center | Left | Right
  {
    /** The string of the `FACE_DIRECTION` table for this direction. */
    function Label(): (name: string)
      ensures name == "center" <==> this == Center
      ensures name == "left" <==> this == Left
      ensures name == "right" <==> this == Right
    {
      match this
      case Center => "center"
      case Left => "left"
      case Right => "right"
    }
  }

  /** The value a JavaScript division of two non-negative numbers yields:
      a number, Infinity (positive over zero) or NaN (zero over zero). */
  datatype Ratio = Finite(value: real) | PositiveInfinity | NotANumber

  function Divide(a: real, b: real): (r: Ratio)
    requires a >= 0.0 && b >= 0.0
    ensures r.Finite? <==> b != 0.0
    ensures r.Finite? ==> r.value * b == a
    ensures r == NotANumber <==> a == 0.0 && b == 0.0
  {
    if b != 0.0 then Finite(a / b)
    else if a > 0.0 then PositiveInfinity
    else NotANumber
  }

  /** `ratio < factor` in JavaScript: false of Infinity and of NaN. */
  predicate Below(ratio: Ratio, factor: real): (below: bool)
    ensures below ==> ratio.Finite?
  {
    ratio.Finite? && ratio.value < factor
  }

  /** `ratio > 1 / factor` in JavaScript, where 1 / 0 is +Infinity. */
  predicate AboveInverse(ratio: Ratio, factor: real): (above: bool)
    ensures ratio == NotANumber ==> !above
    ensures ratio == PositiveInfinity ==> (above <==> factor != 0.0)
  {
    match ratio
    case Finite(v) => factor != 0.0 && v > 1.0 / factor
    case PositiveInfinity => factor != 0.0
    case NotANumber => false
  }

  lemma InverseBelow(factor: real)
    ensures factor > 1.0 ==> 0.0 < 1.0 / factor < 1.0 < factor
  {
  }

  lemma InverseAtLeastOne(factor: real)
    ensures 0.0 < factor <= 1.0 ==> 1.0 / factor >= 1.0
  {
    if 0.0 < factor <= 1.0 {
      assert (1.0 / factor) * factor == 1.0;
    }
  }

  /** The nested conditional of the JavaScript helpers: below `factor` and above its
      inverse is center, below `factor` only is right, anything else left. */
  function Classify(ratio: Ratio, factor: real): (d: Direction)
    ensures !ratio.Finite? ==> d == Left
    ensures ratio.Finite? ==> (d == Left <==> ratio.value >= factor)
    ensures ratio.Finite? && factor > 1.0 ==>
      && (d == Center <==> 1.0 / factor < ratio.value < factor)
      && (d == Left <==> ratio.value >= factor)
      && (d == Right <==> ratio.value <= 1.0 / factor)
    ensures (ratio.Finite? ==> ratio.value >= 0.0) ==> (d == Center ==> factor > 1.0)
  {
    InverseBelow(factor);
    InverseAtLeastOne(factor);
    if Below(ratio, factor) then
      if AboveInverse(ratio, factor) then Center else Right
    else Left
  }

  /** Boundary behaviour with the default factor 3: the left side is
      closed at the factor, the right side closed at its inverse. */
  lemma ClassifyDefaultFactor()
    ensures Classify(Finite(2.0), 3.0) == Center
    ensures Classify(Finite(3.0), 3.0) == Left
    ensures Classify(Finite(0.34), 3.0) == Center
    ensures Classify(Finite(0.33), 3.0) == Right
    ensures Classify(Finite(1.0 / 3.0), 3.0) == Right
    ensures Classify(Finite(0.2), 3.0) == Right
  {
  }

  datatype DirectionRecord = DirectionRecord(
    leftNoseArea: real,
    rightNoseArea: real,
    leftToRightRatio: Ratio,
    direction: Direction)

  /** What a direction record promises about its fields: the ratio is the
      quotient of the two areas (Infinity or NaN when the right area is 0,
      and then the direction is left), a finite ratio is left exactly when
      it is at least the factor, center needs a factor above 1, and for a
      factor above 1 the finite ratio falls into exactly one of the three
      bands. */
  predicate Consistent(r: DirectionRecord, factor: real)
  {
    && r.leftNoseArea >= 0.0 && r.rightNoseArea >= 0.0
    && (r.rightNoseArea != 0.0 ==> r.leftToRightRatio == Finite(r.leftNoseArea / r.rightNoseArea))
    && (r.rightNoseArea == 0.0 ==>
          && r.leftToRightRatio == (if r.leftNoseArea == 0.0 then NotANumber else PositiveInfinity)
          && r.direction == Left)
    && (r.rightNoseArea != 0.0 ==>
          (r.direction == Left <==> r.leftNoseArea / r.rightNoseArea >= factor))
    && (r.direction == Center ==> factor > 1.0)
    && (r.rightNoseArea != 0.0 && factor > 1.0 ==>
          var ratio := r.leftNoseArea / r.rightNoseArea;
          && (r.direction == Center <==> 1.0 / factor < ratio < factor)
          && (r.direction == Left <==> ratio >= factor)
          && (r.direction == Right <==> ratio <= 1.0 / factor))
  }

  /** The direction record of two nose polygons. */
  function DirectionOf(leftNose: seq<Point>, rightNose: seq<Point>, factor: real): (r: DirectionRecord)
    ensures r.leftNoseArea == PolygonArea(leftNose) && r.rightNoseArea == PolygonArea(rightNose)
    ensures Consistent(r, factor)
  {
    var leftArea := PolygonArea(leftNose);
    var rightArea := PolygonArea(rightNose);
    var ratio := Divide(leftArea, rightArea);
    DirectionRecord(leftArea, rightArea, ratio, Classify(ratio, factor))
  }
}
