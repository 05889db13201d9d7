/** The geometric half of hole classification: the orientation test `_ccw`
    and the ray-casting membership test `_membershiptest`, over exact reals. */
module Geometry {

  /** One row of the edge table: a flag (the edge takes part only when the flag
      is 1) followed by the two endpoints in design-space units. */
  datatype Edge = Edge(flag: real, x1: real, y1: real, x2: real, y2: real)

  predicate Active(e: Edge) {
    e.flag == 1.0
  }

  /** Fixed far end of the ray cast from every test point. */
  const RayX: real := 1.0
  const RayY: real := 30.0

  /** Scale factors from design-space units to grid-index units. */
  function ScaleX(nelx: int): real {
    0.05 * nelx as real
  }

  function ScaleY(nely: int): real {
    0.1 * nely as real
  }

  /** Determinant of a 3 by 3 matrix, by cofactor expansion along the first row. */
  function Det3(m: seq<seq<real>>): real
    requires |m| == 3 && |m[0]| == 3 && |m[1]| == 3 && |m[2]| == 3
  {
    m[0][0] * (m[1][1] * m[2][2] - m[1][2] * m[2][1])
    - m[0][1] * (m[1][0] * m[2][2] - m[1][2] * m[2][0])
    + m[0][2] * (m[1][0] * m[2][1] - m[1][1] * m[2][0])
  }

  /** The homogeneous-coordinate matrix `[[xa, xb, xc], [ya, yb, yc], [1, 1, 1]]`. */
  function Homogeneous(xa: real, ya: real, xb: real, yb: real, xc: real, yc: real): seq<seq<real>> {
    [[xa, xb, xc], [ya, yb, yc], [1.0, 1.0, 1.0]]
  }

  /** Twice the signed area of the triangle abc (the 2D cross product of b - a and c - a). */
  function Cross(xa: real, ya: real, xb: real, yb: real, xc: real, yc: real): real {
    (xb - xa) * (yc - ya) - (yb - ya) * (xc - xa)
  }

  /** `_ccw`: a, b, c make a strict left turn. Collinear triples are not
      counter-clockwise. */
  function Ccw(xa: real, ya: real, xb: real, yb: real, xc: real, yc: real): bool {
    Cross(xa, ya, xb, yb, xc, yc) > 0.0
  }

  /** `_ccw` is exactly the sign test of the homogeneous 3 by 3 determinant. */
  lemma CcwIsDeterminantSign(xa: real, ya: real, xb: real, yb: real, xc: real, yc: real)
    ensures Ccw(xa, ya, xb, yb, xc, yc) <==> Det3(Homogeneous(xa, ya, xb, yb, xc, yc)) > 0.0
  {
    assert Det3(Homogeneous(xa, ya, xb, yb, xc, yc)) == Cross(xa, ya, xb, yb, xc, yc);
  }

  /** The orientation of a triangle does not depend on which vertex is named first. */
  lemma CcwRotate(xa: real, ya: real, xb: real, yb: real, xc: real, yc: real)
    ensures Ccw(xa, ya, xb, yb, xc, yc) == Ccw(xb, yb, xc, yc, xa, ya)
  {
    assert Cross(xa, ya, xb, yb, xc, yc) == Cross(xb, yb, xc, yc, xa, ya);
  }

  /** Swapping two vertices of a non-degenerate triangle reverses its orientation;
      a degenerate (collinear) triangle is counter-clockwise in neither order. */
  lemma CcwSwap(xa: real, ya: real, xb: real, yb: real, xc: real, yc: real)
    ensures Cross(xa, ya, xb, yb, xc, yc) != 0.0 ==>
      Ccw(xb, yb, xa, ya, xc, yc) == !Ccw(xa, ya, xb, yb, xc, yc)
    ensures Cross(xa, ya, xb, yb, xc, yc) == 0.0 ==>
      !Ccw(xa, ya, xb, yb, xc, yc) && !Ccw(xb, yb, xa, ya, xc, yc)
  {
    assert Cross(xb, yb, xa, ya, xc, yc) == -Cross(xa, ya, xb, yb, xc, yc);
  }

  /** The segment test of `_membershiptest`: the ray from (RayX, RayY) to (px, py)
      and the scaled edge cross, by the orientation criterion. */
  predicate SegmentsCross(xa: real, ya: real, xb: real, yb: real,
                          xc: real, yc: real, xd: real, yd: real)
  {
    Ccw(xa, ya, xb, yb, xc, yc) != Ccw(xa, ya, xb, yb, xd, yd) &&
    Ccw(xc, yc, xd, yd, xa, ya) != Ccw(xc, yc, xd, yd, xb, yb)
  }

  /** An edge's endpoints in grid-index units. */
  datatype Segment = Segment(xc: real, yc: real, xd: real, yd: real)

  /** Edge `e` scaled from design-space units to grid-index units. */
  function Scaled(e: Edge, nely: int, nelx: int): Segment {
    Segment(ScaleX(nelx) * e.x1, ScaleY(nely) * e.y1, ScaleX(nelx) * e.x2, ScaleY(nely) * e.y2)
  }

  /** Whether the ray from (RayX, RayY) to (px, py) crosses segment `s`. */
  predicate RayCrosses(px: real, py: real, s: Segment) {
    SegmentsCross(RayX, RayY, px, py, s.xc, s.yc, s.xd, s.yd)
  }

  /** Whether edge `e` adds one to the crossing count of the test point (px, py). */
  predicate Crossing(px: real, py: real, e: Edge, nely: int, nelx: int) {
    Active(e) && RayCrosses(px, py, Scaled(e, nely, nelx))
  }

  /** Number of edges, in table order, that the ray from the test point crosses. */
  function CrossCount(px: real, py: real, edges: seq<Edge>, nely: int, nelx: int): nat
    decreases |edges|
  {
    if edges == [] then 0
    else
      CrossCount(px, py, edges[..|edges| - 1], nely, nelx)
      + (if Crossing(px, py, edges[|edges| - 1], nely, nelx) then 1 else 0)
  }

  /** The point lies inside the hole: the crossing count is odd. */
  predicate InsidePolygon(px: real, py: real, edges: seq<Edge>, nely: int, nelx: int) {
    CrossCount(px, py, edges, nely, nelx) % 2 == 1
  }

  /** `_membershiptest`: walks the edge table counting crossings of active edges,
      and reports whether the count is odd. */
  method MembershipTest(px: real, py: real, edges: seq<Edge>, nely: int, nelx: int)
    returns (inside: bool)
    ensures inside <==> CrossCount(px, py, edges, nely, nelx) % 2 == 1
  {
    var crossNumber := 0;
    var i := 0;
    while i < |edges|
      invariant 0 <= i <= |edges|
      invariant crossNumber == CrossCount(px, py, edges[..i], nely, nelx)
    {
      var e := edges[i];
      assert edges[..i + 1][..i] == edges[..i] && edges[..i + 1][i] == e;
      assert CrossCount(px, py, edges[..i + 1], nely, nelx)
        == crossNumber + (if Crossing(px, py, e, nely, nelx) then 1 else 0);
      if e.flag == 1.0 {
        var s := Scaled(e, nely, nelx);
        if SegmentsCross(RayX, RayY, px, py, s.xc, s.yc, s.xd, s.yd) {
          crossNumber := crossNumber + 1;
        }
      }
      i := i + 1;
    }
    assert edges[..i] == edges;
    inside := crossNumber % 2 == 1;
  }

  /** Crossings of consecutive parts of the table add up. */
  lemma {:induction false} CrossCountAppend(px: real, py: real, a: seq<Edge>, b: seq<Edge>, nely: int, nelx: int)
    ensures CrossCount(px, py, a + b, nely, nelx)
      == CrossCount(px, py, a, nely, nelx) + CrossCount(px, py, b, nely, nelx)
    decreases |b|
  {
    if b == [] {
      assert a + b == a;
    } else {
      var b' := b[..|b| - 1];
      assert (a + b)[..|a + b| - 1] == a + b';
      CrossCountAppend(px, py, a, b', nely, nelx);
    }
  }

  /** An inactive edge never changes the verdict, wherever it sits in the table. */
  lemma InactiveEdgeIgnored(px: real, py: real, a: seq<Edge>, e: Edge, b: seq<Edge>, nely: int, nelx: int)
    requires !Active(e)
    ensures CrossCount(px, py, a + [e] + b, nely, nelx) == CrossCount(px, py, a + b, nely, nelx)
    ensures InsidePolygon(px, py, a + [e] + b, nely, nelx) == InsidePolygon(px, py, a + b, nely, nelx)
  {
    CrossCountAppend(px, py, a + [e], b, nely, nelx);
    CrossCountAppend(px, py, a, [e], nely, nelx);
    CrossCountAppend(px, py, a, b, nely, nelx);
    assert CrossCount(px, py, [e], nely, nelx) == 0 by {
      assert [e][..0] == [];
    }
  }

  /** A table without active edges puts no point inside. */
  lemma {:induction false} NoActiveEdgesOutside(px: real, py: real, edges: seq<Edge>, nely: int, nelx: int)
    requires forall i :: 0 <= i < |edges| ==> !Active(edges[i])
    ensures CrossCount(px, py, edges, nely, nelx) == 0
    ensures !InsidePolygon(px, py, edges, nely, nelx)
    decreases |edges|
  {
    if edges != [] {
      NoActiveEdgesOutside(px, py, edges[..|edges| - 1], nely, nelx);
    }
  }

  /** The verdict does not depend on which edge the table starts with. */
  lemma RotationInvariant(px: real, py: real, a: seq<Edge>, b: seq<Edge>, nely: int, nelx: int)
    ensures InsidePolygon(px, py, a + b, nely, nelx) == InsidePolygon(px, py, b + a, nely, nelx)
  {
    CrossCountAppend(px, py, a, b, nely, nelx);
    CrossCountAppend(px, py, b, a, nely, nelx);
  }

  /** The edge with its endpoints swapped. */
  function Reversed(e: Edge): Edge {
    Edge(e.flag, e.x2, e.y2, e.x1, e.y1)
  }

  /** No three of the ray's and the scaled edge's endpoints are collinear. */
  predicate GeneralPosition(px: real, py: real, e: Edge, nely: int, nelx: int) {
    var s := Scaled(e, nely, nelx);
    Cross(RayX, RayY, px, py, s.xc, s.yc) != 0.0 && Cross(RayX, RayY, px, py, s.xd, s.yd) != 0.0 &&
    Cross(s.xc, s.yc, s.xd, s.yd, RayX, RayY) != 0.0 && Cross(s.xc, s.yc, s.xd, s.yd, px, py) != 0.0
  }

  /** Away from collinear ties, the segment test is symmetric in the edge's endpoints. */
  lemma SegmentsCrossReversed(xa: real, ya: real, xb: real, yb: real,
                              xc: real, yc: real, xd: real, yd: real)
    requires Cross(xc, yc, xd, yd, xa, ya) != 0.0 && Cross(xc, yc, xd, yd, xb, yb) != 0.0
    ensures SegmentsCross(xa, ya, xb, yb, xd, yd, xc, yc) == SegmentsCross(xa, ya, xb, yb, xc, yc, xd, yd)
  {
    CcwSwap(xc, yc, xd, yd, xa, ya);
    CcwSwap(xc, yc, xd, yd, xb, yb);
  }

  /** Away from degenerate ties, the ray crosses a segment in either direction alike. */
  lemma RayCrossesFlipped(px: real, py: real, s: Segment)
    requires Cross(s.xc, s.yc, s.xd, s.yd, RayX, RayY) != 0.0 && Cross(s.xc, s.yc, s.xd, s.yd, px, py) != 0.0
    ensures RayCrosses(px, py, Segment(s.xd, s.yd, s.xc, s.yc)) == RayCrosses(px, py, s)
  {
    SegmentsCrossReversed(RayX, RayY, px, py, s.xc, s.yc, s.xd, s.yd);
  }

  /** Away from degenerate ties, the direction of an edge does not matter; an
      inactive edge is never crossed in either direction. */
  lemma CrossingReversed(px: real, py: real, e: Edge, nely: int, nelx: int)
    requires Active(e) ==> GeneralPosition(px, py, e, nely, nelx)
    ensures Crossing(px, py, Reversed(e), nely, nelx) == Crossing(px, py, e, nely, nelx)
  {
    var s := Scaled(e, nely, nelx);
    assert Scaled(Reversed(e), nely, nelx) == Segment(s.xd, s.yd, s.xc, s.yc);
    if Active(e) {
      RayCrossesFlipped(px, py, s);
    }
  }

  /** Every edge of the table reversed. */
  function ReverseAll(edges: seq<Edge>): (r: seq<Edge>)
    ensures |r| == |edges|
    ensures forall i :: 0 <= i < |edges| ==> r[i] == Reversed(edges[i])
  {
    seq(|edges|, i requires 0 <= i < |edges| => Reversed(edges[i]))
  }

  /** With every active edge in general position, flipping each edge in place
      leaves the count and the verdict unchanged. */
  lemma {:induction false} WindingInvariant(px: real, py: real, edges: seq<Edge>, nely: int, nelx: int)
    requires forall i :: 0 <= i < |edges| && Active(edges[i]) ==> GeneralPosition(px, py, edges[i], nely, nelx)
    ensures CrossCount(px, py, ReverseAll(edges), nely, nelx) == CrossCount(px, py, edges, nely, nelx)
    ensures InsidePolygon(px, py, ReverseAll(edges), nely, nelx) == InsidePolygon(px, py, edges, nely, nelx)
    decreases |edges|
  {
    if edges != [] {
      var n := |edges| - 1;
      WindingInvariant(px, py, edges[..n], nely, nelx);
      assert ReverseAll(edges)[..n] == ReverseAll(edges[..n]);
      CrossingReversed(px, py, edges[n], nely, nelx);
    }
  }

  /** The edge table read from last row to first. */
  function Rev(edges: seq<Edge>): (r: seq<Edge>)
    ensures |r| == |edges|
    decreases |edges|
  {
    if edges == [] then [] else Rev(edges[1..]) + [edges[0]]
  }

  /** Walking the table backwards counts the same crossings. */
  lemma {:induction false} CrossCountRev(px: real, py: real, edges: seq<Edge>, nely: int, nelx: int)
    ensures CrossCount(px, py, Rev(edges), nely, nelx) == CrossCount(px, py, edges, nely, nelx)
    decreases |edges|
  {
    if edges != [] {
      var r := Rev(edges);
      CrossCountRev(px, py, edges[1..], nely, nelx);
      assert r[..|r| - 1] == Rev(edges[1..]) && r[|r| - 1] == edges[0];
      assert edges == [edges[0]] + edges[1..];
      CrossCountAppend(px, py, [edges[0]], edges[1..], nely, nelx);
      assert [edges[0]][..0] == [];
    }
  }

  /** Winding independence: with every active edge in general position, the same
      boundary traversed the other way (rows in reverse order, each edge flipped)
      gives the same count and verdict. */
  lemma OppositeWinding(px: real, py: real, edges: seq<Edge>, nely: int, nelx: int)
    requires forall i :: 0 <= i < |edges| && Active(edges[i]) ==> GeneralPosition(px, py, edges[i], nely, nelx)
    ensures CrossCount(px, py, Rev(ReverseAll(edges)), nely, nelx) == CrossCount(px, py, edges, nely, nelx)
    ensures InsidePolygon(px, py, Rev(ReverseAll(edges)), nely, nelx) == InsidePolygon(px, py, edges, nely, nelx)
  {
    CrossCountRev(px, py, ReverseAll(edges), nely, nelx);
    WindingInvariant(px, py, edges, nely, nelx);
  }
}
