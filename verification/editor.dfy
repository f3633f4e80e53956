/** The point editor of the interactive Delaunay example: the triangle lookup
    under the pointer, and the hit test a left press runs to pick an existing
    point to drag or, failing that, to add a new one. */
module Editor {

  /** A point. Every point the editor stores comes from the integer pointer
      position, so coordinates are integers. */
  datatype Point = Point(x: int, y: int)

  datatype Triangle = Triangle(p0: Point, p1: Point, p2: Point)

  /** The part of `delaunay::delaunay` the lookup reads: its triangles, in order. */
  datatype Triangulation = Triangulation(triangles: seq<Triangle>)

  /** `math::in_triangle(v, p0, p1, p2)`, whose definition this model does not see. */
  type Containment = (Point, Point, Point, Point) -> bool

  /** `delaunay::triangulate`, whose definition this model does not see. */
  type Triangulator = seq<Point> -> Triangulation

  /** The editor fields the left button reads and writes. */
  datatype Scene = Scene(
    points: seq<Point>,
    dln: Triangulation,
    mouse1Down: bool,
    drag1Mode: bool,
    drag1Id: int,
    updated: bool)

  predicate Contains(inTriangle: Containment, t: Triangle, v: Point)
  {
    inTriangle(v, t.p0, t.p1, t.p2)
  }

  /** `(points[i] - mp).len2()`: the squared distance of two points. */
  function Len2(p: Point, q: Point): (d: int)
    ensures d >= 0
    ensures d == 0 <==> p == q
  {
    var dx, dy := p.x - q.x, p.y - q.y;
    assert dx * dx >= 0 && dy * dy >= 0;
    assert dx != 0 ==> dx * dx > 0;
    assert dy != 0 ==> dy * dy > 0;
    dx * dx + dy * dy
  }

  /** A point counts as under the pointer when it is closer than 10 pixels. */
  predicate Near(p: Point, pointer: Point)
  {
    Len2(p, pointer) < 100
  }

  /** `scene::get_triangle`: the index of the first triangle containing `v`,
      or -1 when there is none or when fewer than three points exist. */
  method GetTriangle(points: seq<Point>, dln: Triangulation, v: Point, inTriangle: Containment)
    returns (r: int)
    ensures |points| < 3 ==> r == -1
    ensures r == -1 || 0 <= r < |dln.triangles|
    ensures 0 <= r < |dln.triangles| ==>
      Contains(inTriangle, dln.triangles[r], v)
      && forall j | 0 <= j < r :: !Contains(inTriangle, dln.triangles[j], v)
    ensures r == -1 && |points| >= 3 ==>
      forall j | 0 <= j < |dln.triangles| :: !Contains(inTriangle, dln.triangles[j], v)
  {
    if |points| < 3 {
      return -1;
    }
    var i := 0;
    while i < |dln.triangles|
      invariant 0 <= i <= |dln.triangles|
      invariant forall j | 0 <= j < i :: !Contains(inTriangle, dln.triangles[j], v)
    {
      if inTriangle(v, dln.triangles[i].p0, dln.triangles[i].p1, dln.triangles[i].p2) {
        return i;
      }
      i := i + 1;
    }
    return -1;
  }

  /** The left-button branch of `scene::loop`, taken while the button is down
      and no point is being dragged. If a stored point is near the pointer,
      the first such point is picked for dragging and nothing else changes;
      otherwise the pointer is appended as a new point, the triangulation is
      recomputed, the press is consumed and a redraw is requested. */
  method PressLeft(s: Scene, pointer: Point, triangulate: Triangulator) returns (t: Scene)
    requires s.mouse1Down && !s.drag1Mode
    ensures (exists j | 0 <= j < |s.points| :: Near(s.points[j], pointer)) ==>
      && t == s.(drag1Mode := true, drag1Id := t.drag1Id)
      && 0 <= t.drag1Id < |s.points|
      && Near(s.points[t.drag1Id], pointer)
      && forall j | 0 <= j < t.drag1Id :: !Near(s.points[j], pointer)
    ensures (forall j | 0 <= j < |s.points| :: !Near(s.points[j], pointer)) ==>
      && t.points == s.points + [pointer]
      && t.dln == triangulate(t.points)
      && !t.mouse1Down && t.updated
      && t.drag1Mode == s.drag1Mode && t.drag1Id == s.drag1Id
      && Near(t.points[|s.points|], pointer)
  {
    var i := 0;
    while i < |s.points|
      invariant 0 <= i <= |s.points|
      invariant forall j | 0 <= j < i :: !Near(s.points[j], pointer)
    {
      if Len2(s.points[i], pointer) < 100 {
        return s.(drag1Mode := true, drag1Id := i);
      }
      i := i + 1;
    }
    var points := s.points + [pointer];
    t := s.(points := points, dln := triangulate(points), mouse1Down := false, updated := true);
  }
}
