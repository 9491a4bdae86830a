/**
  The nodes of the spherical circle tree and what it means for circles to nest.
  Distance on the sphere and projection along a geodesic are parameters.
 */
module CircNode {
  import opened LwTypes

  datatype Point = Point(lon: real, lat: real)

  /** Tolerance of the geodetic comparisons. */
  const FP_TOLERANCE: real := 0.00000000000005

  /** `project(c1, c2, offset)` goes from `c1` towards `c2` by `offset`. */
  datatype Sphere = Sphere(dist: (Point, Point) -> real, project: (Point, Point, real) -> Point)

  ghost predicate IsMetric(s: Sphere) {
    && (forall x, y :: 0.0 <= s.dist(x, y) < FLT_MAX)
    && (forall x, y :: s.dist(x, y) == s.dist(y, x))
    && (forall x :: s.dist(x, x) == 0.0)
    && (forall x, y, z :: s.dist(x, z) <= s.dist(x, y) + s.dist(y, z))
  }

  /** Projection is exact: the new point lies on the geodesic. */
  ghost predicate IsGeodesic(s: Sphere) {
    && IsMetric(s)
    && forall x, y, off | 0.0 <= off <= s.dist(x, y) ::
         var p := s.project(x, y, off); s.dist(x, p) == off && s.dist(p, y) == s.dist(x, y) - off
  }

  // ---------- a model of the parameters ----------

  function Clamp(x: real): real {
    if x < 0.0 then 0.0 else if x > 1.0 then 1.0 else x
  }

  function Gap(x: real, y: real): real {
    if x < y then y - x else x - y
  }

  /** A segment of length one stands in for the sphere. */
  function Segment(): Sphere {
    Sphere((p: Point, q: Point) => Gap(Clamp(p.lon), Clamp(q.lon)),
           (p: Point, q: Point, off: real) =>
             Point(if Clamp(p.lon) <= Clamp(q.lon) then Clamp(p.lon) + off else Clamp(p.lon) - off, 0.0))
  }

  /** What is taken for granted about distance and projection can be met. */
  lemma SphereExists()
    ensures IsGeodesic(Segment()) && Segment().dist(Point(0.0, 0.0), Point(1.0, 0.0)) == 1.0
  {
    hide IsMetric;
    SegmentIsMetric();
    forall p, q, off | 0.0 <= off <= Segment().dist(p, q)
      ensures var r := Segment().project(p, q, off);
              Segment().dist(p, r) == off && Segment().dist(r, q) == Segment().dist(p, q) - off
    {
      SegmentProjects(p, q, off);
    }
  }

  lemma SegmentProjects(p: Point, q: Point, off: real)
    requires 0.0 <= off <= Segment().dist(p, q)
    ensures var s := Segment();
            var r := s.project(p, q, off);
            s.dist(p, r) == off && s.dist(r, q) == s.dist(p, q) - off
  {
    hide Clamp, Gap;
    ClampRange(p.lon);
    ClampRange(q.lon);
    GapSplit(Clamp(p.lon), Clamp(q.lon), off);
  }

  lemma SegmentIsMetric()
    ensures IsMetric(Segment())
  {
    hide Clamp;
    forall p: Point ensures 0.0 <= Clamp(p.lon) <= 1.0 { ClampRange(p.lon); }
  }

  lemma ClampRange(x: real)
    ensures 0.0 <= Clamp(x) <= 1.0
  {
  }

  lemma GapSplit(x: real, y: real, off: real)
    requires 0.0 <= x <= 1.0 && 0.0 <= y <= 1.0 && 0.0 <= off <= Gap(x, y)
    ensures var z := Clamp(if x <= y then x + off else x - off); Gap(x, z) == off && Gap(z, y) == Gap(x, y) - off
  {
  }

  datatype Circle = Circle(center: Point, radius: real)

  /** An edge between two vertices; a single vertex is an edge from it to itself. */
  datatype Edge = Edge(p1: Point, p2: Point, num: int)

  datatype Node =
    | Leaf(circle: Circle, geomType: nat, edge: Edge)
    | Inner(circle: Circle, geomType: nat, nodes: seq<Node>)

  const CIRC_NODE_SIZE: nat := 8

  /** Every internal node has a collection type. */
  ghost predicate CollectionsOnly(n: Node) {
    n.Inner? ==> IsCollection(n.geomType) && forall k | 0 <= k < |n.nodes| :: CollectionsOnly(n.nodes[k])
  }

  // ---------- leaves ----------

  function Leaves(n: Node): seq<Node> {
    match n
    case Leaf(_, _, _) => [n]
    case Inner(_, _, nodes) => AllLeaves(nodes)
  }

  function AllLeaves(nodes: seq<Node>): seq<Node> {
    if nodes == [] then [] else Leaves(nodes[0]) + AllLeaves(nodes[1..])
  }

  lemma {:induction false} AllLeavesConcat(a: seq<Node>, b: seq<Node>)
    ensures AllLeaves(a + b) == AllLeaves(a) + AllLeaves(b)
  {
    hide Leaves, AllLeaves;
    if a == [] {
      NoLeaves();
      assert a + b == b;
    } else {
      var first, rest := a[0], a[1..];
      AllLeavesConcat(rest, b);
      AllLeavesFirst(first, rest);
      AllLeavesFirst(first, rest + b);
      assert a == [first] + rest && a + b == [first] + (rest + b);
    }
  }

  lemma NoLeaves()
    ensures AllLeaves([]) == []
  {
  }

  lemma AllLeavesFirst(first: Node, rest: seq<Node>)
    ensures AllLeaves([first] + rest) == Leaves(first) + AllLeaves(rest)
  {
    hide Leaves;
    assert ([first] + rest)[1..] == rest;
  }

  /** A leaf below a list of nodes is a leaf below one of them. */
  lemma {:induction false} LeafOfChild(nodes: seq<Node>, l: Node) returns (k: nat)
    requires l in AllLeaves(nodes)
    ensures k < |nodes| && l in Leaves(nodes[k])
  {
    if l in Leaves(nodes[0]) { return 0; }
    k := LeafOfChild(nodes[1..], l);
    k := k + 1;
  }

  lemma {:induction false} ChildLeaves(nodes: seq<Node>, k: nat)
    requires k < |nodes|
    ensures forall l | l in Leaves(nodes[k]) :: l in AllLeaves(nodes)
  {
    if k > 0 { ChildLeaves(nodes[1..], k - 1); }
  }

  // ---------- nesting ----------

  predicate Covers(s: Sphere, outer: Circle, inner: Circle) {
    s.dist(outer.center, inner.center) + inner.radius <= outer.radius
  }

  lemma CoversTransitive(s: Sphere, a: Circle, b: Circle, c: Circle)
    requires IsMetric(s) && Covers(s, a, b) && Covers(s, b, c)
    ensures Covers(s, a, c)
  {
  }

  /** Every circle holds the circles of its children, and no internal node is empty. */
  ghost predicate Nested(s: Sphere, n: Node) {
    match n
    case Leaf(c, _, _) => c.radius >= 0.0
    case Inner(c, _, nodes) =>
      |nodes| > 0 && forall k | 0 <= k < |nodes| :: Covers(s, c, nodes[k].circle) && Nested(s, nodes[k])
  }

  lemma {:induction false} LeafInside(s: Sphere, n: Node, l: Node)
    requires IsMetric(s) && Nested(s, n) && l in Leaves(n)
    ensures l.Leaf? && l.circle.radius >= 0.0 && Covers(s, n.circle, l.circle)
    decreases n
  {
    if n.Inner? {
      var k := LeafOfChild(n.nodes, l);
      LeafInside(s, n.nodes[k], l);
      CoversTransitive(s, n.circle, n.nodes[k].circle, l.circle);
    }
  }

  lemma {:induction false} HasLeaf(s: Sphere, n: Node) returns (l: Node)
    requires Nested(s, n)
    ensures l in Leaves(n)
    decreases n
  {
    if n.Inner? {
      l := HasLeaf(s, n.nodes[0]);
      ChildLeaves(n.nodes, 0);
    } else {
      l := n;
    }
  }
}
