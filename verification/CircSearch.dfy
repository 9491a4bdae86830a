/** The two pruned searches of the circle tree, each shown equal to a search without pruning. */
module CircSearch {
  import opened LwTypes
  import opened Sorting
  import opened CircNode
  import opened CircBuild

  // ---------- counting crossings of a stab line ----------

  /** `far(p)` is the distance of the stab line from `p`; `crosses(l)` is the test on one edge. */
  datatype Stab = Stab(far: Point -> real, crosses: Node -> bool)

  /** The distance of a line from a point moves no faster than the point. */
  ghost predicate IsStab(s: Sphere, stab: Stab) {
    forall x, y :: stab.far(x) <= stab.far(y) + s.dist(x, y)
  }

  /** A leaf is crossed only where the line comes within its circle. */
  ghost predicate StabConsistent(stab: Stab, n: Node) {
    forall l | l in Leaves(n) && stab.crosses(l) :: stab.far(l.circle.center) - FP_TOLERANCE <= l.circle.radius
  }

  /** 1 when the crossings counted are odd in number, 0 when even. */
  function ContainsPoint(stab: Stab, n: Node): nat {
    if stab.far(n.circle.center) - FP_TOLERANCE <= n.circle.radius then
      match n
      case Leaf(_, _, _) => if stab.crosses(n) then 1 else 0
      case Inner(_, _, nodes) => SumContains(stab, nodes) % 2
    else 0
  }

  function SumContains(stab: Stab, nodes: seq<Node>): nat {
    if nodes == [] then 0 else ContainsPoint(stab, nodes[0]) + SumContains(stab, nodes[1..])
  }

  /** The number of leaves crossed, with no pruning. */
  function Crossings(stab: Stab, leaves: seq<Node>): nat {
    if leaves == [] then 0 else (if stab.crosses(leaves[0]) then 1 else 0) + Crossings(stab, leaves[1..])
  }

  lemma {:induction false} CrossingsConcat(stab: Stab, a: seq<Node>, b: seq<Node>)
    ensures Crossings(stab, a + b) == Crossings(stab, a) + Crossings(stab, b)
  {
    if a == [] {
      assert a + b == b;
    } else {
      CrossingsConcat(stab, a[1..], b);
      assert (a + b)[1..] == a[1..] + b;
    }
  }

  lemma {:induction false} NoCrossings(stab: Stab, leaves: seq<Node>)
    requires forall l | l in leaves :: !stab.crosses(l)
    ensures Crossings(stab, leaves) == 0
  {
    if leaves != [] { NoCrossings(stab, leaves[1..]); }
  }

  /** Pruning a node loses nothing: the line then crosses none of its leaves. */
  lemma PrunedUncrossed(s: Sphere, stab: Stab, n: Node)
    requires IsMetric(s) && IsStab(s, stab) && Nested(s, n) && StabConsistent(stab, n)
    requires stab.far(n.circle.center) - FP_TOLERANCE > n.circle.radius
    ensures Crossings(stab, Leaves(n)) == 0
  {
    forall l | l in Leaves(n) ensures !stab.crosses(l) {
      LeafInside(s, n, l);
      assert stab.far(n.circle.center) <= stab.far(l.circle.center) + s.dist(n.circle.center, l.circle.center);
    }
    NoCrossings(stab, Leaves(n));
  }

  /** The pruned count has the parity of all crossings. */
  lemma {:induction false} ContainsPointIsParity(s: Sphere, stab: Stab, n: Node)
    requires IsMetric(s) && IsStab(s, stab) && Nested(s, n) && StabConsistent(stab, n)
    ensures ContainsPoint(stab, n) == Crossings(stab, Leaves(n)) % 2
    decreases n, 1
  {
    if stab.far(n.circle.center) - FP_TOLERANCE > n.circle.radius {
      PrunedUncrossed(s, stab, n);
    } else if n.Inner? {
      SumContainsIsParity(s, stab, n.nodes);
    }
  }

  lemma {:induction false} SumContainsIsParity(s: Sphere, stab: Stab, nodes: seq<Node>)
    requires IsMetric(s) && IsStab(s, stab) && forall k | 0 <= k < |nodes| :: Nested(s, nodes[k])
    requires forall l | l in AllLeaves(nodes) && stab.crosses(l) ::
               stab.far(l.circle.center) - FP_TOLERANCE <= l.circle.radius
    ensures SumContains(stab, nodes) % 2 == Crossings(stab, AllLeaves(nodes)) % 2
    decreases nodes, 0
  {
    hide IsMetric, IsStab;
    if nodes != [] {
      ContainsPointIsParity(s, stab, nodes[0]);
      SumContainsIsParity(s, stab, nodes[1..]);
      CrossingsConcat(stab, Leaves(nodes[0]), AllLeaves(nodes[1..]));
    }
  }

  // ---------- branch and bound distance ----------

  /** The closest points of the edges of two leaves. */
  type Nearest = (Node, Node) -> (Point, Point)

  function LeafDist(s: Sphere, near: Nearest, a: Node, b: Node): real {
    s.dist(near(a, b).0, near(a, b).1)
  }

  /** The closest points lie within the circles of their leaves. */
  ghost predicate NearConsistent(s: Sphere, near: Nearest) {
    forall a: Node, b: Node | a.Leaf? && b.Leaf? && a.circle.radius >= 0.0 && b.circle.radius >= 0.0 ::
      && s.dist(a.circle.center, near(a, b).0) <= a.circle.radius
      && s.dist(b.circle.center, near(a, b).1) <= b.circle.radius
  }

  /** The assumptions of both searches can be met together, by trees of any shape. */
  lemma ParametersExist(n1: Node, n2: Node) returns (s: Sphere, near: Nearest, stab: Stab)
    ensures IsGeodesic(s) && NearConsistent(s, near)
    ensures IsStab(s, stab) && StabConsistent(stab, n1) && StabConsistent(stab, n2)
  {
    s := Segment();
    SphereExists();
    near := (a: Node, b: Node) => (a.circle.center, b.circle.center);
    var far := (p: Point) => Segment().dist(p, Point(0.0, 0.0));
    stab := Stab(far, (l: Node) => far(l.circle.center) <= l.circle.radius);
  }

  function MinDistance(s: Sphere, a: Circle, b: Circle): real {
    var d := s.dist(a.center, b.center);
    if d < a.radius + b.radius then 0.0 else d - a.radius - b.radius
  }

  function MaxDistance(s: Sphere, a: Circle, b: Circle): real {
    s.dist(a.center, b.center) + a.radius + b.radius
  }

  /** The circle bounds are sound for every pair of leaves below two nodes. */
  lemma BoundsHold(s: Sphere, near: Nearest, n1: Node, n2: Node, l1: Node, l2: Node)
    requires IsMetric(s) && NearConsistent(s, near) && Nested(s, n1) && Nested(s, n2)
    requires l1 in Leaves(n1) && l2 in Leaves(n2)
    ensures MinDistance(s, n1.circle, n2.circle) <= LeafDist(s, near, l1, l2) <= MaxDistance(s, n1.circle, n2.circle)
  {
    hide IsMetric, Nested;
    LeafInside(s, n1, l1);
    LeafInside(s, n2, l2);
    var (p, q) := near(l1, l2);
    Reach(s, n1.circle, l1.circle, p);
    Reach(s, n2.circle, l2.circle, q);
    Detour(s, p, n1.circle.center, n2.circle.center, q);
    Detour(s, n1.circle.center, p, q, n2.circle.center);
  }

  /** No better lower bound follows from the circles: two points in them are just so far apart. */
  lemma MinAttained(s: Sphere, a: Circle, b: Circle) returns (p: Point, q: Point)
    requires IsGeodesic(s) && a.radius >= 0.0 && b.radius >= 0.0
    ensures s.dist(a.center, p) <= a.radius && s.dist(b.center, q) <= b.radius
    ensures s.dist(p, q) == MinDistance(s, a, b)
  {
    var d := s.dist(a.center, b.center);
    if d <= a.radius {
      return b.center, b.center;
    }
    p := s.project(a.center, b.center, a.radius);
    if d - a.radius <= b.radius {
      return p, p;
    }
    q := s.project(p, b.center, d - a.radius - b.radius);
  }

  /** Nor a better upper bound, where there is room: on the segment two points are just so far apart. */
  lemma MaxAttained(a: Circle, b: Circle) returns (p: Point, q: Point)
    requires 0.0 <= a.radius <= a.center.lon <= b.center.lon && 0.0 <= b.radius <= 1.0 - b.center.lon
    ensures var s := Segment();
            && s.dist(a.center, p) <= a.radius && s.dist(b.center, q) <= b.radius
            && s.dist(p, q) == MaxDistance(s, a, b)
  {
    p, q := Point(a.center.lon - a.radius, 0.0), Point(b.center.lon + b.radius, 0.0);
  }

  /** Going through two stops is no shorter than going straight. */
  lemma Detour(s: Sphere, a: Point, b: Point, c: Point, d: Point)
    requires IsMetric(s)
    ensures 0.0 <= s.dist(a, d) <= s.dist(b, a) + s.dist(b, c) + s.dist(c, d)
    ensures s.dist(a, b) == s.dist(b, a) && s.dist(c, d) == s.dist(d, c)
  {
  }

  lemma Reach(s: Sphere, outer: Circle, inner: Circle, p: Point)
    requires IsMetric(s) && Covers(s, outer, inner) && s.dist(inner.center, p) <= inner.radius
    ensures s.dist(outer.center, p) <= outer.radius
  {
  }

  /** Leaf pairs below two nodes. */
  ghost predicate Pair(n1: Node, n2: Node, l1: Node, l2: Node) {
    l1 in Leaves(n1) && l2 in Leaves(n2)
  }

  /** The children that the search iterates over: none for a leaf. */
  function Children(n: Node): (nodes: seq<Node>)
    ensures forall c | c in nodes :: c < n
  {
    if n.Inner? then n.nodes else []
  }

  /** Which of two nodes is opened: collection types first, whether or not they have children. */
  predicate OpensFirst(n1: Node, n2: Node) {
    IsCollection(n1.geomType) || (!IsCollection(n2.geomType) && n1.Inner?)
  }

  /** The pairs of leaves that opening nodes in this order comes to, when nothing is pruned. */
  ghost predicate Reached(n1: Node, n2: Node, l1: Node, l2: Node)
    decreases n1, n2
  {
    if n1.Leaf? && n2.Leaf? then l1 == n1 && l2 == n2
    else if OpensFirst(n1, n2) then exists c :: c in Children(n1) && Reached(c, n2, l1, l2)
    else exists c :: c in Children(n2) && Reached(n1, c, l1, l2)
  }

  /** Leaf pairs are reached, and none other. */
  lemma {:induction false} ReachedIsPair(n1: Node, n2: Node, l1: Node, l2: Node)
    requires Reached(n1, n2, l1, l2)
    ensures Pair(n1, n2, l1, l2)
    decreases n1, n2
  {
    if n1.Leaf? && n2.Leaf? {
    } else if OpensFirst(n1, n2) {
      var c :| c in Children(n1) && Reached(c, n2, l1, l2);
      ReachedIsPair(c, n2, l1, l2);
      LeavesOfChild(n1, c);
    } else {
      var c :| c in Children(n2) && Reached(n1, c, l1, l2);
      ReachedIsPair(n1, c, l1, l2);
      LeavesOfChild(n2, c);
    }
  }

  lemma LeavesOfChild(n: Node, c: Node)
    requires c in Children(n)
    ensures forall l | l in Leaves(c) :: l in Leaves(n)
  {
    var k :| 0 <= k < |n.nodes| && n.nodes[k] == c;
    ChildLeaves(n.nodes, k);
  }

  /** The recursion never meets a collection-typed leaf against an internal node. */
  ghost predicate Drivable(n1: Node, n2: Node)
    decreases n1, n2
  {
    if n1.Leaf? && n2.Leaf? then true
    else if OpensFirst(n1, n2) then n1.Inner? && forall c | c in n1.nodes :: Drivable(c, n2)
    else n2.Inner? && forall c | c in n2.nodes :: Drivable(n1, c)
  }

  /** Then every pair of leaves is reached. */
  lemma {:induction false} DrivableReaches(n1: Node, n2: Node, l1: Node, l2: Node)
    requires Drivable(n1, n2) && Pair(n1, n2, l1, l2)
    ensures Reached(n1, n2, l1, l2)
    decreases n1, n2
  {
    if n1.Leaf? && n2.Leaf? {
    } else if OpensFirst(n1, n2) {
      var k := LeafOfChild(n1.nodes, l1);
      DrivableReaches(n1.nodes[k], n2, l1, l2);
      assert n1.nodes[k] in Children(n1);
    } else {
      var k := LeafOfChild(n2.nodes, l2);
      DrivableReaches(n1, n2.nodes[k], l1, l2);
      assert n2.nodes[k] in Children(n2);
    }
  }

  /** A collection-typed leaf is opened although it has no children, instead of the other node. */
  ghost predicate Lost(n1: Node, n2: Node) {
    || (n1.Leaf? && IsCollection(n1.geomType) && n2.Inner?)
    || (n2.Leaf? && IsCollection(n2.geomType) && n1.Inner? && !IsCollection(n1.geomType))
  }

  ghost predicate NoPolygon(n: Node) {
    n.geomType != POLYGONTYPE && (n.Inner? ==> forall k | 0 <= k < |n.nodes| :: NoPolygon(n.nodes[k]))
  }

  /** Distances of reached pairs are no smaller than what was found, or larger than a bound already known. */
  ghost predicate Settled(s: Sphere, near: Nearest, n1: Node, n2: Node, thr: real, min: real, max: real) {
    min < thr || min == 0.0 ||
    forall l1, l2 | Reached(n1, n2, l1, l2) :: min <= LeafDist(s, near, l1, l2) || max < LeafDist(s, near, l1, l2)
  }

  /** The closest points of a reached pair, the one on the first tree first, and their distance. */
  ghost predicate Found(s: Sphere, near: Nearest, n1: Node, n2: Node, min: real, closest1: Point, closest2: Point) {
    exists l1, l2 :: Reached(n1, n2, l1, l2) && near(l1, l2) == (closest1, closest2) && min == LeafDist(s, near, l1, l2)
  }

  class Search {
    const s: Sphere
    const near: Nearest
    const qsort: Sorter<Node>
    const threshold: real
    var minDist: real
    var maxDist: real
    var closest1: Point
    var closest2: Point

    constructor (s: Sphere, near: Nearest, qsort: Sorter<Node>, threshold: real)
      ensures this.s == s && this.near == near && this.qsort == qsort && this.threshold == threshold
      ensures minDist == FLT_MAX && maxDist == FLT_MAX
    {
      this.s, this.near, this.qsort, this.threshold := s, near, qsort, threshold;
      minDist, maxDist := FLT_MAX, FLT_MAX;
      closest1, closest2 := Point(0.0, 0.0), Point(0.0, 0.0);
    }

    /** What was found are the closest points of some reached pair; the bound is not below every pair. */
    ghost predicate Valid(r1: Node, r2: Node)
      reads this
    {
      && minDist <= FLT_MAX
      && (minDist == FLT_MAX || Found(s, near, r1, r2, minDist, closest1, closest2))
      && (maxDist == FLT_MAX || exists l1, l2 :: Pair(r1, r2, l1, l2) && LeafDist(s, near, l1, l2) <= maxDist)
    }

    /** `n1` and `n2` are met on the way down from `r1` and `r2`. */
    static ghost predicate Below(n1: Node, n2: Node, r1: Node, r2: Node) {
      && (forall l | l in Leaves(n1) :: l in Leaves(r1)) && (forall l | l in Leaves(n2) :: l in Leaves(r2))
      && (forall l1, l2 | Reached(n1, n2, l1, l2) :: Reached(r1, r2, l1, l2))
    }

    ghost predicate Ready(n1: Node, n2: Node, r1: Node, r2: Node) {
      && IsMetric(s) && NearConsistent(s, near) && IsSorter(qsort)
      && Nested(s, n1) && Nested(s, n2) && NoPolygon(n1) && NoPolygon(n2)
      && Below(n1, n2, r1, r2)
    }

    /**
      Visits a pair of nodes; `r1` and `r2` are the roots of the two trees. Nothing changes once the search
      is over or the circles are too far apart; otherwise the bound is no larger than the circles allow.
     */
    method Visit(n1: Node, n2: Node, ghost r1: Node, ghost r2: Node) returns (d: real)
      requires Ready(n1, n2, r1, r2) && Valid(r1, r2)
      modifies this
      ensures Valid(r1, r2) && minDist == FpMin(old(minDist), d) && maxDist <= old(maxDist)
      ensures Settled(s, near, n1, n2, threshold, minDist, maxDist)
      ensures old(minDist) < threshold || old(minDist) == 0.0 ==> minDist == d == old(minDist) && maxDist == old(maxDist)
      ensures !(old(minDist) < threshold || old(minDist) == 0.0) ==>
                if MinDistance(s, n1.circle, n2.circle) > old(maxDist)
                then d == FLT_MAX && minDist == old(minDist) && maxDist == old(maxDist)
                else maxDist <= MaxDistance(s, n1.circle, n2.circle)
      decreases n1, n2, 1
    {
      hide IsSorter, IsMetric, NearConsistent, Nested, NoPolygon, Below, Reached;
      if minDist < threshold || minDist == 0.0 {
        return minDist;
      }
      if MinDistance(s, n1.circle, n2.circle) > maxDist {
        PruneSettles(n1, n2, r1, r2);
        return FLT_MAX;
      }
      var max := MaxDistance(s, n1.circle, n2.circle);
      if max < maxDist {
        MaxIsBound(n1, n2, r1, r2);
        maxDist := max;
      }
      if n1.Leaf? && n2.Leaf? {
        d := VisitLeaves(n1, n2, r1, r2);
      } else if IsCollection(n1.geomType) {
        d := VisitFirst(n1, n2, r1, r2);
      } else if IsCollection(n2.geomType) {
        d := VisitSecond(n1, n2, r1, r2);
      } else if n1.Inner? {
        d := VisitFirst(n1, n2, r1, r2);
      } else {
        d := VisitSecond(n1, n2, r1, r2);
      }
    }

    method VisitLeaves(n1: Node, n2: Node, ghost r1: Node, ghost r2: Node) returns (d: real)
      requires Ready(n1, n2, r1, r2) && n1.Leaf? && n2.Leaf? && Valid(r1, r2)
      modifies this
      ensures Valid(r1, r2) && minDist == FpMin(old(minDist), d) && maxDist <= old(maxDist)
      ensures Settled(s, near, n1, n2, threshold, minDist, maxDist)
    {
      hide IsSorter, IsMetric, NearConsistent, Nested, NoPolygon;
      var (close1, close2) := near(n1, n2);
      d := s.dist(close1, close2);
      assert Reached(n1, n2, n1, n2) && Reached(r1, r2, n1, n2) && d == LeafDist(s, near, n1, n2);
      if d < minDist {
        minDist := d;
        closest1, closest2 := close1, close2;
      }
    }

    method VisitFirst(n1: Node, n2: Node, ghost r1: Node, ghost r2: Node) returns (d: real)
      requires Ready(n1, n2, r1, r2) && Valid(r1, r2) && !(n1.Leaf? && n2.Leaf?) && OpensFirst(n1, n2)
      modifies this
      ensures Valid(r1, r2) && minDist == FpMin(old(minDist), d) && maxDist <= old(maxDist)
      ensures Settled(s, near, n1, n2, threshold, minDist, maxDist)
      decreases n1, n2, 0
    {
      hide IsSorter, IsMetric, NearConsistent, Nested, NoPolygon, Below, Settled, Valid, Reached;
      ValidSign(r1, r2);
      d := FLT_MAX;
      var nodes := SortNodes(Children(n1), n2);
      for i := 0 to |nodes|
        invariant Valid(r1, r2) && minDist == FpMin(old(minDist), d) && maxDist <= old(maxDist)
        invariant forall k | 0 <= k < i :: Settled(s, near, nodes[k], n2, threshold, minDist, maxDist)
      {
        ChildFirst(n1, n2, nodes[i], r1, r2);
        ghost var min, max := minDist, maxDist;
        var e := Visit(nodes[i], n2, r1, r2);
        ValidSign(r1, r2);
        if e < d { d := e; }
        forall k | 0 <= k < i ensures Settled(s, near, nodes[k], n2, threshold, minDist, maxDist) {
          SettledMonotone(s, near, nodes[k], n2, threshold, min, max, minDist, maxDist);
        }
      }
      SettledFirst(s, near, n1, n2, nodes, threshold, minDist, maxDist);
    }

    method VisitSecond(n1: Node, n2: Node, ghost r1: Node, ghost r2: Node) returns (d: real)
      requires Ready(n1, n2, r1, r2) && Valid(r1, r2) && !(n1.Leaf? && n2.Leaf?) && !OpensFirst(n1, n2)
      modifies this
      ensures Valid(r1, r2) && minDist == FpMin(old(minDist), d) && maxDist <= old(maxDist)
      ensures Settled(s, near, n1, n2, threshold, minDist, maxDist)
      decreases n1, n2, 0
    {
      hide IsSorter, IsMetric, NearConsistent, Nested, NoPolygon, Below, Settled, Valid, Reached;
      ValidSign(r1, r2);
      d := FLT_MAX;
      var nodes := SortNodes(Children(n2), n1);
      for i := 0 to |nodes|
        invariant Valid(r1, r2) && minDist == FpMin(old(minDist), d) && maxDist <= old(maxDist)
        invariant forall k | 0 <= k < i :: Settled(s, near, n1, nodes[k], threshold, minDist, maxDist)
      {
        ChildSecond(n1, n2, nodes[i], r1, r2);
        ghost var min, max := minDist, maxDist;
        var e := Visit(n1, nodes[i], r1, r2);
        ValidSign(r1, r2);
        if e < d { d := e; }
        forall k | 0 <= k < i ensures Settled(s, near, n1, nodes[k], threshold, minDist, maxDist) {
          SettledMonotone(s, near, n1, nodes[k], threshold, min, max, minDist, maxDist);
        }
      }
      SettledSecond(s, near, n1, n2, nodes, threshold, minDist, maxDist);
    }

    /** The children, nearest center first; ties in any order. */
    method SortNodes(nodes: seq<Node>, target: Node) returns (sorted: seq<Node>)
      requires IsSorter(qsort)
      ensures forall n :: n in sorted <==> n in nodes
      ensures forall k | 0 <= k < |sorted| :: sorted[k] in nodes
      ensures forall j, k | 0 <= j < k < |sorted| ::
                s.dist(sorted[j].circle.center, target.circle.center) <=
                s.dist(sorted[k].circle.center, target.circle.center)
    {
      var leq := (a: Node, b: Node) =>
        s.dist(a.circle.center, target.circle.center) <= s.dist(b.circle.center, target.circle.center);
      sorted := qsort(nodes, leq);
      assert TotalPreorder(leq);
      assert Sorted(sorted, leq);
      assert forall n :: n in sorted <==> n in multiset(sorted);
      assert forall n :: n in nodes <==> n in multiset(nodes);
    }

    lemma ValidSign(r1: Node, r2: Node)
      requires IsMetric(s) && Valid(r1, r2)
      ensures 0.0 <= minDist <= FLT_MAX
    {
    }

    lemma ChildFirst(n1: Node, n2: Node, c: Node, r1: Node, r2: Node)
      requires Ready(n1, n2, r1, r2) && !(n1.Leaf? && n2.Leaf?) && OpensFirst(n1, n2) && c in Children(n1)
      ensures Ready(c, n2, r1, r2)
    {
      hide IsSorter, IsMetric, NearConsistent;
      LeavesOfChild(n1, c);
    }

    lemma ChildSecond(n1: Node, n2: Node, c: Node, r1: Node, r2: Node)
      requires Ready(n1, n2, r1, r2) && !(n1.Leaf? && n2.Leaf?) && !OpensFirst(n1, n2) && c in Children(n2)
      ensures Ready(n1, c, r1, r2)
    {
      hide IsSorter, IsMetric, NearConsistent;
      LeavesOfChild(n2, c);
    }

    lemma PruneSettles(n1: Node, n2: Node, r1: Node, r2: Node)
      requires Ready(n1, n2, r1, r2) && MinDistance(s, n1.circle, n2.circle) > maxDist
      ensures Settled(s, near, n1, n2, threshold, minDist, maxDist)
    {
      forall l1, l2 | Reached(n1, n2, l1, l2) ensures maxDist < LeafDist(s, near, l1, l2) {
        ReachedIsPair(n1, n2, l1, l2);
        BoundsHold(s, near, n1, n2, l1, l2);
      }
    }

    static lemma BelowItself(n1: Node, n2: Node)
      ensures Below(n1, n2, n1, n2)
    {
    }

    lemma MaxIsBound(n1: Node, n2: Node, r1: Node, r2: Node)
      requires Ready(n1, n2, r1, r2)
      ensures exists l1, l2 :: Pair(r1, r2, l1, l2) &&
                LeafDist(s, near, l1, l2) <= MaxDistance(s, n1.circle, n2.circle)
    {
      var l1 := HasLeaf(s, n1);
      var l2 := HasLeaf(s, n2);
      BoundsHold(s, near, n1, n2, l1, l2);
      assert Pair(r1, r2, l1, l2);
    }
  }

  lemma SettledMonotone(s: Sphere, near: Nearest, n1: Node, n2: Node, thr: real,
                        min: real, max: real, min': real, max': real)
    requires Settled(s, near, n1, n2, thr, min, max) && 0.0 <= min' <= min && max' <= max
    ensures Settled(s, near, n1, n2, thr, min', max')
  {
  }

  lemma SettledFirst(s: Sphere, near: Nearest, n1: Node, n2: Node, nodes: seq<Node>, thr: real, min: real, max: real)
    requires !(n1.Leaf? && n2.Leaf?) && OpensFirst(n1, n2) && forall n :: n in nodes <==> n in Children(n1)
    requires forall k | 0 <= k < |nodes| :: Settled(s, near, nodes[k], n2, thr, min, max)
    ensures Settled(s, near, n1, n2, thr, min, max)
  {
    forall l1, l2 | Reached(n1, n2, l1, l2) && min >= thr && min != 0.0
      ensures min <= LeafDist(s, near, l1, l2) || max < LeafDist(s, near, l1, l2)
    {
      var c :| c in Children(n1) && Reached(c, n2, l1, l2);
      assert c in nodes;
    }
  }

  lemma SettledSecond(s: Sphere, near: Nearest, n1: Node, n2: Node, nodes: seq<Node>, thr: real, min: real, max: real)
    requires !(n1.Leaf? && n2.Leaf?) && !OpensFirst(n1, n2) && forall n :: n in nodes <==> n in Children(n2)
    requires forall k | 0 <= k < |nodes| :: Settled(s, near, n1, nodes[k], thr, min, max)
    ensures Settled(s, near, n1, n2, thr, min, max)
  {
    forall l1, l2 | Reached(n1, n2, l1, l2) && min >= thr && min != 0.0
      ensures min <= LeafDist(s, near, l1, l2) || max < LeafDist(s, near, l1, l2)
    {
      var c :| c in Children(n2) && Reached(n1, c, l1, l2);
      assert c in nodes;
    }
  }

  /** `m` is the smallest distance between a leaf of `n1` and a leaf of `n2`. */
  ghost predicate IsMinimum(s: Sphere, near: Nearest, n1: Node, n2: Node, m: real) {
    && (exists l1, l2 :: Pair(n1, n2, l1, l2) && m == LeafDist(s, near, l1, l2))
    && (forall l1, l2 | Pair(n1, n2, l1, l2) :: m <= LeafDist(s, near, l1, l2))
  }

  /** Some pair of leaves is closer than `bound`. */
  ghost predicate Closer(s: Sphere, near: Nearest, n1: Node, n2: Node, bound: real) {
    exists l1, l2 :: Pair(n1, n2, l1, l2) && LeafDist(s, near, l1, l2) < bound
  }

  /** Among the closest pairs of leaves is one that the order of opening nodes comes to. */
  ghost predicate ClosestReached(s: Sphere, near: Nearest, n1: Node, n2: Node) {
    exists l1, l2 :: Reached(n1, n2, l1, l2) && IsMinimum(s, near, n1, n2, LeafDist(s, near, l1, l2))
  }

  /**
    Branch and bound agrees with comparing every pair of leaves exactly when a closest pair is reached.
    A threshold above the initial `FLT_MAX` stops the search before it has looked at anything.
   */
  method TreeDistance(s: Sphere, near: Nearest, qsort: Sorter<Node>, n1: Node, n2: Node, threshold: real)
      returns (min: real, closest1: Point, closest2: Point)
    requires IsMetric(s) && NearConsistent(s, near) && IsSorter(qsort)
    requires Nested(s, n1) && Nested(s, n2) && NoPolygon(n1) && NoPolygon(n2)
    ensures min == FLT_MAX || Found(s, near, n1, n2, min, closest1, closest2)
    ensures threshold <= FLT_MAX && ClosestReached(s, near, n1, n2) ==>
              && Found(s, near, n1, n2, min, closest1, closest2) && min == s.dist(closest1, closest2)
              && (exists l1, l2 :: Pair(n1, n2, l1, l2) && near(l1, l2) == (closest1, closest2))
              && (min < threshold <==> Closer(s, near, n1, n2, threshold))
              && (threshold <= min ==> IsMinimum(s, near, n1, n2, min))
    ensures threshold <= min && threshold <= FLT_MAX ==>
              (IsMinimum(s, near, n1, n2, min) <==> ClosestReached(s, near, n1, n2))
    ensures threshold <= 0.0 ==> (IsMinimum(s, near, n1, n2, min) <==> ClosestReached(s, near, n1, n2))
    ensures threshold > FLT_MAX || Lost(n1, n2) ==> min == FLT_MAX
  {
    hide IsSorter, IsMetric, NearConsistent, Nested, NoPolygon, Settled, Reached;
    Search.BelowItself(n1, n2);
    var search := new Search(s, near, qsort, threshold);
    var d := search.Visit(n1, n2, n1, n2);
    forall l1, l2 | Reached(n1, n2, l1, l2) ensures Pair(n1, n2, l1, l2) { ReachedIsPair(n1, n2, l1, l2); }
    min, closest1, closest2 := search.minDist, search.closest1, search.closest2;
    search.ValidSign(n1, n2);
    LostUnreached(n1, n2);
    if threshold <= FLT_MAX {
      SettledIsMinimum(s, near, n1, n2, threshold, min, search.maxDist);
    }
  }

  lemma LostUnreached(n1: Node, n2: Node)
    ensures Lost(n1, n2) ==> forall l1, l2 :: !Reached(n1, n2, l1, l2)
  {
  }

  // ---------- when a closest pair is reached ----------

  lemma {:induction false} NearestTo(s: Sphere, near: Nearest, a: Node, bs: seq<Node>) returns (b: Node)
    requires bs != []
    ensures b in bs && forall x | x in bs :: LeafDist(s, near, a, b) <= LeafDist(s, near, a, x)
  {
    b := bs[0];
    if |bs| > 1 {
      var c := NearestTo(s, near, a, bs[1..]);
      if LeafDist(s, near, a, c) < LeafDist(s, near, a, b) { b := c; }
    }
  }

  /** Two lists of leaves have a closest pair. */
  lemma {:induction false} ClosestPair(s: Sphere, near: Nearest, ps: seq<Node>, qs: seq<Node>) returns (a: Node, b: Node)
    requires ps != [] && qs != []
    ensures a in ps && b in qs
    ensures forall x, y | x in ps && y in qs :: LeafDist(s, near, a, b) <= LeafDist(s, near, x, y)
  {
    a := ps[0];
    b := NearestTo(s, near, a, qs);
    if |ps| > 1 {
      var c, d := ClosestPair(s, near, ps[1..], qs);
      if LeafDist(s, near, c, d) < LeafDist(s, near, a, b) { a, b := c, d; }
    }
  }

  /** A search that never meets a collection-typed leaf against an internal node finds the minimum. */
  lemma DrivableClosest(s: Sphere, near: Nearest, n1: Node, n2: Node)
    requires Nested(s, n1) && Nested(s, n2) && Drivable(n1, n2)
    ensures ClosestReached(s, near, n1, n2)
  {
    hide Drivable, Reached, Nested, LeafDist;
    var p := HasLeaf(s, n1);
    var q := HasLeaf(s, n2);
    var l1, l2 := ClosestPair(s, near, Leaves(n1), Leaves(n2));
    assert Pair(n1, n2, l1, l2);
    DrivableReaches(n1, n2, l1, l2);
  }

  /**
    A collection-typed leaf at the root, first, or second against a node of no collection type: the
    search works exactly when the other node is a leaf too.
   */
  lemma CollectionLeaf(s: Sphere, near: Nearest, n1: Node, n2: Node)
    requires Nested(s, n1) && Nested(s, n2)
    ensures n1.Leaf? && IsCollection(n1.geomType) ==> (ClosestReached(s, near, n1, n2) <==> n2.Leaf?)
    ensures n2.Leaf? && IsCollection(n2.geomType) && !IsCollection(n1.geomType) ==>
              (ClosestReached(s, near, n1, n2) <==> n1.Leaf?)
  {
    hide Nested, Reached;
    LostUnreached(n1, n2);
    if n1.Leaf? && n2.Leaf? { DrivableClosest(s, near, n1, n2); }
  }

  function Spot(x: real, geomType: nat): Node {
    Leaf(Circle(Point(x, 0.0), 0.0), geomType, Edge(Point(x, 0.0), Point(x, 0.0), 0))
  }

  /** The distance of two leaves by their centers. */
  function Centers(): Nearest {
    (a: Node, b: Node) => (a.circle.center, b.circle.center)
  }

  /** A collection of a multi-point that has become a leaf, at 0, and of a line, at 1. */
  function Collected(): Node {
    Inner(Circle(Point(0.5, 0.0), 0.5), COLLECTIONTYPE, [Spot(0.0, MULTIPOINTTYPE), Spot(1.0, LINETYPE)])
  }

  /** A line from 0 to 1/2. */
  function Straight(): Node {
    Inner(Circle(Point(0.25, 0.0), 0.25), LINETYPE, [Spot(0.0, LINETYPE), Spot(0.5, LINETYPE)])
  }

  /** The leaf lies below a root, its pairs are not reached, and the search misses the closest pair. */
  lemma LeafInsideTree()
    ensures IsMetric(Segment()) && NearConsistent(Segment(), Centers())
    ensures Nested(Segment(), Collected()) && Nested(Segment(), Straight()) && NoPolygon(Collected()) && NoPolygon(Straight())
    ensures !Lost(Collected(), Straight()) && !ClosestReached(Segment(), Centers(), Collected(), Straight())
  {
    hide Reached, IsMetric;
    SegmentIsMetric();
    CentersConsistent();
    CollectedNested();
    CollectedReached();
    var a, b, c, d := Spot(0.0, MULTIPOINTTYPE), Spot(1.0, LINETYPE), Spot(0.0, LINETYPE), Spot(0.5, LINETYPE);
    assert Pair(Collected(), Straight(), a, c) by {
      ChildLeaves(Collected().nodes, 0);
      ChildLeaves(Straight().nodes, 0);
    }
    SpotDistances(a, b, c, d);
  }

  lemma SpotDistances(a: Node, b: Node, c: Node, d: Node)
    requires a.circle.center == c.circle.center == Point(0.0, 0.0)
    requires b.circle.center == Point(1.0, 0.0) && d.circle.center == Point(0.5, 0.0)
    ensures LeafDist(Segment(), Centers(), a, c) == 0.0
    ensures LeafDist(Segment(), Centers(), b, c) == 1.0 && LeafDist(Segment(), Centers(), b, d) == 0.5
  {
  }

  lemma CentersConsistent()
    ensures NearConsistent(Segment(), Centers())
  {
  }

  lemma CollectedNested()
    ensures Nested(Segment(), Collected()) && Nested(Segment(), Straight()) && NoPolygon(Collected()) && NoPolygon(Straight())
  {
  }

  lemma CollectedReached()
    ensures forall l1, l2 | Reached(Collected(), Straight(), l1, l2) ::
              l1 == Spot(1.0, LINETYPE) && (l2 == Spot(0.0, LINETYPE) || l2 == Spot(0.5, LINETYPE))
  {
    var n1, n2, a, b := Collected(), Straight(), Spot(0.0, MULTIPOINTTYPE), Spot(1.0, LINETYPE);
    LostUnreached(a, n2);
    forall l1, l2 | Reached(n1, n2, l1, l2)
      ensures l1 == b && (l2 == Spot(0.0, LINETYPE) || l2 == Spot(0.5, LINETYPE))
    {
      var x :| x in Children(n1) && Reached(x, n2, l1, l2);
      assert x == b;
      var y :| y in Children(n2) && Reached(b, y, l1, l2);
    }
  }

  /** Such a tree is opened down to its leaves before a second leaf is, whatever the leaves carry. */
  lemma {:induction false} CollectionsDrivable(n1: Node, n2: Node)
    requires CollectionsOnly(n1) && n2.Leaf?
    ensures Drivable(n1, n2)
    decreases n1
  {
    if n1.Inner? {
      forall c | c in n1.nodes ensures Drivable(c, n2) {
        CollectionsDrivable(c, n2);
      }
    }
  }

  ghost predicate PlainLeaves(n: Node) {
    forall l | l in Leaves(n) :: !IsCollection(l.geomType)
  }

  /** Trees whose leaves carry no collection type are searched completely. */
  lemma {:induction false} PlainLeavesDrivable(n1: Node, n2: Node)
    requires PlainLeaves(n1) && PlainLeaves(n2)
    ensures Drivable(n1, n2)
    decreases n1, n2
  {
    assert n1.Leaf? ==> n1 in Leaves(n1);
    assert n2.Leaf? ==> n2 in Leaves(n2);
    if n1.Inner? {
      forall c | c in n1.nodes ensures Drivable(c, n2) {
        var k :| 0 <= k < |n1.nodes| && n1.nodes[k] == c;
        ChildLeaves(n1.nodes, k);
        PlainLeavesDrivable(c, n2);
      }
    }
    if n2.Inner? {
      forall c | c in n2.nodes ensures Drivable(n1, c) {
        var k :| 0 <= k < |n2.nodes| && n2.nodes[k] == c;
        ChildLeaves(n2.nodes, k);
        PlainLeavesDrivable(n1, c);
      }
    }
  }

  /** Plain leaves, with the circles that their edges have. */
  ghost predicate PlainParts(s: Sphere, nodes: seq<Node>) {
    forall k | 0 <= k < |nodes| :: nodes[k].Leaf? && !IsCollection(nodes[k].geomType) && Nested(s, nodes[k])
  }

  lemma {:induction false} LeavesOfParts(nodes: seq<Node>)
    requires forall k | 0 <= k < |nodes| :: nodes[k].Leaf?
    ensures AllLeaves(nodes) == nodes
  {
    if nodes != [] { LeavesOfParts(nodes[1..]); }
  }

  /** Trees built from such leaves, with nothing lost to an escaping circle, are searched correctly. */
  lemma BuiltSearch(s: Sphere, near: Nearest, a: seq<Node>, b: seq<Node>)
    requires IsGeodesic(s) && |a| > 0 && |b| > 0 && PlainParts(s, a) && PlainParts(s, b)
    requires MergeClean(s, a) && MergeClean(s, b)
    ensures Nested(s, Merge(s, a)) && Nested(s, Merge(s, b))
    ensures ClosestReached(s, near, Merge(s, a), Merge(s, b))
  {
    hide IsGeodesic, Nested, Merge, MergeClean, ClosestReached, Drivable;
    MergeNested(s, a);
    MergeNested(s, b);
    MergeLeaves(s, a);
    MergeLeaves(s, b);
    LeavesOfParts(a);
    LeavesOfParts(b);
    PlainLeavesDrivable(Merge(s, a), Merge(s, b));
    DrivableClosest(s, near, Merge(s, a), Merge(s, b));
  }

  lemma SettledIsMinimum(s: Sphere, near: Nearest, n1: Node, n2: Node, thr: real, min: real, max: real)
    requires IsMetric(s) && thr <= FLT_MAX
    requires Settled(s, near, n1, n2, thr, min, max)
    requires min == FLT_MAX || exists l1, l2 :: Reached(n1, n2, l1, l2) && min == LeafDist(s, near, l1, l2)
    requires max == FLT_MAX || exists l1, l2 :: Pair(n1, n2, l1, l2) && LeafDist(s, near, l1, l2) <= max
    ensures ClosestReached(s, near, n1, n2) ==>
              && min < FLT_MAX && (thr <= min ==> IsMinimum(s, near, n1, n2, min))
              && (exists l1, l2 :: Pair(n1, n2, l1, l2) && min == LeafDist(s, near, l1, l2))
              && (min < thr <==> Closer(s, near, n1, n2, thr))
    ensures IsMinimum(s, near, n1, n2, min) ==> ClosestReached(s, near, n1, n2)
  {
    hide Reached;
    forall l1, l2 | Reached(n1, n2, l1, l2) ensures Pair(n1, n2, l1, l2) { ReachedIsPair(n1, n2, l1, l2); }
    if ClosestReached(s, near, n1, n2) {
      var l1, l2 :| Reached(n1, n2, l1, l2) && IsMinimum(s, near, n1, n2, LeafDist(s, near, l1, l2));
      assert LeafDist(s, near, l1, l2) < FLT_MAX;
      assert max >= LeafDist(s, near, l1, l2);
    }
  }
}
