/** Bulk loading of the circle tree: merging circles, and merging lists of nodes into a tree. */
module CircBuild {
  import opened LwTypes
  import opened CircNode
  import Powers

  // ---------- one internal node ----------

  /** The two circles have, for the comparison, the same center. */
  predicate Concentric(s: Sphere, c: Circle, d: Circle) {
    -FP_TOLERANCE <= s.dist(c.center, d.center) <= FP_TOLERANCE
  }

  function Abs(x: real): real {
    if x < 0.0 then -x else x
  }

  function MergeCircle(s: Sphere, c: Circle, d: Circle): Circle {
    var dist := s.dist(c.center, d.center);
    if Concentric(s, c, d) then Circle(c.center, c.radius + 2.0 * dist)
    else if dist < Abs(c.radius - d.radius) then (if c.radius > d.radius then c else d)
    else
      var diameter := dist + c.radius + d.radius;
      var offset := d.radius + (diameter - (2.0 * c.radius + 2.0 * d.radius)) / 2.0;
      Circle(s.project(c.center, d.center, offset), diameter / 2.0)
  }

  /** The concentric branch keeps the first circle, so a larger second one escapes. */
  predicate Escapes(s: Sphere, c: Circle, d: Circle) {
    Concentric(s, c, d) && d.radius > c.radius + s.dist(c.center, d.center)
  }

  /** A merged circle always covers the first circle, and the second exactly when it does not escape. */
  lemma MergeCovers(s: Sphere, c: Circle, d: Circle)
    requires IsGeodesic(s)
    ensures Covers(s, MergeCircle(s, c, d), c)
    ensures Covers(s, MergeCircle(s, c, d), d) <==> !Escapes(s, c, d)
  {
  }

  /** No smaller circle covers both, except by what the concentric branch adds. */
  lemma MergeIsLeast(s: Sphere, c: Circle, d: Circle, o: Circle)
    requires IsMetric(s) && Covers(s, o, c) && Covers(s, o, d)
    ensures MergeCircle(s, c, d).radius <=
            o.radius + if Concentric(s, c, d) then 2.0 * s.dist(c.center, d.center) else 0.0
    ensures MergeCircle(s, c, d).radius <= o.radius + 0.0000000000001
  {
    assert s.dist(c.center, d.center) <= s.dist(c.center, o.center) + s.dist(o.center, d.center);
  }

  /** Types become more and more collected up the tree. */
  function PromoteType(t: nat, u: nat): nat {
    if t == 0 then u
    else if !IsCollection(t) then (if t != u then COLLECTIONTYPE else CollectionType(t))
    else if t != CollectionType(u) then COLLECTIONTYPE
    else t
  }

  function FoldCircle(s: Sphere, nodes: seq<Node>, upto: nat): Circle
    requires 0 < upto <= |nodes|
  {
    if upto == 1 then nodes[0].circle
    else MergeCircle(s, FoldCircle(s, nodes, upto - 1), nodes[upto - 1].circle)
  }

  function FoldType(nodes: seq<Node>, upto: nat): nat
    requires 0 < upto <= |nodes|
  {
    if upto == 1 then nodes[0].geomType
    else PromoteType(FoldType(nodes, upto - 1), nodes[upto - 1].geomType)
  }

  /** Children of one type join to its collection, children of several types to a general one. */
  lemma {:induction false} FoldTypeIs(nodes: seq<Node>, upto: nat)
    requires 2 <= upto <= |nodes|
    requires forall k | 0 <= k < upto :: nodes[k].geomType != 0 && !IsCollection(nodes[k].geomType)
    ensures FoldType(nodes, upto) ==
            if forall k | 0 <= k < upto :: nodes[k].geomType == nodes[0].geomType
            then CollectionType(nodes[0].geomType) else COLLECTIONTYPE
  {
    var t, u := nodes[0].geomType, nodes[upto - 1].geomType;
    if upto == 2 {
      assert FoldType(nodes, 1) == t;
    } else {
      FoldTypeIs(nodes, upto - 1);
      CollectedApart(t, u);
    }
  }

  lemma CollectedApart(t: nat, u: nat)
    requires !IsCollection(t) && !IsCollection(u)
    ensures IsCollection(CollectionType(t))
    ensures CollectionType(t) == CollectionType(u) ==> t == u || CollectionType(t) == COLLECTIONTYPE
  {
  }

  /** Children without a type join to a node without a type. */
  lemma {:induction false} FoldUntyped(nodes: seq<Node>, upto: nat)
    requires 0 < upto <= |nodes| && forall k | 0 <= k < upto :: nodes[k].geomType == 0
    ensures FoldType(nodes, upto) == 0
  {
    if upto > 1 { FoldUntyped(nodes, upto - 1); }
  }

  lemma {:induction false} FoldCollects(nodes: seq<Node>, upto: nat)
    requires 0 < upto <= |nodes| && nodes[0].geomType != 0
    ensures FoldType(nodes, upto) != 0 && (upto > 1 ==> IsCollection(FoldType(nodes, upto)))
  {
    if upto > 1 { FoldCollects(nodes, upto - 1); }
  }

  /** Every circle that escapes when its turn comes is covered by the final circle all the same. */
  predicate Recovered(s: Sphere, nodes: seq<Node>)
    requires |nodes| > 0
  {
    forall k | 0 < k < |nodes| && Escapes(s, FoldCircle(s, nodes, k), nodes[k].circle) ::
      Covers(s, FoldCircle(s, nodes, |nodes|), nodes[k].circle)
  }

  function Join(s: Sphere, nodes: seq<Node>): Node
    requires |nodes| > 0
  {
    Inner(FoldCircle(s, nodes, |nodes|), FoldType(nodes, |nodes|), nodes)
  }

  method InternalNew(s: Sphere, c: seq<Node>) returns (node: Node)
    requires |c| > 0
    ensures node == Join(s, c)
  {
    var center, radius, geomType := c[0].circle.center, c[0].circle.radius, c[0].geomType;
    for i := 1 to |c|
      invariant Circle(center, radius) == FoldCircle(s, c, i)
      invariant geomType == FoldType(c, i)
    {
      var c1, r1 := center, radius;
      var dist, ri := s.dist(c1, c[i].circle.center), c[i].circle.radius;
      if geomType == 0 {
        geomType := c[i].geomType;
      } else if !IsCollection(geomType) {
        if geomType != c[i].geomType {
          geomType := COLLECTIONTYPE;
        } else {
          geomType := CollectionType(geomType);
        }
      } else if geomType != CollectionType(c[i].geomType) {
        geomType := COLLECTIONTYPE;
      }
      if -FP_TOLERANCE <= dist <= FP_TOLERANCE {
        radius := r1 + 2.0 * dist;
        center := c1;
      } else if dist < Abs(r1 - ri) {
        if r1 > ri {
          center, radius := c1, r1;
        } else {
          center, radius := c[i].circle.center, ri;
        }
      } else {
        var diameter := dist + r1 + ri;
        radius := diameter / 2.0;
        var offset1 := ri + (diameter - (2.0 * r1 + 2.0 * ri)) / 2.0;
        center := s.project(c1, c[i].circle.center, offset1);
      }
    }
    node := Inner(Circle(center, radius), geomType, c);
  }

  lemma CoversSelf(s: Sphere, c: Circle)
    requires IsMetric(s)
    ensures Covers(s, c, c)
  {
  }

  /** A circle that does not escape stays covered, and so does the first. */
  lemma {:induction false} FoldCovers(s: Sphere, nodes: seq<Node>, upto: nat, k: nat)
    requires IsGeodesic(s) && k < upto <= |nodes|
    requires k == 0 || !Escapes(s, FoldCircle(s, nodes, k), nodes[k].circle)
    ensures Covers(s, FoldCircle(s, nodes, upto), nodes[k].circle)
  {
    hide IsMetric, MergeCircle, Escapes;
    CoversSelf(s, nodes[0].circle);
    if upto > 1 {
      var before, last := FoldCircle(s, nodes, upto - 1), nodes[upto - 1].circle;
      MergeCovers(s, before, last);
      if k < upto - 1 {
        FoldCovers(s, nodes, upto - 1, k);
        CoversTransitive(s, FoldCircle(s, nodes, upto), before, nodes[k].circle);
      }
    }
  }

  /** The circle of a new node holds those of its children exactly when all that escaped are recovered. */
  lemma JoinNested(s: Sphere, nodes: seq<Node>)
    requires IsGeodesic(s) && |nodes| > 0
    requires forall k | 0 <= k < |nodes| :: Nested(s, nodes[k])
    ensures Nested(s, Join(s, nodes)) <==> Recovered(s, nodes)
  {
    hide Escapes, Covers, IsGeodesic, FoldCircle;
    forall k | 0 <= k < |nodes| && (k == 0 || !Escapes(s, FoldCircle(s, nodes, k), nodes[k].circle))
      ensures Covers(s, Join(s, nodes).circle, nodes[k].circle)
    {
      FoldCovers(s, nodes, |nodes|, k);
    }
  }

  /** Two circles around one point, the smaller first: the parent does not hold the larger. */
  lemma EscapeExample(s: Sphere, p: Point, e: Edge)
    requires IsGeodesic(s)
    ensures var small, large := Leaf(Circle(p, 0.1), 0, e), Leaf(Circle(p, 0.2), 0, e);
            && Nested(s, small) && Nested(s, large) && !Nested(s, Join(s, [small, large]))
            && Nested(s, Join(s, [large, small]))
  {
    var small, large := Leaf(Circle(p, 0.1), 0, e), Leaf(Circle(p, 0.2), 0, e);
    MergeCovers(s, small.circle, large.circle);
    assert FoldCircle(s, [small, large], 2) == MergeCircle(s, small.circle, large.circle);
    assert !Covers(s, Join(s, [small, large]).circle, [small, large][1].circle);
    assert Recovered(s, [large, small]);
    JoinNested(s, [large, small]);
  }

  /** A third circle around both: the larger one escapes, and is covered again. */
  lemma EscapeRecovered(s: Sphere, p: Point, q: Point, e: Edge)
    requires IsGeodesic(s) && s.dist(p, q) == 1.0
    ensures var small, large, huge := Leaf(Circle(p, 0.1), 0, e), Leaf(Circle(p, 0.2), 0, e), Leaf(Circle(q, 1.5), 0, e);
            Escapes(s, small.circle, large.circle) && Nested(s, Join(s, [small, large, huge]))
  {
    var small, large, huge := Leaf(Circle(p, 0.1), 0, e), Leaf(Circle(p, 0.2), 0, e), Leaf(Circle(q, 1.5), 0, e);
    var nodes := [small, large, huge];
    assert FoldCircle(s, nodes, 1) == small.circle;
    assert FoldCircle(s, nodes, 2) == MergeCircle(s, small.circle, large.circle) == Circle(p, 0.1);
    assert FoldCircle(s, nodes, 3) == MergeCircle(s, Circle(p, 0.1), huge.circle) == huge.circle;
    assert s.dist(q, p) == 1.0;
    JoinNested(s, nodes);
  }

  // ---------- merging a list of nodes into a tree ----------

  /** One pass: groups of eight become parents, a remainder of one moves up as it is. */
  function Round(s: Sphere, nodes: seq<Node>): (r: seq<Node>)
    ensures |r| == (|nodes| + CIRC_NODE_SIZE - 1) / CIRC_NODE_SIZE
  {
    if |nodes| <= 1 then nodes
    else if |nodes| < CIRC_NODE_SIZE then [Join(s, nodes)]
    else [Join(s, nodes[..CIRC_NODE_SIZE])] + Round(s, nodes[CIRC_NODE_SIZE..])
  }

  function Merge(s: Sphere, nodes: seq<Node>): Node
    requires |nodes| > 0
    decreases |nodes|
  {
    if |nodes| == 1 then nodes[0] else Merge(s, Round(s, nodes))
  }

  /** Merges the first `num` nodes; parents overwrite slots whose nodes are already grouped. */
  method NodesMerge(s: Sphere, nodes: array<Node>, num: nat) returns (tree: Node)
    requires 0 < num <= nodes.Length
    modifies nodes
    ensures tree == Merge(s, old(nodes[..num]))
  {
    var children := num;
    while children > 1
      invariant 0 < children <= num
      invariant Merge(s, nodes[..children]) == Merge(s, old(nodes[..num]))
    {
      children := MergePass(s, nodes, children);
    }
    tree := nodes[0];
  }

  /** One pass over the children: parents of full groups, then what is left over. */
  method MergePass(s: Sphere, nodes: array<Node>, children: nat) returns (parents: nat)
    requires 1 < children <= nodes.Length
    modifies nodes
    ensures parents == (children + 7) / 8
    ensures nodes[..parents] == Round(s, old(nodes[..children]))
  {
    hide Round, Join;
    ghost var was := nodes[..children];
    var inodes, inodeNum;
    parents, inodes, inodeNum := GroupChildren(s, nodes, children);
    RoundRest(s, was[8 * parents..]);
    ghost var before := nodes[..parents];
    if inodeNum == 0 {
      nodes[parents] := inodes[0];
      parents := parents + 1;
      assert nodes[..parents] == before + was[8 * (parents - 1)..];
    } else if inodeNum < CIRC_NODE_SIZE - 1 {
      AddParent(s, nodes, parents, inodes);
      parents := parents + 1;
    } else {
      assert before + was[8 * parents..] == before;
    }
  }

  method GroupChildren(s: Sphere, nodes: array<Node>, children: nat)
      returns (parents: nat, inodes: seq<Node>, inodeNum: nat)
    requires 0 < children <= nodes.Length
    modifies nodes
    ensures parents == children / 8 && inodeNum == (children - 1) % 8
    ensures var was := old(nodes[..children]);
            && (children % 8 != 0 ==> inodes == was[8 * parents..])
            && nodes[..parents] + Round(s, was[8 * parents..]) == Round(s, was)
  {
    hide Round, Join, Grouped;
    ghost var was := nodes[..children];
    NoneGrouped(s, was);
    inodes, inodeNum, parents := [], 0, 0;
    ghost var lo := 0;
    for j := 0 to children
      invariant lo == 8 * parents && lo <= j < lo + 8
      invariant j > lo ==> inodes == was[lo..j] && inodeNum == j - lo - 1
      invariant j == lo > 0 ==> inodeNum == 7
      invariant forall k | j <= k < children :: nodes[k] == was[k]
      invariant Grouped(s, nodes[..parents], was, lo)
    {
      Group(j, parents);
      inodeNum := j % CIRC_NODE_SIZE;
      if inodeNum == 0 {
        inodes := [];
      }
      inodes := inodes + [nodes[j]];
      assert inodes == was[lo..j + 1];
      if inodeNum == CIRC_NODE_SIZE - 1 {
        GroupStep(s, was, nodes[..parents], lo);
        AddParent(s, nodes, parents, inodes);
        parents, lo := parents + 1, lo + 8;
      }
    }
    Group(children, parents);
    AllGrouped(s, nodes[..parents], was, lo);
  }

  /** The parents so far, followed by those of the nodes from `lo` on, are the parents of all. */
  ghost predicate Grouped(s: Sphere, parents: seq<Node>, was: seq<Node>, lo: nat) {
    lo <= |was| && parents + Round(s, was[lo..]) == Round(s, was)
  }

  lemma NoneGrouped(s: Sphere, was: seq<Node>)
    ensures Grouped(s, [], was, 0)
  {
    assert was[0..] == was;
  }

  lemma AllGrouped(s: Sphere, parents: seq<Node>, was: seq<Node>, lo: nat)
    requires Grouped(s, parents, was, lo)
    ensures lo <= |was| && parents + Round(s, was[lo..]) == Round(s, was)
  {
  }

  lemma Group(j: nat, parents: nat)
    requires 8 * parents <= j < 8 * parents + 8
    ensures j % 8 == j - 8 * parents && j / 8 == parents
    ensures j > 0 ==> (j - 1) % 8 == if j == 8 * parents then 7 else j - 8 * parents - 1
  {
  }

  method AddParent(s: Sphere, nodes: array<Node>, parents: nat, inodes: seq<Node>)
    requires parents < nodes.Length && |inodes| > 0
    modifies nodes
    ensures nodes[..parents + 1] == old(nodes[..parents]) + [Join(s, inodes)]
    ensures forall k | parents < k < nodes.Length :: nodes[k] == old(nodes[k])
  {
    var parent := InternalNew(s, inodes);
    nodes[parents] := parent;
  }

  lemma RoundRest(s: Sphere, nodes: seq<Node>)
    requires |nodes| < CIRC_NODE_SIZE
    ensures Round(s, nodes) == if |nodes| <= 1 then nodes else [Join(s, nodes)]
  {
  }

  lemma GroupStep(s: Sphere, was: seq<Node>, before: seq<Node>, lo: nat)
    requires lo + CIRC_NODE_SIZE <= |was| && Grouped(s, before, was, lo)
    ensures Grouped(s, before + [Join(s, was[lo..lo + CIRC_NODE_SIZE])], was, lo + CIRC_NODE_SIZE)
  {
    hide Join;
    var rest := was[lo..];
    assert rest[..CIRC_NODE_SIZE] == was[lo..lo + CIRC_NODE_SIZE];
    assert rest[CIRC_NODE_SIZE..] == was[lo + CIRC_NODE_SIZE..];
    assert Round(s, rest) == [Join(s, rest[..CIRC_NODE_SIZE])] + Round(s, rest[CIRC_NODE_SIZE..]);
  }

  // ---------- conservation, shape and nesting ----------

  lemma {:induction false} RoundLeaves(s: Sphere, nodes: seq<Node>)
    ensures AllLeaves(Round(s, nodes)) == AllLeaves(nodes)
    decreases |nodes|
  {
    if |nodes| >= CIRC_NODE_SIZE {
      RoundLeaves(s, nodes[CIRC_NODE_SIZE..]);
      AllLeavesConcat(nodes[..CIRC_NODE_SIZE], nodes[CIRC_NODE_SIZE..]);
      AllLeavesConcat([Join(s, nodes[..CIRC_NODE_SIZE])], Round(s, nodes[CIRC_NODE_SIZE..]));
      assert nodes == nodes[..CIRC_NODE_SIZE] + nodes[CIRC_NODE_SIZE..];
    }
  }

  /** Every leaf is kept exactly once, in order. */
  lemma {:induction false} MergeLeaves(s: Sphere, nodes: seq<Node>)
    requires |nodes| > 0
    ensures Leaves(Merge(s, nodes)) == AllLeaves(nodes)
    decreases |nodes|
  {
    if |nodes| > 1 {
      RoundLeaves(s, nodes);
      MergeLeaves(s, Round(s, nodes));
    }
  }

  ghost predicate FanOut(n: Node) {
    n.Inner? ==> 2 <= |n.nodes| <= CIRC_NODE_SIZE && forall k | 0 <= k < |n.nodes| :: FanOut(n.nodes[k])
  }

  ghost function Depth(n: Node): nat {
    match n
    case Leaf(_, _, _) => 0
    case Inner(_, _, nodes) => 1 + MaxDepth(nodes)
  }

  ghost function MaxDepth(nodes: seq<Node>): nat {
    if nodes == [] then 0
    else var d, e := Depth(nodes[0]), MaxDepth(nodes[1..]); if d > e then d else e
  }

  lemma {:induction false} MaxDepthConcat(a: seq<Node>, b: seq<Node>)
    ensures MaxDepth(a + b) == if MaxDepth(a) > MaxDepth(b) then MaxDepth(a) else MaxDepth(b)
  {
    if a == [] {
      assert a + b == b;
    } else {
      MaxDepthConcat(a[1..], b);
      assert (a + b)[1..] == a[1..] + b;
    }
  }

  /** Everything a pass keeps about the shape of the nodes. */
  lemma {:induction false} RoundShape(s: Sphere, nodes: seq<Node>)
    requires forall k | 0 <= k < |nodes| :: FanOut(nodes[k])
    ensures forall k | 0 <= k < |Round(s, nodes)| :: FanOut(Round(s, nodes)[k])
    ensures MaxDepth(Round(s, nodes)) <= 1 + MaxDepth(nodes)
    decreases |nodes|
  {
    if |nodes| >= CIRC_NODE_SIZE {
      var group, rest := nodes[..CIRC_NODE_SIZE], nodes[CIRC_NODE_SIZE..];
      RoundShape(s, rest);
      MaxDepthConcat(group, rest);
      assert nodes == group + rest;
      MaxDepthConcat([Join(s, group)], Round(s, rest));
    }
  }

  /** The number of passes. */
  function Levels(n: nat): nat {
    if n <= 1 then 0 else 1 + Levels((n + CIRC_NODE_SIZE - 1) / CIRC_NODE_SIZE)
  }

  /** `Levels(n)` is the logarithm of `n` to base 8, rounded up. */
  lemma {:induction false} LevelsIsLog8(n: nat)
    requires n > 0
    ensures n <= Powers.Pow(8, Levels(n))
    ensures n > 1 ==> Levels(n) > 0 && Powers.Pow(8, Levels(n) - 1) < n
  {
    if n > 1 {
      var m := (n + 7) / 8;
      LevelsIsLog8(m);
    }
  }

  /** Internal nodes have two to eight children, and the tree is as low as the count allows. */
  lemma {:induction false} MergeShape(s: Sphere, nodes: seq<Node>)
    requires |nodes| > 0 && forall k | 0 <= k < |nodes| :: FanOut(nodes[k])
    ensures FanOut(Merge(s, nodes))
    ensures Depth(Merge(s, nodes)) <= MaxDepth(nodes) + Levels(|nodes|)
    decreases |nodes|
  {
    if |nodes| > 1 {
      RoundShape(s, nodes);
      MergeShape(s, Round(s, nodes));
    }
  }

  ghost predicate TypedOnly(nodes: seq<Node>) {
    forall k | 0 <= k < |nodes| :: nodes[k].geomType != 0 && CollectionsOnly(nodes[k])
  }

  lemma {:induction false} RoundTyped(s: Sphere, nodes: seq<Node>)
    requires TypedOnly(nodes)
    ensures TypedOnly(Round(s, nodes))
    decreases |nodes|
  {
    hide FoldType, FoldCircle;
    if 1 < |nodes| < CIRC_NODE_SIZE {
      FoldCollects(nodes, |nodes|);
    } else if |nodes| >= CIRC_NODE_SIZE {
      FoldCollects(nodes[..CIRC_NODE_SIZE], CIRC_NODE_SIZE);
      RoundTyped(s, nodes[CIRC_NODE_SIZE..]);
    }
  }

  /** All internal nodes built from typed nodes have collection types. */
  lemma {:induction false} MergeTyped(s: Sphere, nodes: seq<Node>)
    requires |nodes| > 0 && TypedOnly(nodes)
    ensures CollectionsOnly(Merge(s, nodes))
    decreases |nodes|
  {
    if |nodes| > 1 {
      RoundTyped(s, nodes);
      MergeTyped(s, Round(s, nodes));
    }
  }

  /** In every group of one pass, what escapes is recovered. */
  predicate RoundClean(s: Sphere, nodes: seq<Node>) {
    if |nodes| <= 1 then true
    else if |nodes| < CIRC_NODE_SIZE then Recovered(s, nodes)
    else Recovered(s, nodes[..CIRC_NODE_SIZE]) && RoundClean(s, nodes[CIRC_NODE_SIZE..])
  }

  predicate MergeClean(s: Sphere, nodes: seq<Node>)
    decreases |nodes|
  {
    |nodes| > 1 ==> RoundClean(s, nodes) && MergeClean(s, Round(s, nodes))
  }

  ghost predicate AllNested(s: Sphere, nodes: seq<Node>) {
    forall k | 0 <= k < |nodes| :: Nested(s, nodes[k])
  }

  lemma {:induction false} RoundNested(s: Sphere, nodes: seq<Node>)
    requires IsGeodesic(s) && AllNested(s, nodes)
    ensures AllNested(s, Round(s, nodes)) <==> RoundClean(s, nodes)
    decreases |nodes|
  {
    hide Join, Recovered, Nested, IsGeodesic;
    if 1 < |nodes| < CIRC_NODE_SIZE {
      JoinNested(s, nodes);
      AllNestedFirst(s, Join(s, nodes), []);
      assert [Join(s, nodes)] + [] == [Join(s, nodes)];
    } else if |nodes| >= CIRC_NODE_SIZE {
      var group, rest := nodes[..CIRC_NODE_SIZE], nodes[CIRC_NODE_SIZE..];
      JoinNested(s, group);
      RoundNested(s, rest);
      AllNestedFirst(s, Join(s, group), Round(s, rest));
    }
  }

  lemma AllNestedFirst(s: Sphere, first: Node, rest: seq<Node>)
    ensures AllNested(s, [first] + rest) <==> Nested(s, first) && AllNested(s, rest)
  {
    hide Nested;
    var all := [first] + rest;
    assert all[0] == first;
    assert forall k | 0 <= k < |rest| :: all[k + 1] == rest[k];
  }

  /** The nodes of one pass are below those of the next. */
  lemma {:induction false} RoundParts(s: Sphere, nodes: seq<Node>)
    requires AllNested(s, Round(s, nodes))
    ensures AllNested(s, nodes)
    decreases |nodes|
  {
    hide Covers, FoldCircle, FoldType;
    if 1 < |nodes| < CIRC_NODE_SIZE {
      assert Nested(s, Round(s, nodes)[0]);
    } else if |nodes| >= CIRC_NODE_SIZE {
      var group, rest := nodes[..CIRC_NODE_SIZE], nodes[CIRC_NODE_SIZE..];
      AllNestedFirst(s, Join(s, group), Round(s, rest));
      RoundParts(s, rest);
      assert nodes == group + rest;
    }
  }

  lemma {:induction false} MergeParts(s: Sphere, nodes: seq<Node>)
    requires |nodes| > 0 && Nested(s, Merge(s, nodes))
    ensures AllNested(s, nodes)
    decreases |nodes|
  {
    hide Nested;
    if |nodes| > 1 {
      MergeParts(s, Round(s, nodes));
      RoundParts(s, nodes);
    }
  }

  /** Every circle of the tree holds those of its children exactly when all that escaped are recovered. */
  lemma {:induction false} MergeNested(s: Sphere, nodes: seq<Node>)
    requires IsGeodesic(s) && |nodes| > 0 && AllNested(s, nodes)
    ensures Nested(s, Merge(s, nodes)) <==> MergeClean(s, nodes)
    decreases |nodes|
  {
    hide Nested, RoundClean, IsGeodesic;
    if |nodes| > 1 {
      RoundNested(s, nodes);
      if Nested(s, Merge(s, nodes)) { MergeParts(s, Round(s, nodes)); }
      if AllNested(s, Round(s, nodes)) { MergeNested(s, Round(s, nodes)); }
    }
  }

  /** In no group of any pass does a circle escape when its turn comes. */
  predicate NoneEscapes(s: Sphere, nodes: seq<Node>) {
    forall k | 0 < k < |nodes| :: !Escapes(s, FoldCircle(s, nodes, k), nodes[k].circle)
  }

  predicate RoundQuiet(s: Sphere, nodes: seq<Node>) {
    if |nodes| <= 1 then true
    else if |nodes| < CIRC_NODE_SIZE then NoneEscapes(s, nodes)
    else NoneEscapes(s, nodes[..CIRC_NODE_SIZE]) && RoundQuiet(s, nodes[CIRC_NODE_SIZE..])
  }

  predicate MergeQuiet(s: Sphere, nodes: seq<Node>)
    decreases |nodes|
  {
    |nodes| > 1 ==> RoundQuiet(s, nodes) && MergeQuiet(s, Round(s, nodes))
  }

  lemma {:induction false} QuietIsClean(s: Sphere, nodes: seq<Node>)
    requires RoundQuiet(s, nodes)
    ensures RoundClean(s, nodes)
    decreases |nodes|
  {
    hide Escapes, FoldCircle;
    if |nodes| >= CIRC_NODE_SIZE { QuietIsClean(s, nodes[CIRC_NODE_SIZE..]); }
  }

  lemma {:induction false} MergeQuietIsClean(s: Sphere, nodes: seq<Node>)
    requires MergeQuiet(s, nodes)
    ensures MergeClean(s, nodes)
    decreases |nodes|
  {
    hide RoundQuiet, RoundClean;
    if |nodes| > 1 {
      QuietIsClean(s, nodes);
      MergeQuietIsClean(s, Round(s, nodes));
    }
  }

  /** So a build in which nothing escapes gives a tree in which every circle holds those of its children. */
  lemma QuietNested(s: Sphere, nodes: seq<Node>)
    requires IsGeodesic(s) && |nodes| > 0 && AllNested(s, nodes) && MergeQuiet(s, nodes)
    ensures Nested(s, Merge(s, nodes))
  {
    hide IsGeodesic, Nested, Merge, MergeQuiet, MergeClean;
    MergeQuietIsClean(s, nodes);
    MergeNested(s, nodes);
  }
}
