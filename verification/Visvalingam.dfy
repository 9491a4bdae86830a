/**
  Effective areas by repeated elimination of the vertex of smallest area.

  `Step` and `Run` are the value-level meaning of the elimination loop;
  `NaiveRun` is the textbook algorithm, which keeps no heap and no stored areas
  and rescans the surviving vertices before every elimination.
 */
module Visvalingam {
  import opened LwTypes
  import opened Sorting
  import opened MinHeap

  type Triangle = (nat, nat, nat) -> real

  /** Triangle areas are non-negative and smaller than the area given to the end points. */
  ghost predicate Bounded(tri: Triangle) {
    forall a, b, c :: 0.0 <= tri(a, b, c) < FLT_MAX
  }

  // ---------- the elimination loop ----------

  /** `last` is the area recorded by the previous iteration, `i` counts iterations. */
  datatype State = State(h: Heap, res: seq<real>, last: real, i: nat)

  ghost predicate WellFormed(s: State) {
    Shape(s.h) && |s.res| == |s.h.nodes| && |s.h.nodes| >= 2
  }

  /** The links around an eliminated vertex now skip it. */
  function Unlink(h: Heap, cur: nat, before: nat, after: nat): (h': Heap)
    requires Shape(h) && cur < |h.nodes| && before < |h.nodes| && after < |h.nodes|
    ensures Shape(h') && h'.used == h.used && |h'.nodes| == |h.nodes|
  {
    var nodes := h.nodes[before := h.nodes[before].(next := h.nodes[cur].next)];
    h.(nodes := nodes[after := nodes[after].(prev := nodes[cur].prev)])
  }

  /** The area recorded for the vertex that leaves in iteration `i`. */
  function Recorded(s: State, avoid: nat, area: real): real {
    if s.i < |s.h.nodes| - avoid then area else FLT_MAX
  }

  function ReweighBefore(tri: Triangle, h: Heap, before: nat, after: nat, r: real): (h': Heap)
    requires Shape(h) && before < |h.nodes|
    ensures Shape(h') && h'.used == h.used && |h'.nodes| == |h.nodes|
  {
    if before > 0 then Reweigh(h, before, FpMax(tri(h.nodes[before].prev, before, after), r)) else h
  }

  function ReweighAfter(tri: Triangle, h: Heap, before: nat, after: nat, r: real): (h': Heap)
    requires Shape(h) && after < |h.nodes|
    ensures Shape(h') && h'.used == h.used && |h'.nodes| == |h.nodes|
  {
    if after < |h.nodes| - 1 then Reweigh(h, after, FpMax(tri(before, after, h.nodes[after].next), r)) else h
  }

  /** Re-weighing both neighbours and unlinking, with the links read beforehand. */
  function EliminateAt(tri: Triangle, h: Heap, cur: nat, r: real): (h': Heap)
    requires Shape(h) && cur < |h.nodes|
    ensures Shape(h') && h'.used == h.used && |h'.nodes| == |h.nodes|
  {
    var (before, after) := (h.nodes[cur].prev, h.nodes[cur].next);
    var h1 := ReweighBefore(tri, h, before, after, r);
    var h2 := ReweighAfter(tri, h1, before, after, r);
    Unlink(h2, cur, before, after)
  }

  /** One iteration of the elimination loop. */
  function Step(tri: Triangle, avoid: nat, s: State): (s': State)
    requires WellFormed(s) && s.h.used > 0
    ensures WellFormed(s') && s'.h.used == s.h.used - 1 && |s'.h.nodes| == |s.h.nodes| && s'.i == s.i + 1
  {
    var (cur, h0) := Pop(s.h);
    var r := Recorded(s, avoid, h0.nodes[cur].area);
    State(EliminateAt(tri, h0, cur, r), s.res[cur := r], r, s.i + 1)
  }

  /** The loop stops early on `thr` unless areas are wanted for every vertex. */
  predicate Finished(s: State, setArea: bool, thr: real)
    requires WellFormed(s)
  {
    (!setArea && s.last >= thr) || s.h.nodes[0].next == |s.h.nodes| - 1
  }

  function Run(tri: Triangle, avoid: nat, setArea: bool, thr: real, s: State): (s': State)
    requires WellFormed(s)
    ensures WellFormed(s') && |s'.h.nodes| == |s.h.nodes|
    decreases s.h.used
  {
    if s.h.used == 0 then s
    else
      var s' := Step(tri, avoid, s);
      if Finished(s', setArea, thr) then s' else Run(tri, avoid, setArea, thr, s')
  }

  // ---------- the surviving chain ----------

  /** `chain` lists the surviving vertices: increasing, doubly linked, from first to last. */
  ghost predicate Chain(nodes: seq<Node>, chain: seq<nat>) {
    && |chain| >= 2 && chain[0] == 0 && chain[|chain| - 1] == |nodes| - 1
    && Increasing(chain)
    && (forall j | 0 <= j < |chain| :: chain[j] < |nodes|)
    && (forall j {:trigger nodes[chain[j]].next} | 0 <= j < |chain| - 1 :: nodes[chain[j]].next == chain[j + 1])
    && (forall j {:trigger nodes[chain[j]].prev} | 0 < j < |chain| :: nodes[chain[j]].prev == chain[j - 1])
    && nodes[0].prev == 0 && nodes[|nodes| - 1].next == |nodes| - 1
  }

  ghost predicate Increasing(chain: seq<nat>) {
    forall j, k | 0 <= j < k < |chain| :: chain[j] < chain[k]
  }

  ghost predicate Interior(chain: seq<nat>, j: int) {
    0 < j < |chain| - 1
  }

  /** Elimination of position `j`; the end points always survive. */
  ghost function Without(chain: seq<nat>, j: nat): seq<nat>
    requires j < |chain|
  {
    if Interior(chain, j) then chain[..j] + chain[j + 1..] else chain
  }

  /** Heap, links and recorded areas agree on which vertices survive. */
  ghost predicate Live(s: State, chain: seq<nat>) {
    && WellFormed(s) && Indexed(s.h) && Ordered(s.h) && Chain(s.h.nodes, chain)
    && (forall j {:trigger Interior(chain, j)} | Interior(chain, j) :: In(s.h, chain[j]))
    && (forall v: nat | In(s.h, v) :: v in chain)
    && (forall v: nat | In(s.h, v) :: s.res[v] == FLT_MAX)
    && 0.0 <= s.last <= FLT_MAX
  }

  /** What rescanning would compute for position `j`: its triangle, but at least `level`. */
  ghost function Effective(tri: Triangle, chain: seq<nat>, level: real, j: int): real
    requires Interior(chain, j)
  {
    FpMax(tri(chain[j - 1], chain[j], chain[j + 1]), level)
  }

  /** Every stored area is what rescanning would compute now. */
  ghost predicate Exact(tri: Triangle, s: State, chain: seq<nat>)
    requires Live(s, chain)
  {
    && s.last < FLT_MAX
    && In(s.h, 0) && In(s.h, |s.h.nodes| - 1)
    && s.h.nodes[0].area == FLT_MAX && s.h.nodes[|s.h.nodes| - 1].area == FLT_MAX
    && forall j {:trigger Interior(chain, j)} | Interior(chain, j) ::
         s.h.nodes[chain[j]].area == Effective(tri, chain, s.last, j)
  }

  ghost predicate Inv(tri: Triangle, avoid: nat, s: State, chain: seq<nat>) {
    Live(s, chain) && (s.i <= |s.h.nodes| - avoid ==> Exact(tri, s, chain))
  }

  // ---------- one step keeps the invariant ----------

  lemma UnlinkKeepsHeap(h: Heap, cur: nat, before: nat, after: nat)
    requires Indexed(h) && Ordered(h) && cur < |h.nodes| && before < |h.nodes| && after < |h.nodes|
    ensures var h' := Unlink(h, cur, before, after);
            && Indexed(h') && Ordered(h')
            && (forall u: nat | u < |h.nodes| :: In(h', u) <==> In(h, u))
            && (forall u | 0 <= u < |h.nodes| :: h'.nodes[u].area == h.nodes[u].area)
  {
    assert Weights(Unlink(h, cur, before, after)) == Weights(h);
  }

  function UnlinkAt(h: Heap, cur: nat): (h': Heap)
    requires Shape(h) && cur < |h.nodes|
  {
    Unlink(h, cur, h.nodes[cur].prev, h.nodes[cur].next)
  }

  lemma UnlinkChain(h: Heap, chain: seq<nat>, j: nat)
    requires Shape(h) && Chain(h.nodes, chain) && j < |chain|
    ensures Chain(UnlinkAt(h, chain[j]).nodes, Without(chain, j))
  {
    if Interior(chain, j) {
      UnlinkInterior(h, chain, j);
    } else {
      var cur := chain[j];
      assert j == 0 || j == |chain| - 1;
      assert h.nodes[cur].prev == cur || h.nodes[cur].next == cur;
      assert h.nodes[h.nodes[cur].prev].next == h.nodes[cur].next;
      assert h.nodes[h.nodes[cur].next].prev == h.nodes[cur].prev;
      assert UnlinkAt(h, chain[j]).nodes == h.nodes;
    }
  }

  lemma UnlinkInterior(h: Heap, chain: seq<nat>, j: nat)
    requires Shape(h) && Chain(h.nodes, chain) && Interior(chain, j)
    ensures Chain(UnlinkAt(h, chain[j]).nodes, Without(chain, j))
  {
    var nodes := UnlinkAt(h, chain[j]).nodes;
    var before, after := chain[j - 1], chain[j + 1];
    assert forall v | 0 <= v < |nodes| :: nodes[v].next == if v == before then after else h.nodes[v].next;
    assert forall v | 0 <= v < |nodes| :: nodes[v].prev == if v == after then before else h.nodes[v].prev;
    SkipChain(h.nodes, nodes, chain, j);
  }

  lemma SkipChain(nodes: seq<Node>, nodes': seq<Node>, chain: seq<nat>, j: nat)
    requires Chain(nodes, chain) && Interior(chain, j) && |nodes'| == |nodes|
    requires forall v {:trigger nodes'[v].next} | 0 <= v < |nodes| ::
      nodes'[v].next == if v == chain[j - 1] then chain[j + 1] else nodes[v].next
    requires forall v {:trigger nodes'[v].prev} | 0 <= v < |nodes| ::
      nodes'[v].prev == if v == chain[j + 1] then chain[j - 1] else nodes[v].prev
    ensures Chain(nodes', Without(chain, j))
  {
    hide Increasing, Without;
    var rest := Without(chain, j);
    SkipIncreasing(chain, j);
    SkipBounds(nodes, nodes', chain, j);
    forall k | 0 <= k < |rest| - 1 ensures nodes'[rest[k]].next == rest[k + 1] {
      SkipNext(nodes, nodes', chain, j, k);
    }
    forall k | 0 < k < |rest| ensures nodes'[rest[k]].prev == rest[k - 1] {
      SkipPrev(nodes, nodes', chain, j, k);
    }
  }

  lemma SkipBounds(nodes: seq<Node>, nodes': seq<Node>, chain: seq<nat>, j: nat)
    requires Chain(nodes, chain) && Interior(chain, j) && |nodes'| == |nodes|
    requires forall v {:trigger nodes'[v].next} | 0 <= v < |nodes| ::
      nodes'[v].next == if v == chain[j - 1] then chain[j + 1] else nodes[v].next
    requires forall v {:trigger nodes'[v].prev} | 0 <= v < |nodes| ::
      nodes'[v].prev == if v == chain[j + 1] then chain[j - 1] else nodes[v].prev
    ensures var rest := Without(chain, j);
            && |rest| == |chain| - 1 && rest[0] == 0 && rest[|rest| - 1] == |nodes| - 1
            && (forall k | 0 <= k < |rest| :: rest[k] < |nodes|)
            && nodes'[0].prev == 0 && nodes'[|nodes| - 1].next == |nodes| - 1
  {
    hide Increasing;
    Rising(chain, 0, j + 1);
    Rising(chain, j - 1, |chain| - 1);
  }

  lemma Rising(chain: seq<nat>, a: nat, b: nat)
    requires Increasing(chain) && a < b < |chain|
    ensures chain[a] < chain[b]
  {
  }

  lemma SkipNext(nodes: seq<Node>, nodes': seq<Node>, chain: seq<nat>, j: nat, k: nat)
    requires Chain(nodes, chain) && Interior(chain, j) && |nodes'| == |nodes|
    requires forall v {:trigger nodes'[v].next} | 0 <= v < |nodes| ::
      nodes'[v].next == if v == chain[j - 1] then chain[j + 1] else nodes[v].next
    requires k < |chain| - 2
    ensures nodes'[Without(chain, j)[k]].next == Without(chain, j)[k + 1]
  {
  }

  lemma SkipPrev(nodes: seq<Node>, nodes': seq<Node>, chain: seq<nat>, j: nat, k: nat)
    requires Chain(nodes, chain) && Interior(chain, j) && |nodes'| == |nodes|
    requires forall v {:trigger nodes'[v].prev} | 0 <= v < |nodes| ::
      nodes'[v].prev == if v == chain[j + 1] then chain[j - 1] else nodes[v].prev
    requires 0 < k < |chain| - 1
    ensures nodes'[Without(chain, j)[k]].prev == Without(chain, j)[k - 1]
  {
  }

  lemma SkipIncreasing(chain: seq<nat>, j: nat)
    requires Increasing(chain) && j < |chain|
    ensures Increasing(Without(chain, j))
  {
  }

  /** Only areas and slots may have changed. */
  ghost predicate SameLinks(h: Heap, h': Heap)
    requires Shape(h) && Shape(h')
  {
    && |h'.nodes| == |h.nodes|
    && (forall u {:trigger h'.nodes[u].prev} | 0 <= u < |h.nodes| :: h'.nodes[u].prev == h.nodes[u].prev)
    && (forall u {:trigger h'.nodes[u].next} | 0 <= u < |h.nodes| :: h'.nodes[u].next == h.nodes[u].next)
    && (forall u: nat | u < |h.nodes| :: In(h', u) <==> In(h, u))
  }

  ghost predicate GoodAt(h: Heap, chain: seq<nat>, j: nat) {
    && Indexed(h) && Ordered(h) && Chain(h.nodes, chain) && j < |chain|
    && (Interior(chain, j - 1) ==> In(h, chain[j - 1]))
    && (Interior(chain, j + 1) ==> In(h, chain[j + 1]))
  }

  lemma BeforeKeeps(tri: Triangle, h: Heap, chain: seq<nat>, j: nat, r: real)
    requires GoodAt(h, chain, j)
    ensures var h' := ReweighBefore(tri, h, h.nodes[chain[j]].prev, h.nodes[chain[j]].next, r);
            && GoodAt(h', chain, j) && SameLinks(h, h')
            && (forall u | 0 <= u < |h.nodes| && !(Interior(chain, j - 1) && u == chain[j - 1]) ::
                  h'.nodes[u].area == h.nodes[u].area)
            && (Interior(chain, j - 1) && j < |chain| - 1 ==>
                  h'.nodes[chain[j - 1]].area == FpMax(tri(chain[j - 2], chain[j - 1], chain[j + 1]), r))
  {
    hide Ordered, Weights, Reweigh, In, SameLinks;
    LinksOf(h.nodes, chain, j);
    var before, after := h.nodes[chain[j]].prev, h.nodes[chain[j]].next;
    if before > 0 {
      LinksOf(h.nodes, chain, j - 1);
      ReweighAt(h, chain, j, before, FpMax(tri(h.nodes[before].prev, before, after), r));
    } else {
      LinksSame(h);
    }
  }

  /** Where the links of a position lead. */
  lemma LinksOf(nodes: seq<Node>, chain: seq<nat>, j: nat)
    requires Chain(nodes, chain) && j < |chain|
    ensures nodes[chain[j]].prev == (if j == 0 then 0 else chain[j - 1])
    ensures nodes[chain[j]].next == (if j == |chain| - 1 then |nodes| - 1 else chain[j + 1])
    ensures nodes[chain[j]].prev > 0 <==> Interior(chain, j - 1)
    ensures nodes[chain[j]].next < |nodes| - 1 <==> Interior(chain, j + 1)
  {
    if j > 1 { assert chain[0] < chain[j - 1]; }
    if j < |chain| - 2 { assert chain[j + 1] < chain[|chain| - 1]; }
  }

  lemma LinksSame(h: Heap)
    requires Shape(h)
    ensures SameLinks(h, h)
  {
  }

  /** A member of the heap changes its area: everything else about heap and chain stays. */
  lemma ReweighAt(h: Heap, chain: seq<nat>, j: nat, v: nat, area: real)
    requires GoodAt(h, chain, j) && In(h, v)
    ensures var h' := Reweigh(h, v, area);
            && GoodAt(h', chain, j) && SameLinks(h, h') && h'.nodes[v].area == area
            && (forall u | 0 <= u < |h.nodes| && u != v :: h'.nodes[u].area == h.nodes[u].area)
  {
    hide Ordered, Weights, Reweigh, Increasing;
    ReweighRestores(h, v, area);
    ChainFrame(h.nodes, Reweigh(h, v, area).nodes, chain);
  }

  lemma AfterKeeps(tri: Triangle, h: Heap, chain: seq<nat>, j: nat, r: real)
    requires GoodAt(h, chain, j)
    ensures var h' := ReweighAfter(tri, h, h.nodes[chain[j]].prev, h.nodes[chain[j]].next, r);
            && GoodAt(h', chain, j) && SameLinks(h, h')
            && (forall u | 0 <= u < |h.nodes| && !(Interior(chain, j + 1) && u == chain[j + 1]) ::
                  h'.nodes[u].area == h.nodes[u].area)
            && (Interior(chain, j + 1) && 0 < j ==>
                  h'.nodes[chain[j + 1]].area == FpMax(tri(chain[j - 1], chain[j + 1], chain[j + 2]), r))
  {
    hide Ordered, Weights, Reweigh, In, SameLinks;
    LinksOf(h.nodes, chain, j);
    var before, after := h.nodes[chain[j]].prev, h.nodes[chain[j]].next;
    if after < |h.nodes| - 1 {
      LinksOf(h.nodes, chain, j + 1);
      ReweighAt(h, chain, j, after, FpMax(tri(before, after, h.nodes[after].next), r));
    } else {
      LinksSame(h);
    }
  }

  /** The areas after eliminating position `j` at level `r`. */
  ghost predicate Reweighed(tri: Triangle, h: Heap, h': Heap, chain: seq<nat>, j: nat, r: real)
    requires Shape(h) && Shape(h') && |h'.nodes| == |h.nodes| && Chain(h.nodes, chain)
  {
    && (forall k {:trigger h'.nodes[chain[k]].area} | 0 <= k < |chain| && !(Interior(chain, k) && (k == j - 1 || k == j + 1)) ::
          h'.nodes[chain[k]].area == h.nodes[chain[k]].area)
    && (Interior(chain, j - 1) && j < |chain| - 1 ==>
          h'.nodes[chain[j - 1]].area == FpMax(tri(chain[j - 2], chain[j - 1], chain[j + 1]), r))
    && (Interior(chain, j + 1) && 0 < j ==>
          h'.nodes[chain[j + 1]].area == FpMax(tri(chain[j - 1], chain[j + 1], chain[j + 2]), r))
  }

  lemma NeighboursReweighed(tri: Triangle, h: Heap, chain: seq<nat>, j: nat, r: real)
    requires GoodAt(h, chain, j)
    ensures var before, after := h.nodes[chain[j]].prev, h.nodes[chain[j]].next;
            var h2 := ReweighAfter(tri, ReweighBefore(tri, h, before, after, r), before, after, r);
            GoodAt(h2, chain, j) && SameLinks(h, h2) && Reweighed(tri, h, h2, chain, j, r)
  {
    hide Ordered, Weights, ReweighBefore, ReweighAfter;
    var h1 := ReweighBefore(tri, h, h.nodes[chain[j]].prev, h.nodes[chain[j]].next, r);
    BeforeKeeps(tri, h, chain, j, r);
    AfterKeeps(tri, h1, chain, j, r);
  }

  lemma EliminateKeeps(tri: Triangle, h: Heap, chain: seq<nat>, j: nat, r: real)
    requires GoodAt(h, chain, j)
    ensures var h' := EliminateAt(tri, h, chain[j], r);
            && Indexed(h') && Ordered(h') && Chain(h'.nodes, Without(chain, j))
            && (forall u: nat | u < |h.nodes| :: In(h', u) <==> In(h, u))
            && Reweighed(tri, h, h', chain, j, r)
  {
    hide ReweighBefore, ReweighAfter, Unlink, Ordered, Weights, Reweighed, Interior;
    NeighboursReweighed(tri, h, chain, j, r);
    var before, after := h.nodes[chain[j]].prev, h.nodes[chain[j]].next;
    var h2 := ReweighAfter(tri, ReweighBefore(tri, h, before, after, r), before, after, r);
    UnlinkKeepsHeap(h2, chain[j], before, after);
    UnlinkChain(h2, chain, j);
    ReweighedFrame(tri, h, h2, Unlink(h2, chain[j], before, after), chain, j, r);
  }

  lemma ReweighedFrame(tri: Triangle, h: Heap, h2: Heap, h3: Heap, chain: seq<nat>, j: nat, r: real)
    requires Shape(h) && Shape(h2) && Shape(h3) && |h3.nodes| == |h2.nodes| == |h.nodes| && Chain(h.nodes, chain)
    requires Reweighed(tri, h, h2, chain, j, r) && forall u: nat | u < |h.nodes| :: h3.nodes[u].area == h2.nodes[u].area
    ensures Reweighed(tri, h, h3, chain, j, r)
  {
  }

  /** `s'` is `s` after eliminating the member at position `j`, of smallest area. */
  ghost predicate Stepped(tri: Triangle, avoid: nat, s: State, s': State, chain: seq<nat>, j: nat)
    requires WellFormed(s) && WellFormed(s') && |s'.h.nodes| == |s.h.nodes| && Chain(s.h.nodes, chain)
  {
    && j < |chain| && In(s.h, chain[j])
    && (forall u: nat | In(s.h, u) :: s.h.nodes[chain[j]].area <= s.h.nodes[u].area)
    && s'.last == Recorded(s, avoid, s.h.nodes[chain[j]].area)
    && s'.res == s.res[chain[j] := s'.last]
    && (forall u: nat | u < |s.h.nodes| :: In(s'.h, u) <==> In(s.h, u) && u != chain[j])
    && Reweighed(tri, s.h, s'.h, chain, j, s'.last)
  }

  /** What one step does to the heap, the links and the areas. */
  lemma StepHeap(tri: Triangle, avoid: nat, s: State, chain: seq<nat>) returns (j: nat)
    requires Live(s, chain) && |chain| > 2
    ensures s.h.used > 0
    ensures var s' := Step(tri, avoid, s);
            && Stepped(tri, avoid, s, s', chain, j)
            && Indexed(s'.h) && Ordered(s'.h) && Chain(s'.h.nodes, Without(chain, j))
  {
    hide Pop, EliminateAt, Ordered, Weights, Without;
    var cur, h0;
    j, cur, h0 := PopPosition(s, chain);
    EliminateKeeps(tri, h0, chain, j, Recorded(s, avoid, h0.nodes[cur].area));
  }

  lemma PopPosition(s: State, chain: seq<nat>) returns (j: nat, cur: nat, h0: Heap)
    requires Live(s, chain) && |chain| > 2
    ensures s.h.used > 0 && (cur, h0) == Pop(s.h)
    ensures j < |chain| && cur == chain[j] && In(s.h, cur) && GoodAt(h0, chain, j)
    ensures |h0.nodes| == |s.h.nodes|
    ensures forall u: nat | In(s.h, u) :: s.h.nodes[cur].area <= s.h.nodes[u].area
    ensures forall u: nat | u < |s.h.nodes| :: In(h0, u) <==> In(s.h, u) && u != cur
    ensures forall u | 0 <= u < |s.h.nodes| :: h0.nodes[u].area == s.h.nodes[u].area
  {
    assert Interior(chain, 1) && In(s.h, chain[1]);
    PopTakesMin(s.h);
    cur, h0 := Pop(s.h).0, Pop(s.h).1;
    j :| j < |chain| && chain[j] == cur;
    ChainFrame(s.h.nodes, h0.nodes, chain);
    NeighboursDiffer(chain, j);
  }

  lemma ChainFrame(nodes: seq<Node>, nodes': seq<Node>, chain: seq<nat>)
    requires Chain(nodes, chain) && |nodes'| == |nodes|
    requires forall u {:trigger nodes'[u].prev} | 0 <= u < |nodes| :: nodes'[u].prev == nodes[u].prev
    requires forall u {:trigger nodes'[u].next} | 0 <= u < |nodes| :: nodes'[u].next == nodes[u].next
    ensures Chain(nodes', chain)
  {
  }

  lemma NeighboursDiffer(chain: seq<nat>, j: nat)
    requires Increasing(chain) && j < |chain|
    ensures Interior(chain, j - 1) ==> chain[j - 1] != chain[j]
    ensures Interior(chain, j + 1) ==> chain[j + 1] != chain[j]
  {
  }

  lemma InWithout(chain: seq<nat>, j: nat, v: nat)
    requires j < |chain| && v in chain && (v != chain[j] || !Interior(chain, j))
    ensures v in Without(chain, j)
  {
  }

  /** A step keeps heap, links and recorded areas in agreement. */
  lemma StepLive(tri: Triangle, avoid: nat, s: State, chain: seq<nat>) returns (j: nat)
    requires Live(s, chain) && |chain| > 2
    requires s.i < |s.h.nodes| - avoid ==>
               forall u: nat | In(s.h, u) :: 0.0 <= s.h.nodes[u].area <= FLT_MAX
    ensures s.h.used > 0
    ensures var s' := Step(tri, avoid, s);
            Stepped(tri, avoid, s, s', chain, j) && Live(s', Without(chain, j))
  {
    hide Step, Ordered, Indexed, Reweighed, Chain, Without;
    j := StepHeap(tri, avoid, s, chain);
    var s', rest := Step(tri, avoid, s), Without(chain, j);
    MembersOnChain(s.h, s'.h, chain, j);
  }

  lemma MembersOnChain(h: Heap, h': Heap, chain: seq<nat>, j: nat)
    requires Shape(h) && Shape(h') && |h'.nodes| == |h.nodes| && Chain(h.nodes, chain) && j < |chain|
    requires forall k {:trigger Interior(chain, k)} | Interior(chain, k) :: In(h, chain[k])
    requires forall v: nat | In(h, v) :: v in chain
    requires forall u: nat | u < |h.nodes| :: In(h', u) <==> In(h, u) && u != chain[j]
    ensures forall k {:trigger Interior(Without(chain, j), k)} | Interior(Without(chain, j), k) ::
              In(h', Without(chain, j)[k])
    ensures forall v: nat | In(h', v) :: v in Without(chain, j)
  {
    hide Shape;
    var rest := Without(chain, j);
    forall k {:trigger Interior(rest, k)} | Interior(rest, k) ensures In(h', rest[k]) {
      var m := if Interior(chain, j) && k >= j then k + 1 else k;
      assert Interior(chain, m) && rest[k] == chain[m];
      assert chain[m] != chain[j] by { assert m < j || j < m; }
    }
    forall v: nat | In(h', v) ensures v in rest {
      assert In(h, v);
      InWithout(chain, j, v);
    }
  }

  // ---------- the textbook algorithm ----------

  /** Position `j` has the smallest effective area of all inner survivors. */
  ghost predicate Smallest(tri: Triangle, chain: seq<nat>, level: real, j: nat) {
    && Interior(chain, j)
    && forall k {:trigger Interior(chain, k)} | Interior(chain, k) ::
         Effective(tri, chain, level, j) <= Effective(tri, chain, level, k)
  }

  /** `js` are the positions that rescanning may eliminate, one after the other. */
  ghost predicate NaiveRun(tri: Triangle, chain: seq<nat>, level: real, js: seq<nat>)
    decreases |js|
  {
    js == [] ||
    (Smallest(tri, chain, level, js[0]) &&
     NaiveRun(tri, Without(chain, js[0]), Effective(tri, chain, level, js[0]), js[1..]))
  }

  /** The areas that such a run writes over `res`. */
  ghost function NaiveAreas(tri: Triangle, chain: seq<nat>, level: real, js: seq<nat>, res: seq<real>): seq<real>
    requires NaiveRun(tri, chain, level, js)
    requires forall j | 0 <= j < |chain| :: chain[j] < |res|
    decreases |js|
  {
    if js == [] then res
    else
      var area := Effective(tri, chain, level, js[0]);
      NaiveAreas(tri, Without(chain, js[0]), area, js[1..], res[chain[js[0]] := area])
  }

  /** While areas are recorded, a step is exactly one elimination by rescanning. */
  lemma StepIsNaive(tri: Triangle, avoid: nat, s: State, chain: seq<nat>) returns (j: nat)
    requires Bounded(tri) && Inv(tri, avoid, s, chain) && |chain| > 2 && s.i < |s.h.nodes| - avoid
    ensures Smallest(tri, chain, s.last, j) && s.h.used > 0
    ensures var s', area := Step(tri, avoid, s), Effective(tri, chain, s.last, j);
            && Inv(tri, avoid, s', Without(chain, j))
            && s'.last == area && s'.res == s.res[chain[j] := area]
            && (forall u: nat | u < |s.h.nodes| :: In(s'.h, u) <==> In(s.h, u) && u != chain[j])
  {
    hide Step, Ordered, Indexed, Reweighed, In, Chain, Without;
    AreasInRange(tri, s, chain);
    j := StepLive(tri, avoid, s, chain);
    MinimumIsSmallest(tri, s, chain, j);
    StepExact(tri, s, Step(tri, avoid, s), chain, j);
  }

  /** A member of smallest stored area is an inner vertex that rescanning would pick. */
  lemma MinimumIsSmallest(tri: Triangle, s: State, chain: seq<nat>, j: nat)
    requires Bounded(tri) && Live(s, chain) && Exact(tri, s, chain) && |chain| > 2
    requires j < |chain| && forall u: nat | In(s.h, u) :: s.h.nodes[chain[j]].area <= s.h.nodes[u].area
    ensures Smallest(tri, chain, s.last, j)
    ensures s.h.nodes[chain[j]].area == Effective(tri, chain, s.last, j)
  {
    hide Ordered, Indexed;
    assert Interior(chain, 1) && In(s.h, chain[1]);
    assert Interior(chain, j);
    forall k | Interior(chain, k)
      ensures Effective(tri, chain, s.last, j) <= Effective(tri, chain, s.last, k)
    {
      assert In(s.h, chain[k]);
    }
  }

  lemma AreasInRange(tri: Triangle, s: State, chain: seq<nat>)
    requires Bounded(tri) && Live(s, chain) && Exact(tri, s, chain)
    ensures forall u: nat | In(s.h, u) :: 0.0 <= s.h.nodes[u].area <= FLT_MAX
  {
    forall u: nat | In(s.h, u) ensures 0.0 <= s.h.nodes[u].area <= FLT_MAX {
      var k :| 0 <= k < |chain| && chain[k] == u;
      if Interior(chain, k) {
        assert s.h.nodes[chain[k]].area == Effective(tri, chain, s.last, k);
      }
    }
  }

  lemma StepExact(tri: Triangle, s: State, s': State, chain: seq<nat>, j: nat)
    requires Bounded(tri) && Live(s, chain) && Exact(tri, s, chain) && Smallest(tri, chain, s.last, j)
    requires Live(s', Without(chain, j)) && |s'.h.nodes| == |s.h.nodes|
    requires s'.last == Effective(tri, chain, s.last, j)
    requires forall u: nat | u < |s.h.nodes| :: In(s'.h, u) <==> In(s.h, u) && u != chain[j]
    requires Reweighed(tri, s.h, s'.h, chain, j, s'.last)
    ensures Exact(tri, s', Without(chain, j))
  {
    hide Ordered, Indexed, Shape, In, Reweighed, Chain, Without;
    EndsStay(tri, s.h, s'.h, chain, j, s'.last);
    var rest := Without(chain, j);
    forall k {:trigger Interior(rest, k)} | Interior(rest, k)
      ensures s'.h.nodes[rest[k]].area == Effective(tri, rest, s'.last, k)
    {
      StepExactAt(tri, s.h, s'.h, chain, s.last, j, k);
    }
  }

  lemma EndsStay(tri: Triangle, h: Heap, h': Heap, chain: seq<nat>, j: nat, r: real)
    requires Shape(h) && Shape(h') && |h'.nodes| == |h.nodes|
    requires Chain(h.nodes, chain) && Interior(chain, j) && Reweighed(tri, h, h', chain, j, r)
    ensures forall k | 0 <= k < |Without(chain, j)| :: Without(chain, j)[k] < |h.nodes|
    ensures 0 < chain[j] < |h.nodes| - 1
    ensures h'.nodes[0].area == h.nodes[0].area
    ensures h'.nodes[|h.nodes| - 1].area == h.nodes[|h.nodes| - 1].area
  {
  }

  lemma StepExactAt(tri: Triangle, h: Heap, h': Heap, chain: seq<nat>, last: real, j: nat, k: nat)
    requires Shape(h) && Shape(h') && |h'.nodes| == |h.nodes|
    requires Chain(h.nodes, chain) && Smallest(tri, chain, last, j) && Interior(Without(chain, j), k)
    requires forall m {:trigger Interior(chain, m)} | Interior(chain, m) ::
               h.nodes[chain[m]].area == Effective(tri, chain, last, m)
    requires Reweighed(tri, h, h', chain, j, Effective(tri, chain, last, j))
    ensures h'.nodes[Without(chain, j)[k]].area ==
            Effective(tri, Without(chain, j), Effective(tri, chain, last, j), k)
  {
    hide Shape, Chain, Without;
    var m := if k < j then k else k + 1;
    AroundPosition(chain, j, k);
    assert Interior(chain, m);
  }

  /** A surviving position and its neighbours, before and after. */
  lemma AroundPosition(chain: seq<nat>, j: nat, k: nat)
    requires Interior(chain, j) && Interior(Without(chain, j), k)
    ensures var rest, m := Without(chain, j), if k < j then k else k + 1;
            && Interior(chain, m) && m != j && rest[k] == chain[m]
            && rest[k - 1] == chain[if m - 1 == j then j - 1 else m - 1]
            && rest[k + 1] == chain[if m + 1 == j then j + 1 else m + 1]
  {
  }

  /** The loop's test on the first vertex says that only the end points are left. */
  lemma ChainEnds(nodes: seq<Node>, chain: seq<nat>)
    requires Chain(nodes, chain)
    ensures nodes[0].next == |nodes| - 1 <==> |chain| == 2
  {
  }

  /** Once nothing more may be removed, the remaining run changes no recorded area. */
  lemma {:induction false} RunTail(tri: Triangle, avoid: nat, setArea: bool, thr: real, s: State, chain: seq<nat>)
    requires Live(s, chain) && |chain| > 2 && s.i >= |s.h.nodes| - avoid
    ensures Run(tri, avoid, setArea, thr, s).res == s.res
    decreases s.h.used
  {
    hide Step, Ordered, Indexed, Reweighed, Chain;
    var j := StepLive(tri, avoid, s, chain);
    var s', rest := Step(tri, avoid, s), Without(chain, j);
    ChainEnds(s'.h.nodes, rest);
    assert s'.res == s.res;
    if !Finished(s', setArea, thr) {
      assert |rest| > 2;
      RunTail(tri, avoid, setArea, thr, s', rest);
    }
  }

  /** How many vertices get an area: never an end point, never the last `avoid` iterations. */
  function Eliminations(n: nat, inner: nat, i: nat, avoid: nat): nat {
    var room := if i < n - avoid then n - avoid - i else 0;
    if inner < room then inner else room
  }

  /** The heap-driven run computes the areas of a run of the textbook algorithm. */
  lemma {:induction false} RunIsNaive(tri: Triangle, avoid: nat, setArea: bool, thr: real, s: State, chain: seq<nat>)
      returns (js: seq<nat>)
    requires Bounded(tri) && Inv(tri, avoid, s, chain) && |chain| > 2
    ensures NaiveRun(tri, chain, s.last, js)
    ensures Run(tri, avoid, setArea, thr, s).res == NaiveAreas(tri, chain, s.last, js, s.res)
    ensures |js| <= Eliminations(|s.h.nodes|, |chain| - 2, s.i, avoid)
    ensures setArea ==> |js| == Eliminations(|s.h.nodes|, |chain| - 2, s.i, avoid)
    decreases s.h.used
  {
    hide Step, Ordered, Indexed, Reweighed, Chain;
    if s.i >= |s.h.nodes| - avoid {
      RunTail(tri, avoid, setArea, thr, s, chain);
      return [];
    }
    var j := StepIsNaive(tri, avoid, s, chain);
    var s', rest := Step(tri, avoid, s), Without(chain, j);
    ChainEnds(s'.h.nodes, rest);
    assert |rest| == |chain| - 1;
    var tail: seq<nat> := [];
    if Finished(s', setArea, thr) {
      assert setArea ==> |rest| == 2;
    } else {
      assert |rest| > 2;
      tail := RunIsNaive(tri, avoid, setArea, thr, s', rest);
    }
    js := [j] + tail;
    assert js[1..] == tail;
  }

  // ---------- the early exit ----------

  /** Recorded areas never decrease, so the order check of the loop cannot fail. */
  lemma StepInv(tri: Triangle, avoid: nat, s: State, chain: seq<nat>) returns (j: nat)
    requires Bounded(tri) && Inv(tri, avoid, s, chain) && |chain| > 2
    ensures s.h.used > 0 && j < |chain|
    ensures var s' := Step(tri, avoid, s);
            && Inv(tri, avoid, s', Without(chain, j))
            && s'.last >= s.last && s'.res == s.res[chain[j] := s'.last]
            && In(s.h, chain[j])
            && (forall u: nat | u < |s.h.nodes| :: In(s'.h, u) <==> In(s.h, u) && u != chain[j])
  {
    hide Step, Ordered, Reweighed;
    if s.i < |s.h.nodes| - avoid {
      j := StepIsNaive(tri, avoid, s, chain);
    } else {
      j := StepLive(tri, avoid, s, chain);
    }
  }

  lemma InvEnds(tri: Triangle, avoid: nat, s: State, chain: seq<nat>)
    requires Inv(tri, avoid, s, chain)
    ensures s.h.nodes[0].next == |s.h.nodes| - 1 <==> |chain| == 2
    ensures |chain| >= 2
  {
  }

  /** What follows a state records areas no smaller than its last one, for members only. */
  lemma {:induction false} RunAbove(tri: Triangle, avoid: nat, thr: real, s: State, chain: seq<nat>)
    requires Bounded(tri) && Inv(tri, avoid, s, chain) && |chain| > 2
    ensures var res := Run(tri, avoid, true, thr, s).res;
            forall v: nat | v < |s.res| :: res[v] == s.res[v] || (In(s.h, v) && res[v] >= s.last)
    decreases s.h.used
  {
    hide Step, Ordered, Indexed, Reweighed, Chain;
    var j := StepInv(tri, avoid, s, chain);
    var s', rest := Step(tri, avoid, s), Without(chain, j);
    ChainEnds(s'.h.nodes, rest);
    if !Finished(s', true, thr) {
      assert |rest| > 2;
      RunAbove(tri, avoid, thr, s', rest);
    }
  }

  /** Stopping at the first area that reaches the threshold keeps the same vertices. */
  lemma {:induction false} EarlyExitSafe(tri: Triangle, avoid: nat, thr: real, s: State, chain: seq<nat>)
    requires Bounded(tri) && Inv(tri, avoid, s, chain) && |chain| > 2
    ensures var full, early := Run(tri, avoid, true, thr, s).res, Run(tri, avoid, false, thr, s).res;
            forall v | 0 <= v < |s.res| :: full[v] >= thr <==> early[v] >= thr
    decreases s.h.used
  {
    hide Step, Ordered, Indexed, Reweighed, Chain;
    var j := StepInv(tri, avoid, s, chain);
    var s', rest := Step(tri, avoid, s), Without(chain, j);
    ChainEnds(s'.h.nodes, rest);
    if !Finished(s', true, thr) {
      assert |rest| > 2;
      if s'.last >= thr {
        RunAbove(tri, avoid, thr, s', rest);
      } else {
        EarlyExitSafe(tri, avoid, thr, s', rest);
        assert Run(tri, avoid, true, thr, s) == Run(tri, avoid, true, thr, s');
        assert Run(tri, avoid, false, thr, s) == Run(tri, avoid, false, thr, s');
      }
    }
  }

  // ---------- the initial state ----------

  /** Areas before any elimination; the end points get the largest one. */
  function FirstArea(tri: Triangle, n: nat, v: nat): real {
    if v == 0 || v + 1 >= n then FLT_MAX else tri(v - 1, v, v + 1)
  }

  function StartNode(tri: Triangle, n: nat, v: nat): Node {
    Node(FirstArea(tri, n, v), 0, if v == 0 then 0 else v - 1, if v + 1 >= n then v else v + 1)
  }

  function Identity(n: nat): (s: seq<nat>)
    ensures |s| == n && forall v | 0 <= v < n :: s[v] == v
  {
    seq(n, v => v)
  }

  function AreasOf(nodes: seq<Node>): seq<real> {
    seq(|nodes|, v requires 0 <= v < |nodes| => nodes[v].area)
  }

  /** The comparator of the initial sort: by area, ties by position. */
  function AreaOrder(areas: seq<real>): (nat, nat) -> bool {
    (a: nat, b: nat) =>
      var x, y := if a < |areas| then areas[a] else 0.0, if b < |areas| then areas[b] else 0.0;
      x < y || (x == y && a <= b)
  }

  ghost predicate Permutation(keys: seq<nat>, n: nat) {
    && |keys| == n
    && (forall k | 0 <= k < n :: keys[k] < n)
    && (forall k, m | 0 <= k < m < n :: keys[k] != keys[m])
    && (forall v: nat | v < n :: v in keys)
  }

  function IndexOf(keys: seq<nat>, v: nat): (k: nat)
    requires v in keys
    ensures k < |keys| && keys[k] == v
  {
    if keys[0] == v then 0 else 1 + IndexOf(keys[1..], v)
  }

  function Placed(nodes: seq<Node>, keys: seq<nat>): (r: seq<Node>)
    requires Permutation(keys, |nodes|)
    ensures |r| == |nodes|
    ensures forall v | 0 <= v < |nodes| :: r[v] == nodes[v].(treeindex := IndexOf(keys, v))
  {
    seq(|nodes|, v requires 0 <= v < |nodes| => nodes[v].(treeindex := IndexOf(keys, v)))
  }

  /** All vertices in the heap, in the sorted order `keys`, and no area recorded yet. */
  function Start(tri: Triangle, n: nat, keys: seq<nat>): (s: State)
    requires n >= 2 && Permutation(keys, n)
    ensures WellFormed(s) && |s.h.nodes| == n
  {
    var nodes := seq(n, (v: nat) => StartNode(tri, n, v));
    State(Heap(Placed(nodes, keys), keys, n), seq(n, v => FLT_MAX), 0.0, 0)
  }

  ghost predicate StartOrder(tri: Triangle, n: nat, keys: seq<nat>) {
    && Permutation(keys, n)
    && forall j, k | 0 <= j < k < n :: FirstArea(tri, n, keys[j]) <= FirstArea(tri, n, keys[k])
  }

  /** The order in which the initial sort puts the vertices into the heap. */
  function StartKeys(tri: Triangle, n: nat, qsort: Sorter<nat>): seq<nat> {
    qsort(Identity(n), AreaOrder(seq(n, (v: nat) => FirstArea(tri, n, v))))
  }

  lemma StartKeysOrder(tri: Triangle, n: nat, qsort: Sorter<nat>)
    requires IsSorter(qsort)
    ensures StartOrder(tri, n, StartKeys(tri, n, qsort))
  {
    var areas := seq(n, (v: nat) => FirstArea(tri, n, v));
    var keys := StartKeys(tri, n, qsort);
    assert TotalPreorder(AreaOrder(areas));
    assert Sorted(keys, AreaOrder(areas)) && multiset(keys) == multiset(Identity(n));
    SortedIdentity(keys, n);
    forall j, k | 0 <= j < k < n ensures FirstArea(tri, n, keys[j]) <= FirstArea(tri, n, keys[k]) {
      assert AreaOrder(areas)(keys[j], keys[k]);
    }
  }

  lemma SortedIdentity(keys: seq<nat>, n: nat)
    requires multiset(keys) == multiset(Identity(n))
    ensures Permutation(keys, n)
  {
    assert |keys| == |multiset(keys)| == |multiset(Identity(n))| == n;
    forall k | 0 <= k < n ensures keys[k] < n {
      assert keys[k] in multiset(keys);
    }
    forall v: nat | v < n ensures v in keys {
      assert Identity(n)[v] in multiset(Identity(n));
    }
    forall k, m | 0 <= k < m < n ensures keys[k] != keys[m] {
      IdentityOnce(n, keys[k]);
      OnceDistinct(keys, k, m);
    }
  }

  lemma OnceDistinct(keys: seq<nat>, k: nat, m: nat)
    requires k < m < |keys| && multiset(keys)[keys[k]] <= 1
    ensures keys[k] != keys[m]
  {
    assert keys == keys[..m] + [keys[m]] + keys[m + 1..];
    assert keys[k] in keys[..m];
  }

  lemma {:induction false} IdentityOnce(n: nat, v: nat)
    ensures multiset(Identity(n))[v] == if v < n then 1 else 0
  {
    if n > 0 {
      IdentityOnce(n - 1, v);
      assert Identity(n) == Identity(n - 1) + [n - 1];
    }
  }

  lemma StartInv(tri: Triangle, avoid: nat, n: nat, keys: seq<nat>)
    requires n >= 3 && Bounded(tri) && StartOrder(tri, n, keys)
    ensures Inv(tri, avoid, Start(tri, n, keys), Identity(n))
  {
    hide Chain, Ordered, Start, In;
    StartLive(tri, n, keys);
    StartChain(tri, n, keys);
    StartHeap(tri, n, keys);
  }

  lemma StartLive(tri: Triangle, n: nat, keys: seq<nat>)
    requires n >= 3 && StartOrder(tri, n, keys)
    ensures Live(Start(tri, n, keys), Identity(n))
  {
    hide Ordered, Start;
    var s, chain := Start(tri, n, keys), Identity(n);
    StartHeap(tri, n, keys);
    StartChain(tri, n, keys);
    forall v: nat | In(s.h, v) ensures v in chain { assert chain[v] == v; }
  }

  lemma StartChain(tri: Triangle, n: nat, keys: seq<nat>)
    requires n >= 2 && Permutation(keys, n)
    ensures var s := Start(tri, n, keys);
            && Chain(s.h.nodes, Identity(n))
            && s.last == 0.0 && s.i == 0
            && (forall v | 0 <= v < n :: s.res[v] == FLT_MAX)
            && (forall v | 0 <= v < n :: s.h.nodes[v].area == FirstArea(tri, n, v))
  {
    hide FirstArea, IndexOf, Chain;
    StartLinks(tri, n, keys);
  }

  lemma StartLinks(tri: Triangle, n: nat, keys: seq<nat>)
    requires n >= 2 && Permutation(keys, n)
    ensures Chain(Start(tri, n, keys).h.nodes, Identity(n))
  {
    hide FirstArea, IndexOf, Permutation;
  }

  lemma StartHeap(tri: Triangle, n: nat, keys: seq<nat>)
    requires n >= 2 && StartOrder(tri, n, keys)
    ensures var h := Start(tri, n, keys).h;
            Indexed(h) && Ordered(h) && forall v: nat | v < n :: In(h, v)
  {
    hide Start, Permutation, Indexed, In;
    StartIndexed(tri, n, keys);
    StartWeights(tri, n, keys);
    var h := Start(tri, n, keys).h;
    forall k | 0 < k < n ensures Weights(h)[Parent(k)] <= Weights(h)[k] {
      assert Parent(k) < k;
    }
  }

  lemma StartWeights(tri: Triangle, n: nat, keys: seq<nat>)
    requires n >= 2 && StartOrder(tri, n, keys)
    ensures var h := Start(tri, n, keys).h;
            && Shape(h) && |Weights(h)| == n
            && (forall j, k | 0 <= j < k < n :: Weights(h)[j] <= Weights(h)[k])
  {
    hide IndexOf, FirstArea;
  }

  lemma StartIndexed(tri: Triangle, n: nat, keys: seq<nat>)
    requires n >= 2 && Permutation(keys, n)
    ensures var h := Start(tri, n, keys).h;
            Indexed(h) && h.used == n && forall v: nat | v < n :: In(h, v)
  {
    hide IndexOf, FirstArea;
  }

  /** Two vertices: the loop eliminates one end point on paper, and stops. */
  lemma PairStep(tri: Triangle, avoid: nat, keys: seq<nat>)
    requires StartOrder(tri, 2, keys)
    ensures var s := Start(tri, 2, keys);
            && s.h.used == 2
            && var s' := Step(tri, avoid, s); s'.last == FLT_MAX && s'.h.nodes[0].next == 1 && s'.res == s.res
  {
    hide Pop, Indexed, Ordered;
    StartHeap(tri, 2, keys);
    PopTakesMin(Start(tri, 2, keys).h);
  }

  /** So both vertices keep the largest area. */
  lemma PairAreas(tri: Triangle, keys: seq<nat>, avoid: nat, setArea: bool, thr: real)
    requires StartOrder(tri, 2, keys)
    ensures Areas(tri, 2, keys, avoid, setArea, thr) == [FLT_MAX, FLT_MAX]
  {
    hide Step;
    PairStep(tri, avoid, keys);
  }

  // ---------- what the caller gets ----------

  /** Indices, from `from` on, of the vertices whose recorded area reaches the threshold. */
  function Kept(res: seq<real>, thr: real, from: nat): (ks: seq<nat>)
    requires from <= |res|
    decreases |res| - from
  {
    if from == |res| then []
    else (if res[from] >= thr then [from] else []) + Kept(res, thr, from + 1)
  }

  /** Exactly the vertices that reach the threshold. */
  lemma {:induction false} KeptMembers(res: seq<real>, thr: real, from: nat, v: nat)
    requires from <= |res|
    ensures v in Kept(res, thr, from) <==> from <= v < |res| && res[v] >= thr
    decreases |res| - from
  {
    if from < |res| { KeptMembers(res, thr, from + 1, v); }
  }

  lemma {:induction false} KeptIncreasing(res: seq<real>, thr: real, from: nat)
    requires from <= |res|
    ensures Increasing(Kept(res, thr, from))
    decreases |res| - from
  {
    if from < |res| {
      KeptIncreasing(res, thr, from + 1);
      var rest := Kept(res, thr, from + 1);
      forall k | 0 <= k < |rest| ensures from < rest[k] {
        KeptMembers(res, thr, from + 1, rest[k]);
      }
    }
  }

  lemma KeptSpec(res: seq<real>, thr: real)
    ensures var ks := Kept(res, thr, 0);
            && (forall k | 0 <= k < |ks| :: ks[k] < |res| && res[ks[k]] >= thr)
            && (forall v | 0 <= v < |res| && res[v] >= thr :: v in ks)
            && Increasing(ks)
  {
    var ks := Kept(res, thr, 0);
    forall k | 0 <= k < |ks| ensures ks[k] < |res| && res[ks[k]] >= thr { KeptMembers(res, thr, 0, ks[k]); }
    forall v | 0 <= v < |res| && res[v] >= thr ensures v in ks { KeptMembers(res, thr, 0, v); }
    KeptIncreasing(res, thr, 0);
  }

  /** The surviving vertices, in their original order. */
  function KeptIndices(res: seq<real>, thr: real): (ks: seq<nat>)
    ensures forall k | 0 <= k < |ks| :: ks[k] < |res| && res[ks[k]] >= thr
    ensures forall v | 0 <= v < |res| && res[v] >= thr :: v in ks
    ensures Increasing(ks)
  {
    KeptSpec(res, thr);
    Kept(res, thr, 0)
  }

  function Areas(tri: Triangle, n: nat, keys: seq<nat>, avoid: nat, setArea: bool, thr: real): (res: seq<real>)
    requires n >= 2 && Permutation(keys, n)
    ensures |res| == n
  {
    Run(tri, avoid, setArea, thr, Start(tri, n, keys)).res
  }

  /** The effective areas are those of the textbook algorithm, run to the end. */
  lemma AreasAreNaive(tri: Triangle, n: nat, keys: seq<nat>, avoid: nat, thr: real) returns (js: seq<nat>)
    requires n >= 2 && Bounded(tri) && StartOrder(tri, n, keys)
    ensures NaiveRun(tri, Identity(n), 0.0, js)
    ensures Areas(tri, n, keys, avoid, true, thr) ==
            NaiveAreas(tri, Identity(n), 0.0, js, seq(n, v => FLT_MAX))
    ensures |js| == Eliminations(n, n - 2, 0, avoid)
  {
    hide Run, Start;
    if n == 2 {
      PairAreas(tri, keys, avoid, true, thr);
      return [];
    }
    StartInv(tri, avoid, n, keys);
    StartChain(tri, n, keys);
    js := RunIsNaive(tri, avoid, true, thr, Start(tri, n, keys), Identity(n));
    assert Start(tri, n, keys).res == seq(n, v => FLT_MAX);
  }

  /** Computing all areas or stopping at the threshold keeps the same vertices. */
  lemma SameVertices(tri: Triangle, n: nat, keys: seq<nat>, avoid: nat, thr: real)
    requires n >= 2 && Bounded(tri) && StartOrder(tri, n, keys)
    ensures KeptIndices(Areas(tri, n, keys, avoid, true, thr), thr) ==
            KeptIndices(Areas(tri, n, keys, avoid, false, thr), thr)
  {
    hide Step, Placed, Kept, Inv, Pop, WellFormed;
    if n == 2 {
      PairAreas(tri, keys, avoid, true, thr);
      PairAreas(tri, keys, avoid, false, thr);
      return;
    }
    StartInv(tri, avoid, n, keys);
    EarlyExitSafe(tri, avoid, thr, Start(tri, n, keys), Identity(n));
    var full, early := Areas(tri, n, keys, avoid, true, thr), Areas(tri, n, keys, avoid, false, thr);
    var s := Start(tri, n, keys);
    assert full == Run(tri, avoid, true, thr, s).res && early == Run(tri, avoid, false, thr, s).res;
    KeptSame(full, early, thr, 0);
  }

  lemma {:induction false} KeptSame(res: seq<real>, res': seq<real>, thr: real, from: nat)
    requires |res| == |res'| && from <= |res|
    requires forall v | 0 <= v < |res| :: res[v] >= thr <==> res'[v] >= thr
    ensures Kept(res, thr, from) == Kept(res', thr, from)
    decreases |res| - from
  {
    if from < |res| { KeptSame(res, res', thr, from + 1); }
  }

  lemma {:induction false} NaiveSparse(tri: Triangle, chain: seq<nat>, level: real, js: seq<nat>, res: seq<real>, thr: real)
    requires NaiveRun(tri, chain, level, js) && Increasing(chain)
    requires |chain| >= 2 && chain[0] == 0 && chain[|chain| - 1] == |res| - 1
    requires forall j | 0 <= j < |chain| :: chain[j] < |res|
    ensures var out := NaiveAreas(tri, chain, level, js, res);
            && |out| == |res| && out[0] == res[0] && out[|res| - 1] == res[|res| - 1]
            && |Kept(out, thr, 0)| >= |Kept(res, thr, 0)| - |js|
    decreases |js|
  {
    if js != [] {
      var j := js[0];
      var area := Effective(tri, chain, level, j);
      SkipIncreasing(chain, j);
      assert chain[0] < chain[j] < chain[|chain| - 1];
      NaiveSparse(tri, Without(chain, j), area, js[1..], res[chain[j] := area], thr);
      KeptUpdate(res, chain[j], area, thr, 0);
    }
  }

  lemma {:induction false} KeptUpdate(res: seq<real>, v: nat, area: real, thr: real, from: nat)
    requires v < |res| && from <= |res|
    ensures |Kept(res[v := area], thr, from)| >= |Kept(res, thr, from)| - 1
    ensures from > v ==> Kept(res[v := area], thr, from) == Kept(res, thr, from)
    decreases |res| - from
  {
    if from < |res| { KeptUpdate(res, v, area, thr, from + 1); }
  }

  lemma {:induction false} KeptAll(res: seq<real>, thr: real, from: nat)
    requires from <= |res| && forall v | 0 <= v < |res| :: res[v] >= thr
    ensures |Kept(res, thr, from)| == |res| - from
    decreases |res| - from
  {
    if from < |res| { KeptAll(res, thr, from + 1); }
  }

  /** The end points survive, and so do at least `avoid` vertices of a line that long. */
  lemma EnoughKept(tri: Triangle, n: nat, keys: seq<nat>, avoid: nat, setArea: bool, thr: real)
    requires n >= 2 && Bounded(tri) && StartOrder(tri, n, keys) && thr <= FLT_MAX
    ensures var kept := KeptIndices(Areas(tri, n, keys, avoid, setArea, thr), thr);
            && 0 in kept && n - 1 in kept && |kept| >= 2
            && |kept| >= if avoid <= n then avoid else n
  {
    hide Step, Inv;
    if n == 2 {
      PairAreas(tri, keys, avoid, setArea, thr);
      KeptAll([FLT_MAX, FLT_MAX], thr, 0);
      return;
    }
    StartInv(tri, avoid, n, keys);
    var s, chain := Start(tri, n, keys), Identity(n);
    var js := RunIsNaive(tri, avoid, setArea, thr, s, chain);
    NaiveSparse(tri, chain, 0.0, js, s.res, thr);
    KeptAll(s.res, thr, 0);
  }
}
