/**
  The in-place algorithm: arrays of nodes and heap slots, updated step by step.
  Every method is tied to its value-level meaning in `MinHeap` and `Visvalingam`.
 */
module EffectiveArea {
  import opened LwTypes
  import opened Wrappers
  import opened Sorting
  import opened MinHeap
  import opened Visvalingam

  class EffectiveAreas {
    const nodes: array<Node>  // initial_arealist
    const key: array<nat>     // key_array of the heap
    const res: array<real>    // res_arealist
    var used: nat

    constructor (npoints: nat)
      ensures fresh(nodes) && fresh(key) && fresh(res)
      ensures nodes.Length == key.Length == res.Length == npoints
    {
      nodes := new Node[npoints](_ => Node(0.0, 0, 0, 0));
      key := new nat[npoints];
      res := new real[npoints];
      used := 0;
    }

    ghost function Tree(): Heap
      reads this, nodes, key
    {
      Heap(nodes[..], key[..], used)
    }

    method Swap(p: nat, q: nat)
      requires Shape(Tree()) && p < key.Length && q < key.Length
      modifies nodes, key
      ensures Tree() == MinHeap.Swap(old(Tree()), p, q)
    {
      var tmp := key[p];
      key[p] := key[q];
      nodes[key[p]] := nodes[key[p]].(treeindex := p);
      key[q] := tmp;
      nodes[key[q]] := nodes[key[q]].(treeindex := q);
    }

    /** Sift down. */
    method Down(parent: nat)
      requires Shape(Tree()) && parent < key.Length
      modifies nodes, key
      ensures Tree() == MinHeap.Down(old(Tree()), parent) && Shape(Tree())
      decreases if parent < used then used - parent else 0
    {
      var left := 2 * parent + 1;
      var right := left + 1;
      var swap, leftArea, rightArea := parent, 0.0, 0.0;
      var parentArea := nodes[key[parent]].area;
      if left < used {
        leftArea := nodes[key[left]].area;
        if parentArea > leftArea { swap := left; }
      }
      if right < used {
        rightArea := nodes[key[right]].area;
        if rightArea < parentArea && rightArea < leftArea { swap := right; }
      }
      assert swap == SwapIndex(Tree(), parent);
      if swap > parent {
        Swap(parent, swap);
        if swap < used { Down(swap); }
      }
    }

    /** Sift up. */
    method Up(start: nat)
      requires Shape(Tree()) && start < key.Length
      modifies nodes, key
      ensures Tree() == MinHeap.Up(old(Tree()), start) && Shape(Tree())
    {
      var c: nat := start;
      var parent := Parent(c);
      while nodes[key[c]].area < nodes[key[parent]].area
        invariant c < key.Length && parent == Parent(c) && Shape(Tree())
        invariant MinHeap.Up(Tree(), c) == MinHeap.Up(old(Tree()), start)
        decreases c
      {
        Swap(parent, c);
        c := parent;
        parent := Parent(c);
      }
    }

    method Pop() returns (v: nat)
      requires Shape(Tree()) && used > 0
      modifies this, nodes, key
      ensures (v, Tree()) == MinHeap.Pop(old(Tree())) && Shape(Tree())
    {
      v := key[0];
      key[0] := key[used - 1];
      nodes[key[0]] := nodes[key[0]].(treeindex := 0);
      used := used - 1;
      assert Tree() == PopHead(old(Tree()));
      Down(0);
    }

    method Update(idx: nat)
      requires Shape(Tree()) && idx < key.Length
      modifies nodes, key
      ensures Tree() == MinHeap.Update(old(Tree()), idx) && Shape(Tree())
    {
      if nodes[key[idx]].area < nodes[key[Parent(idx)]].area {
        Up(idx);
      } else {
        Down(idx);
      }
    }

    method Reweigh(v: nat, area: real)
      requires Shape(Tree()) && v < nodes.Length
      modifies nodes, key
      ensures Tree() == MinHeap.Reweigh(old(Tree()), v, area) && Shape(Tree())
    {
      nodes[v] := nodes[v].(area := area);
      Update(nodes[v].treeindex);
    }

    ghost function Now(last: real, i: nat): State
      reads this, nodes, key, res
    {
      State(Tree(), res[..], last, i)
    }

    /** The eliminated vertex re-weighs its neighbours and leaves the chain. */
    method EliminateAt(tri: Triangle, current: nat, r: real)
      requires Shape(Tree()) && current < nodes.Length
      modifies nodes, key
      ensures Tree() == Visvalingam.EliminateAt(tri, old(Tree()), current, r)
    {
      hide MinHeap.Reweigh;
      var before, after := nodes[current].prev, nodes[current].next;
      if before > 0 {
        Reweigh(before, FpMax(tri(nodes[before].prev, before, after), r));
      }
      ghost var h1 := Tree();
      assert h1 == ReweighBefore(tri, old(Tree()), before, after, r);
      if after < nodes.Length - 1 {
        Reweigh(after, FpMax(tri(before, after, nodes[after].next), r));
      }
      ghost var h2 := Tree();
      assert h2 == ReweighAfter(tri, h1, before, after, r);
      nodes[before] := nodes[before].(next := nodes[current].next);
      nodes[after] := nodes[after].(prev := nodes[current].prev);
      assert Tree() == Unlink(h2, current, before, after);
    }

    /** One iteration of the loop: eliminate the vertex of smallest area. */
    method Eliminate(tri: Triangle, avoid: nat, i: nat, ghost last: real) returns (r: real)
      requires WellFormed(Now(last, i)) && used > 0
      modifies this, nodes, key, res
      ensures Now(r, i + 1) == Step(tri, avoid, old(Now(last, i)))
    {
      hide MinHeap.Pop, Visvalingam.EliminateAt;
      var current := Pop();
      if i < nodes.Length - avoid {
        r := nodes[current].area;
      } else {
        r := FLT_MAX;
      }
      res[current] := r;
      EliminateAt(tri, current, r);
    }

    /** Areas and links are those of the untouched line, and no area is recorded. */
    ghost predicate Untouched(tri: Triangle, n: nat)
      reads this, nodes, key, res
    {
      && nodes.Length == key.Length == res.Length == n
      && (forall v | 0 <= v < n :: nodes[v].(treeindex := 0) == StartNode(tri, n, v))
      && (forall v | 0 <= v < n :: res[v] == FLT_MAX)
    }

    /** All vertices enter the heap, smallest area first. */
    method FillHeap(tri: Triangle, qsort: Sorter<nat>)
      requires nodes.Length >= 2 && Untouched(tri, nodes.Length) && IsSorter(qsort)
      modifies this, nodes, key
      ensures StartOrder(tri, nodes.Length, StartKeys(tri, nodes.Length, qsort))
      ensures Now(0.0, 0) == Start(tri, nodes.Length, StartKeys(tri, nodes.Length, qsort))
    {
      hide IsSorter;
      var n := nodes.Length;
      for i := 0 to n
        invariant forall k | 0 <= k < i :: key[k] == k
        modifies key
      {
        key[i] := i;
      }
      used := n;
      assert key[..] == Identity(n);
      var sorted := qsort(key[..], AreaOrder(AreasOf(nodes[..])));
      assert AreasOf(nodes[..]) == seq(n, (v: nat) => FirstArea(tri, n, v));
      assert sorted == StartKeys(tri, n, qsort);
      StartKeysOrder(tri, n, qsort);
      PlaceKeys(tri, sorted);
      assert res[..] == seq(n, v => FLT_MAX);
    }

    method PlaceKeys(tri: Triangle, sorted: seq<nat>)
      requires Untouched(tri, nodes.Length) && Permutation(sorted, nodes.Length)
      modifies nodes, key
      ensures key[..] == sorted
      ensures nodes[..] == Placed(seq(nodes.Length, (v: nat) => StartNode(tri, nodes.Length, v)), sorted)
    {
      var n := nodes.Length;
      ghost var start := seq(n, (v: nat) => StartNode(tri, n, v));
      for i := 0 to n
        invariant forall k | 0 <= k < i :: key[k] == sorted[k]
        modifies key
      {
        key[i] := sorted[i];
      }
      for i := 0 to n
        invariant forall v | 0 <= v < n :: nodes[v].(treeindex := 0) == start[v]
        invariant forall k | 0 <= k < i :: nodes[sorted[k]].treeindex == k
        modifies nodes
      {
        nodes[key[i]] := nodes[key[i]].(treeindex := i);
      }
      forall v | 0 <= v < n ensures nodes[v].treeindex == IndexOf(sorted, v) {
        assert nodes[sorted[IndexOf(sorted, v)]].treeindex == IndexOf(sorted, v);
      }
    }

    /** The elimination loop. The order check never fails, and the heap never runs empty. */
    method TuneAreas(tri: Triangle, avoid: nat, setArea: bool, thr: real, qsort: Sorter<nat>)
        returns (wrongOrder: bool)
      requires nodes.Length >= 2 && Untouched(tri, nodes.Length) && Bounded(tri) && IsSorter(qsort)
      modifies this, nodes, key, res
      ensures !wrongOrder
      ensures StartOrder(tri, nodes.Length, StartKeys(tri, nodes.Length, qsort))
      ensures res[..] == Areas(tri, nodes.Length, StartKeys(tri, nodes.Length, qsort), avoid, setArea, thr)
    {
      hide Step, StartKeys, Start, Inv;
      ghost var n := nodes.Length;
      FillHeap(tri, qsort);
      ghost var start, chain := Now(0.0, 0), Identity(n);
      ghost var keys := StartKeys(tri, n, qsort);
      if n == 2 { PairStep(tri, avoid, keys); } else { StartInv(tri, avoid, n, keys); }
      var last, i, goOn := 0.0, 0, true;
      wrongOrder := false;
      while goOn
        invariant WellFormed(Now(last, i)) && !wrongOrder
        invariant goOn && n > 2 ==> Inv(tri, avoid, Now(last, i), chain) && |chain| > 2
        invariant goOn && n == 2 ==> Now(last, i) == start
        invariant goOn ==> Run(tri, avoid, setArea, thr, Now(last, i)) == Run(tri, avoid, setArea, thr, start)
        invariant !goOn ==> Now(last, i) == Run(tri, avoid, setArea, thr, start)
        decreases goOn, used
      {
        ghost var s := Now(last, i);
        ghost var j := 0;
        if n > 2 { j := StepInv(tri, avoid, s, chain); }
        var r := Eliminate(tri, avoid, i, last);
        if r < last { wrongOrder := true; }
        last, i := r, i + 1;
        if n > 2 { chain := Without(chain, j); }
        assert Now(last, i) == Step(tri, avoid, s);
        if n > 2 { InvEnds(tri, avoid, Now(last, i), chain); }
        if (!setArea && r >= thr) || nodes[0].next == nodes.Length - 1 {
          goOn := false;
        }
      }
    }

    /** First areas and links, then the elimination loop. */
    method CalcAreas(tri: Triangle, avoid: nat, setArea: bool, thr: real, qsort: Sorter<nat>)
        returns (wrongOrder: bool)
      requires nodes.Length == key.Length == res.Length >= 2 && Bounded(tri) && IsSorter(qsort)
      modifies this, nodes, key, res
      ensures !wrongOrder
      ensures StartOrder(tri, nodes.Length, StartKeys(tri, nodes.Length, qsort))
      ensures res[..] == Areas(tri, nodes.Length, StartKeys(tri, nodes.Length, qsort), avoid, setArea, thr)
    {
      var n := nodes.Length;
      nodes[0] := Node(FLT_MAX, nodes[0].treeindex, 0, 1);
      res[0], res[n - 1] := FLT_MAX, FLT_MAX;
      for i := 1 to n - 1
        invariant forall v | 0 <= v < i :: nodes[v].(treeindex := 0) == StartNode(tri, n, v)
        modifies nodes
      {
        nodes[i] := Node(tri(i - 1, i, i + 1), nodes[i].treeindex, i - 1, i + 1);
      }
      nodes[n - 1] := Node(FLT_MAX, nodes[n - 1].treeindex, n - 2, n - 1);
      for i := 1 to n - 1
        invariant res[n - 1] == FLT_MAX && forall v | 0 <= v < i :: res[v] == FLT_MAX
        modifies res
      {
        res[i] := FLT_MAX;
      }
      wrongOrder := TuneAreas(tri, avoid, setArea, thr, qsort);
    }
  }

  /** A vertex of the simplified line: where it came from, and its area when asked for. */
  datatype Vertex = Vertex(index: nat, m: Option<real>)

  function Vertices(res: seq<real>, ks: seq<nat>, setArea: bool): (vs: seq<Vertex>)
    requires forall k | 0 <= k < |ks| :: ks[k] < |res|
    ensures |vs| == |ks|
    ensures forall k | 0 <= k < |ks| :: vs[k] == Vertex(ks[k], if setArea then Some(res[ks[k]]) else None)
  {
    seq(|ks|, k requires 0 <= k < |ks| => Vertex(ks[k], if setArea then Some(res[ks[k]]) else None))
  }

  /** The vertices whose effective area reaches the threshold, in their original order. */
  method SetEffectiveArea(tri: Triangle, npoints: nat, avoid: nat, setArea: bool, thr: real, qsort: Sorter<nat>)
      returns (opts: seq<Vertex>)
    requires npoints >= 2 && Bounded(tri) && IsSorter(qsort)
    ensures StartOrder(tri, npoints, StartKeys(tri, npoints, qsort))
    ensures var res := Areas(tri, npoints, StartKeys(tri, npoints, qsort), avoid, setArea, thr);
            opts == Vertices(res, KeptIndices(res, thr), setArea)
  {
    hide StartKeys, StartOrder, Areas, IsSorter;
    var ea := new EffectiveAreas(npoints);
    var wrongOrder := ea.CalcAreas(tri, avoid, setArea, thr, qsort);
    opts := Select(ea.res[..], setArea, thr);
  }

  /** The loop over the recorded areas. */
  method Select(res: seq<real>, setArea: bool, thr: real) returns (opts: seq<Vertex>)
    ensures opts == Vertices(res, KeptIndices(res, thr), setArea)
  {
    hide Kept, Vertices, KeptIndices;
    opts := [];
    ghost var done: seq<nat> := [];
    NoVertices(res, setArea);
    for p := 0 to |res|
      invariant Kept(res, thr, 0) == done + Kept(res, thr, p)
      invariant forall k | 0 <= k < |done| :: done[k] < |res|
      invariant opts == Vertices(res, done, setArea)
    {
      KeptStep(res, thr, p);
      if res[p] >= thr {
        OneMore(res, done, p, setArea);
        assert done + ([p] + Kept(res, thr, p + 1)) == (done + [p]) + Kept(res, thr, p + 1);
        opts := opts + [Vertex(p, if setArea then Some(res[p]) else None)];
        done := done + [p];
      }
    }
    KeptEnd(res, thr);
    KeptIs(res, thr);
    assert done + [] == done;
  }

  lemma KeptIs(res: seq<real>, thr: real)
    ensures KeptIndices(res, thr) == Kept(res, thr, 0)
  {
  }

  lemma KeptStep(res: seq<real>, thr: real, p: nat)
    requires p < |res|
    ensures Kept(res, thr, p) == if res[p] >= thr then [p] + Kept(res, thr, p + 1) else Kept(res, thr, p + 1)
  {
  }

  lemma KeptEnd(res: seq<real>, thr: real)
    ensures Kept(res, thr, |res|) == []
  {
  }

  lemma NoVertices(res: seq<real>, setArea: bool)
    ensures Vertices(res, [], setArea) == []
  {
  }

  lemma OneMore(res: seq<real>, done: seq<nat>, p: nat, setArea: bool)
    requires p < |res| && forall k | 0 <= k < |done| :: done[k] < |res|
    ensures Vertices(res, done + [p], setArea) ==
            Vertices(res, done, setArea) + [Vertex(p, if setArea then Some(res[p]) else None)]
  {
  }

  // ---------- polygons ----------

  /** A ring: its number of vertices and the areas of its triangles. */
  datatype Ring = Ring(npoints: nat, tri: Triangle)

  ghost predicate GoodRings(rings: seq<Ring>) {
    forall k | 0 <= k < |rings| :: rings[k].npoints >= 2 && Bounded(rings[k].tri)
  }

  /** What simplification leaves of one ring. */
  ghost function SimplifiedRing(ring: Ring, avoid: nat, setArea: bool, thr: real, qsort: Sorter<nat>): seq<Vertex>
    requires ring.npoints >= 2 && IsSorter(qsort)
  {
    StartKeysOrder(ring.tri, ring.npoints, qsort);
    var res := Areas(ring.tri, ring.npoints, StartKeys(ring.tri, ring.npoints, qsort), avoid, setArea, thr);
    Vertices(res, KeptIndices(res, thr), setArea)
  }

  /** The rings that survive; only the outer ring, at position 0, is kept from collapsing. */
  ghost function SimplifiedRings(rings: seq<Ring>, upto: nat, setArea: bool, thr: real, qsort: Sorter<nat>)
      : seq<seq<Vertex>>
    requires GoodRings(rings) && IsSorter(qsort) && upto <= |rings|
  {
    if upto == 0 then []
    else
      var ring := SimplifiedRing(rings[upto - 1], if upto == 1 then 4 else 0, setArea, thr, qsort);
      SimplifiedRings(rings, upto - 1, setArea, thr, qsort) + if |ring| >= 4 then [ring] else []
  }

  /** `None` when every ring collapsed. */
  method SimplifyPolygon(rings: seq<Ring>, setArea: bool, thr: real, qsort: Sorter<nat>)
      returns (out: Option<seq<seq<Vertex>>>)
    requires GoodRings(rings) && IsSorter(qsort)
    ensures var all := SimplifiedRings(rings, |rings|, setArea, thr, qsort);
            out == if rings == [] then Some([]) else if all == [] then None else Some(all)
  {
    hide IsSorter, Areas, StartKeys, KeptIndices, Bounded;
    var opoly: seq<seq<Vertex>> := [];
    if rings == [] {
      return Some(opoly);
    }
    var avoid := 4;
    for i := 0 to |rings|
      invariant avoid == if i == 0 then 4 else 0
      invariant opoly == SimplifiedRings(rings, i, setArea, thr, qsort)
    {
      var pa := SetEffectiveArea(rings[i].tri, rings[i].npoints, avoid, setArea, thr, qsort);
      if |pa| >= 4 {
        opoly := opoly + [pa];
      }
      avoid := 0;
    }
    out := if opoly == [] then None else Some(opoly);
  }

  /** Each ring comes out in its turn if four or more of its vertices are left, and is dropped if fewer are. */
  lemma {:induction false} RingStaysExactly(rings: seq<Ring>, upto: nat, k: nat, setArea: bool, thr: real,
                                             qsort: Sorter<nat>)
    requires GoodRings(rings) && IsSorter(qsort) && k < upto <= |rings|
    ensures var all, before, ring := SimplifiedRings(rings, upto, setArea, thr, qsort),
                                     SimplifiedRings(rings, k, setArea, thr, qsort),
                                     SimplifiedRing(rings[k], if k == 0 then 4 else 0, setArea, thr, qsort);
            && before <= all && (|ring| >= 4 ==> |all| > |before| && all[|before|] == ring)
            && (upto == k + 1 && |ring| < 4 ==> all == before)
  {
    hide SimplifiedRing, IsSorter, Bounded;
    if k < upto - 1 {
      RingStaysExactly(rings, upto - 1, k, setArea, thr, qsort);
    }
  }

  ghost function Indices(vs: seq<Vertex>): seq<nat> {
    seq(|vs|, k requires 0 <= k < |vs| => vs[k].index)
  }

  lemma RingSameVertices(ring: Ring, avoid: nat, thr: real, qsort: Sorter<nat>)
    requires ring.npoints >= 2 && Bounded(ring.tri) && IsSorter(qsort)
    ensures Indices(SimplifiedRing(ring, avoid, true, thr, qsort)) ==
            Indices(SimplifiedRing(ring, avoid, false, thr, qsort))
  {
    hide Areas, StartKeys, StartOrder, IsSorter, KeptIndices;
    var keys := StartKeys(ring.tri, ring.npoints, qsort);
    StartKeysOrder(ring.tri, ring.npoints, qsort);
    SameVertices(ring.tri, ring.npoints, keys, avoid, thr);
    forall setArea: bool
      ensures Indices(SimplifiedRing(ring, avoid, setArea, thr, qsort)) ==
              KeptIndices(Areas(ring.tri, ring.npoints, keys, avoid, setArea, thr), thr)
    {
    }
  }

  /** An outer ring of four or more vertices never collapses: it stays first, with at least four. */
  lemma {:induction false} OuterRingStays(rings: seq<Ring>, upto: nat, setArea: bool, thr: real, qsort: Sorter<nat>)
    requires GoodRings(rings) && IsSorter(qsort) && 0 < upto <= |rings|
    requires rings[0].npoints >= 4 && thr <= FLT_MAX
    ensures var all, outer := SimplifiedRings(rings, upto, setArea, thr, qsort),
                              SimplifiedRing(rings[0], 4, setArea, thr, qsort);
            |outer| >= 4 && |all| > 0 && all[0] == outer
  {
    hide Areas, StartKeys, StartOrder, IsSorter, KeptIndices;
    if upto == 1 {
      StartKeysOrder(rings[0].tri, rings[0].npoints, qsort);
      EnoughKept(rings[0].tri, rings[0].npoints,
                 StartKeys(rings[0].tri, rings[0].npoints, qsort), 4, setArea, thr);
      assert SimplifiedRings(rings, 0, setArea, thr, qsort) == [];
    } else {
      OuterRingStays(rings, upto - 1, setArea, thr, qsort);
    }
  }
}
