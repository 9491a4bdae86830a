/**
  The indexed min-heap behind Visvalingam-Whyatt simplification.

  Every vertex of the input owns one `Node`; `key` holds vertex indices in heap
  order and every node remembers, in `treeindex`, the slot it occupies. The
  functions below are the value-level meaning of the in-place operations of
  `EffectiveArea.EffectiveAreas`.
 */
module MinHeap {

  datatype Node = Node(area: real, treeindex: nat, prev: nat, next: nat)

  datatype Heap = Heap(nodes: seq<Node>, key: seq<nat>, used: nat)

  /** All stored indices are in range: enough for every operation to be defined. */
  ghost predicate Shape(h: Heap) {
    && |h.key| == |h.nodes|
    && h.used <= |h.key|
    && (forall k | 0 <= k < |h.key| :: h.key[k] < |h.nodes|)
    && (forall v {:trigger h.nodes[v].treeindex} | 0 <= v < |h.nodes| :: h.nodes[v].treeindex < |h.nodes|)
    && (forall v {:trigger h.nodes[v].prev} | 0 <= v < |h.nodes| :: h.nodes[v].prev < |h.nodes|)
    && (forall v {:trigger h.nodes[v].next} | 0 <= v < |h.nodes| :: h.nodes[v].next < |h.nodes|)
  }

  /** Every heap member's back-pointer is its own slot. */
  ghost predicate Indexed(h: Heap) {
    && Shape(h)
    && forall k | 0 <= k < h.used :: h.nodes[h.key[k]].treeindex == k
  }

  function Area(h: Heap, k: nat): real
    requires k < |h.key| && h.key[k] < |h.nodes|
  {
    h.nodes[h.key[k]].area
  }

  /** C's truncating `(k-1)/2`: the root is its own parent. */
  function Parent(k: nat): nat {
    if k == 0 then 0 else (k - 1) / 2
  }

  /** The areas in slot order. */
  ghost function Weights(h: Heap): (w: seq<real>)
    requires Shape(h)
    ensures |w| == h.used && forall k | 0 <= k < h.used :: w[k] == Area(h, k)
  {
    seq(h.used, k requires 0 <= k < h.used => Area(h, k))
  }

  ghost predicate HeapOrdered(w: seq<real>) {
    forall k | 0 < k < |w| :: w[Parent(k)] <= w[k]
  }

  ghost predicate Ordered(h: Heap)
    requires Shape(h)
  {
    HeapOrdered(Weights(h))
  }

  /** Vertex `v` is in the heap. */
  ghost predicate In(h: Heap, v: nat)
    requires Shape(h)
  {
    v < |h.nodes| && h.nodes[v].treeindex < h.used && h.key[h.nodes[v].treeindex] == v
  }

  /** Only slots were permuted: same members, same areas, same links. */
  ghost predicate Permuted(h: Heap, h': Heap)
    requires Shape(h) && Shape(h')
  {
    && |h'.nodes| == |h.nodes|
    && h'.used == h.used
    && (forall v {:trigger h'.nodes[v].area} | 0 <= v < |h.nodes| :: h'.nodes[v].area == h.nodes[v].area)
    && (forall v {:trigger h'.nodes[v].prev} | 0 <= v < |h.nodes| :: h'.nodes[v].prev == h.nodes[v].prev)
    && (forall v {:trigger h'.nodes[v].next} | 0 <= v < |h.nodes| :: h'.nodes[v].next == h.nodes[v].next)
    && (forall v: nat | v < |h.nodes| :: In(h', v) <==> In(h, v))
  }

  lemma PermutedReflexive(h: Heap)
    requires Shape(h)
    ensures Permuted(h, h)
  {
  }

  lemma PermutedTransitive(h0: Heap, h1: Heap, h2: Heap)
    requires Shape(h0) && Shape(h1) && Shape(h2) && Permuted(h0, h1) && Permuted(h1, h2)
    ensures Permuted(h0, h2)
  {
  }

  function Swap(h: Heap, p: nat, q: nat): (h': Heap)
    requires Shape(h) && p < |h.key| && q < |h.key|
    ensures Shape(h')
  {
    var up, down := h.key[q], h.key[p];
    var nodes := h.nodes[up := h.nodes[up].(treeindex := p)];
    Heap(nodes[down := nodes[down].(treeindex := q)], h.key[p := up][q := down], h.used)
  }

  lemma SwapPermutes(h: Heap, p: nat, q: nat)
    requires Indexed(h) && p < q < h.used
    ensures Indexed(Swap(h, p, q)) && Permuted(h, Swap(h, p, q))
    ensures Weights(Swap(h, p, q)) == Exchange(Weights(h), p, q)
  {
    assert h.key[p] != h.key[q];
    var h' := Swap(h, p, q);
    forall k | 0 <= k < h.used ensures h'.nodes[h'.key[k]].treeindex == k {
    }
  }

  ghost function Exchange(w: seq<real>, p: nat, q: nat): seq<real>
    requires p < |w| && q < |w|
  {
    w[p := w[q]][q := w[p]]
  }

  /** The child that `down` would swap with `p`, or `p` when it stays. */
  function SwapIndex(h: Heap, p: nat): (c: nat)
    requires Shape(h) && p < |h.key|
    ensures c == p || p < c < h.used
  {
    var left := 2 * p + 1;
    var right := left + 1;
    var leftArea := if left < h.used then Area(h, left) else 0.0;
    var c := if left < h.used && Area(h, p) > leftArea then left else p;
    if right < h.used && Area(h, right) < Area(h, p) && Area(h, right) < leftArea then right else c
  }

  function Down(h: Heap, p: nat): (h': Heap)
    requires Shape(h) && p < |h.key|
    ensures Shape(h')
    decreases if p < h.used then h.used - p else 0
  {
    var c := SwapIndex(h, p);
    if c > p then Down(Swap(h, p, c), c) else h
  }

  function Up(h: Heap, c: nat): (h': Heap)
    requires Shape(h) && c < |h.key|
    ensures Shape(h')
    decreases c
  {
    if Area(h, c) < Area(h, Parent(c)) then Up(Swap(h, Parent(c), c), Parent(c)) else h
  }

  /** Heap order everywhere, except that `p` may be larger than its children. */
  ghost predicate OrderedAbove(w: seq<real>, p: nat) {
    && (forall k | 0 < k < |w| && Parent(k) != p :: w[Parent(k)] <= w[k])
    && (forall k | 0 < k < |w| && Parent(k) == p && 0 < p :: w[Parent(p)] <= w[k])
  }

  /** Heap order everywhere, except that `c` may be smaller than its parent. */
  ghost predicate OrderedBelow(w: seq<real>, c: nat) {
    && (forall k | 0 < k < |w| && k != c :: w[Parent(k)] <= w[k])
    && (forall k | 0 < k < |w| && Parent(k) == c :: w[Parent(c)] <= w[k])
  }

  lemma SinkStep(w: seq<real>, p: nat, c: nat)
    requires OrderedAbove(w, p) && p < c < |w| && Parent(c) == p && w[c] <= w[p]
    requires forall k | 0 < k < |w| && Parent(k) == p :: w[c] <= w[k]
    ensures OrderedAbove(Exchange(w, p, c), c)
  {
  }

  lemma RiseStep(w: seq<real>, c: nat)
    requires c < |w| && OrderedBelow(w, c) && w[c] < w[Parent(c)]
    ensures OrderedBelow(Exchange(w, Parent(c), c), Parent(c))
  {
    var p := Parent(c);
    var w' := Exchange(w, p, c);
    forall k | 0 < k < |w'| && Parent(k) == p ensures w'[Parent(p)] <= w'[k] {
      if 0 < p { assert w[Parent(p)] <= w[p]; }
    }
  }

  lemma SwapIndexIsSmallest(h: Heap, p: nat)
    requires Shape(h) && p < h.used
    ensures var w, c := Weights(h), SwapIndex(h, p);
            && (c != p ==> Parent(c) == p && w[c] < w[p])
            && (forall k | 0 < k < |w| && Parent(k) == p :: w[c] <= w[k])
  {
  }

  lemma {:induction false} DownRestores(h: Heap, p: nat)
    requires Indexed(h) && p < |h.key| && OrderedAbove(Weights(h), p)
    ensures Indexed(Down(h, p)) && Ordered(Down(h, p)) && Permuted(h, Down(h, p))
    decreases if p < h.used then h.used - p else 0
  {
    hide Swap, Permuted;
    var c := SwapIndex(h, p);
    if p < h.used { SwapIndexIsSmallest(h, p); }
    if c > p {
      SwapPermutes(h, p, c);
      SinkStep(Weights(h), p, c);
      DownRestores(Swap(h, p, c), c);
      PermutedTransitive(h, Swap(h, p, c), Down(h, p));
    } else {
      PermutedReflexive(h);
    }
  }

  lemma {:induction false} UpRestores(h: Heap, c: nat)
    requires Indexed(h) && c < h.used && OrderedBelow(Weights(h), c)
    ensures Indexed(Up(h, c)) && Ordered(Up(h, c)) && Permuted(h, Up(h, c))
    decreases c
  {
    hide Swap, Permuted;
    var p := Parent(c);
    if Area(h, c) < Area(h, p) {
      SwapPermutes(h, p, c);
      RiseStep(Weights(h), c);
      UpRestores(Swap(h, p, c), p);
      PermutedTransitive(h, Swap(h, p, c), Up(h, c));
    } else {
      PermutedReflexive(h);
    }
  }

  /** The root of an ordered heap is a global minimum. */
  lemma {:induction false} RootIsMin(w: seq<real>, k: nat)
    requires HeapOrdered(w) && k < |w|
    ensures w[0] <= w[k]
  {
    if k > 0 { RootIsMin(w, Parent(k)); }
  }

  /** `minheap_pop`: the root leaves, the last slot takes its place and sifts down. */
  function Pop(h: Heap): (r: (nat, Heap))
    requires Shape(h) && h.used > 0
    ensures r.0 < |h.nodes| && Shape(r.1) && r.1.used == h.used - 1 && |r.1.nodes| == |h.nodes|
  {
    DownKeepsSize(PopHead(h), 0);
    (h.key[0], Down(PopHead(h), 0))
  }

  function PopHead(h: Heap): (h': Heap)
    requires Shape(h) && h.used > 0
    ensures Shape(h')
  {
    var last := h.key[h.used - 1];
    Heap(h.nodes[last := h.nodes[last].(treeindex := 0)], h.key[0 := last], h.used - 1)
  }

  lemma {:induction false} DownKeepsSize(h: Heap, p: nat)
    requires Shape(h) && p < |h.key|
    ensures Down(h, p).used == h.used && |Down(h, p).nodes| == |h.nodes|
    decreases if p < h.used then h.used - p else 0
  {
    var c := SwapIndex(h, p);
    if c > p { DownKeepsSize(Swap(h, p, c), c); }
  }

  lemma {:induction false} UpKeepsSize(h: Heap, c: nat)
    requires Shape(h) && c < |h.key|
    ensures Up(h, c).used == h.used && |Up(h, c).nodes| == |h.nodes|
    decreases c
  {
    if Area(h, c) < Area(h, Parent(c)) { UpKeepsSize(Swap(h, Parent(c), c), Parent(c)); }
  }

  /** Popping removes exactly one member, of globally smallest area, and keeps the heap. */
  lemma PopTakesMin(h: Heap)
    requires Indexed(h) && Ordered(h) && h.used > 0
    ensures var (v, h') := Pop(h);
            && Indexed(h') && Ordered(h') && In(h, v)
            && (forall u: nat | In(h, u) :: h.nodes[v].area <= h.nodes[u].area)
            && (forall u: nat | u < |h.nodes| :: In(h', u) <==> In(h, u) && u != v)
            && (forall u {:trigger h'.nodes[u].area} | 0 <= u < |h.nodes| :: h'.nodes[u].area == h.nodes[u].area)
            && (forall u {:trigger h'.nodes[u].prev} | 0 <= u < |h.nodes| :: h'.nodes[u].prev == h.nodes[u].prev)
            && (forall u {:trigger h'.nodes[u].next} | 0 <= u < |h.nodes| :: h'.nodes[u].next == h.nodes[u].next)
  {
    var v := h.key[0];
    forall u: nat | In(h, u) ensures h.nodes[v].area <= h.nodes[u].area {
      RootIsMin(Weights(h), h.nodes[u].treeindex);
    }
    PopHeadKeeps(h);
    DownRestores(PopHead(h), 0);
  }

  lemma PopHeadKeeps(h: Heap)
    requires Indexed(h) && Ordered(h) && h.used > 0
    ensures var g := PopHead(h);
            && Indexed(g) && OrderedAbove(Weights(g), 0)
            && (forall u: nat | u < |h.nodes| :: In(g, u) <==> In(h, u) && u != h.key[0])
  {
    var g, last := PopHead(h), h.key[h.used - 1];
    assert h.nodes[last].treeindex == h.used - 1;
    assert forall k | 0 < k < g.used :: Weights(g)[k] == Weights(h)[k];
  }

  /** `minheap_update`: slot `idx` changed its area; sift it the way it has to go. */
  function Update(h: Heap, idx: nat): (h': Heap)
    requires Shape(h) && idx < |h.key|
    ensures Shape(h') && h'.used == h.used && |h'.nodes| == |h.nodes|
  {
    UpKeepsSize(h, idx);
    DownKeepsSize(h, idx);
    if Area(h, idx) < Area(h, Parent(idx)) then Up(h, idx) else Down(h, idx)
  }

  /** Gives vertex `v` a new area and repairs the heap at its slot. */
  function Reweigh(h: Heap, v: nat, area: real): (h': Heap)
    requires Shape(h) && v < |h.nodes|
    ensures Shape(h') && h'.used == h.used && |h'.nodes| == |h.nodes|
  {
    Update(h.(nodes := h.nodes[v := h.nodes[v].(area := area)]), h.nodes[v].treeindex)
  }

  lemma ReweighRestores(h: Heap, v: nat, area: real)
    requires Indexed(h) && Ordered(h) && In(h, v)
    ensures var h' := Reweigh(h, v, area);
            && Indexed(h') && Ordered(h')
            && h'.nodes[v].area == area
            && (forall u: nat | u < |h.nodes| :: In(h', u) <==> In(h, u))
            && (forall u {:trigger h'.nodes[u].area} | 0 <= u < |h.nodes| && u != v :: h'.nodes[u].area == h.nodes[u].area)
            && (forall u {:trigger h'.nodes[u].prev} | 0 <= u < |h.nodes| :: h'.nodes[u].prev == h.nodes[u].prev)
            && (forall u {:trigger h'.nodes[u].next} | 0 <= u < |h.nodes| :: h'.nodes[u].next == h.nodes[u].next)
  {
    hide Weights, HeapOrdered, Update;
    SetAreaKeeps(h, v, area);
    UpdateRestores(h.(nodes := h.nodes[v := h.nodes[v].(area := area)]), h.nodes[v].treeindex, Weights(h));
  }

  /** One slot of an ordered heap changed: sifting it restores the order. */
  lemma UpdateRestores(g: Heap, idx: nat, w: seq<real>)
    requires Indexed(g) && idx < g.used && |w| == g.used && HeapOrdered(w)
    requires Weights(g) == w[idx := Area(g, idx)]
    ensures var h' := Update(g, idx); Indexed(h') && Ordered(h') && Permuted(g, h')
  {
    hide Permuted;
    ChangeOne(w, idx, Area(g, idx));
    if Area(g, idx) < Area(g, Parent(idx)) {
      UpRestores(g, idx);
    } else {
      DownRestores(g, idx);
    }
  }

  lemma SetAreaKeeps(h: Heap, v: nat, area: real)
    requires Indexed(h) && In(h, v)
    ensures var g := h.(nodes := h.nodes[v := h.nodes[v].(area := area)]);
            && Indexed(g) && Weights(g) == Weights(h)[h.nodes[v].treeindex := area]
            && (forall u: nat | u < |h.nodes| :: In(g, u) <==> In(h, u))
  {
  }

  lemma ChangeOne(w: seq<real>, idx: nat, area: real)
    requires HeapOrdered(w) && idx < |w|
    ensures var w' := w[idx := area];
            if area < w'[Parent(idx)] then OrderedBelow(w', idx) else OrderedAbove(w', idx)
  {
  }
}
