/** Removing the repeated points of a multipoint: two sweeps over sorted points. */
module Dedup {
  import opened Sorting
  import opened Wrappers

  /** A point of a multipoint; `tag` stands for what the sweep does not look at. */
  datatype Point = Empty(tag: int) | At(x: real, y: real, tag: int)

  function DistanceSq(p: Point, q: Point): real
    requires p.At? && q.At?
  {
    (q.x - p.x) * (q.x - p.x) + (q.y - p.y) * (q.y - p.y)
  }

  function Coordinate(byX: bool, p: Point): real
    requires p.At?
  {
    if byX then p.x else p.y
  }

  /** The order of the comparison functions: by one coordinate, empty points last. */
  predicate Leq(byX: bool, p: Point, q: Point) {
    if p.At? && q.At? then Coordinate(byX, p) <= Coordinate(byX, q) else p.At? || q.Empty?
  }

  function Order(byX: bool): (Point, Point) -> bool {
    (p, q) => Leq(byX, p, q)
  }

  /** Both comparisons order the points by one coordinate, with the empty points last. */
  lemma OrderIsPreorder(byX: bool)
    ensures TotalPreorder(Order(byX))
    ensures forall p: Point, q: Point | p.At? && q.At? :: Order(byX)(p, q) <==> if byX then p.x <= q.x else p.y <= q.y
    ensures forall p: Point, q: Point | p.Empty? && q.At? :: !Order(byX)(p, q)
  {
  }

  // ---------- the net ----------

  /** Two points within a tolerance of each other; none is when the tolerance is negative. */
  predicate Close(p: Point, q: Point, tolerance: real) {
    p.At? && q.At? && tolerance >= 0.0 && DistanceSq(p, q) <= tolerance * tolerance
  }

  predicate Near(kept: seq<Point>, p: Point, tolerance: real) {
    exists k :: 0 <= k < |kept| && Close(kept[k], p, tolerance)
  }

  /** The simple form: take the points one by one, and keep those not near a point already kept. */
  function Greedy(s: seq<Point>, tolerance: real): seq<Point> {
    if s == [] then []
    else
      var n := |s| - 1;
      var kept := Greedy(s[..n], tolerance);
      if s[n].Empty? || Near(kept, s[n], tolerance) then kept else kept + [s[n]]
  }

  /** No point is empty, and no two are close. */
  ghost predicate Spread(s: seq<Point>, tolerance: real) {
    && (forall k | 0 <= k < |s| :: s[k].At?)
    && (forall i, j | 0 <= i < j < |s| :: !Close(s[i], s[j], tolerance))
  }

  lemma {:induction false} GreedySpread(s: seq<Point>, tolerance: real)
    ensures Spread(Greedy(s, tolerance), tolerance)
  {
    hide Close;
    if s != [] { GreedySpread(s[..|s| - 1], tolerance); }
  }

  lemma {:induction false} GreedyIsPart(s: seq<Point>, tolerance: real)
    ensures multiset(Greedy(s, tolerance)) <= multiset(s)
  {
    if s != [] {
      var n := |s| - 1;
      GreedyIsPart(s[..n], tolerance);
      assert s == s[..n] + [s[n]];
    }
  }

  /** Every point left out is empty or near a point kept; with a negative tolerance only empties are. */
  lemma {:induction false} GreedyCovers(s: seq<Point>, tolerance: real, k: nat)
    requires k < |s| && s[k].At?
    ensures s[k] in Greedy(s, tolerance) || Near(Greedy(s, tolerance), s[k], tolerance)
  {
    var n := |s| - 1;
    if k < n {
      GreedyCovers(s[..n], tolerance, k);
      NearGrows(Greedy(s[..n], tolerance), Greedy(s, tolerance), s[k], tolerance);
    }
  }

  lemma NearGrows(kept: seq<Point>, more: seq<Point>, p: Point, tolerance: real)
    requires kept <= more
    ensures Near(kept, p, tolerance) ==> Near(more, p, tolerance)
  {
  }

  /** Spread points are all kept. */
  lemma {:induction false} GreedyKeepsSpread(s: seq<Point>, tolerance: real)
    requires Spread(s, tolerance)
    ensures Greedy(s, tolerance) == s
  {
    hide Close;
    if s != [] {
      var n := |s| - 1;
      GreedyKeepsSpread(s[..n], tolerance);
      assert s == s[..n] + [s[n]];
    }
  }

  lemma SpreadPermuted(s: seq<Point>, t: seq<Point>, tolerance: real)
    requires Spread(s, tolerance) && multiset(s) == multiset(t)
    ensures Spread(t, tolerance)
  {
    forall k | 0 <= k < |t| ensures t[k].At? {
      assert t[k] in multiset(s);
    }
    forall i, j | 0 <= i < j < |t| ensures !Close(t[i], t[j], tolerance) {
      Apart(s, t, tolerance, i, j);
    }
  }

  lemma Apart(s: seq<Point>, t: seq<Point>, tolerance: real, i: nat, j: nat)
    requires Spread(s, tolerance) && multiset(s) == multiset(t) && i < j < |t|
    ensures !Close(t[i], t[j], tolerance)
  {
    assert t[i] in multiset(s) && t[j] in multiset(s);
    if t[i] == t[j] {
      Twice(t, i, j);
      Repeated(s, t[i]);
    }
  }

  lemma Twice(t: seq<Point>, i: nat, j: nat)
    requires i < j < |t| && t[i] == t[j]
    ensures multiset(t)[t[i]] >= 2
  {
    assert t == t[..j] + [t[j]] + t[j + 1..];
    assert t[i] in t[..j];
  }

  lemma {:induction false} Repeated(s: seq<Point>, p: Point)
    requires multiset(s)[p] >= 2
    ensures exists i, j :: 0 <= i < j < |s| && s[i] == p == s[j]
  {
    var n := |s| - 1;
    assert s == s[..n] + [s[n]];
    if multiset(s[..n])[p] >= 2 {
      Repeated(s[..n], p);
    } else {
      assert s[n] == p && p in s[..n];
    }
  }

  // ---------- the sweep over an array with holes ----------

  /** What is left of an array whose removed points are `None`, empty points aside. */
  function Filtered(g: seq<Option<Point>>): (r: seq<Point>)
    ensures |r| <= |g|
  {
    if g == [] then []
    else
      var n := |g| - 1;
      Filtered(g[..n]) + if g[n].Some? && g[n].value.At? then [g[n].value] else []
  }

  /** Slot `i` is done with: later slots close to it are removed. */
  function Knocked(g: seq<Option<Point>>, i: nat, tolerance: real): (r: seq<Option<Point>>)
    requires i < |g| && g[i].Some?
    ensures |r| == |g|
  {
    seq(|g|, k requires 0 <= k < |g| =>
      if i < k && g[k].Some? && Close(g[i].value, g[k].value, tolerance) then None else g[k])
  }

  /** The slot of a point while the points before `i` have been dealt with. */
  function Slot(s: seq<Point>, i: nat, j: nat, tolerance: real): Option<Point>
    requires i <= |s| && j < |s|
  {
    if s[j].At? && Near(Greedy(s[..i], tolerance), s[j], tolerance) then None else Some(s[j])
  }

  /** The first `i` slots hold what the simple form keeps, and the others lack what is near that. */
  ghost predicate Progress(g: seq<Option<Point>>, s: seq<Point>, i: nat, tolerance: real) {
    && i <= |s| == |g|
    && Filtered(g[..i]) == Greedy(s[..i], tolerance)
    && (forall j | i <= j < |s| :: g[j] == Slot(s, i, j, tolerance))
  }

  lemma ProgressStart(g: seq<Option<Point>>, s: seq<Point>, tolerance: real)
    requires |g| == |s| && forall j | 0 <= j < |s| :: g[j] == Some(s[j])
    ensures Progress(g, s, 0, tolerance)
  {
  }

  lemma GreedyNext(s: seq<Point>, i: nat, tolerance: real)
    requires i < |s|
    ensures Greedy(s[..i + 1], tolerance) ==
            Greedy(s[..i], tolerance) + if s[i].At? && Slot(s, i, i, tolerance).Some? then [s[i]] else []
  {
    assert s[..i + 1][..i] == s[..i];
  }

  lemma FilteredNext(g: seq<Option<Point>>, i: nat)
    requires i < |g|
    ensures Filtered(g[..i + 1]) == Filtered(g[..i]) + if g[i].Some? && g[i].value.At? then [g[i].value] else []
  {
    assert g[..i + 1][..i] == g[..i];
  }

  lemma NearNext(kept: seq<Point>, q: Point, p: Point, tolerance: real)
    ensures Near(kept + [q], p, tolerance) <==> Near(kept, p, tolerance) || Close(q, p, tolerance)
  {
    NearGrows(kept, kept + [q], p, tolerance);
    assert (kept + [q])[|kept|] == q;
  }

  /** A slot that is a hole, or an empty point, changes nothing. */
  lemma ProgressSkip(g: seq<Option<Point>>, s: seq<Point>, i: nat, tolerance: real)
    requires Progress(g, s, i, tolerance) && i < |s| && !(g[i].Some? && g[i].value.At?)
    ensures Progress(g, s, i + 1, tolerance)
  {
    hide Greedy, Near, Filtered;
    GreedyNext(s, i, tolerance);
    FilteredNext(g, i);
    assert g[i] == Slot(s, i, i, tolerance);
    assert Greedy(s[..i + 1], tolerance) == Greedy(s[..i], tolerance);
    forall j | i < j < |s| ensures g[j] == Slot(s, i + 1, j, tolerance) {
      assert g[j] == Slot(s, i, j, tolerance);
    }
  }

  lemma ProgressKnock(g: seq<Option<Point>>, s: seq<Point>, i: nat, tolerance: real)
    requires Progress(g, s, i, tolerance) && i < |s| && g[i].Some? && g[i].value.At?
    ensures Progress(Knocked(g, i, tolerance), s, i + 1, tolerance)
  {
    hide Greedy, Near, Close, Filtered;
    GreedyNext(s, i, tolerance);
    FilteredNext(g, i);
    var h := Knocked(g, i, tolerance);
    assert h[..i + 1] == g[..i + 1];
    forall j | i < j < |s| ensures h[j] == Slot(s, i + 1, j, tolerance) {
      NearNext(Greedy(s[..i], tolerance), s[i], s[j], tolerance);
      CloseNeedsPoint(s[i], s[j], tolerance);
    }
  }

  lemma CloseNeedsPoint(p: Point, q: Point, tolerance: real)
    ensures Close(p, q, tolerance) ==> q.At?
  {
  }

  // ---------- the early break ----------

  /** Past a point farther away along the sorted coordinate than the tolerance, nothing is close. */
  lemma BreakSafe(s: seq<Point>, byX: bool, i: nat, j: nat, k: nat, tolerance: real)
    requires Sorted(s, Order(byX)) && i < j <= k < |s| && s[i].At? && s[j].At?
    requires Coordinate(byX, s[j]) - Coordinate(byX, s[i]) > tolerance
    ensures !Close(s[i], s[k], tolerance)
  {
    if tolerance >= 0.0 && s[k].At? {
      if j < k { assert Order(byX)(s[j], s[k]); }
      var p, q := s[i], s[k];
      var d := Coordinate(byX, q) - Coordinate(byX, p);
      SquareGrows(tolerance, d);
      SquarePositive(q.x - p.x);
      SquarePositive(q.y - p.y);
    }
  }

  lemma SquareGrows(t: real, d: real)
    requires 0.0 <= t < d
    ensures t * t < d * d
  {
    SquareOfSum(t, d - t, d);
  }

  lemma SquareOfSum(t: real, e: real, d: real)
    requires 0.0 <= t && 0.0 < e && d == t + e
    ensures t * t < d * d
  {
    assert d * d == t * t + 2.0 * (t * e) + e * e;
    assert t * e >= 0.0 && e * e > 0.0;
  }

  lemma SquarePositive(x: real)
    ensures x * x >= 0.0
  {
  }

  /** Without a break, the squared comparison of the code is the one of the net. */
  lemma NoBreak(s: seq<Point>, byX: bool, i: nat, j: nat, tolerance: real)
    requires Sorted(s, Order(byX)) && i < j < |s| && s[i].At? && s[j].At?
    requires Coordinate(byX, s[j]) - Coordinate(byX, s[i]) <= tolerance
    ensures DistanceSq(s[i], s[j]) <= tolerance * tolerance <==> Close(s[i], s[j], tolerance)
  {
  }

  // ---------- the multipoint ----------

  ghost predicate HasHole(g: seq<Option<Point>>) {
    exists k :: 0 <= k < |g| && g[k].None?
  }

  ghost predicate NewHole(g: seq<Option<Point>>, h: seq<Option<Point>>)
    requires |g| == |h|
  {
    exists k :: 0 <= k < |g| && g[k].Some? && h[k].None?
  }

  lemma HoleStep(g: seq<Option<Point>>, h: seq<Option<Point>>)
    requires |g| == |h| && forall k | 0 <= k < |g| :: h[k] == g[k] || h[k].None?
    ensures HasHole(h) <==> HasHole(g) || NewHole(g, h)
  {
  }

  class MultiPoint {
    const geoms: array<Option<Point>>
    var count: nat

    ghost predicate Valid()
      reads this, geoms
    {
      count <= geoms.Length && forall k | 0 <= k < count :: geoms[k].Some?
    }

    function Points(): (s: seq<Point>)
      requires Valid()
      reads this, geoms
    {
      seq(count, k requires 0 <= k < count reads this, geoms requires Valid() => geoms[k].value)
    }

    constructor (points: seq<Point>)
      ensures Valid() && Points() == points
    {
      geoms := new Option<Point>[|points|](k requires 0 <= k < |points| => Some(points[k]));
      count := |points|;
    }

    /** Takes out the later points within tolerance of the point at `i`, up to the break. */
    method Knock(i: nat, byX: bool, tolerance: real, modified0: bool, ghost s: seq<Point>) returns (modified: bool)
      requires count == |s| <= geoms.Length && Sorted(s, Order(byX))
      requires i < count && geoms[i] == Some(s[i]) && s[i].At?
      requires forall k | i < k < count :: geoms[k].None? || geoms[k] == Some(s[k])
      modifies geoms
      ensures geoms[..count] == Knocked(old(geoms[..count]), i, tolerance)
      ensures modified == (modified0 || NewHole(old(geoms[..count]), geoms[..count]))
    {
      hide Close, DistanceSq;
      modified := modified0;
      var p := geoms[i].value;
      ghost var g := geoms[..count];
      var j := i + 1;
      while j < count
        invariant i < j <= count && count == old(count)
        invariant forall k | 0 <= k < j :: geoms[k] == Knocked(g, i, tolerance)[k]
        invariant forall k | j <= k < count :: geoms[k] == g[k]
        invariant modified == (modified0 || NewHole(g, geoms[..count]))
      {
        CloseNeedsPoint(s[i], s[j], tolerance);
        if geoms[j].Some? && geoms[j].value.At? {
          var q := geoms[j].value;
          if Coordinate(byX, q) - Coordinate(byX, p) > tolerance {
            forall k | j <= k < count ensures !Close(s[i], s[k], tolerance) {
              BreakSafe(s, byX, i, j, k, tolerance);
            }
            break;
          }
          NoBreak(s, byX, i, j, tolerance);
          if DistanceSq(p, q) <= tolerance * tolerance {
            geoms[j] := None;
            modified := true;
            assert geoms[..count][j].None? && g[j].Some?;
          }
        }
        j := j + 1;
      }
    }

    /** Lets every remaining point take out those near it. */
    method KnockAll(byX: bool, tolerance: real, modified0: bool, ghost s: seq<Point>) returns (modified: bool)
      requires Valid() && Points() == s && Sorted(s, Order(byX))
      modifies geoms
      ensures Progress(geoms[..count], s, count, tolerance)
      ensures modified == (modified0 || HasHole(geoms[..count]))
    {
      hide Greedy, Filtered, Sorted;
      modified := modified0;
      ProgressStart(geoms[..count], s, tolerance);
      for i := 0 to count
        invariant count == old(count) && Progress(geoms[..count], s, i, tolerance)
        invariant forall k | 0 <= k < count :: geoms[k].None? || geoms[k] == Some(s[k])
        invariant modified == (modified0 || HasHole(geoms[..count]))
      {
        ghost var g := geoms[..count];
        if geoms[i].None? || geoms[i].value.Empty? {
          ProgressSkip(g, s, i, tolerance);
        } else {
          modified := Knock(i, byX, tolerance, modified, s);
          HoleStep(g, geoms[..count]);
          ProgressKnock(g, s, i, tolerance);
        }
      }
    }

    /** Takes out the empty points. */
    method DropEmpty(modified0: bool) returns (modified: bool)
      requires count <= geoms.Length
      modifies geoms
      ensures forall k | 0 <= k < count :: geoms[k] == Solid(old(geoms[k]))
      ensures modified == (modified0 || NewHole(old(geoms[..count]), geoms[..count]))
    {
      modified := modified0;
      ghost var g := geoms[..count];
      for j := 0 to count
        invariant count == old(count)
        invariant forall k | 0 <= k < j :: geoms[k] == Solid(g[k])
        invariant forall k | j <= k < count :: geoms[k] == g[k]
        invariant modified == (modified0 || NewHole(g, geoms[..count]))
      {
        if geoms[j].Some? && geoms[j].value.Empty? {
          geoms[j] := None;
          modified := true;
          assert geoms[..count][j].None? && g[j].Some?;
        }
      }
    }

    /** Closes the holes. */
    method Compact()
      requires count <= geoms.Length
      requires forall k | 0 <= k < count && geoms[k].Some? :: geoms[k].value.At?
      modifies this, geoms
      ensures Valid() && Points() == Filtered(old(geoms[..count]))
    {
      hide Filtered;
      var i := 0;
      ghost var g := geoms[..count];
      NoneFiltered();
      for j := 0 to count
        invariant count == |g| && i <= j && i == |Filtered(g[..j])|
        invariant forall k | 0 <= k < i :: geoms[k] == Some(Filtered(g[..j])[k])
        invariant forall k | j <= k < count :: geoms[k] == g[k]
      {
        FilteredNext(g, j);
        if geoms[j].Some? {
          geoms[i] := geoms[j];
          i := i + 1;
        }
      }
      assert g[..count] == g;
      count := i;
    }

    /** One round: sort, sweep, drop the holes. */
    method Sweep(byX: bool, tolerance: real, qsort: Sorter<Point>, modified0: bool) returns (modified: bool)
      requires Valid() && IsSorter(qsort)
      modifies this, geoms
      ensures Valid() && Points() == Greedy(qsort(old(Points()), Order(byX)), tolerance)
      ensures modified == (modified0 || |Points()| < |old(Points())|)
    {
      hide Greedy, Filtered, Knocked, Near, Close;
      ghost var before := Points();
      var s := qsort(Points(), Order(byX));
      OrderIsPreorder(byX);
      assert |s| == |multiset(s)| == |multiset(before)| == count;
      for k := 0 to count
        invariant Valid() && count == |before|
        invariant forall m | 0 <= m < k :: geoms[m] == Some(s[m])
      {
        geoms[k] := Some(s[k]);
      }
      assert Points() == s;
      modified := KnockAll(byX, tolerance, modified0, s);
      ghost var g := geoms[..count];
      assert g[..count] == g && s[..count] == s;
      modified := DropEmpty(modified);
      ghost var h := geoms[..count];
      HoleStep(g, h);
      FilteredSolid(g, h);
      Compact();
    }

    /** Both rounds: by y, then by x. */
    method RemoveRepeated(tolerance: real, qsort: Sorter<Point>) returns (modified: bool)
      requires Valid() && IsSorter(qsort)
      modifies this, geoms
      ensures Valid() && Points() == Thinned(old(Points()), tolerance, qsort)
      ensures modified <==> |Points()| < |old(Points())|
    {
      hide Greedy;
      ghost var before := Points();
      modified := Sweep(false, tolerance, qsort, false);
      SecondSweep(before, tolerance, qsort);
      modified := Sweep(true, tolerance, qsort, modified);
    }
  }

  /** What removal leaves: the net of the points sorted by y, sorted by x. */
  function Thinned(s: seq<Point>, tolerance: real, qsort: Sorter<Point>): seq<Point> {
    qsort(Greedy(qsort(s, Order(false)), tolerance), Order(true))
  }

  /** The second round removes nothing. */
  lemma SecondSweep(s: seq<Point>, tolerance: real, qsort: Sorter<Point>)
    requires IsSorter(qsort)
    ensures var once := Greedy(qsort(s, Order(false)), tolerance);
            Greedy(qsort(once, Order(true)), tolerance) == qsort(once, Order(true)) &&
            |qsort(once, Order(true))| == |once| <= |s|
  {
    hide Greedy, Spread;
    OrderIsPreorder(false);
    OrderIsPreorder(true);
    var byY := qsort(s, Order(false));
    var once := Greedy(byY, tolerance);
    GreedySpread(byY, tolerance);
    GreedyIsPart(byY, tolerance);
    var byX := qsort(once, Order(true));
    SpreadPermuted(once, byX, tolerance);
    GreedyKeepsSpread(byX, tolerance);
    assert |byX| == |multiset(byX)| == |multiset(once)| == |once|;
    SubsetSize(multiset(once), multiset(byY));
    assert |once| == |multiset(once)| && |multiset(byY)| == |multiset(s)| == |s|;
  }

  lemma SubsetSize(a: multiset<Point>, b: multiset<Point>)
    requires a <= b
    ensures |a| <= |b|
  {
    assert b == a + (b - a);
  }

  /**
   * The survivors are some of the points, sorted by x and pairwise farther apart than the tolerance;
   * every point that is not empty survives or is within the tolerance of a survivor.
   */
  lemma ThinnedIsNet(s: seq<Point>, tolerance: real, qsort: Sorter<Point>)
    requires IsSorter(qsort)
    ensures var r := Thinned(s, tolerance, qsort);
            && multiset(r) <= multiset(s)
            && Sorted(r, Order(true))
            && Spread(r, tolerance)
            && forall p | p in s && p.At? :: p in r || Near(r, p, tolerance)
  {
    hide Greedy, Spread, Near;
    OrderIsPreorder(false);
    OrderIsPreorder(true);
    var byY := qsort(s, Order(false));
    var once := Greedy(byY, tolerance);
    var r := qsort(once, Order(true));
    GreedySpread(byY, tolerance);
    GreedyIsPart(byY, tolerance);
    SpreadPermuted(once, r, tolerance);
    forall p | p in s && p.At? ensures p in r || Near(r, p, tolerance) {
      assert p in multiset(byY);
      var k :| 0 <= k < |byY| && byY[k] == p;
      GreedyCovers(byY, tolerance, k);
      if p in once { assert p in multiset(r); } else { NearPermuted(once, r, p, tolerance); }
    }
  }

  predicate SamePlace(p: Point, q: Point) {
    p.At? && q.At? && p.x == q.x && p.y == q.y
  }

  /** On a line parallel to an axis it is the difference of one coordinate that counts. */
  lemma CloseOnAxis(p: Point, q: Point, tolerance: real)
    requires p.At? && q.At? && tolerance >= 0.0
    ensures p.y == q.y ==> (Close(p, q, tolerance) <==> p.x - tolerance <= q.x <= p.x + tolerance)
    ensures p.x == q.x ==> (Close(p, q, tolerance) <==> p.y - tolerance <= q.y <= p.y + tolerance)
    ensures DistanceSq(p, q) == DistanceSq(p, At(q.x, p.y, 0)) + DistanceSq(At(q.x, p.y, 0), q)
  {
    SquareWithin(q.x - p.x, tolerance);
    SquareWithin(q.y - p.y, tolerance);
  }

  lemma SquareWithin(d: real, t: real)
    requires t >= 0.0
    ensures d * d <= t * t <==> -t <= d <= t
  {
    assert t * t - d * d == (t - d) * (t + d);
    if d > t || d < -t { SignOfProduct(t - d, t + d); }
  }

  lemma SignOfProduct(a: real, b: real)
    requires (a < 0.0 && b > 0.0) || (a > 0.0 && b < 0.0)
    ensures a * b < 0.0
  {
  }

  /** With no tolerance exactly the repeated points go: every place that occurs is left once. */
  lemma NoTolerance(s: seq<Point>, qsort: Sorter<Point>)
    requires IsSorter(qsort)
    ensures var r := Thinned(s, 0.0, qsort);
            && (forall i, j | 0 <= i < j < |r| :: !SamePlace(r[i], r[j]))
            && (forall p | p in s && p.At? :: exists k :: 0 <= k < |r| && SamePlace(r[k], p))
  {
    hide Thinned, IsSorter, Close;
    var r := Thinned(s, 0.0, qsort);
    ThinnedIsNet(s, 0.0, qsort);
    forall i, j | 0 <= i < j < |r| ensures !SamePlace(r[i], r[j]) { CloseIsSame(r[i], r[j]); }
    forall p | p in s && p.At? ensures exists k :: 0 <= k < |r| && SamePlace(r[k], p) {
      if p in r {
        var k :| 0 <= k < |r| && r[k] == p;
        assert SamePlace(r[k], p);
      } else {
        var k :| 0 <= k < |r| && Close(r[k], p, 0.0);
        CloseIsSame(r[k], p);
      }
    }
  }

  lemma CloseIsSame(p: Point, q: Point)
    ensures Close(p, q, 0.0) <==> SamePlace(p, q)
  {
    hide DistanceSq;
    if p.At? && q.At? {
      NoDistance(p, q);
      assert 0.0 * 0.0 == 0.0;
    }
  }

  lemma NoDistance(p: Point, q: Point)
    requires p.At? && q.At?
    ensures DistanceSq(p, q) <= 0.0 <==> SamePlace(p, q)
  {
    hide DistanceSq, Product;
    DistanceIs(p, q);
    ProductSign(q.x - p.x, q.x - p.x);
    ProductSign(q.y - p.y, q.y - p.y);
  }

  function Product(a: real, b: real): real {
    a * b
  }

  lemma DistanceIs(p: Point, q: Point)
    requires p.At? && q.At?
    ensures DistanceSq(p, q) == Product(q.x - p.x, q.x - p.x) + Product(q.y - p.y, q.y - p.y)
  {
  }

  lemma ProductSign(a: real, b: real)
    ensures a == 0.0 ==> Product(a, b) == 0.0
    ensures (a < 0.0 && b < 0.0) || (a > 0.0 && b > 0.0) ==> Product(a, b) > 0.0
  {
  }

  lemma NearPermuted(s: seq<Point>, t: seq<Point>, p: Point, tolerance: real)
    requires multiset(s) == multiset(t) && Near(s, p, tolerance)
    ensures Near(t, p, tolerance)
  {
    var k :| 0 <= k < |s| && Close(s[k], p, tolerance);
    assert s[k] in multiset(t);
  }

  lemma {:induction false} FilteredSolid(g: seq<Option<Point>>, h: seq<Option<Point>>)
    requires |g| == |h| && forall k | 0 <= k < |g| :: h[k] == Solid(g[k])
    ensures Filtered(h) == Filtered(g)
    ensures |Filtered(h)| < |h| <==> HasHole(h)
  {
    if g != [] {
      var n := |g| - 1;
      FilteredSolid(g[..n], h[..n]);
      assert HasHole(h) <==> HasHole(h[..n]) || h[n].None? by {
        if h[n].Some? && HasHole(h) {
          var k :| 0 <= k < |h| && h[k].None?;
          assert h[..n][k].None?;
        }
      }
    }
  }

  /** The slot without an empty point. */
  function Solid(slot: Option<Point>): Option<Point> {
    if slot.Some? && slot.value.Empty? then None else slot
  }

  lemma NoneFiltered()
    ensures Filtered([]) == []
  {
  }
}
