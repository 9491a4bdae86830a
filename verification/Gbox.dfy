/** Bounding boxes: computing them from vertices, merging them, and rounding them outwards. */
module Gbox {
  import opened Wrappers
  import opened LwTypes
  import opened Bytes
  import opened Floats
  import opened Geometry

  /**
    What the models take as given: the value of an 8-byte ordinate, the 4-byte form of a float,
    and the boxes of circular arcs and of geodetic geometries.
   */
  datatype Env = Env(grid: Grid, dbl: seq<byte> -> real, encode: real -> seq<byte>, decode: seq<byte> -> real,
                     arcBox: PointArray -> Option<GBox>, geodeticBox: Geom -> Option<GBox>)

  ghost predicate IsEnv(e: Env) {
    && IsGrid(e.grid)
    && (forall x :: |e.encode(x)| == 4)
    && (forall x | e.grid.isFloat(x) :: e.decode(e.encode(x)) == x)
  }

  // ---------- vertices ----------

  function Offset(nd: nat, k: nat, j: nat): nat {
    8 * (k * nd + j)
  }

  lemma OffsetFits(nd: nat, n: nat, k: nat, j: nat)
    requires k < n && j < nd
    ensures Offset(nd, k, j) + 8 <= 8 * (n * nd)
  {
    assert (k + 1) * nd <= n * nd;
  }

  /** The ordinates follow one another, point by point. */
  lemma OffsetNext(nd: nat, k: nat, j: nat)
    requires j < nd
    ensures Offset(nd, 0, 0) == 0
    ensures Offset(nd, k, j) + 8 == if j + 1 < nd then Offset(nd, k, j + 1) else Offset(nd, k + 1, 0)
  {
    assert (k + 1) * nd == k * nd + nd;
  }

  /** Ordinate `j` of point `k`. */
  function Ordinate(e: Env, pa: PointArray, k: nat, j: nat): real
    requires ValidPoints(pa) && k < pa.npoints && j < NDims(pa.z, pa.m)
  {
    var nd := NDims(pa.z, pa.m);
    OffsetFits(nd, pa.npoints, k, j);
    e.dbl(pa.data[Offset(nd, k, j)..Offset(nd, k, j) + 8])
  }

  function Extend(i: Interval, v: real): Interval {
    Interval(FpMin(i.lo, v), FpMax(i.hi, v))
  }

  /** The extent of the first `n` points in ordinate `j`. */
  function Extent(e: Env, pa: PointArray, j: nat, n: nat): Interval
    requires ValidPoints(pa) && 0 < n <= pa.npoints && j < NDims(pa.z, pa.m)
  {
    var v := Ordinate(e, pa, n - 1, j);
    if n == 1 then Interval(v, v) else Extend(Extent(e, pa, j, n - 1), v)
  }

  /** The extent is tight: both ends are ordinates, and all ordinates lie between. */
  lemma {:induction false} ExtentTight(e: Env, pa: PointArray, j: nat, n: nat)
    requires ValidPoints(pa) && 0 < n <= pa.npoints && j < NDims(pa.z, pa.m)
    ensures var i := Extent(e, pa, j, n);
            && (exists k: nat :: k < n && Ordinate(e, pa, k, j) == i.lo)
            && (exists k: nat :: k < n && Ordinate(e, pa, k, j) == i.hi)
            && (forall k: nat | k < n :: i.lo <= Ordinate(e, pa, k, j) <= i.hi)
  {
    hide Ordinate, ValidPoints;
    var v: real, lo: nat, hi: nat := Ordinate(e, pa, n - 1, j), n - 1, n - 1;
    if n > 1 {
      ExtentTight(e, pa, j, n - 1);
      var i := Extent(e, pa, j, n - 1);
      if i.lo <= v { lo :| lo < n - 1 && Ordinate(e, pa, lo, j) == i.lo; }
      if i.hi >= v { hi :| hi < n - 1 && Ordinate(e, pa, hi, j) == i.hi; }
    }
    assert lo < n && Ordinate(e, pa, lo, j) == Extent(e, pa, j, n).lo;
    assert hi < n && Ordinate(e, pa, hi, j) == Extent(e, pa, j, n).hi;
  }

  function PaBox(e: Env, pa: PointArray): Option<GBox>
    requires ValidPoints(pa)
  {
    if pa.npoints == 0 then None
    else
      Some(GBox(Extent(e, pa, 0, pa.npoints), Extent(e, pa, 1, pa.npoints),
                if pa.z then Some(Extent(e, pa, 2, pa.npoints)) else None,
                if pa.m then Some(Extent(e, pa, if pa.z then 3 else 2, pa.npoints)) else None))
  }

  /** Folds the first `nd` ordinates of all points. */
  method Fold(e: Env, pa: PointArray, nd: nat) returns (ext: seq<Interval>)
    requires ValidPoints(pa) && pa.npoints > 0 && nd == NDims(pa.z, pa.m)
    ensures |ext| == nd && forall j | 0 <= j < nd :: ext[j] == Extent(e, pa, j, pa.npoints)
  {
    hide Ordinate, ValidPoints;
    ext := seq(nd, j requires 0 <= j < nd => Interval(Ordinate(e, pa, 0, j), Ordinate(e, pa, 0, j)));
    for i := 1 to pa.npoints
      invariant |ext| == nd && forall j | 0 <= j < nd :: ext[j] == Extent(e, pa, j, i)
    {
      ext := seq(nd, j requires 0 <= j < nd => Extend(ext[j], Ordinate(e, pa, i, j)));
    }
  }

  /** Dispatch on the number of ordinates; without Z the third one is M. */
  method CalculateBox(e: Env, pa: PointArray) returns (box: Option<GBox>)
    requires ValidPoints(pa)
    ensures box == PaBox(e, pa)
  {
    if pa.npoints == 0 {
      return None;
    }
    var nd := NDims(pa.z, pa.m);
    var ext := Fold(e, pa, nd);
    if nd == 2 {
      box := Some(GBox(ext[0], ext[1], None, None));
    } else if nd == 3 {
      if pa.z {
        box := Some(GBox(ext[0], ext[1], Some(ext[2]), None));
      } else {
        box := Some(GBox(ext[0], ext[1], None, Some(ext[2])));
      }
    } else {
      box := Some(GBox(ext[0], ext[1], Some(ext[2]), Some(ext[3])));
    }
  }

  // ---------- boxes of geometries ----------

  function Hull(a: Interval, b: Interval): Interval {
    Interval(FpMin(b.lo, a.lo), FpMax(b.hi, a.hi))
  }

  function HullOpt(a: Option<Interval>, b: Option<Interval>): Option<Interval> {
    if a.Some? && b.Some? then Some(Hull(a.value, b.value)) else a
  }

  predicate SameDims(a: GBox, b: GBox) {
    a.z.Some? == b.z.Some? && a.m.Some? == b.m.Some?
  }

  /** Boxes of different dimensions are not merged. */
  function MergeBox(box: GBox, more: GBox): GBox {
    if !SameDims(box, more) then box
    else GBox(Hull(box.x, more.x), Hull(box.y, more.y), HullOpt(box.z, more.z), HullOpt(box.m, more.m))
  }

  function CartesianBox(e: Env, g: Geom): Option<GBox>
    requires ValidGeom(g)
    decreases g, 0
  {
    match g
    case Simple(_, _, _, t, pa) => if t == CIRCSTRINGTYPE then e.arcBox(pa) else PaBox(e, pa)
    case Polygon(_, _, _, rings) => if rings == [] then None else PaBox(e, rings[0])
    case Collection(_, _, _, _, geoms) => BoxUpto(e, geoms, |geoms|)
  }

  function BoxUpto(e: Env, geoms: seq<Geom>, n: nat): Option<GBox>
    requires n <= |geoms| && forall k | 0 <= k < |geoms| :: ValidGeom(geoms[k])
    decreases geoms, n
  {
    if n == 0 then None
    else
      var before, last := BoxUpto(e, geoms, n - 1), CartesianBox(e, geoms[n - 1]);
      if last.None? then before else if before.None? then last else Some(MergeBox(before.value, last.value))
  }

  /** Merges the boxes of the members that have one. */
  method CollectionBox(e: Env, geoms: seq<Geom>) returns (box: Option<GBox>)
    requires forall k | 0 <= k < |geoms| :: ValidGeom(geoms[k])
    ensures box == BoxUpto(e, geoms, |geoms|)
  {
    box := None;
    for i := 0 to |geoms|
      invariant box == BoxUpto(e, geoms, i)
    {
      var sub := CartesianBox(e, geoms[i]);
      if sub.Some? {
        box := if box.None? then sub else Some(MergeBox(box.value, sub.value));
      }
    }
  }

  // ---------- enclosure ----------

  predicate Holds(i: Interval, v: real) {
    i.lo <= v <= i.hi
  }

  /** Every vertex lies in the box, in every dimension. */
  ghost predicate HoldsPoints(e: Env, box: GBox, pa: PointArray)
    requires ValidPoints(pa)
  {
    && box.z.Some? == pa.z && box.m.Some? == pa.m
    && forall k: nat | k < pa.npoints :: HoldsPoint(e, box, pa, k)
  }

  ghost predicate HoldsPoint(e: Env, box: GBox, pa: PointArray, k: nat)
    requires ValidPoints(pa) && k < pa.npoints && box.z.Some? == pa.z && box.m.Some? == pa.m
  {
    && Holds(box.x, Ordinate(e, pa, k, 0)) && Holds(box.y, Ordinate(e, pa, k, 1))
    && (pa.z ==> Holds(box.z.value, Ordinate(e, pa, k, 2)))
    && (pa.m ==> Holds(box.m.value, Ordinate(e, pa, k, if pa.z then 3 else 2)))
  }

  /** The box holds all points, lines, triangles and outer rings; arcs are not looked into. */
  ghost predicate HoldsGeom(e: Env, box: GBox, g: Geom)
    requires ValidGeom(g)
  {
    match g
    case Simple(_, _, _, t, pa) => t != CIRCSTRINGTYPE ==> pa.npoints > 0 ==> HoldsPoints(e, box, pa)
    case Polygon(_, _, _, rings) => rings != [] && rings[0].npoints > 0 ==> HoldsPoints(e, box, rings[0])
    case Collection(_, _, _, _, geoms) => forall k | 0 <= k < |geoms| :: HoldsGeom(e, box, geoms[k])
  }

  ghost predicate WithinInterval(a: Interval, b: Interval) {
    b.lo <= a.lo && a.hi <= b.hi
  }

  ghost predicate Within(a: GBox, b: GBox) {
    && SameDims(a, b) && WithinInterval(a.x, b.x) && WithinInterval(a.y, b.y)
    && (a.z.Some? ==> WithinInterval(a.z.value, b.z.value))
    && (a.m.Some? ==> WithinInterval(a.m.value, b.m.value))
  }

  /** The box holds all vertices that `HoldsGeom` looks at, and the boxes of all arcs. */
  ghost predicate Encloses(e: Env, box: GBox, g: Geom)
    requires ValidGeom(g)
  {
    match g
    case Simple(_, _, _, t, pa) =>
      if t == CIRCSTRINGTYPE then e.arcBox(pa).Some? ==> Within(e.arcBox(pa).value, box)
      else pa.npoints > 0 ==> HoldsPoints(e, box, pa)
    case Polygon(_, _, _, rings) => rings != [] && rings[0].npoints > 0 ==> HoldsPoints(e, box, rings[0])
    case Collection(_, _, _, _, geoms) => forall k | 0 <= k < |geoms| :: Encloses(e, box, geoms[k])
  }

  /** A box holds one ordinate of all points exactly when it contains their extent. */
  lemma ExtentIsLeast(e: Env, pa: PointArray, j: nat, i: Interval)
    requires ValidPoints(pa) && pa.npoints > 0 && j < NDims(pa.z, pa.m)
    ensures (forall k: nat | k < pa.npoints :: Holds(i, Ordinate(e, pa, k, j))) <==>
            WithinInterval(Extent(e, pa, j, pa.npoints), i)
  {
    hide Ordinate, ValidPoints, Extent;
    ExtentTight(e, pa, j, pa.npoints);
  }

  lemma PaBoxIsLeast(e: Env, pa: PointArray, b: GBox)
    requires ValidPoints(pa) && pa.npoints > 0
    ensures HoldsPoints(e, b, pa) <==> Within(PaBox(e, pa).value, b)
  {
    hide Ordinate, ValidPoints, Extent, Holds, WithinInterval;
    ExtentIsLeast(e, pa, 0, b.x);
    ExtentIsLeast(e, pa, 1, b.y);
    if pa.z && b.z.Some? { ExtentIsLeast(e, pa, 2, b.z.value); }
    if pa.m && b.m.Some? { ExtentIsLeast(e, pa, if pa.z then 3 else 2, b.m.value); }
    if HoldsPoints(e, b, pa) {
      forall k: nat | k < pa.npoints
        ensures Holds(b.x, Ordinate(e, pa, k, 0)) && Holds(b.y, Ordinate(e, pa, k, 1))
        ensures pa.z ==> Holds(b.z.value, Ordinate(e, pa, k, 2))
        ensures pa.m ==> Holds(b.m.value, Ordinate(e, pa, k, if pa.z then 3 else 2))
      {
        assert HoldsPoint(e, b, pa, k);
      }
    }
  }

  /** Exactly three points or more have an arc box, and it has the dimensions of the points. */
  ghost predicate ArcsFit(e: Env) {
    && (forall pa :: e.arcBox(pa).Some? <==> pa.npoints >= 3)
    && (forall pa | e.arcBox(pa).Some? ::
          e.arcBox(pa).value.z.Some? == pa.z && e.arcBox(pa).value.m.Some? == pa.m)
  }

  /** What is taken for granted about the environment can be met. */
  lemma EnvExists() returns (e: Env)
    ensures IsEnv(e) && ArcsFit(e)
  {
    GridExists();
    var zero := Interval(0.0, 0.0);
    e := Env(TwoValues(), (b: seq<byte>) => 0.0,
             (x: real) => if x == FLT_MAX then [1, 0, 0, 0] else [0, 0, 0, 0],
             (b: seq<byte>) => if b == [1, 0, 0, 0] then FLT_MAX else -FLT_MAX,
             (pa: PointArray) =>
               if pa.npoints < 3 then None
               else Some(GBox(zero, zero, if pa.z then Some(zero) else None, if pa.m then Some(zero) else None)),
             (g: Geom) => None);
    assert !([0, 0, 0, 0] == [1, 0, 0, 0]) by { assert [0, 0, 0, 0][0] != [1, 0, 0, 0][0]; }
  }

  /** The computed box is the smallest: a box encloses the geometry exactly when it contains the computed one. */
  lemma {:induction false} BoxIsLeast(e: Env, g: Geom, z: bool, m: bool, b: GBox)
    requires ValidGeom(g) && Uniform(g, z, m) && ArcsFit(e)
    ensures match CartesianBox(e, g)
            case Some(c) => c.z.Some? == z && c.m.Some? == m && (Encloses(e, b, g) <==> Within(c, b))
            case None => Encloses(e, b, g)
    decreases g, 1
  {
    hide Extent, HoldsPoints, ValidPoints, WithinInterval;
    match g
    case Simple(_, _, _, _, pa) => if pa.npoints > 0 { PaBoxIsLeast(e, pa, b); }
    case Polygon(_, _, _, rings) => if rings != [] && rings[0].npoints > 0 { PaBoxIsLeast(e, rings[0], b); }
    case Collection(_, _, _, _, geoms) => BoxUptoIsLeast(e, geoms, |geoms|, z, m, b);
  }

  lemma {:induction false} BoxUptoIsLeast(e: Env, geoms: seq<Geom>, n: nat, z: bool, m: bool, b: GBox)
    requires n <= |geoms| && ArcsFit(e)
    requires forall k | 0 <= k < |geoms| :: ValidGeom(geoms[k]) && Uniform(geoms[k], z, m)
    ensures var all := forall k | 0 <= k < n :: Encloses(e, b, geoms[k]);
            match BoxUpto(e, geoms, n)
            case Some(c) => c.z.Some? == z && c.m.Some? == m && (all <==> Within(c, b))
            case None => all
    decreases geoms, 0, n
  {
    hide CartesianBox, Encloses, ValidGeom, Uniform, ArcsFit;
    if n > 0 {
      BoxUptoIsLeast(e, geoms, n - 1, z, m, b);
      BoxIsLeast(e, geoms[n - 1], z, m, b);
    }
  }

  /** Member `k` has a box, and it has these dimensions. */
  ghost predicate BoxedLike(e: Env, geoms: seq<Geom>, k: nat, c: GBox)
    requires k < |geoms| && ValidGeom(geoms[k])
  {
    CartesianBox(e, geoms[k]).Some? && SameDims(CartesianBox(e, geoms[k]).value, c)
  }

  /**
    With members of mixed dimensions, the first that has a box decides on the dimensions, and the box
    is the smallest around those members that share them.
   */
  lemma {:induction false} MixedBox(e: Env, geoms: seq<Geom>, first: nat, n: nat, b: GBox)
    requires first < n <= |geoms| && forall k | 0 <= k < |geoms| :: ValidGeom(geoms[k])
    requires CartesianBox(e, geoms[first]).Some? && forall k | 0 <= k < first :: CartesianBox(e, geoms[k]).None?
    ensures BoxUpto(e, geoms, n).Some?
    ensures var c := BoxUpto(e, geoms, n).value;
            && SameDims(c, CartesianBox(e, geoms[first]).value)
            && (SameDims(b, c) ==>
                  (Within(c, b) <==>
                   forall k: nat | k < n && BoxedLike(e, geoms, k, b) :: Within(CartesianBox(e, geoms[k]).value, b)))
  {
    hide CartesianBox, ValidGeom;
    if n == first + 1 {
      NoBoxYet(e, geoms, first);
    } else {
      MixedBox(e, geoms, first, n - 1, b);
    }
  }

  lemma {:induction false} NoBoxYet(e: Env, geoms: seq<Geom>, n: nat)
    requires n <= |geoms| && forall k | 0 <= k < |geoms| :: ValidGeom(geoms[k])
    requires forall k | 0 <= k < n :: CartesianBox(e, geoms[k]).None?
    ensures BoxUpto(e, geoms, n).None?
  {
    hide CartesianBox, ValidGeom;
    if n > 0 { NoBoxYet(e, geoms, n - 1); }
  }

  lemma {:induction false} EnclosesHolds(e: Env, box: GBox, g: Geom)
    requires ValidGeom(g) && Encloses(e, box, g)
    ensures HoldsGeom(e, box, g)
  {
    hide HoldsPoints, ValidPoints;
    if g.Collection? {
      forall k | 0 <= k < |g.geoms| ensures HoldsGeom(e, box, g.geoms[k]) { EnclosesHolds(e, box, g.geoms[k]); }
    }
  }

  /** The computed box holds the whole geometry; without a box there is nothing to hold. */
  lemma BoxHolds(e: Env, g: Geom, z: bool, m: bool, any: GBox)
    requires ValidGeom(g) && Uniform(g, z, m) && ArcsFit(e)
    ensures match CartesianBox(e, g)
            case Some(b) => HoldsGeom(e, b, g) && b.z.Some? == z && b.m.Some? == m
            case None => HoldsGeom(e, any, g)
  {
    hide CartesianBox, Encloses, HoldsGeom, ValidGeom, Uniform, ArcsFit;
    var b := match CartesianBox(e, g) case Some(c) => c case None => any;
    BoxIsLeast(e, g, z, m, b);
    EnclosesHolds(e, b, g);
  }

  // ---------- rounding ----------

  function RoundInterval(grid: Grid, i: Interval): Interval {
    Interval(NextFloatDown(grid, i.lo), NextFloatUp(grid, i.hi))
  }

  function RoundOpt(grid: Grid, i: Option<Interval>): Option<Interval> {
    if i.Some? then Some(RoundInterval(grid, i.value)) else None
  }

  /** Outward rounding of a Cartesian box. */
  function RoundBox(grid: Grid, b: GBox): GBox {
    GBox(RoundInterval(grid, b.x), RoundInterval(grid, b.y), RoundOpt(grid, b.z), RoundOpt(grid, b.m))
  }

  predicate FloatInterval(grid: Grid, i: Interval) {
    grid.isFloat(i.lo) && grid.isFloat(i.hi)
  }

  /** All sides are representable in single precision. */
  predicate FloatBox(grid: Grid, b: GBox) {
    && FloatInterval(grid, b.x) && FloatInterval(grid, b.y)
    && (b.z.Some? ==> FloatInterval(grid, b.z.value)) && (b.m.Some? ==> FloatInterval(grid, b.m.value))
  }

  lemma RoundIntervalIsLeast(grid: Grid, i: Interval, j: Interval)
    requires IsGrid(grid) && FloatInterval(grid, j)
    ensures FloatInterval(grid, RoundInterval(grid, i))
    ensures WithinInterval(i, j) ==> WithinInterval(RoundInterval(grid, i), j)
  {
    hide IsGrid;
    DownIsFloor(grid, i.lo);
    UpIsCeiling(grid, i.hi);
  }

  /** The rounded box is the smallest of single precision: it lies in every such box around the given one. */
  lemma RoundIsLeast(grid: Grid, b: GBox, c: GBox)
    requires IsGrid(grid) && FloatBox(grid, c) && Within(b, c)
    ensures FloatBox(grid, RoundBox(grid, b)) && Within(RoundBox(grid, b), c)
  {
    hide IsGrid, RoundInterval, FloatInterval, WithinInterval;
    RoundIntervalIsLeast(grid, b.x, c.x);
    RoundIntervalIsLeast(grid, b.y, c.y);
    if b.z.Some? { RoundIntervalIsLeast(grid, b.z.value, c.z.value); }
    if b.m.Some? { RoundIntervalIsLeast(grid, b.m.value, c.m.value); }
  }

  ghost predicate PointInRange(e: Env, pa: PointArray, k: nat)
    requires ValidPoints(pa) && k < pa.npoints
  {
    forall j: nat | j < NDims(pa.z, pa.m) :: InRange(Ordinate(e, pa, k, j))
  }

  /** All ordinates are within the range of single precision. */
  ghost predicate GeomInRange(e: Env, g: Geom)
    requires ValidGeom(g)
  {
    match g
    case Simple(_, _, _, _, pa) => forall k: nat | k < pa.npoints :: PointInRange(e, pa, k)
    case Polygon(_, _, _, rings) =>
      rings != [] ==> forall k: nat | k < rings[0].npoints :: PointInRange(e, rings[0], k)
    case Collection(_, _, _, _, geoms) => forall k | 0 <= k < |geoms| :: GeomInRange(e, geoms[k])
  }

  lemma RoundHoldsValue(grid: Grid, i: Interval, v: real)
    requires IsGrid(grid) && Holds(i, v) && InRange(v)
    ensures Holds(RoundInterval(grid, i), v)
  {
    DownIsFloor(grid, i.lo);
    UpIsCeiling(grid, i.hi);
  }

  lemma RoundHoldsPoint(e: Env, b: GBox, pa: PointArray, k: nat)
    requires IsEnv(e) && ValidPoints(pa) && k < pa.npoints && PointInRange(e, pa, k)
    requires b.z.Some? == pa.z && b.m.Some? == pa.m && HoldsPoint(e, b, pa, k)
    ensures HoldsPoint(e, RoundBox(e.grid, b), pa, k)
  {
    hide RoundInterval, Ordinate, ValidPoints, IsGrid;
    RoundHoldsValue(e.grid, b.x, Ordinate(e, pa, k, 0));
    RoundHoldsValue(e.grid, b.y, Ordinate(e, pa, k, 1));
    if pa.z { RoundHoldsValue(e.grid, b.z.value, Ordinate(e, pa, k, 2)); }
    if pa.m { RoundHoldsValue(e.grid, b.m.value, Ordinate(e, pa, k, if pa.z then 3 else 2)); }
  }

  /** Every vertex within the range of single precision lies in the box. */
  ghost predicate HoldsInRange(e: Env, box: GBox, g: Geom)
    requires ValidGeom(g)
  {
    match g
    case Simple(_, _, _, t, pa) => t != CIRCSTRINGTYPE ==> pa.npoints > 0 ==> HoldsPointsInRange(e, box, pa)
    case Polygon(_, _, _, rings) => rings != [] && rings[0].npoints > 0 ==> HoldsPointsInRange(e, box, rings[0])
    case Collection(_, _, _, _, geoms) => forall k | 0 <= k < |geoms| :: HoldsInRange(e, box, geoms[k])
  }

  ghost predicate HoldsPointsInRange(e: Env, box: GBox, pa: PointArray)
    requires ValidPoints(pa)
  {
    && box.z.Some? == pa.z && box.m.Some? == pa.m
    && forall k: nat | k < pa.npoints && PointInRange(e, pa, k) :: HoldsPoint(e, box, pa, k)
  }

  /** Rounding outwards keeps every vertex within the range of single precision in the box, whatever the others are. */
  lemma {:induction false} RoundHolds(e: Env, b: GBox, g: Geom)
    requires IsEnv(e) && ValidGeom(g) && HoldsGeom(e, b, g)
    ensures HoldsInRange(e, RoundBox(e.grid, b), g)
  {
    hide IsEnv, HoldsPoints, HoldsPointsInRange, RoundBox, ValidPoints;
    match g
    case Simple(_, _, _, t, pa) =>
      if t != CIRCSTRINGTYPE && pa.npoints > 0 { RoundHoldsPoints(e, b, pa); }
    case Polygon(_, _, _, rings) =>
      if rings != [] && rings[0].npoints > 0 { RoundHoldsPoints(e, b, rings[0]); }
    case Collection(_, _, _, _, geoms) =>
      forall k | 0 <= k < |geoms| ensures HoldsInRange(e, RoundBox(e.grid, b), geoms[k]) {
        RoundHolds(e, b, geoms[k]);
      }
  }

  lemma RoundHoldsPoints(e: Env, b: GBox, pa: PointArray)
    requires IsEnv(e) && ValidPoints(pa) && HoldsPoints(e, b, pa)
    ensures HoldsPointsInRange(e, RoundBox(e.grid, b), pa)
  {
    hide IsEnv, PointInRange, HoldsPoint, RoundInterval, ValidPoints;
    forall k: nat | k < pa.npoints && PointInRange(e, pa, k) ensures HoldsPoint(e, RoundBox(e.grid, b), pa, k) {
      RoundHoldsPoint(e, b, pa, k);
    }
  }

  /** With all vertices in range, that is all of the geometry. */
  lemma {:induction false} AllInRange(e: Env, box: GBox, g: Geom)
    requires ValidGeom(g) && GeomInRange(e, g) && HoldsInRange(e, box, g)
    ensures HoldsGeom(e, box, g)
  {
    hide PointInRange, HoldsPoint, ValidPoints;
    if g.Collection? {
      forall k | 0 <= k < |g.geoms| ensures HoldsGeom(e, box, g.geoms[k]) { AllInRange(e, box, g.geoms[k]); }
    }
  }
}
