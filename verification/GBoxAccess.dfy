/** Getting the box of a serialized geometry: cached, peeked from the bytes, or calculated. */
module GBoxAccess {
  import opened Wrappers
  import opened LwTypes
  import opened Bytes
  import opened Floats
  import opened Geometry
  import opened Gbox
  import opened GSerialized2
  import opened GHeader

  function Double(e: Env, buf: seq<byte>, start: nat, i: nat): real
    requires start + 8 * i + 8 <= |buf|
  {
    e.dbl(buf[start + 8 * i..start + 8 * i + 8])
  }

  /** The extent of one double, or of two that are `nd` apart. */
  function PeekInterval(e: Env, buf: seq<byte>, start: nat, i: nat, nd: nat, two: bool): Interval
    requires start + 8 * i + 8 <= |buf| && (two ==> start + 8 * (i + nd) + 8 <= |buf|)
  {
    var a := Double(e, buf, start, i);
    var b := if two then Double(e, buf, start, i + nd) else a;
    Interval(FpMin(a, b), FpMax(a, b))
  }

  /** The box of the one or two points whose ordinates start at double `i`. */
  function PeekPoints(e: Env, buf: seq<byte>, start: nat, i: nat, z: bool, m: bool, two: bool): Option<GBox> {
    var nd := NDims(z, m);
    if start + 8 * (i + (if two then 2 else 1) * nd) > |buf| then None
    else
      Some(RoundBox(e.grid,
             GBox(PeekInterval(e, buf, start, i, nd, two), PeekInterval(e, buf, start, i + 1, nd, two),
                  if z then Some(PeekInterval(e, buf, start, i + 2, nd, two)) else None,
                  if m then Some(PeekInterval(e, buf, start, i + (if z then 3 else 2), nd, two)) else None)))
  }

  /** A box without building the geometry: points, two-point lines, and multi-types holding one of these. */
  function Peek(e: Env, buf: seq<byte>): Option<GBox> {
    if |buf| < 8 then None
    else
      var f := FlagsByte(buf);
      var start := SizeOfHeader(f);
      if start + 8 > |buf| || IsGeodetic(f) || HasBox(f) then None
      else
        var t, n := ReadU32(buf, start), ReadU32(buf, start + 4);
        if t == POINTTYPE then (if n == 0 then None else PeekPoints(e, buf, start, 1, HasZ(f), HasM(f), false))
        else if t == LINETYPE then (if n != 2 then None else PeekPoints(e, buf, start, 1, HasZ(f), HasM(f), true))
        else if t == MULTIPOINTTYPE then
          if n != 1 || start + 16 > |buf| || ReadU32(buf, start + 12) != 1 then None
          else PeekPoints(e, buf, start, 2, HasZ(f), HasM(f), false)
        else if t == MULTILINETYPE then
          if n != 1 || start + 16 > |buf| || ReadU32(buf, start + 12) != 2 then None
          else PeekPoints(e, buf, start, 2, HasZ(f), HasM(f), true)
        else None
  }

  function RoundOptBox(grid: Grid, b: Option<GBox>): Option<GBox> {
    if b.Some? then Some(RoundBox(grid, b.value)) else None
  }

  /** The box of a Cartesian serialized geometry, by the fastest way that works. */
  function GetBox(e: Env, buf: seq<byte>): Option<GBox>
    requires |buf| >= 8 && |buf| >= SizeOfHeader(FlagsByte(buf))
  {
    if CachedBox(e, buf).Some? then CachedBox(e, buf)
    else if Peek(e, buf).Some? then Peek(e, buf)
    else
      var start, flags, srid := SizeOfHeader(FlagsByte(buf)), ReadFlags(buf), GetSrid(buf[4..7]);
      match Decode(buf, start, flags, srid)
      case Err => None
      case Ok((g, _)) =>
        DecodedIsValid(buf, start, flags, srid);
        RoundOptBox(e.grid, CalculatedBox(e, g))
  }

  /** The box where that takes no more than reading: cached or peeked. */
  function FastBox(e: Env, buf: seq<byte>): Option<GBox>
    requires |buf| >= 8 && |buf| >= SizeOfHeader(FlagsByte(buf))
  {
    if CachedBox(e, buf).Some? then CachedBox(e, buf) else Peek(e, buf)
  }

  // ---------- peeking agrees with calculating ----------

  lemma DoubleIsOrdinate(e: Env, buf: seq<byte>, start: nat, i: nat, pa: PointArray, k: nat, j: nat)
    requires ValidPoints(pa) && k < pa.npoints && j < NDims(pa.z, pa.m) && At(buf, start + 8 * i, pa.data)
    ensures var at := i + k * NDims(pa.z, pa.m) + j;
            start + 8 * at + 8 <= |buf| && Double(e, buf, start, at) == Ordinate(e, pa, k, j)
  {
    hide NDims;
    var nd := NDims(pa.z, pa.m);
    OffsetFits(nd, pa.npoints, k, j);
    AtSlice(buf, start + 8 * i, pa.data, Offset(nd, k, j), 8);
  }

  /** One point, or two: the peeked interval is the extent. */
  lemma PeekIsExtent(e: Env, buf: seq<byte>, start: nat, i: nat, pa: PointArray, j: nat)
    requires ValidPoints(pa) && 1 <= pa.npoints <= 2 && j < NDims(pa.z, pa.m) && At(buf, start + 8 * i, pa.data)
    ensures var nd, two := NDims(pa.z, pa.m), pa.npoints == 2;
            && start + 8 * (i + j) + 8 <= |buf| && (two ==> start + 8 * (i + j + nd) + 8 <= |buf|)
            && PeekInterval(e, buf, start, i + j, nd, two) == Extent(e, pa, j, pa.npoints)
  {
    hide Double, Ordinate, At;
    DoubleIsOrdinate(e, buf, start, i, pa, 0, j);
    if pa.npoints == 2 {
      DoubleIsOrdinate(e, buf, start, i, pa, 1, j);
      assert Extent(e, pa, j, 2) == Extend(Extent(e, pa, j, 1), Ordinate(e, pa, 1, j));
    }
  }

  lemma PeekPointsIsBox(e: Env, buf: seq<byte>, start: nat, i: nat, pa: PointArray)
    requires ValidPoints(pa) && 1 <= pa.npoints <= 2 && At(buf, start + 8 * i, pa.data)
    ensures PeekPoints(e, buf, start, i, pa.z, pa.m, pa.npoints == 2) == RoundOptBox(e.grid, PaBox(e, pa))
  {
    hide PeekInterval, Extent, RoundBox;
    forall j: nat | j < NDims(pa.z, pa.m)
      ensures var nd, two := NDims(pa.z, pa.m), pa.npoints == 2;
              && start + 8 * (i + j) + 8 <= |buf| && (two ==> start + 8 * (i + j + nd) + 8 <= |buf|)
              && PeekInterval(e, buf, start, i + j, nd, two) == Extent(e, pa, j, pa.npoints)
    {
      PeekIsExtent(e, buf, start, i, pa, j);
    }
  }

  /** The flags byte announces an unboxed Cartesian geometry of these dimensions. */
  ghost predicate Plain(buf: seq<byte>, z: bool, m: bool) {
    && |buf| >= 8 && !IsGeodetic(FlagsByte(buf)) && !HasBox(FlagsByte(buf))
    && HasZ(FlagsByte(buf)) == z && HasM(FlagsByte(buf)) == m
  }

  /** A vertex or two: a point, a two-point line, or a multi-type whose only member is one of these. */
  predicate Peekable(g: Geom) {
    match g
    case Simple(_, _, _, t, pa) => (t == POINTTYPE && pa.npoints == 1) || (t == LINETYPE && pa.npoints == 2)
    case Polygon(_, _, _, _) => false
    case Collection(_, _, _, t, geoms) =>
      (t == MULTIPOINTTYPE || t == MULTILINETYPE) && |geoms| == 1 && Peekable(geoms[0])
  }

  lemma PeekSimple(e: Env, buf: seq<byte>, g: Geom)
    requires g.Simple? && ValidGeom(g) && Plain(buf, g.points.z, g.points.m)
    requires At(buf, SizeOfHeader(FlagsByte(buf)), Body(g))
    ensures Peek(e, buf) == if Peekable(g) then RoundOptBox(e.grid, CartesianBox(e, g)) else None
  {
    hide U32, ReadU32, At, PeekPoints, SizeOfHeader, PaBox, HasZ, HasM, HasBox, IsGeodetic, FlagsByte, RoundBox;
    var start, pa := SizeOfHeader(FlagsByte(buf)), g.points;
    HeaderAt(buf, start, g.gtype, pa.npoints, pa.data);
    if Peekable(g) { PeekPointsIsBox(e, buf, start, 1, pa); }
  }

  lemma PeekMulti(e: Env, buf: seq<byte>, g: Geom, pa: PointArray)
    requires g.Collection? && (g.gtype == MULTIPOINTTYPE || g.gtype == MULTILINETYPE) && ValidGeom(g)
    requires |g.geoms| == 1 && g.geoms[0].Simple? && pa == g.geoms[0].points && Plain(buf, pa.z, pa.m)
    requires At(buf, SizeOfHeader(FlagsByte(buf)), Body(g))
    ensures Peek(e, buf) == if Peekable(g) then RoundOptBox(e.grid, CartesianBox(e, g)) else None
  {
    hide U32, ReadU32, At, PeekPoints, SizeOfHeader, PaBox, HasZ, HasM, HasBox, IsGeodetic, FlagsByte, RoundBox;
    var start, part := SizeOfHeader(FlagsByte(buf)), g.geoms[0];
    HeaderAt(buf, start, g.gtype, 1, Bodies(g.geoms));
    assert Bodies(g.geoms) == Body(part);
    HeaderAt(buf, start + 8, part.gtype, pa.npoints, pa.data);
    assert BoxUpto(e, g.geoms, 1) == CartesianBox(e, part);
    assert Peekable(g) == Peekable(part);
    if Peekable(part) { PeekPointsIsBox(e, buf, start, 2, pa); }
  }

  /** A peek succeeds exactly there, and is then the calculated and rounded box. */
  lemma PeekAgrees(e: Env, buf: seq<byte>, g: Geom, z: bool, m: bool)
    requires ValidGeom(g) && Uniform(g, z, m) && Plain(buf, z, m)
    requires At(buf, SizeOfHeader(FlagsByte(buf)), Body(g))
    ensures Peek(e, buf) == if Peekable(g) then RoundOptBox(e.grid, CartesianBox(e, g)) else None
  {
    hide U32, ReadU32, At, PeekPoints, SizeOfHeader, PaBox, HasZ, HasM, HasBox, IsGeodetic, FlagsByte, RoundBox;
    TypeAt(g, buf, SizeOfHeader(FlagsByte(buf)));
    match g
    case Simple(_, _, _, _, _) => PeekSimple(e, buf, g);
    case Polygon(_, _, _, _) =>
    case Collection(_, _, _, t, geoms) =>
      HeaderAt(buf, SizeOfHeader(FlagsByte(buf)), t, |geoms|, Bodies(geoms));
      if (t == MULTIPOINTTYPE || t == MULTILINETYPE) && |geoms| == 1 { PeekMulti(e, buf, g, geoms[0].points); }
  }

  // ---------- all ways agree ----------

  lemma {:induction false} NormalBox(e: Env, g: Geom, flags: LwFlags, srid: int)
    requires ValidGeom(g)
    ensures CartesianBox(e, Normal(g, flags, srid)) == CartesianBox(e, g)
    decreases g, 1
  {
    if g.Collection? { NormalsBox(e, g.geoms, |g.geoms|, flags.(bbox := false), srid); }
  }

  lemma {:induction false} NormalsBox(e: Env, geoms: seq<Geom>, n: nat, flags: LwFlags, srid: int)
    requires n <= |geoms| && forall k | 0 <= k < |geoms| :: ValidGeom(geoms[k])
    ensures BoxUpto(e, Normals(geoms, flags, srid), n) == BoxUpto(e, geoms, n)
    decreases geoms, 0, n
  {
    hide ValidGeom, CartesianBox, Normal, Normals, MergeBox;
    if n > 0 {
      NormalsBox(e, geoms, n - 1, flags, srid);
      NormalsAt(geoms, n - 1, flags, srid);
      NormalBox(e, geoms[n - 1], flags, srid);
    }
  }

  lemma {:induction false} NormalsAt(geoms: seq<Geom>, k: nat, flags: LwFlags, srid: int)
    requires k < |geoms|
    ensures Normals(geoms, flags, srid)[k] == Normal(geoms[k], flags, srid)
  {
    hide Normal;
    if k > 0 { NormalsAt(geoms[1..], k - 1, flags, srid); }
  }

  /** A Cartesian geometry of uniform dimensions that carries no box yet. */
  ghost predicate Unboxed(e: Env, g: Geom) {
    && IsEnv(e) && ArcsFit(e) && ValidGeom(g) && Uniform(g, g.flags.z, g.flags.m)
    && !g.flags.geodetic && g.bbox.None? && TotalSize(Prepared(e, g)) < 0x4000_0000
  }

  lemma PreparedFits(e: Env, g: Geom)
    requires Unboxed(e, g)
    ensures Fits(Prepared(e, g))
  {
    hide IsEnv, CartesianBox, HoldsGeom, ArcsFit;
    BoxHolds(e, g, g.flags.z, g.flags.m, ZeroBox(g.flags));
  }

  /** Nothing but empty parts and circular strings of fewer than three points. */
  predicate Boxless(g: Geom) {
    match g
    case Simple(_, _, _, t, pa) => pa.npoints < (if t == CIRCSTRINGTYPE then 3 else 1)
    case Polygon(_, _, _, rings) => rings == [] || rings[0].npoints == 0
    case Collection(_, _, _, _, geoms) => forall k | 0 <= k < |geoms| :: Boxless(geoms[k])
  }

  /** Exactly these have no box. */
  lemma {:induction false} BoxUnlessBoxless(e: Env, g: Geom)
    requires ValidGeom(g) && ArcsFit(e)
    ensures CartesianBox(e, g).None? <==> Boxless(g)
    decreases g, 1
  {
    if g.Collection? { BoxesUnlessBoxless(e, g.geoms, |g.geoms|); }
  }

  lemma {:induction false} BoxesUnlessBoxless(e: Env, geoms: seq<Geom>, n: nat)
    requires n <= |geoms| && ArcsFit(e) && forall k | 0 <= k < |geoms| :: ValidGeom(geoms[k])
    ensures BoxUpto(e, geoms, n).None? <==> forall k | 0 <= k < n :: Boxless(geoms[k])
    decreases geoms, 0, n
  {
    hide ValidGeom, CartesianBox, Boxless, ArcsFit;
    if n > 0 {
      BoxesUnlessBoxless(e, geoms, n - 1);
      BoxUnlessBoxless(e, geoms[n - 1]);
    }
  }

  /** Not empty, yet without a box: the writer then caches a box of zeros. */
  predicate Unboxable(g: Geom) {
    NeedsBox(g) && !IsEmpty(g) && Boxless(g)
  }

  /** The box of a serialized geometry is the rounded box of the geometry, unless zeros were cached. */
  lemma GetBoxAgrees(e: Env, g: Geom)
    requires Unboxed(e, g)
    ensures Fits(Prepared(e, g))
    ensures var w := Written(e, Prepared(e, g));
            && |w| >= 8 && |w| >= SizeOfHeader(FlagsByte(w))
            && (GetBox(e, w) == RoundOptBox(e.grid, CartesianBox(e, g)) <==> !Unboxable(g))
  {
    hide IsEnv, CartesianBox, ArcsFit, Written, SizeOfHeader, FlagsByte, CachedBox, Peek, Decode, Body, RoundBox,
         ValidGeom, Uniform, ReadFlags, GetSrid, BodySize, Boxless;
    PreparedFits(e, g);
    BoxUnlessBoxless(e, g);
    var p := Prepared(e, g);
    var w := Written(e, p);
    SizeAgrees(e, p);
    HeaderRead(e, p);
    FlagsSurvive(e, p);
    if p.bbox.None? { UncachedAgrees(e, p); }
    SameBox(e, g);
  }

  lemma SameBox(e: Env, g: Geom)
    requires ValidGeom(g)
    ensures CartesianBox(e, Prepared(e, g)) == CartesianBox(e, g)
  {
  }

  lemma UncachedAgrees(e: Env, p: Geom)
    requires IsEnv(e) && Fits(p) && p.bbox.None? && !p.flags.geodetic
    requires var w := Written(e, p); |w| >= 8 && |w| >= SizeOfHeader(FlagsByte(w))
    ensures GetBox(e, Written(e, p)) == RoundOptBox(e.grid, CartesianBox(e, p))
  {
    hide IsEnv, CartesianBox, Written, Peek, Body, RoundBox, ValidGeom, Uniform, BodySize, CachedBox, SizeOfHeader;
    var w := Written(e, p);
    SizeAgrees(e, p);
    HeaderRead(e, p);
    FlagsSurvive(e, p);
    FlagsRead(p.flags);
    PeekAgrees(e, w, p, p.flags.z, p.flags.m);
    if Peek(e, w).None? {
      RoundTrip(p, w, HeaderSize(p.flags), KeptFlags(p.flags), ClampSrid(p.srid));
      NormalBox(e, p, KeptFlags(p.flags), ClampSrid(p.srid));
    }
  }

  // ---------- which geometries have a box at hand ----------

  /** A line of one vertex, alone or as the only member of a multi-line. */
  predicate LoneVertex(g: Geom) {
    match g
    case Simple(_, _, _, t, pa) => t == LINETYPE && pa.npoints == 1
    case Polygon(_, _, _, _) => false
    case Collection(_, _, _, t, geoms) => t == MULTILINETYPE && |geoms| == 1 && LoneVertex(geoms[0])
  }

  /** No box is cached for exactly the non-empty geometries that a peek is meant for. */
  lemma NeedsBoxExactly(g: Geom)
    requires ValidGeom(g)
    ensures !NeedsBox(g) && !IsEmpty(g) <==> Peekable(g) || LoneVertex(g)
    ensures g.Polygon? || (g.Simple? && g.points.npoints > 2) || (g.Collection? && |g.geoms| > 1) ==> NeedsBox(g)
  {
    hide ValidPoints, ValidRings;
    if g.Collection? && |g.geoms| == 1 {
      var part := g.geoms[0];
      assert IsEmpty(g) == IsEmpty(part);
      assert ValidGeom(part) && AllowsSubtype(g.gtype, TypeOf(part));
      assert g.gtype == MULTIPOINTTYPE || g.gtype == MULTILINETYPE ==> Peekable(g) == Peekable(part);
      assert g.gtype == MULTILINETYPE ==> LoneVertex(g) == LoneVertex(part);
    }
  }

  /** Reading alone gives the box of every written geometry, but for empty ones and lines of one vertex. */
  lemma FastExactly(e: Env, g: Geom)
    requires Unboxed(e, g)
    ensures Fits(Prepared(e, g))
    ensures var w := Written(e, Prepared(e, g));
            && |w| >= 8 && |w| >= SizeOfHeader(FlagsByte(w))
            && (FastBox(e, w).None? <==> IsEmpty(g) || LoneVertex(g))
            && (FastBox(e, w).Some? ==> FastBox(e, w) == GetBox(e, w))
  {
    hide IsEnv, CartesianBox, ArcsFit, Written, SizeOfHeader, FlagsByte, CachedBox, Peek, Decode, Body, RoundBox,
         ValidGeom, Uniform, ReadFlags, GetSrid, BodySize, NeedsBox, IsEmpty, Peekable, LoneVertex;
    PreparedFits(e, g);
    var p := Prepared(e, g);
    var w := Written(e, p);
    SizeAgrees(e, p);
    HeaderRead(e, p);
    FlagsSurvive(e, p);
    FlagsRead(p.flags);
    NeedsBoxExactly(g);
    SamePeek(e, g);
    BoxOfPeekable(e, g);
    if p.bbox.None? { PeekAgrees(e, w, p, p.flags.z, p.flags.m); }
  }

  /** A geodetic geometry is never peeked into; where it needs a box, that is the geodetic one, rounded. */
  lemma GeodeticBox(e: Env, g: Geom)
    requires IsEnv(e) && ValidGeom(g) && Fits(Prepared(e, g)) && g.flags.geodetic && g.bbox.None?
    ensures var w := Written(e, Prepared(e, g));
            && |w| >= 8 && |w| >= SizeOfHeader(FlagsByte(w)) && Peek(e, w) == None
            && FastBox(e, w) ==
               if IsEmpty(g) || !NeedsBox(g) then None
               else
                 Some(StoredBox(e.grid, match e.geodeticBox(g) case Some(b) => b case None => ZeroBox(g.flags), true))
  {
    hide IsEnv, CartesianBox, Written, SizeOfHeader, FlagsByte, CachedBox, Body, StoredBox, ValidGeom, Uniform, ReadFlags,
         GetSrid, BodySize, NeedsBox, IsEmpty, ZeroBox, HasBox, IsGeodetic, G2Flags;
    var p := Prepared(e, g);
    SizeAgrees(e, p);
    HeaderRead(e, p);
    FlagsSurvive(e, p);
    FlagsRead(p.flags);
  }

  lemma SamePeek(e: Env, g: Geom)
    requires ValidGeom(g)
    ensures Peekable(Prepared(e, g)) == Peekable(g) && CartesianBox(e, Prepared(e, g)) == CartesianBox(e, g)
  {
  }

  lemma BoxOfPeekable(e: Env, g: Geom)
    requires ValidGeom(g) && ArcsFit(e)
    ensures Peekable(g) ==> CartesianBox(e, g).Some? && !LoneVertex(g)
    ensures LoneVertex(g) ==> !IsEmpty(g)
  {
    hide Extent, ValidPoints, ArcsFit;
    if g.Collection? && |g.geoms| == 1 { assert BoxUpto(e, g.geoms, 1) == CartesianBox(e, g.geoms[0]); }
  }

  /** It holds every vertex within the range of single precision, even where others are beyond. */
  lemma GetBoxHolds(e: Env, g: Geom)
    requires Unboxed(e, g) && !Unboxable(g)
    ensures Fits(Prepared(e, g))
    ensures var w := Written(e, Prepared(e, g));
            && |w| >= 8 && |w| >= SizeOfHeader(FlagsByte(w))
            && (GetBox(e, w).Some? ==> HoldsInRange(e, GetBox(e, w).value, g))
            && (GetBox(e, w).Some? && GeomInRange(e, g) ==> HoldsGeom(e, GetBox(e, w).value, g))
            && (NoArcs(g) ==> (GetBox(e, w).None? <==> IsEmpty(g)))
  {
    hide CartesianBox, GetBox, Written, HoldsGeom, HoldsInRange, GeomInRange, RoundBox, ArcsFit, IsEnv, SizeOfHeader,
         ValidGeom, Uniform;
    GetBoxAgrees(e, g);
    BoxHolds(e, g, g.flags.z, g.flags.m, ZeroBox(g.flags));
    if CartesianBox(e, g).Some? {
      var box := RoundBox(e.grid, CartesianBox(e, g).value);
      RoundHolds(e, CartesianBox(e, g).value, g);
      if GeomInRange(e, g) { AllInRange(e, box, g); }
    }
    if NoArcs(g) { BoxUnlessEmpty(e, g); }
  }

  /** No box of single precision around the geometry is smaller. */
  lemma GetBoxIsLeast(e: Env, g: Geom, c: GBox)
    requires Unboxed(e, g) && !Unboxable(g) && FloatBox(e.grid, c) && Encloses(e, c, g)
    ensures Fits(Prepared(e, g))
    ensures var w := Written(e, Prepared(e, g));
            && |w| >= 8 && |w| >= SizeOfHeader(FlagsByte(w))
            && (GetBox(e, w).Some? ==> FloatBox(e.grid, GetBox(e, w).value) && Within(GetBox(e, w).value, c))
  {
    hide CartesianBox, GetBox, Written, Encloses, RoundBox, ArcsFit, IsGrid, SizeOfHeader, ValidGeom, Uniform, Within,
         FloatBox, Fits, Prepared, TotalSize, Unboxable, FlagsByte;
    GetBoxAgrees(e, g);
    BoxIsLeast(e, g, g.flags.z, g.flags.m, c);
    if CartesianBox(e, g).Some? { RoundIsLeast(e.grid, CartesianBox(e, g).value, c); }
  }

  predicate NoArcs(g: Geom) {
    match g
    case Simple(_, _, _, t, _) => t != CIRCSTRINGTYPE
    case Polygon(_, _, _, _) => true
    case Collection(_, _, _, _, geoms) => forall k | 0 <= k < |geoms| :: NoArcs(geoms[k])
  }

  /** Without arcs, exactly the empty geometries have no box. */
  lemma {:induction false} BoxUnlessEmpty(e: Env, g: Geom)
    requires ValidGeom(g) && NoArcs(g)
    ensures CartesianBox(e, g).None? <==> IsEmpty(g)
    decreases g, 1
  {
    if g.Collection? { BoxesUnlessEmpty(e, g.geoms, |g.geoms|); }
  }

  lemma {:induction false} BoxesUnlessEmpty(e: Env, geoms: seq<Geom>, n: nat)
    requires n <= |geoms| && forall k | 0 <= k < |geoms| :: ValidGeom(geoms[k]) && NoArcs(geoms[k])
    ensures BoxUpto(e, geoms, n).None? <==> forall k | 0 <= k < n :: IsEmpty(geoms[k])
    decreases geoms, 0, n
  {
    hide ValidGeom, CartesianBox, NoArcs, IsEmpty;
    if n > 0 {
      BoxesUnlessEmpty(e, geoms, n - 1);
      BoxUnlessEmpty(e, geoms[n - 1]);
    }
  }

  /** Whatever is read: the rounded box of the geometry, or the zeros cached in its place. */
  function ReadBox(e: Env, g: Geom): Option<GBox>
    requires ValidGeom(g)
  {
    if Unboxable(g) then Some(RoundBox(e.grid, ZeroBox(g.flags))) else RoundOptBox(e.grid, CartesianBox(e, g))
  }

  lemma GetBoxIs(e: Env, g: Geom)
    requires Unboxed(e, g)
    ensures Fits(Prepared(e, g))
    ensures var w := Written(e, Prepared(e, g));
            && |w| >= 8 && |w| >= SizeOfHeader(FlagsByte(w))
            && GetBox(e, w) == ReadBox(e, g)
  {
    hide IsEnv, ArcsFit, Written, SizeOfHeader, Body, RoundBox, BodySize, CachedBox, FlagsByte, CartesianBox, Boxless,
         ValidGeom, Uniform, Peek, Decode;
    GetBoxAgrees(e, g);
    BoxUnlessBoxless(e, g);
    FlagsSurvive(e, Prepared(e, g));
  }

  lemma ZeroStays(e: Env, flags: LwFlags)
    requires IsEnv(e)
    ensures var b := RoundBox(e.grid, ZeroBox(flags));
            && b.x == b.y == RoundInterval(e.grid, Interval(0.0, 0.0))
            && (e.grid.isFloat(0.0) ==> b.x == Interval(0.0, 0.0))
  {
    hide NextFloatDown, NextFloatUp;
    DownIsFloor(e.grid, 0.0);
    UpIsCeiling(e.grid, 0.0);
  }

  /** A circular string of one or two points has no box of its own, so zeros are cached for it. */
  lemma ShortArcCachesZeros(e: Env, g: Geom)
    requires Unboxed(e, g) && g.Simple? && g.gtype == CIRCSTRINGTYPE && 1 <= g.points.npoints <= 2
    ensures Fits(Prepared(e, g)) && Unboxable(g)
    ensures var w := Written(e, Prepared(e, g));
            && |w| >= 8 && |w| >= SizeOfHeader(FlagsByte(w))
            && GetBox(e, w) == Some(RoundBox(e.grid, ZeroBox(g.flags)))
            && GetBox(e, w).value.x == GetBox(e, w).value.y == RoundInterval(e.grid, Interval(0.0, 0.0))
            && (e.grid.isFloat(0.0) ==> GetBox(e, w).value.x == Interval(0.0, 0.0))
  {
    hide IsEnv, ArcsFit, Written, SizeOfHeader, RoundBox, FlagsByte, CartesianBox, GetBox, Fits, BodySize, Prepared;
    GetBoxIs(e, g);
    ZeroStays(e, g.flags);
  }
}
