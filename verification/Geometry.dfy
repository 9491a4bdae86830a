/** The geometry tree that is serialized: flags, point arrays, and nested geometries. */
module Geometry {
  import opened Wrappers
  import opened LwTypes
  import opened Bytes

  datatype LwFlags = LwFlags(z: bool, m: bool, bbox: bool, geodetic: bool, readonly: bool, solid: bool)

  function Bit(b: bool): nat {
    if b then 1 else 0
  }

  function NDims(z: bool, m: bool): nat {
    2 + Bit(z) + Bit(m)
  }

  /** The bytes of `npoints` points; an ordinate is an opaque unit of eight bytes. */
  function PointBytes(npoints: nat, z: bool, m: bool): nat {
    8 * (npoints * NDims(z, m))
  }

  datatype PointArray = PointArray(z: bool, m: bool, npoints: nat, data: seq<byte>)

  predicate ValidPoints(pa: PointArray) {
    pa.npoints < TWO32 && |pa.data| == PointBytes(pa.npoints, pa.z, pa.m)
  }

  predicate ValidRings(rings: seq<PointArray>) {
    forall k {:trigger rings[k]} | 0 <= k < |rings| :: ValidPoints(rings[k])
  }

  predicate UniformRings(rings: seq<PointArray>, z: bool, m: bool) {
    forall k {:trigger rings[k]} | 0 <= k < |rings| :: rings[k].z == z && rings[k].m == m
  }

  datatype Interval = Interval(lo: real, hi: real)

  /** A box has the dimensions that its flags name; the other fields of the C struct are unspecified. */
  datatype GBox = GBox(x: Interval, y: Interval, z: Option<Interval>, m: Option<Interval>)

  datatype Geom =
    | Simple(flags: LwFlags, srid: int, bbox: Option<GBox>, gtype: nat, points: PointArray)
    | Polygon(flags: LwFlags, srid: int, bbox: Option<GBox>, rings: seq<PointArray>)
    | Collection(flags: LwFlags, srid: int, bbox: Option<GBox>, gtype: nat, geoms: seq<Geom>)

  function TypeOf(g: Geom): nat {
    if g.Polygon? then POLYGONTYPE else g.gtype
  }

  /** Types stored as one array of points. */
  predicate IsSimple(t: nat) {
    t == POINTTYPE || t == LINETYPE || t == TRIANGLETYPE || t == CIRCSTRINGTYPE
  }

  predicate AllowsSubtype(coll: nat, sub: nat) {
    || coll == COLLECTIONTYPE
    || (coll == MULTIPOINTTYPE && sub == POINTTYPE)
    || (coll == MULTILINETYPE && sub == LINETYPE)
    || (coll == MULTIPOLYGONTYPE && sub == POLYGONTYPE)
    || (coll == COMPOUNDTYPE && (sub == LINETYPE || sub == CIRCSTRINGTYPE))
    || (coll == CURVEPOLYTYPE && (sub == CIRCSTRINGTYPE || sub == LINETYPE || sub == COMPOUNDTYPE))
    || (coll == MULTICURVETYPE && (sub == CIRCSTRINGTYPE || sub == LINETYPE || sub == COMPOUNDTYPE))
    || (coll == MULTISURFACETYPE && (sub == POLYGONTYPE || sub == CURVEPOLYTYPE))
    || (coll == POLYHEDRALSURFACETYPE && sub == POLYGONTYPE)
    || (coll == TINTYPE && sub == TRIANGLETYPE)
  }

  /** Points, curves and surfaces. */
  function Dimension(t: nat): nat {
    if t == POINTTYPE || t == MULTIPOINTTYPE then 0
    else if t in {LINETYPE, MULTILINETYPE, CIRCSTRINGTYPE, COMPOUNDTYPE, MULTICURVETYPE} then 1
    else 2
  }

  /** The type codes are those of the serialized form. */
  lemma TypeCodes(t: nat)
    ensures IsSimple(t) <==> t in {1, 2, 8, 14}
    ensures IsCollection(t) <==> 4 <= t <= 15 && t != 8 && t != 14
    ensures CollectionType(t) ==
            if 1 <= t <= 3 then t + 3 else if t == 8 || t == 9 then 11 else if t == 10 then 12 else if t == 14 then 15 else 7
  {
  }

  /** A collection of one type can be made of it, and the collections are the types that can hold something. */
  lemma CollectionsHold(t: nat)
    ensures AllowsSubtype(CollectionType(t), t)
    ensures IsCollection(t) <==> exists sub: nat :: AllowsSubtype(t, sub)
  {
    if IsCollection(t) {
      var sub := if t == MULTIPOINTTYPE then POINTTYPE
                 else if t in {MULTILINETYPE, COMPOUNDTYPE, CURVEPOLYTYPE, MULTICURVETYPE} then LINETYPE
                 else if t == TINTYPE then TRIANGLETYPE else POLYGONTYPE;
      assert AllowsSubtype(t, sub);
    }
  }

  /** What a typed collection can hold, by code. */
  lemma MembersAre(t: nat, sub: nat)
    requires t != 7
    ensures AllowsSubtype(t, sub) <==>
            (t, sub) in {(4, 1), (5, 2), (6, 3), (9, 2), (9, 8), (10, 2), (10, 8), (10, 9), (11, 2), (11, 8), (11, 9),
                         (12, 3), (12, 10), (13, 3), (15, 14)}
  {
  }

  /** Members have the dimension of their collection, but for the rings of a curve polygon, and are no multi-types. */
  lemma MembersFit(t: nat, sub: nat)
    requires AllowsSubtype(t, sub) && t != COLLECTIONTYPE
    ensures Dimension(sub) == if t == CURVEPOLYTYPE then 1 else Dimension(t)
    ensures IsCollection(sub) ==> sub == COMPOUNDTYPE || sub == CURVEPOLYTYPE
    ensures t in {MULTIPOINTTYPE, MULTILINETYPE, MULTIPOLYGONTYPE} ==> sub + 3 == t
    ensures t == TINTYPE <==> sub == TRIANGLETYPE
  {
  }

  /** Point counts fit their fields, and a point has at most one vertex. */
  predicate ValidGeom(g: Geom) {
    match g
    case Simple(_, _, _, t, pa) => IsSimple(t) && ValidPoints(pa) && (t == POINTTYPE ==> pa.npoints <= 1)
    case Polygon(_, _, _, rings) => |rings| < TWO32 && ValidRings(rings)
    case Collection(_, _, _, t, geoms) =>
      && IsCollection(t) && |geoms| < TWO32
      && forall k | 0 <= k < |geoms| :: ValidGeom(geoms[k]) && AllowsSubtype(t, TypeOf(geoms[k]))
  }

  /** All parts carry the same Z and M flags. */
  predicate Uniform(g: Geom, z: bool, m: bool) {
    && g.flags.z == z && g.flags.m == m
    && match g
       case Simple(_, _, _, _, pa) => pa.z == z && pa.m == m
       case Polygon(_, _, _, rings) => UniformRings(rings, z, m)
       case Collection(_, _, _, _, geoms) => forall k | 0 <= k < |geoms| :: Uniform(geoms[k], z, m)
  }
}
