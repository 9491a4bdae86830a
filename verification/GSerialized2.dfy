/** Version 2 of the serialized form: sizes, the encoding of the body, and reading it back. */
module GSerialized2 {
  import opened Wrappers
  import opened LwTypes
  import opened Bytes
  import opened Geometry

  // ---------- declared sizes ----------

  function BodySize(g: Geom): nat {
    match g
    case Simple(flags, _, _, _, pa) => 8 + PointBytes(pa.npoints, flags.z, flags.m)
    case Polygon(flags, _, _, rings) =>
      8 + (if |rings| % 2 == 1 then 4 else 0) + RingsSize(rings, flags.z, flags.m)
    case Collection(_, _, _, _, geoms) => 8 + BodySizes(geoms)
  }

  function RingsSize(rings: seq<PointArray>, z: bool, m: bool): nat {
    if rings == [] then 0 else 4 + PointBytes(rings[0].npoints, z, m) + RingsSize(rings[1..], z, m)
  }

  function BodySizes(geoms: seq<Geom>): nat {
    if geoms == [] then 0 else BodySize(geoms[0]) + BodySizes(geoms[1..])
  }

  // ---------- the bytes of the body ----------

  function Counts(rings: seq<PointArray>): (e: seq<byte>)
    requires ValidRings(rings)
    ensures |e| == 4 * |rings|
  {
    if rings == [] then [] else U32(rings[0].npoints) + Counts(rings[1..])
  }

  function Ordinates(rings: seq<PointArray>): seq<byte> {
    if rings == [] then [] else rings[0].data + Ordinates(rings[1..])
  }

  function Padding(nrings: nat): seq<byte> {
    if nrings % 2 == 1 then [0, 0, 0, 0] else []
  }

  function Body(g: Geom): seq<byte>
    requires ValidGeom(g)
  {
    match g
    case Simple(_, _, _, t, pa) => U32(t) + U32(pa.npoints) + pa.data
    case Polygon(_, _, _, rings) =>
      U32(POLYGONTYPE) + U32(|rings|) + (Counts(rings) + Padding(|rings|) + Ordinates(rings))
    case Collection(_, _, _, t, geoms) => U32(t) + U32(|geoms|) + Bodies(geoms)
  }

  function Bodies(geoms: seq<Geom>): seq<byte>
    requires forall k | 0 <= k < |geoms| :: ValidGeom(geoms[k])
  {
    if geoms == [] then [] else Body(geoms[0]) + Bodies(geoms[1..])
  }

  /** For uniform dimensions the declared size is the number of bytes, a multiple of eight. */
  lemma {:induction false} SizeIsLength(g: Geom, z: bool, m: bool)
    requires ValidGeom(g) && Uniform(g, z, m)
    ensures BodySize(g) == |Body(g)| && Aligned(|Body(g)|)
    decreases g, 1
  {
    hide NDims, U32, Aligned;
    AlignedTimes(1);
    match g
    case Simple(_, _, _, _, pa) =>
      AlignedTimes(pa.npoints * NDims(z, m));
      AlignedAdd(8, |pa.data|);
    case Polygon(_, _, _, rings) =>
      RingsLength(rings, z, m);
      PaddedLength(rings);
    case Collection(_, _, _, _, geoms) =>
      SizesAreLength(geoms, z, m);
      AlignedAdd(8, |Bodies(geoms)|);
  }

  /** The padding is four zero bytes after an odd number of counts. */
  lemma PaddingIsZero(g: Geom, k: nat)
    requires g.Polygon? && ValidGeom(g) && 8 + 4 * |g.rings| <= k < 8 + 4 * |g.rings| + 4 && |g.rings| % 2 == 1
    ensures k < |Body(g)| && Body(g)[k] == 0
  {
    hide U32, ValidRings;
  }

  lemma PaddedLength(rings: seq<PointArray>)
    requires ValidRings(rings)
    requires Aligned(|Ordinates(rings)|)
    ensures Aligned(8 + |Counts(rings)| + |Padding(|rings|)| + |Ordinates(rings)|)
  {
    hide Aligned, U32;
    var half := (|rings| + 1) / 2;
    assert 8 + |Counts(rings)| + |Padding(|rings|)| == 8 * (half + 1);
    AlignedTimes(half + 1);
    AlignedAdd(8 * (half + 1), |Ordinates(rings)|);
  }

  lemma {:induction false} SizesAreLength(geoms: seq<Geom>, z: bool, m: bool)
    requires forall k | 0 <= k < |geoms| :: ValidGeom(geoms[k]) && Uniform(geoms[k], z, m)
    ensures BodySizes(geoms) == |Bodies(geoms)| && Aligned(|Bodies(geoms)|)
    decreases geoms, 0
  {
    hide ValidGeom, Uniform, Aligned;
    AlignedTimes(0);
    if geoms != [] {
      SizeIsLength(geoms[0], z, m);
      SizesAreLength(geoms[1..], z, m);
      AlignedAdd(|Body(geoms[0])|, |Bodies(geoms[1..])|);
    }
  }

  lemma {:induction false} RingsLength(rings: seq<PointArray>, z: bool, m: bool)
    requires ValidRings(rings) && UniformRings(rings, z, m)
    ensures RingsSize(rings, z, m) == 4 * |rings| + |Ordinates(rings)|
    ensures Aligned(|Ordinates(rings)|)
  {
    hide NDims, Aligned;
    AlignedTimes(0);
    if rings != [] {
      RingsLength(rings[1..], z, m);
      AlignedTimes(rings[0].npoints * NDims(z, m));
      AlignedAdd(|rings[0].data|, |Ordinates(rings[1..])|);
    }
  }

  // ---------- reading the body back ----------

  /**
    Reads one geometry: the geometry and the position after it. The C code does not check
    bounds; here reading past the end is an error.
   */
  function Decode(buf: seq<byte>, pos: nat, flags: LwFlags, srid: int): (r: Result<(Geom, nat)>)
    ensures r.Ok? ==> pos + 8 <= r.value.1 <= |buf|
    decreases |buf| - pos, 1, 0
  {
    if pos + 8 > |buf| then Err
    else
      var t := ReadU32(buf, pos);
      if IsSimple(t) then DecodeSimple(buf, pos, flags, srid, t)
      else if t == POLYGONTYPE then DecodePolygon(buf, pos, flags, srid)
      else if IsCollection(t) then
        var n := ReadU32(buf, pos + 4);
        match DecodeMany(buf, pos + 8, t, n, flags.(bbox := false), srid)
        case Ok((geoms, next)) => Ok((Collection(flags, srid, None, t, geoms), next))
        case Err => Err
      else Err
  }

  function DecodeSimple(buf: seq<byte>, pos: nat, flags: LwFlags, srid: int, t: nat): (r: Result<(Geom, nat)>)
    requires pos + 8 <= |buf|
    ensures r.Ok? ==> pos + 8 <= r.value.1 <= |buf|
  {
    var npoints := ReadU32(buf, pos + 4);
    var next := pos + 8 + PointBytes(npoints, flags.z, flags.m);
    if next > |buf| then Err
    else
      var count := if t == POINTTYPE && npoints > 0 then 1 else npoints;
      PointBytesMonotone(count, npoints, flags.z, flags.m);
      var data := buf[pos + 8..pos + 8 + PointBytes(count, flags.z, flags.m)];
      Ok((Simple(flags, srid, None, t, PointArray(flags.z, flags.m, count, data)), next))
  }

  lemma PointBytesMonotone(a: nat, b: nat, z: bool, m: bool)
    requires a <= b
    ensures PointBytes(a, z, m) <= PointBytes(b, z, m)
  {
  }

  function DecodePolygon(buf: seq<byte>, pos: nat, flags: LwFlags, srid: int): (r: Result<(Geom, nat)>)
    requires pos + 8 <= |buf|
    ensures r.Ok? ==> pos + 8 <= r.value.1 <= |buf|
  {
    var nrings := ReadU32(buf, pos + 4);
    var ordinates := pos + 8 + 4 * nrings + if nrings % 2 == 1 then 4 else 0;
    match DecodeRings(buf, pos + 8, ordinates, nrings, flags.z, flags.m)
    case Ok((rings, next)) => Ok((Polygon(flags, srid, None, rings), next))
    case Err => Err
  }

  /** Two moving positions: one over the counts, one over the ordinates. */
  function DecodeRings(buf: seq<byte>, counts: nat, ordinates: nat, n: nat, z: bool, m: bool)
      : (r: Result<(seq<PointArray>, nat)>)
    ensures r.Ok? ==> ordinates <= r.value.1 <= |buf| && |r.value.0| == n
    decreases n
  {
    if n == 0 then (if ordinates <= |buf| then Ok(([], ordinates)) else Err)
    else if counts + 4 > |buf| then Err
    else
      var npoints := ReadU32(buf, counts);
      var next := ordinates + PointBytes(npoints, z, m);
      if next > |buf| then Err
      else
        match DecodeRings(buf, counts + 4, next, n - 1, z, m)
        case Ok((rings, end)) => Ok(([PointArray(z, m, npoints, buf[ordinates..next])] + rings, end))
        case Err => Err
  }

  function DecodeMany(buf: seq<byte>, pos: nat, t: nat, n: nat, flags: LwFlags, srid: int)
      : (r: Result<(seq<Geom>, nat)>)
    ensures r.Ok? ==> pos <= r.value.1 <= |buf| && |r.value.0| == n
    decreases |buf| - pos, 2, n
  {
    if n == 0 then (if pos <= |buf| then Ok(([], pos)) else Err)
    else if pos + 4 > |buf| || !AllowsSubtype(t, ReadU32(buf, pos)) then Err
    else
      match Decode(buf, pos, flags, srid)
      case Ok((g, next)) =>
        (match DecodeMany(buf, next, t, n - 1, flags, srid)
         case Ok((geoms, end)) => Ok(([g] + geoms, end))
         case Err => Err)
      case Err => Err
  }

  /** What reading gives back: the flags and SRID of the whole, no boxes on the parts. */
  function Normal(g: Geom, flags: LwFlags, srid: int): (n: Geom)
    ensures TypeOf(n) == TypeOf(g) && (ValidGeom(g) ==> ValidGeom(n))
    decreases g, 1
  {
    match g
    case Simple(_, _, _, t, pa) => Simple(flags, srid, None, t, pa)
    case Polygon(_, _, _, rings) => Polygon(flags, srid, None, rings)
    case Collection(_, _, _, t, geoms) => Collection(flags, srid, None, t, Normals(geoms, flags.(bbox := false), srid))
  }

  function Normals(geoms: seq<Geom>, flags: LwFlags, srid: int): (ns: seq<Geom>)
    ensures |ns| == |geoms|
    ensures forall k | 0 <= k < |geoms| ::
              TypeOf(ns[k]) == TypeOf(geoms[k]) && (ValidGeom(geoms[k]) ==> ValidGeom(ns[k]))
    decreases geoms, 0
  {
    if geoms == [] then [] else [Normal(geoms[0], flags, srid)] + Normals(geoms[1..], flags, srid)
  }

  /** Reading what was written returns the same tree and stops exactly behind it. */
  lemma {:induction false} RoundTrip(g: Geom, buf: seq<byte>, pos: nat, flags: LwFlags, srid: int)
    requires ValidGeom(g) && Uniform(g, flags.z, flags.m) && At(buf, pos, Body(g))
    ensures Decode(buf, pos, flags, srid) == Ok((Normal(g, flags, srid), pos + |Body(g)|))
    decreases g, 1
  {
    hide U32, ReadU32, At, NDims;
    match g
    case Simple(_, _, _, t, pa) => RoundTripSimple(g, buf, pos, flags, srid);
    case Polygon(_, _, _, rings) => RoundTripPolygon(g, buf, pos, flags, srid);
    case Collection(_, _, _, t, geoms) =>
      HeaderAt(buf, pos, t, |geoms|, Bodies(geoms));
      RoundTrips(geoms, buf, pos + 8, t, flags.(bbox := false), srid);
  }

  lemma RoundTripSimple(g: Geom, buf: seq<byte>, pos: nat, flags: LwFlags, srid: int)
    requires g.Simple? && ValidGeom(g) && Uniform(g, flags.z, flags.m) && At(buf, pos, Body(g))
    ensures Decode(buf, pos, flags, srid) == Ok((Normal(g, flags, srid), pos + |Body(g)|))
  {
    hide U32, ReadU32, NDims;
    HeaderAt(buf, pos, g.gtype, g.points.npoints, g.points.data);
  }

  lemma RoundTripPolygon(g: Geom, buf: seq<byte>, pos: nat, flags: LwFlags, srid: int)
    requires g.Polygon? && ValidGeom(g) && Uniform(g, flags.z, flags.m) && At(buf, pos, Body(g))
    ensures Decode(buf, pos, flags, srid) == Ok((Normal(g, flags, srid), pos + |Body(g)|))
  {
    hide U32, ReadU32, At, NDims, DecodeRings, Counts, Ordinates, PointBytes;
    var rings := g.rings;
    var head := Counts(rings) + Padding(|rings|);
    HeaderAt(buf, pos, POLYGONTYPE, |rings|, head + Ordinates(rings));
    AtConcat(buf, pos + 8, head, Ordinates(rings));
    AtConcat(buf, pos + 8, Counts(rings), Padding(|rings|));
    RoundTripRings(rings, buf, pos + 8, pos + 8 + |head|, flags.z, flags.m);
  }

  lemma HeaderAt(buf: seq<byte>, pos: nat, t: nat, n: nat, rest: seq<byte>)
    requires t < TWO32 && n < TWO32 && At(buf, pos, U32(t) + U32(n) + rest)
    ensures pos + 8 + |rest| <= |buf| && ReadU32(buf, pos) == t && ReadU32(buf, pos + 4) == n
    ensures At(buf, pos + 8, rest)
  {
    hide U32, ReadU32;
    AtConcat(buf, pos, U32(t) + U32(n), rest);
    AtConcat(buf, pos, U32(t), U32(n));
    AtU32(buf, pos, t);
    AtU32(buf, pos + 4, n);
  }

  lemma {:induction false} RoundTripRings(rings: seq<PointArray>, buf: seq<byte>, counts: nat, ordinates: nat, z: bool, m: bool)
    requires ValidRings(rings) && UniformRings(rings, z, m)
    requires At(buf, counts, Counts(rings)) && At(buf, ordinates, Ordinates(rings))
    ensures DecodeRings(buf, counts, ordinates, |rings|, z, m) == Ok((rings, ordinates + |Ordinates(rings)|))
  {
    hide U32, ReadU32, NDims, PointBytes, DecodeRings;
    if rings == [] {
      NoRings(buf, counts, ordinates, z, m);
    } else {
      AtConcat(buf, counts, U32(rings[0].npoints), Counts(rings[1..]));
      AtU32(buf, counts, rings[0].npoints);
      AtConcat(buf, ordinates, rings[0].data, Ordinates(rings[1..]));
      RoundTripRings(rings[1..], buf, counts + 4, ordinates + |rings[0].data|, z, m);
      FirstRing(rings[0], rings[1..], buf, counts, ordinates, |rings|, ordinates + |Ordinates(rings)|);
      assert rings == [rings[0]] + rings[1..];
    }
  }

  lemma NoRings(buf: seq<byte>, counts: nat, ordinates: nat, z: bool, m: bool)
    requires ordinates <= |buf|
    ensures DecodeRings(buf, counts, ordinates, 0, z, m) == Ok(([], ordinates))
  {
  }

  lemma FirstRing(ring: PointArray, rest: seq<PointArray>, buf: seq<byte>, counts: nat, ordinates: nat, n: nat, end: nat)
    requires n > 0 && ValidPoints(ring) && At(buf, ordinates, ring.data)
    requires counts + 4 <= |buf| && ReadU32(buf, counts) == ring.npoints
    requires DecodeRings(buf, counts + 4, ordinates + |ring.data|, n - 1, ring.z, ring.m) == Ok((rest, end))
    ensures DecodeRings(buf, counts, ordinates, n, ring.z, ring.m) == Ok(([ring] + rest, end))
  {
  }

  lemma {:induction false} RoundTrips(geoms: seq<Geom>, buf: seq<byte>, pos: nat, t: nat, flags: LwFlags, srid: int)
    requires forall k | 0 <= k < |geoms| ::
               ValidGeom(geoms[k]) && Uniform(geoms[k], flags.z, flags.m) && AllowsSubtype(t, TypeOf(geoms[k]))
    requires At(buf, pos, Bodies(geoms))
    ensures DecodeMany(buf, pos, t, |geoms|, flags, srid) == Ok((Normals(geoms, flags, srid), pos + |Bodies(geoms)|))
    decreases geoms, 0
  {
    hide U32, ReadU32, NDims, ValidGeom, Uniform, AllowsSubtype, TypeOf, Body, Normal;
    if geoms != [] {
      var g, rest := geoms[0], geoms[1..];
      AtConcat(buf, pos, Body(g), Bodies(rest));
      RoundTrip(g, buf, pos, flags, srid);
      TypeAt(g, buf, pos);
      RoundTrips(rest, buf, pos + |Body(g)|, t, flags, srid);
      DecodeManyStep(buf, pos, t, |geoms|, flags, srid);
    }
  }

  lemma DecodeManyStep(buf: seq<byte>, pos: nat, t: nat, n: nat, flags: LwFlags, srid: int)
    requires n > 0 && pos + 4 <= |buf| && AllowsSubtype(t, ReadU32(buf, pos)) && Decode(buf, pos, flags, srid).Ok?
    requires DecodeMany(buf, Decode(buf, pos, flags, srid).value.1, t, n - 1, flags, srid).Ok?
    ensures var (g, next) := Decode(buf, pos, flags, srid).value;
            var (gs, end) := DecodeMany(buf, next, t, n - 1, flags, srid).value;
            DecodeMany(buf, pos, t, n, flags, srid) == Ok(([g] + gs, end))
  {
  }

  lemma TypeAt(g: Geom, buf: seq<byte>, pos: nat)
    requires ValidGeom(g) && At(buf, pos, Body(g))
    ensures pos + 4 <= |buf| && ReadU32(buf, pos) == TypeOf(g)
  {
    hide U32, ReadU32, At, NDims;
    match g
    case Simple(_, _, _, t, pa) => HeaderAt(buf, pos, t, pa.npoints, pa.data);
    case Polygon(_, _, _, rings) =>
      HeaderAt(buf, pos, POLYGONTYPE, |rings|, Counts(rings) + Padding(|rings|) + Ordinates(rings));
    case Collection(_, _, _, t, geoms) => HeaderAt(buf, pos, t, |geoms|, Bodies(geoms));
  }

  /** Whatever can be read is a valid geometry of uniform dimensions. */
  lemma {:induction false} DecodedIsValid(buf: seq<byte>, pos: nat, flags: LwFlags, srid: int)
    requires Decode(buf, pos, flags, srid).Ok?
    ensures var g := Decode(buf, pos, flags, srid).value.0;
            ValidGeom(g) && Uniform(g, flags.z, flags.m) && TypeOf(g) == ReadU32(buf, pos)
    decreases |buf| - pos, 1, 0
  {
    hide ReadU32, NDims;
    var t := ReadU32(buf, pos);
    if IsSimple(t) {
      DecodedSimpleIsValid(buf, pos, flags, srid, t);
    } else if t == POLYGONTYPE {
      hide ValidPoints, DecodeRings;
      var n := ReadU32(buf, pos + 4);
      DecodedRingsAreValid(buf, pos + 8, pos + 8 + 4 * n + (if n % 2 == 1 then 4 else 0), n, flags.z, flags.m);
    } else {
      DecodedAreValid(buf, pos + 8, t, ReadU32(buf, pos + 4), flags.(bbox := false), srid);
    }
  }

  lemma DecodedSimpleIsValid(buf: seq<byte>, pos: nat, flags: LwFlags, srid: int, t: nat)
    requires pos + 8 <= |buf| && IsSimple(t) && DecodeSimple(buf, pos, flags, srid, t).Ok?
    ensures var g := DecodeSimple(buf, pos, flags, srid, t).value.0; ValidGeom(g) && Uniform(g, flags.z, flags.m)
  {
  }

  lemma {:induction false} DecodedRingsAreValid(buf: seq<byte>, counts: nat, ordinates: nat, n: nat, z: bool, m: bool)
    requires DecodeRings(buf, counts, ordinates, n, z, m).Ok?
    ensures var rings := DecodeRings(buf, counts, ordinates, n, z, m).value.0;
            ValidRings(rings) && UniformRings(rings, z, m)
    decreases n
  {
    hide ReadU32, NDims;
    if n > 0 {
      DecodedRingsAreValid(buf, counts + 4, ordinates + PointBytes(ReadU32(buf, counts), z, m), n - 1, z, m);
    }
  }

  lemma {:induction false} DecodedAreValid(buf: seq<byte>, pos: nat, t: nat, n: nat, flags: LwFlags, srid: int)
    requires DecodeMany(buf, pos, t, n, flags, srid).Ok?
    ensures forall k | 0 <= k < n ::
              var g := DecodeMany(buf, pos, t, n, flags, srid).value.0[k];
              ValidGeom(g) && Uniform(g, flags.z, flags.m) && AllowsSubtype(t, TypeOf(g))
    decreases |buf| - pos, 2, n
  {
    hide ReadU32, NDims, ValidGeom, Uniform, AllowsSubtype;
    if n > 0 {
      DecodedIsValid(buf, pos, flags, srid);
      var next := Decode(buf, pos, flags, srid).value.1;
      DecodedAreValid(buf, next, t, n - 1, flags, srid);
    }
  }
}
