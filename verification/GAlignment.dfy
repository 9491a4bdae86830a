/** Where the parts of a serialized geometry start. */
module GAlignment {
  import opened Bytes
  import opened Geometry
  import opened Gbox
  import opened GSerialized2
  import opened GHeader

  /** Every sub-geometry and every block of ordinates is in the buffer, at a multiple of eight. */
  ghost predicate PartsAligned(g: Geom, buf: seq<byte>, pos: nat)
    requires ValidGeom(g)
    decreases g, 1
  {
    && Aligned(pos) && At(buf, pos, Body(g))
    && match g
       case Simple(_, _, _, _, pa) => Aligned(pos + 8) && At(buf, pos + 8, pa.data)
       case Polygon(_, _, _, rings) => RingsAligned(rings, buf, pos + 8 + 4 * |rings| + |Padding(|rings|)|)
       case Collection(_, _, _, _, geoms) => AllAligned(geoms, buf, pos + 8)
  }

  ghost predicate RingsAligned(rings: seq<PointArray>, buf: seq<byte>, pos: nat) {
    rings == [] ||
    (Aligned(pos) && At(buf, pos, rings[0].data) && RingsAligned(rings[1..], buf, pos + |rings[0].data|))
  }

  ghost predicate AllAligned(geoms: seq<Geom>, buf: seq<byte>, pos: nat)
    requires forall k | 0 <= k < |geoms| :: ValidGeom(geoms[k])
    decreases geoms, 0
  {
    geoms == [] ||
    (PartsAligned(geoms[0], buf, pos) && AllAligned(geoms[1..], buf, pos + |Body(geoms[0])|))
  }

  lemma {:induction false} BodyAligned(g: Geom, buf: seq<byte>, pos: nat, z: bool, m: bool)
    requires ValidGeom(g) && Uniform(g, z, m) && Aligned(pos) && At(buf, pos, Body(g))
    ensures PartsAligned(g, buf, pos)
    decreases g, 1
  {
    hide U32, ReadU32, At, NDims, Aligned;
    AlignedTimes(1);
    AlignedAdd(pos, 8);
    match g
    case Simple(_, _, _, t, pa) => HeaderAt(buf, pos, t, pa.npoints, pa.data);
    case Polygon(_, _, _, rings) =>
      var head := Counts(rings) + Padding(|rings|);
      HeaderAt(buf, pos, 3, |rings|, head + Ordinates(rings));
      AtConcat(buf, pos + 8, head, Ordinates(rings));
      AlignedTimes((|rings| + 1) / 2);
      AlignedAdd(pos + 8, |head|);
      RingsStayAligned(rings, buf, pos + 8 + |head|, z, m);
    case Collection(_, _, _, t, geoms) =>
      HeaderAt(buf, pos, t, |geoms|, Bodies(geoms));
      BodiesAligned(geoms, buf, pos + 8, z, m);
  }

  lemma {:induction false} RingsStayAligned(rings: seq<PointArray>, buf: seq<byte>, pos: nat, z: bool, m: bool)
    requires ValidRings(rings) && UniformRings(rings, z, m) && Aligned(pos) && At(buf, pos, Ordinates(rings))
    ensures RingsAligned(rings, buf, pos)
  {
    hide At, NDims, Aligned;
    if rings != [] {
      AtConcat(buf, pos, rings[0].data, Ordinates(rings[1..]));
      AlignedTimes(rings[0].npoints * NDims(z, m));
      AlignedAdd(pos, |rings[0].data|);
      RingsStayAligned(rings[1..], buf, pos + |rings[0].data|, z, m);
    }
  }

  lemma {:induction false} BodiesAligned(geoms: seq<Geom>, buf: seq<byte>, pos: nat, z: bool, m: bool)
    requires forall k | 0 <= k < |geoms| :: ValidGeom(geoms[k]) && Uniform(geoms[k], z, m)
    requires Aligned(pos) && At(buf, pos, Bodies(geoms))
    ensures AllAligned(geoms, buf, pos)
    decreases geoms, 0
  {
    hide At, Aligned, ValidGeom, Uniform, Body;
    if geoms != [] {
      AtConcat(buf, pos, Body(geoms[0]), Bodies(geoms[1..]));
      SizeIsLength(geoms[0], z, m);
      BodyAligned(geoms[0], buf, pos, z, m);
      AlignedAdd(pos, |Body(geoms[0])|);
      BodiesAligned(geoms[1..], buf, pos + |Body(geoms[0])|, z, m);
    }
  }

  /** Under every combination of extended flags, box and ring counts, all parts are aligned. */
  lemma WrittenAligned(e: Env, g: Geom)
    requires IsEnv(e) && Fits(g)
    ensures PartsAligned(g, Written(e, g), HeaderSize(g.flags))
  {
    hide Body, IsEnv, Written, PartsAligned, HeaderSize, BodySize;
    SizeAgrees(e, g);
    BodyAligned(g, Written(e, g), HeaderSize(g.flags), g.flags.z, g.flags.m);
  }
}
