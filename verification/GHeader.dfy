/** The header of the serialized form, and whole serialized geometries. */
module GHeader {
  import opened Wrappers
  import opened LwTypes
  import opened Bytes
  import opened Floats
  import opened Geometry
  import opened Gbox
  import opened GSerialized2

  // ---------- SRID ----------

  const SRID_MAXIMUM: int := 999999
  const SRID_USER_MAXIMUM: int := 998999
  const SRID_UNKNOWN: int := 0

  function ClampSrid(srid: int): int {
    if srid <= 0 then SRID_UNKNOWN
    else if srid > SRID_MAXIMUM then SRID_USER_MAXIMUM + 1 + srid % (SRID_MAXIMUM - SRID_USER_MAXIMUM - 1)
    else srid
  }

  /** 21 bits, most significant byte first. */
  function SridBytes(srid: int): (e: seq<byte>)
    ensures |e| == 3
  {
    var s := ClampSrid(srid);
    [s / 65536 % 32, s / 256 % 256, s % 256]
  }

  /** Sign-extends the lowest 21 bits. */
  function GetSrid(b: seq<byte>): int
    requires |b| == 3
  {
    var b0: int, b1: int, b2: int := b[0], b[1], b[2];
    var low := (65536 * b0 + 256 * b1 + b2) % 2097152;
    if low >= 1048576 then low - 2097152 else low
  }

  /**
    What comes back is the clamped SRID: the given one exactly when it is in the valid range, none for
    negative ones, and for larger ones the one of 999000..999998 with the same remainder by 999.
   */
  lemma SridRoundTrip(srid: int)
    ensures GetSrid(SridBytes(srid)) == ClampSrid(srid)
    ensures ClampSrid(srid) == srid <==> 0 <= srid <= SRID_MAXIMUM
    ensures srid < 0 ==> ClampSrid(srid) == 0
    ensures srid > 999999 ==> 999000 <= ClampSrid(srid) <= 999998 && (ClampSrid(srid) - srid) % 999 == 0
  {
    hide ClampSrid, GetSrid, SridBytes;
    ClampRange(srid);
    BytesRead(srid);
  }

  lemma BytesRead(srid: int)
    ensures GetSrid(SridBytes(srid)) == ClampSrid(srid)
  {
    hide ClampSrid;
    ClampBound(srid);
    Packed(ClampSrid(srid));
  }

  lemma ClampBound(srid: int)
    ensures 0 <= ClampSrid(srid) <= SRID_MAXIMUM
  {
  }

  /** Whatever the bytes, the SRID read is the signed 21-bit number that they hold, and no other bit matters. */
  lemma SridRead(b: seq<byte>)
    requires |b| == 3
    ensures -1048576 <= GetSrid(b) < 1048576 && (65536 * b[0] + 256 * b[1] + b[2] - GetSrid(b)) % 2097152 == 0
  {
  }

  lemma ClampRange(srid: int)
    ensures 0 <= ClampSrid(srid) <= SRID_MAXIMUM
    ensures ClampSrid(srid) == srid <==> 0 <= srid <= SRID_MAXIMUM
    ensures srid < 0 ==> ClampSrid(srid) == 0
    ensures srid > 999999 ==> 999000 <= ClampSrid(srid) <= 999998 && (ClampSrid(srid) - srid) % 999 == 0
  {
  }

  lemma Packed(s: nat)
    requires s < 2097152
    ensures 65536 * (s / 65536 % 32) + 256 * (s / 256 % 256) + s % 256 == s
  {
    assert s / 65536 % 32 == s / 65536;
    assert s / 256 / 256 == s / 65536;
  }

  // ---------- flags ----------

  function UsesExtended(flags: LwFlags): bool {
    flags.readonly || flags.solid
  }

  function G2Flags(flags: LwFlags): byte {
    Bit(flags.z) + 2 * Bit(flags.m) + 4 * Bit(flags.bbox) + 8 * Bit(flags.geodetic) +
    16 * Bit(UsesExtended(flags)) + 64
  }

  predicate HasZ(f: byte) { f % 2 == 1 }
  predicate HasM(f: byte) { f / 2 % 2 == 1 }
  predicate HasBox(f: byte) { f / 4 % 2 == 1 }
  predicate IsGeodetic(f: byte) { f / 8 % 2 == 1 }
  predicate HasExtended(f: byte) { f / 16 % 2 == 1 }

  lemma FlagsRead(flags: LwFlags)
    ensures var f := G2Flags(flags);
            && HasZ(f) == flags.z && HasM(f) == flags.m && HasBox(f) == flags.bbox
            && IsGeodetic(f) == flags.geodetic && HasExtended(f) == UsesExtended(flags)
            && f / 32 == 2
  {
  }

  function ExtendedBytes(flags: LwFlags): seq<byte> {
    if UsesExtended(flags) then [Bit(flags.solid), 0, 0, 0, 0, 0, 0, 0] else []
  }

  /** Any flag beyond the core four costs eight bytes, a little-endian number with the solid flag as its first bit. */
  lemma ExtendedIs(flags: LwFlags)
    ensures |ExtendedBytes(flags)| == if flags.readonly || flags.solid then 8 else 0
    ensures HeaderSize(flags) == HeaderSize(flags.(readonly := false, solid := false)) + |ExtendedBytes(flags)|
    ensures ExtendedBytes(flags) != [] ==>
              ReadU32(ExtendedBytes(flags), 0) == Bit(flags.solid) && ReadU32(ExtendedBytes(flags), 4) == 0
  {
  }

  // ---------- the box in the header ----------

  function BoxSize(z: bool, m: bool, geodetic: bool): nat {
    if geodetic then 24 else 8 * NDims(z, m)
  }

  ghost predicate BoxFits(b: GBox, flags: LwFlags) {
    if flags.geodetic then b.z.Some? else b.z.Some? == flags.z && b.m.Some? == flags.m
  }

  function IntervalBytes(e: Env, i: Interval): (r: seq<byte>)
    requires IsEnv(e)
    ensures |r| == 8
  {
    e.encode(NextFloatDown(e.grid, i.lo)) + e.encode(NextFloatUp(e.grid, i.hi))
  }

  function OptBytes(e: Env, i: Option<Interval>): (r: seq<byte>)
    requires IsEnv(e)
    ensures |r| == if i.Some? then 8 else 0
  {
    if i.Some? then IntervalBytes(e, i.value) else []
  }

  /** A geodetic box stops after its geocentric Z. */
  function BoxBytes(e: Env, b: GBox, geodetic: bool): seq<byte>
    requires IsEnv(e)
  {
    IntervalBytes(e, b.x) + IntervalBytes(e, b.y) +
    (OptBytes(e, b.z) + if geodetic then [] else OptBytes(e, b.m))
  }

  function ReadInterval(e: Env, buf: seq<byte>, pos: nat): Interval
    requires pos + 8 <= |buf|
  {
    Interval(e.decode(buf[pos..pos + 4]), e.decode(buf[pos + 4..pos + 8]))
  }

  function ReadBoxAt(e: Env, buf: seq<byte>, pos: nat, z: bool, m: bool, geodetic: bool): GBox
    requires pos + BoxSize(z, m, geodetic) <= |buf|
  {
    var x, y := ReadInterval(e, buf, pos), ReadInterval(e, buf, pos + 8);
    if geodetic then GBox(x, y, Some(ReadInterval(e, buf, pos + 16)), None)
    else
      GBox(x, y, if z then Some(ReadInterval(e, buf, pos + 16)) else None,
           if m then Some(ReadInterval(e, buf, if z then pos + 24 else pos + 16)) else None)
  }

  /** What a stored box reads back as. */
  function StoredBox(grid: Grid, b: GBox, geodetic: bool): GBox {
    if geodetic then RoundBox(grid, b).(m := None) else RoundBox(grid, b)
  }

  lemma IntervalRead(e: Env, buf: seq<byte>, pos: nat, i: Interval)
    requires IsEnv(e) && At(buf, pos, IntervalBytes(e, i))
    ensures pos + 8 <= |buf| && ReadInterval(e, buf, pos) == RoundInterval(e.grid, i)
  {
    var lo, hi := e.encode(NextFloatDown(e.grid, i.lo)), e.encode(NextFloatUp(e.grid, i.hi));
    AtConcat(buf, pos, lo, hi);
    DownIsFloor(e.grid, i.lo);
    UpIsCeiling(e.grid, i.hi);
  }

  /** A box written to the header reads back rounded outwards, in its own dimensions. */
  lemma BoxRead(e: Env, buf: seq<byte>, pos: nat, b: GBox, flags: LwFlags)
    requires IsEnv(e) && BoxFits(b, flags) && At(buf, pos, BoxBytes(e, b, flags.geodetic))
    ensures |BoxBytes(e, b, flags.geodetic)| == BoxSize(flags.z, flags.m, flags.geodetic)
    ensures pos + BoxSize(flags.z, flags.m, flags.geodetic) <= |buf|
    ensures ReadBoxAt(e, buf, pos, flags.z, flags.m, flags.geodetic) == StoredBox(e.grid, b, flags.geodetic)
  {
    hide IsEnv, IntervalBytes, ReadInterval, RoundInterval;
    var xy, rest := IntervalBytes(e, b.x) + IntervalBytes(e, b.y),
                    OptBytes(e, b.z) + if flags.geodetic then [] else OptBytes(e, b.m);
    AtConcat(buf, pos, xy, rest);
    AtConcat(buf, pos, IntervalBytes(e, b.x), IntervalBytes(e, b.y));
    IntervalRead(e, buf, pos, b.x);
    IntervalRead(e, buf, pos + 8, b.y);
    AtConcat(buf, pos + 16, OptBytes(e, b.z), if flags.geodetic then [] else OptBytes(e, b.m));
    if b.z.Some? { IntervalRead(e, buf, pos + 16, b.z.value); }
    if !flags.geodetic && b.m.Some? {
      IntervalRead(e, buf, if b.z.Some? then pos + 24 else pos + 16, b.m.value);
    }
  }

  // ---------- which geometries get a box ----------

  predicate IsEmpty(g: Geom) {
    match g
    case Simple(_, _, _, _, pa) => pa.npoints < 1
    case Polygon(_, _, _, rings) => |rings| < 1 || rings[0].npoints < 1
    case Collection(_, _, _, _, geoms) => forall k | 0 <= k < |geoms| :: IsEmpty(geoms[k])
  }

  /** Vertices of a line, or of the lines of a multi-line. */
  function LineVertices(g: Geom): nat {
    match g
    case Simple(_, _, _, _, pa) => pa.npoints
    case Polygon(_, _, _, _) => 0
    case Collection(_, _, _, _, geoms) => if |geoms| == 1 && geoms[0].Simple? then geoms[0].points.npoints else 0
  }

  predicate NeedsBox(g: Geom) {
    var t := TypeOf(g);
    if t == POINTTYPE then false
    else if t == LINETYPE then LineVertices(g) > 2
    else if t == MULTIPOINTTYPE then !(g.Collection? && |g.geoms| == 1)
    else if t == MULTILINETYPE then !(g.Collection? && |g.geoms| == 1 && LineVertices(g) <= 2)
    else true
  }

  function CalculatedBox(e: Env, g: Geom): Option<GBox>
    requires ValidGeom(g)
  {
    if g.flags.geodetic then e.geodeticBox(g) else CartesianBox(e, g)
  }

  /** The zeroed box that stays behind when the calculation fails. */
  function ZeroBox(flags: LwFlags): GBox {
    var zero := Interval(0.0, 0.0);
    GBox(zero, zero, if flags.z || flags.geodetic then Some(zero) else None, if flags.m then Some(zero) else None)
  }

  /** The geometry as the writer sees it: box added where needed, box flag set to match. */
  function Prepared(e: Env, g: Geom): (p: Geom)
    requires ValidGeom(g)
    ensures ValidGeom(p) && p.flags.bbox == p.bbox.Some?
  {
    var box :=
      if g.bbox.None? && NeedsBox(g) && !IsEmpty(g) then
        Some(match CalculatedBox(e, g) case Some(b) => b case None => ZeroBox(g.flags))
      else g.bbox;
    g.(bbox := box, flags := g.flags.(bbox := box.Some?))
  }

  // ---------- the whole ----------

  function HeaderSize(flags: LwFlags): nat {
    8 + (if UsesExtended(flags) then 8 else 0) +
    (if flags.bbox then BoxSize(flags.z, flags.m, flags.geodetic) else 0)
  }

  /** The size that is reserved before anything is written. */
  function TotalSize(g: Geom): nat {
    HeaderSize(g.flags) + BodySize(g)
  }

  function Head(g: Geom): (h: seq<byte>)
    requires TotalSize(g) < 0x4000_0000
    ensures |h| == 8
  {
    U32(4 * TotalSize(g)) + (SridBytes(g.srid) + [G2Flags(g.flags)])
  }

  function BoxPart(e: Env, g: Geom): seq<byte>
    requires IsEnv(e)
  {
    if g.bbox.Some? then BoxBytes(e, g.bbox.value, g.flags.geodetic) else []
  }

  /** The bytes written for a prepared geometry. */
  function Written(e: Env, g: Geom): seq<byte>
    requires IsEnv(e) && ValidGeom(g) && TotalSize(g) < 0x4000_0000
  {
    Head(g) + (ExtendedBytes(g.flags) + (BoxPart(e, g) + Body(g)))
  }

  /** A prepared geometry of uniform dimensions, with a box of its own dimensions if any. */
  ghost predicate Fits(g: Geom) {
    && ValidGeom(g) && Uniform(g, g.flags.z, g.flags.m) && g.flags.bbox == g.bbox.Some?
    && (g.bbox.Some? ==> BoxFits(g.bbox.value, g.flags)) && TotalSize(g) < 0x4000_0000
  }

  /** The reserved size is the number of bytes written, and the body starts aligned. */
  lemma SizeAgrees(e: Env, g: Geom)
    requires IsEnv(e) && Fits(g)
    ensures |Written(e, g)| == TotalSize(g)
    ensures Aligned(HeaderSize(g.flags)) && Aligned(TotalSize(g))
    ensures At(Written(e, g), HeaderSize(g.flags), Body(g))
  {
    hide ValidGeom, Uniform, BodySize, Body, Head, ExtendedBytes, BoxPart, IsEnv, Aligned, HeaderSize, BoxFits;
    SizeIsLength(g, g.flags.z, g.flags.m);
    HeaderLength(e, g);
    AlignedAdd(HeaderSize(g.flags), |Body(g)|);
    assert Written(e, g) == (Head(g) + ExtendedBytes(g.flags) + BoxPart(e, g)) + Body(g);
  }

  lemma HeaderLength(e: Env, g: Geom)
    requires IsEnv(e) && g.flags.bbox == g.bbox.Some? && (g.bbox.Some? ==> BoxFits(g.bbox.value, g.flags))
    ensures 8 + |ExtendedBytes(g.flags)| + |BoxPart(e, g)| == HeaderSize(g.flags)
    ensures Aligned(HeaderSize(g.flags))
  {
    hide IsEnv, IntervalBytes, Aligned;
    var box := if g.flags.bbox then (if g.flags.geodetic then 3 else NDims(g.flags.z, g.flags.m)) else 0;
    AlignedTimes(1 + (if UsesExtended(g.flags) then 1 else 0) + box);
  }

  // ---------- reading the whole back ----------

  function FlagsByte(buf: seq<byte>): byte
    requires |buf| >= 8
  {
    buf[7]
  }

  /** The flags as read: everything but the read-only mark of the writer's copy. */
  function ReadFlags(buf: seq<byte>): LwFlags
    requires |buf| >= 8 && (HasExtended(FlagsByte(buf)) ==> |buf| >= 16)
  {
    var f := FlagsByte(buf);
    LwFlags(HasZ(f), HasM(f), HasBox(f), IsGeodetic(f), false, HasExtended(f) && buf[8] % 2 == 1)
  }

  function SizeOfHeader(f: byte): nat {
    8 + (if HasExtended(f) then 8 else 0) +
    (if HasBox(f) then BoxSize(HasZ(f), HasM(f), IsGeodetic(f)) else 0)
  }

  function CachedBox(e: Env, buf: seq<byte>): Option<GBox>
    requires |buf| >= 8 && |buf| >= SizeOfHeader(FlagsByte(buf))
  {
    var f := FlagsByte(buf);
    if HasBox(f) then
      Some(ReadBoxAt(e, buf, if HasExtended(f) then 16 else 8, HasZ(f), HasM(f), IsGeodetic(f)))
    else None
  }

  /** Reads a whole serialized geometry; the box comes from the header or is calculated. */
  function Deserialize(e: Env, buf: seq<byte>): Result<Geom> {
    if |buf| < 8 || |buf| < SizeOfHeader(FlagsByte(buf)) then Err
    else
      var flags, start, srid := ReadFlags(buf), SizeOfHeader(FlagsByte(buf)), GetSrid(buf[4..7]);
      match Decode(buf, start, flags, srid)
      case Err => Err
      case Ok((g, _)) =>
        DecodedIsValid(buf, start, flags, srid);
        var cached := CachedBox(e, buf);
        var box := if cached.Some? then cached else if NeedsBox(g) then CalculatedBox(e, g) else None;
        Ok(g.(bbox := box))
  }

  /** Where the parts of the header are. */
  lemma HeaderRead(e: Env, g: Geom)
    requires IsEnv(e) && Fits(g)
    ensures var w := Written(e, g);
            && |w| >= 8 && ReadU32(w, 0) == 4 * |w|
            && w[4..7] == SridBytes(g.srid) && GetSrid(w[4..7]) == ClampSrid(g.srid)
            && FlagsByte(w) == G2Flags(g.flags)
            && At(w, 8, ExtendedBytes(g.flags)) && At(w, 8 + |ExtendedBytes(g.flags)|, BoxPart(e, g))
  {
    hide ValidGeom, Uniform, Body, BodySize, IsEnv, U32, ReadU32, SridBytes, GetSrid, G2Flags, ExtendedBytes, BoxPart;
    var w := Written(e, g);
    SizeAgrees(e, g);
    assert At(w, 0, w);
    AtConcat(w, 0, Head(g), ExtendedBytes(g.flags) + (BoxPart(e, g) + Body(g)));
    AtConcat(w, 8, ExtendedBytes(g.flags), BoxPart(e, g) + Body(g));
    AtConcat(w, 8 + |ExtendedBytes(g.flags)|, BoxPart(e, g), Body(g));
    AtConcat(w, 0, U32(4 * TotalSize(g)), SridBytes(g.srid) + [G2Flags(g.flags)]);
    AtConcat(w, 4, SridBytes(g.srid), [G2Flags(g.flags)]);
    AtU32(w, 0, 4 * TotalSize(g));
    assert w[4..7] == SridBytes(g.srid);
    SridRoundTrip(g.srid);
    assert w[7..8] == [G2Flags(g.flags)];
  }

  /** The flags that survive. */
  function KeptFlags(flags: LwFlags): LwFlags {
    flags.(readonly := false)
  }

  lemma FlagsSurvive(e: Env, g: Geom)
    requires IsEnv(e) && Fits(g)
    ensures var w := Written(e, g);
            && |w| >= 8 && SizeOfHeader(FlagsByte(w)) == HeaderSize(g.flags) <= |w|
            && ReadFlags(w) == KeptFlags(g.flags)
            && CachedBox(e, w) ==
               if g.bbox.Some? then Some(StoredBox(e.grid, g.bbox.value, g.flags.geodetic)) else None
  {
    hide ValidGeom, Uniform, Body, BodySize, IsEnv, Written, G2Flags, HasZ, HasM, HasBox, IsGeodetic, HasExtended, BoxBytes,
         ReadBoxAt, StoredBox, BoxFits;
    var w := Written(e, g);
    SizeAgrees(e, g);
    HeaderRead(e, g);
    FlagsRead(g.flags);
    if UsesExtended(g.flags) { assert w[8..16][0] == Bit(g.flags.solid); }
    if g.bbox.Some? { BoxRead(e, w, 8 + |ExtendedBytes(g.flags)|, g.bbox.value, g.flags); }
  }

  /**
    Whatever is serialized comes back: types, counts, ordinates, SRID and flags of the whole
    tree, the box rounded outwards, and no boxes on the parts.
   */
  lemma WholeRoundTrip(e: Env, g: Geom)
    requires IsEnv(e) && Fits(g)
    ensures Deserialize(e, Written(e, g)).Ok?
    ensures var n := Normal(g, KeptFlags(g.flags), ClampSrid(g.srid));
            Deserialize(e, Written(e, g)).value ==
            n.(bbox := if g.bbox.Some? then Some(StoredBox(e.grid, g.bbox.value, g.flags.geodetic))
                       else if NeedsBox(n) then CalculatedBox(e, n) else None)
  {
    hide Body, BodySize, IsEnv, Written, StoredBox, CachedBox, ReadFlags, SizeOfHeader, HeaderSize,
         ValidGeom, Uniform, CalculatedBox, NeedsBox, GetSrid;
    SizeAgrees(e, g);
    HeaderRead(e, g);
    FlagsSurvive(e, g);
    RoundTrip(g, Written(e, g), HeaderSize(g.flags), KeptFlags(g.flags), ClampSrid(g.srid));
  }
}
