/** The order of serialized geometries: what the comparator does to what the writers produce. */
module GOrder {
  import opened Wrappers
  import opened LwTypes
  import opened Bytes
  import opened Geometry
  import opened Gbox
  import opened GSerialized2
  import opened GHeader
  import opened GBoxAccess
  import opened GCompare
  import Lookup3
  import Lookup3Answers

  lemma WrittenParts(e: Env, g: Geom)
    requires IsEnv(e) && Fits(g)
    ensures var w := Written(e, g);
            && Whole(w) && BodyOf(w) == Body(g) && w[4..7] == SridBytes(g.srid)
            && HasZ(FlagsByte(w)) == g.flags.z && HasM(FlagsByte(w)) == g.flags.m
  {
    hide IsEnv, ValidGeom, Uniform, Body, BodySize, Written, HasZ, HasM, HasBox, IsGeodetic, HasExtended, IsVersion2,
         HeaderBytes, SizeOfHeader, G2Flags, HeaderSize, SridBytes, ReadFlags, CachedBox;
    SizeAgrees(e, g);
    HeaderRead(e, g);
    FlagsSurvive(e, g);
    FlagsRead(g.flags);
    Version2Written(g.flags);
    HeaderBytesAgree(G2Flags(g.flags));
    SizeIsLength(g, g.flags.z, g.flags.m);
    assert Written(e, g)[HeaderSize(g.flags)..] == Body(g);
  }

  lemma Version2Written(flags: LwFlags)
    ensures IsVersion2(G2Flags(flags))
  {
  }

  lemma {:induction false} NormalBody(g: Geom, flags: LwFlags, srid: int)
    requires ValidGeom(g)
    ensures Body(Normal(g, flags, srid)) == Body(g)
    decreases g, 1
  {
    if g.Collection? { NormalBodies(g.geoms, flags.(bbox := false), srid); }
  }

  lemma {:induction false} NormalBodies(geoms: seq<Geom>, flags: LwFlags, srid: int)
    requires forall k | 0 <= k < |geoms| :: ValidGeom(geoms[k])
    ensures Bodies(Normals(geoms, flags, srid)) == Bodies(geoms)
    decreases geoms, 0
  {
    hide ValidGeom, Body, Normal;
    if geoms != [] {
      NormalBody(geoms[0], flags, srid);
      NormalBodies(geoms[1..], flags, srid);
    }
  }

  function Dimensions(z: bool, m: bool): LwFlags {
    LwFlags(z, m, false, false, false, false)
  }

  /** Equal bodies of one dimension are equal trees. */
  lemma BodyDetermines(g1: Geom, g2: Geom, z: bool, m: bool)
    requires ValidGeom(g1) && ValidGeom(g2) && Uniform(g1, z, m) && Uniform(g2, z, m)
    ensures Body(g1) == Body(g2) <==> Normal(g1, Dimensions(z, m), 0) == Normal(g2, Dimensions(z, m), 0)
  {
    hide ValidGeom, Uniform, Body, Normal, Decode;
    var flags := Dimensions(z, m);
    NormalBody(g1, flags, 0);
    NormalBody(g2, flags, 0);
    if Body(g1) == Body(g2) {
      RoundTrip(g1, Body(g1), 0, flags, 0);
      RoundTrip(g2, Body(g1), 0, flags, 0);
    }
  }

  /** Two serialized geometries compare equal exactly when SRID, dimensions and contents agree. */
  lemma EqualContents(e: Env, key: Key, g1: Geom, g2: Geom)
    requires IsEnv(e) && Fits(g1) && Fits(g2)
    ensures Whole(Written(e, g1)) && Whole(Written(e, g2))
    ensures Compare(key, Written(e, g1), Written(e, g2)) == 0 <==>
            && ClampSrid(g1.srid) == ClampSrid(g2.srid) && g1.flags.z == g2.flags.z && g1.flags.m == g2.flags.m
            && var d := Dimensions(g1.flags.z, g1.flags.m); Normal(g1, d, 0) == Normal(g2, d, 0)
  {
    hide IsEnv, ValidGeom, Uniform, Body, Normal, Written, Compare, SridBytes, GetSrid, BodyOf, Whole, HasZ, HasM;
    WrittenParts(e, g1);
    WrittenParts(e, g2);
    EqualIsSame(key, Written(e, g1), Written(e, g2));
    SridRoundTrip(g1.srid);
    SridRoundTrip(g2.srid);
    SameSridBytes(g1.srid, g2.srid);
    if g1.flags.z == g2.flags.z && g1.flags.m == g2.flags.m {
      BodyDetermines(g1, g2, g1.flags.z, g1.flags.m);
    }
  }

  lemma SameSridBytes(srid1: int, srid2: int)
    ensures ClampSrid(srid1) == ClampSrid(srid2) ==> SridBytes(srid1) == SridBytes(srid2)
  {
  }

  /** The key as the comparator takes it: the hash, whatever it is, of box and SRID. */
  function SortKey(e: Env, hash: (GBox, int) -> nat): Key {
    (buf: seq<byte>) =>
      if |buf| < 8 || |buf| < SizeOfHeader(FlagsByte(buf)) then None
      else match GetBox(e, buf) case None => None case Some(b) => Some(hash(b, GetSrid(buf[4..7])))
  }

  /** The key of a geometry that carries a box is the hash of that box, as it is stored. */
  lemma KeyOfBox(e: Env, hash: (GBox, int) -> nat, g: Geom)
    requires IsEnv(e) && Fits(g) && g.bbox.Some?
    ensures SortKey(e, hash)(Written(e, g)) ==
            Some(hash(StoredBox(e.grid, g.bbox.value, g.flags.geodetic), ClampSrid(g.srid)))
  {
    hide IsEnv, ValidGeom, Uniform, Written, GetSrid, SizeOfHeader, StoredBox, CachedBox, Peek, Decode, FlagsByte;
    HeaderRead(e, g);
    FlagsSurvive(e, g);
    var w := Written(e, g);
    assert GetBox(e, w) == Some(StoredBox(e.grid, g.bbox.value, g.flags.geodetic));
  }

  // ---------- one SRID and one dimension ----------

  predicate Alike(g1: Geom, g2: Geom) {
    g1.flags.z == g2.flags.z && g1.flags.m == g2.flags.m && ClampSrid(g1.srid) == ClampSrid(g2.srid)
  }

  /** Lexicographic on emptiness, hash and body, exactly when equal bodies do not carry boxes of different hash. */
  lemma WrittenOrder(e: Env, key: Key, g1: Geom, g2: Geom)
    requires IsEnv(e) && Fits(g1) && Fits(g2) && Alike(g1, g2)
    ensures var w1, w2 := Written(e, g1), Written(e, g2);
            && Whole(w1) && Whole(w2)
            && (Compare(key, w1, w2) == Ranked(key(w1), Body(g1), key(w2), Body(g2)) <==>
                (Body(g1) == Body(g2) ==> key(w1) == key(w2)))
  {
    hide IsEnv, ValidGeom, Uniform, Written, Compare, Ranked, BodyOf, Whole, SridBytes, HasZ, HasM, Body;
    WrittenParts(e, g1);
    WrittenParts(e, g2);
    SameSridBytes(g1.srid, g2.srid);
    CompareIsRanked(key, Written(e, g1), Written(e, g2));
  }

  // ---------- geometries without a box of their own ----------

  function Serialized(e: Env, g: Geom): seq<byte>
    requires Unboxed(e, g)
  {
    PreparedFits(e, g);
    Written(e, Prepared(e, g))
  }

  lemma PreparedBody(e: Env, g: Geom)
    requires ValidGeom(g)
    ensures Body(Prepared(e, g)) == Body(g) && Prepared(e, g).srid == g.srid
    ensures Prepared(e, g).flags.z == g.flags.z && Prepared(e, g).flags.m == g.flags.m
  {
  }

  lemma SerializedParts(e: Env, g: Geom)
    requires Unboxed(e, g)
    ensures var w := Serialized(e, g);
            && Whole(w) && BodyOf(w) == Body(g) && w[4..7] == SridBytes(g.srid)
            && SridOf(w) == ClampSrid(g.srid) && w[4] < 32
            && HasZ(FlagsByte(w)) == g.flags.z && HasM(FlagsByte(w)) == g.flags.m
  {
    hide IsEnv, ValidGeom, Uniform, Written, ArcsFit, BodyOf, Fits, Body, Prepared, TotalSize, GetSrid;
    PreparedFits(e, g);
    WrittenParts(e, Prepared(e, g));
    PreparedBody(e, g);
    SridRoundTrip(g.srid);
    var w := Serialized(e, g);
    assert w[4] == w[4..7][0];
  }

  /** What decides about the box follows from the contents. */
  lemma {:induction false} NormalEmpty(g: Geom, flags: LwFlags, srid: int)
    ensures IsEmpty(Normal(g, flags, srid)) == IsEmpty(g) && Boxless(Normal(g, flags, srid)) == Boxless(g)
    decreases g
  {
    hide TypeOf, ValidGeom, Normals;
    if g.Collection? {
      var inner := flags.(bbox := false);
      var ns := Normals(g.geoms, inner, srid);
      forall k | 0 <= k < |g.geoms| ensures IsEmpty(ns[k]) == IsEmpty(g.geoms[k]) && Boxless(ns[k]) == Boxless(g.geoms[k]) {
        NormalsAt(g.geoms, k, inner, srid);
        NormalEmpty(g.geoms[k], inner, srid);
      }
    }
  }

  lemma NormalNeeds(g: Geom, flags: LwFlags, srid: int)
    ensures NeedsBox(Normal(g, flags, srid)) == NeedsBox(g)
  {
    hide ValidGeom, Normals;
    if g.Collection? && |g.geoms| == 1 { NormalsAt(g.geoms, 0, flags.(bbox := false), srid); }
  }

  /** Equal bodies, equal boxes. */
  lemma BoxFromBody(e: Env, g1: Geom, g2: Geom)
    requires Unboxed(e, g1) && Unboxed(e, g2) && Alike(g1, g2) && Body(g1) == Body(g2)
    ensures ReadBox(e, g1) == ReadBox(e, g2)
  {
    hide IsEnv, ValidGeom, Uniform, CartesianBox, ArcsFit, Body, Normal, NeedsBox, IsEmpty, Boxless, Prepared,
         RoundOptBox, RoundBox, TotalSize;
    var d := Dimensions(g1.flags.z, g1.flags.m);
    BodyDetermines(g1, g2, g1.flags.z, g1.flags.m);
    NormalEmpty(g1, d, 0);
    NormalEmpty(g2, d, 0);
    NormalNeeds(g1, d, 0);
    NormalNeeds(g2, d, 0);
    NormalBox(e, g1, d, 0);
    NormalBox(e, g2, d, 0);
  }

  lemma KeyOf(e: Env, hash: (GBox, int) -> nat, g: Geom)
    requires Unboxed(e, g)
    ensures SortKey(e, hash)(Serialized(e, g)) ==
            match ReadBox(e, g) case None => None case Some(b) => Some(hash(b, ClampSrid(g.srid)))
  {
    hide IsEnv, ValidGeom, Uniform, Written, SridBytes, ArcsFit, Body, GetBox, GetSrid, SizeOfHeader, Fits, Prepared,
         ReadBox, TotalSize;
    GetBoxIs(e, g);
    PreparedBody(e, g);
    HeaderRead(e, Prepared(e, g));
  }

  /** The sort key follows from the body: the box that is read is the one of the contents, or zeros. */
  lemma KeyFromBody(e: Env, hash: (GBox, int) -> nat, g1: Geom, g2: Geom)
    requires Unboxed(e, g1) && Unboxed(e, g2) && Alike(g1, g2) && Body(g1) == Body(g2)
    ensures SortKey(e, hash)(Serialized(e, g1)) == SortKey(e, hash)(Serialized(e, g2))
  {
    hide IsEnv, ValidGeom, Uniform, ArcsFit, Body, Prepared, ReadBox, TotalSize, SortKey, Serialized;
    BoxFromBody(e, g1, g2);
    KeyOf(e, hash, g1);
    KeyOf(e, hash, g2);
  }

  /** So on geometries without a box of their own the comparator is the lexicographic total order. */
  lemma SerializedOrder(e: Env, hash: (GBox, int) -> nat, g1: Geom, g2: Geom)
    requires Unboxed(e, g1) && Unboxed(e, g2) && Alike(g1, g2)
    ensures var w1, w2, key := Serialized(e, g1), Serialized(e, g2), SortKey(e, hash);
            && Whole(w1) && Whole(w2)
            && Compare(key, w1, w2) == Ranked(key(w1), Body(g1), key(w2), Body(g2))
  {
    hide IsEnv, ValidGeom, Uniform, Written, SortKey, Compare, Ranked, Whole, Body, BodySize, Prepared, Fits, ArcsFit;
    PreparedFits(e, g1);
    PreparedFits(e, g2);
    PreparedBody(e, g1);
    PreparedBody(e, g2);
    WrittenOrder(e, SortKey(e, hash), Prepared(e, g1), Prepared(e, g2));
    if Body(g1) == Body(g2) { KeyFromBody(e, hash, g1, g2); }
  }

  // ---------- across SRIDs ----------

  function Zeros(n: nat): (data: seq<byte>)
    ensures |data| == n
  {
    seq(n, i => 0)
  }

  /** The point with all ordinates zero. */
  function Origin(z: bool, srid: int): Geom {
    Simple(Dimensions(z, false), srid, None, POINTTYPE, PointArray(z, false, 1, Zeros(PointBytes(1, z, false))))
  }

  /** A multi-point of just that point. */
  function Origins(srid: int): Geom {
    Collection(Dimensions(false, false), srid, None, MULTIPOINTTYPE, [Origin(false, srid)])
  }

  lemma OriginUnboxed(e: Env, z: bool, srid: int)
    requires IsEnv(e) && ArcsFit(e)
    ensures var g := Origin(z, srid);
            && Unboxed(e, g) && !Unboxable(g) && !Boxless(g)
            && Body(g) == U32(POINTTYPE) + U32(1) + Zeros(PointBytes(1, z, false))
  {
    hide IsEnv, ArcsFit, U32;
  }

  lemma OriginsUnboxed(e: Env, srid: int)
    requires IsEnv(e) && ArcsFit(e)
    ensures var g := Origins(srid);
            && Unboxed(e, g) && !Unboxable(g) && !Boxless(g)
            && Body(g) == U32(MULTIPOINTTYPE) + U32(1) + Body(Origin(false, srid))
  {
    hide IsEnv, ArcsFit, U32;
    OriginUnboxed(e, false, srid);
    var g := Origins(srid);
    assert Bodies(g.geoms) == Body(g.geoms[0]) + Bodies([]);
    assert BodySizes(g.geoms) == BodySize(g.geoms[0]) + BodySizes([]);
  }

  lemma OriginBodies(p: Geom, pz: Geom, mp: Geom)
    requires ValidGeom(p) && ValidGeom(pz) && ValidGeom(mp)
    requires Body(p) == U32(POINTTYPE) + U32(1) + Zeros(16) && Body(pz) == U32(POINTTYPE) + U32(1) + Zeros(24)
    requires U32(MULTIPOINTTYPE) <= Body(mp)
    ensures Body(p) < Body(pz)
    ensures !(Body(pz) < Body(mp)) && !(Body(mp) < Body(pz)) && !(Body(p) < Body(mp)) && !(Body(mp) < Body(p))
  {
    hide Body, ValidGeom;
    assert Zeros(16) == Zeros(24)[..16];
    assert Body(p) == Body(pz)[..24];
    assert Body(p)[0] == 1 && Body(pz)[0] == 1 && Body(mp)[0] == 4;
  }

  /** POINT(0 0) with SRID 5, POINT Z(0 0 0) with SRID 1 and MULTIPOINT(0 0) with SRID 3 go round. */
  lemma OriginsRound(e: Env)
    requires IsEnv(e) && ArcsFit(e)
    ensures Unboxed(e, Origin(false, 5)) && Unboxed(e, Origin(true, 1)) && Unboxed(e, Origins(3))
    ensures var w1, w2, w3 := Serialized(e, Origin(false, 5)), Serialized(e, Origin(true, 1)), Serialized(e, Origins(3));
            && Whole(w1) && Whole(w2) && Whole(w3) && w1[4] < 32 && w2[4] < 32 && w3[4] < 32
            && Round(w1, w2, w3)
  {
    hide IsEnv, ArcsFit, Unboxed, Serialized, Body, Whole, BodyOf, U32, HasZ, HasM, Lex;
    OriginUnboxed(e, false, 5);
    OriginUnboxed(e, true, 1);
    OriginUnboxed(e, false, 3);
    OriginsUnboxed(e, 3);
    SerializedParts(e, Origin(false, 5));
    SerializedParts(e, Origin(true, 1));
    SerializedParts(e, Origins(3));
    OriginBodies(Origin(false, 5), Origin(true, 1), Origins(3));
  }

  /** Same contents, same key: what the transitivity of the comparator rests on. */
  lemma SerializedOrderly(e: Env, hash: (GBox, int) -> nat, g1: Geom, g2: Geom)
    requires Unboxed(e, g1) && Unboxed(e, g2)
    ensures Orderly(SortKey(e, hash), Serialized(e, g1), Serialized(e, g2))
  {
    hide Unboxed, Serialized, SortKey, Body, BodyOf, Whole, SridBytes, GetSrid, HasZ, HasM;
    SerializedParts(e, g1);
    SerializedParts(e, g2);
    if Same(Serialized(e, g1), Serialized(e, g2)) {
      KeyFromBody(e, hash, g1, g2);
    }
  }

  /** On serialized geometries of all SRIDs and dimensions: transitive, exactly but for those rounds. */
  lemma SerializedTransitive(e: Env, hash: (GBox, int) -> nat, g1: Geom, g2: Geom, g3: Geom)
    requires Unboxed(e, g1) && Unboxed(e, g2) && Unboxed(e, g3)
    ensures var w1, w2, w3, key := Serialized(e, g1), Serialized(e, g2), Serialized(e, g3), SortKey(e, hash);
            && Whole(w1) && Whole(w2) && Whole(w3)
            && (Compare(key, w1, w2) < 0 && Compare(key, w2, w3) < 0 && !(Compare(key, w1, w3) < 0) <==>
                key(w1) == key(w2) == key(w3) && Cyclic(w1, w2, w3))
  {
    hide Unboxed, Serialized, SortKey, Compare, Cyclic, Whole, Same;
    SerializedOrderly(e, hash, g1, g2);
    SerializedOrderly(e, hash, g2, g3);
    SerializedOrderly(e, hash, g1, g3);
    TransitiveExactly(SortKey(e, hash), Serialized(e, g1), Serialized(e, g2), Serialized(e, g3));
  }

  /** The geometry has a box, and box and SRID have this hash. */
  ghost predicate HashesTo(e: Env, hash: (GBox, int) -> nat, g: Geom, h: nat) {
    ValidGeom(g) && ReadBox(e, g).Some? && hash(ReadBox(e, g).value, ClampSrid(g.srid)) == h
  }

  /** If the three boxes hash alike, each of the three geometries comes before the next. */
  lemma NotTransitive(e: Env, hash: (GBox, int) -> nat, h: nat)
    requires IsEnv(e) && ArcsFit(e)
    requires HashesTo(e, hash, Origin(false, 5), h) && HashesTo(e, hash, Origin(true, 1), h) && HashesTo(e, hash, Origins(3), h)
    ensures Unboxed(e, Origin(false, 5)) && Unboxed(e, Origin(true, 1)) && Unboxed(e, Origins(3))
    ensures var w1, w2, w3, key := Serialized(e, Origin(false, 5)), Serialized(e, Origin(true, 1)),
                                   Serialized(e, Origins(3)), SortKey(e, hash);
            && Whole(w1) && Whole(w2) && Whole(w3)
            && Compare(key, w1, w2) < 0 && Compare(key, w2, w3) < 0 && Compare(key, w3, w1) < 0
  {
    hide IsEnv, ArcsFit, Unboxed, Serialized, SortKey, Compare, Round, Whole, ReadBox, ValidGeom, Same;
    OriginsRound(e);
    KeyOf(e, hash, Origin(false, 5));
    KeyOf(e, hash, Origin(true, 1));
    KeyOf(e, hash, Origins(3));
    SerializedTransitive(e, hash, Origin(false, 5), Origin(true, 1), Origins(3));
    SerializedTransitive(e, hash, Origin(true, 1), Origins(3), Origin(false, 5));
  }

  /** Such boxes and hashes exist. */
  lemma HashesAlike() returns (e: Env, hash: (GBox, int) -> nat)
    ensures IsEnv(e) && ArcsFit(e)
    ensures HashesTo(e, hash, Origin(false, 5), 0) && HashesTo(e, hash, Origin(true, 1), 0) && HashesTo(e, hash, Origins(3), 0)
  {
    hide IsEnv, ArcsFit, Body, Unboxable, Boxless, HashesTo, ValidGeom, Origin, Origins;
    e := EnvExists();
    hash := (b: GBox, srid: int) => 0;
    OriginUnboxed(e, false, 5);
    OriginUnboxed(e, true, 1);
    OriginsUnboxed(e, 3);
    HasHash(e, hash, Origin(false, 5));
    HasHash(e, hash, Origin(true, 1));
    HasHash(e, hash, Origins(3));
  }

  lemma HasHash(e: Env, hash: (GBox, int) -> nat, g: Geom)
    requires ValidGeom(g) && ArcsFit(e) && !Unboxable(g) && !Boxless(g) && forall b, srid :: hash(b, srid) == 0
    ensures HashesTo(e, hash, g, 0)
  {
    hide ArcsFit, CartesianBox, RoundBox, ValidGeom, Boxless;
    BoxUnlessBoxless(e, g);
  }

  // ---------- SRID bytes that are never written ----------

  /** An empty point with SRID 1, under SRID bytes that start with `top`. */
  function EmptyPoint(top: byte): seq<byte> {
    [64, 0, 0, 0, top, 0, 1, 64, 1, 0, 0, 0, 0, 0, 0, 0]
  }

  lemma EmptyPointParts(top: byte)
    requires top == 0 || top == 32
    ensures var w := EmptyPoint(top);
            && Whole(w) && ReadU32(w, 0) == 4 * |w| && SridOf(w) == 1 && w[4..7] == [top, 0, 1]
            && BodyOf(w) == [1, 0, 0, 0, 0, 0, 0, 0]
  {
    var w := EmptyPoint(top);
    assert w[4..7] == [top, 0, 1];
    assert GetSrid([top, 0, 1]) == 1;
    assert FlagsByte(w) == 64 && HeaderBytes(64) == 8;
    assert w[8..] == [1, 0, 0, 0, 0, 0, 0, 0];
  }

  lemma EmptyPointKey(e: Env, hash: (GBox, int) -> nat, top: byte)
    ensures SortKey(e, hash)(EmptyPoint(top)) == None
  {
    var w := EmptyPoint(top);
    assert FlagsByte(w) == 64 && SizeOfHeader(64) == 8 && CachedBox(e, w) == None;
    assert ReadU32(w, 8) == POINTTYPE && ReadU32(w, 12) == 0;
    assert Peek(e, w) == None;
    var flags, srid := ReadFlags(w), GetSrid(w[4..7]);
    assert !flags.geodetic;
    assert PointBytes(0, flags.z, flags.m) == 0;
    assert Decode(w, 8, flags, srid) == DecodeSimple(w, 8, flags, srid, POINTTYPE);
    var g := Decode(w, 8, flags, srid).value.0;
    DecodedIsValid(w, 8, flags, srid);
    assert CartesianBox(e, g) == PaBox(e, g.points) == None;
    assert GetBox(e, w) == None;
  }

  /** The two differ in an unused bit only: each comes before the other. */
  lemma ClashExample(e: Env, hash: (GBox, int) -> nat)
    ensures Whole(EmptyPoint(0)) && Whole(EmptyPoint(32))
    ensures Clash(SortKey(e, hash), EmptyPoint(0), EmptyPoint(32))
    ensures Compare(SortKey(e, hash), EmptyPoint(0), EmptyPoint(32)) == -1
    ensures Compare(SortKey(e, hash), EmptyPoint(32), EmptyPoint(0)) == -1
  {
    hide SortKey, EmptyPoint, BodyOf, HeaderBytes, GetSrid;
    EmptyPointParts(0);
    EmptyPointParts(32);
    EmptyPointKey(e, hash, 0);
    EmptyPointKey(e, hash, 32);
    SridSlice(EmptyPoint(0), EmptyPoint(32));
    assert [0, 0, 1][0] != [32, 0, 1][0];
    var b := BodyOf(EmptyPoint(0));
    MemcmpSymmetric(b, b, |b|);
  }

  // ---------- one hash ----------

  lemma EmptyPointFinal()
    ensures Lookup3.Final(Lookup3.State(0xdeadbefc, 0xdeadbefc, 0xdeadbefb)) ==
            Lookup3.State(0xa26fed94, 0xffb5118f, 0x7ec422d1)
  {
    assert Lookup3.FinalLine(0xdeadbefb, 0xdeadbefc, 14) == 0x9040c85c;
    assert Lookup3.FinalLine(0xdeadbefc, 0x9040c85c, 11) == 0x48aa921e;
    assert Lookup3.FinalLine(0xdeadbefc, 0x48aa921e, 25) == 0x5975d7be;
    assert Lookup3.FinalLine(0x9040c85c, 0x5975d7be, 16) == 0xf176c66d;
    assert Lookup3.FinalLine(0x48aa921e, 0xf176c66d, 4) == 0xa26fed94;
    assert Lookup3.FinalLine(0x5975d7be, 0xa26fed94, 14) == 0xffb5118f;
    assert Lookup3.FinalLine(0xf176c66d, 0xffb5118f, 24) == 0x7ec422d1;
  }

  lemma EmptyPointBlock()
    ensures Lookup3.Init(12, 0, 0) == Lookup3.State(0xdeadbefb, 0xdeadbefb, 0xdeadbefb)
    ensures Lookup3.Absorb([1, 0, 0, 0, 1, 0, 0, 0, 0, 0, 0, 0], Lookup3.State(0xdeadbefb, 0xdeadbefb, 0xdeadbefb)) ==
            Lookup3.State(0xdeadbefc, 0xdeadbefc, 0xdeadbefb)
  {
    hide Lookup3.Low32;
    Lookup3Answers.Lengths();
    assert Lookup3.Word(1, 0, 0, 0) == 1 && Lookup3.Word(0, 0, 0, 0) == 0;
  }

  /** The hash of the empty point with SRID 1: the SRID, least significant byte first, is hashed before the body. */
  lemma EmptyPointHash()
    ensures Whole(EmptyPoint(0)) && Hash(EmptyPoint(0)) == 0x8171335e
  {
    hide EmptyPoint, BodyOf, HeaderBytes, GetSrid, Lookup3.Init, Lookup3.Absorb, Lookup3.Final, Lookup3.Hash;
    EmptyPointParts(0);
    EmptyPointFinal();
    EmptyPointBlock();
    var key := Bits(U32(1) + BodyOf(EmptyPoint(0)));
    assert key == [1, 0, 0, 0, 1, 0, 0, 0, 0, 0, 0, 0];
    Lookup3Answers.HashEnds(key, Lookup3.State(0xdeadbefb, 0xdeadbefb, 0xdeadbefb));
  }
}
