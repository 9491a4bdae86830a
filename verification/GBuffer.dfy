/** The writers and readers as they run: moving positions through a byte buffer. */
module GBuffer {
  import opened Wrappers
  import opened LwTypes
  import opened Bytes
  import opened Geometry
  import opened Gbox
  import opened GSerialized2
  import opened GHeader

  // ---------- what the writers check ----------

  /** Dimensions are compared part by part; for a line only Z is. */
  predicate Accepts(g: Geom) {
    match g
    case Simple(flags, _, _, t, pa) => flags.z == pa.z && (t == LINETYPE || flags.m == pa.m)
    case Polygon(flags, _, _, rings) => UniformRings(rings, flags.z, flags.m)
    case Collection(flags, _, _, _, geoms) =>
      forall k | 0 <= k < |geoms| :: geoms[k].flags.z == flags.z && geoms[k].flags.m == flags.m && Accepts(geoms[k])
  }

  lemma {:induction false} UniformAccepted(g: Geom, z: bool, m: bool)
    requires Uniform(g, z, m)
    ensures Accepts(g)
  {
    if g.Collection? {
      forall k | 0 <= k < |g.geoms| ensures Accepts(g.geoms[k]) {
        UniformAccepted(g.geoms[k], z, m);
      }
    }
  }

  /**
    A line whose points disagree with it on M is accepted, and then takes another size than
    the one reserved for it, unless it has no points.
   */
  lemma LineSizeExact(g: Geom)
    requires g.Simple? && g.gtype == LINETYPE && ValidGeom(g) && Accepts(g)
    ensures BodySize(g) == |Body(g)| <==> g.points.npoints == 0 || g.flags.m == g.points.m
  {
    hide U32;
    var n := g.points.npoints;
    assert |Body(g)| == 8 + PointBytes(n, g.points.z, g.points.m);
    assert n * NDims(g.points.z, true) == n * NDims(g.points.z, false) + n;
  }

  /** One vertex with M in a line without: eight bytes are reserved too few. */
  lemma LineSizeExample()
    ensures var flags := LwFlags(false, false, false, false, false, false);
            var g := Simple(flags, 0, None, LINETYPE, PointArray(false, true, 1, seq(24, i => 0)));
            ValidGeom(g) && Accepts(g) && BodySize(g) == 24 && |Body(g)| == 32
  {
    hide U32;
  }

  // ---------- writing ----------

  /** The buffer with `e` written over it at `off`. */
  function Patch(s: seq<byte>, off: nat, e: seq<byte>): (r: seq<byte>)
    requires off + |e| <= |s|
    ensures |r| == |s|
  {
    s[..off] + e + s[off + |e|..]
  }

  /** Writing one piece right behind another is writing both. */
  lemma PatchConcat(s: seq<byte>, off: nat, a: seq<byte>, b: seq<byte>)
    requires off + |a| + |b| <= |s|
    ensures Patch(Patch(s, off, a), off + |a|, b) == Patch(s, off, a + b)
  {
  }

  lemma PatchNothing(s: seq<byte>, off: nat)
    requires off <= |s|
    ensures Patch(s, off, []) == s
  {
  }

  /** `memcpy` into the buffer. */
  method Copy(buf: array<byte>, off: nat, e: seq<byte>) returns (loc: nat)
    requires off + |e| <= buf.Length
    modifies buf
    ensures loc == off + |e| && buf[..] == Patch(old(buf[..]), off, e)
  {
    forall k | 0 <= k < |e| {
      buf[off + k] := e[k];
    }
    loc := off + |e|;
  }

  method WriteSimple(g: Geom, buf: array<byte>, off: nat) returns (ok: bool, loc: nat)
    requires g.Simple? && ValidGeom(g) && off + |Body(g)| <= buf.Length
    modifies buf
    ensures ok == Accepts(g)
    ensures ok ==> loc == off + |Body(g)| && buf[..] == Patch(old(buf[..]), off, Body(g))
  {
    hide U32, Patch;
    ghost var was := buf[..];
    loc := off;
    if g.gtype == LINETYPE {
      if g.flags.z != g.points.z { return false, loc; }
    } else if g.flags.z != g.points.z || g.flags.m != g.points.m {
      return false, loc;
    }
    ok := true;
    loc := Copy(buf, loc, U32(g.gtype));
    loc := Copy(buf, loc, U32(g.points.npoints));
    PatchConcat(was, off, U32(g.gtype), U32(g.points.npoints));
    ghost var head := U32(g.gtype) + U32(g.points.npoints);
    PatchConcat(was, off, head, g.points.data);
    if g.points.npoints > 0 {
      loc := Copy(buf, loc, g.points.data);
    } else {
      assert g.points.data == [];
      PatchNothing(Patch(was, off, head), off + |head|);
    }
  }

  lemma {:induction false} CountsAppend(rings: seq<PointArray>, i: nat)
    requires ValidRings(rings) && i < |rings|
    ensures Counts(rings[..i + 1]) == Counts(rings[..i]) + U32(rings[i].npoints)
  {
    hide U32;
    if i == 0 {
      assert rings[..1][1..] == [] && rings[..0] == [];
    } else {
      CountsAppend(rings[1..], i - 1);
      assert rings[..i + 1][1..] == rings[1..][..i] && rings[..i][1..] == rings[1..][..i - 1];
    }
  }

  lemma {:induction false} OrdinatesAppend(rings: seq<PointArray>, i: nat)
    requires i < |rings|
    ensures Ordinates(rings[..i + 1]) == Ordinates(rings[..i]) + rings[i].data
  {
    if i == 0 {
      assert rings[..1][1..] == [] && rings[..0] == [];
    } else {
      OrdinatesAppend(rings[1..], i - 1);
      assert rings[..i + 1][1..] == rings[1..][..i] && rings[..i][1..] == rings[1..][..i - 1];
    }
  }

  lemma {:induction false} BodiesAppend(geoms: seq<Geom>, i: nat)
    requires i < |geoms| && forall k | 0 <= k < |geoms| :: ValidGeom(geoms[k])
    ensures Bodies(geoms[..i + 1]) == Bodies(geoms[..i]) + Body(geoms[i])
  {
    hide Body, ValidGeom;
    if i == 0 {
      assert geoms[..1][1..] == [] && geoms[..0] == [];
    } else {
      BodiesAppend(geoms[1..], i - 1);
      assert geoms[..i + 1][1..] == geoms[1..][..i] && geoms[..i][1..] == geoms[1..][..i - 1];
    }
  }

  /** Lengths only grow with the number of parts. */
  lemma {:induction false} OrdinatesFit(rings: seq<PointArray>, i: nat)
    requires i <= |rings|
    ensures |Ordinates(rings[..i])| <= |Ordinates(rings)|
    decreases |rings| - i
  {
    if i < |rings| {
      OrdinatesAppend(rings, i);
      OrdinatesFit(rings, i + 1);
    } else {
      assert rings[..i] == rings;
    }
  }

  lemma {:induction false} BodiesFit(geoms: seq<Geom>, i: nat)
    requires i <= |geoms| && forall k | 0 <= k < |geoms| :: ValidGeom(geoms[k])
    ensures |Bodies(geoms[..i])| <= |Bodies(geoms)|
    decreases |geoms| - i
  {
    hide Body, ValidGeom;
    if i < |geoms| {
      BodiesAppend(geoms, i);
      BodiesFit(geoms, i + 1);
    } else {
      assert geoms[..i] == geoms;
    }
  }

  method WriteCounts(rings: seq<PointArray>, buf: array<byte>, off: nat) returns (loc: nat)
    requires ValidRings(rings) && off + 4 * |rings| <= buf.Length
    modifies buf
    ensures loc == off + 4 * |rings| && buf[..] == Patch(old(buf[..]), off, Counts(rings))
  {
    hide U32, Patch;
    ghost var was := buf[..];
    loc := off;
    PatchNothing(was, off);
    for i := 0 to |rings|
      invariant loc == off + 4 * i && buf[..] == Patch(was, off, Counts(rings[..i]))
    {
      CountsAppend(rings, i);
      PatchConcat(was, off, Counts(rings[..i]), U32(rings[i].npoints));
      loc := Copy(buf, loc, U32(rings[i].npoints));
    }
    assert rings[..|rings|] == rings;
  }

  method WriteOrdinates(g: Geom, buf: array<byte>, off: nat) returns (ok: bool, loc: nat)
    requires g.Polygon? && ValidGeom(g) && off + |Ordinates(g.rings)| <= buf.Length
    modifies buf
    ensures ok == UniformRings(g.rings, g.flags.z, g.flags.m)
    ensures ok ==> loc == off + |Ordinates(g.rings)| && buf[..] == Patch(old(buf[..]), off, Ordinates(g.rings))
  {
    hide Patch, ValidPoints, Body;
    ghost var was := buf[..];
    var rings := g.rings;
    loc := off;
    PatchNothing(was, off);
    for i := 0 to |rings|
      invariant forall k | 0 <= k < i :: rings[k].z == g.flags.z && rings[k].m == g.flags.m
      invariant loc == off + |Ordinates(rings[..i])| <= buf.Length
      invariant buf[..] == Patch(was, off, Ordinates(rings[..i]))
    {
      var pa := rings[i];
      if g.flags.z != pa.z || g.flags.m != pa.m {
        return false, loc;
      }
      OrdinatesAppend(rings, i);
      OrdinatesFit(rings, i + 1);
      PatchConcat(was, off, Ordinates(rings[..i]), pa.data);
      loc := Copy(buf, loc, pa.data);
    }
    assert rings[..|rings|] == rings;
    ok := true;
  }

  method WritePolygon(g: Geom, buf: array<byte>, off: nat) returns (ok: bool, loc: nat)
    requires g.Polygon? && ValidGeom(g) && off + |Body(g)| <= buf.Length
    modifies buf
    ensures ok == Accepts(g)
    ensures ok ==> loc == off + |Body(g)| && buf[..] == Patch(old(buf[..]), off, Body(g))
  {
    hide U32, Patch;
    ghost var was := buf[..];
    var rings := g.rings;
    ghost var h1, h2 := U32(POLYGONTYPE), U32(POLYGONTYPE) + U32(|rings|);
    ghost var counts, pad, rest := Counts(rings), Padding(|rings|), Ordinates(rings);
    loc := Copy(buf, off, U32(POLYGONTYPE));
    loc := Copy(buf, loc, U32(|rings|));
    PatchConcat(was, off, h1, U32(|rings|));
    loc := WriteCounts(rings, buf, loc);
    PatchConcat(was, off, h2, counts);
    if |rings| % 2 == 1 {
      loc := Copy(buf, loc, [0, 0, 0, 0]);
    } else {
      PatchNothing(buf[..], loc);
    }
    PatchConcat(was, off, h2 + counts, pad);
    ok, loc := WriteOrdinates(g, buf, loc);
    PatchConcat(was, off, h2 + counts + pad, rest);
    assert Body(g) == h2 + counts + pad + rest;
  }

  method WriteCollection(g: Geom, buf: array<byte>, off: nat) returns (ok: bool, loc: nat)
    requires g.Collection? && ValidGeom(g) && off + |Body(g)| <= buf.Length
    modifies buf
    ensures ok == Accepts(g)
    ensures ok ==> loc == off + |Body(g)| && buf[..] == Patch(old(buf[..]), off, Body(g))
    decreases g, 1
  {
    hide U32, Patch, AllowsSubtype, TypeOf;
    ghost var was := buf[..];
    loc := Copy(buf, off, U32(g.gtype));
    loc := Copy(buf, loc, U32(|g.geoms|));
    PatchConcat(was, off, U32(g.gtype), U32(|g.geoms|));
    PatchConcat(was, off, U32(g.gtype) + U32(|g.geoms|), Bodies(g.geoms));
    ok, loc := WriteMembers(g, buf, loc);
  }

  method WriteMembers(g: Geom, buf: array<byte>, off: nat) returns (ok: bool, loc: nat)
    requires g.Collection? && ValidGeom(g) && off + |Bodies(g.geoms)| <= buf.Length
    modifies buf
    ensures ok == Accepts(g)
    ensures ok ==> loc == off + |Bodies(g.geoms)| && buf[..] == Patch(old(buf[..]), off, Bodies(g.geoms))
    decreases g, 0
  {
    hide Patch, AllowsSubtype, TypeOf, IsCollection, Body, Accepts, Bodies;
    ghost var was := buf[..];
    var geoms := g.geoms;
    loc := off;
    PatchNothing(was, off);
    NoBodies();
    for i := 0 to |geoms|
      invariant forall k | 0 <= k < i :: AcceptsMember(g, geoms[k])
      invariant loc == off + |Bodies(geoms[..i])| <= buf.Length
      invariant buf[..] == Patch(was, off, Bodies(geoms[..i]))
    {
      AcceptsEach(g);
      if g.flags.z != geoms[i].flags.z || g.flags.m != geoms[i].flags.m {
        return false, loc;
      }
      BodiesAppend(geoms, i);
      BodiesFit(geoms, i + 1);
      PatchConcat(was, off, Bodies(geoms[..i]), Body(geoms[i]));
      ok, loc := WriteAny(geoms[i], buf, loc);
      if !ok { return false, loc; }
    }
    assert geoms[..|geoms|] == geoms;
    AcceptsEach(g);
    ok := true;
  }

  predicate AcceptsMember(g: Geom, member: Geom) {
    member.flags.z == g.flags.z && member.flags.m == g.flags.m && Accepts(member)
  }

  lemma AcceptsEach(g: Geom)
    requires g.Collection?
    ensures Accepts(g) <==> forall k | 0 <= k < |g.geoms| :: AcceptsMember(g, g.geoms[k])
  {
  }

  lemma NoBodies()
    ensures Bodies([]) == []
  {
  }

  /** Writes a geometry at `off`, or stops at the first mismatch of dimensions. */
  method WriteAny(g: Geom, buf: array<byte>, off: nat) returns (ok: bool, loc: nat)
    requires ValidGeom(g) && off + |Body(g)| <= buf.Length
    modifies buf
    ensures ok == Accepts(g)
    ensures ok ==> loc == off + |Body(g)| && buf[..] == Patch(old(buf[..]), off, Body(g))
    decreases g, 2
  {
    hide Patch;
    match g
    case Simple(_, _, _, _, _) => ok, loc := WriteSimple(g, buf, off);
    case Polygon(_, _, _, _) => ok, loc := WritePolygon(g, buf, off);
    case Collection(_, _, _, _, _) => ok, loc := WriteCollection(g, buf, off);
  }

  /** Reserves the declared size and fills exactly that. */
  method WriteWhole(e: Env, g: Geom) returns (buf: array<byte>)
    requires IsEnv(e) && Fits(g)
    ensures fresh(buf) && buf[..] == Written(e, g)
  {
    hide Patch, ValidGeom, Uniform, Body, BodySize, IsEnv, U32, SridBytes, G2Flags, ExtendedBytes, BoxPart, Accepts,
         HeaderSize, BoxFits, At, Aligned;
    SizeAgrees(e, g);
    HeaderLength(e, g);
    UniformAccepted(g, g.flags.z, g.flags.m);
    buf := new byte[TotalSize(g)](_ => 0);
    ghost var was := buf[..];
    var loc := Copy(buf, 0, Head(g));
    loc := Copy(buf, loc, ExtendedBytes(g.flags));
    PatchConcat(was, 0, Head(g), ExtendedBytes(g.flags));
    loc := Copy(buf, loc, BoxPart(e, g));
    PatchConcat(was, 0, Head(g) + ExtendedBytes(g.flags), BoxPart(e, g));
    var ok;
    ok, loc := WriteAny(g, buf, loc);
    ghost var head := Head(g) + ExtendedBytes(g.flags) + BoxPart(e, g);
    PatchConcat(was, 0, head, Body(g));
    assert Written(e, g) == head + Body(g);
    PatchAll(was, Written(e, g));
  }

  lemma PatchAll(s: seq<byte>, e: seq<byte>)
    requires |e| == |s|
    ensures Patch(s, 0, e) == e
  {
  }

  // ---------- reading ----------

  /** The rings read so far, followed by what reading the rest gives. */
  ghost function Followed<T>(done: seq<T>, rest: Result<(seq<T>, nat)>): Result<(seq<T>, nat)> {
    match rest
    case Ok((more, end)) => Ok((done + more, end))
    case Err => Err
  }

  lemma FollowedNothing<T>(rest: Result<(seq<T>, nat)>)
    ensures Followed([], rest) == rest
  {
    if rest.Ok? { assert [] + rest.value.0 == rest.value.0; }
  }

  lemma FollowedStep<T>(done: seq<T>, x: T, rest: Result<(seq<T>, nat)>)
    ensures Followed(done, Followed([x], rest)) == Followed(done + [x], rest)
  {
    if rest.Ok? { assert done + ([x] + rest.value.0) == (done + [x]) + rest.value.0; }
  }

  method ReadPolygon(buf: seq<byte>, pos: nat, flags: LwFlags, srid: int) returns (r: Result<(Geom, nat)>)
    requires pos + 8 <= |buf|
    ensures r == DecodePolygon(buf, pos, flags, srid)
  {
    hide ReadU32, NDims, DecodeRings;
    var nrings := ReadU32(buf, pos + 4);
    var ordinates := pos + 8;
    if nrings > 0 {
      ordinates := ordinates + nrings * 4;
      if nrings % 2 == 1 {
        ordinates := ordinates + 4;
      }
    }
    var rings := ReadRings(buf, pos + 8, ordinates, nrings, flags.z, flags.m);
    r := match rings
         case Ok((rs, next)) => Ok((Polygon(flags, srid, None, rs), next))
         case Err => Err;
  }

  method ReadRings(buf: seq<byte>, first: nat, start: nat, nrings: nat, z: bool, m: bool)
      returns (r: Result<(seq<PointArray>, nat)>)
    ensures r == DecodeRings(buf, first, start, nrings, z, m)
  {
    hide ReadU32, PointBytes, Followed;
    ghost var whole := DecodeRings(buf, first, start, nrings, z, m);
    var counts: nat, ordinates: nat, rings: seq<PointArray> := first, start, [];
    FollowedNothing(whole);
    for i := 0 to nrings
      invariant whole == Followed(rings, DecodeRings(buf, counts, ordinates, nrings - i, z, m))
    {
      FollowedError(rings);
      if counts + 4 > |buf| {
        return Err;
      }
      var npoints := ReadU32(buf, counts);
      counts := counts + 4;
      var next := ordinates + PointBytes(npoints, z, m);
      if next > |buf| {
        return Err;
      }
      var pa := PointArray(z, m, npoints, buf[ordinates..next]);
      RingsStep(buf, counts - 4, ordinates, nrings - i, z, m);
      FollowedStep(rings, pa, DecodeRings(buf, counts, next, nrings - i - 1, z, m));
      rings := rings + [pa];
      ordinates := next;
    }
    FollowedEnd(rings, ordinates);
    FollowedError(rings);
    r := if ordinates <= |buf| then Ok((rings, ordinates)) else Err;
  }

  lemma FollowedEnd<T>(done: seq<T>, end: nat)
    ensures Followed(done, Ok(([], end))) == Ok((done, end))
  {
    assert done + [] == done;
  }

  lemma FollowedError<T>(done: seq<T>)
    ensures Followed(done, Err) == Err
  {
  }

  lemma RingsStep(buf: seq<byte>, counts: nat, ordinates: nat, n: nat, z: bool, m: bool)
    requires n > 0 && counts + 4 <= |buf| && ordinates + PointBytes(ReadU32(buf, counts), z, m) <= |buf|
    ensures var next := ordinates + PointBytes(ReadU32(buf, counts), z, m);
            DecodeRings(buf, counts, ordinates, n, z, m) ==
            Followed([PointArray(z, m, ReadU32(buf, counts), buf[ordinates..next])],
                     DecodeRings(buf, counts + 4, next, n - 1, z, m))
  {
  }

  method ReadCollection(buf: seq<byte>, pos: nat, flags: LwFlags, srid: int) returns (r: Result<(Geom, nat)>)
    requires pos + 8 <= |buf| && IsCollection(ReadU32(buf, pos))
    ensures r == Decode(buf, pos, flags, srid)
    decreases |buf| - pos, 0
  {
    hide ReadU32, NDims, AllowsSubtype;
    var t, ngeoms := ReadU32(buf, pos), ReadU32(buf, pos + 4);
    var sub := flags.(bbox := false);
    ghost var whole := DecodeMany(buf, pos + 8, t, ngeoms, sub, srid);
    var geoms: seq<Geom> := [];
    var at: nat := pos + 8;
    FollowedNothing(whole);
    for i := 0 to ngeoms
      invariant pos < at && whole == Followed(geoms, DecodeMany(buf, at, t, ngeoms - i, sub, srid))
    {
      if at + 4 > |buf| || !AllowsSubtype(t, ReadU32(buf, at)) {
        return Err;
      }
      var part := ReadAny(buf, at, sub, srid);
      if part.Err? {
        return Err;
      }
      FollowedStep(geoms, part.value.0, DecodeMany(buf, part.value.1, t, ngeoms - i - 1, sub, srid));
      geoms := geoms + [part.value.0];
      at := part.value.1;
    }
    assert geoms + [] == geoms;
    r := if at <= |buf| then Ok((Collection(flags, srid, None, t, geoms), at)) else Err;
  }

  /** Reads one geometry from the buffer. */
  method ReadAny(buf: seq<byte>, pos: nat, flags: LwFlags, srid: int) returns (r: Result<(Geom, nat)>)
    ensures r == Decode(buf, pos, flags, srid)
    decreases |buf| - pos, 1
  {
    hide ReadU32, NDims;
    if pos + 8 > |buf| {
      return Err;
    }
    var t := ReadU32(buf, pos);
    if IsSimple(t) {
      r := DecodeSimple(buf, pos, flags, srid, t);
    } else if t == POLYGONTYPE {
      r := ReadPolygon(buf, pos, flags, srid);
    } else if IsCollection(t) {
      r := ReadCollection(buf, pos, flags, srid);
    } else {
      r := Err;
    }
  }
}
