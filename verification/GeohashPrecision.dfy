/** The precision shared by all the points of a box. */
module GeohashPrecision {
  import opened Wrappers
  import opened GeohashCell
  import opened Geohash

  datatype Box = Box(minX: real, maxX: real, minY: real, maxY: real)

  predicate InBox(b: Box, lon: real, lat: real) {
    b.minX <= lon <= b.maxX && b.minY <= lat <= b.maxY
  }

  predicate InWorld(b: Box) {
    -180.0 <= b.minX <= b.maxX <= 180.0 && -90.0 <= b.minY <= b.maxY <= 90.0
  }

  predicate BoxInCell(b: Box, c: Cell) {
    c.lonLo <= b.minX && b.maxX <= c.lonHi && c.latLo <= b.minY && b.maxY <= c.latHi
  }

  /** All the points of the box have these bits. */
  ghost predicate Shared(b: Box, bits: seq<bool>) {
    forall lon, lat | InBox(b, lon, lat) :: BitsOf(lon, lat, |bits|) == bits
  }

  /** The box lies strictly on one side of the line that splits the cell. */
  predicate Clear(b: Box, c: Cell, even: bool, bit: bool) {
    if even then (if bit then b.minX > MidLon(c) else b.maxX < MidLon(c))
    else (if bit then b.minY > MidLat(c) else b.maxY < MidLat(c))
  }

  /** The line that splits the cell meets the box. */
  predicate Met(b: Box, c: Cell, even: bool) {
    if even then b.minX <= MidLon(c) <= b.maxX else b.minY <= MidLat(c) <= b.maxY
  }

  lemma SharedStep(b: Box, bits: seq<bool>, bit: bool)
    requires Shared(b, bits) && BoxInCell(b, CellOf(bits))
    requires Clear(b, CellOf(bits), |bits| % 2 == 0, bit)
    ensures CellOf(bits + [bit]) == Half(CellOf(bits), |bits| % 2 == 0, bit)
    ensures Shared(b, bits + [bit]) && BoxInCell(b, CellOf(bits + [bit]))
  {
  }

  // ---------- the shrinking loop ----------

  /** How often the extent fits into the width. */
  function Fits(width: real, extent: real): int
    requires extent > 0.0
  {
    (width / extent).Floor
  }

  lemma FitsHalved(width: real, extent: real)
    requires 0.0 < extent <= width
    ensures 0 <= Fits(width / 2.0, extent) < Fits(width, extent)
  {
    var q := width / extent;
    assert q * extent == width;
    assert q >= 1.0;
    assert (q / 2.0) * extent == width / 2.0;
    assert (width / 2.0) / extent == q / 2.0;
  }

  /** What bounds the number of rounds: the box has an extent in one direction at least. */
  function Rounds(b: Box, c: Cell): int {
    if b.minX < b.maxX then Fits(c.lonHi - c.lonLo, b.maxX - b.minX)
    else if b.minY < b.maxY then Fits(c.latHi - c.latLo, b.maxY - b.minY)
    else 0
  }

  lemma RoundsDrop(b: Box, c: Cell, x: bool, y: bool)
    requires BoxInCell(b, c) && (b.minX < b.maxX || b.minY < b.maxY)
    ensures 0 <= Rounds(b, Half(Half(c, true, x), false, y)) < Rounds(b, c)
  {
    hide Fits;
    if b.minX < b.maxX {
      FitsHalved(c.lonHi - c.lonLo, b.maxX - b.minX);
    } else {
      FitsHalved(c.latHi - c.latLo, b.maxY - b.minY);
    }
  }

  lemma PointShares(b: Box)
    requires b.minX == b.maxX && b.minY == b.maxY
    ensures Shared(b, BitsOf(b.minX, b.minY, 100))
  {
  }

  lemma NothingShared(b: Box)
    ensures Shared(b, [])
  {
  }

  /**
   * What the loop found: the bits that all points of the box share, up to the first line that meets
   * the box, the cell they name, and the number of characters they fill; 20 characters for a point.
   */
  ghost predicate Found(b: Box, bits: seq<bool>, precision: nat, bounds: Option<Cell>) {
    && Shared(b, bits)
    && if b.minX == b.maxX && b.minY == b.maxY then precision == 20 && bounds.None? && |bits| == 100
       else precision == |bits| / 5 && bounds == Some(CellOf(bits)) && BoxInCell(b, CellOf(bits)) &&
            Met(b, CellOf(bits), |bits| % 2 == 0)
  }

  method Precision(b: Box) returns (precision: nat, bounds: Option<Cell>)
    requires InWorld(b)
    ensures exists bits :: Found(b, bits, precision, bounds)
  {
    hide Shared, CellOf, Rounds;
    if b.minX == b.maxX && b.minY == b.maxY {
      PointShares(b);
      assert Found(b, BitsOf(b.minX, b.minY, 100), 20, None);
      return 20, None;
    }
    var c, count := WORLD, 0;
    ghost var bits := [];
    Started(0.0, 0.0);
    NothingShared(b);
    while true
      invariant |bits| == count && count % 2 == 0 && c == CellOf(bits)
      invariant Shared(b, bits) && BoxInCell(b, c)
      decreases Rounds(b, c)
    {
      ghost var start := c;
      var lonWidth, latWidth := c.lonHi - c.lonLo, c.latHi - c.latLo;
      var east, west := b.minX > c.lonLo + lonWidth / 2.0, b.maxX < c.lonHi - lonWidth / 2.0;
      if !(east || west) { break; }
      SharedStep(b, bits, east);
      if east { c := c.(lonLo := c.lonLo + lonWidth / 2.0); } else { c := c.(lonHi := c.lonHi - lonWidth / 2.0); }
      bits, count := bits + [east], count + 1;
      var north, south := b.minY > c.latLo + latWidth / 2.0, b.maxY < c.latHi - latWidth / 2.0;
      if !(north || south) { break; }
      SharedStep(b, bits, north);
      if north { c := c.(latLo := c.latLo + latWidth / 2.0); } else { c := c.(latHi := c.latHi - latWidth / 2.0); }
      bits, count := bits + [north], count + 1;
      RoundsDrop(b, start, east, north);
    }
    assert Found(b, bits, count / 5, Some(c));
    return count / 5, Some(c);
  }

  /** Sharing one more bit is lying on one side of the next line. */
  lemma SharesNext(b: Box, bits: seq<bool>, bit: bool)
    requires Shared(b, bits)
    ensures Shared(b, bits + [bit]) <==>
            forall lon, lat | InBox(b, lon, lat) :: Upper(CellOf(bits), |bits| % 2 == 0, lon, lat) == bit
  {
    hide CellOf, BitsOf, Upper, InBox;
    forall lon, lat | InBox(b, lon, lat)
      ensures BitsOf(lon, lat, |bits| + 1) == bits + [bit] <==> Upper(CellOf(bits), |bits| % 2 == 0, lon, lat) == bit
    {
      BitStep(lon, lat, bits);
      assert BitsOf(lon, lat, |bits| + 1)[|bits|] == Upper(CellOf(bits), |bits| % 2 == 0, lon, lat);
    }
  }

  /**
   * The loop compares strictly, so it stops at any line that meets the box. The box shares one more
   * bit all the same exactly when its lower edge lies on that line.
   */
  lemma StopsShort(b: Box, bits: seq<bool>)
    requires InWorld(b) && Shared(b, bits)
    requires Met(b, CellOf(bits), |bits| % 2 == 0)
    ensures (exists bit :: Shared(b, bits + [bit])) <==>
            if |bits| % 2 == 0 then b.minX == MidLon(CellOf(bits)) else b.minY == MidLat(CellOf(bits))
  {
    hide CellOf, BitsOf, Shared;
    SharesNext(b, bits, true);
    SharesNext(b, bits, false);
    var c, even := CellOf(bits), |bits| % 2 == 0;
    assert InBox(b, b.minX, b.minY) && InBox(b, b.maxX, b.maxY);
    assert Upper(c, even, b.maxX, b.maxY);
    if Upper(c, even, b.minX, b.minY) {
      assert Shared(b, bits + [true]);
    } else {
      assert !Shared(b, bits + [true]) && !Shared(b, bits + [false]);
    }
  }

  /** A small box whose western edge lies on the zero meridian: the loop stops at once, yet more bits are shared. */
  lemma StopsShortExample()
    ensures var b := Box(0.0, 0.0001, 1.0, 1.0001);
            Shared(b, []) && Met(b, CellOf([]), true) && Shared(b, [true, true])
  {
    var b := Box(0.0, 0.0001, 1.0, 1.0001);
    SharesNext(b, [], true);
    assert [] + [true] == [true];
    assert CellOf([true]) == Half(WORLD, true, true) by { CellStep([], true); }
    SharesNext(b, [true], true);
    assert [true] + [true] == [true, true];
  }

  // ---------- the geohash of a geometry ----------

  /** Points that share enough bits share the string. */
  lemma SharedString(b: Box, bits: seq<bool>, precision: nat, lon: real, lat: real)
    requires Shared(b, bits) && 5 * precision <= |bits| && InBox(b, lon, lat)
    ensures Encoded(lon, lat, precision) == Chars(bits[..5 * precision])
  {
    hide Chars, BitsOf;
    BitsOfPrefix(lon, lat, |bits|, 5 * precision);
  }

  /** One string names the whole box: every point encodes to it, and its cell contains them all. */
  ghost predicate Names(s: string, b: Box) {
    && (forall lon, lat | InBox(b, lon, lat) :: Encoded(lon, lat, |s|) == s)
    && Decoded(s).Some? && BoxInCell(b, Decoded(s).value)
  }

  /** As long as the bits shared up to the first line that meets the box; 20 characters for a point. */
  ghost predicate Long(s: string, b: Box) {
    if b.minX == b.maxX && b.minY == b.maxY then |s| == 20
    else exists bits :: Shared(b, bits) && Met(b, CellOf(bits), |bits| % 2 == 0) && |s| == |bits| / 5
  }

  /** Off that line, no longer string names the box. */
  lemma NoLonger(b: Box, bits: seq<bool>, s: string)
    requires InWorld(b) && Shared(b, bits) && Met(b, CellOf(bits), |bits| % 2 == 0)
    requires if |bits| % 2 == 0 then b.minX != MidLon(CellOf(bits)) else b.minY != MidLat(CellOf(bits))
    requires |s| > |bits| / 5
    ensures !Names(s, b)
  {
    hide CellOf, BitsOf, Names, Met, Shared, Upper;
    if Names(s, b) {
      NamesShared(s, b, |bits| + 1);
      SharedCorner(b, bits);
      BitStep(b.minX, b.minY, bits);
      StopsShort(b, bits);
    }
  }

  lemma SharedCorner(b: Box, bits: seq<bool>)
    requires InWorld(b) && Shared(b, bits)
    ensures BitsOf(b.minX, b.minY, |bits|) == bits
  {
    hide BitsOf;
    assert InBox(b, b.minX, b.minY);
  }

  /** A box with a name shares all the bits of that name. */
  lemma NamesShared(s: string, b: Box, n: nat)
    requires InWorld(b) && Names(s, b) && n <= 5 * |s|
    ensures Shared(b, BitsOf(b.minX, b.minY, n))
  {
    hide BitsOf, Encoded, Decoded;
    assert InBox(b, b.minX, b.minY);
    BitsOfPrefix(b.minX, b.minY, 5 * |s|, n);
    forall lon, lat | InBox(b, lon, lat) ensures BitsOf(lon, lat, n) == BitsOf(b.minX, b.minY, n) {
      SameString(lon, lat, b.minX, b.minY, |s|);
      BitsOfPrefix(lon, lat, 5 * |s|, n);
    }
  }

  lemma SameString(lon1: real, lat1: real, lon2: real, lat2: real, precision: nat)
    requires Encoded(lon1, lat1, precision) == Encoded(lon2, lat2, precision)
    ensures BitsOf(lon1, lat1, 5 * precision) == BitsOf(lon2, lat2, 5 * precision)
  {
    hide BitsOf, Chars, BitsOfString;
    BitsOfChars(BitsOf(lon1, lat1, 5 * precision));
    BitsOfChars(BitsOf(lon2, lat2, 5 * precision));
  }

  lemma SharedNames(b: Box, bits: seq<bool>, precision: nat)
    requires InWorld(b) && Shared(b, bits) && 5 * precision <= |bits|
    ensures Names(Chars(bits[..5 * precision]), b)
  {
    hide Chars, BitsOf, Shared, Encoded, Decoded, Side;
    var s := Chars(bits[..5 * precision]);
    forall lon, lat | InBox(b, lon, lat) ensures Encoded(lon, lat, |s|) == s {
      SharedString(b, bits, precision, lon, lat);
    }
    DecodeEncoded(b.minX, b.minY, precision);
    DecodeEncoded(b.maxX, b.maxY, precision);
    assert InBox(b, b.minX, b.minY) && InBox(b, b.maxX, b.maxY);
  }

  /** The geohash of a geometry with the given box, if it has one. */
  method GeohashOf(box: Option<Box>, precision: int) returns (r: Option<string>)
    requires box.Some? ==> box.value.minX <= box.value.maxX && box.value.minY <= box.value.maxY
    ensures r.Some? <==> box.Some? && InWorld(box.value)
    ensures r.Some? && precision <= 0 ==> Names(r.value, box.value)
    ensures r.Some? && precision <= 0 ==> Long(r.value, box.value)
    ensures r.Some? && precision > 0 ==>
              var b := box.value;
              r.value == Encoded((b.minX + b.maxX) / 2.0, (b.minY + b.maxY) / 2.0, precision)
  {
    hide Encoded, Chars, Names, Shared, CellOf;
    if box.None? { return None; }
    var b := box.value;
    if b.minX < -180.0 || b.minY < -90.0 || b.maxX > 180.0 || b.maxY > 90.0 { return None; }
    var lon := b.minX + (b.maxX - b.minX) / 2.0;
    var lat := b.minY + (b.maxY - b.minY) / 2.0;
    var digits := precision;
    if precision <= 0 {
      var bounds;
      digits, bounds := Precision(b);
      ghost var bits :| Found(b, bits, digits, bounds);
      SharedNames(b, bits, digits);
      SharedString(b, bits, digits, lon, lat);
    }
    var s := EncodePoint(lon, lat, digits);
    return Some(s);
  }
}
