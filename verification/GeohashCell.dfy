/** Geohash cells: repeated halving of the world, and the bits that name each half. */
module GeohashCell {
  import opened Powers

  datatype Cell = Cell(lonLo: real, lonHi: real, latLo: real, latHi: real)

  const WORLD := Cell(-180.0, 180.0, -90.0, 90.0)

  function MidLon(c: Cell): real { (c.lonLo + c.lonHi) / 2.0 }
  function MidLat(c: Cell): real { (c.latLo + c.latHi) / 2.0 }

  // ---------- cells and bits ----------

  /** The half of a cell that a bit selects: even bits split longitude, odd ones latitude. */
  function Half(c: Cell, even: bool, bit: bool): Cell {
    if even then (if bit then c.(lonLo := MidLon(c)) else c.(lonHi := MidLon(c)))
    else (if bit then c.(latLo := MidLat(c)) else c.(latHi := MidLat(c)))
  }

  /** The cell of a bit string. */
  function CellOf(bits: seq<bool>): Cell {
    if bits == [] then WORLD
    else
      var n := |bits| - 1;
      Half(CellOf(bits[..n]), n % 2 == 0, bits[n])
  }

  predicate Upper(c: Cell, even: bool, lon: real, lat: real) {
    if even then lon >= MidLon(c) else lat >= MidLat(c)
  }

  /** The first `n` bits of a point: in which half it lies, again and again. */
  function BitsOf(lon: real, lat: real, n: nat): (bits: seq<bool>)
    ensures |bits| == n
  {
    if n == 0 then []
    else
      var before := BitsOf(lon, lat, n - 1);
      before + [Upper(CellOf(before), (n - 1) % 2 == 0, lon, lat)]
  }

  predicate InCell(c: Cell, lon: real, lat: real) {
    c.lonLo <= lon <= c.lonHi && c.latLo <= lat <= c.latHi
  }

  /** In the cell, and not on its eastern or northern edge. */
  predicate Inside(c: Cell, lon: real, lat: real) {
    c.lonLo <= lon < c.lonHi && c.latLo <= lat < c.latHi
  }

  /** The cell of a point contains it. */
  lemma {:induction false} CellOfBitsOf(lon: real, lat: real, n: nat)
    requires InCell(WORLD, lon, lat)
    ensures InCell(CellOf(BitsOf(lon, lat, n)), lon, lat)
  {
    if n > 0 {
      CellOfBitsOf(lon, lat, n - 1);
      var bits := BitsOf(lon, lat, n);
      assert bits[..n - 1] == BitsOf(lon, lat, n - 1);
    }
  }

  /** `total` halved `k` times. */
  function Halved(total: real, k: nat): real {
    if k == 0 then total else Halved(total, k - 1) / 2.0
  }

  lemma {:induction false} HalvedIsQuotient(total: real, k: nat)
    ensures Halved(total, k) == Side(total, k)
  {
    if k > 0 {
      HalvedIsQuotient(total, k - 1);
      QuotientOfQuotient(total, Pow(2, k - 1) as real);
    }
  }

  lemma QuotientOfQuotient(total: real, p: real)
    requires p > 0.0
    ensures (total / p) / 2.0 == total / (2.0 * p)
  {
  }

  /** The side `total` has after `k` halvings. */
  function Side(total: real, k: nat): real {
    total / (Pow(2, k) as real)
  }

  /** A cell is as wide and as high as its number of bits says. */
  lemma {:induction false} CellSize(bits: seq<bool>)
    ensures var c := CellOf(bits);
            && c.lonHi - c.lonLo == Side(360.0, (|bits| + 1) / 2)
            && c.latHi - c.latLo == Side(180.0, |bits| / 2)
  {
    CellHalved(bits);
    HalvedIsQuotient(360.0, (|bits| + 1) / 2);
    HalvedIsQuotient(180.0, |bits| / 2);
  }

  lemma {:induction false} CellHalved(bits: seq<bool>)
    ensures var c := CellOf(bits);
            && c.lonHi - c.lonLo == Halved(360.0, (|bits| + 1) / 2)
            && c.latHi - c.latLo == Halved(180.0, |bits| / 2)
  {
    if bits != [] { CellHalved(bits[..|bits| - 1]); }
  }

  // ---------- bits as numbers ----------

  function Append(k: nat, bit: bool): nat {
    2 * k + if bit then 1 else 0
  }

  /** The number that the bits at even places write: the column of the cell, counted from the west. */
  function Column(bits: seq<bool>): nat {
    if bits == [] then 0
    else
      var n := |bits| - 1;
      if n % 2 == 0 then Append(Column(bits[..n]), bits[n]) else Column(bits[..n])
  }

  /** The number that the bits at odd places write: the row of the cell, counted from the south. */
  function Row(bits: seq<bool>): nat {
    if bits == [] then 0
    else
      var n := |bits| - 1;
      if n % 2 == 1 then Append(Row(bits[..n]), bits[n]) else Row(bits[..n])
  }

  function Steps(k: nat, w: real): real {
    k as real * w
  }

  lemma StepsHalved(k: nat, bit: bool, w: real)
    ensures Steps(Append(k, bit), w / 2.0) == Steps(k, w) + if bit then w / 2.0 else 0.0
  {
  }

  /** A cell lies as far from the western and southern edges of the world as its column and row say. */
  lemma {:induction false} CellPlace(bits: seq<bool>)
    ensures var c := CellOf(bits);
            && c.lonLo + 180.0 == Steps(Column(bits), Halved(360.0, (|bits| + 1) / 2))
            && c.latLo + 90.0 == Steps(Row(bits), Halved(180.0, |bits| / 2))
  {
    hide Steps, Append;
    if bits == [] {
      NoSteps();
    } else {
      var n := |bits| - 1;
      CellPlace(bits[..n]);
      CellHalved(bits[..n]);
      StepsHalved(Column(bits[..n]), bits[n], Halved(360.0, (n + 1) / 2));
      StepsHalved(Row(bits[..n]), bits[n], Halved(180.0, n / 2));
    }
  }

  lemma StepsNext(k: nat, w: real)
    ensures Steps(k + 1, w) == Steps(k, w) + w
  {
  }

  lemma NoSteps()
    ensures forall w :: Steps(0, w) == 0.0
  {
  }

  lemma {:induction false} InsideOfBitsOf(lon: real, lat: real, n: nat)
    requires Inside(WORLD, lon, lat)
    ensures Inside(CellOf(BitsOf(lon, lat, n)), lon, lat)
  {
    if n > 0 {
      InsideOfBitsOf(lon, lat, n - 1);
      BitStep(lon, lat, BitsOf(lon, lat, n - 1));
    }
  }

  lemma Scaled(a: real, b: real, w: real)
    requires w > 0.0 && a < b
    ensures a * w < b * w
  {
  }

  lemma FloorIs(q: real, k: nat)
    requires k as real <= q < k as real + 1.0
    ensures q.Floor == k
  {
  }

  lemma QuotientTimes(x: real, w: real)
    requires w > 0.0
    ensures x / w * w == x
  {
  }

  lemma FloorOf(x: real, w: real, k: nat)
    requires w > 0.0 && Steps(k, w) <= x < Steps(k + 1, w)
    ensures (x / w).Floor == k
  {
    var q := x / w;
    QuotientTimes(x, w);
    if q < k as real {
      Scaled(q, k as real, w);
      assert false;
    } else if k as real + 1.0 < q {
      Scaled(k as real + 1.0, q, w);
      assert false;
    } else {
      FloorIs(q, k);
    }
  }

  lemma {:induction false} SidePositive(total: real, k: nat)
    requires total > 0.0
    ensures Halved(total, k) > 0.0
  {
    if k > 0 { SidePositive(total, k - 1); }
  }

  /** The bits of a point interleave the binary digits of two quotients: its distances by the sides of a cell. */
  lemma BitsAreDigits(lon: real, lat: real, n: nat)
    requires Inside(WORLD, lon, lat)
    ensures Column(BitsOf(lon, lat, n)) == ((lon + 180.0) / Side(360.0, (n + 1) / 2)).Floor
    ensures Row(BitsOf(lon, lat, n)) == ((lat + 90.0) / Side(180.0, n / 2)).Floor
  {
    hide Side, Halved, Steps, CellOf, BitsOf, Column, Row;
    var bits := BitsOf(lon, lat, n);
    var w, h := Halved(360.0, (n + 1) / 2), Halved(180.0, n / 2);
    InsideOfBitsOf(lon, lat, n);
    CellPlace(bits);
    CellHalved(bits);
    SidePositive(360.0, (n + 1) / 2);
    SidePositive(180.0, n / 2);
    HalvedIsQuotient(360.0, (n + 1) / 2);
    HalvedIsQuotient(180.0, n / 2);
    StepsNext(Column(bits), w);
    StepsNext(Row(bits), h);
    FloorOf(lon + 180.0, w, Column(bits));
    FloorOf(lat + 90.0, h, Row(bits));
  }

  // ---------- nesting ----------

  ghost predicate SubCell(a: Cell, b: Cell) {
    b.lonLo <= a.lonLo <= a.lonHi <= b.lonHi && b.latLo <= a.latLo <= a.latHi <= b.latHi
  }

  /** Shorter bit strings have enclosing cells. */
  lemma {:induction false} PrefixEncloses(bits: seq<bool>, n: nat)
    requires n <= |bits|
    ensures SubCell(CellOf(bits), CellOf(bits[..n]))
    decreases |bits| - n
  {
    if n == |bits| {
      assert bits[..n] == bits;
      Proper(bits);
    } else {
      var m := |bits| - 1;
      PrefixEncloses(bits[..m], n);
      assert bits[..m][..n] == bits[..n];
    }
  }

  lemma {:induction false} Proper(bits: seq<bool>)
    ensures SubCell(CellOf(bits), CellOf(bits))
  {
    if bits != [] { Proper(bits[..|bits| - 1]); }
  }

  lemma CellStep(bits: seq<bool>, bit: bool)
    ensures CellOf(bits + [bit]) == Half(CellOf(bits), |bits| % 2 == 0, bit)
  {
  }

  /** A bit more: the same test and the same halving in the bits and in the cell. */
  lemma BitStep(lon: real, lat: real, bits: seq<bool>)
    requires bits == BitsOf(lon, lat, |bits|)
    ensures var n := |bits|;
            var upper := Upper(CellOf(bits), n % 2 == 0, lon, lat);
            && bits + [upper] == BitsOf(lon, lat, n + 1)
            && CellOf(bits + [upper]) == Half(CellOf(bits), n % 2 == 0, upper)
  {
  }

  lemma HalfInside(c: Cell, even: bool, bit: bool, lon: real, lat: real)
    requires SubCell(c, c) && Inside(Half(c, even, bit), lon, lat)
    ensures Inside(c, lon, lat) && bit == Upper(c, even, lon, lat)
  {
  }

  /** Every point inside the cell of a bit string has exactly these bits. */
  lemma {:induction false} BitsOfCell(bits: seq<bool>, lon: real, lat: real)
    requires Inside(CellOf(bits), lon, lat)
    ensures BitsOf(lon, lat, |bits|) == bits
  {
    hide Half, Upper, Inside;
    if bits != [] {
      var n := |bits| - 1;
      var before := bits[..n];
      assert bits == before + [bits[n]];
      CellStep(before, bits[n]);
      Proper(before);
      HalfInside(CellOf(before), n % 2 == 0, bits[n], lon, lat);
      BitsOfCell(before, lon, lat);
      BitStep(lon, lat, before);
    }
  }

  lemma {:induction false} BitsOfPrefix(lon: real, lat: real, n: nat, m: nat)
    requires m <= n
    ensures BitsOf(lon, lat, n)[..m] == BitsOf(lon, lat, m)
    decreases n
  {
    hide CellOf, Upper;
    if m < n {
      BitsOfPrefix(lon, lat, n - 1, m);
      assert BitsOf(lon, lat, n)[..m] == BitsOf(lon, lat, n - 1)[..m];
    }
  }
}
