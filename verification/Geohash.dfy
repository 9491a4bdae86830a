/** Geohash strings: encoding a point and decoding a cell. */
module Geohash {
  import opened GeohashCell
  import opened Wrappers

  // ---------- characters ----------

  const BASE32 := "0123456789bcdefghjkmnpqrstuvwxyz"

  function Letter(v: nat): char
    requires v < 32
  {
    BASE32[v]
  }

  function Weight(j: nat): (w: nat)
    ensures w > 0
  {
    if j == 0 then 16 else if j == 1 then 8 else if j == 2 then 4 else if j == 3 then 2 else 1
  }

  /** Up to five bits, the first one weighing 16. */
  function Value(bits: seq<bool>): (v: nat)
    requires |bits| <= 5
    ensures v < 32
  {
    (if |bits| > 0 && bits[0] then 16 else 0) + (if |bits| > 1 && bits[1] then 8 else 0) +
    (if |bits| > 2 && bits[2] then 4 else 0) + (if |bits| > 3 && bits[3] then 2 else 0) +
    (if |bits| > 4 && bits[4] then 1 else 0)
  }

  lemma ValueStep(bits: seq<bool>, bit: bool)
    requires |bits| < 5
    ensures Value(bits + [bit]) == Value(bits) + if bit then Weight(|bits|) else 0
  {
  }

  function BitsOfValue(v: nat): (bits: seq<bool>)
    requires v < 32
    ensures |bits| == 5
  {
    [v >= 16, v % 16 >= 8, v % 8 >= 4, v % 4 >= 2, v % 2 == 1]
  }

  lemma ValueOfBits(v: nat)
    requires v < 32
    ensures Value(BitsOfValue(v)) == v
  {
  }

  lemma BitsOfValueOf(bits: seq<bool>)
    requires |bits| == 5
    ensures BitsOfValue(Value(bits)) == bits
  {
  }

  lemma BitOfValue(v: nat, j: nat)
    requires v < 32 && j < 5
    ensures BitsOfValue(v)[j] == (v / Weight(j) % 2 == 1)
  {
    HalvesOf(v, 8);
    HalvesOf(v, 4);
    HalvesOf(v, 2);
  }

  lemma HalvesOf(v: nat, w: nat)
    requires w in {2, 4, 8}
    ensures (v % (2 * w) >= w) == (v / w % 2 == 1)
  {
    var q, r := v / (2 * w), v % (2 * w);
    assert v == 2 * w * q + r;
    if r >= w { assert v / w == 2 * q + 1; } else { assert v / w == 2 * q; }
  }

  function ToLower(c: char): char {
    if 'A' <= c <= 'Z' then (c as int + 32) as char else c
  }

  /** `strchr` on the alphabet, from position `from` on. */
  function IndexFrom(c: char, from: nat): Option<nat>
    requires from <= 32
    decreases 32 - from
  {
    if from == 32 then None else if Letter(from) == c then Some(from) else IndexFrom(c, from + 1)
  }

  lemma {:induction false} IndexSound(c: char, from: nat)
    requires from <= 32
    ensures match IndexFrom(c, from)
            case Some(v) => from <= v < 32 && Letter(v) == c
            case None => forall v | from <= v < 32 :: Letter(v) != c
    decreases 32 - from
  {
    if from < 32 && Letter(from) != c { IndexSound(c, from + 1); }
  }

  /** The alphabet is ascending and has no capitals. */
  lemma AlphabetStep(v: nat)
    requires v < 31
    ensures Letter(v) < Letter(v + 1)
  {
  }

  lemma {:induction false} AlphabetAscends(v: nat, w: nat)
    requires v < w < 32
    ensures Letter(v) < Letter(w)
  {
    AlphabetStep(w - 1);
    if v < w - 1 { AlphabetAscends(v, w - 1); }
  }

  lemma LetterCode(v: nat)
    requires v < 32
    ensures Letter(v) as int ==
            v + if v < 10 then 48 else if v < 17 then 88 else if v < 19 then 89 else if v < 21 then 90 else 91
  {
  }

  /** It is made of the digits and of all lower-case letters but a, i, l and o. */
  lemma AlphabetIs(c: char)
    ensures (exists v: nat :: v < 32 && Letter(v) == c) <==>
            '0' <= c <= '9' || ('a' < c <= 'z' && c !in "ilo")
  {
    hide Letter;
    var code := c as int;
    forall v: nat | v < 32 && Letter(v) == c ensures '0' <= c <= '9' || ('a' < c <= 'z' && c !in "ilo") {
      LetterCode(v);
    }
    if '0' <= c <= '9' {
      LetterCode(code - 48);
      assert Letter(code - 48) == c;
    } else if 'a' < c <= 'z' && c !in "ilo" {
      var v := code - if code < 105 then 88 else if code < 108 then 89 else if code < 111 then 90 else 91;
      LetterCode(v);
      assert Letter(v) == c;
    }
  }

  lemma AlphabetLower(v: nat)
    requires v < 32
    ensures ToLower(Letter(v)) == Letter(v)
  {
  }

  function Digit(c: char): (r: Option<nat>)
    ensures r.Some? ==> r.value < 32 && Letter(r.value) == ToLower(c)
  {
    IndexSound(ToLower(c), 0);
    IndexFrom(ToLower(c), 0)
  }

  lemma DigitOfLetter(v: nat)
    requires v < 32
    ensures Digit(Letter(v)) == Some(v)
  {
    AlphabetLower(v);
    IndexSound(Letter(v), 0);
    var w := Digit(Letter(v)).value;
    if v < w { AlphabetAscends(v, w); } else if w < v { AlphabetAscends(w, v); }
  }

  /** Capitals are read as the small letters, and nothing outside the alphabet is read. */
  lemma CaseIgnored(c: char)
    ensures 'A' <= c <= 'Z' ==> Digit(c) == Digit((c as int + 32) as char)
    ensures Digit(c).Some? <==> '0' <= c <= '9' || ('a' < c <= 'z' && c !in "ilo") || ('A' < c <= 'Z' && c !in "ILO")
  {
    hide Letter;
    var small := ToLower(c);
    AlphabetIs(small);
    IndexSound(small, 0);
    if v: nat :| v < 32 && Letter(v) == small { assert Digit(c).Some?; }
  }

  /** The string of a multiple of five bits. */
  function Chars(bits: seq<bool>): (s: string)
    requires |bits| % 5 == 0
    ensures 5 * |s| == |bits|
  {
    if bits == [] then []
    else
      var n := |bits| - 5;
      Chars(bits[..n]) + [Letter(Value(bits[n..]))]
  }

  /** The bits of a string, when all its characters are valid. */
  function BitsOfString(s: string): (r: Option<seq<bool>>)
    ensures r.Some? ==> |r.value| == 5 * |s|
  {
    if s == [] then Some([])
    else
      var n := |s| - 1;
      match BitsOfString(s[..n])
      case None => None
      case Some(bits) =>
        match Digit(s[n])
        case None => None
        case Some(v) => Some(bits + BitsOfValue(v))
  }

  lemma {:induction false} BitsOfChars(bits: seq<bool>)
    requires |bits| % 5 == 0
    ensures BitsOfString(Chars(bits)) == Some(bits)
  {
    hide Letter, Digit, Value, BitsOfValue, BitsOfString;
    if bits == [] {
      NoString();
    } else {
      var n := |bits| - 5;
      BitsOfChars(bits[..n]);
      StringEnd(Chars(bits[..n]), Letter(Value(bits[n..])));
      DigitOfLetter(Value(bits[n..]));
      BitsOfValueOf(bits[n..]);
      assert bits == bits[..n] + bits[n..];
    }
  }

  lemma NoString()
    ensures BitsOfString([]) == Some([])
  {
  }

  lemma StringEnd(s: string, c: char)
    requires BitsOfString(s).Some?
    ensures BitsOfString(s + [c]) ==
            if Digit(c).None? then None else Some(BitsOfString(s).value + BitsOfValue(Digit(c).value))
  {
    hide Letter, Digit, BitsOfValue;
    assert (s + [c])[..|s|] == s;
  }

  function Lower(s: string): string {
    seq(|s|, i requires 0 <= i < |s| => ToLower(s[i]))
  }

  lemma {:induction false} CharsOfBits(s: string)
    requires BitsOfString(s).Some?
    ensures Chars(BitsOfString(s).value) == Lower(s)
  {
    hide Letter, Digit, Value, BitsOfValue, ToLower;
    if s != [] {
      var n := |s| - 1;
      CharsOfBits(s[..n]);
      var bits, last := BitsOfString(s[..n]).value, BitsOfValue(Digit(s[n]).value);
      ValueOfBits(Digit(s[n]).value);
      assert (bits + last)[..5 * n] == bits && (bits + last)[5 * n..] == last;
      assert Lower(s) == Lower(s[..n]) + [ToLower(s[n])];
    }
  }

  // ---------- encoding ----------

  /** The geohash of a point. */
  function Encoded(lon: real, lat: real, precision: nat): (s: string)
    ensures |s| == precision
  {
    Chars(BitsOf(lon, lat, 5 * precision))
  }

  lemma CharsStep(done: seq<bool>, five: seq<bool>)
    requires |done| % 5 == 0 && |five| == 5
    ensures Chars(done + five) == Chars(done) + [Letter(Value(five))]
  {
  }

  /** The encoder between two bits: `done` is written out, and `tail` is in the next character. */
  ghost predicate Coding(lon: real, lat: real, done: seq<bool>, tail: seq<bool>, cell: Cell, s: string, ch: nat) {
    && |done| == 5 * |s| && |tail| <= 5
    && done + tail == BitsOf(lon, lat, |done + tail|) && cell == CellOf(done + tail)
    && s == Chars(done) && ch == Value(tail)
  }

  lemma CodeBit(lon: real, lat: real, done: seq<bool>, tail: seq<bool>, cell: Cell, s: string, ch: nat)
    requires Coding(lon, lat, done, tail, cell, s, ch) && |tail| < 5
    ensures var even := (|s| + |tail|) % 2 == 0;
            var upper := Upper(cell, even, lon, lat);
            Coding(lon, lat, done, tail + [upper], Half(cell, even, upper), s,
                   if upper then ch + Weight(|tail|) else ch)
  {
    hide Letter, Value, Weight, Half, Upper, CellOf, BitsOf, Chars;
    var upper := Upper(cell, (|s| + |tail|) % 2 == 0, lon, lat);
    BitStep(lon, lat, done + tail);
    ValueStep(tail, upper);
    assert (done + tail) + [upper] == done + (tail + [upper]);
  }

  lemma CodeChar(lon: real, lat: real, done: seq<bool>, tail: seq<bool>, cell: Cell, s: string, ch: nat)
    requires Coding(lon, lat, done, tail, cell, s, ch) && |tail| == 5
    ensures ch < 32 && Coding(lon, lat, done + tail, [], cell, s + [Letter(ch)], 0)
  {
    hide Letter, Value, CellOf, BitsOf, Chars;
    Started(lon, lat);
    CharsStep(done, tail);
    assert (done + tail) + [] == done + tail;
  }

  lemma CodeEnd(lon: real, lat: real, done: seq<bool>, cell: Cell, s: string, ch: nat)
    requires Coding(lon, lat, done, [], cell, s, ch)
    ensures s == Encoded(lon, lat, |s|)
  {
    hide CellOf, BitsOf, Chars;
    assert done + [] == done;
  }

  lemma CodeStart(lon: real, lat: real)
    ensures Coding(lon, lat, [], [], WORLD, "", 0)
  {
    hide Value, CellOf, BitsOf, Chars;
    Started(lon, lat);
    var none: seq<bool> := [];
    assert none + none == none;
  }

  method EncodePoint(lon: real, lat: real, precision: int) returns (s: string)
    ensures s == Encoded(lon, lat, if precision < 0 then 0 else precision)
  {
    hide Letter, Weight, Half, Upper, Coding, Encoded;
    CodeStart(lon, lat);
    s := "";
    var even: bool, bit: nat, ch: nat := true, 0, 0;
    var cell := WORLD;
    ghost var done, tail := [], [];
    while |s| < precision
      invariant 0 <= bit < 5 && |tail| == bit && even == ((|s| + bit) % 2 == 0)
      invariant |s| <= if precision < 0 then 0 else precision
      invariant |s| == (if precision < 0 then 0 else precision) ==> bit == 0
      invariant Coding(lon, lat, done, tail, cell, s, ch)
      decreases precision - |s|, 5 - bit
    {
      CodeBit(lon, lat, done, tail, cell, s, ch);
      var upper := Upper(cell, even, lon, lat);
      if upper { ch := ch + Weight(bit); }
      cell := Half(cell, even, upper);
      tail := tail + [upper];
      even := !even;
      if bit < 4 {
        bit := bit + 1;
      } else {
        CodeChar(lon, lat, done, tail, cell, s, ch);
        s := s + [Letter(ch)];
        done, tail := done + tail, [];
        bit, ch := 0, 0;
      }
    }
    assert tail == [];
    CodeEnd(lon, lat, done, cell, s, ch);
  }

  lemma Started(lon: real, lat: real)
    ensures BitsOfString([]) == Some([])
    ensures Value([]) == 0 && CellOf([]) == WORLD && BitsOf(lon, lat, 0) == [] && Chars([]) == ""
  {
  }

  // ---------- decoding ----------

  /** The characters a decoder looks at. */
  function Used(s: string, precision: int): string {
    if precision < 0 || precision > |s| then s else s[..precision]
  }

  /** The cell of a geohash; `None` when a character is not in the alphabet. */
  function Decoded(s: string): Option<Cell> {
    match BitsOfString(s)
    case None => None
    case Some(bits) => Some(CellOf(bits))
  }

  method DecodeBox(s: string, precision: int) returns (r: Option<Cell>)
    ensures r == Decoded(Used(s, precision))
  {
    hide Letter, Half, BitsOfValue, Weight, Digit, CellOf, BitsOfString, Used, Decoded;
    var even, cell := true, WORLD;
    var used := if precision < 0 || precision > |s| then |s| else precision;
    UsedIs(s, precision);
    Started(0.0, 0.0);
    ghost var bits := [];
    for i := 0 to used
      invariant BitsOfString(s[..i]) == Some(bits) && even == (|bits| % 2 == 0) && cell == CellOf(bits)
    {
      var found := Digit(s[i]);
      StringStep(s, i);
      if found.None? {
        Undecoded(s, i + 1, used);
        return None;
      }
      even, cell := DecodeDigit(found.value, even, cell, bits);
      bits := bits + BitsOfValue(found.value);
    }
    DecodedIs(s[..used], bits);
    return Some(cell);
  }

  lemma Undecoded(s: string, i: nat, used: nat)
    requires i <= used <= |s| && BitsOfString(s[..i]).None?
    ensures Decoded(s[..used]) == None
  {
    hide BitsOfString;
    assert s[..used][..i] == s[..i];
    BadPrefix(s[..used], i);
  }

  lemma DecodedIs(s: string, bits: seq<bool>)
    requires BitsOfString(s) == Some(bits)
    ensures Decoded(s) == Some(CellOf(bits))
  {
  }

  lemma UsedIs(s: string, precision: int)
    ensures Used(s, precision) == s[..if precision < 0 || precision > |s| then |s| else precision]
  {
    assert s[..|s|] == s;
  }

  lemma StringStep(s: string, i: nat)
    requires i < |s| && BitsOfString(s[..i]).Some?
    ensures BitsOfString(s[..i + 1]) ==
            if Digit(s[i]).None? then None else Some(BitsOfString(s[..i]).value + BitsOfValue(Digit(s[i]).value))
  {
    hide Letter, Digit, BitsOfValue;
    assert s[..i + 1][..i] == s[..i];
  }

  lemma DigitBit(v: nat, j: nat, bits: seq<bool>)
    requires v < 32 && j < 5
    ensures var five := BitsOfValue(v);
            CellOf(bits + five[..j + 1]) ==
            Half(CellOf(bits + five[..j]), (|bits| + j) % 2 == 0, v / Weight(j) % 2 == 1)
  {
    hide Half, BitsOfValue, Weight, CellOf;
    var five := BitsOfValue(v);
    BitOfValue(v, j);
    CellStep(bits + five[..j], five[j]);
    assert bits + five[..j + 1] == bits + five[..j] + [five[j]];
  }

  /** The five halvings of one character. */
  method DecodeDigit(v: nat, even0: bool, cell0: Cell, ghost bits: seq<bool>) returns (even: bool, cell: Cell)
    requires v < 32 && even0 == (|bits| % 2 == 0) && cell0 == CellOf(bits)
    ensures even == !even0 && cell == CellOf(bits + BitsOfValue(v))
  {
    hide Letter, Half, BitsOfValue, Weight, CellOf;
    even, cell := even0, cell0;
    ghost var five := BitsOfValue(v);
    assert bits + five[..0] == bits;
    for j := 0 to 5
      invariant even == ((|bits| + j) % 2 == 0) && cell == CellOf(bits + five[..j])
    {
      DigitBit(v, j, bits);
      cell := Half(cell, even, v / Weight(j) % 2 == 1);
      even := !even;
    }
    assert five[..5] == five;
  }

  lemma {:induction false} BadPrefix(s: string, n: nat)
    requires n <= |s| && BitsOfString(s[..n]).None?
    ensures BitsOfString(s).None?
    decreases |s|
  {
    if n == |s| {
      assert s[..n] == s;
    } else {
      assert s[..|s| - 1][..n] == s[..n];
      BadPrefix(s[..|s| - 1], n);
    }
  }

  // ---------- encoding and decoding undo each other ----------

  /** Decoding an encoded point gives a cell of the stated size that contains it. */
  lemma DecodeEncoded(lon: real, lat: real, precision: nat)
    requires InCell(WORLD, lon, lat)
    ensures var r := Decoded(Encoded(lon, lat, precision));
            && r.Some? && InCell(r.value, lon, lat)
            && r.value.lonHi - r.value.lonLo == Side(360.0, (5 * precision + 1) / 2)
            && r.value.latHi - r.value.latLo == Side(180.0, 5 * precision / 2)
  {
    hide CellOf, BitsOf, Chars, BitsOfString, Side, InCell;
    var bits := BitsOf(lon, lat, 5 * precision);
    BitsOfChars(bits);
    CellOfBitsOf(lon, lat, 5 * precision);
    CellSize(bits);
  }

  /** Encoding any point inside a string's cell gives the string back, in lower case. */
  lemma EncodeDecoded(s: string, lon: real, lat: real)
    requires Decoded(s).Some? && Inside(Decoded(s).value, lon, lat)
    ensures Encoded(lon, lat, |s|) == Lower(s)
  {
    BitsOfCell(BitsOfString(s).value, lon, lat);
    CharsOfBits(s);
  }

  /** The first letter of a geohash of the test suite. */
  lemma KnownLetter()
    ensures Encoded(20.012345, -20.012345, 1) == "k"
  {
    hide CellOf, BitsOf, BitsOfString, Chars;
    Started(20.012345, -20.012345);
    BitStep(20.012345, -20.012345, []);
    assert [] + [true] == [true];
    BitStep(20.012345, -20.012345, [true]);
    assert [true] + [false] == [true, false];
    BitStep(20.012345, -20.012345, [true, false]);
    assert [true, false] + [false] == [true, false, false];
    BitStep(20.012345, -20.012345, [true, false, false]);
    assert [true, false, false] + [true] == [true, false, false, true];
    BitStep(20.012345, -20.012345, [true, false, false, true]);
    assert [true, false, false, true] + [false] == [true, false, false, true, false];
    CharsStep([], BitsOf(20.012345, -20.012345, 5));
    LetterCode(18);
    assert [] + [true, false, false, true, false] == [true, false, false, true, false];
  }

  /** Decoding with a smaller precision gives an enclosing cell. */
  lemma ShorterEncloses(s: string, n: nat)
    requires n <= |s| && Decoded(s).Some?
    ensures Decoded(s[..n]).Some? && SubCell(Decoded(s).value, Decoded(s[..n]).value)
  {
    StringPrefix(s, n);
    PrefixEncloses(BitsOfString(s).value, 5 * n);
  }

  lemma {:induction false} StringPrefix(s: string, n: nat)
    requires n <= |s| && BitsOfString(s).Some?
    ensures BitsOfString(s[..n]) == Some(BitsOfString(s).value[..5 * n])
    decreases |s|
  {
    hide Letter, Digit, BitsOfValue;
    if n == |s| {
      assert s[..n] == s;
      assert BitsOfString(s).value[..5 * n] == BitsOfString(s).value;
    } else {
      var m := |s| - 1;
      StringPrefix(s[..m], n);
      assert s[..m][..n] == s[..n];
      assert BitsOfString(s).value[..5 * n] == BitsOfString(s[..m]).value[..5 * n];
    }
  }
}
