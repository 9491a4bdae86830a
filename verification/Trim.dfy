/** Trimming the binary digits that a number of decimal digits does not need. */
module Trim {
  import opened Powers

  // ---------- double precision bit patterns ----------

  /** The 64 bits of a double, as a number. */
  type Pattern = x: int | 0 <= x < 0x1_0000_0000_0000_0000

  const TWO52 := 0x10_0000_0000_0000

  function Exponent(x: Pattern): (e: nat)
    ensures e < 2048
  {
    x / TWO52 % 2048
  }

  function Fraction(x: Pattern): (f: nat)
    ensures f < TWO52
  {
    x % TWO52
  }

  predicate Finite(x: Pattern) {
    Exponent(x) < 2047
  }

  predicate Normal(x: Pattern) {
    0 < Exponent(x) < 2047
  }

  /** The magnitude of a finite double, in units of 2^-1074. */
  function Magnitude(x: Pattern): nat {
    var e := Exponent(x);
    if e == 0 then Fraction(x) else (TWO52 + Fraction(x)) * Pow(2, e - 1)
  }

  // ---------- trimming ----------

  /** Integer division as C does it, towards zero. */
  function Quotient(a: int, b: int): int
    requires b > 0
  {
    if a >= 0 then a / b else -(-a / b)
  }

  /** The binary digits after the point that `digits` decimal ones stand for. */
  function Places(digits: int): int {
    Quotient(digits * 851 + 255, 256) - if digits < 0 then 1 else 0
  }

  /** The fraction bits to keep. */
  function Needed(x: Pattern, digits: int): int {
    1 + (Exponent(x) - 1023) + Places(digits)
  }

  /** The fraction bits to clear. */
  function Surplus(x: Pattern, digits: int): (k: nat)
    ensures k < 52
  {
    var n := Needed(x, digits);
    if n >= 52 then 0 else if n < 1 then 51 else 52 - n
  }

  /** Masking with all ones shifted left by `k`. */
  function Cleared(x: nat, k: nat): (r: nat)
    ensures r <= x
  {
    CutDown(x, Pow(2, k));
    x / Pow(2, k) * Pow(2, k)
  }

  lemma CutDown(x: nat, p: nat)
    requires p > 0
    ensures 0 <= x / p * p <= x && x - x / p * p == x % p
  {
  }

  function Trimmed(x: Pattern, digits: int): Pattern {
    Cleared(x, Surplus(x, digits))
  }

  lemma SplitPow52(k: nat)
    requires k <= 52
    ensures Pow(2, k) * Pow(2, 52 - k) == TWO52
  {
    hide Pow;
    PowAdd(2, k, 52 - k);
    TwoTo52();
  }

  lemma TwoTo52()
    ensures Pow(2, 52) == TWO52
  {
    assert Pow(2, 4) == 16;
    Square(2, 4, 0x10);
    Square(2, 8, 0x100);
    Square(2, 16, 0x1_0000);
    PowAdd(2, 32, 16);
    PowAdd(2, 48, 4);
  }

  lemma DivideSum(h: nat, q: nat, p: nat, f: nat)
    requires p > 0
    ensures (h * (p * q) + f) / p == h * q + f / p
  {
    CutDown(f, p);
    Rotate(h, p, q);
    Distribute(h * q, f / p, p);
    QuotientIs(h * q + f / p, p, f % p);
  }

  lemma Rotate(x: nat, y: nat, z: nat)
    ensures x * (y * z) == (x * z) * y
  {
  }

  lemma Distribute(x: nat, y: nat, z: nat)
    ensures (x + y) * z == x * z + y * z
  {
  }

  lemma QuotientIs(a: nat, p: nat, r: nat)
    requires r < p
    ensures (a * p + r) / p == a
  {
    var n := a * p + r;
    var q := n / p;
    CutDown(n, p);
    if a < q {
      MultiplyBoth(a + 1, q, p, p);
      assert false;
    } else if q < a {
      MultiplyBoth(q + 1, a, p, p);
      assert false;
    }
  }

  /** Clearing fewer than 52 bits touches the fraction only. */
  lemma ClearedParts(x: Pattern, k: nat)
    requires k <= 52
    ensures Cleared(x, k) / TWO52 == x / TWO52
    ensures Cleared(x, k) % TWO52 == Cleared(x % TWO52, k)
  {
    hide Pow;
    var h, f, p, q := x / TWO52, x % TWO52, Pow(2, k), Pow(2, 52 - k);
    SplitPow52(k);
    DivideSum(h, q, p, f);
    assert x == h * (p * q) + f;
    CutDown(f, p);
    var kept := f / p * p;
    assert x / p * p == h * TWO52 + kept by {
      Distribute(h * q, f / p, p);
      Rotate(h, p, q);
    }
  }

  /** Sign and exponent stay; the fraction loses its low bits. */
  lemma TrimKeeps(x: Pattern, digits: int)
    ensures Trimmed(x, digits) / TWO52 == x / TWO52
    ensures Exponent(Trimmed(x, digits)) == Exponent(x)
    ensures Fraction(Trimmed(x, digits)) == Cleared(Fraction(x), Surplus(x, digits))
  {
    hide Surplus, Cleared;
    ClearedParts(x, Surplus(x, digits));
  }

  lemma TrimIdempotent(x: Pattern, digits: int)
    ensures Trimmed(Trimmed(x, digits), digits) == Trimmed(x, digits)
  {
    hide Pow, Exponent;
    TrimKeeps(x, digits);
    var p := Pow(2, Surplus(x, digits));
    QuotientIs(x / p, p, 0);
  }

  // ---------- what is kept ----------

  /** `c` is 851/256 of the digits: rounded up after the point; cut off before it, with one taken off more. */
  predicate Stands(digits: int, c: int) {
    if digits >= 0 then 256 * c - 256 < 851 * digits <= 256 * c
    else 256 * (-c - 1) <= 851 * -digits - 255 < 256 * -c
  }

  lemma StandsFor(digits: int, c: int)
    ensures Stands(digits, c) <==> c == Places(digits)
  {
  }

  /** Of the 52 fraction bits, those that count less than 2^-(c+1) go, but never the first one. */
  function Dropped(e: nat, c: int): nat {
    if c >= 1074 - e then 0 else if c <= 1022 - e then 51 else 1074 - e - c
  }

  lemma MultipleOf(a: nat, p: nat)
    requires p > 0
    ensures a * p % p == 0
  {
    QuotientIs(a, p, 0);
  }

  /** The fraction is rounded down to a multiple of 2^k, with `k` as above; sign and exponent stay. */
  lemma TrimExactly(x: Pattern, digits: int, c: int)
    requires Stands(digits, c)
    ensures var t, k := Trimmed(x, digits), Dropped(Exponent(x), c);
            && t / TWO52 == x / TWO52 && Exponent(t) == Exponent(x)
            && Fraction(t) % Pow(2, k) == 0 && 0 <= Fraction(x) - Fraction(t) < Pow(2, k)
  {
    hide Pow, Exponent, Fraction, Trimmed, Stands, Places;
    StandsFor(digits, c);
    TrimKeeps(x, digits);
    var p := Pow(2, Surplus(x, digits));
    CutDown(Fraction(x), p);
    MultipleOf(Fraction(x) / p, p);
  }

  /** A finite number is rounded towards zero to a multiple of 2^-(c+1); a normal one keeps two significant bits. */
  lemma TrimTruncates(x: Pattern, digits: int, c: int)
    requires Finite(x) && Stands(digits, c)
    ensures var e := Exponent(x);
            var last := Dropped(e, c) + if e == 0 then 0 else e - 1;
            var less := Magnitude(Trimmed(x, digits));
            less % Pow(2, last) == 0 && 0 <= Magnitude(x) - less < Pow(2, last)
  {
    hide Pow, Exponent, Fraction, Trimmed, Stands, Surplus;
    StandsFor(digits, c);
    TrimLoss(x, digits);
    TrimExactly(x, digits, c);
    var e, k, t := Exponent(x), Dropped(Exponent(x), c), Trimmed(x, digits);
    assert Place(x, digits) == k + if e == 0 then 0 else e - 1 by { DroppedIs(x, digits); }
    if e > 0 {
      SplitPow52(k);
      var p, u := Pow(2, k), Pow(2, e - 1);
      PowAdd(2, k, e - 1);
      CutDown(Fraction(t), p);
      var q := Pow(2, 52 - k) + Fraction(t) / p;
      Distribute(Pow(2, 52 - k), Fraction(t) / p, p);
      assert TWO52 + Fraction(t) == q * p;
      Associate(q, p, u);
      MultipleOf(q, p * u);
    }
  }

  lemma DroppedIs(x: Pattern, digits: int)
    ensures Surplus(x, digits) == Dropped(Exponent(x), Places(digits))
  {
    hide Exponent, Places;
  }

  /** One third, to two digits: six fraction bits stay. */
  lemma TrimExample()
    ensures Trimmed(0x3FD5_5555_5555_5555, 2) == 0x3FD5_4000_0000_0000
  {
    hide Pow;
    TwoTo52();
    SplitPow52(46);
    TwoTo6();
    assert Pow(2, 46) == 0x4000_0000_0000;
    assert Places(2) == 7;
  }

  lemma TwoTo6()
    ensures Pow(2, 6) == 64
  {
    assert Pow(2, 4) == 16;
  }

  // ---------- what is lost ----------

  /** The binary place of the first bit kept, counted from 2^-1074. */
  function Place(x: Pattern, digits: int): nat {
    var e := Exponent(x);
    Surplus(x, digits) + if e == 0 then 0 else e - 1
  }

  /** Trimming never enlarges a number, and takes off less than the first bit kept. */
  lemma TrimLoss(x: Pattern, digits: int)
    ensures 0 <= Magnitude(x) - Magnitude(Trimmed(x, digits)) < Pow(2, Place(x, digits))
  {
    hide Pow, Exponent, Fraction, Surplus, Trimmed;
    TrimKeeps(x, digits);
    var e, f, k := Exponent(x), Fraction(x), Surplus(x, digits);
    var p := Pow(2, k);
    CutDown(f, p);
    if e > 0 {
      var u := Pow(2, e - 1);
      Distribute(TWO52 + f / p * p, f % p, u);
      MultiplyStrict(f % p, p, u, u);
      PowAdd(2, k, e - 1);
    }
  }

  lemma PlaceBound(x: Pattern, digits: int)
    requires Finite(x)
    ensures Needed(x, digits) < 52 ==> Place(x, digits) <= 1074 - Places(digits)
    ensures Needed(x, digits) < 52 && Normal(x) ==> Place(x, digits) <= 1073 - Places(digits)
  {
  }

  /** A loss in units of 2^-1074 is less than 10^-digits. */
  predicate Under(loss: nat, digits: int) {
    if digits >= 0 then loss * Pow(10, digits) < Pow(2, 1074) else loss < Pow(10, -digits) * Pow(2, 1074)
  }

  function Loss(x: Pattern, digits: int): nat {
    TrimLoss(x, digits);
    Magnitude(x) - Magnitude(Trimmed(x, digits))
  }

  lemma NothingLost(x: Pattern, digits: int)
    requires Needed(x, digits) >= 52
    ensures Trimmed(x, digits) == x
  {
  }

  /** From binary to decimal places, for a non-negative number of digits. */
  lemma UnderPlaces(loss: nat, place: nat, d: nat)
    requires loss < Pow(2, place) && place <= 1074 - Places(d)
    ensures Under(loss, d)
  {
    hide Pow;
    var c := Places(d);
    TenBelow(d, c);
    MultiplyStrict(loss, Pow(2, place), Pow(10, d), Pow(2, c));
    PowAdd(2, place, c);
    PowGrows(2, place + c, 1074);
  }

  /** From binary to decimal places, for a negative number of digits. */
  lemma OverPlaces(loss: nat, place: nat, g: nat, n: int)
    requires loss < Pow(2, place) && place <= 1074 + g && n > 0 && Pow(2, g) <= Pow(10, n)
    ensures Under(loss, -n)
  {
    hide Pow;
    PowGrows(2, place, 1074 + g);
    PowAdd(2, 1074, g);
    MultiplyBoth(Pow(2, g), Pow(10, n), Pow(2, 1074), Pow(2, 1074));
  }

  lemma HugeTens(n: nat)
    requires n >= 342
    ensures Pow(2, 1024) <= Pow(10, n)
  {
    hide Pow;
    SmallPowers();
    PowTimes(2, 3, n);
    PowMonotone(8, 10, n);
    PowGrows(2, 1024, 3 * n);
  }

  lemma MagnitudeBound(x: Pattern)
    requires Finite(x)
    ensures Magnitude(x) < Pow(2, 2098)
  {
    hide Pow;
    var e := Exponent(x);
    TwoTo52();
    SmallPowers();
    PowAdd(2, 52, 1);
    PowGrows(2, 53, 2098);
    if e > 0 {
      MultiplyStrict(TWO52 + Fraction(x), Pow(2, 53), Pow(2, e - 1), Pow(2, e - 1));
      PowAdd(2, 53, e - 1);
      PowGrows(2, 52 + e, 2098);
    }
  }

  /** Every finite double moves by less than one unit of the last decimal digit asked for. */
  lemma TrimClose(x: Pattern, digits: int)
    requires Finite(x)
    ensures Under(Loss(x, digits), digits)
  {
    hide Pow, Exponent, Magnitude, Places, Surplus;
    TrimLoss(x, digits);
    if Needed(x, digits) >= 52 {
      NothingLost(x, digits);
    } else {
      PlaceBound(x, digits);
      if digits >= 0 {
        UnderPlaces(Loss(x, digits), Place(x, digits), digits);
      } else {
        CloseNegative(x, -digits);
      }
    }
  }

  lemma NegativePlaces(n: int)
    requires n > 0
    ensures var g := (851 * n - 255) / 256; Places(-n) == -g - 1 && g >= 0
  {
  }

  lemma CloseNegative(x: Pattern, n: int)
    requires n > 0 && Finite(x) && Needed(x, -n) < 52
    ensures Under(Loss(x, -n), -n)
  {
    hide Pow, Exponent, Magnitude, Under;
    TrimLoss(x, -n);
    NegativePlaces(n);
    var g := (851 * n - 255) / 256;
    PlaceBound(x, -n);
    if n <= 425 {
      TenAbove(n, g);
      OverPlaces(Loss(x, -n), Place(x, -n), g, n);
    } else {
      MagnitudeBound(x);
      HugeTens(n);
      OverPlaces(Loss(x, -n), 2098, 1024, n);
    }
  }

  /** Infinities and NaNs come back unchanged for any number of digits down to -292, and only so far. */
  lemma NonFiniteKept(digits: int)
    ensures (forall x: Pattern | !Finite(x) :: Trimmed(x, digits) == x) <==> digits >= -292
  {
    hide Trimmed, Needed;
    if digits >= -292 {
      forall x: Pattern | !Finite(x) ensures Trimmed(x, digits) == x {
        NonFiniteNeeds(x, digits);
        NothingLost(x, digits);
      }
    } else {
      NanChanged(digits);
    }
  }

  lemma NonFiniteNeeds(x: Pattern, digits: int)
    requires !Finite(x)
    ensures Needed(x, digits) >= 52 <==> digits >= -292
  {
    hide Exponent;
  }

  lemma PartsOf(e: nat, f: nat)
    requires e < 2048 && f < TWO52
    ensures Exponent(e * TWO52 + f) == e && Fraction(e * TWO52 + f) == f
  {
    assert (e * TWO52 + f) / TWO52 == e;
  }

  /** A NaN with a low bit only turns into an infinity. */
  lemma NanChanged(digits: int)
    requires digits < -292
    ensures var nan: Pattern := 2047 * TWO52 + 1; !Finite(nan) && Trimmed(nan, digits) != nan
  {
    hide Pow, Exponent, Fraction, Needed, Trimmed;
    var nan: Pattern := 2047 * TWO52 + 1;
    PartsOf(2047, 1);
    NonFiniteNeeds(nan, digits);
    TrimKeeps(nan, digits);
    OneCleared(Surplus(nan, digits));
  }

  lemma OneCleared(k: nat)
    requires k > 0
    ensures Cleared(1, k) == 0
  {
  }
}
