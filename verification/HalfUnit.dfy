/** When trimming stays within half a unit of the last decimal digit asked for. */
module HalfUnit {
  import opened Powers
  import opened Trim

  /** The binary exponent that trimming takes for 10^n, for `n` digits before the point. */
  function Binary(n: int): (g: nat)
    requires n > 0
  {
    (851 * n - 255) / 256
  }

  /** The largest loss of a normal double at `n` digits before the point, in units of 2^-1074. */
  function Largest(n: int): nat
    requires n > 0
  {
    (Pow(2, 51) - 1) * Pow(2, 1023 + Binary(n))
  }

  // ---------- the largest loss ----------

  lemma LossIs(x: Pattern, digits: int)
    requires Normal(x)
    ensures Loss(x, digits) == Fraction(x) % Pow(2, Surplus(x, digits)) * Pow(2, Exponent(x) - 1)
  {
    hide Pow, Exponent, Fraction, Surplus, Trimmed;
    TrimLoss(x, digits);
    TrimKeeps(x, digits);
    var f, p, u := Fraction(x), Pow(2, Surplus(x, digits)), Pow(2, Exponent(x) - 1);
    CutDown(f, p);
    Distribute(TWO52 + f / p * p, f % p, u);
  }

  /** Clearing `k` bits, the lowest of which counts 2^q, loses at most this. */
  lemma AtMost(f: nat, k: nat, q: nat)
    ensures f % Pow(2, k) * Pow(2, q) <= (Pow(2, k) - 1) * Pow(2, q) == Pow(2, k + q) - Pow(2, q)
  {
    hide Pow;
    CutDown(f, Pow(2, k));
    MultiplyBoth(f % Pow(2, k), Pow(2, k) - 1, Pow(2, q), Pow(2, q));
    Distribute(Pow(2, k) - 1, 1, Pow(2, q));
    PowAdd(2, k, q);
  }

  /** No normal double loses more. */
  lemma NoLarger(x: Pattern, n: int)
    requires Normal(x) && n > 0
    ensures Loss(x, -n) <= Largest(n)
  {
    hide Pow, Exponent, Fraction, Magnitude, Trimmed;
    NegativePlaces(n);
    LossIs(x, -n);
    var g, k, q := Binary(n), Surplus(x, -n), Exponent(x) - 1;
    AtMost(Fraction(x), k, q);
    AtMost(0, 51, 1023 + g);
    if Needed(x, -n) >= 52 {
      NothingLost(x, -n);
    } else if Needed(x, -n) >= 1 {
      PowGrows(2, 1023 + g, q);
    } else {
      PowGrows(2, q, 1023 + g);
      MultiplyBoth(Pow(2, 51) - 1, Pow(2, 51) - 1, Pow(2, q), Pow(2, 1023 + g));
    }
  }

  /** The double that loses most: one fraction bit is kept, and all the others are set. */
  function Worst(n: int): Pattern
    requires 0 < n <= 307
  {
    (1024 + Binary(n)) * TWO52 + 0x7_FFFF_FFFF_FFFF
  }

  lemma WorstLoss(n: int)
    requires 0 < n <= 307
    ensures Normal(Worst(n)) && Loss(Worst(n), -n) == Largest(n)
  {
    hide Pow, Exponent, Fraction, Loss;
    NegativePlaces(n);
    PartsOf(1024 + Binary(n), 0x7_FFFF_FFFF_FFFF);
    assert Surplus(Worst(n), -n) == 51;
    LossIs(Worst(n), -n);
    TwoTo51();
  }

  lemma TwoTo51()
    ensures Pow(2, 51) == 0x8_0000_0000_0000
  {
    TwoTo52();
  }

  // ---------- the exact condition ----------

  /**
   * After the point half a unit is always enough, and so it is where no double reaches. Between, it
   * depends on how far below 10^n the power of two lies that trimming takes for it.
   */
  predicate HalfSafe(digits: int) {
    digits >= 0 || digits <= -308 || (Pow(2, 51) - 1) * Pow(2, Binary(-digits) + 1) < Pow(10, -digits) * Pow(2, 51)
  }

  lemma SafeIsLargest(n: int)
    requires 0 < n <= 307
    ensures HalfSafe(-n) <==> 2 * Largest(n) < Pow(10, n) * Pow(2, 1074)
  {
    hide Pow;
    var m, t, g, u := Pow(2, 51) - 1, Pow(10, n), Binary(n), Pow(2, 1023);
    SmallPowers();
    PowAdd(2, g + 1, 1023);
    PowAdd(2, 1, 1023 + g);
    PowAdd(2, 51, 1023);
    Associate(m, Pow(2, g + 1), u);
    Associate(t, Pow(2, 51), u);
    Rotate(m, 2, Pow(2, 1023 + g));
    assert 2 * Largest(n) == (m * Pow(2, g + 1)) * u && t * Pow(2, 1074) == (t * Pow(2, 51)) * u;
    Ordered(m * Pow(2, g + 1), t * Pow(2, 51), u);
  }

  lemma Ordered(a: nat, b: nat, u: nat)
    requires u > 0
    ensures a < b <==> a * u < b * u
  {
    if a < b { MultiplyStrict(a, b, u, u); } else { MultiplyBoth(b, a, u, u); }
  }

  /** All normal doubles move by less than half of 10^-digits exactly then. */
  lemma HalfExactly(digits: int)
    ensures (forall x: Pattern | Normal(x) :: Under(2 * Loss(x, digits), digits)) <==> HalfSafe(digits)
  {
    hide Pow, Normal, Magnitude, Trimmed;
    if digits >= 0 {
      forall x: Pattern | Normal(x) ensures Under(2 * Loss(x, digits), digits) { HalfAfterPoint(x, digits); }
    } else if digits <= -308 {
      forall x: Pattern | Normal(x) ensures Under(2 * Loss(x, digits), digits) { HalfBeyond(x, -digits); }
    } else {
      SafeIsLargest(-digits);
      WorstLoss(-digits);
      assert Normal(Worst(-digits));
      forall x: Pattern | Normal(x) ensures Loss(x, digits) <= Largest(-digits) { NoLarger(x, -digits); }
    }
  }

  lemma HalfAfterPoint(x: Pattern, digits: nat)
    requires Normal(x)
    ensures Under(2 * Loss(x, digits), digits)
  {
    hide Pow, Exponent, Magnitude, Surplus;
    TrimLoss(x, digits);
    if Needed(x, digits) >= 52 {
      NothingLost(x, digits);
    } else {
      PlaceBound(x, digits);
      SmallPowers();
      PowAdd(2, 1, Place(x, digits));
      UnderPlaces(2 * Loss(x, digits), Place(x, digits) + 1, digits);
    }
  }

  lemma HalfBeyond(x: Pattern, n: int)
    requires Normal(x) && n >= 308
    ensures Under(2 * Loss(x, -n), -n)
  {
    hide Pow, Exponent, Magnitude, Under, Trimmed, Fraction;
    LossIs(x, -n);
    var k, q := Surplus(x, -n), Exponent(x) - 1;
    AtMost(Fraction(x), k, q);
    PowGrows(2, k + q, 2096);
    SmallPowers();
    PowAdd(2, 1, 2096);
    TenTo308();
    PowGrows(10, 308, n);
    assert Pow(2, q) > 0;
    OverPlaces(2 * Loss(x, -n), 2097, 1023, n);
  }

  // ---------- subnormal doubles as well ----------

  lemma SubnormalLossIs(x: Pattern, digits: int)
    requires Exponent(x) == 0
    ensures Loss(x, digits) == Fraction(x) % Pow(2, Surplus(x, digits)) < Pow(2, Surplus(x, digits))
  {
    hide Pow, Exponent, Fraction, Surplus, Trimmed;
    TrimLoss(x, digits);
    TrimKeeps(x, digits);
    CutDown(Fraction(x), Pow(2, Surplus(x, digits)));
  }

  /** The digits at which the exponent taken for a subnormal double, one too low, begins to matter. */
  predicate Deep(digits: int) {
    digits >= 0 && 1023 <= Places(digits) <= 1073
  }

  /** Half a unit is safe for all finite doubles. */
  predicate FiniteSafe(digits: int) {
    HalfSafe(digits) &&
    (Deep(digits) ==> 2 * (Pow(2, 1074 - Places(digits)) - 1) * Pow(10, digits) < Pow(2, 1074))
  }

  /** Elsewhere a subnormal double is safe like a normal one. */
  lemma SubnormalShallow(x: Pattern, digits: int)
    requires Exponent(x) == 0 && !Deep(digits)
    ensures Under(2 * Loss(x, digits), digits)
  {
    hide Pow, Exponent, Fraction, Loss, Trimmed;
    SubnormalLossIs(x, digits);
    if Needed(x, digits) >= 52 {
      NothingLost(x, digits);
      assert Pow(2, 0) == 1 by { PowAdd(2, 0, 0); }
      NothingUnder(digits);
    } else {
      var k := Surplus(x, digits);
      SmallPowers();
      PowAdd(2, 1, k);
      if digits >= 0 {
        UnderPlaces(2 * Loss(x, digits), k + 1, digits);
      } else {
        NegativePlaces(-digits);
        PowGrows(10, 0, -digits);
        NoPower();
        OverPlaces(2 * Loss(x, digits), k + 1, 0, -digits);
      }
    }
  }

  lemma NoPower()
    ensures Pow(2, 0) == 1 && Pow(10, 0) == 1
  {
  }

  lemma NothingUnder(digits: int)
    ensures Under(0, digits)
  {
    hide Pow;
  }

  /** All finite doubles move by less than half of 10^-digits exactly then. */
  lemma FiniteExactly(digits: int)
    ensures (forall x: Pattern | Finite(x) :: Under(2 * Loss(x, digits), digits)) <==> FiniteSafe(digits)
  {
    hide Pow, Exponent, Magnitude, Trimmed, HalfSafe, Loss, Under;
    HalfExactly(digits);
    if Deep(digits) {
      DeepExactly(digits);
    } else {
      forall x: Pattern | Exponent(x) == 0 ensures Under(2 * Loss(x, digits), digits) { SubnormalShallow(x, digits); }
    }
  }

  lemma DeepExactly(digits: int)
    requires Deep(digits)
    ensures (forall x: Pattern | Exponent(x) == 0 :: Under(2 * Loss(x, digits), digits)) <==>
            2 * (Pow(2, 1074 - Places(digits)) - 1) * Pow(10, digits) < Pow(2, 1074)
  {
    hide Pow, Exponent, Loss, Places;
    var most, t := 2 * (Pow(2, 1074 - Places(digits)) - 1), Pow(10, digits);
    var worst := DeepWorst(digits);
    forall x: Pattern | Exponent(x) == 0 && most * t < Pow(2, 1074) ensures 2 * Loss(x, digits) * t < Pow(2, 1074) {
      DeepLoss(x, digits);
      MultiplyBoth(2 * Loss(x, digits), most, t, t);
    }
  }

  lemma DeepLoss(x: Pattern, digits: int)
    requires Deep(digits) && Exponent(x) == 0
    ensures Surplus(x, digits) == 1074 - Places(digits) && Loss(x, digits) < Pow(2, 1074 - Places(digits))
  {
    hide Pow, Exponent, Fraction, Loss, Places;
    SubnormalLossIs(x, digits);
  }

  lemma DeepWorst(digits: int) returns (x: Pattern)
    requires Deep(digits)
    ensures Exponent(x) == 0 && Loss(x, digits) == Pow(2, 1074 - Places(digits)) - 1
  {
    hide Pow, Exponent, Fraction, Loss, Places, Surplus;
    var k := 1074 - Places(digits);
    PowGrows(2, k, 51);
    TwoTo51();
    x := Pow(2, k) - 1;
    SubnormalParts(x);
    SubnormalLossIs(x, digits);
    DeepLoss(x, digits);
    SmallRemainder(x, Pow(2, k));
  }

  lemma SubnormalParts(f: nat)
    requires f < TWO52
    ensures Exponent(f) == 0 && Fraction(f) == f
  {
  }

  lemma SmallRemainder(x: nat, p: nat)
    requires x < p
    ensures x % p == x
  {
  }

  /** At 308 digits a subnormal double moves by more, though no normal one does. */
  lemma SubnormalExample()
    ensures HalfSafe(308) && !FiniteSafe(308)
  {
    hide Pow;
    TenTo308();
    TwoTo50();
    PowAdd(2, 51, 1023);
    TwoTo51();
    assert Places(308) == 1024;
  }

  lemma TwoTo50()
    ensures Pow(2, 50) == 0x4_0000_0000_0000
  {
    TwoTo51();
  }

  // ---------- where it holds ----------

  lemma SafeIfTwice(n: int)
    requires 0 < n && 2 * Pow(2, Binary(n)) <= Pow(10, n)
    ensures HalfSafe(-n)
  {
    hide Pow;
    SmallPowers();
    PowAdd(2, 1, Binary(n));
    MultiplyStrict(Pow(2, 51) - 1, Pow(2, 51), Pow(2, Binary(n) + 1), Pow(10, n));
    assert Pow(2, 51) * Pow(10, n) == Pow(10, n) * Pow(2, 51);
  }

  /** From 30 digits before the point on, all normal doubles move by less than half a unit. */
  lemma TrimHalf(x: Pattern, digits: int)
    requires Normal(x) && digits >= -30
    ensures Under(2 * Loss(x, digits), digits)
  {
    hide Normal, Under, Loss, Pow;
    if digits < 0 {
      TenTwiceAbove(-digits, Binary(-digits));
      SafeIfTwice(-digits);
    }
    HalfExactly(digits);
  }

  /** Further on it comes and goes. */
  lemma HalfComesAndGoes()
    ensures !HalfSafe(-31) && HalfSafe(-32) && HalfSafe(-33) && !HalfSafe(-34)
  {
    hide Pow;
    TwoTo51();
    Powers113();
    Tens34();
  }

  lemma Powers113()
    ensures Pow(2, 103) == 10141204801825835211973625643008 && Pow(2, 106) == 81129638414606681695789005144064
    ensures Pow(2, 109) == 649037107316853453566312041152512 && Pow(2, 113) == 10384593717069655257060992658440192
  {
    assert Pow(2, 3) == 8 && Pow(2, 4) == 16;
    Square(2, 4, 16);
    Square(2, 8, 256);
    Square(2, 16, 65536);
    Square(2, 32, 4294967296);
    PowAdd(2, 64, 32);
    PowAdd(2, 96, 4);
    PowAdd(2, 100, 3);
    PowAdd(2, 103, 3);
    PowAdd(2, 106, 3);
    PowAdd(2, 109, 4);
  }

  lemma Tens34()
    ensures Pow(10, 31) == 10000000000000000000000000000000 && Pow(10, 32) == 100000000000000000000000000000000
    ensures Pow(10, 33) == 1000000000000000000000000000000000 && Pow(10, 34) == 10000000000000000000000000000000000
  {
    assert Pow(10, 1) == 10 && Pow(10, 2) == 100;
    Square(10, 2, 100);
    Square(10, 4, 10000);
    Square(10, 8, 100000000);
    Square(10, 16, 10000000000000000);
    assert Pow(10, 32) == 10 * Pow(10, 31);
    PowAdd(10, 32, 1);
    PowAdd(10, 33, 1);
  }
}
