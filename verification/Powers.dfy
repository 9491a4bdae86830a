/** Integer powers, and how the powers of ten lie among the powers of two. */
module Powers {

  function Pow(b: nat, n: nat): (p: nat)
    ensures b > 0 ==> p > 0
  {
    if n == 0 then 1 else b * Pow(b, n - 1)
  }

  lemma {:induction false} PowAdd(b: nat, m: nat, n: nat)
    ensures Pow(b, m + n) == Pow(b, m) * Pow(b, n)
  {
    if m > 0 {
      PowAdd(b, m - 1, n);
      Associate(b, Pow(b, m - 1), Pow(b, n));
    }
  }

  lemma Associate(x: nat, y: nat, z: nat)
    ensures x * (y * z) == (x * y) * z
  {
  }

  lemma {:induction false} PowTimes(b: nat, m: nat, n: nat)
    ensures Pow(Pow(b, m), n) == Pow(b, m * n)
  {
    if n > 0 {
      PowTimes(b, m, n - 1);
      PowAdd(b, m, m * (n - 1));
      assert m * n == m + m * (n - 1);
    }
  }

  lemma {:induction false} PowProduct(a: nat, b: nat, n: nat)
    ensures Pow(a * b, n) == Pow(a, n) * Pow(b, n)
  {
    if n > 0 {
      PowProduct(a, b, n - 1);
      Exchange(a, b, Pow(a, n - 1), Pow(b, n - 1));
    }
  }

  lemma Exchange(a: nat, b: nat, x: nat, y: nat)
    ensures (a * b) * (x * y) == (a * x) * (b * y)
  {
  }

  lemma PowGrows(b: nat, m: nat, n: nat)
    requires b > 0 && m <= n
    ensures Pow(b, m) <= Pow(b, n)
  {
  }

  lemma MultiplyBoth(a: nat, b: nat, x: nat, y: nat)
    requires a <= b && x <= y
    ensures a * x <= b * y
  {
  }

  lemma {:induction false} PowMonotone(a: nat, b: nat, n: nat)
    requires a <= b
    ensures Pow(a, n) <= Pow(b, n)
  {
    if n > 0 {
      PowMonotone(a, b, n - 1);
      MultiplyBoth(a, b, Pow(a, n - 1), Pow(b, n - 1));
    }
  }

  /** Roots can be taken on both sides. */
  lemma Root(a: nat, b: nat, n: nat)
    requires n > 0 && Pow(a, n) <= Pow(b, n)
    ensures a <= b
  {
  }

  lemma MultiplyStrict(a: nat, b: nat, x: nat, y: nat)
    requires a < b && x <= y && y > 0
    ensures a * x < b * y
  {
  }

  // ---------- powers of five and of two ----------

  lemma Square(b: nat, m: nat, p: nat)
    requires Pow(b, m) == p
    ensures Pow(b, 2 * m) == p * p
  {
    PowAdd(b, m, m);
  }

  lemma FiveTo256()
    ensures Pow(5, 256) == 86361685550944446253863518628003995711160003644362813850237034701685918031624270579715075034722882265605472939461496635969950989468319466936530037770580747746862471103668212890625
  {
    assert Pow(5, 1) == 5;
    Square(5, 1, 5);
    Square(5, 2, 25);
    Square(5, 4, 625);
    Square(5, 8, 390625);
    Square(5, 16, 152587890625);
    Square(5, 32, 23283064365386962890625);
    Square(5, 64, 542101086242752217003726400434970855712890625);
    Square(5, 128, 293873587705571876992184134305561419454666389193021880377187926569604314863681793212890625);
  }

  lemma TwoTo594()
    ensures Pow(2, 594) == 64836180763765514976756372870174392984569472378788076562432145776416450178326689787495422639798496785753091978301574830974924235553308989185732419283030682610330965678148586307584
  {
    assert Pow(2, 1) == 2;
    Square(2, 1, 2);
    Square(2, 2, 4);
    Square(2, 4, 16);
    Square(2, 8, 256);
    Square(2, 16, 65536);
    Square(2, 32, 4294967296);
    Square(2, 64, 18446744073709551616);
    Square(2, 128, 340282366920938463463374607431768211456);
    Square(2, 256, 115792089237316195423570985008687907853269984665640564039457584007913129639936);
    PowAdd(2, 512, 64);
    PowAdd(2, 576, 16);
    PowAdd(2, 592, 2);
  }

  /** 5^256 lies between 1.32 and 2 times 2^594. */
  lemma FivesAndTwos()
    ensures 33 * Pow(2, 594) <= 25 * Pow(5, 256) <= 25 * Pow(2, 595)
  {
    FiveTo256();
    TwoTo594();
  }

  // ---------- powers of ten and of two ----------

  lemma TenTo256()
    ensures Pow(10, 256) <= Pow(2, 851)
  {
    hide Pow;
    PowProduct(2, 5, 256);
    FivesAndTwos();
    PowAdd(2, 256, 595);
    MultiplyBoth(Pow(2, 256), Pow(2, 256), Pow(5, 256), Pow(2, 595));
  }

  /** 851/256 is above the binary logarithm of ten. */
  lemma TenBelow(d: nat, c: nat)
    requires 851 * d <= 256 * c
    ensures Pow(10, d) <= Pow(2, c)
  {
    hide Pow;
    TenTo256();
    PowMonotone(Pow(10, 256), Pow(2, 851), d);
    PowTimes(10, 256, d);
    PowTimes(10, d, 256);
    PowTimes(2, 851, d);
    PowGrows(2, 851 * d, 256 * c);
    PowTimes(2, c, 256);
    Root(Pow(10, d), Pow(2, c), 256);
  }

  lemma FivesAbove()
    ensures Pow(2, 2972) <= Pow(5, 1280)
  {
    hide Pow;
    FivesAndTwos();
    PowMonotone(33 * Pow(2, 594), 25 * Pow(5, 256), 5);
    PowProduct(33, Pow(2, 594), 5);
    PowProduct(25, Pow(5, 256), 5);
    PowTimes(2, 594, 5);
    PowTimes(5, 256, 5);
    FifthPower(33);
    FifthPower(25);
    PowAdd(2, 2970, 2);
    SquareOf(2);
    Scaled(39135393, 9765625, Pow(2, 2970), Pow(5, 1280));
  }

  lemma SquareOf(x: nat)
    ensures Pow(x, 2) == x * x
  {
    assert Pow(x, 2) == x * Pow(x, 1);
  }

  lemma FifthPower(x: nat)
    ensures Pow(x, 5) == x * (x * (x * (x * x)))
  {
    assert Pow(x, 5) == x * Pow(x, 4);
    assert Pow(x, 4) == x * Pow(x, 3);
    assert Pow(x, 3) == x * Pow(x, 2);
    assert Pow(x, 2) == x * Pow(x, 1);
  }

  lemma Scaled(p: nat, q: nat, x: nat, y: nat)
    requires p * x <= q * y && q > 0 && 4 * q <= p
    ensures 4 * x <= y
  {
  }

  /** Below the 426th power the rounding in the other direction is safe as well. */
  lemma TenAbove(n: nat, g: nat)
    requires n <= 425 && 256 * g <= 851 * n - 255
    ensures Pow(2, g) <= Pow(10, n)
  {
    hide Pow;
    FivesAbove();
    PowMonotone(Pow(2, 2972), Pow(5, 1280), n);
    PowTimes(2, 2972, n);
    PowTimes(5, 1280, n);
    PowProduct(2, 5, 1280 * n);
    PowAdd(2, 1280 * n, 2972 * n);
    MultiplyBoth(Pow(2, 1280 * n), Pow(2, 1280 * n), Pow(2, 2972 * n), Pow(5, 1280 * n));
    PowGrows(2, 1280 * g, 4252 * n);
    PowTimes(2, g, 1280);
    PowTimes(10, n, 1280);
    Root(Pow(2, g), Pow(10, n), 1280);
  }

  lemma ThousandPower9()
    ensures 4 * Pow(1024, 9) <= 5 * Pow(1000, 9)
  {
    CubeOf(1024);
    CubeOf(1000);
    PowTimes(1024, 3, 3);
    PowTimes(1000, 3, 3);
    CubeOf(1024 * 1024 * 1024);
    CubeOf(1000 * 1000 * 1000);
  }

  lemma CubeOf(x: nat)
    ensures Pow(x, 3) == x * x * x
  {
    assert Pow(x, 3) == x * Pow(x, 2);
    SquareOf(x);
  }

  /** 1024^m is at most 1.25 times 1000^m up to the ninth power. */
  lemma {:induction false} ThousandPower(m: nat)
    requires m <= 9
    ensures 4 * Pow(1024, m) <= 5 * Pow(1000, m)
    decreases 9 - m
  {
    if m == 9 { ThousandPower9(); } else { ThousandPower(m + 1); }
  }

  /** A tighter form of `TenAbove` for at most thirty digits. */
  lemma TenTwiceAbove(n: nat, g: nat)
    requires 1 <= n <= 30 && 256 * g <= 851 * n - 255
    ensures 2 * Pow(2, g) <= Pow(10, n)
  {
    hide Pow;
    var m := (n - 1) / 3;
    var r := n - 3 * m;
    PowGrows(2, g + 1, 10 * m + 3 * r);
    PowAdd(2, 1, g);
    SmallPowers();
    SmallRatio(r);
    PowTimes(2, 10, m);
    PowTimes(10, 3, m);
    PowAdd(2, 10 * m, 3 * r);
    PowAdd(10, 3 * m, r);
    ThousandPower(m);
    Weigh(Pow(1024, m), Pow(1000, m), Pow(2, 3 * r), Pow(10, r));
  }

  lemma Weigh(a: nat, b: nat, x: nat, y: nat)
    requires 4 * a <= 5 * b && 5 * x <= 4 * y
    ensures a * x <= b * y
  {
  }

  lemma SmallRatio(r: nat)
    requires 1 <= r <= 3
    ensures 5 * Pow(2, 3 * r) <= 4 * Pow(10, r)
  {
    hide Pow;
    SmallPowers();
    if r == 1 {} else if r == 2 {} else {}
  }

  lemma SmallPowers()
    ensures Pow(2, 1) == 2 && Pow(2, 3) == 8 && Pow(2, 6) == 64 && Pow(2, 9) == 512 && Pow(2, 10) == 1024
    ensures Pow(10, 1) == 10 && Pow(10, 2) == 100 && Pow(10, 3) == 1000
  {
  }

  lemma Rotate11(x: nat, y: nat, z: nat)
    ensures x * (11 * y) == 11 * (x * y) && x * (10 * z) == 10 * (x * z)
  {
  }

  lemma FiveTo52()
    ensures Pow(5, 52) == 2220446049250313080847263336181640625
  {
    assert Pow(5, 4) == 625;
    Square(5, 4, 625);
    Square(5, 8, 390625);
    PowAdd(5, 32, 16);
    PowAdd(5, 48, 4);
    Square(5, 16, 152587890625);
  }

  lemma TwoTo120()
    ensures Pow(2, 120) == 1329227995784915872903807060280344576
  {
    assert Pow(2, 4) == 16;
    Square(2, 4, 16);
    Square(2, 8, 256);
    Square(2, 16, 65536);
    Square(2, 32, 4294967296);
    PowAdd(2, 64, 32);
    PowAdd(2, 96, 16);
    PowAdd(2, 112, 8);
  }

  /** 10^308 is above the largest power of two of a finite double, by a tenth at least. */
  lemma TenTo308()
    ensures 11 * Pow(2, 1023) <= 10 * Pow(10, 308)
  {
    hide Pow;
    FivesAndTwos();
    FiveTo52();
    TwoTo120();
    PowAdd(5, 256, 52);
    PowAdd(2, 594, 120);
    SmallPowers();
    PowAdd(2, 1, 714);
    MultiplyBoth(33 * Pow(2, 594), 25 * Pow(5, 256), 5 * Pow(2, 120), 3 * Pow(5, 52));
    Exchange(33, Pow(2, 594), 5, Pow(2, 120));
    Exchange(25, Pow(5, 256), 3, Pow(5, 52));
    PowProduct(2, 5, 308);
    PowAdd(2, 308, 715);
    MultiplyBoth(Pow(2, 308), Pow(2, 308), 11 * Pow(2, 715), 10 * Pow(5, 308));
    Rotate11(Pow(2, 308), Pow(2, 715), Pow(5, 308));
  }
}
