/** Outward rounding of doubles to single precision, over any grid of representable values. */
module Floats {
  import opened LwTypes
  import Powers

  /**
    Single precision as a grid of reals. `nearest` is the conversion from double, `prev` and
    `next` are `nextafterf` towards the two ends.
   */
  datatype Grid = Grid(isFloat: real -> bool, nearest: real -> real, prev: real -> real, next: real -> real)

  /** The end of the range: 24 significant bits, the lowest of which counts 2^104. */
  lemma RangeEnds()
    ensures FLT_MAX == ((Powers.Pow(2, 24) - 1) * Powers.Pow(2, 104)) as real
  {
    assert Powers.Pow(2, 4) == 16;
    Powers.Square(2, 4, 16);
    Powers.Square(2, 8, 256);
    Powers.Square(2, 16, 65536);
    Powers.Square(2, 32, 4294967296);
    Powers.PowAdd(2, 16, 8);
    Powers.PowAdd(2, 64, 32);
    Powers.PowAdd(2, 96, 8);
  }

  predicate InRange(d: real) {
    -FLT_MAX <= d <= FLT_MAX
  }

  ghost predicate NothingBetween(g: Grid, lo: real, hi: real) {
    forall f | g.isFloat(f) :: !(lo < f < hi)
  }

  ghost predicate IsGrid(g: Grid) {
    && g.isFloat(FLT_MAX) && g.isFloat(-FLT_MAX)
    && (forall f | g.isFloat(f) :: InRange(f))
    && (forall d | InRange(d) :: g.isFloat(g.nearest(d)))
    && (forall d | InRange(d) :: NothingBetween(g, d, g.nearest(d)) && NothingBetween(g, g.nearest(d), d))
    && (forall d | g.isFloat(d) :: g.nearest(d) == d)
    && (forall f | g.isFloat(f) && f > -FLT_MAX ::
          g.isFloat(g.prev(f)) && g.prev(f) < f && NothingBetween(g, g.prev(f), f))
    && (forall f | g.isFloat(f) && f < FLT_MAX ::
          g.isFloat(g.next(f)) && g.next(f) > f && NothingBetween(g, f, g.next(f)))
  }

  /** The coarsest grid: the two ends of the range. */
  function TwoValues(): Grid {
    Grid((x: real) => x == FLT_MAX || x == -FLT_MAX, (x: real) => if x > 0.0 then FLT_MAX else -FLT_MAX,
         (x: real) => -FLT_MAX, (x: real) => FLT_MAX)
  }

  lemma GridExists()
    ensures IsGrid(TwoValues())
  {
    hide NothingBetween;
    var g := TwoValues();
    forall lo, hi | -FLT_MAX <= lo && hi <= FLT_MAX ensures NothingBetween(g, lo, hi) {
      NoneInside(lo, hi);
    }
  }

  lemma NoneInside(lo: real, hi: real)
    requires -FLT_MAX <= lo && hi <= FLT_MAX
    ensures NothingBetween(TwoValues(), lo, hi)
  {
  }

  function NextFloatDown(g: Grid, d: real): real {
    if d > FLT_MAX then FLT_MAX
    else if d <= -FLT_MAX then -FLT_MAX
    else if g.nearest(d) <= d then g.nearest(d)
    else g.prev(g.nearest(d))
  }

  function NextFloatUp(g: Grid, d: real): real {
    if d >= FLT_MAX then FLT_MAX
    else if d < -FLT_MAX then -FLT_MAX
    else if g.nearest(d) >= d then g.nearest(d)
    else g.next(g.nearest(d))
  }

  /** The largest representable value that is not above, exactly for what is not below the range. */
  lemma DownIsFloor(g: Grid, d: real)
    requires IsGrid(g)
    ensures g.isFloat(NextFloatDown(g, d))
    ensures NextFloatDown(g, d) <= d <==> d >= -FLT_MAX
    ensures forall f | g.isFloat(f) && f <= d :: f <= NextFloatDown(g, d)
  {
    hide IsGrid;
    Ends(g);
    if -FLT_MAX < d <= FLT_MAX { Around(g, d); }
  }

  lemma Ends(g: Grid)
    requires IsGrid(g)
    ensures g.isFloat(FLT_MAX) && g.isFloat(-FLT_MAX) && forall f | g.isFloat(f) :: InRange(f)
  {
  }

  /** A value in range lies at its nearest representable value, or between that and one of its neighbours. */
  lemma Around(g: Grid, d: real)
    requires IsGrid(g) && InRange(d)
    ensures var x := g.nearest(d);
            && g.isFloat(x) && NothingBetween(g, d, x) && NothingBetween(g, x, d) && (g.isFloat(d) ==> x == d)
            && (x > d ==> g.isFloat(g.prev(x)) && g.prev(x) <= d && NothingBetween(g, g.prev(x), x))
            && (x < d ==> g.isFloat(g.next(x)) && g.next(x) >= d && NothingBetween(g, x, g.next(x)))
  {
    var x := g.nearest(d);
    assert InRange(x);
    assert NothingBetween(g, d, x) && NothingBetween(g, x, d);
  }

  /** The smallest representable value that is not below, exactly for what is not above the range. */
  lemma UpIsCeiling(g: Grid, d: real)
    requires IsGrid(g)
    ensures g.isFloat(NextFloatUp(g, d))
    ensures NextFloatUp(g, d) >= d <==> d <= FLT_MAX
    ensures forall f | g.isFloat(f) && f >= d :: f >= NextFloatUp(g, d)
  {
    hide IsGrid;
    Ends(g);
    if -FLT_MAX <= d < FLT_MAX { Around(g, d); }
  }

  /** Rounding twice changes nothing more. */
  lemma RoundingIdempotent(g: Grid, d: real)
    requires IsGrid(g)
    ensures NextFloatDown(g, NextFloatDown(g, d)) == NextFloatDown(g, d)
    ensures NextFloatUp(g, NextFloatUp(g, d)) == NextFloatUp(g, d)
  {
    DownIsFloor(g, d);
    UpIsCeiling(g, d);
    DownIsFloor(g, NextFloatDown(g, d));
    UpIsCeiling(g, NextFloatUp(g, d));
  }
}
