/** The boundary of lines: the mod-2 rule of section 6.1.8 of OGC 06-103r4. */
module Boundary {

  /** Four ordinates as the bit patterns that `memcmp` compares. */
  datatype Point = Point(x: int, y: int, z: int, m: int)

  datatype Line = Line(hasZ: bool, points: seq<Point>)

  /** Closed in the plane, or in space when there is a Z; a single vertex is closed. */
  predicate Closed(line: Line)
    requires line.points != []
  {
    var first, last := line.points[0], line.points[|line.points| - 1];
    first.x == last.x && first.y == last.y && (line.hasZ ==> first.z == last.z)
  }

  function First(line: Line): Point
    requires line.points != []
  {
    line.points[0]
  }

  function Last(line: Line): Point
    requires line.points != []
  {
    line.points[|line.points| - 1]
  }

  /** There are vertices, and some ordinate that counts tells the two ends apart; M does not. */
  predicate Open(line: Line) {
    && line.points != []
    && (First(line).x != Last(line).x || First(line).y != Last(line).y || (line.hasZ && First(line).z != Last(line).z))
  }

  /** The boundary of one line. */
  function Ends(line: Line): (ends: seq<Point>)
    ensures |ends| == 0 || |ends| == 2
    ensures |ends| == 2 <==> Open(line)
    ensures ends != [] ==> ends[0] != ends[1] && |line.points| >= 2 && ends[0] == First(line) && ends[1] == Last(line)
  {
    if line.points == [] || Closed(line) then []
    else [line.points[0], line.points[|line.points| - 1]]
  }

  function AllEnds(lines: seq<Line>): (ends: seq<Point>)
    ensures |ends| <= 2 * |lines| && |ends| % 2 == 0
  {
    if lines == [] then [] else AllEnds(lines[..|lines| - 1]) + Ends(lines[|lines| - 1])
  }

  // ---------- toggling ----------

  /** Where the point is first, or the length when it is nowhere. */
  function IndexOf(s: seq<Point>, p: Point): (j: nat)
    ensures j <= |s| && p !in s[..j] && (j < |s| ==> s[j] == p)
  {
    if s == [] || s[0] == p then 0 else 1 + IndexOf(s[1..], p)
  }

  /** The point is added, or taken out when it is there, with the last one filling the gap. */
  function Toggled(s: seq<Point>, p: Point): seq<Point> {
    var j, n := IndexOf(s, p), |s| - 1;
    if j == |s| then s + [p] else s[j := s[n]][..n]
  }

  function ToggleAll(ends: seq<Point>): seq<Point> {
    if ends == [] then [] else Toggled(ToggleAll(ends[..|ends| - 1]), ends[|ends| - 1])
  }

  lemma ToggledCounts(s: seq<Point>, p: Point)
    ensures multiset(Toggled(s, p)) == if p in s then multiset(s) - multiset{p} else multiset(s) + multiset{p}
    ensures |Toggled(s, p)| == if p in s then |s| - 1 else |s| + 1
  {
    var j, n := IndexOf(s, p), |s| - 1;
    if j == |s| {
      assert s[..j] == s;
    } else {
      TakenOut(s, j);
      assert s[j] == p;
    }
  }

  lemma TakenOut(s: seq<Point>, j: nat)
    requires j < |s|
    ensures multiset(s[j := s[|s| - 1]][..|s| - 1]) == multiset(s) - multiset{s[j]}
  {
    var n := |s| - 1;
    var t := s[j := s[n]];
    assert t == t[..n] + [s[n]];
    Replaced(s, j, s[n]);
    Cancel(multiset(t[..n]), multiset(s) - multiset{s[j]}, s[n]);
  }

  lemma Replaced(s: seq<Point>, j: nat, p: Point)
    requires j < |s|
    ensures multiset(s[j := p]) == multiset(s) - multiset{s[j]} + multiset{p}
  {
  }

  lemma Cancel(a: multiset<Point>, b: multiset<Point>, p: Point)
    requires a + multiset{p} == b + multiset{p}
    ensures a == b
  {
    assert a == (a + multiset{p}) - multiset{p} && b == (b + multiset{p}) - multiset{p};
  }

  /** Each point once if it is an end an odd number of times, and not at all otherwise. */
  ghost predicate Mod2(out: seq<Point>, ends: seq<Point>) {
    forall p: Point :: multiset(out)[p] == multiset(ends)[p] % 2
  }

  lemma {:induction false} ToggleAllIsMod2(ends: seq<Point>)
    ensures Mod2(ToggleAll(ends), ends)
  {
    hide Toggled, Mod2;
    if ends == [] {
      Mod2Start();
    } else {
      var n := |ends| - 1;
      var before, p := ToggleAll(ends[..n]), ends[n];
      ToggleAllIsMod2(ends[..n]);
      ToggledCounts(before, p);
      Mod2Step(before, ends[..n], p, Toggled(before, p));
      assert ends == ends[..n] + [p];
    }
  }

  lemma {:induction false} ToggleAllSize(ends: seq<Point>)
    ensures |ToggleAll(ends)| <= |ends| && |ToggleAll(ends)| % 2 == |ends| % 2
  {
    hide Toggled;
    if ends != [] {
      var n := |ends| - 1;
      ToggleAllSize(ends[..n]);
      ToggledCounts(ToggleAll(ends[..n]), ends[n]);
    }
  }

  lemma Mod2Start()
    ensures Mod2([], [])
  {
  }

  lemma Mod2At(out: seq<Point>, ends: seq<Point>, p: Point)
    requires Mod2(out, ends)
    ensures multiset(out)[p] == multiset(ends)[p] % 2
  {
  }

  lemma Mod2Step(out: seq<Point>, ends: seq<Point>, p: Point, next: seq<Point>)
    requires Mod2(out, ends)
    requires multiset(next) == if p in out then multiset(out) - multiset{p} else multiset(out) + multiset{p}
    ensures Mod2(next, ends + [p])
  {
  }

  lemma ToggleNext(ends: seq<Point>, p: Point)
    ensures ToggleAll(ends + [p]) == Toggled(ToggleAll(ends), p)
  {
  }

  lemma EndsNext(lines: seq<Line>, i: nat)
    requires i < |lines|
    ensures AllEnds(lines[..i + 1]) == AllEnds(lines[..i]) + Ends(lines[i])
  {
    assert lines[..i + 1][..i] == lines[..i];
  }

  // ---------- the code ----------

  method Toggle(out: array<Point>, n: nat, p: Point) returns (n': nat)
    requires n < out.Length
    modifies out
    ensures n' <= n + 1 && out[..n'] == Toggled(old(out[..n]), p)
  {
    ghost var before := out[..n];
    ghost var first := IndexOf(before, p);
    for j := 0 to n
      invariant out[..n] == before && j <= first
    {
      if out[j] == p {
        assert p == before[j] && p !in before[..first];
        n' := n - 1;
        out[j] := out[n'];
        return;
      }
    }
    out[n] := p;
    return n + 1;
  }

  method MultiLineBoundary(lines: seq<Line>) returns (boundary: seq<Point>)
    ensures boundary == ToggleAll(AllEnds(lines))
    ensures IsBoundary(boundary, lines) && |boundary| <= 2 * |lines|
  {
    hide Toggled, ToggleAll, AllEnds, Ends, IsBoundary;
    NoEnds();
    var out := new Point[2 * |lines|];
    var n: nat := 0;
    ghost var seen: seq<Point> := [];
    for i := 0 to |lines|
      invariant seen == AllEnds(lines[..i])
      invariant n <= |seen| <= 2 * i
      invariant out[..n] == ToggleAll(seen)
    {
      var points := Ends(lines[i]);
      EndsNext(lines, i);
      ghost var start := seen;
      for k := 0 to |points|
        invariant seen == start + points[..k] && n <= |seen|
        invariant out[..n] == ToggleAll(seen)
      {
        ToggleNext(seen, points[k]);
        n := Toggle(out, n, points[k]);
        seen := seen + [points[k]];
      }
      assert points[..|points|] == points;
    }
    assert lines[..|lines|] == lines;
    BoundaryIsMod2(lines);
    return out[..n];
  }

  lemma NoEnds()
    ensures AllEnds([]) == [] && ToggleAll([]) == []
  {
  }

  /** How many open lines start at the point. */
  ghost function Starting(lines: seq<Line>, p: Point): nat {
    if lines == [] then 0
    else
      var line := lines[|lines| - 1];
      Starting(lines[..|lines| - 1], p) + if Open(line) && First(line) == p then 1 else 0
  }

  /** How many open lines end at the point. */
  ghost function Ending(lines: seq<Line>, p: Point): nat {
    if lines == [] then 0
    else
      var line := lines[|lines| - 1];
      Ending(lines[..|lines| - 1], p) + if Open(line) && Last(line) == p then 1 else 0
  }

  /** How often the point is among the two. */
  function Times(p: Point, first: Point, last: Point): nat {
    (if p == first then 1 else 0) + if p == last then 1 else 0
  }

  lemma TimesMod2(p: Point, first: Point, last: Point)
    ensures Times(p, first, last) % 2 == if first == last then 0 else Times(p, first, last)
  {
  }

  lemma CountPair(ends: seq<Point>, two: seq<Point>, p: Point)
    requires |two| == 2
    ensures multiset(ends + two)[p] == multiset(ends)[p] + Times(p, two[0], two[1])
  {
    assert two == [two[0], two[1]];
  }

  /** The mod-2 rule: a point is in the boundary, once, exactly when an odd number of open lines start or end there. */
  ghost predicate IsBoundary(out: seq<Point>, lines: seq<Line>) {
    forall p: Point :: multiset(out)[p] == (Starting(lines, p) + Ending(lines, p)) % 2
  }

  lemma {:induction false} EndsCounted(lines: seq<Line>, p: Point)
    ensures multiset(AllEnds(lines))[p] == Starting(lines, p) + Ending(lines, p)
  {
    hide Ends, Open;
    if lines != [] {
      var n := |lines| - 1;
      EndsCounted(lines[..n], p);
      if Open(lines[n]) {
        CountPair(AllEnds(lines[..n]), Ends(lines[n]), p);
      } else {
        assert AllEnds(lines[..n]) + Ends(lines[n]) == AllEnds(lines[..n]);
      }
    }
  }

  /** The boundary of a multiline obeys the mod-2 rule, is even, and fits twice the lines. */
  lemma BoundaryIsMod2(lines: seq<Line>)
    ensures var boundary := ToggleAll(AllEnds(lines));
            IsBoundary(boundary, lines) && |boundary| % 2 == 0 && |boundary| <= 2 * |lines|
  {
    hide ToggleAll, Mod2, AllEnds, Starting, Ending;
    ToggleAllIsMod2(AllEnds(lines));
    ToggleAllSize(AllEnds(lines));
    forall p: Point
      ensures multiset(ToggleAll(AllEnds(lines)))[p] == (Starting(lines, p) + Ending(lines, p)) % 2
    {
      Mod2At(ToggleAll(AllEnds(lines)), AllEnds(lines), p);
      EndsCounted(lines, p);
    }
  }

  // ---------- a path ----------

  /** Open lines, each starting where the one before it ends. */
  ghost predicate Path(lines: seq<Line>) {
    && (forall k | 0 <= k < |lines| :: Open(lines[k]))
    && (forall j, k | 0 <= j < k < |lines| && k == j + 1 :: Last(lines[j]) == First(lines[k]))
  }

  lemma {:induction false} PathEnds(lines: seq<Line>, p: Point)
    requires Path(lines) && lines != []
    ensures (Starting(lines, p) + Ending(lines, p)) % 2 == Times(p, First(lines[0]), Last(lines[|lines| - 1])) % 2
  {
    var n := |lines| - 1;
    if n > 0 {
      PathEnds(lines[..n], p);
      assert Last(lines[n - 1]) == First(lines[n]);
    } else {
      assert lines[..n] == [];
    }
  }

  /** However many pieces a path is cut into, its boundary is its two ends, or nothing if they meet. */
  lemma PathBoundary(lines: seq<Line>, out: seq<Point>, p: Point)
    requires Path(lines) && lines != [] && IsBoundary(out, lines)
    ensures var first, last := First(lines[0]), Last(lines[|lines| - 1]);
            multiset(out)[p] == if first == last then 0 else Times(p, first, last)
  {
    hide Times, Starting, Ending;
    PathEnds(lines, p);
    TimesMod2(p, First(lines[0]), Last(lines[|lines| - 1]));
  }
}
