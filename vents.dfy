/**
 * Hydrothermal vents (src/day_05.c): vent lines are drawn into a grid of
 * counters, one per point, and the answer is how many points at least two
 * lines cross. Only vertical and horizontal lines are drawn.
 */
module Vents {

  /** A vent line from (xStart, yStart) to (xEnd, yEnd), both ends included. */
  datatype Segment = Segment(xStart: nat, yStart: nat, xEnd: nat, yEnd: nat)

  function Min(a: nat, b: nat): nat
  {
    if a < b then a else b
  }

  function Max(a: nat, b: nat): nat
  {
    if a > b then a else b
  }

  /** Point (x, y) lies on the vertical or horizontal segment `s`; a diagonal segment covers nothing. */
  predicate Covers(s: Segment, x: nat, y: nat)
  {
    if s.xStart == s.xEnd then x == s.xStart && Min(s.yStart, s.yEnd) <= y <= Max(s.yStart, s.yEnd)
    else if s.yStart == s.yEnd then y == s.yStart && Min(s.xStart, s.xEnd) <= x <= Max(s.xStart, s.xEnd)
    else false
  }

  /** How many of the segments cover (x, y). */
  function Cover(lines: seq<Segment>, x: nat, y: nat): nat
  {
    if lines == [] then 0
    else Cover(lines[..|lines| - 1], x, y) + (if Covers(lines[|lines| - 1], x, y) then 1 else 0)
  }

  /** The points segment `s` covers. */
  function CellsOf(s: Segment): set<(nat, nat)>
  {
    set a: nat, b: nat | a <= Max(s.xStart, s.xEnd) && b <= Max(s.yStart, s.yEnd) && Covers(s, a, b) :: (a, b)
  }

  lemma {:induction false} ColumnRun(x: nat, lo: nat, hi: nat)
    requires lo <= hi
    ensures |set b: nat | lo <= b <= hi :: (x, b)| == hi - lo + 1
    decreases hi - lo
  {
    if lo < hi {
      ColumnRun(x, lo, hi - 1);
      assert (set b: nat | lo <= b <= hi :: (x, b)) == (set b: nat | lo <= b <= hi - 1 :: (x, b)) + {(x, hi)};
    } else {
      assert (set b: nat | lo <= b <= hi :: (x, b)) == {(x, hi)};
    }
  }

  lemma {:induction false} RowRun(y: nat, lo: nat, hi: nat)
    requires lo <= hi
    ensures |set a: nat | lo <= a <= hi :: (a, y)| == hi - lo + 1
    decreases hi - lo
  {
    if lo < hi {
      RowRun(y, lo, hi - 1);
      assert (set a: nat | lo <= a <= hi :: (a, y)) == (set a: nat | lo <= a <= hi - 1 :: (a, y)) + {(hi, y)};
    } else {
      assert (set a: nat | lo <= a <= hi :: (a, y)) == {(hi, y)};
    }
  }

  /**
   * A vertical or horizontal segment covers |end - start| + 1 points, so
   * drawing it adds that much to the counters' total; a diagonal one covers none.
   */
  lemma CellsOfSize(s: Segment)
    ensures |CellsOf(s)| ==
      if s.xStart == s.xEnd then Max(s.yStart, s.yEnd) - Min(s.yStart, s.yEnd) + 1
      else if s.yStart == s.yEnd then Max(s.xStart, s.xEnd) - Min(s.xStart, s.xEnd) + 1
      else 0
  {
    if s.xStart == s.xEnd {
      ColumnRun(s.xStart, Min(s.yStart, s.yEnd), Max(s.yStart, s.yEnd));
      assert CellsOf(s) == set b: nat | Min(s.yStart, s.yEnd) <= b <= Max(s.yStart, s.yEnd) :: (s.xStart, b);
    } else if s.yStart == s.yEnd {
      RowRun(s.yStart, Min(s.xStart, s.xEnd), Max(s.xStart, s.xEnd));
      assert CellsOf(s) == set a: nat | Min(s.xStart, s.xEnd) <= a <= Max(s.xStart, s.xEnd) :: (a, s.yStart);
    } else {
      assert CellsOf(s) == {};
    }
  }

  // -------------------------------------------------------------- bounds

  /** The grid bounds as the C code tracks them: an end only raises the maximum when its start did not. */
  function BoundsAsWritten(lines: seq<Segment>): (nat, nat)
  {
    if lines == [] then (0, 0)
    else
      var (mx, my) := BoundsAsWritten(lines[..|lines| - 1]);
      var s := lines[|lines| - 1];
      (if s.xStart > mx then s.xStart else if s.xEnd > mx then s.xEnd else mx,
       if s.yStart > my then s.yStart else if s.yEnd > my then s.yEnd else my)
  }

  /** The grid bounds: the largest x and the largest y of any end of any segment. */
  function Bounds(lines: seq<Segment>): (nat, nat)
  {
    if lines == [] then (0, 0)
    else
      var (mx, my) := Bounds(lines[..|lines| - 1]);
      var s := lines[|lines| - 1];
      (Max(mx, Max(s.xStart, s.xEnd)), Max(my, Max(s.yStart, s.yEnd)))
  }

  /** Every end of every segment lies within the bounds, so every covered point does. */
  lemma {:induction false} BoundsHoldEnds(lines: seq<Segment>)
    ensures forall i :: 0 <= i < |lines| ==>
      Max(lines[i].xStart, lines[i].xEnd) <= Bounds(lines).0 && Max(lines[i].yStart, lines[i].yEnd) <= Bounds(lines).1
  {
    if lines != [] {
      BoundsHoldEnds(lines[..|lines| - 1]);
    }
  }

  /** The bounds are reached: each is an end of some segment, or 0. */
  lemma {:induction false} BoundsReached(lines: seq<Segment>)
    ensures Bounds(lines).0 == 0 || exists i :: 0 <= i < |lines| && Bounds(lines).0 in {lines[i].xStart, lines[i].xEnd}
    ensures Bounds(lines).1 == 0 || exists i :: 0 <= i < |lines| && Bounds(lines).1 in {lines[i].yStart, lines[i].yEnd}
  {
    if lines != [] {
      var pre := lines[..|lines| - 1];
      BoundsReached(pre);
      assert forall i :: 0 <= i < |pre| ==> pre[i] == lines[i];
    }
  }

  /** A segment drawn rightwards from x = 1 to x = 3 leaves the C code's bound at 1, short of the point it draws at 3. */
  lemma BoundsAsWrittenMissEnd()
    ensures BoundsAsWritten([Segment(1, 0, 3, 0)]) == (1, 0)
    ensures Covers(Segment(1, 0, 3, 0), 3, 0) && Bounds([Segment(1, 0, 3, 0)]) == (3, 0)
  {
    assert [Segment(1, 0, 3, 0)][..0] == [];
  }

  /** All points the segments cover lie within (0 .. maxX, 0 .. maxY). */
  predicate InGrid(lines: seq<Segment>, maxX: nat, maxY: nat)
  {
    forall i :: 0 <= i < |lines| ==>
      Max(lines[i].xStart, lines[i].xEnd) <= maxX && Max(lines[i].yStart, lines[i].yEnd) <= maxY
  }

  lemma {:induction false} CoverOutside(lines: seq<Segment>, maxX: nat, maxY: nat, x: nat, y: nat)
    requires InGrid(lines, maxX, maxY) && (x > maxX || y > maxY)
    ensures Cover(lines, x, y) == 0
  {
    if lines != [] {
      CoverOutside(lines[..|lines| - 1], maxX, maxY, x, y);
      assert lines[|lines| - 1] == lines[|lines| - 1];
    }
  }

  /** The grid bounds, tracked as running maxima over the segments' ends. */
  method FindBounds(lines: seq<Segment>) returns (maxX: nat, maxY: nat)
    ensures (maxX, maxY) == Bounds(lines)
    ensures InGrid(lines, maxX, maxY)
  {
    maxX, maxY := 0, 0;
    var i := 0;
    while i < |lines|
      invariant 0 <= i <= |lines| && (maxX, maxY) == Bounds(lines[..i])
    {
      assert lines[..i + 1][..i] == lines[..i];
      var s := lines[i];
      maxX := Max(maxX, Max(s.xStart, s.xEnd));
      maxY := Max(maxY, Max(s.yStart, s.yEnd));
      i := i + 1;
    }
    assert lines[..i] == lines;
    BoundsHoldEnds(lines);
  }

  // ------------------------------------------------------------- drawing

  /** Adds one to column x at every y from lo to hi. */
  method DrawVertical(columns: array2<nat>, x: nat, lo: nat, hi: nat)
    requires x < columns.Length0 && hi < columns.Length1
    modifies columns
    ensures forall a, b :: 0 <= a < columns.Length0 && 0 <= b < columns.Length1 ==>
      columns[a, b] == old(columns[a, b]) + (if a == x && lo <= b <= hi then 1 else 0)
  {
    var j := lo;
    while j <= hi
      invariant lo <= j <= hi + 1 || (j == lo && lo > hi)
      invariant forall a, b :: 0 <= a < columns.Length0 && 0 <= b < columns.Length1 ==>
        columns[a, b] == old(columns[a, b]) + (if a == x && lo <= b < j then 1 else 0)
    {
      columns[x, j] := columns[x, j] + 1;
      j := j + 1;
    }
  }

  /** Adds one to row y at every x from lo to hi. */
  method DrawHorizontal(columns: array2<nat>, y: nat, lo: nat, hi: nat)
    requires hi < columns.Length0 && y < columns.Length1
    modifies columns
    ensures forall a, b :: 0 <= a < columns.Length0 && 0 <= b < columns.Length1 ==>
      columns[a, b] == old(columns[a, b]) + (if b == y && lo <= a <= hi then 1 else 0)
  {
    var j := lo;
    while j <= hi
      invariant lo <= j <= hi + 1 || (j == lo && lo > hi)
      invariant forall a, b :: 0 <= a < columns.Length0 && 0 <= b < columns.Length1 ==>
        columns[a, b] == old(columns[a, b]) + (if b == y && lo <= a < j then 1 else 0)
    {
      columns[j, y] := columns[j, y] + 1;
      j := j + 1;
    }
  }

  /** Draws segment `s`: every point it covers goes up by one, every other point keeps its count. */
  method DrawSegment(columns: array2<nat>, s: Segment)
    requires Max(s.xStart, s.xEnd) < columns.Length0 && Max(s.yStart, s.yEnd) < columns.Length1
    modifies columns
    ensures forall a, b :: 0 <= a < columns.Length0 && 0 <= b < columns.Length1 ==>
      columns[a, b] == old(columns[a, b]) + (if Covers(s, a, b) then 1 else 0)
  {
    if s.xStart == s.xEnd {
      var lo := if s.yStart < s.yEnd then s.yStart else s.yEnd;
      var hi := if s.yEnd > s.yStart then s.yEnd else s.yStart;
      DrawVertical(columns, s.xStart, lo, hi);
    } else if s.yStart == s.yEnd {
      var lo := if s.xStart < s.xEnd then s.xStart else s.xEnd;
      var hi := if s.xEnd > s.xStart then s.xEnd else s.xStart;
      DrawHorizontal(columns, s.yStart, lo, hi);
    }
  }

  /** Draws every vertical and horizontal segment: each point goes up by the number of segments covering it. */
  method FillGrid(columns: array2<nat>, lines: seq<Segment>)
    requires columns.Length0 > 0 && columns.Length1 > 0 && InGrid(lines, columns.Length0 - 1, columns.Length1 - 1)
    modifies columns
    ensures forall a, b :: 0 <= a < columns.Length0 && 0 <= b < columns.Length1 ==>
      columns[a, b] == old(columns[a, b]) + Cover(lines, a, b)
  {
    var i := 0;
    while i < |lines|
      invariant 0 <= i <= |lines|
      invariant forall a, b :: 0 <= a < columns.Length0 && 0 <= b < columns.Length1 ==>
        columns[a, b] == old(columns[a, b]) + Cover(lines[..i], a, b)
    {
      assert lines[..i + 1][..i] == lines[..i];
      DrawSegment(columns, lines[i]);
      i := i + 1;
    }
    assert lines[..i] == lines;
  }

  // ------------------------------------------------------------ counting

  /** Points with a count above 1 among the first `y` of a column. */
  function OverIn(col: seq<nat>, y: nat): nat
    requires y <= |col|
  {
    if y == 0 then 0 else OverIn(col, y - 1) + (if col[y - 1] > 1 then 1 else 0)
  }

  /** Points with a count above 1 among the first `x` columns. */
  function Over(g: seq<seq<nat>>, x: nat): nat
    requires x <= |g|
  {
    if x == 0 then 0 else Over(g, x - 1) + OverIn(g[x - 1], |g[x - 1]|)
  }

  function OverSetIn(col: seq<nat>, x: nat, y: nat): set<(nat, nat)>
    requires y <= |col|
  {
    set b: nat | b < y && col[b] > 1 :: (x, b)
  }

  function OverSet(g: seq<seq<nat>>, x: nat): set<(nat, nat)>
    requires x <= |g|
  {
    set a: nat, b: nat | a < x && b < |g[a]| && g[a][b] > 1 :: (a, b)
  }

  lemma {:induction false} OverInCounts(col: seq<nat>, x: nat, y: nat)
    requires y <= |col|
    ensures OverIn(col, y) == |OverSetIn(col, x, y)|
  {
    if y > 0 {
      OverInCounts(col, x, y - 1);
      if col[y - 1] > 1 {
        assert OverSetIn(col, x, y) == OverSetIn(col, x, y - 1) + {(x, y - 1)};
      } else {
        assert OverSetIn(col, x, y) == OverSetIn(col, x, y - 1);
      }
    }
  }

  /** The count of points above 1 is the size of the set of those points. */
  lemma {:induction false} OverCounts(g: seq<seq<nat>>, x: nat)
    requires x <= |g|
    ensures Over(g, x) == |OverSet(g, x)|
  {
    if x > 0 {
      OverCounts(g, x - 1);
      OverInCounts(g[x - 1], x - 1, |g[x - 1]|);
      assert OverSet(g, x) == OverSet(g, x - 1) + OverSetIn(g[x - 1], x - 1, |g[x - 1]|);
      assert OverSet(g, x - 1) !! OverSetIn(g[x - 1], x - 1, |g[x - 1]|);
    }
  }

  /** The counters as columns of values. */
  ghost function Counts(columns: array2<nat>): (g: seq<seq<nat>>)
    reads columns
    ensures |g| == columns.Length0 && forall a :: 0 <= a < |g| ==> |g[a]| == columns.Length1
  {
    seq(columns.Length0, a requires 0 <= a < columns.Length0 reads columns =>
      seq(columns.Length1, b requires 0 <= b < columns.Length1 reads columns => columns[a, b]))
  }

  /** Counts the points of column x whose counter is above 1. */
  method CountColumn(columns: array2<nat>, x: nat) returns (n: nat)
    requires x < columns.Length0
    ensures n == OverIn(Counts(columns)[x], columns.Length1)
  {
    ghost var col := Counts(columns)[x];
    n := 0;
    var y := 0;
    while y < columns.Length1
      invariant 0 <= y <= columns.Length1 && n == OverIn(col, y)
    {
      if columns[x, y] > 1 {
        n := n + 1;
      }
      y := y + 1;
    }
  }

  /** The number of points whose counter is above 1. */
  method NumberOfIntersecting(columns: array2<nat>) returns (n: nat)
    ensures n == |OverSet(Counts(columns), columns.Length0)|
  {
    n := 0;
    var x := 0;
    while x < columns.Length0
      invariant 0 <= x <= columns.Length0 && n == Over(Counts(columns), x)
    {
      var m := CountColumn(columns, x);
      n := n + m;
      x := x + 1;
    }
    OverCounts(Counts(columns), columns.Length0);
  }

  /** The points at least two of the segments cover. */
  function Crossings(lines: seq<Segment>, maxX: nat, maxY: nat): set<(nat, nat)>
  {
    set a: nat, b: nat | a <= maxX && b <= maxY && Cover(lines, a, b) >= 2 :: (a, b)
  }

  /**
   * Part 1: sizes the grid from the segments' ends, draws the vertical and
   * horizontal segments and counts the points at least two of them cover.
   */
  method NumberOfCrossings(lines: seq<Segment>) returns (n: nat)
    ensures n == |Crossings(lines, Bounds(lines).0, Bounds(lines).1)|
    ensures forall x: nat, y: nat :: Cover(lines, x, y) >= 2 ==> (x, y) in Crossings(lines, Bounds(lines).0, Bounds(lines).1)
  {
    var maxX, maxY := FindBounds(lines);
    var columns := new nat[maxX + 1, maxY + 1]((_, _) => 0);
    FillGrid(columns, lines);
    n := NumberOfIntersecting(columns);
    assert OverSet(Counts(columns), columns.Length0) == Crossings(lines, maxX, maxY);
    forall x: nat, y: nat | Cover(lines, x, y) >= 2
      ensures x <= maxX && y <= maxY
    {
      if x > maxX || y > maxY {
        CoverOutside(lines, maxX, maxY, x, y);
      }
    }
  }
}
