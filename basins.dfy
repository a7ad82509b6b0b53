/**
 * Smoke basins (src/day_09.c): a height map of digits. Low points are lower
 * than all their neighbours; every area below 9 drains down the steepest
 * descent to a low point, and a basin is the set of areas draining to one
 * low point.
 */
module Basins {
  import opened Wrappers
  import opened Sorting
  import opened Sets

  /**
   * One area of the map. `basinLowPoint` is the position of the low point
   * its basin drains to (absent for height 9); `basinSize` is counted on
   * low points only.
   */
  datatype Area = Area(height: nat, isLowPoint: bool, basinLowPoint: Option<(nat, nat)>, basinSize: nat)

  /** A map of `|h|` rows, each of `w` digits. */
  ghost predicate Rect(h: seq<seq<nat>>, w: nat)
  {
    forall i :: 0 <= i < |h| ==> |h[i]| == w && forall j :: 0 <= j < w ==> h[i][j] <= 9
  }

  ghost predicate InMap(h: seq<seq<nat>>, w: nat, p: (nat, nat))
  {
    p.0 < |h| && p.1 < w
  }

  /** The height at a position. */
  ghost function At(h: seq<seq<nat>>, w: nat, p: (nat, nat)): nat
    requires Rect(h, w) && InMap(h, w, p)
  {
    h[p.0][p.1]
  }

  /** Orthogonal neighbours. */
  ghost predicate Adjacent(p: (nat, nat), q: (nat, nat))
  {
    (p.0 == q.0 && (p.1 == q.1 + 1 || q.1 == p.1 + 1)) ||
    (p.1 == q.1 && (p.0 == q.0 + 1 || q.0 == p.0 + 1))
  }

  /** The heights of the array are those of `h`. */
  ghost predicate HeightsAre(m: array2<Area>, h: seq<seq<nat>>)
    reads m
  {
    |h| == m.Length0 && Rect(h, m.Length1) &&
    forall i, j :: 0 <= i < m.Length0 && 0 <= j < m.Length1 ==> m[i, j].height == h[i][j]
  }

  /* ---------- Low points ---------- */

  /** The checks in the order of the C code: above, below, left, right. */
  ghost predicate IsLow(h: seq<seq<nat>>, w: nat, i: nat, j: nat)
    requires Rect(h, w) && i < |h| && j < w
  {
    (i == 0 || h[i][j] < h[i - 1][j]) &&
    (i == |h| - 1 || h[i][j] < h[i + 1][j]) &&
    (j == 0 || h[i][j] < h[i][j - 1]) &&
    (j == w - 1 || h[i][j] < h[i][j + 1])
  }

  /** A low point is strictly lower than every neighbour inside the map. */
  lemma IsLowMeans(h: seq<seq<nat>>, w: nat, p: (nat, nat))
    requires Rect(h, w) && InMap(h, w, p)
    ensures IsLow(h, w, p.0, p.1) <==>
      forall q :: InMap(h, w, q) && Adjacent(p, q) ==> At(h, w, p) < At(h, w, q)
  {
    if IsLow(h, w, p.0, p.1) {
      forall q | InMap(h, w, q) && Adjacent(p, q)
        ensures At(h, w, p) < At(h, w, q)
      {
      }
    } else {
      if p.0 != 0 && h[p.0][p.1] >= h[p.0 - 1][p.1] {
        assert InMap(h, w, (p.0 - 1, p.1)) && Adjacent(p, (p.0 - 1, p.1));
      } else if p.0 != |h| - 1 && h[p.0][p.1] >= h[p.0 + 1][p.1] {
        assert InMap(h, w, (p.0 + 1, p.1)) && Adjacent(p, (p.0 + 1, p.1));
      } else if p.1 != 0 && h[p.0][p.1] >= h[p.0][p.1 - 1] {
        assert InMap(h, w, (p.0, p.1 - 1)) && Adjacent(p, (p.0, p.1 - 1));
      } else {
        assert InMap(h, w, (p.0, p.1 + 1)) && Adjacent(p, (p.0, p.1 + 1));
      }
    }
  }

  /** The low-point flags of the array are those of `h`. */
  ghost predicate LowFlagsSet(m: array2<Area>, h: seq<seq<nat>>)
    reads m
    requires HeightsAre(m, h)
  {
    forall i, j :: 0 <= i < m.Length0 && 0 <= j < m.Length1 ==> m[i, j].isLowPoint == IsLow(h, m.Length1, i, j)
  }

  /** Whether one area is a low point, checking its neighbours in the order of the C code. */
  method CheckLowPoint(m: array2<Area>, ghost h: seq<seq<nat>>, i: nat, j: nat) returns (isLow: bool)
    requires HeightsAre(m, h) && i < m.Length0 && j < m.Length1
    ensures isLow == IsLow(h, m.Length1, i, j)
  {
    isLow := true;
    if i != 0 {
      isLow := m[i, j].height < m[i - 1, j].height;
    }
    if isLow && i != m.Length0 - 1 {
      isLow := m[i, j].height < m[i + 1, j].height;
    }
    if isLow && j != 0 {
      isLow := m[i, j].height < m[i, j - 1].height;
    }
    if isLow && j != m.Length1 - 1 {
      isLow := m[i, j].height < m[i, j + 1].height;
    }
  }

  /** Flags every low point of the map and nothing else. */
  method IdentifyLowPoints(m: array2<Area>, ghost h: seq<seq<nat>>)
    requires HeightsAre(m, h)
    modifies m
    ensures HeightsAre(m, h) && LowFlagsSet(m, h)
    ensures forall i, j :: 0 <= i < m.Length0 && 0 <= j < m.Length1 ==>
              m[i, j] == old(m[i, j]).(isLowPoint := IsLow(h, m.Length1, i, j))
  {
    for i := 0 to m.Length0
      invariant forall r, c :: 0 <= r < m.Length0 && 0 <= c < m.Length1 ==>
                  m[r, c] == if r < i then old(m[r, c]).(isLowPoint := IsLow(h, m.Length1, r, c)) else old(m[r, c])
    {
      for j := 0 to m.Length1
        invariant forall r, c :: 0 <= r < m.Length0 && 0 <= c < m.Length1 ==>
                    m[r, c] == if r < i || (r == i && c < j) then old(m[r, c]).(isLowPoint := IsLow(h, m.Length1, r, c)) else old(m[r, c])
      {
        var isLow := CheckLowPoint(m, h, i, j);
        m[i, j] := m[i, j].(isLowPoint := isLow);
      }
    }
  }

  /* ---------- Risk levels ---------- */

  /** Risk of a position: its height plus one at a low point, nothing elsewhere. */
  ghost function Risk(h: seq<seq<nat>>, w: nat, i: nat, j: nat): nat
    requires Rect(h, w) && i < |h| && j < w
  {
    if IsLow(h, w, i, j) then h[i][j] + 1 else 0
  }

  /** Total risk of the first `j` positions of row `i`. */
  ghost function RowRisk(h: seq<seq<nat>>, w: nat, i: nat, j: nat): nat
    requires Rect(h, w) && i < |h| && j <= w
  {
    if j == 0 then 0 else RowRisk(h, w, i, j - 1) + Risk(h, w, i, j - 1)
  }

  /** Total risk of the first `i` rows. */
  ghost function RowsRisk(h: seq<seq<nat>>, w: nat, i: nat): nat
    requires Rect(h, w) && i <= |h|
  {
    if i == 0 then 0 else RowsRisk(h, w, i - 1) + RowRisk(h, w, i - 1, w)
  }

  /** Adds up the risk levels of the flagged low points. */
  method SumOfRiskLevels(m: array2<Area>, ghost h: seq<seq<nat>>) returns (total: nat)
    requires HeightsAre(m, h) && LowFlagsSet(m, h)
    ensures total == RowsRisk(h, m.Length1, m.Length0)
  {
    total := 0;
    for i := 0 to m.Length0
      invariant total == RowsRisk(h, m.Length1, i)
    {
      for j := 0 to m.Length1
        invariant total == RowsRisk(h, m.Length1, i) + RowRisk(h, m.Length1, i, j)
      {
        if m[i, j].isLowPoint {
          total := total + m[i, j].height + 1;
        }
      }
    }
  }

  /** The risk levels of a list of low points, added up. */
  ghost function RiskOf(h: seq<seq<nat>>, w: nat, l: seq<(nat, nat)>): nat
    requires Rect(h, w) && forall k :: 0 <= k < |l| ==> InMap(h, w, l[k])
  {
    if l == [] then 0 else RiskOf(h, w, l[..|l| - 1]) + At(h, w, l[|l| - 1]) + 1
  }

  /** The risk before `(i, j)` is that of the low points before it. */
  lemma {:induction false} RiskBefore(h: seq<seq<nat>>, w: nat, i: nat, j: nat)
    requires Rect(h, w) && i < |h| && j <= w
    ensures RowsRisk(h, w, i) + RowRisk(h, w, i, j) == RiskOf(h, w, LowBefore(h, w, i, j))
    decreases i, j
  {
    if j == 0 {
      if i > 0 {
        RiskBefore(h, w, i - 1, w);
      }
    } else {
      RiskBefore(h, w, i, j - 1);
      var l := LowBefore(h, w, i, j - 1);
      if IsLow(h, w, i, j - 1) {
        var l' := l + [(i, j - 1)];
        assert l'[..|l|] == l;
        assert RiskOf(h, w, l') == RiskOf(h, w, l) + h[i][j - 1] + 1;
      } else {
        assert l + [] == l;
      }
    }
  }

  /** The total risk is the sum of height plus one over the low points. */
  lemma TotalRiskOfLowPoints(h: seq<seq<nat>>, w: nat)
    requires Rect(h, w)
    ensures RowsRisk(h, w, |h|) == RiskOf(h, w, LowPoints(h, w))
  {
    if |h| == 0 {
    } else {
      RiskBefore(h, w, |h| - 1, w);
    }
  }

  /* ---------- The steepest-descent walk ---------- */

  /**
   * The neighbour the walk moves to: the lowest one below 9, the first of
   * above, below, left and right on a tie; absent when none is below 9.
   */
  ghost function Lowest(h: seq<seq<nat>>, w: nat, i: nat, j: nat): (r: Option<(nat, nat)>)
    requires Rect(h, w) && i < |h| && j < w
  {
    var c1: (Option<(nat, nat)>, nat) := if i != 0 && h[i - 1][j] < 9 then (Some((i - 1, j)), h[i - 1][j]) else (None, 9);
    var c2 := if i != |h| - 1 && h[i + 1][j] < c1.1 then (Some((i + 1, j)), h[i + 1][j]) else c1;
    var c3 := if j != 0 && h[i][j - 1] < c2.1 then (Some((i, j - 1)), h[i][j - 1]) else c2;
    var c4 := if j != w - 1 && h[i][j + 1] < c3.1 then (Some((i, j + 1)), h[i][j + 1]) else c3;
    c4.0
  }

  /**
   * The chosen neighbour is inside the map, below 9 and no higher than any
   * other neighbour; there is none only when every neighbour is at 9 or more.
   */
  lemma LowestIsLowest(h: seq<seq<nat>>, w: nat, p: (nat, nat))
    requires Rect(h, w) && InMap(h, w, p)
    ensures var r := Lowest(h, w, p.0, p.1);
      (r.Some? ==> InMap(h, w, r.value) && Adjacent(p, r.value) && At(h, w, r.value) < 9 &&
                   forall q :: InMap(h, w, q) && Adjacent(p, q) ==> At(h, w, r.value) <= At(h, w, q)) &&
      (r.None? <==> forall q :: InMap(h, w, q) && Adjacent(p, q) ==> At(h, w, q) >= 9)
  {
    var r := Lowest(h, w, p.0, p.1);
    if r.None? {
      forall q | InMap(h, w, q) && Adjacent(p, q)
        ensures At(h, w, q) >= 9
      {
      }
    } else {
      assert forall q :: InMap(h, w, q) && Adjacent(p, q) ==> At(h, w, r.value) <= At(h, w, q);
    }
  }

  /** A neighbour strictly lower than the area itself. */
  ghost predicate HasLowerNeighbour(h: seq<seq<nat>>, w: nat, i: nat, j: nat)
    requires Rect(h, w) && i < |h| && j < w
  {
    (i != 0 && h[i - 1][j] < h[i][j]) || (i != |h| - 1 && h[i + 1][j] < h[i][j]) ||
    (j != 0 && h[i][j - 1] < h[i][j]) || (j != w - 1 && h[i][j + 1] < h[i][j])
  }

  /**
   * Every area below 9 that is not a low point has a strictly lower
   * neighbour. Without it two equal neighbours can send the walk back and
   * forth for ever.
   */
  ghost predicate Descends(h: seq<seq<nat>>, w: nat)
    requires Rect(h, w)
  {
    forall i, j :: 0 <= i < |h| && 0 <= j < w && h[i][j] < 9 && !IsLow(h, w, i, j) ==> HasLowerNeighbour(h, w, i, j)
  }

  /** On a descending map, every step of the walk goes strictly down. */
  lemma LowestDescends(h: seq<seq<nat>>, w: nat, i: nat, j: nat)
    requires Rect(h, w) && i < |h| && j < w && Descends(h, w)
    requires h[i][j] < 9 && !IsLow(h, w, i, j)
    ensures Lowest(h, w, i, j).Some?
    ensures var q := Lowest(h, w, i, j).value; InMap(h, w, q) && At(h, w, q) < h[i][j]
  {
    LowestIsLowest(h, w, (i, j));
    assert HasLowerNeighbour(h, w, i, j);
    if i != 0 && h[i - 1][j] < h[i][j] {
      assert InMap(h, w, (i - 1, j)) && Adjacent((i, j), (i - 1, j));
    } else if i != |h| - 1 && h[i + 1][j] < h[i][j] {
      assert InMap(h, w, (i + 1, j)) && Adjacent((i, j), (i + 1, j));
    } else if j != 0 && h[i][j - 1] < h[i][j] {
      assert InMap(h, w, (i, j - 1)) && Adjacent((i, j), (i, j - 1));
    } else {
      assert InMap(h, w, (i, j + 1)) && Adjacent((i, j), (i, j + 1));
    }
  }

  /** The low point the walk from `(i, j)` stops at. */
  ghost function WalkEnd(h: seq<seq<nat>>, w: nat, i: nat, j: nat): (p: (nat, nat))
    requires Rect(h, w) && i < |h| && j < w && Descends(h, w) && h[i][j] < 9
    ensures InMap(h, w, p) && At(h, w, p) <= h[i][j] && IsLow(h, w, p.0, p.1)
    decreases h[i][j]
  {
    if IsLow(h, w, i, j) then (i, j)
    else
      LowestDescends(h, w, i, j);
      var q := Lowest(h, w, i, j).value;
      WalkEnd(h, w, q.0, q.1)
  }

  /** The basin an area belongs to: none at height 9. */
  ghost function Walk(h: seq<seq<nat>>, w: nat, i: nat, j: nat): (r: Option<(nat, nat)>)
    requires Rect(h, w) && i < |h| && j < w && Descends(h, w)
    ensures r.None? <==> h[i][j] == 9
    ensures r.Some? ==> InMap(h, w, r.value) && IsLow(h, w, r.value.0, r.value.1)
  {
    if h[i][j] == 9 then None else Some(WalkEnd(h, w, i, j))
  }

  /** The first neighbour of the lowest height below 9, in the order of the C code. */
  method LowestNeighbour(m: array2<Area>, ghost h: seq<seq<nat>>, i: nat, j: nat) returns (r: Option<(nat, nat)>)
    requires HeightsAre(m, h) && i < m.Length0 && j < m.Length1
    ensures r == Lowest(h, m.Length1, i, j)
  {
    var lowest := 9;
    r := None;
    if i != 0 && m[i - 1, j].height < lowest {
      r := Some((i - 1, j));
      lowest := m[i - 1, j].height;
    }
    if i != m.Length0 - 1 && m[i + 1, j].height < lowest {
      r := Some((i + 1, j));
      lowest := m[i + 1, j].height;
    }
    if j != 0 && m[i, j - 1].height < lowest {
      r := Some((i, j - 1));
      lowest := m[i, j - 1].height;
    }
    if j != m.Length1 - 1 && m[i, j + 1].height < lowest {
      r := Some((i, j + 1));
      lowest := m[i, j + 1].height;
    }
  }

  /**
   * Finds the low point of the basin of the area in column `x`, row `y`,
   * walking to the lowest neighbour until a flagged low point is reached.
   */
  method FindBasin(m: array2<Area>, ghost h: seq<seq<nat>>, x: nat, y: nat) returns (r: Option<(nat, nat)>)
    requires HeightsAre(m, h) && LowFlagsSet(m, h) && Descends(h, m.Length1)
    requires y < m.Length0 && x < m.Length1
    ensures r == Walk(h, m.Length1, y, x)
  {
    if m[y, x].height == 9 {
      return None;
    }
    var i: nat, j: nat := y, x;
    while !m[i, j].isLowPoint
      invariant i < m.Length0 && j < m.Length1 && h[i][j] < 9
      invariant WalkEnd(h, m.Length1, i, j) == WalkEnd(h, m.Length1, y, x)
      decreases h[i][j]
    {
      LowestDescends(h, m.Length1, i, j);
      var next := LowestNeighbour(m, h, i, j);
      assert WalkEnd(h, m.Length1, i, j) == WalkEnd(h, m.Length1, next.value.0, next.value.1);
      i, j := next.value.0, next.value.1;
    }
    return Some((i, j));
  }

  /**
   * A map the walk never leaves: two equal areas next to each other, neither
   * a low point, each the other's lowest neighbour. `Descends` rules it out.
   */
  lemma PlateauCycles()
    ensures var h := [[5, 5]];
      Rect(h, 2) && !Descends(h, 2) && !IsLow(h, 2, 0, 0) && !IsLow(h, 2, 0, 1) &&
      Lowest(h, 2, 0, 0) == Some((0, 1)) && Lowest(h, 2, 0, 1) == Some((0, 0))
  {
    var h := [[5, 5]];
    assert !HasLowerNeighbour(h, 2, 0, 0);
  }

  /* ---------- Basins ---------- */

  /** Whether `(r, c)` comes before `(i, j)` in row-major order. */
  predicate Before(r: nat, c: nat, i: nat, j: nat)
  {
    r < i || (r == i && c < j)
  }

  /** Where the walk from each area ends, row by row. */
  type Ends = seq<seq<Option<(nat, nat)>>>

  /** A table of `|t|` rows of `w` entries. */
  ghost predicate Table(t: Ends, w: nat)
  {
    forall i :: 0 <= i < |t| ==> |t[i]| == w
  }

  /** The walk ends of every area of the map. */
  ghost function WalkEnds(h: seq<seq<nat>>, w: nat): (t: Ends)
    requires Rect(h, w) && Descends(h, w)
    ensures |t| == |h| && Table(t, w)
  {
    seq(|h|, i requires 0 <= i < |h| => seq(w, j requires 0 <= j < w => Walk(h, w, i, j)))
  }

  /** The table holds the walk end of each area. */
  lemma WalkEndsAt(h: seq<seq<nat>>, w: nat, i: nat, j: nat)
    requires Rect(h, w) && Descends(h, w) && i < |h| && j < w
    ensures WalkEnds(h, w)[i][j] == Walk(h, w, i, j)
  {
  }

  /** The positions of `n` rows of `w` before `(i, j)`. */
  ghost function CellsBefore(n: nat, w: nat, i: nat, j: nat): set<(nat, nat)>
  {
    set r: nat, c: nat | r < n && c < w && Before(r, c, i, j) :: (r, c)
  }

  /** The areas before `(i, j)` whose walk ends at `p`. */
  ghost function BasinBefore(t: Ends, w: nat, p: (nat, nat), i: nat, j: nat): set<(nat, nat)>
    requires Table(t, w)
  {
    set q | q in CellsBefore(|t|, w, i, j) && t[q.0][q.1] == Some(p)
  }

  /** The basin of `p`: every area whose walk ends at `p`. */
  ghost function Basin(h: seq<seq<nat>>, w: nat, p: (nat, nat)): set<(nat, nat)>
    requires Rect(h, w) && Descends(h, w)
  {
    BasinBefore(WalkEnds(h, w), w, p, |h|, 0)
  }

  /**
   * How many areas before `(i, j)` drain to the low point `(pr, pc)`,
   * counted in row-major order.
   */
  ghost function CountBefore(t: Ends, w: nat, pr: nat, pc: nat, i: nat, j: nat): nat
    requires Table(t, w) && i <= |t| && j <= w && (j > 0 ==> i < |t|)
    decreases i, j
  {
    if j == 0 then (if i == 0 then 0 else CountBefore(t, w, pr, pc, i - 1, w))
    else CountBefore(t, w, pr, pc, i, j - 1) + (if t[i][j - 1] == Some((pr, pc)) then 1 else 0)
  }

  /** One more area counted: it adds one exactly when it drains to `(pr, pc)`. */
  lemma CountBeforeNext(t: Ends, w: nat, pr: nat, pc: nat, i: nat, j: nat)
    requires Table(t, w) && i < |t| && j < w
    ensures CountBefore(t, w, pr, pc, i, j + 1) ==
            CountBefore(t, w, pr, pc, i, j) + (if t[i][j] == Some((pr, pc)) then 1 else 0)
  {
  }

  /** The size of the basin of `p`, as counted in row-major order. */
  ghost function BasinSize(h: seq<seq<nat>>, w: nat, p: (nat, nat)): nat
    requires Rect(h, w) && Descends(h, w)
  {
    CountBefore(WalkEnds(h, w), w, p.0, p.1, |h|, 0)
  }

  /** Membership of the areas before `(i, j)` that drain to `p`. */
  lemma InBasinBefore(t: Ends, w: nat, p: (nat, nat), i: nat, j: nat, q: (nat, nat))
    requires Table(t, w)
    ensures q in BasinBefore(t, w, p, i, j) <==>
            q.0 < |t| && q.1 < w && Before(q.0, q.1, i, j) && t[q.0][q.1] == Some(p)
  {
  }

  /** The basin grows by the next area exactly when it drains to `p`. */
  lemma BasinBeforeNext(t: Ends, w: nat, p: (nat, nat), i: nat, j: nat)
    requires Table(t, w) && i < |t| && j < w
    ensures |BasinBefore(t, w, p, i, j + 1)| ==
            |BasinBefore(t, w, p, i, j)| + (if t[i][j] == Some(p) then 1 else 0)
  {
    var a := BasinBefore(t, w, p, i, j + 1);
    var a0 := BasinBefore(t, w, p, i, j);
    var b := a0 + (if t[i][j] == Some(p) then {(i, j)} else {});
    forall q | q in a ensures q in b {
      InBasinBefore(t, w, p, i, j + 1, q);
      InBasinBefore(t, w, p, i, j, q);
    }
    forall q | q in b ensures q in a {
      InBasinBefore(t, w, p, i, j + 1, q);
      InBasinBefore(t, w, p, i, j, q);
    }
    assert a == b;
    InBasinBefore(t, w, p, i, j, (i, j));
  }

  /** Moving to the start of the next row adds nothing. */
  lemma BasinBeforeRow(t: Ends, w: nat, p: (nat, nat), i: nat)
    requires Table(t, w)
    ensures |BasinBefore(t, w, p, i + 1, 0)| == |BasinBefore(t, w, p, i, w)|
    ensures |BasinBefore(t, w, p, 0, 0)| == 0
  {
    assert BasinBefore(t, w, p, i + 1, 0) == BasinBefore(t, w, p, i, w);
    assert BasinBefore(t, w, p, 0, 0) == {};
  }

  /** The count is the number of areas draining to `(pr, pc)`. */
  lemma {:induction false} CountBeforeIsBasin(t: Ends, w: nat, pr: nat, pc: nat, i: nat, j: nat)
    requires Table(t, w) && i <= |t| && j <= w && (j > 0 ==> i < |t|)
    ensures CountBefore(t, w, pr, pc, i, j) == |BasinBefore(t, w, (pr, pc), i, j)|
    decreases i, j
  {
    if j == 0 {
      BasinBeforeRow(t, w, (pr, pc), if i == 0 then 0 else i - 1);
      if i > 0 {
        CountBeforeIsBasin(t, w, pr, pc, i - 1, w);
      }
    } else {
      CountBeforeIsBasin(t, w, pr, pc, i, j - 1);
      BasinBeforeNext(t, w, (pr, pc), i, j - 1);
    }
  }

  /** The size counted for `p` is the number of areas in its basin. */
  lemma BasinSizeIsBasin(h: seq<seq<nat>>, w: nat, p: (nat, nat))
    requires Rect(h, w) && Descends(h, w)
    ensures BasinSize(h, w, p) == |Basin(h, w, p)|
  {
    CountBeforeIsBasin(WalkEnds(h, w), w, p.0, p.1, |h|, 0);
  }

  /**
   * The areas before `(i, j)` know the end of their walk in `t`, and every
   * area counts the areas before `(i, j)` that drain to it; the others are
   * as allocated.
   */
  ghost predicate AssignedTo(m: array2<Area>, t: Ends, i: nat, j: nat)
    reads m
    requires |t| == m.Length0 && Table(t, m.Length1)
    requires i <= m.Length0 && j <= m.Length1 && (j > 0 ==> i < m.Length0)
  {
    forall r, c :: 0 <= r < m.Length0 && 0 <= c < m.Length1 ==>
      m[r, c].basinLowPoint == (if Before(r, c, i, j) then t[r][c] else None) &&
      m[r, c].basinSize == CountBefore(t, m.Length1, r, c, i, j)
  }

  /** Records the walk end of the area at `(i, j)` and counts the area in its low point. */
  method RecordBasin(m: array2<Area>, ghost t: Ends, i: nat, j: nat, walk: Option<(nat, nat)>)
    requires |t| == m.Length0 && Table(t, m.Length1)
    requires i < m.Length0 && j < m.Length1 && AssignedTo(m, t, i, j)
    requires t[i][j] == walk && (walk.Some? ==> walk.value.0 < m.Length0 && walk.value.1 < m.Length1)
    modifies m
    ensures AssignedTo(m, t, i, j + 1)
    ensures forall r, c :: 0 <= r < m.Length0 && 0 <= c < m.Length1 ==>
              m[r, c].height == old(m[r, c].height) && m[r, c].isLowPoint == old(m[r, c].isLowPoint)
  {
    m[i, j] := m[i, j].(basinLowPoint := walk);
    if walk.Some? {
      var p := walk.value;
      m[p.0, p.1] := m[p.0, p.1].(basinSize := m[p.0, p.1].basinSize + 1);
    }
    forall r, c | 0 <= r < m.Length0 && 0 <= c < m.Length1
      ensures m[r, c].basinSize == CountBefore(t, m.Length1, r, c, i, j + 1)
    {
      CountBeforeNext(t, m.Length1, r, c, i, j);
    }
  }

  /** Finds the basin of the area at `(i, j)`, records it and counts it in its low point. */
  method AssignBasin(m: array2<Area>, ghost h: seq<seq<nat>>, i: nat, j: nat)
    requires HeightsAre(m, h) && LowFlagsSet(m, h) && Descends(h, m.Length1)
    requires i < m.Length0 && j < m.Length1 && AssignedTo(m, WalkEnds(h, m.Length1), i, j)
    modifies m
    ensures HeightsAre(m, h) && LowFlagsSet(m, h) && AssignedTo(m, WalkEnds(h, m.Length1), i, j + 1)
  {
    var walk := FindBasin(m, h, j, i);
    WalkEndsAt(h, m.Length1, i, j);
    RecordBasin(m, WalkEnds(h, m.Length1), i, j, walk);
  }

  /**
   * Gives every area its basin's low point and every low point the size of
   * its basin, starting from the zeroed allocation.
   */
  method IdentifyBasins(m: array2<Area>, ghost h: seq<seq<nat>>)
    requires HeightsAre(m, h) && LowFlagsSet(m, h) && Descends(h, m.Length1)
    requires forall r, c :: 0 <= r < m.Length0 && 0 <= c < m.Length1 ==>
               m[r, c].basinLowPoint == None && m[r, c].basinSize == 0
    modifies m
    ensures HeightsAre(m, h) && LowFlagsSet(m, h)
    ensures forall r, c :: 0 <= r < m.Length0 && 0 <= c < m.Length1 ==>
              m[r, c].basinLowPoint == Walk(h, m.Length1, r, c) &&
              m[r, c].basinSize == BasinSize(h, m.Length1, (r, c))
  {
    ghost var t := WalkEnds(h, m.Length1);
    AssignedStart(m, t);
    for i := 0 to m.Length0
      invariant HeightsAre(m, h) && LowFlagsSet(m, h) && AssignedTo(m, t, i, 0)
    {
      AssignRow(m, h, i);
    }
    AssignedAll(m, h);
  }

  /** Assigns the basins of the areas of row `i`. */
  method AssignRow(m: array2<Area>, ghost h: seq<seq<nat>>, i: nat)
    requires HeightsAre(m, h) && LowFlagsSet(m, h) && Descends(h, m.Length1)
    requires i < m.Length0 && AssignedTo(m, WalkEnds(h, m.Length1), i, 0)
    modifies m
    ensures HeightsAre(m, h) && LowFlagsSet(m, h) && AssignedTo(m, WalkEnds(h, m.Length1), i + 1, 0)
  {
    for j := 0 to m.Length1
      invariant HeightsAre(m, h) && LowFlagsSet(m, h) && AssignedTo(m, WalkEnds(h, m.Length1), i, j)
    {
      AssignBasin(m, h, i, j);
    }
    AssignedNextRow(m, WalkEnds(h, m.Length1), i);
  }

  lemma AssignedStart(m: array2<Area>, t: Ends)
    requires |t| == m.Length0 && Table(t, m.Length1)
    requires forall r, c :: 0 <= r < m.Length0 && 0 <= c < m.Length1 ==>
               m[r, c].basinLowPoint == None && m[r, c].basinSize == 0
    ensures AssignedTo(m, t, 0, 0)
  {
  }

  lemma AssignedNextRow(m: array2<Area>, t: Ends, i: nat)
    requires |t| == m.Length0 && Table(t, m.Length1) && i < m.Length0
    requires AssignedTo(m, t, i, m.Length1)
    ensures AssignedTo(m, t, i + 1, 0)
  {
  }

  lemma AssignedAll(m: array2<Area>, h: seq<seq<nat>>)
    requires HeightsAre(m, h) && Descends(h, m.Length1)
    requires AssignedTo(m, WalkEnds(h, m.Length1), m.Length0, 0)
    ensures forall r, c :: 0 <= r < m.Length0 && 0 <= c < m.Length1 ==>
              m[r, c].basinLowPoint == Walk(h, m.Length1, r, c) &&
              m[r, c].basinSize == BasinSize(h, m.Length1, (r, c))
  {
    forall r, c | 0 <= r < m.Length0 && 0 <= c < m.Length1
      ensures m[r, c].basinLowPoint == Walk(h, m.Length1, r, c)
    {
      WalkEndsAt(h, m.Length1, r, c);
    }
  }

  /* ---------- The three largest basins ---------- */

  /** The low points before `(i, j)`, in row-major order. */
  ghost function LowBefore(h: seq<seq<nat>>, w: nat, i: nat, j: nat): (l: seq<(nat, nat)>)
    requires Rect(h, w) && i <= |h| && j <= w && (j > 0 ==> i < |h|)
    ensures forall k :: 0 <= k < |l| ==> InMap(h, w, l[k])
    decreases i, j
  {
    if j == 0 then (if i == 0 then [] else LowBefore(h, w, i - 1, w))
    else LowBefore(h, w, i, j - 1) + (if IsLow(h, w, i, j - 1) then [(i, j - 1)] else [])
  }

  /** The list holds exactly the low points before `(i, j)`, each once. */
  lemma {:induction false} LowBeforeMembers(h: seq<seq<nat>>, w: nat, i: nat, j: nat)
    requires Rect(h, w) && i <= |h| && j <= w && (j > 0 ==> i < |h|)
    ensures forall p :: p in LowBefore(h, w, i, j) <==>
              InMap(h, w, p) && Before(p.0, p.1, i, j) && IsLow(h, w, p.0, p.1)
    ensures forall a, b :: 0 <= a < b < |LowBefore(h, w, i, j)| ==>
              LowBefore(h, w, i, j)[a] != LowBefore(h, w, i, j)[b]
    decreases i, j
  {
    if j == 0 {
      if i > 0 {
        LowBeforeMembers(h, w, i - 1, w);
      }
    } else {
      LowBeforeMembers(h, w, i, j - 1);
    }
  }

  /** The low points of the whole map. */
  ghost function LowPoints(h: seq<seq<nat>>, w: nat): seq<(nat, nat)>
    requires Rect(h, w)
  {
    LowBefore(h, w, |h|, 0)
  }

  /** The basin sizes of a list of low points, in its order. */
  ghost function SizesOf(h: seq<seq<nat>>, w: nat, l: seq<(nat, nat)>): (s: seq<nat>)
    requires Rect(h, w) && Descends(h, w)
    ensures |s| == |l|
  {
    if l == [] then [] else SizesOf(h, w, l[..|l| - 1]) + [BasinSize(h, w, l[|l| - 1])]
  }

  lemma SizesOfAppend(h: seq<seq<nat>>, w: nat, l: seq<(nat, nat)>, p: (nat, nat))
    requires Rect(h, w) && Descends(h, w)
    ensures SizesOf(h, w, l + [p]) == SizesOf(h, w, l) + [BasinSize(h, w, p)]
  {
    assert (l + [p])[..|l|] == l;
  }

  /** The basin sizes of every low point, in row-major order. */
  ghost function BasinSizes(h: seq<seq<nat>>, w: nat): seq<nat>
    requires Rect(h, w) && Descends(h, w)
  {
    SizesOf(h, w, LowPoints(h, w))
  }

  function Sum(s: seq<nat>): nat
  {
    if s == [] then 0 else Sum(s[..|s| - 1]) + s[|s| - 1]
  }

  /** The areas whose walk ends at one of the low points of `l`. */
  ghost function Drained(t: Ends, w: nat, l: seq<(nat, nat)>): set<(nat, nat)>
    requires Table(t, w)
  {
    set q | q in CellsBefore(|t|, w, |t|, 0) && t[q.0][q.1].Some? && t[q.0][q.1].value in l
  }

  /** The areas below 9. */
  ghost function NotNine(h: seq<seq<nat>>, w: nat): set<(nat, nat)>
    requires Rect(h, w)
  {
    set q | q in CellsBefore(|h|, w, |h|, 0) && h[q.0][q.1] < 9
  }

  /** Adding a new low point adds its basin, which is disjoint from the others. */
  lemma DrainedStep(t: Ends, w: nat, l: seq<(nat, nat)>, p: (nat, nat))
    requires Table(t, w) && p !in l
    ensures |Drained(t, w, l + [p])| == |Drained(t, w, l)| + |BasinBefore(t, w, p, |t|, 0)|
  {
    assert Drained(t, w, l + [p]) == Drained(t, w, l) + BasinBefore(t, w, p, |t|, 0);
    assert Drained(t, w, l) * BasinBefore(t, w, p, |t|, 0) == {};
  }

  /** The areas draining into distinct low points number the sum of their basin sizes. */
  lemma {:induction false} DrainedCount(h: seq<seq<nat>>, w: nat, l: seq<(nat, nat)>)
    requires Rect(h, w) && Descends(h, w)
    requires forall a, b :: 0 <= a < b < |l| ==> l[a] != l[b]
    ensures |Drained(WalkEnds(h, w), w, l)| == Sum(SizesOf(h, w, l))
  {
    var t := WalkEnds(h, w);
    if l == [] {
      assert Drained(t, w, l) == {};
    } else {
      var init := l[..|l| - 1];
      var p := l[|l| - 1];
      DrainedCount(h, w, init);
      assert l == init + [p];
      DrainedStep(t, w, init, p);
      BasinSizeIsBasin(h, w, p);
      assert SizesOf(h, w, l)[..|l| - 1] == SizesOf(h, w, init);
    }
  }

  /**
   * Every area below 9 counts in exactly one basin, so the basin sizes sum
   * to the number of areas below 9.
   */
  lemma BasinSizesSum(h: seq<seq<nat>>, w: nat)
    requires Rect(h, w) && Descends(h, w)
    ensures Sum(BasinSizes(h, w)) == |NotNine(h, w)|
  {
    var t := WalkEnds(h, w);
    LowBeforeMembers(h, w, |h|, 0);
    DrainedCount(h, w, LowPoints(h, w));
    forall q | q in NotNine(h, w)
      ensures q in Drained(t, w, LowPoints(h, w))
    {
      WalkEndsAt(h, w, q.0, q.1);
      var p := WalkEnd(h, w, q.0, q.1);
      assert InMap(h, w, p) && Before(p.0, p.1, |h|, 0) && IsLow(h, w, p.0, p.1);
    }
    assert Drained(t, w, LowPoints(h, w)) == NotNine(h, w);
  }

  /**
   * Of a sorted permutation of at least three sizes, the last three are the
   * largest: no other entry exceeds any of them.
   */
  lemma TopThreeOfSorted(s: seq<nat>)
    requires |s| >= 3
    ensures var t := Sort(s); var n := |t|;
      multiset(t) == multiset(s) && t[n - 3] <= t[n - 2] <= t[n - 1] &&
      forall k :: 0 <= k < n - 3 ==> t[k] <= t[n - 3]
  {
    SortIsSortedPermutation(s);
  }

  /** The sizes counted on the low points are those of their basins. */
  ghost predicate SizesSet(m: array2<Area>, h: seq<seq<nat>>)
    reads m
    requires HeightsAre(m, h) && Descends(h, m.Length1)
  {
    forall r, c :: 0 <= r < m.Length0 && 0 <= c < m.Length1 ==>
      m[r, c].basinSize == BasinSize(h, m.Length1, (r, c))
  }

  /** Counts the low points of the map. */
  method CountLowPoints(m: array2<Area>, ghost h: seq<seq<nat>>) returns (n: nat)
    requires HeightsAre(m, h) && LowFlagsSet(m, h)
    ensures n == |LowPoints(h, m.Length1)|
  {
    n := 0;
    for i := 0 to m.Length0
      invariant n == |LowBefore(h, m.Length1, i, 0)|
    {
      for j := 0 to m.Length1
        invariant n == |LowBefore(h, m.Length1, i, j)|
      {
        if m[i, j].isLowPoint {
          n := n + 1;
        }
      }
    }
  }

  /** Writes `v` just past the first `k` entries. */
  method Put(a: array<nat>, k: nat, v: nat)
    requires k < a.Length
    modifies a
    ensures a[..k + 1] == old(a[..k]) + [v]
  {
    a[k] := v;
  }

  /** Lists the basin sizes of the low points of row `i` after the first `k`. */
  method CollectRow(m: array2<Area>, ghost h: seq<seq<nat>>, sizes: array<nat>, i: nat, k0: nat) returns (k: nat)
    requires |h| == m.Length0 && Rect(h, m.Length1) && Descends(h, m.Length1)
    requires i < m.Length0 && sizes.Length == |LowPoints(h, m.Length1)|
    requires forall j :: 0 <= j < m.Length1 ==>
               m[i, j].isLowPoint == IsLow(h, m.Length1, i, j) && m[i, j].basinSize == BasinSize(h, m.Length1, (i, j))
    requires k0 == |LowBefore(h, m.Length1, i, 0)| <= sizes.Length
    requires sizes[..k0] == SizesOf(h, m.Length1, LowBefore(h, m.Length1, i, 0))
    modifies sizes
    ensures k == |LowBefore(h, m.Length1, i + 1, 0)| <= sizes.Length
    ensures sizes[..k] == SizesOf(h, m.Length1, LowBefore(h, m.Length1, i + 1, 0))
  {
    ghost var w := m.Length1;
    k := k0;
    for j := 0 to m.Length1
      invariant k == |LowBefore(h, w, i, j)| <= sizes.Length
      invariant sizes[..k] == SizesOf(h, w, LowBefore(h, w, i, j))
    {
      LowBeforeStep(h, w, i, j);
      if m[i, j].isLowPoint {
        Put(sizes, k, m[i, j].basinSize);
        k := k + 1;
      }
    }
  }

  /** One more area of row `i` adds itself to the list exactly when it is a low point. */
  lemma LowBeforeStep(h: seq<seq<nat>>, w: nat, i: nat, j: nat)
    requires Rect(h, w) && Descends(h, w) && i < |h| && j < w
    ensures |LowBefore(h, w, i, j + 1)| <= |LowPoints(h, w)|
    ensures LowBefore(h, w, i, j + 1) ==
            LowBefore(h, w, i, j) + (if IsLow(h, w, i, j) then [(i, j)] else [])
    ensures SizesOf(h, w, LowBefore(h, w, i, j + 1)) ==
            SizesOf(h, w, LowBefore(h, w, i, j)) + (if IsLow(h, w, i, j) then [BasinSize(h, w, (i, j))] else [])
  {
    LowBeforeGrows(h, w, i, j + 1);
    if IsLow(h, w, i, j) {
      SizesOfAppend(h, w, LowBefore(h, w, i, j), (i, j));
    } else {
      assert LowBefore(h, w, i, j + 1) == LowBefore(h, w, i, j);
    }
  }

  /** Lists the basin sizes of the low points in row-major order. */
  method CollectSizes(m: array2<Area>, ghost h: seq<seq<nat>>, n: nat) returns (sizes: array<nat>)
    requires HeightsAre(m, h) && LowFlagsSet(m, h) && Descends(h, m.Length1) && SizesSet(m, h)
    requires n == |LowPoints(h, m.Length1)|
    ensures fresh(sizes) && sizes[..] == BasinSizes(h, m.Length1)
  {
    sizes := new nat[n];
    var k := 0;
    for i := 0 to m.Length0
      invariant k == |LowBefore(h, m.Length1, i, 0)| <= n
      invariant sizes[..k] == SizesOf(h, m.Length1, LowBefore(h, m.Length1, i, 0))
    {
      k := CollectRow(m, h, sizes, i, k);
    }
  }

  /** The low points before a position are among all of them. */
  lemma {:induction false} LowBeforeGrows(h: seq<seq<nat>>, w: nat, i: nat, j: nat)
    requires Rect(h, w) && i <= |h| && j <= w && (j > 0 ==> i < |h|)
    ensures |LowBefore(h, w, i, j)| <= |LowPoints(h, w)|
    decreases |h| - i, w - j
  {
    if i < |h| {
      if j < w {
        LowBeforeGrows(h, w, i, j + 1);
      } else {
        LowBeforeGrows(h, w, i + 1, 0);
      }
    }
  }

  /** The last three of the sizes once sorted, multiplied. */
  function TopThreeProduct(s: seq<nat>): nat
    requires |s| >= 3
  {
    var t := Sort(s);
    t[|t| - 1] * t[|t| - 2] * t[|t| - 3]
  }

  /**
   * Multiplies the three largest basin sizes: the last three once the sizes
   * are sorted. The C code reads below the start of its array with fewer
   * than three low points.
   */
  method ThreeLargestBasinsMultiplied(m: array2<Area>, ghost h: seq<seq<nat>>) returns (product: nat)
    requires HeightsAre(m, h) && LowFlagsSet(m, h) && Descends(h, m.Length1) && SizesSet(m, h)
    requires |LowPoints(h, m.Length1)| >= 3
    ensures product == TopThreeProduct(BasinSizes(h, m.Length1))
  {
    var n := CountLowPoints(m, h);
    var sizes := CollectSizes(m, h, n);
    product := TopThreeProduct(sizes[..]);
  }

  /* ---------- Reading the map and running both parts ---------- */

  predicate IsDigit(c: char)
  {
    '0' <= c <= '9'
  }

  function DigitValue(c: char): (d: nat)
    requires IsDigit(c)
    ensures d <= 9
  {
    c as int - '0' as int
  }

  /** The lines are digits, at least as long as the first. */
  predicate WellFormed(lines: seq<string>)
  {
    |lines| > 0 &&
    forall i :: 0 <= i < |lines| ==> |lines[i]| >= |lines[0]| && forall j :: 0 <= j < |lines[0]| ==> IsDigit(lines[i][j])
  }

  /** The heights read from the lines: the first `w` digits of each. */
  ghost function HeightsOf(lines: seq<string>, w: nat): (h: seq<seq<nat>>)
    requires forall i :: 0 <= i < |lines| ==> |lines[i]| >= w && forall j :: 0 <= j < w ==> IsDigit(lines[i][j])
    ensures |h| == |lines| && Rect(h, w)
    ensures forall i, j :: 0 <= i < |lines| && 0 <= j < w ==> h[i][j] == DigitValue(lines[i][j])
  {
    seq(|lines|, i requires 0 <= i < |lines| =>
      seq(w, j requires 0 <= j < w => DigitValue(lines[i][j])))
  }

  /** Reads the map into a fresh array with every other field zeroed. */
  method MakeHeightMap(lines: seq<string>) returns (m: array2<Area>)
    requires WellFormed(lines)
    ensures fresh(m) && m.Length1 == |lines[0]| && HeightsAre(m, HeightsOf(lines, |lines[0]|))
    ensures forall r, c :: 0 <= r < m.Length0 && 0 <= c < m.Length1 ==>
              !m[r, c].isLowPoint && m[r, c].basinLowPoint == None && m[r, c].basinSize == 0
  {
    var w := |lines[0]|;
    ghost var h := HeightsOf(lines, w);
    m := new Area[|lines|, w];
    for i := 0 to |lines|
      invariant forall r, c :: 0 <= r < i && 0 <= c < w ==> m[r, c] == Area(h[r][c], false, None, 0)
    {
      for j := 0 to w
        invariant forall r, c :: 0 <= r < i && 0 <= c < w ==> m[r, c] == Area(h[r][c], false, None, 0)
        invariant forall c :: 0 <= c < j ==> m[i, c] == Area(h[i][c], false, None, 0)
      {
        m[i, j] := Area(DigitValue(lines[i][j]), false, None, 0);
      }
    }
  }

  /** The map is read well and its part two is defined. */
  ghost predicate Solvable(lines: seq<string>)
  {
    WellFormed(lines) &&
    var h := HeightsOf(lines, |lines[0]|);
    Descends(h, |lines[0]|) && |LowPoints(h, |lines[0]|)| >= 3
  }

  /**
   * Both parts: the total risk of the low points, and the product of the
   * three largest basin sizes.
   */
  method Run(lines: seq<string>) returns (risk: nat, product: nat)
    requires Solvable(lines)
    ensures risk == RiskOf(HeightsOf(lines, |lines[0]|), |lines[0]|, LowPoints(HeightsOf(lines, |lines[0]|), |lines[0]|))
    ensures product == TopThreeProduct(BasinSizes(HeightsOf(lines, |lines[0]|), |lines[0]|))
  {
    ghost var h := HeightsOf(lines, |lines[0]|);
    var m := MakeHeightMap(lines);
    IdentifyLowPoints(m, h);
    assert forall r, c :: 0 <= r < m.Length0 && 0 <= c < m.Length1 ==>
             m[r, c].basinLowPoint == None && m[r, c].basinSize == 0;
    risk := SumOfRiskLevels(m, h);
    TotalRiskOfLowPoints(h, m.Length1);
    IdentifyBasins(m, h);
    assert SizesSet(m, h);
    product := ThreeLargestBasinsMultiplied(m, h);
  }
}