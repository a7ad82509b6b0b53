/**
 * Chiton (src/day_15.c): the lowest total risk of a path from the top-left
 * to every cell of a grid, moving up, down, left or right, found by
 * relaxing each cell against its neighbours in row-major sweeps until a
 * sweep changes nothing; and the tiling of the grid into a 5x5 map whose
 * risk levels rise by one per tile and wrap from 9 back to 1.
 */
module Chiton {

  // -------------------------------------------------------------- tiling

  /** A risk level raised by `shift`, less 9 when it passes 9. */
  function Tile(v: nat, shift: nat): nat
  {
    if v + shift > 9 then v + shift - 9 else v + shift
  }

  /** Raising stays within 1..9 and is a rotation of 1..9 for shifts up to 8. */
  lemma TileWraps(v: nat, shift: nat)
    requires 1 <= v <= 9 && shift <= 8
    ensures 1 <= Tile(v, shift) <= 9
    ensures Tile(v, shift) == (v - 1 + shift) % 9 + 1
  {
  }

  lemma QuotientBelowFive(a: nat, n: nat)
    requires n > 0 && a < 5 * n
    ensures 0 <= a / n <= 4
  {
  }

  /** Risk levels in 1..9. */
  predicate Levels(g: array2<nat>)
    reads g
  {
    forall a, b :: 0 <= a < g.Length0 && 0 <= b < g.Length1 ==> 1 <= g[a, b] <= 9
  }

  /** Cell (i, j) of the 5x5 tiling: cell (i mod L, j mod W) of the grid raised by i / L + j / W. */
  function TileAt(g: array2<nat>, i: nat, j: nat): nat
    requires g.Length0 > 0 && g.Length1 > 0
    reads g
  {
    Tile(g[i % g.Length0, j % g.Length1], i / g.Length0 + j / g.Length1)
  }

  /** The top-left tile is the grid itself. */
  lemma TopLeftTile(g: array2<nat>, i: nat, j: nat)
    requires i < g.Length0 && j < g.Length1 && g[i, j] <= 9
    ensures TileAt(g, i, j) == g[i, j]
  {
    assert i % g.Length0 == i && i / g.Length0 == 0 && j % g.Length1 == j && j / g.Length1 == 0;
  }

  /** Every tile of a grid with levels 1..9 has levels 1..9. */
  lemma TileAtLevels(g: array2<nat>, i: nat, j: nat)
    requires g.Length0 > 0 && g.Length1 > 0 && Levels(g)
    requires i < 5 * g.Length0 && j < 5 * g.Length1
    ensures 1 <= TileAt(g, i, j) <= 9
  {
    var a, b := i % g.Length0, j % g.Length1;
    var level := g[a, b];
    assert 1 <= level <= 9;
    QuotientBelowFive(i, g.Length0);
    QuotientBelowFive(j, g.Length1);
    var shift: nat := i / g.Length0 + j / g.Length1;
    TileWraps(level, shift);
  }

  /** Fills row i of the tiling. */
  method FillRow(g: array2<nat>, full: array2<nat>, i: nat)
    requires g.Length0 > 0 && g.Length1 > 0 && full != g
    requires i < full.Length0 && full.Length1 == 5 * g.Length1
    modifies full
    ensures forall a, b :: 0 <= a < full.Length0 && 0 <= b < full.Length1 ==>
      full[a, b] == if a == i then TileAt(g, a, b) else old(full[a, b])
  {
    var length, width := g.Length0, g.Length1;
    var j := 0;
    while j < 5 * width
      invariant 0 <= j <= 5 * width
      invariant forall a, b :: 0 <= a < full.Length0 && 0 <= b < full.Length1 ==>
        full[a, b] == if a == i && b < j then TileAt(g, a, b) else old(full[a, b])
    {
      var level, shift := g[i % length, j % width], i / length + j / width;
      var value := level + shift;
      if value > 9 {
        value := value - 9;
      }
      assert value == Tile(level, shift);
      full[i, j] := value;
      j := j + 1;
    }
  }

  /**
   * The 5x5 tiling: cell (i, j) is cell (i mod L, j mod W) of the grid
   * raised by i / L + j / W; the top-left tile is the grid itself, and
   * levels 1..9 stay in 1..9.
   */
  method MakeFullGrid(g: array2<nat>) returns (full: array2<nat>)
    requires g.Length0 > 0 && g.Length1 > 0
    ensures fresh(full) && full.Length0 == 5 * g.Length0 && full.Length1 == 5 * g.Length1
    ensures forall i, j :: 0 <= i < full.Length0 && 0 <= j < full.Length1 ==> full[i, j] == TileAt(g, i, j)
    ensures Levels(g) ==> Levels(full) && forall i, j :: 0 <= i < g.Length0 && 0 <= j < g.Length1 ==> full[i, j] == g[i, j]
  {
    full := new nat[5 * g.Length0, 5 * g.Length1];
    var i := 0;
    while i < 5 * g.Length0
      invariant 0 <= i <= 5 * g.Length0
      invariant forall a, b :: 0 <= a < i && 0 <= b < full.Length1 ==> full[a, b] == TileAt(g, a, b)
    {
      FillRow(g, full, i);
      i := i + 1;
    }
    if Levels(g) {
      forall i, j | 0 <= i < g.Length0 && 0 <= j < g.Length1
        ensures full[i, j] == g[i, j]
      {
        TopLeftTile(g, i, j);
      }
      forall i, j | 0 <= i < full.Length0 && 0 <= j < full.Length1
        ensures 1 <= full[i, j] <= 9
      {
        TileAtLevels(g, i, j);
      }
    }
  }

  // ---------------------------------------------------------- relaxation

  /** A grid read row by row. */
  type Grid = seq<seq<nat>>

  /** `g` has `rows` rows of `columns` cells each. */
  predicate Rect(g: Grid, rows: nat, columns: nat)
  {
    |g| == rows && forall a :: 0 <= a < rows ==> |g[a]| == columns
  }

  /** The contents of a two-dimensional array. */
  function Snap(m: array2<nat>): (g: Grid)
    reads m
    ensures Rect(g, m.Length0, m.Length1)
    ensures forall a, b :: 0 <= a < m.Length0 && 0 <= b < m.Length1 ==> g[a][b] == m[a, b]
  {
    seq(m.Length0, a requires 0 <= a < m.Length0 reads m =>
      seq(m.Length1, b requires 0 <= b < m.Length1 reads m => m[a, b]))
  }

  /** Two grids with equal cells are equal. */
  lemma GridsEqual(g: Grid, h: Grid, rows: nat, columns: nat)
    requires Rect(g, rows, columns) && Rect(h, rows, columns)
    requires forall a, b :: 0 <= a < rows && 0 <= b < columns ==> g[a][b] == h[a][b]
    ensures g == h
  {
    forall a | 0 <= a < rows
      ensures g[a] == h[a]
    {
    }
  }

  /** `r` with cell (i, j) set to `x`. */
  function Update(r: Grid, i: nat, j: nat, x: nat): (r': Grid)
    requires i < |r| && j < |r[i]|
    ensures |r'| == |r| && forall a :: 0 <= a < |r| ==> |r'[a]| == |r[a]|
    ensures forall a, b :: 0 <= a < |r| && 0 <= b < |r[a]| ==> r'[a][b] == if a == i && b == j then x else r[a][b]
  {
    var row: seq<nat> := r[i][j := x];
    r[i := row]
  }

  predicate Start(i: nat, j: nat)
  {
    i == 0 && j == 0
  }

  /** Risk levels `v` and lowest total risks `r` of the same, non-empty shape. */
  predicate Shaped(v: Grid, r: Grid)
  {
    |r| > 0 && |r[0]| > 0 && Rect(r, |r|, |r[0]|) && Rect(v, |r|, |r[0]|)
  }

  /** Every risk level is at least 1, as the digits 1..9 of the input are. */
  predicate Positive(v: Grid)
  {
    forall a, b :: 0 <= a < |v| && 0 <= b < |v[a]| ==> v[a][b] >= 1
  }

  /** (a, b) is a cell of `g`. */
  predicate In(g: Grid, a: nat, b: nat)
  {
    a < |g| && b < |g[a]|
  }

  /** A cell is reached: it is the start, or it has been given a total. */
  predicate Reached(r: Grid, a: nat, b: nat)
  {
    In(r, a, b) && (r[a][b] > 0 || Start(a, b))
  }

  /** Cell (i, j) can be reached through its reached neighbour (a, b): its risk is at least theirs plus its level. */
  predicate Via(v: Grid, r: Grid, i: nat, j: nat, a: nat, b: nat)
  {
    In(v, i, j) && In(r, i, j) && Reached(r, a, b) && r[a][b] + v[i][j] <= r[i][j]
  }

  /** The risk of (i, j) is at most that of its neighbour (a, b), if reached, plus its level. */
  predicate Bounded(v: Grid, r: Grid, i: nat, j: nat, a: nat, b: nat)
  {
    In(v, i, j) && In(r, i, j) && (Reached(r, a, b) ==> r[i][j] <= r[a][b] + v[i][j])
  }

  /** Some neighbour, above, below, left or right, supports the risk of (i, j). */
  predicate Supported(v: Grid, r: Grid, i: nat, j: nat)
  {
    && In(r, i, j)
    && (|| (i > 0 && Via(v, r, i, j, i - 1, j))
        || (i + 1 < |r| && Via(v, r, i, j, i + 1, j))
        || (j > 0 && Via(v, r, i, j, i, j - 1))
        || (j + 1 < |r[0]| && Via(v, r, i, j, i, j + 1)))
  }

  /** Every neighbour bounds the risk of (i, j). */
  predicate Optimal(v: Grid, r: Grid, i: nat, j: nat)
  {
    && In(v, i, j) && In(r, i, j)
    && (i > 0 ==> Bounded(v, r, i, j, i - 1, j))
    && (i + 1 < |r| ==> Bounded(v, r, i, j, i + 1, j))
    && (j > 0 ==> Bounded(v, r, i, j, i, j - 1))
    && (j + 1 < |r[0]| ==> Bounded(v, r, i, j, i, j + 1))
  }

  /** The start has risk 0, and every other cell is unvisited (0) or supported by a neighbour. */
  predicate Sound(v: Grid, r: Grid)
  {
    && In(r, 0, 0) && r[0][0] == 0
    && forall a: nat, b: nat {:trigger Supported(v, r, a, b)} :: a < |r| && b < |r[a]| && !Start(a, b) && r[a][b] != 0 ==> Supported(v, r, a, b)
  }

  /** The least of `m` and `x`, where a negative `m` stands for no value yet. */
  function Lower(m: int, x: nat): (r: int)
    ensures r >= 0 && r <= x && (m >= 0 ==> r <= m) && (r == x || r == m)
  {
    if m < 0 || x < m then x else m
  }

  /** The least risk among the neighbours of (i, j); -1 when it has none. */
  function LeastNeighbour(r: Grid, i: nat, j: nat): int
    requires |r| > 0 && Rect(r, |r|, |r[0]|) && i < |r| && j < |r[0]|
  {
    var m0: int := if i > 0 then r[i - 1][j] else -1;
    var m1 := if i + 1 < |r| then Lower(m0, r[i + 1][j]) else m0;
    var m2 := if j > 0 then Lower(m1, r[i][j - 1]) else m1;
    if j + 1 < |r[0]| then Lower(m2, r[i][j + 1]) else m2
  }

  /** A supported, optimal cell whose neighbours are all reached has its level plus the least neighbour risk. */
  lemma Balanced(v: Grid, r: Grid, i: nat, j: nat)
    requires Shaped(v, r) && i < |r| && j < |r[0]| && !Start(i, j)
    requires Supported(v, r, i, j) && Optimal(v, r, i, j)
    requires forall a: nat, b: nat :: a < |r| && b < |r[0]| ==> Reached(r, a, b)
    ensures r[i][j] == v[i][j] + LeastNeighbour(r, i, j)
  {
    assert i > 0 ==> Reached(r, i - 1, j);
    assert i + 1 < |r| ==> Reached(r, i + 1, j);
    assert j > 0 ==> Reached(r, i, j - 1);
    assert j + 1 < |r[0]| ==> Reached(r, i, j + 1);
  }

  lemma SupportedCoversLevel(v: Grid, r: Grid, i: nat, j: nat)
    requires Shaped(v, r) && i < |r| && j < |r[0]| && Supported(v, r, i, j)
    ensures r[i][j] >= v[i][j]
  {
  }

  /** A neighbour's support survives setting a different cell to a positive value no higher than before (or a first value). */
  lemma ViaKept(v: Grid, r: Grid, i: nat, j: nat, x: nat, a: nat, b: nat, p: nat, q: nat)
    requires Shaped(v, r) && i < |r| && j < |r[0]| && a < |r| && b < |r[0]| && p < |r| && q < |r[0]|
    requires (a != i || b != j) && (p != a || q != b)
    requires x > 0 && (r[i][j] == 0 || x <= r[i][j]) && !Start(i, j)
    requires Via(v, r, a, b, p, q)
    ensures Via(v, Update(r, i, j, x), a, b, p, q)
  {
  }

  /** Setting one non-start cell to a positive, supported value no higher than before (or a first value) keeps the grid sound. */
  lemma SoundKept(v: Grid, r: Grid, i: nat, j: nat, x: nat)
    requires Shaped(v, r) && Sound(v, r) && i < |r| && j < |r[0]| && !Start(i, j)
    requires x > 0 && (r[i][j] == 0 || x <= r[i][j])
    requires Supported(v, Update(r, i, j, x), i, j)
    ensures Sound(v, Update(r, i, j, x))
  {
    var r' := Update(r, i, j, x);
    forall a: nat, b: nat | a < |r'| && b < |r'[0]| && !Start(a, b) && r'[a][b] != 0
      ensures Supported(v, r', a, b)
    {
      if a != i || b != j {
        assert Supported(v, r, a, b);
        if a > 0 && Via(v, r, a, b, a - 1, b) {
          ViaKept(v, r, i, j, x, a, b, a - 1, b);
        } else if a + 1 < |r| && Via(v, r, a, b, a + 1, b) {
          ViaKept(v, r, i, j, x, a, b, a + 1, b);
        } else if b > 0 && Via(v, r, a, b, a, b - 1) {
          ViaKept(v, r, i, j, x, a, b, a, b - 1);
        } else {
          ViaKept(v, r, i, j, x, a, b, a, b + 1);
        }
      }
    }
  }

  /** The least of `start` and the risks of the neighbours a relaxation looks at: above and left always, below and right once reached. */
  method LowestNeighbour(risks: array2<nat>, ghost r: Grid, i: nat, j: nat, start: nat) returns (lowest: nat)
    requires i < risks.Length0 && j < risks.Length1 && r == Snap(risks)
    ensures lowest <= start
    ensures i > 0 ==> lowest <= r[i - 1][j]
    ensures i + 1 < |r| && r[i + 1][j] != 0 ==> lowest <= r[i + 1][j]
    ensures j > 0 ==> lowest <= r[i][j - 1]
    ensures j + 1 < |r[0]| && r[i][j + 1] != 0 ==> lowest <= r[i][j + 1]
    ensures || lowest == start
            || (i > 0 && lowest == r[i - 1][j])
            || (i + 1 < |r| && r[i + 1][j] != 0 && lowest == r[i + 1][j])
            || (j > 0 && lowest == r[i][j - 1])
            || (j + 1 < |r[0]| && r[i][j + 1] != 0 && lowest == r[i][j + 1])
  {
    lowest := start;
    if i > 0 && lowest > risks[i - 1, j] {
      lowest := risks[i - 1, j];
    }
    if i < risks.Length0 - 1 && risks[i + 1, j] != 0 && lowest > risks[i + 1, j] {
      lowest := risks[i + 1, j];
    }
    if j > 0 && lowest > risks[i, j - 1] {
      lowest := risks[i, j - 1];
    }
    if j < risks.Length1 - 1 && risks[i, j + 1] != 0 && lowest > risks[i, j + 1] {
      lowest := risks[i, j + 1];
    }
  }

  /** The level and risk arrays of one grid. */
  predicate Arrays(values: array2<nat>, risks: array2<nat>)
  {
    values != risks && values.Length0 == risks.Length0 && values.Length1 == risks.Length1
    && risks.Length0 > 0 && risks.Length1 > 0
  }

  /** The starting point of a relaxation: the left (or upper) neighbour on a first visit, else the risk less the level. */
  function Base(v: Grid, r: Grid, i: nat, j: nat): int
    requires Shaped(v, r) && i < |r| && j < |r[0]| && !Start(i, j)
  {
    if r[i][j] == 0 then (if j != 0 then r[i][j - 1] else r[i - 1][j])
    else r[i][j] as int - v[i][j] as int
  }

  /** A relaxed value no higher than every neighbour looked at, plus the level, is optimal. */
  lemma RelaxOptimal(v: Grid, r: Grid, i: nat, j: nat, lowest: nat)
    requires Shaped(v, r) && i < |r| && j < |r[0]| && !Start(i, j)
    requires i > 0 ==> lowest <= r[i - 1][j]
    requires i + 1 < |r| && r[i + 1][j] != 0 ==> lowest <= r[i + 1][j]
    requires j > 0 ==> lowest <= r[i][j - 1]
    requires j + 1 < |r[0]| && r[i][j + 1] != 0 ==> lowest <= r[i][j + 1]
    ensures Optimal(v, Update(r, i, j, lowest + v[i][j]), i, j)
  {
  }

  /** A relaxed value equal to its starting point or a neighbour looked at, plus the level, is supported. */
  lemma RelaxSupported(v: Grid, r: Grid, i: nat, j: nat, lowest: nat)
    requires Shaped(v, r) && Sound(v, r) && i < |r| && j < |r[0]| && !Start(i, j)
    requires i > 0 ==> Reached(r, i - 1, j)
    requires j > 0 ==> Reached(r, i, j - 1)
    requires lowest <= Base(v, r, i, j)
    requires || lowest == Base(v, r, i, j)
             || (i > 0 && lowest == r[i - 1][j])
             || (i + 1 < |r| && r[i + 1][j] != 0 && lowest == r[i + 1][j])
             || (j > 0 && lowest == r[i][j - 1])
             || (j + 1 < |r[0]| && r[i][j + 1] != 0 && lowest == r[i][j + 1])
    ensures Supported(v, Update(r, i, j, lowest + v[i][j]), i, j)
  {
    if lowest == Base(v, r, i, j) && r[i][j] != 0 {
      assert Supported(v, r, i, j);
    }
  }

  /** Stores `x` in cell (i, j). */
  method SetCell(risks: array2<nat>, i: nat, j: nat, x: nat)
    requires i < risks.Length0 && j < risks.Length1
    modifies risks
    ensures Snap(risks) == Update(old(Snap(risks)), i, j, x)
  {
    ghost var r := Snap(risks);
    risks[i, j] := x;
    GridsEqual(Snap(risks), Update(r, i, j, x), risks.Length0, risks.Length1);
  }

  /** Relaxing to the least of the starting point and the neighbours looked at, plus the level, keeps the grid sound and makes the cell optimal. */
  lemma RelaxFacts(v: Grid, r: Grid, i: nat, j: nat, lowest: nat, x: nat)
    requires Shaped(v, r) && Positive(v) && Sound(v, r) && i < |r| && j < |r[0]| && !Start(i, j)
    requires i > 0 ==> Reached(r, i - 1, j)
    requires j > 0 ==> Reached(r, i, j - 1)
    requires lowest <= Base(v, r, i, j)
    requires i > 0 ==> lowest <= r[i - 1][j]
    requires i + 1 < |r| && r[i + 1][j] != 0 ==> lowest <= r[i + 1][j]
    requires j > 0 ==> lowest <= r[i][j - 1]
    requires j + 1 < |r[0]| && r[i][j + 1] != 0 ==> lowest <= r[i][j + 1]
    requires || lowest == Base(v, r, i, j)
             || (i > 0 && lowest == r[i - 1][j])
             || (i + 1 < |r| && r[i + 1][j] != 0 && lowest == r[i + 1][j])
             || (j > 0 && lowest == r[i][j - 1])
             || (j + 1 < |r[0]| && r[i][j + 1] != 0 && lowest == r[i][j + 1])
    requires x == lowest + v[i][j]
    ensures x > 0 && (r[i][j] == 0 || x <= r[i][j])
    ensures Sound(v, Update(r, i, j, x)) && Optimal(v, Update(r, i, j, x), i, j)
  {
    RelaxOptimal(v, r, i, j, lowest);
    RelaxSupported(v, r, i, j, lowest);
    if r[i][j] != 0 {
      SupportedCoversLevel(v, r, i, j);
    }
    SoundKept(v, r, i, j, lowest + v[i][j]);
  }

  /**
   * The relaxed risk of the non-start cell (i, j): a first visit takes
   * the risk of the left neighbour (the upper one in column 0) plus the
   * cell's level; then the lowest risk among the neighbours above and to
   * the left, and those below and to the right that are already reached,
   * plus the cell's level replaces the cell's risk when lower.
   */
  method RelaxedRisk(values: array2<nat>, risks: array2<nat>, ghost v: Grid, ghost r: Grid, i: nat, j: nat)
    returns (current: nat, changed: bool)
    requires Arrays(values, risks) && v == Snap(values) && r == Snap(risks)
    requires Shaped(v, r) && Positive(v) && Sound(v, r)
    requires i < |r| && j < |r[0]| && !Start(i, j)
    requires i > 0 ==> Reached(r, i - 1, j)
    requires j > 0 ==> Reached(r, i, j - 1)
    ensures current > 0 && current <= Base(v, r, i, j) + v[i][j]
    ensures Sound(v, Update(r, i, j, current)) && Optimal(v, Update(r, i, j, current), i, j)
    ensures changed <==> r[i][j] == 0 || current < r[i][j]
    ensures r[i][j] == 0 || current <= r[i][j]
  {
    var value := values[i, j];
    var first := risks[i, j] == 0;
    var base: nat;
    if first {
      if j != 0 {
        base := risks[i, j - 1];
      } else {
        base := risks[i - 1, j];
      }
    } else {
      SupportedCoversLevel(v, r, i, j);
      base := risks[i, j] - value;
    }
    assert base == Base(v, r, i, j);
    var lowest := LowestNeighbour(risks, r, i, j, base);
    changed := false;
    current := risks[i, j];
    if first {
      current := base + value;
      changed := true;
    }
    if lowest + value < current {
      current := lowest + value;
      changed := true;
    }
    RelaxFacts(v, r, i, j, lowest, current);
  }

  /** Relaxes cell (i, j): the start is set to 0, any other cell to its relaxed risk. */
  method Relax(values: array2<nat>, risks: array2<nat>, i: nat, j: nat) returns (changed: bool)
    requires Arrays(values, risks) && Positive(Snap(values)) && Sound(Snap(values), Snap(risks))
    requires i < risks.Length0 && j < risks.Length1
    requires i > 0 ==> Reached(Snap(risks), i - 1, j)
    requires j > 0 ==> Reached(Snap(risks), i, j - 1)
    modifies risks
    ensures Snap(risks) == Update(old(Snap(risks)), i, j, risks[i, j])
    ensures Sound(Snap(values), Snap(risks))
    ensures Start(i, j) ==> risks[i, j] == 0 && !changed
    ensures !Start(i, j) ==> risks[i, j] > 0 && Optimal(Snap(values), Snap(risks), i, j)
    ensures changed <==> !Start(i, j) && (old(risks[i, j]) == 0 || risks[i, j] < old(risks[i, j]))
    ensures old(risks[i, j]) == 0 || risks[i, j] <= old(risks[i, j])
  {
    ghost var v, r := Snap(values), Snap(risks);
    if i == 0 && j == 0 {
      SetCell(risks, i, j, 0);
      GridsEqual(Update(r, i, j, 0), r, |r|, |r[0]|);
      return false;
    }
    var current;
    current, changed := RelaxedRisk(values, risks, v, r, i, j);
    SetCell(risks, i, j, current);
  }

  // -------------------------------------------------------------- sweeps

  /** Every cell of the first `n` rows is reached. */
  predicate RowsReached(r: Grid, n: nat)
  {
    forall a: nat, b: nat :: a < n && a < |r| && b < |r[a]| ==> Reached(r, a, b)
  }

  /** From `s` to `r` a risk only falls, except that an unvisited cell may get its first value; reached cells stay reached. */
  predicate Lowered(s: Grid, r: Grid)
  {
    && |s| == |r| && (forall a :: 0 <= a < |s| ==> |s[a]| == |r[a]|)
    && forall a: nat, b: nat :: a < |s| && b < |s[a]| ==>
         (s[a][b] == 0 || r[a][b] <= s[a][b]) && (s[a][b] > 0 ==> r[a][b] > 0)
  }

  /** Some non-start cell got its first value or a lower one. */
  ghost predicate Improved(s: Grid, r: Grid)
  {
    exists a: nat, b: nat :: In(s, a, b) && In(r, a, b) && !Start(a, b) && (s[a][b] == 0 || r[a][b] < s[a][b])
  }

  /** Every non-start cell of the first `n` rows is optimal. */
  ghost predicate Settled(v: Grid, r: Grid, n: nat)
  {
    forall a: nat, b: nat :: a < n && In(r, a, b) && !Start(a, b) ==> Optimal(v, r, a, b)
  }

  lemma LoweredByUpdate(r: Grid, i: nat, j: nat, x: nat)
    requires In(r, i, j) && (r[i][j] == 0 || x <= r[i][j]) && (r[i][j] > 0 ==> x > 0)
    ensures Lowered(r, Update(r, i, j, x))
  {
  }

  lemma LoweredTrans(s: Grid, r: Grid, t: Grid)
    requires Lowered(s, r) && Lowered(r, t)
    ensures Lowered(s, t)
  {
    forall a: nat, b: nat | a < |s| && b < |s[a]|
      ensures (s[a][b] == 0 || t[a][b] <= s[a][b]) && (s[a][b] > 0 ==> t[a][b] > 0)
    {
    }
  }

  lemma ImprovedKept(s: Grid, r: Grid, t: Grid)
    requires Lowered(s, r) && Lowered(r, t) && Improved(s, r)
    ensures Improved(s, t)
  {
    var a: nat, b: nat :| In(s, a, b) && In(r, a, b) && !Start(a, b) && (s[a][b] == 0 || r[a][b] < s[a][b]);
    assert In(t, a, b);
  }

  lemma ReachedKept(r: Grid, t: Grid, n: nat)
    requires Lowered(r, t) && RowsReached(r, n)
    ensures RowsReached(t, n)
  {
    forall a: nat, b: nat | a < n && a < |t| && b < |t[a]|
      ensures Reached(t, a, b)
    {
      assert Reached(r, a, b);
    }
  }

  lemma UpdateSame(r: Grid, i: nat, j: nat)
    requires In(r, i, j)
    ensures Update(r, i, j, r[i][j]) == r
  {
    assert r[i][j := r[i][j]] == r[i];
  }

  lemma SettledKept(v: Grid, r: Grid, n: nat)
    requires Settled(v, r, n)
    ensures forall a: nat, b: nat :: a < n && In(r, a, b) && !Start(a, b) ==> Optimal(v, r, a, b)
  {
  }

  /** Relaxes row i from left to right. */
  method RelaxRow(values: array2<nat>, risks: array2<nat>, i: nat) returns (changed: bool)
    requires Arrays(values, risks) && Positive(Snap(values)) && Sound(Snap(values), Snap(risks))
    requires i < risks.Length0 && RowsReached(Snap(risks), i)
    modifies risks
    ensures Sound(Snap(values), Snap(risks)) && RowsReached(Snap(risks), i + 1)
    ensures Lowered(old(Snap(risks)), Snap(risks))
    ensures changed ==> Improved(old(Snap(risks)), Snap(risks))
    ensures !changed ==> Snap(risks) == old(Snap(risks))
    ensures !changed ==> forall b: nat :: b < risks.Length1 && !Start(i, b) ==> Optimal(Snap(values), Snap(risks), i, b)
  {
    ghost var v, s := Snap(values), Snap(risks);
    changed := false;
    var j := 0;
    while j < risks.Length1
      invariant 0 <= j <= risks.Length1
      invariant Snap(values) == v && Sound(v, Snap(risks)) && RowsReached(Snap(risks), i)
      invariant forall b: nat :: b < j ==> Reached(Snap(risks), i, b)
      invariant Lowered(s, Snap(risks))
      invariant changed ==> Improved(s, Snap(risks))
      invariant !changed ==> Snap(risks) == s
      invariant !changed ==> forall b: nat :: b < j && !Start(i, b) ==> Optimal(v, Snap(risks), i, b)
    {
      ghost var r := Snap(risks);
      assert i > 0 ==> Reached(r, i - 1, j);
      assert j > 0 ==> Reached(r, i, j - 1);
      var cellChanged := Relax(values, risks, i, j);
      RowStep(v, s, r, Snap(risks), i, j, risks[i, j], changed, cellChanged);
      changed := changed || cellChanged;
      j := j + 1;
    }
  }

  /** The invariants of `RelaxRow` carried over the relaxation of cell (i, j) to `x`. */
  lemma RowStep(v: Grid, s: Grid, r: Grid, t: Grid, i: nat, j: nat, x: nat, changed: bool, cellChanged: bool)
    requires In(r, i, j) && In(r, 0, 0) && r[0][0] == 0 && t == Update(r, i, j, x)
    requires RowsReached(r, i) && forall b: nat :: b < j ==> Reached(r, i, b)
    requires Lowered(s, r)
    requires changed ==> Improved(s, r)
    requires !changed ==> r == s
    requires !changed ==> forall b: nat :: b < j && !Start(i, b) ==> Optimal(v, r, i, b)
    requires Start(i, j) ==> x == 0 && !cellChanged
    requires !Start(i, j) ==> x > 0 && Optimal(v, t, i, j)
    requires cellChanged <==> !Start(i, j) && (r[i][j] == 0 || x < r[i][j])
    requires r[i][j] == 0 || x <= r[i][j]
    ensures RowsReached(t, i) && forall b: nat :: b < j + 1 ==> Reached(t, i, b)
    ensures Lowered(s, t)
    ensures changed || cellChanged ==> Improved(s, t)
    ensures !(changed || cellChanged) ==> t == s
    ensures !(changed || cellChanged) ==> forall b: nat :: b < j + 1 && !Start(i, b) ==> Optimal(v, t, i, b)
  {
    LoweredByUpdate(r, i, j, x);
    LoweredTrans(s, r, t);
    ReachedKept(r, t, i);
    forall b: nat | b < j + 1
      ensures Reached(t, i, b)
    {
      if b < j {
        assert Reached(r, i, b);
      }
    }
    if changed {
      ImprovedKept(s, r, t);
    } else if !cellChanged {
      UpdateSame(r, i, j);
    } else {
      assert In(s, i, j) && In(t, i, j);
    }
  }

  /** One row-major sweep over the whole grid; `changed` says whether any cell got a first or lower risk. */
  method Sweep(values: array2<nat>, risks: array2<nat>) returns (changed: bool)
    requires Arrays(values, risks) && Positive(Snap(values)) && Sound(Snap(values), Snap(risks))
    modifies risks
    ensures Sound(Snap(values), Snap(risks)) && RowsReached(Snap(risks), risks.Length0)
    ensures Lowered(old(Snap(risks)), Snap(risks))
    ensures changed ==> Improved(old(Snap(risks)), Snap(risks))
    ensures !changed ==> Snap(risks) == old(Snap(risks)) && Settled(Snap(values), Snap(risks), risks.Length0)
  {
    ghost var v, s := Snap(values), Snap(risks);
    changed := false;
    var i := 0;
    while i < risks.Length0
      invariant 0 <= i <= risks.Length0
      invariant Snap(values) == v && Sound(v, Snap(risks)) && RowsReached(Snap(risks), i)
      invariant Lowered(s, Snap(risks))
      invariant changed ==> Improved(s, Snap(risks))
      invariant !changed ==> Snap(risks) == s && Settled(v, Snap(risks), i)
    {
      ghost var r := Snap(risks);
      var rowChanged := RelaxRow(values, risks, i);
      SweepStep(v, s, r, Snap(risks), i, changed, rowChanged);
      changed := changed || rowChanged;
      i := i + 1;
    }
  }

  /** The invariants of `Sweep` carried over the relaxation of row i. */
  lemma SweepStep(v: Grid, s: Grid, r: Grid, t: Grid, i: nat, changed: bool, rowChanged: bool)
    requires Lowered(s, r) && Lowered(r, t) && i < |r|
    requires changed ==> Improved(s, r)
    requires !changed ==> r == s && Settled(v, r, i)
    requires rowChanged ==> Improved(r, t)
    requires !rowChanged ==> t == r && forall b: nat :: b < |t[i]| && !Start(i, b) ==> Optimal(v, t, i, b)
    ensures Lowered(s, t)
    ensures changed || rowChanged ==> Improved(s, t)
    ensures !(changed || rowChanged) ==> t == s && Settled(v, t, i + 1)
  {
    LoweredTrans(s, r, t);
    if changed {
      ImprovedKept(s, r, t);
    } else if rowChanged {
      assert r == s;
    } else {
      forall a: nat, b: nat | a < i + 1 && In(t, a, b) && !Start(a, b)
        ensures Optimal(v, t, a, b)
      {
        if a < i {
          SettledKept(v, r, i);
        }
      }
    }
  }

  /** The sum of a row's risks. */
  function RowTotal(row: seq<nat>): nat
  {
    if row == [] then 0 else RowTotal(row[..|row| - 1]) + row[|row| - 1]
  }

  /** The sum of all risks. */
  function Total(g: Grid): nat
  {
    if g == [] then 0 else Total(g[..|g| - 1]) + RowTotal(g[|g| - 1])
  }

  /** A row no higher anywhere, and lower somewhere, has a lower sum. */
  lemma {:induction false} RowTotalDrops(x: seq<nat>, y: seq<nat>)
    requires |x| == |y| && forall k :: 0 <= k < |x| ==> y[k] <= x[k]
    ensures RowTotal(y) <= RowTotal(x)
    ensures (exists k :: 0 <= k < |x| && y[k] < x[k]) ==> RowTotal(y) < RowTotal(x)
  {
    if x != [] {
      var n := |x| - 1;
      RowTotalDrops(x[..n], y[..n]);
      if exists k :: 0 <= k < |x| && y[k] < x[k] {
        var k :| 0 <= k < |x| && y[k] < x[k];
        if k < n {
          assert x[..n][k] == x[k] && y[..n][k] == y[k];
        }
      }
    }
  }

  /** A grid no higher anywhere, and lower somewhere, has a lower sum. */
  lemma {:induction false} TotalDrops(s: Grid, r: Grid)
    requires |s| == |r| && forall a :: 0 <= a < |s| ==> |s[a]| == |r[a]|
    requires forall a, b :: 0 <= a < |s| && 0 <= b < |s[a]| ==> r[a][b] <= s[a][b]
    ensures Total(r) <= Total(s)
    ensures (exists a, b :: 0 <= a < |s| && 0 <= b < |s[a]| && r[a][b] < s[a][b]) ==> Total(r) < Total(s)
  {
    if s != [] {
      var n := |s| - 1;
      TotalDrops(s[..n], r[..n]);
      RowTotalDrops(s[n], r[n]);
      if exists a, b :: 0 <= a < |s| && 0 <= b < |s[a]| && r[a][b] < s[a][b] {
        var a, b :| 0 <= a < |s| && 0 <= b < |s[a]| && r[a][b] < s[a][b];
        if a < n {
          assert s[..n][a] == s[a] && r[..n][a] == r[a];
        }
      }
    }
  }

  /** After a sweep that improved a fully reached grid, the sum of risks is lower. */
  lemma SweepLowersTotal(v: Grid, s: Grid, r: Grid)
    requires Shaped(v, s) && Sound(v, s) && Shaped(v, r) && Sound(v, r)
    requires RowsReached(s, |s|) && Lowered(s, r) && Improved(s, r)
    ensures Total(r) < Total(s)
  {
    forall a, b | 0 <= a < |s| && 0 <= b < |s[a]|
      ensures r[a][b] <= s[a][b]
    {
      assert Reached(s, a, b);
    }
    var a: nat, b: nat :| In(s, a, b) && In(r, a, b) && !Start(a, b) && (s[a][b] == 0 || r[a][b] < s[a][b]);
    assert Reached(s, a, b);
    TotalDrops(s, r);
  }

  /** The measure of the repeated sweeps: first whether some cell is still unvisited, then the sum of risks. */
  function Unreached(r: Grid): nat
  {
    if RowsReached(r, |r|) then 0 else 1
  }

  /**
   * Lowest total risks: sweeps the grid and sweeps again for as long as a
   * sweep changes something. At the end the start has risk 0 and every
   * other cell's risk is its level plus the least risk among its neighbours.
   */
  method FindLowestRisks(values: array2<nat>, risks: array2<nat>)
    requires Arrays(values, risks) && Positive(Snap(values)) && Sound(Snap(values), Snap(risks))
    modifies risks
    ensures Sound(Snap(values), Snap(risks)) && RowsReached(Snap(risks), risks.Length0)
    ensures Lowered(old(Snap(risks)), Snap(risks))
    ensures risks[0, 0] == 0
    ensures forall a, b :: 0 <= a < risks.Length0 && 0 <= b < risks.Length1 && !Start(a, b) ==>
      risks[a, b] == values[a, b] + LeastNeighbour(Snap(risks), a, b)
    decreases Unreached(Snap(risks)), Total(Snap(risks))
  {
    ghost var v, s := Snap(values), Snap(risks);
    var changed := Sweep(values, risks);
    if changed {
      ghost var r := Snap(risks);
      if Unreached(s) == 0 {
        SweepLowersTotal(v, s, r);
      }
      FindLowestRisks(values, risks);
      LoweredTrans(s, r, Snap(risks));
    } else {
      ghost var r := Snap(risks);
      forall a, b | 0 <= a < risks.Length0 && 0 <= b < risks.Length1 && !Start(a, b)
        ensures risks[a, b] == values[a, b] + LeastNeighbour(r, a, b)
      {
        assert Optimal(v, r, a, b);
        assert Reached(r, a, b);
        assert Supported(v, r, a, b);
        Balanced(v, r, a, b);
      }
    }
  }

  /** The risk equations: 0 at the start, and elsewhere the level plus the least neighbour risk. */
  ghost predicate RiskEquations(v: Grid, r: Grid)
  {
    && Shaped(v, r) && r[0][0] == 0
    && forall a: nat, b: nat :: In(r, a, b) && In(v, a, b) && !Start(a, b) ==> r[a][b] == v[a][b] + LeastNeighbour(r, a, b)
  }

  // --------------------------------------------------------------- paths

  /** A cell as (row, column). */
  type Cell = (nat, nat)

  /** Two cells one step apart: up, down, left or right. */
  predicate Adjacent(c: Cell, d: Cell)
  {
    || (c.0 == d.0 && (c.1 + 1 == d.1 || d.1 + 1 == c.1))
    || (c.1 == d.1 && (c.0 + 1 == d.0 || d.0 + 1 == c.0))
  }

  /** Step k of `p` moves to an adjacent cell. */
  predicate Moves(p: seq<Cell>, k: nat)
    requires k + 1 < |p|
  {
    Adjacent(p[k], p[k + 1])
  }

  /** A path through `g` from the top-left cell, one step at a time. */
  predicate Path(g: Grid, p: seq<Cell>)
  {
    && |p| > 0 && p[0] == (0, 0)
    && (forall k :: 0 <= k < |p| ==> In(g, p[k].0, p[k].1))
    && (forall k :: 0 <= k < |p| - 1 ==> Moves(p, k))
  }

  /** The total risk of a path: the level of every cell it enters, the start not counted. */
  function Cost(v: Grid, p: seq<Cell>): nat
    requires forall k :: 0 <= k < |p| ==> In(v, p[k].0, p[k].1)
  {
    if |p| <= 1 then 0
    else
      var c := p[|p| - 1];
      assert In(v, c.0, c.1);
      Cost(v, p[..|p| - 1]) + v[c.0][c.1]
  }

  /** `risk` is the lowest total risk of a path to (a, b): no path costs less, and some path costs exactly that. */
  ghost predicate LowestRisk(v: Grid, a: nat, b: nat, risk: nat)
  {
    && (forall p :: Path(v, p) && p[|p| - 1] == (a, b) ==> risk <= Cost(v, p))
    && (exists p :: Path(v, p) && p[|p| - 1] == (a, b) && Cost(v, p) == risk)
  }

  /** The least neighbour risk is at most the risk of each neighbour. */
  lemma LeastBelowNeighbours(r: Grid, i: nat, j: nat, a: nat, b: nat)
    requires |r| > 0 && Rect(r, |r|, |r[0]|) && i < |r| && j < |r[0]| && a < |r| && b < |r[0]|
    requires Adjacent((a, b), (i, j))
    ensures 0 <= LeastNeighbour(r, i, j) <= r[a][b]
  {
  }

  /** Away from the start the least neighbour risk is the risk of some neighbour. */
  lemma NearestNeighbour(r: Grid, i: nat, j: nat) returns (a: nat, b: nat)
    requires |r| > 0 && Rect(r, |r|, |r[0]|) && i < |r| && j < |r[0]| && !Start(i, j)
    ensures a < |r| && b < |r[0]| && Adjacent((a, b), (i, j)) && LeastNeighbour(r, i, j) == r[a][b]
  {
    var m0: int := if i > 0 then r[i - 1][j] else -1;
    var m1 := if i + 1 < |r| then Lower(m0, r[i + 1][j]) else m0;
    var m2 := if j > 0 then Lower(m1, r[i][j - 1]) else m1;
    var m3 := if j + 1 < |r[0]| then Lower(m2, r[i][j + 1]) else m2;
    assert i > 0 || j > 0;
    if j + 1 < |r[0]| && m3 == r[i][j + 1] {
      a, b := i, j + 1;
    } else if j > 0 && m2 == r[i][j - 1] && m3 == m2 {
      a, b := i, j - 1;
    } else if i + 1 < |r| && m1 == r[i + 1][j] && m3 == m1 {
      a, b := i + 1, j;
    } else {
      a, b := i - 1, j;
    }
  }

  /** A path less its last step is a path. */
  lemma PathPrefix(g: Grid, p: seq<Cell>)
    requires Path(g, p) && |p| > 1
    ensures Path(g, p[..|p| - 1])
  {
    var q := p[..|p| - 1];
    forall k | 0 <= k < |q| - 1
      ensures Moves(q, k)
    {
      assert Moves(p, k);
    }
  }

  /** A path extended by one step is a path. */
  lemma PathExtended(g: Grid, q: seq<Cell>, c: Cell)
    requires Path(g, q) && In(g, c.0, c.1) && Adjacent(q[|q| - 1], c)
    ensures Path(g, q + [c])
  {
    var p := q + [c];
    forall k | 0 <= k < |p| - 1
      ensures Moves(p, k)
    {
      if k < |q| - 1 {
        assert Moves(q, k);
      }
    }
  }

  /** A cell of the levels is a cell of the risks. */
  lemma SameCells(v: Grid, r: Grid, c: Cell)
    requires Shaped(v, r) && In(v, c.0, c.1)
    ensures In(r, c.0, c.1)
  {
    assert |v[c.0]| == |r[0]| == |r[c.0]|;
  }

  /** Under the risk equations a cell's risk is at most a neighbour's plus its own level. */
  lemma RiskStep(v: Grid, r: Grid, c: Cell, d: Cell)
    requires RiskEquations(v, r) && In(v, c.0, c.1) && In(v, d.0, d.1) && Adjacent(d, c)
    ensures r[c.0][c.1] <= r[d.0][d.1] + v[c.0][c.1]
  {
    if !Start(c.0, c.1) {
      LeastBelowNeighbours(r, c.0, c.1, d.0, d.1);
    }
  }

  /** Under the risk equations no path to a cell costs less than the cell's risk. */
  lemma {:induction false} NoCheaperPath(v: Grid, r: Grid, p: seq<Cell>)
    requires RiskEquations(v, r) && Path(v, p)
    ensures r[p[|p| - 1].0][p[|p| - 1].1] <= Cost(v, p)
  {
    var c := p[|p| - 1];
    assert In(v, c.0, c.1);
    SameCells(v, r, c);
    if |p| > 1 {
      var q, d := p[..|p| - 1], p[|p| - 2];
      assert In(v, d.0, d.1);
      SameCells(v, r, d);
      assert r[d.0][d.1] <= Cost(v, q) by {
        PathPrefix(v, p);
        NoCheaperPath(v, r, q);
        assert q[|q| - 1] == d;
      }
      assert r[c.0][c.1] <= r[d.0][d.1] + v[c.0][c.1] by {
        assert Moves(p, |p| - 2);
        RiskStep(v, r, c, d);
      }
      assert Cost(v, p) == Cost(v, q) + v[c.0][c.1];
    }
  }

  /** Under the risk equations, with every level positive, some path to a cell costs exactly the cell's risk. */
  lemma {:induction false} CheapestPath(v: Grid, r: Grid, a: nat, b: nat)
    requires RiskEquations(v, r) && Positive(v) && In(r, a, b)
    ensures exists p :: Path(v, p) && p[|p| - 1] == (a, b) && Cost(v, p) == r[a][b]
    decreases r[a][b]
  {
    if Start(a, b) {
      var p := [(0, 0)];
      assert Path(v, p) && Cost(v, p) == 0;
    } else {
      var c, d := NearestNeighbour(r, a, b);
      assert In(v, a, b) && In(r, c, d) && r[a][b] == v[a][b] + r[c][d] by {
        assert |v[a]| == |r[0]| == |r[c]|;
      }
      CheapestPath(v, r, c, d);
      var q :| Path(v, q) && q[|q| - 1] == (c, d) && Cost(v, q) == r[c][d];
      var p := q + [(a, b)];
      assert Path(v, p) by {
        PathExtended(v, q, (a, b));
      }
      assert Cost(v, p) == r[a][b] by {
        assert p[..|p| - 1] == q;
      }
      assert p[|p| - 1] == (a, b);
    }
  }

  /** The risk equations give every cell its lowest total risk. */
  lemma RisksAreLowest(v: Grid, r: Grid, a: nat, b: nat)
    requires RiskEquations(v, r) && Positive(v) && In(r, a, b)
    ensures LowestRisk(v, a, b, r[a][b])
  {
    forall p | Path(v, p) && p[|p| - 1] == (a, b)
      ensures r[a][b] <= Cost(v, p)
    {
      NoCheaperPath(v, r, p);
    }
    CheapestPath(v, r, a, b);
  }

  /** A risk grid of zeros, the start unvisited like every other cell, is sound. */
  lemma ZerosSound(v: Grid, r: Grid)
    requires |r| > 0 && |r[0]| > 0 && forall a, b :: 0 <= a < |r| && 0 <= b < |r[a]| ==> r[a][b] == 0
    ensures Sound(v, r)
  {
  }

  lemma LevelsPositive(g: array2<nat>)
    requires Levels(g)
    ensures Positive(Snap(g))
  {
  }

  /**
   * The lowest total risks of a grid, from a fresh all-zero risk grid,
   * and the one of the bottom-right cell.
   */
  method LowestTotalRisk(values: array2<nat>) returns (risks: array2<nat>, risk: nat)
    requires values.Length0 > 0 && values.Length1 > 0 && Positive(Snap(values))
    ensures fresh(risks) && risks.Length0 == values.Length0 && risks.Length1 == values.Length1
    ensures RiskEquations(Snap(values), Snap(risks))
    ensures risk == risks[risks.Length0 - 1, risks.Length1 - 1]
    ensures LowestRisk(Snap(values), values.Length0 - 1, values.Length1 - 1, risk)
  {
    risks := ZeroRisks(values);
    FindLowestRisks(values, risks);
    Equations(values, risks);
    risk := risks[risks.Length0 - 1, risks.Length1 - 1];
    CornerIsLowest(values, risks);
  }

  /** The bottom-right risk of a solution of the risk equations is the lowest total risk of a path there. */
  lemma CornerIsLowest(values: array2<nat>, risks: array2<nat>)
    requires Arrays(values, risks) && RiskEquations(Snap(values), Snap(risks)) && Positive(Snap(values))
    ensures LowestRisk(Snap(values), values.Length0 - 1, values.Length1 - 1, risks[risks.Length0 - 1, risks.Length1 - 1])
  {
    RisksAreLowest(Snap(values), Snap(risks), values.Length0 - 1, values.Length1 - 1);
  }

  /** A fresh risk grid of zeros, the shape of `values`. */
  method ZeroRisks(values: array2<nat>) returns (risks: array2<nat>)
    requires values.Length0 > 0 && values.Length1 > 0
    ensures fresh(risks) && Arrays(values, risks) && Sound(Snap(values), Snap(risks))
  {
    risks := new nat[values.Length0, values.Length1]((_, _) => 0);
    ZerosSound(Snap(values), Snap(risks));
  }

  /** The ending state of `FindLowestRisks`, read as grids, satisfies the risk equations. */
  lemma Equations(values: array2<nat>, risks: array2<nat>)
    requires Arrays(values, risks) && risks[0, 0] == 0
    requires forall a, b :: 0 <= a < risks.Length0 && 0 <= b < risks.Length1 && !Start(a, b) ==>
      risks[a, b] == values[a, b] + LeastNeighbour(Snap(risks), a, b)
    ensures RiskEquations(Snap(values), Snap(risks))
  {
    var v, r := Snap(values), Snap(risks);
    forall a: nat, b: nat | In(r, a, b) && In(v, a, b) && !Start(a, b)
      ensures r[a][b] == v[a][b] + LeastNeighbour(r, a, b)
    {
      assert risks[a, b] == values[a, b] + LeastNeighbour(r, a, b);
    }
  }

  /** Part 2: the lowest total risk to the bottom-right corner of the 5x5 tiling. */
  method FullLowestTotalRisk(values: array2<nat>) returns (full: array2<nat>, risks: array2<nat>, risk: nat)
    requires values.Length0 > 0 && values.Length1 > 0 && Levels(values)
    ensures full.Length0 == 5 * values.Length0 && full.Length1 == 5 * values.Length1
    ensures forall i, j :: 0 <= i < full.Length0 && 0 <= j < full.Length1 ==> full[i, j] == TileAt(values, i, j)
    ensures risks.Length0 == full.Length0 && risks.Length1 == full.Length1
    ensures RiskEquations(Snap(full), Snap(risks))
    ensures risk == risks[risks.Length0 - 1, risks.Length1 - 1]
    ensures LowestRisk(Snap(full), full.Length0 - 1, full.Length1 - 1, risk)
  {
    full := MakeFullGrid(values);
    LevelsPositive(full);
    risks, risk := LowestTotalRisk(full);
  }
}
