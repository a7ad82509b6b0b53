/**
 * Transparent origami (src/day_13.c): dots marked on a grid of `length` rows
 * and `width` columns, folded along a column (`x`) or a row (`y`). Each fold
 * builds a fresh grid in which every dot lands on its mirror image.
 */
module Origami {
  import opened Wrappers
  import opened Sets

  datatype Axis = X | Y

  /** A fold along the line `axis = coordinate`. */
  datatype Fold = Fold(axis: Axis, coordinate: nat)

  /** The assertion of the C code that no dot lies on the fold line. */
  datatype FoldError = DotOnFoldLine(row: nat, col: nat)

  /** A dot as read from the input: column `x` and row `y`. */
  datatype Dot = Dot(x: nat, y: nat)

  /** The positions `(row, column)` marked in a grid. */
  ghost function Marks(g: array2<bool>): set<(nat, nat)>
    reads g
  {
    set i: nat, j: nat | i < g.Length0 && j < g.Length1 && g[i, j] :: (i, j)
  }

  /**
   * The number of rows (or columns) left after folding `n` of them at `c`:
   * the larger of the two sides of the fold line.
   */
  function FoldedSize(n: nat, c: nat): (m: nat)
    ensures m >= c && m >= n - 1 - c
    ensures m == c || m == n - 1 - c
  {
    if c >= n - 1 - c then c else n - 1 - c
  }

  /** Where index `k` of a dimension folded at `c` goes in the folded size `m`. */
  function Reflect(m: nat, c: nat, k: nat): int
  {
    m - (if c >= k then c - k else k - c)
  }

  /** The new index always lies inside the folded dimension. */
  lemma ReflectInside(n: nat, c: nat, k: nat)
    requires k < n && k != c
    ensures 0 <= Reflect(FoldedSize(n, c), c, k) < FoldedSize(n, c)
  {
  }

  /** An index and its mirror image across the fold line land on the same place. */
  lemma ReflectMirrors(m: nat, c: nat, k: nat)
    requires k < c
    ensures Reflect(m, c, k) == Reflect(m, c, 2 * c - k)
  {
  }

  /** On either side of the line, different indices stay apart. */
  lemma ReflectSideInjective(m: nat, c: nat, k: nat, l: nat)
    requires (k < c && l < c) || (k > c && l > c)
    ensures Reflect(m, c, k) == Reflect(m, c, l) <==> k == l
  {
  }

  /** The dimensions of the grid after a fold. */
  function FoldedDims(length: nat, width: nat, f: Fold): (d: (nat, nat))
    ensures f.axis == X ==> d.0 == length && d.1 <= width + f.coordinate
    ensures f.axis == Y ==> d.1 == width && d.0 <= length + f.coordinate
  {
    match f.axis
    case X => (length, FoldedSize(width, f.coordinate))
    case Y => (FoldedSize(length, f.coordinate), width)
  }

  /** Whether a position lies on the fold line. */
  predicate OnLine(f: Fold, p: (nat, nat))
  {
    match f.axis
    case X => p.1 == f.coordinate
    case Y => p.0 == f.coordinate
  }

  /**
   * Where a marked position off the fold line goes: the row, or the column,
   * becomes its reflection. It always lies inside the folded grid.
   */
  function FoldPos(length: nat, width: nat, f: Fold, p: (nat, nat)): (q: (nat, nat))
    requires p.0 < length && p.1 < width && !OnLine(f, p)
    ensures var d := FoldedDims(length, width, f); q.0 < d.0 && q.1 < d.1
    ensures f.axis == X ==> q == (p.0, Reflect(FoldedSize(width, f.coordinate), f.coordinate, p.1))
    ensures f.axis == Y ==> q == (Reflect(FoldedSize(length, f.coordinate), f.coordinate, p.0), p.1)
  {
    match f.axis
    case X =>
      ReflectInside(width, f.coordinate, p.1);
      (p.0, Reflect(FoldedSize(width, f.coordinate), f.coordinate, p.1) as nat)
    case Y =>
      ReflectInside(length, f.coordinate, p.0);
      (Reflect(FoldedSize(length, f.coordinate), f.coordinate, p.0) as nat, p.1)
  }

  /** The marks of the folded grid: the images of the marks of the grid. */
  ghost function FoldedMarks(length: nat, width: nat, f: Fold, marks: set<(nat, nat)>): (r: set<(nat, nat)>)
    requires forall p :: p in marks ==> p.0 < length && p.1 < width && !OnLine(f, p)
    ensures var d := FoldedDims(length, width, f); forall q :: q in r ==> q.0 < d.0 && q.1 < d.1
  {
    set p | p in marks :: FoldPos(length, width, f, p)
  }

  /** A fold never adds marks. */
  lemma FoldedMarksFewer(length: nat, width: nat, f: Fold, marks: set<(nat, nat)>)
    requires forall p :: p in marks ==> p.0 < length && p.1 < width && !OnLine(f, p)
    ensures |FoldedMarks(length, width, f, marks)| <= |marks|
    decreases |marks|
  {
    if marks != {} {
      var p :| p in marks;
      FoldedMarksFewer(length, width, f, marks - {p});
      var q := FoldPos(length, width, f, p);
      assert FoldedMarks(length, width, f, marks) <= FoldedMarks(length, width, f, marks - {p}) + {q};
      SubsetCard(FoldedMarks(length, width, f, marks), FoldedMarks(length, width, f, marks - {p}) + {q});
    }
  }

  /** Adding one mark adds its image. */
  lemma FoldedMarksAdd(length: nat, width: nat, f: Fold, marks: set<(nat, nat)>, p: (nat, nat))
    requires forall q :: q in marks ==> q.0 < length && q.1 < width && !OnLine(f, q)
    requires p.0 < length && p.1 < width && !OnLine(f, p)
    ensures FoldedMarks(length, width, f, marks + {p}) ==
      FoldedMarks(length, width, f, marks) + {FoldPos(length, width, f, p)}
  {
  }

  /** Marks strictly before `(i, j)` in row-major order. */
  ghost function MarksBefore(g: array2<bool>, i: nat, j: nat): set<(nat, nat)>
    reads g
  {
    set p | p in Marks(g) && (p.0 < i || (p.0 == i && p.1 < j))
  }

  /** Moving past one cell adds it if it is marked. */
  lemma MarksBeforeNext(g: array2<bool>, i: nat, j: nat)
    requires i < g.Length0 && j < g.Length1
    ensures MarksBefore(g, i, j + 1) == MarksBefore(g, i, j) + (if g[i, j] then {(i, j)} else {})
  {
  }

  /** The end of a row is the start of the next one, and the end of the grid holds every mark. */
  lemma MarksBeforeRow(g: array2<bool>, i: nat)
    ensures MarksBefore(g, i + 1, 0) == MarksBefore(g, i, g.Length1)
    ensures i == g.Length0 ==> MarksBefore(g, i, 0) == Marks(g)
  {
  }

  /** Passing a mark off the fold line adds its image to the folded marks. */
  lemma FoldStep(g: array2<bool>, f: Fold, i: nat, j: nat)
    requires i < g.Length0 && j < g.Length1 && g[i, j] && !OnLine(f, (i, j))
    requires forall p :: p in MarksBefore(g, i, j) ==> !OnLine(f, p)
    ensures forall p :: p in MarksBefore(g, i, j + 1) ==> !OnLine(f, p)
    ensures FoldedMarks(g.Length0, g.Length1, f, MarksBefore(g, i, j + 1)) ==
      FoldedMarks(g.Length0, g.Length1, f, MarksBefore(g, i, j)) + {FoldPos(g.Length0, g.Length1, f, (i, j))}
  {
    MarksBeforeNext(g, i, j);
    FoldedMarksAdd(g.Length0, g.Length1, f, MarksBefore(g, i, j), (i, j));
  }

  /** Marks position `(i, j)`. */
  method Mark(g: array2<bool>, i: nat, j: nat)
    requires i < g.Length0 && j < g.Length1
    modifies g
    ensures Marks(g) == old(Marks(g)) + {(i, j)}
  {
    g[i, j] := true;
  }

  /** The rows and columns the dots need: one past the largest `y` and `x`. */
  method GridSize(dots: seq<Dot>) returns (length: nat, width: nat)
    ensures forall d :: d in dots ==> d.y < length && d.x < width
    ensures length == 0 || exists d :: d in dots && d.y + 1 == length
    ensures width == 0 || exists d :: d in dots && d.x + 1 == width
  {
    length, width := 0, 0;
    for i := 0 to |dots|
      invariant forall d :: d in dots[..i] ==> d.y < length && d.x < width
      invariant length == 0 || exists d :: d in dots[..i] && d.y + 1 == length
      invariant width == 0 || exists d :: d in dots[..i] && d.x + 1 == width
    {
      assert dots[..i + 1] == dots[..i] + [dots[i]];
      width := if dots[i].x + 1 > width then dots[i].x + 1 else width;
      length := if dots[i].y + 1 > length then dots[i].y + 1 else length;
    }
    assert dots[..|dots|] == dots;
  }

  /** Sizes the grid to the dots and marks each dot at row `y`, column `x`. */
  method MakeGrid(dots: seq<Dot>) returns (g: array2<bool>)
    ensures fresh(g)
    ensures forall d :: d in dots ==> d.y < g.Length0 && d.x < g.Length1
    ensures Marks(g) == set d | d in dots :: (d.y, d.x)
  {
    var length, width := GridSize(dots);
    g := new bool[length, width]((i, j) => false);
    for k := 0 to |dots|
      invariant Marks(g) == set d | d in dots[..k] :: (d.y, d.x)
    {
      assert dots[..k + 1] == dots[..k] + [dots[k]];
      Mark(g, dots[k].y, dots[k].x);
    }
    assert dots[..|dots|] == dots;
  }

  /**
   * Folds the marks of row `i` into `folded`, stopping at a mark on the fold
   * line.
   */
  method FoldRow(g: array2<bool>, f: Fold, folded: array2<bool>, i: nat) returns (err: Option<FoldError>)
    requires folded != g && i < g.Length0
    requires (folded.Length0, folded.Length1) == FoldedDims(g.Length0, g.Length1, f)
    requires forall p :: p in MarksBefore(g, i, 0) ==> !OnLine(f, p)
    requires Marks(folded) == FoldedMarks(g.Length0, g.Length1, f, MarksBefore(g, i, 0))
    modifies folded
    ensures err.None? ==> (forall p :: p in MarksBefore(g, i + 1, 0) ==> !OnLine(f, p)) &&
                          Marks(folded) == FoldedMarks(g.Length0, g.Length1, f, MarksBefore(g, i + 1, 0))
    ensures err.Some? ==> var p := (err.value.row, err.value.col); p in Marks(g) && OnLine(f, p)
  {
    for j := 0 to g.Length1
      invariant forall p :: p in MarksBefore(g, i, j) ==> !OnLine(f, p)
      invariant Marks(folded) == FoldedMarks(g.Length0, g.Length1, f, MarksBefore(g, i, j))
    {
      if g[i, j] {
        if OnLine(f, (i, j)) {
          assert (i, j) in Marks(g);
          return Some(DotOnFoldLine(i, j));
        }
        var q := FoldPos(g.Length0, g.Length1, f, (i, j));
        FoldStep(g, f, i, j);
        Mark(folded, q.0, q.1);
      } else {
        MarksBeforeNext(g, i, j);
      }
    }
    MarksBeforeRow(g, i);
    return None;
  }

  /**
   * Folds the grid into a freshly allocated one of the folded dimensions,
   * marking the image of every mark; a mark on the fold line fails the
   * assertion of the C code.
   */
  method FoldGrid(g: array2<bool>, f: Fold) returns (r: Result<array2<bool>, FoldError>)
    ensures r.Ok? ==> fresh(r.value)
    ensures r.Ok? ==> (r.value.Length0, r.value.Length1) == FoldedDims(g.Length0, g.Length1, f)
    ensures r.Ok? ==> (forall p :: p in Marks(g) ==> !OnLine(f, p)) &&
                      Marks(r.value) == FoldedMarks(g.Length0, g.Length1, f, Marks(g))
    ensures r.Err? ==> var p := (r.error.row, r.error.col); p in Marks(g) && OnLine(f, p)
  {
    var d := FoldedDims(g.Length0, g.Length1, f);
    var folded := new bool[d.0, d.1]((i, j) => false);
    assert Marks(folded) == {};
    for i := 0 to g.Length0
      invariant forall p :: p in MarksBefore(g, i, 0) ==> !OnLine(f, p)
      invariant Marks(folded) == FoldedMarks(g.Length0, g.Length1, f, MarksBefore(g, i, 0))
    {
      var err := FoldRow(g, f, folded, i);
      if err.Some? {
        return Err(err.value);
      }
    }
    MarksBeforeRow(g, g.Length0);
    return Ok(folded);
  }

  /** Counts the marks of row `i`, adding them to those of the rows above. */
  method CountRow(g: array2<bool>, i: nat, above: nat) returns (count: nat)
    requires i < g.Length0 && above == |MarksBefore(g, i, 0)|
    ensures count == |MarksBefore(g, i + 1, 0)|
  {
    count := above;
    for j := 0 to g.Length1
      invariant count == |MarksBefore(g, i, j)|
    {
      MarksBeforeNext(g, i, j);
      if g[i, j] {
        count := count + 1;
      }
    }
    MarksBeforeRow(g, i);
  }

  /** Counts the marked positions, visiting each one once. */
  method CountMarked(g: array2<bool>) returns (count: nat)
    ensures count == |Marks(g)|
  {
    count := 0;
    for i := 0 to g.Length0
      invariant count == |MarksBefore(g, i, 0)|
    {
      count := CountRow(g, i, count);
    }
    MarksBeforeRow(g, g.Length0);
  }

  /**
   * The dimensions and marks after a sequence of folds, or None when a mark
   * meets a fold line.
   */
  ghost function FoldAllSpec(length: nat, width: nat, marks: set<(nat, nat)>, folds: seq<Fold>): (r: Option<(nat, nat, set<(nat, nat)>)>)
    requires forall p :: p in marks ==> p.0 < length && p.1 < width
    ensures r.Some? ==> forall p :: p in r.value.2 ==> p.0 < r.value.0 && p.1 < r.value.1
    decreases |folds|
  {
    if folds == [] then Some((length, width, marks))
    else if exists p :: p in marks && OnLine(folds[0], p) then None
    else
      var d := FoldedDims(length, width, folds[0]);
      FoldAllSpec(d.0, d.1, FoldedMarks(length, width, folds[0], marks), folds[1..])
  }

  /** A first fold that meets no mark leaves the remaining folds to the folded marks. */
  lemma FoldAllSpecStep(length: nat, width: nat, marks: set<(nat, nat)>, folds: seq<Fold>)
    requires folds != []
    requires forall p :: p in marks ==> p.0 < length && p.1 < width && !OnLine(folds[0], p)
    ensures var d := FoldedDims(length, width, folds[0]);
      FoldAllSpec(length, width, marks, folds) == FoldAllSpec(d.0, d.1, FoldedMarks(length, width, folds[0], marks), folds[1..])
    ensures var d := FoldedDims(length, width, folds[0]);
      FoldAllSpec(length, width, marks, folds[..1]) == Some((d.0, d.1, FoldedMarks(length, width, folds[0], marks)))
  {
    assert folds[..1][1..] == [];
  }

  /**
   * Both parts: the number of marks after the first fold, which is at most
   * the number of dots, and the grid after all folds.
   */
  method FoldAll(g: array2<bool>, folds: seq<Fold>) returns (r: Result<(nat, array2<bool>), FoldError>)
    requires |folds| > 0
    ensures var spec := FoldAllSpec(g.Length0, g.Length1, Marks(g), folds);
      (r.Ok? <==> spec.Some?) &&
      (r.Ok? ==> (r.value.1.Length0, r.value.1.Length1, Marks(r.value.1)) == spec.value)
    ensures r.Ok? ==> var first := FoldAllSpec(g.Length0, g.Length1, Marks(g), folds[..1]);
      first.Some? && r.value.0 == |first.value.2| <= |Marks(g)|
  {
    var first := FoldGrid(g, folds[0]);
    if first.Err? {
      return Err(first.error);
    }
    var cur := first.value;
    FoldedMarksFewer(g.Length0, g.Length1, folds[0], Marks(g));
    FoldAllSpecStep(g.Length0, g.Length1, Marks(g), folds);
    var count := CountMarked(cur);
    for k := 1 to |folds|
      invariant FoldAllSpec(g.Length0, g.Length1, Marks(g), folds) ==
                FoldAllSpec(cur.Length0, cur.Length1, Marks(cur), folds[k..])
    {
      assert folds[k..][1..] == folds[k + 1..];
      var next := FoldGrid(cur, folds[k]);
      if next.Err? {
        return Err(next.error);
      }
      cur := next.value;
    }
    return Ok((count, cur));
  }
}
