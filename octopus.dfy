/**
 * Dumbo octopuses (src/day_11.c): a 10 x 10 grid of energy levels. A step
 * raises every energy by one, then every octopus above 9 flashes once,
 * resetting to 0 and raising its not-yet-flashed neighbours, which may flash
 * in turn. The search for the first synchronised step compares energies.
 */
module Octopuses {
  import opened Wrappers
  import opened Sets

  const Size: nat := 10

  /** One octopus: its energy level and whether it flashed in the current step. */
  datatype Octopus = Octopus(energy: nat, hasFlashed: bool)

  /** Every position of the grid. */
  ghost function Cells(): set<(nat, nat)>
  {
    set i: nat, j: nat | i < Size && j < Size :: (i, j)
  }

  /** Positions `(i, j)` with `j < w` in row `i`. */
  ghost function RowTo(i: nat, w: nat): set<(nat, nat)>
  {
    set j: nat | j < w :: (i, j)
  }

  /** Positions of the first `k` rows. */
  ghost function RowsTo(k: nat): set<(nat, nat)>
  {
    set i: nat, j: nat | i < k && j < Size :: (i, j)
  }

  lemma {:induction false} RowToCount(i: nat, w: nat)
    ensures |RowTo(i, w)| == w
  {
    if w > 0 {
      RowToCount(i, w - 1);
      assert RowTo(i, w) == RowTo(i, w - 1) + {(i, w - 1)};
    }
  }

  lemma {:induction false} RowsToCount(k: nat)
    ensures |RowsTo(k)| == Size * k
  {
    if k > 0 {
      RowsToCount(k - 1);
      RowToCount(k - 1, Size);
      assert RowsTo(k) == RowsTo(k - 1) + RowTo(k - 1, Size);
      assert RowsTo(k - 1) * RowTo(k - 1, Size) == {};
    }
  }

  /** The grid has exactly 100 positions. */
  lemma CellsCount()
    ensures |Cells()| == Size * Size
  {
    RowsToCount(Size);
    assert Cells() == RowsTo(Size);
  }

  /** A set of positions holds at most 100 of them. */
  lemma AtMostAllCells(s: set<(nat, nat)>)
    requires s <= Cells()
    ensures |s| <= Size * Size
  {
    CellsCount();
    SubsetCard(s, Cells());
  }

  /** A 10 x 10 table of counts, one per position. */
  type Table = t: seq<seq<nat>> | |t| == Size && forall a :: 0 <= a < Size ==> |t[a]| == Size
    witness seq(Size, _ => seq(Size, _ => 0))

  /** `(a, b)` is one of the eight neighbours of `(i, j)`. */
  predicate Adjacent(a: int, b: int, i: int, j: int)
  {
    (a != i || b != j) && i - 1 <= a <= i + 1 && j - 1 <= b <= j + 1
  }

  /** One more raise owed to each neighbour of `(i, j)`. */
  ghost function Owe(owed: Table, i: int, j: int): (r: Table)
  {
    seq(Size, a requires 0 <= a < Size => seq(Size, b requires 0 <= b < Size => owed[a][b] + if Adjacent(a, b, i, j) then 1 else 0))
  }

  /** The raise owed to `(a, b)`, if any, paid. */
  ghost function Settle(owed: Table, a: nat, b: nat): (r: Table)
    requires a < Size && b < Size
  {
    owed[a := owed[a][b := if owed[a][b] > 0 then owed[a][b] - 1 else 0]]
  }

  /**
   * The offset of the `k`-th neighbour in the order the flash visits them:
   * above, above left, above right, below, below left, below right, left, right.
   */
  function NeighbourOffset(k: nat): (d: (int, int))
    requires k < 8
    ensures Adjacent(d.0, d.1, 0, 0)
  {
    match k
    case 0 => (-1, 0)
    case 1 => (-1, -1)
    case 2 => (-1, 1)
    case 3 => (1, 0)
    case 4 => (1, -1)
    case 5 => (1, 1)
    case 6 => (0, -1)
    case _ => (0, 1)
  }

  /** The place of the offset `(da, db)` in that order; 8 when it is no neighbour. */
  function NeighbourIndex(da: int, db: int): (k: nat)
    ensures k <= 8 && (k < 8 <==> Adjacent(da, db, 0, 0))
    ensures k < 8 ==> NeighbourOffset(k) == (da, db)
  {
    if (da, db) == (-1, 0) then 0
    else if (da, db) == (-1, -1) then 1
    else if (da, db) == (-1, 1) then 2
    else if (da, db) == (1, 0) then 3
    else if (da, db) == (1, -1) then 4
    else if (da, db) == (1, 1) then 5
    else if (da, db) == (0, -1) then 6
    else if (da, db) == (0, 1) then 7
    else 8
  }

  /** The raises owed after a flash at `(i, j)` whose neighbours before the `k`-th are paid. */
  ghost function Pending(owed: Table, i: int, j: int, k: nat): (r: Table)
  {
    seq(Size, a requires 0 <= a < Size => seq(Size, b requires 0 <= b < Size =>
      owed[a][b] + if k <= NeighbourIndex(a - i, b - j) < 8 then 1 else 0))
  }

  lemma PendingAt(owed: Table, i: int, j: int, k: nat, a: nat, b: nat)
    requires a < Size && b < Size
    ensures Pending(owed, i, j, k)[a][b] == owed[a][b] + if k <= NeighbourIndex(a - i, b - j) < 8 then 1 else 0
  {
  }

  /** Paying the `k`-th neighbour its raise leaves the later ones owed. */
  lemma PendingSettle(owed: Table, i: int, j: int, k: nat, a: nat, b: nat)
    requires k < 8 && a < Size && b < Size && (a - i, b - j) == NeighbourOffset(k)
    ensures Pending(owed, i, j, k)[a][b] > 0
    ensures forall x, y :: 0 <= x < Size && 0 <= y < Size ==>
              Settle(Pending(owed, i, j, k), a, b)[x][y] == Pending(owed, i, j, k + 1)[x][y]
  {
    assert NeighbourIndex(a - i, b - j) == k;
    PendingAt(owed, i, j, k, a, b);
    forall x, y | 0 <= x < Size && 0 <= y < Size
      ensures Settle(Pending(owed, i, j, k), a, b)[x][y] == Pending(owed, i, j, k + 1)[x][y]
    {
      PendingAt(owed, i, j, k, x, y);
      PendingAt(owed, i, j, k + 1, x, y);
    }
  }

  /** A `k`-th neighbour off the grid is owed nothing. */
  lemma PendingSkip(owed: Table, i: int, j: int, k: nat)
    requires k < 8
    requires var d := NeighbourOffset(k); !(0 <= i + d.0 < Size && 0 <= j + d.1 < Size)
    ensures forall x, y :: 0 <= x < Size && 0 <= y < Size ==>
              Pending(owed, i, j, k)[x][y] == Pending(owed, i, j, k + 1)[x][y]
  {
    forall x, y | 0 <= x < Size && 0 <= y < Size
      ensures Pending(owed, i, j, k)[x][y] == Pending(owed, i, j, k + 1)[x][y]
    {
      PendingAt(owed, i, j, k, x, y);
      PendingAt(owed, i, j, k + 1, x, y);
      assert NeighbourIndex(x - i, y - j) != k;
    }
  }

  /** 1 when `(r, c)` is on the grid and its energy in `e` is 0. */
  function ZeroAt(e: Table, r: int, c: int): nat
  {
    if 0 <= r < Size && 0 <= c < Size && e[r][c] == 0 then 1 else 0
  }

  /** How many of the eight neighbours of `(a, b)` are at energy 0 in `e`. */
  function ZerosAround(e: Table, a: int, b: int): nat
  {
    ZeroAt(e, a - 1, b - 1) + ZeroAt(e, a - 1, b) + ZeroAt(e, a - 1, b + 1) + ZeroAt(e, a, b - 1)
    + ZeroAt(e, a, b + 1) + ZeroAt(e, a + 1, b - 1) + ZeroAt(e, a + 1, b) + ZeroAt(e, a + 1, b + 1)
  }

  /**
   * The rule of a step at `(a, b)`, from the energies `e` to `e'`: the
   * octopus flashed, and sits at 0, exactly when its old energy plus one plus
   * its flashed neighbours is above 9; otherwise it sits at that sum.
   */
  predicate StepAt(e: Table, e': Table, a: nat, b: nat)
    requires a < Size && b < Size
  {
    var x := e[a][b] + 1 + ZerosAround(e', a, b);
    (e'[a][b] == 0 <==> x > 9) && (x <= 9 ==> e'[a][b] == x)
  }

  /** 1 when `(r, c)` is on the grid and in `s`. */
  function InSet(s: set<(nat, nat)>, r: int, c: int): nat
  {
    if 0 <= r < Size && 0 <= c < Size && (r as nat, c as nat) in s then 1 else 0
  }

  /** How many of the eight neighbours of `(a, b)` are in `s`. */
  function CountAround(s: set<(nat, nat)>, a: int, b: int): nat
  {
    InSet(s, a - 1, b - 1) + InSet(s, a - 1, b) + InSet(s, a - 1, b + 1) + InSet(s, a, b - 1)
    + InSet(s, a, b + 1) + InSet(s, a + 1, b - 1) + InSet(s, a + 1, b) + InSet(s, a + 1, b + 1)
  }

  /** Every energy of `e` plus one, as the first half of a step leaves it. */
  function Plus1(e: Table): (r: Table)
    ensures forall a, b :: 0 <= a < Size && 0 <= b < Size ==> r[a][b] == e[a][b] + 1
  {
    seq(Size, a requires 0 <= a < Size => seq(Size, b requires 0 <= b < Size => e[a][b] + 1))
  }

  /**
   * The set `s` of octopuses is closed under the cascade from the raised
   * energies `base`: an octopus that `base` plus its neighbours in `s` puts
   * above 9 is itself in `s`.
   */
  predicate ClosedAt(base: Table, s: set<(nat, nat)>, a: nat, b: nat)
    requires a < Size && b < Size
  {
    base[a][b] + CountAround(s, a, b) > 9 ==> (a, b) in s
  }

  predicate Closed(base: Table, s: set<(nat, nat)>)
  {
    forall a: nat, b: nat :: a < Size && b < Size ==> ClosedAt(base, s, a, b)
  }

  /**
   * The energies `e'` are a step on from `e`: the step rule holds everywhere,
   * and the octopuses that flashed are the fewest the cascade allows, lying
   * inside every set closed under it.
   */
  ghost predicate StepsTo(e: Table, e': Table)
  {
    (forall a, b :: 0 <= a < Size && 0 <= b < Size ==> StepAt(e, e', a, b)) &&
    forall s :: Closed(Plus1(e), s) ==> ZeroCells(e') <= s
  }

  /** The positions at energy 0: after a step, the octopuses that flashed. */
  ghost function ZeroCells(e: Table): set<(nat, nat)>
  {
    set a: nat, b: nat | a < Size && b < Size && e[a][b] == 0 :: (a, b)
  }

  /** Counting the octopuses at 0 is counting the members of `ZeroCells`. */
  lemma ZerosAreCells(e: Table, a: int, b: int)
    ensures ZerosAround(e, a, b) == CountAround(ZeroCells(e), a, b)
  {
    forall r, c ensures ZeroAt(e, r, c) == InSet(ZeroCells(e), r, c) {
      if 0 <= r < Size && 0 <= c < Size && e[r][c] == 0 {
        assert (r as nat, c as nat) in ZeroCells(e);
      }
    }
  }

  /** The octopuses at 0 after a step are closed under the cascade. */
  lemma ZerosClosed(e: Table, e': Table)
    requires forall a, b :: 0 <= a < Size && 0 <= b < Size ==> StepAt(e, e', a, b)
    ensures Closed(Plus1(e), ZeroCells(e'))
  {
    forall a: nat, b: nat | a < Size && b < Size
      ensures ClosedAt(Plus1(e), ZeroCells(e'), a, b)
    {
      ZerosAreCells(e', a, b);
      assert StepAt(e, e', a, b);
    }
  }

  /**
   * A step has one outcome: two grids that are both a step on from `e` are
   * the same grid.
   */
  lemma StepIsDeterministic(e: Table, e1: Table, e2: Table)
    requires StepsTo(e, e1) && StepsTo(e, e2)
    ensures e1 == e2
  {
    ZerosClosed(e, e1);
    ZerosClosed(e, e2);
    assert ZeroCells(e1) == ZeroCells(e2);
    forall a | 0 <= a < Size
      ensures e1[a] == e2[a]
    {
      forall b | 0 <= b < Size
        ensures e1[a][b] == e2[a][b]
      {
        ZerosAreCells(e1, a, b);
        ZerosAreCells(e2, a, b);
        assert StepAt(e, e1, a, b) && StepAt(e, e2, a, b);
      }
    }
  }

  /** Every energy equals the one at the top left. */
  predicate Synced(e: Table)
  {
    forall a, b :: 0 <= a < Size && 0 <= b < Size ==> e[a][b] == e[0][0]
  }

  /** Consecutive energies of a run of steps, the first the starting grid. */
  ghost predicate IsRun(states: seq<Table>)
  {
    |states| > 0 && forall s :: 0 <= s < |states| - 1 ==> StepsTo(states[s], states[s + 1])
  }

  /** The flashes of a run: the octopuses at 0 after each of its steps. */
  ghost function FlashTotal(states: seq<Table>): nat
  {
    if |states| <= 1 then 0 else FlashTotal(states[..|states| - 1]) + |ZeroCells(states[|states| - 1])|
  }

  class OctopusGrid {
    var grid: array2<Octopus>

    ghost predicate Valid()
      reads this
    {
      grid.Length0 == Size && grid.Length1 == Size
    }

    /** Reads the energy digits of the input; nothing has flashed yet. */
    constructor (energies: seq<seq<nat>>)
      requires |energies| == Size
      requires forall i :: 0 <= i < Size ==> |energies[i]| == Size
      ensures Valid() && fresh(grid)
      ensures forall i, j :: 0 <= i < Size && 0 <= j < Size ==>
                grid[i, j] == Octopus(energies[i][j], false)
    {
      grid := new Octopus[Size, Size]((i, j) requires 0 <= i < Size && 0 <= j < Size => Octopus(energies[i][j], false));
    }

    /** Positions of the octopuses that flashed in this step. */
    ghost function Flashed(): set<(nat, nat)>
      reads this, grid
      requires Valid()
    {
      set i: nat, j: nat | i < Size && j < Size && grid[i, j].hasFlashed :: (i, j)
    }

    /** Positions that may still flash. */
    ghost function Unflashed(): set<(nat, nat)>
      reads this, grid
      requires Valid()
    {
      set i: nat, j: nat | i < Size && j < Size && !grid[i, j].hasFlashed :: (i, j)
    }

    /** Positions that have not flashed although their energy is above 9. */
    ghost function Hot(): set<(nat, nat)>
      reads this, grid
      requires Valid()
    {
      set i: nat, j: nat | i < Size && j < Size && !grid[i, j].hasFlashed && grid[i, j].energy > 9 :: (i, j)
    }

    /**
     * The octopuses flashed so far lie in every set closed under the cascade
     * from the raised energies `base`: each was forced to flash.
     */
    ghost predicate Least(base: Table)
      reads this, grid
      requires Valid()
    {
      forall s :: Closed(base, s) ==> Flashed() <= s
    }

    /** Flashed neighbours all in `s` number at most the neighbours in `s`. */
    lemma FlashedAroundAtMost(s: set<(nat, nat)>, a: int, b: int)
      requires Valid() && Flashed() <= s
      ensures FlashedAround(a, b) <= CountAround(s, a, b)
    {
      forall r, c ensures Lit(r, c) <= InSet(s, r, c) {
        if Lit(r, c) == 1 {
          assert (r as nat, c as nat) in Flashed();
        }
      }
    }

    /**
     * The state during a step: a flashed octopus sits at energy 0, any other
     * has been raised at least once.
     */
    ghost predicate Calm()
      reads this, grid
      requires Valid()
    {
      forall i, j :: 0 <= i < Size && 0 <= j < Size ==>
        (grid[i, j].hasFlashed <==> grid[i, j].energy == 0)
    }

    /** 1 when `(r, c)` is on the grid and its octopus has flashed, else 0. */
    ghost function Lit(r: int, c: int): nat
      reads this, grid
      requires Valid()
    {
      if 0 <= r < Size && 0 <= c < Size && grid[r, c].hasFlashed then 1 else 0
    }

    /** How many of the eight neighbours of `(a, b)` have flashed. */
    ghost function FlashedAround(a: int, b: int): nat
      reads this, grid
      requires Valid()
    {
      Lit(a - 1, b - 1) + Lit(a - 1, b) + Lit(a - 1, b + 1) + Lit(a, b - 1)
      + Lit(a, b + 1) + Lit(a + 1, b - 1) + Lit(a + 1, b) + Lit(a + 1, b + 1)
    }

    /**
     * The bookkeeping of a step that started from the energies `base`: an
     * octopus that flashed sits at 0 and `base` plus its flashed neighbours
     * is above 9; any other one is at `base` plus its flashed neighbours,
     * less the `owed` raises from neighbours that flashed but have not yet
     * reached it.
     */
    ghost predicate Account(base: Table, owed: Table)
      reads this, grid
      requires Valid()
    {
      forall a, b :: 0 <= a < Size && 0 <= b < Size ==> AccountAt(base, owed, a, b)
    }

    /** The bookkeeping of the octopus at `(a, b)`. */
    ghost predicate AccountAt(base: Table, owed: Table, a: nat, b: nat)
      reads this, grid
      requires Valid() && a < Size && b < Size
    {
      if grid[a, b].hasFlashed then grid[a, b].energy == 0 && base[a][b] + FlashedAround(a, b) > 9
      else grid[a, b].energy + owed[a][b] == base[a][b] + FlashedAround(a, b)
    }

    /**
     * Flashes the octopus at `(i, j)` if it has not flashed and its energy is
     * above 9, then raises its eight neighbours in the order above, above
     * left, above right, below, below left, below right, left, right. Returns
     * the number of flashes caused: exactly the octopuses newly flashed. No
     * octopus that was at most 9 or already flashed is left above 9, and
     * every energy still equals its start plus its flashed neighbours.
     */
    method Flash(i: nat, j: nat, ghost base: Table, ghost owed: Table) returns (n: nat)
      requires Valid() && Calm() && i < Size && j < Size && Account(base, owed)
      requires Least(base)
      modifies grid
      ensures Valid() && Calm() && Account(base, owed)
      ensures old(Flashed()) <= Flashed()
      ensures n == |Flashed()| - |old(Flashed())|
      ensures Unflashed() <= old(Unflashed())
      ensures Hot() <= old(Hot()) - {(i, j)}
      ensures Least(base)
      decreases Unflashed(), 0
    {
      n := 0;
      if !grid[i, j].hasFlashed && grid[i, j].energy > 9 {
        Ignite(i, j, base, owed);
        var m := RaiseNeighbours(i, j, base, owed);
        n := 1 + m;
        AccountSame(base, Pending(owed, i, j, 8), owed);
      }
    }

    /**
     * The eight neighbours of the flashing octopus at `(i, j)`: the row above
     * it, the row below it, then its left and right.
     */
    method RaiseNeighbours(i: nat, j: nat, ghost base: Table, ghost owed: Table) returns (m: nat)
      requires Valid() && Calm() && i < Size && j < Size
      requires grid[i, j].hasFlashed && Account(base, Pending(owed, i, j, 0))
      requires Least(base)
      modifies grid
      ensures Valid() && Calm() && Account(base, Pending(owed, i, j, 8))
      ensures old(Flashed()) <= Flashed()
      ensures m == |Flashed()| - |old(Flashed())|
      ensures Unflashed() <= old(Unflashed())
      ensures Hot() <= old(Hot())
      ensures Least(base)
      decreases Unflashed(), 4
    {
      var above := RaiseRow(i, j, 0, base, owed);
      var below := RaiseRow(i, j, 3, base, owed);
      var sides := RaiseSides(i, j, base, owed);
      m := above + below + sides;
    }

    /**
     * The three neighbours in the row above (`k` = 0) or below (`k` = 3) the
     * flashing octopus: straight up or down, then left of it, then right.
     */
    method RaiseRow(i: nat, j: nat, k: nat, ghost base: Table, ghost owed: Table) returns (m: nat)
      requires Valid() && Calm() && i < Size && j < Size && (k == 0 || k == 3)
      requires grid[i, j].hasFlashed && Account(base, Pending(owed, i, j, k))
      requires Least(base)
      modifies grid
      ensures Valid() && Calm() && Account(base, Pending(owed, i, j, k + 3))
      ensures grid[i, j].hasFlashed
      ensures old(Flashed()) <= Flashed()
      ensures m == |Flashed()| - |old(Flashed())|
      ensures Unflashed() <= old(Unflashed())
      ensures Hot() <= old(Hot())
      ensures Least(base)
      decreases Unflashed(), 3
    {
      var a := RaiseNeighbour(i, j, k, base, owed);
      var b := RaiseNeighbour(i, j, k + 1, base, owed);
      var c := RaiseNeighbour(i, j, k + 2, base, owed);
      m := a + b + c;
    }

    /** The neighbours left and right of the flashing octopus. */
    method RaiseSides(i: nat, j: nat, ghost base: Table, ghost owed: Table) returns (m: nat)
      requires Valid() && Calm() && i < Size && j < Size
      requires grid[i, j].hasFlashed && Account(base, Pending(owed, i, j, 6))
      requires Least(base)
      modifies grid
      ensures Valid() && Calm() && Account(base, Pending(owed, i, j, 8))
      ensures old(Flashed()) <= Flashed()
      ensures m == |Flashed()| - |old(Flashed())|
      ensures Unflashed() <= old(Unflashed())
      ensures Hot() <= old(Hot())
      ensures Least(base)
      decreases Unflashed(), 3
    {
      var a := RaiseNeighbour(i, j, 6, base, owed);
      var b := RaiseNeighbour(i, j, 7, base, owed);
      m := a + b;
    }

    /** The bookkeeping only looks at the owed raises position by position. */
    lemma AccountSame(base: Table, owed: Table, owed': Table)
      requires Valid() && Account(base, owed)
      requires forall a, b :: 0 <= a < Size && 0 <= b < Size ==> owed[a][b] == owed'[a][b]
      ensures Account(base, owed')
    {
      forall a, b | 0 <= a < Size && 0 <= b < Size
        ensures AccountAt(base, owed', a, b)
      {
        assert AccountAt(base, owed, a, b);
      }
    }

    /**
     * The flash itself: the octopus is marked as flashed and its energy drops
     * to 0; each of its neighbours is now owed one raise.
     */
    method Ignite(i: nat, j: nat, ghost base: Table, ghost owed: Table)
      requires Valid() && Calm() && i < Size && j < Size && !grid[i, j].hasFlashed && grid[i, j].energy > 9
      requires Account(base, owed)
      requires Least(base)
      modifies grid
      ensures Valid() && Calm() && Account(base, Pending(owed, i, j, 0))
      ensures grid[i, j] == Octopus(0, true)
      ensures Flashed() == old(Flashed()) + {(i, j)} && (i, j) !in old(Flashed())
      ensures Unflashed() == old(Unflashed()) - {(i, j)}
      ensures Hot() == old(Hot()) - {(i, j)}
      ensures Least(base)
    {
      Forced(i, j, base, owed);
      grid[i, j] := Octopus(0, true);
      forall a, b | 0 <= a < Size && 0 <= b < Size
        ensures FlashedAround(a, b) == old(FlashedAround(a, b)) + (if Adjacent(a, b, i, j) then 1 else 0)
      {
      }
      forall a, b | 0 <= a < Size && 0 <= b < Size
        ensures AccountAt(base, Pending(owed, i, j, 0), a, b)
      {
        assert old(AccountAt(base, owed, a, b));
        PendingAt(owed, i, j, 0, a, b);
        assert Adjacent(a, b, i, j) <==> Adjacent(a - i, b - j, 0, 0);
      }
    }

    /** An octopus about to flash lies in every set closed under the cascade. */
    lemma Forced(i: nat, j: nat, base: Table, owed: Table)
      requires Valid() && i < Size && j < Size && !grid[i, j].hasFlashed && grid[i, j].energy > 9
      requires Account(base, owed) && Least(base)
      ensures forall s :: Closed(base, s) ==> Flashed() + {(i, j)} <= s
    {
      assert AccountAt(base, owed, i, j);
      forall s | Closed(base, s)
        ensures Flashed() + {(i, j)} <= s
      {
        FlashedAroundAtMost(s, i, j);
        assert ClosedAt(base, s, i, j);
      }
    }

    /**
     * The `k`-th neighbour of the flashing octopus at `(i, j)`, when it lies
     * on the grid (the C code nests these bounds tests; their conjunction is
     * tested here), takes its owed raise.
     */
    method RaiseNeighbour(i: nat, j: nat, k: nat, ghost base: Table, ghost owed: Table) returns (m: nat)
      requires Valid() && Calm() && i < Size && j < Size && k < 8
      requires grid[i, j].hasFlashed && Account(base, Pending(owed, i, j, k))
      requires Least(base)
      modifies grid
      ensures Valid() && Calm() && Account(base, Pending(owed, i, j, k + 1))
      ensures grid[i, j].hasFlashed
      ensures old(Flashed()) <= Flashed()
      ensures m == |Flashed()| - |old(Flashed())|
      ensures Unflashed() <= old(Unflashed())
      ensures Hot() <= old(Hot())
      ensures Least(base)
      decreases Unflashed(), 2
    {
      var d := NeighbourOffset(k);
      var a, b := i + d.0, j + d.1;
      if 0 <= a < Size && 0 <= b < Size {
        PendingSettle(owed, i, j, k, a, b);
        m := Raise(a, b, base, Pending(owed, i, j, k));
        AccountSame(base, Settle(Pending(owed, i, j, k), a, b), Pending(owed, i, j, k + 1));
        assert (i, j) in old(Flashed());
      } else {
        m := 0;
        PendingSkip(owed, i, j, k);
        AccountSame(base, Pending(owed, i, j, k), Pending(owed, i, j, k + 1));
      }
    }

    /**
     * One neighbour of a flashing octopus: unless it has flashed, its energy
     * goes up by one, paying the raise it was owed, and it flashes once above 9.
     */
    method Raise(a: nat, b: nat, ghost base: Table, ghost owed: Table) returns (m: nat)
      requires Valid() && Calm() && a < Size && b < Size && Account(base, owed)
      requires owed[a][b] > 0
      requires Least(base)
      modifies grid
      ensures Valid() && Calm() && Account(base, Settle(owed, a, b))
      ensures old(Flashed()) <= Flashed()
      ensures m == |Flashed()| - |old(Flashed())|
      ensures Unflashed() <= old(Unflashed())
      ensures Hot() <= old(Hot()) - {(a, b)}
      ensures Least(base)
      decreases Unflashed(), 1
    {
      m := 0;
      if !grid[a, b].hasFlashed {
        Bump(a, b, base, owed);
        if grid[a, b].energy > 9 {
          m := Flash(a, b, base, Settle(owed, a, b));
        }
      } else {
        assert AccountAt(base, owed, a, b);
        SettleKeepsAccount(base, owed, a, b);
      }
    }

    /** The energy of the unflashed octopus at `(a, b)` goes up by one, paying one owed raise. */
    method Bump(a: nat, b: nat, ghost base: Table, ghost owed: Table)
      requires Valid() && Calm() && a < Size && b < Size && Account(base, owed)
      requires owed[a][b] > 0 && !grid[a, b].hasFlashed
      requires Least(base)
      modifies grid
      ensures Valid() && Calm() && Account(base, Settle(owed, a, b)) && Least(base)
      ensures grid[a, b] == old(grid[a, b]).(energy := old(grid[a, b].energy) + 1)
      ensures Flashed() == old(Flashed()) && Unflashed() == old(Unflashed())
      ensures Hot() <= old(Hot()) + {(a, b)}
    {
      assert AccountAt(base, owed, a, b);
      grid[a, b] := grid[a, b].(energy := grid[a, b].energy + 1);
      forall r, c ensures Lit(r, c) == old(Lit(r, c)) {
      }
      assert Flashed() == old(Flashed());
      forall x, y | 0 <= x < Size && 0 <= y < Size
        ensures FlashedAround(x, y) == old(FlashedAround(x, y))
        ensures (x, y) != (a, b) ==> AccountAt(base, owed, x, y)
      {
        assert old(AccountAt(base, owed, x, y));
      }
      SettleKeepsAccount(base, owed, a, b);
    }

    /** The bookkeeping after the energy at `(a, b)` paid its owed raise. */
    lemma SettleKeepsAccount(base: Table, owed: Table, a: nat, b: nat)
      requires Valid() && a < Size && b < Size && owed[a][b] > 0
      requires forall x, y :: 0 <= x < Size && 0 <= y < Size && (x, y) != (a, b) ==> AccountAt(base, owed, x, y)
      requires grid[a, b].hasFlashed ==> AccountAt(base, owed, a, b)
      requires !grid[a, b].hasFlashed ==> grid[a, b].energy + owed[a][b] - 1 == base[a][b] + FlashedAround(a, b)
      ensures Account(base, Settle(owed, a, b))
    {
      forall x, y | 0 <= x < Size && 0 <= y < Size
        ensures AccountAt(base, Settle(owed, a, b), x, y)
      {
        if (x, y) != (a, b) {
          assert AccountAt(base, owed, x, y);
        }
      }
    }

    /** The energies of the grid. */
    ghost function Energies(): Table
      reads this, grid
      requires Valid()
    {
      seq(Size, a requires 0 <= a < Size reads this, grid =>
        seq(Size, b requires 0 <= b < Size reads this, grid =>
          if a < grid.Length0 && b < grid.Length1 then grid[a, b].energy else 0))
    }

    /** A flashed neighbour is one at energy 0. */
    lemma LitIsZero(e': Table, r: int, c: int)
      requires Valid() && Calm() && e' == Energies()
      ensures Lit(r, c) == ZeroAt(e', r, c)
    {
    }

    /**
     * One step: clears every flag and raises every energy, then tries to
     * flash each octopus in row-major order. Returns the number of flashes,
     * which is the number of octopuses flashed, at most 100. Afterwards an
     * octopus has flashed exactly when its old energy plus 1 plus the number
     * of its flashed neighbours is above 9; it is then at 0, and otherwise at
     * that sum.
     */
    method Step() returns (n: nat)
      requires Valid()
      modifies grid
      ensures Valid() && Calm()
      ensures n == |Flashed()| && n <= Size * Size
      ensures StepsTo(old(Energies()), Energies())
      ensures n == |ZeroCells(Energies())|
    {
      ghost var e := Energies();
      ghost var base := Plus1(e);
      ResetAndRaise();
      ghost var none: Table := seq(Size, _ => seq(Size, _ => 0));
      forall a, b | 0 <= a < Size && 0 <= b < Size
        ensures AccountAt(base, none, a, b)
      {
      }
      n := FlashAll(base, none);
      AtMostAllCells(Flashed());
      FlashesSettled(e, base, none);
      FlashedAreZeros(e);
      assert forall s :: Closed(Plus1(e), s) ==> ZeroCells(Energies()) <= s;
    }

    /**
     * Once no octopus is left above 9, each has flashed exactly when its
     * start plus 1 plus its flashed neighbours is above 9.
     */
    lemma FlashesSettled(e: Table, base: Table, none: Table)
      requires Valid() && Calm() && Account(base, none) && Hot() == {}
      requires forall a, b :: 0 <= a < Size && 0 <= b < Size ==> base[a][b] == e[a][b] + 1 && none[a][b] == 0
      ensures forall a, b :: 0 <= a < Size && 0 <= b < Size ==>
                var x := e[a][b] + 1 + FlashedAround(a, b);
                (grid[a, b].hasFlashed <==> x > 9) && grid[a, b].energy == if x > 9 then 0 else x
    {
      forall a, b | 0 <= a < Size && 0 <= b < Size
        ensures var x := e[a][b] + 1 + FlashedAround(a, b);
                (grid[a, b].hasFlashed <==> x > 9) && grid[a, b].energy == if x > 9 then 0 else x
      {
        assert AccountAt(base, none, a, b);
        assert (a as nat, b as nat) !in Hot();
      }
    }

    /** After a step, the flashed octopuses are those at 0 and the step rule holds. */
    lemma FlashedAreZeros(e: Table)
      requires Valid() && Calm()
      requires forall a, b :: 0 <= a < Size && 0 <= b < Size ==>
                 var x := e[a][b] + 1 + FlashedAround(a, b);
                 (grid[a, b].hasFlashed <==> x > 9) && grid[a, b].energy == if x > 9 then 0 else x
      ensures (forall a, b :: 0 <= a < Size && 0 <= b < Size ==> StepAt(e, Energies(), a, b))
      ensures Flashed() == ZeroCells(Energies())
    {
      var e' := Energies();
      forall a, b | 0 <= a < Size && 0 <= b < Size
        ensures StepAt(e, e', a, b)
      {
        LitIsZero(e', a - 1, b - 1);
        LitIsZero(e', a - 1, b);
        LitIsZero(e', a - 1, b + 1);
        LitIsZero(e', a, b - 1);
        LitIsZero(e', a, b + 1);
        LitIsZero(e', a + 1, b - 1);
        LitIsZero(e', a + 1, b);
        LitIsZero(e', a + 1, b + 1);
        assert FlashedAround(a, b) == ZerosAround(e', a, b);
      }
      forall p | p in ZeroCells(e') ensures p in Flashed() {
        assert e'[p.0][p.1] == grid[p.0, p.1].energy;
      }
      forall p | p in Flashed() ensures p in ZeroCells(e') {
        assert e'[p.0][p.1] == grid[p.0, p.1].energy;
      }
    }

    /** The first half of a step: every flag cleared, every energy one higher. */
    method ResetAndRaise()
      requires Valid()
      modifies grid
      ensures Valid()
      ensures forall r, c :: 0 <= r < Size && 0 <= c < Size ==>
                grid[r, c] == Octopus(old(grid[r, c].energy) + 1, false)
    {
      for i := 0 to Size
        invariant forall r, c :: 0 <= r < i && 0 <= c < Size ==>
                    grid[r, c] == Octopus(old(grid[r, c].energy) + 1, false)
        invariant forall r, c :: i <= r < Size && 0 <= c < Size ==>
                    grid[r, c] == old(grid[r, c])
      {
        for j := 0 to Size
          invariant forall r, c :: 0 <= r < i && 0 <= c < Size ==>
                      grid[r, c] == Octopus(old(grid[r, c].energy) + 1, false)
          invariant forall c :: 0 <= c < j ==>
                      grid[i, c] == Octopus(old(grid[i, c].energy) + 1, false)
          invariant forall r, c :: (i < r < Size || (r == i && j <= c < Size)) && 0 <= c < Size ==>
                      grid[r, c] == old(grid[r, c])
        {
          grid[i, j] := Octopus(grid[i, j].energy + 1, false);
        }
      }
    }

    /**
     * The second half of a step: tries to flash every octopus in row-major
     * order. Afterwards no unflashed octopus is above 9.
     */
    method FlashAll(ghost base: Table, ghost none: Table) returns (n: nat)
      requires Valid() && Calm() && Account(base, none) && Flashed() == {}
      requires Least(base)
      modifies grid
      ensures Valid() && Calm() && Account(base, none)
      ensures n == |Flashed()| && Hot() == {}
      ensures Least(base)
    {
      n := 0;
      for i := 0 to Size
        invariant Calm() && Account(base, none) && Least(base)
        invariant n == |Flashed()|
        invariant forall p :: p in Hot() ==> p.0 >= i
      {
        for j := 0 to Size
          invariant Calm() && Account(base, none) && Least(base)
          invariant n == |Flashed()|
          invariant forall p :: p in Hot() ==> p.0 > i || (p.0 == i && p.1 >= j)
        {
          var m := Flash(i, j, base, none);
          n := n + m;
        }
      }
    }

    /** All 100 energies equal the one at the top left. */
    ghost predicate Synchronised()
      reads this, grid
      requires Valid()
    {
      forall i, j :: 0 <= i < Size && 0 <= j < Size ==> grid[i, j].energy == grid[0, 0].energy
    }

    /** The grid's predicates read the same on its table of energies. */
    lemma EnergiesMatch()
      requires Valid()
      ensures Synchronised() <==> Synced(Energies())
      ensures RowMatches(Size - 1) <==> LastRowSame(Energies())
    {
      assert forall a, b :: 0 <= a < Size && 0 <= b < Size ==> Energies()[a][b] == grid[a, b].energy;
    }

    /** Every energy of row `r` equals the one at the top left. */
    ghost predicate RowMatches(r: nat)
      reads this, grid
      requires Valid() && r < Size
    {
      forall j :: 0 <= j < Size ==> grid[r, j].energy == grid[0, 0].energy
    }

    /**
     * The synchronisation test as written: the `break` on a mismatch leaves
     * only the loop over one row, and the next row overwrites the flag, so
     * the verdict is that of the last row alone.
     */
    method LastRowCheck() returns (synced: bool)
      requires Valid()
      ensures synced <==> RowMatches(Size - 1)
    {
      synced := false;
      for i := 0 to Size
        invariant i > 0 ==> (synced <==> RowMatches(i - 1))
        invariant i == 0 ==> !synced
      {
        var j := 0;
        while j < Size
          invariant 0 <= j <= Size
          invariant j > 0 ==> synced
          invariant forall c :: 0 <= c < j ==> grid[i, c].energy == grid[0, 0].energy
          invariant j == 0 ==> (i > 0 ==> (synced <==> RowMatches(i - 1))) && (i == 0 ==> !synced)
        {
          synced := grid[i, j].energy == grid[0, 0].energy;
          if !synced {
            break;
          }
          j := j + 1;
        }
      }
    }

    /** The synchronisation test the search intends: every energy is compared. */
    method SynchronisedCheck() returns (synced: bool)
      requires Valid()
      ensures synced <==> Synchronised()
    {
      synced := true;
      var i := 0;
      while i < Size && synced
        invariant 0 <= i <= Size
        invariant synced <==> forall r, c :: 0 <= r < i && 0 <= c < Size ==> grid[r, c].energy == grid[0, 0].energy
      {
        var j := 0;
        while j < Size && synced
          invariant 0 <= j <= Size
          invariant synced <==> forall c :: 0 <= c < j ==> grid[i, c].energy == grid[0, 0].energy
        {
          synced := grid[i, j].energy == grid[0, 0].energy;
          j := j + 1;
        }
        i := i + 1;
      }
    }

    /**
     * Right after a step, the energies agree exactly when they all sit at a
     * common value; they are all 0 exactly when every octopus flashed.
     */
    lemma AllFlashedMeansZero()
      requires Valid() && Calm()
      ensures (Synchronised() && grid[0, 0].energy == 0) <==> Flashed() == Cells()
    {
      if Flashed() == Cells() {
        forall i, j | 0 <= i < Size && 0 <= j < Size
          ensures grid[i, j].energy == 0
        {
          assert (i as nat, j as nat) in Flashed();
        }
      }
    }

    /**
     * Runs `count` steps and adds up their flashes. The energies pass through
     * `states`, each a step on from the one before, and the total is the
     * number of octopuses at 0 after each step, summed.
     */
    method TotalFlashes(count: nat) returns (total: nat, ghost states: seq<Table>)
      requires Valid()
      modifies grid
      ensures Valid()
      ensures |states| == count + 1 && IsRun(states)
      ensures states[0] == old(Energies()) && states[count] == Energies()
      ensures total == FlashTotal(states) && total <= Size * Size * count
    {
      total := 0;
      states := [Energies()];
      for s := 0 to count
        invariant Valid()
        invariant |states| == s + 1 && IsRun(states)
        invariant states[0] == old(Energies()) && states[s] == Energies()
        invariant total == FlashTotal(states) && total <= Size * Size * s
      {
        ghost var before := states;
        var n := Step();
        states := states + [Energies()];
        assert states[..|states| - 1] == before;
        total := total + n;
      }
    }

    /**
     * The synchronisation search, stopping after `limit` steps: checks the
     * grid, and takes another step while the check fails. The energies pass
     * through `states`, none synchronised but possibly the last; the result
     * is the number of steps taken once the energies all agree, so it is the
     * first synchronised step.
     */
    method StepsToSynchronise(limit: nat) returns (r: Option<nat>, ghost states: seq<Table>)
      requires Valid()
      modifies grid
      ensures Valid() && IsRun(states)
      ensures states[0] == old(Energies()) && states[|states| - 1] == Energies()
      ensures forall s :: 0 <= s < |states| - 1 ==> !Synced(states[s])
      ensures r.Some? ==> r.value <= limit && |states| == r.value + 1 && Synced(Energies())
      ensures r.None? ==> |states| == limit + 1 && !Synced(Energies())
    {
      var steps: nat := 0;
      states := [Energies()];
      while true
        invariant Valid() && steps <= limit
        invariant |states| == steps + 1 && IsRun(states)
        invariant states[0] == old(Energies()) && states[steps] == Energies()
        invariant forall s :: 0 <= s < steps ==> !Synced(states[s])
        decreases limit - steps
      {
        var synced := SynchronisedCheck();
        EnergiesMatch();
        if synced {
          return Some(steps), states;
        }
        if steps == limit {
          return None, states;
        }
        steps := steps + 1;
        var _ := Step();
        states := states + [Energies()];
      }
    }

    /**
     * The same search with the check as written: it stops at the first step
     * whose last row matches the top left energy.
     */
    method StepsToSynchroniseAsWritten(limit: nat) returns (r: Option<nat>, ghost states: seq<Table>)
      requires Valid()
      modifies grid
      ensures Valid() && IsRun(states)
      ensures states[0] == old(Energies()) && states[|states| - 1] == Energies()
      ensures forall s :: 0 <= s < |states| - 1 ==> !LastRowSame(states[s])
      ensures r.Some? ==> r.value <= limit && |states| == r.value + 1 && LastRowSame(Energies())
      ensures r.None? ==> |states| == limit + 1 && !LastRowSame(Energies())
    {
      var steps: nat := 0;
      states := [Energies()];
      while true
        invariant Valid() && steps <= limit
        invariant |states| == steps + 1 && IsRun(states)
        invariant states[0] == old(Energies()) && states[steps] == Energies()
        invariant forall s :: 0 <= s < steps ==> !LastRowSame(states[s])
        decreases limit - steps
      {
        var synced := LastRowCheck();
        EnergiesMatch();
        if synced {
          return Some(steps), states;
        }
        if steps == limit {
          return None, states;
        }
        steps := steps + 1;
        var _ := Step();
        states := states + [Energies()];
      }
    }
  }

  /** The last row of `e` matches its top-left energy, all a check as written compares. */
  predicate LastRowSame(e: Table)
  {
    var last := e[Size - 1];
    forall b :: 0 <= b < Size ==> last[b] == e[0][0]
  }

  /** Two runs, the second starting where the first ends, make one run. */
  lemma RunsJoin(r1: seq<Table>, r2: seq<Table>)
    requires IsRun(r1) && IsRun(r2) && r1[|r1| - 1] == r2[0]
    ensures IsRun(r1 + r2[1..]) && (r1 + r2[1..])[..|r1|] == r1
  {
    var r := r1 + r2[1..];
    forall s | 0 <= s < |r| - 1
      ensures StepsTo(r[s], r[s + 1])
    {
      if s < |r1| - 1 {
        assert r[s] == r1[s] && r[s + 1] == r1[s + 1];
      } else {
        assert r[s] == r2[s - |r1| + 1] && r[s + 1] == r2[s - |r1| + 2];
      }
    }
    assert r[..|r1|] == r1;
  }

  /**
   * The whole puzzle: 100 steps whose flashes are totalled, then the extra
   * steps until the grid is synchronised, counted from the start. The
   * energies pass through `states`: the total counts the flashes of its
   * first 100 steps, and no state from the 100th on is synchronised before
   * the reported step.
   */
  method Run(g: OctopusGrid, limit: nat) returns (total: nat, steps: Option<nat>, ghost states: seq<Table>)
    requires g.Valid()
    modifies g.grid
    ensures g.Valid() && IsRun(states) && |states| > 100 && states[0] == old(g.Energies())
    ensures total == FlashTotal(states[..101]) && total <= Size * Size * 100
    ensures forall s :: 100 <= s < |states| - 1 ==> !Synced(states[s])
    ensures steps.Some? ==> 100 <= steps.value <= 100 + limit && |states| == steps.value + 1 && Synced(states[steps.value])
    ensures steps.None? ==> |states| == 101 + limit && !Synced(states[|states| - 1])
  {
    ghost var first, rest;
    total, first := g.TotalFlashes(100);
    var extra;
    extra, rest := g.StepsToSynchronise(limit);
    RunsJoin(first, rest);
    states := first + rest[1..];
    forall s | 100 <= s < |states| - 1
      ensures !Synced(states[s])
    {
      assert states[s] == rest[s - 100];
    }
    assert states[|states| - 1] == rest[|rest| - 1];
    steps := if extra.Some? then Some(100 + extra.value) else None;
  }

  /**
   * A grid whose bottom row all matches the top-left energy while another
   * energy differs: the check as written reports it synchronised.
   */
  method LastRowCheckMisfires() returns (asWritten: bool, intended: bool)
    ensures asWritten && !intended
  {
    var g := new OctopusGrid(seq(Size, i => seq(Size, j => if i == 1 && j == 1 then 5 else 0)));
    asWritten := g.LastRowCheck();
    intended := g.SynchronisedCheck();
    assert g.grid[1, 1].energy != g.grid[0, 0].energy;
  }
}
