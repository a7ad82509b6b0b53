/**
 * Crab alignment (src/day_07.c): the fuel for every crab to move to one
 * meeting position. Part 1 costs one unit per step; part 2 costs 1 + 2 + … + d
 * for a move of d steps, and tries the two whole positions either side of the
 * mean, keeping the cheaper.
 */
module Crabs {

  function Abs(x: int): nat
  {
    if x < 0 then -x else x
  }

  /** 1 + 2 + … + d, step by step. */
  function StepCosts(d: nat): nat
  {
    if d == 0 then 0 else StepCosts(d - 1) + d
  }

  /** The part-2 cost of a move of `d` steps, as the C code computes it. */
  function Triangle(d: nat): nat
  {
    d * (d + 1) / 2
  }

  /** The closed form is the sum of the step costs, and never below the distance itself. */
  lemma {:induction false} TriangleIsStepCosts(d: nat)
    ensures Triangle(d) == StepCosts(d)
    ensures Triangle(d) >= d
  {
    if d > 0 {
      TriangleIsStepCosts(d - 1);
      assert d * (d + 1) == (d - 1) * d + 2 * d;
    }
  }

  /** Part-1 fuel of the first `n` crabs to meet at `m`. */
  function Fuel1(a: seq<int>, m: int, n: nat): nat
    requires n <= |a|
  {
    if n == 0 then 0 else Fuel1(a, m, n - 1) + Abs(a[n - 1] - m)
  }

  /** Part-2 fuel of the first `n` crabs to meet at `m`. */
  function Fuel2(a: seq<int>, m: int, n: nat): nat
    requires n <= |a|
  {
    if n == 0 then 0 else Fuel2(a, m, n - 1) + Triangle(Abs(a[n - 1] - m))
  }

  /** Each crab pays at least as much in part 2 as in part 1, so the totals compare the same way. */
  lemma {:induction false} Fuel2AtLeastFuel1(a: seq<int>, m: int, n: nat)
    requires n <= |a|
    ensures Fuel2(a, m, n) >= Fuel1(a, m, n)
  {
    if n > 0 {
      Fuel2AtLeastFuel1(a, m, n - 1);
      TriangleIsStepCosts(Abs(a[n - 1] - m));
    }
  }

  /** Crabs among the first `n` at or left of `m`. */
  function AtMost(a: seq<int>, m: int, n: nat): (r: nat)
    requires n <= |a|
    ensures r <= n
  {
    if n == 0 then 0 else AtMost(a, m, n - 1) + (if a[n - 1] <= m then 1 else 0)
  }

  /** Crabs among the first `n` at or right of `m`. */
  function AtLeast(a: seq<int>, m: int, n: nat): (r: nat)
    requires n <= |a|
    ensures r <= n
  {
    if n == 0 then 0 else AtLeast(a, m, n - 1) + (if a[n - 1] >= m then 1 else 0)
  }

  /** `c` moves of `d` steps each. */
  function Times(d: nat, c: nat): nat
  {
    if c == 0 then 0 else Times(d, c - 1) + d
  }

  lemma {:induction false} TimesGrows(d: nat, c: nat, e: nat)
    requires c <= e
    ensures Times(d, c) <= Times(d, e)
    decreases e
  {
    if c < e {
      TimesGrows(d, c, e - 1);
    }
  }

  /**
   * Moving the meeting point right from `m` to `x` costs `x - m` more for
   * each crab at or left of `m` and saves at most `x - m` for each other crab.
   */
  lemma {:induction false} MoveRight(a: seq<int>, m: int, x: int, n: nat)
    requires n <= |a| && m <= x
    ensures Fuel1(a, x, n) + Times(x - m, n - AtMost(a, m, n)) >= Fuel1(a, m, n) + Times(x - m, AtMost(a, m, n))
  {
    if n > 0 {
      MoveRight(a, m, x, n - 1);
      var c := AtMost(a, m, n - 1);
      if a[n - 1] <= m {
        assert Times(x - m, c + 1) == Times(x - m, c) + (x - m);
      } else {
        assert Times(x - m, n - c) == Times(x - m, n - 1 - c) + (x - m);
      }
    }
  }

  lemma {:induction false} MoveLeft(a: seq<int>, m: int, x: int, n: nat)
    requires n <= |a| && x <= m
    ensures Fuel1(a, x, n) + Times(m - x, n - AtLeast(a, m, n)) >= Fuel1(a, m, n) + Times(m - x, AtLeast(a, m, n))
  {
    if n > 0 {
      MoveLeft(a, m, x, n - 1);
      var c := AtLeast(a, m, n - 1);
      if a[n - 1] >= m {
        assert Times(m - x, c + 1) == Times(m - x, c) + (m - x);
      } else {
        assert Times(m - x, n - c) == Times(m - x, n - 1 - c) + (m - x);
      }
    }
  }

  /**
   * A median, with at least half the crabs on each side counting itself, is
   * a cheapest part-1 meeting point: no whole position costs less.
   */
  lemma MedianCostsLeast(a: seq<int>, m: int, x: int)
    requires 2 * AtMost(a, m, |a|) >= |a| && 2 * AtLeast(a, m, |a|) >= |a|
    ensures Fuel1(a, m, |a|) <= Fuel1(a, x, |a|)
  {
    if m <= x {
      MoveRight(a, m, x, |a|);
      TimesGrows(x - m, |a| - AtMost(a, m, |a|), AtMost(a, m, |a|));
    } else {
      MoveLeft(a, m, x, |a|);
      TimesGrows(m - x, |a| - AtLeast(a, m, |a|), AtLeast(a, m, |a|));
    }
  }

  predicate Sorted(a: seq<int>)
  {
    forall i, j :: 0 <= i < j < |a| ==> a[i] <= a[j]
  }

  lemma {:induction false} AtMostSorted(a: seq<int>, k: nat, n: nat)
    requires Sorted(a) && k < n <= |a|
    ensures AtMost(a, a[k], n) >= k + 1
  {
    if n - 1 > k {
      AtMostSorted(a, k, n - 1);
    } else if k > 0 {
      AtMostFrom(a, k, k);
    }
  }

  lemma {:induction false} AtMostFrom(a: seq<int>, k: nat, n: nat)
    requires Sorted(a) && n <= k < |a|
    ensures AtMost(a, a[k], n) == n
  {
    if n > 0 {
      AtMostFrom(a, k, n - 1);
    }
  }

  lemma {:induction false} AtLeastSorted(a: seq<int>, k: nat, n: nat)
    requires Sorted(a) && k <= n <= |a| && k < |a|
    ensures AtLeast(a, a[k], n) >= n - k
  {
    if n > k {
      AtLeastSorted(a, k, n - 1);
    }
  }

  /** In sorted positions the middle crab, at index |a| / 2, is such a median. */
  lemma MiddleIsMedian(a: seq<int>)
    requires Sorted(a) && |a| > 0
    ensures 2 * AtMost(a, a[|a| / 2], |a|) >= |a| && 2 * AtLeast(a, a[|a| / 2], |a|) >= |a|
  {
    AtMostSorted(a, |a| / 2, |a|);
    AtLeastSorted(a, |a| / 2, |a|);
  }

  /** Part 1: the fuel for all crabs to meet at `meeting`. */
  method FuelNeededPart1(a: array<int>, meeting: int) returns (fuel: nat)
    ensures fuel == Fuel1(a[..], meeting, a.Length)
  {
    fuel := 0;
    var i := 0;
    while i < a.Length
      invariant 0 <= i <= a.Length && fuel == Fuel1(a[..], meeting, i)
    {
      fuel := fuel + Abs(a[i] - meeting);
      i := i + 1;
    }
  }

  /** Part 2: the cheaper of meeting at `below` and at `above`, the whole positions either side of the mean. */
  method FuelNeededPart2(a: array<int>, below: int, above: int) returns (fuel: nat)
    ensures fuel == Fuel2(a[..], below, a.Length) || fuel == Fuel2(a[..], above, a.Length)
    ensures fuel <= Fuel2(a[..], below, a.Length) && fuel <= Fuel2(a[..], above, a.Length)
  {
    var fuelBelow := 0;
    var i := 0;
    while i < a.Length
      invariant 0 <= i <= a.Length && fuelBelow == Fuel2(a[..], below, i)
    {
      var diff := Abs(a[i] - below);
      fuelBelow := fuelBelow + (diff * (diff + 1)) / 2;
      i := i + 1;
    }
    var fuelAbove := 0;
    i := 0;
    while i < a.Length
      invariant 0 <= i <= a.Length && fuelAbove == Fuel2(a[..], above, i)
    {
      var diff := Abs(a[i] - above);
      fuelAbove := fuelAbove + (diff * (diff + 1)) / 2;
      i := i + 1;
    }
    fuel := if fuelBelow < fuelAbove then fuelBelow else fuelAbove;
  }
}
