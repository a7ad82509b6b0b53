/**
 * Trick shot (src/day_17.c): a probe launched from (0, 0) with a whole
 * velocity moves by its velocity each step; drag pulls the x-velocity
 * toward 0 and gravity lowers the y-velocity by 1. The search counts the
 * launch velocities in its scanned ranges that reach the target area and
 * reports the greatest peak height among them.
 */
module Trickshot {
  import opened Wrappers

  /** The target area, both ranges inclusive. */
  datatype Area = Area(xStart: int, xEnd: int, yStart: int, yEnd: int)

  datatype Probe = Probe(x: int, y: int, vx: int, vy: int)

  /** The search's two results: the greatest height reached and the number of hitting velocities. */
  datatype Outcome = Outcome(highest: int, count: nat)

  /** The `assert(false)` of a target whose y-range holds 0: every y-velocity would hit. */
  datatype SearchError = ZeroInYRange

  function Abs(x: int): nat
  {
    if x < 0 then -x else x
  }

  function Max(a: int, b: int): int
  {
    if a > b then a else b
  }

  /** 0 + 1 + … + n, as the C code computes it. */
  function SumUpTo(n: int): int
  {
    (n * (n + 1)) / 2
  }

  /** 1 + 2 + … + n, step by step. */
  function StepSum(n: nat): nat
  {
    if n == 0 then 0 else StepSum(n - 1) + n
  }

  /** Going up one adds the new number, for every whole n. */
  lemma SumUpToStep(n: int)
    ensures SumUpTo(n) == SumUpTo(n - 1) + n
  {
    assert n * (n + 1) == (n - 1) * n + 2 * n;
  }

  lemma {:induction false} SumUpToIsStepSum(n: nat)
    ensures SumUpTo(n) == StepSum(n)
  {
    if n > 0 {
      SumUpToIsStepSum(n - 1);
      SumUpToStep(n);
    }
  }

  /** The sum is never negative, and reaches at least n for every n ≥ 0. */
  lemma {:induction false} SumUpToBounds(n: int)
    ensures SumUpTo(n) >= 0
    ensures n >= 0 ==> SumUpTo(n) >= n
    decreases Abs(n)
  {
    if n > 0 {
      SumUpToBounds(n - 1);
      SumUpToStep(n);
    } else if n < 0 {
      SumUpToBounds(n + 1);
      SumUpToStep(n + 1);
    }
  }

  // ---------------------------------------------------------- trajectory

  /** One step: move by the velocity; the x-velocity drops by 1 while positive and is 0 otherwise; the y-velocity drops by 1. */
  function Step(p: Probe): Probe
  {
    Probe(p.x + p.vx, p.y + p.vy, if p.vx > 0 then p.vx - 1 else 0, p.vy - 1)
  }

  /** The probe after `t` steps from launch. */
  function At(vx: int, vy: int, t: nat): Probe
  {
    if t == 0 then Probe(0, 0, vx, vy) else Step(At(vx, vy, t - 1))
  }

  predicate InArea(a: Area, p: Probe)
  {
    a.xStart <= p.x <= a.xEnd && a.yStart <= p.y <= a.yEnd
  }

  /** The simulation goes on: not past the target's farthest |x|, and not yet falling below its lowest y. */
  predicate Flying(a: Area, p: Probe)
  {
    Abs(p.x) <= Max(Abs(a.xStart), Abs(a.xEnd)) && (p.vy >= 0 || p.y >= a.yStart)
  }

  /** A launch pointing away from the target, which the C code rejects without simulating. */
  predicate WrongWay(a: Area, vx: int, vy: int)
  {
    (vx < 0 && a.xStart > 0) || (vx > 0 && a.xEnd < 0) || (vy < 0 && a.yStart > 0)
  }

  /** The launch hits: it is not rejected, and some position inside the area comes while the simulation still goes on. */
  ghost predicate Hits(a: Area, vx: int, vy: int)
  {
    !WrongWay(a, vx, vy) && exists t: nat :: InArea(a, At(vx, vy, t)) && forall s: nat :: s <= t ==> Flying(a, At(vx, vy, s))
  }

  lemma {:induction false} VelocityAt(vx: int, vy: int, t: nat)
    ensures At(vx, vy, t).vy == vy - t
    ensures vx <= 0 && t > 0 ==> At(vx, vy, t).vx == 0 && At(vx, vy, t).x == vx
    ensures vx >= 0 ==> At(vx, vy, t).vx >= 0 && At(vx, vy, t).x >= 0
  {
    if t > 0 {
      VelocityAt(vx, vy, t - 1);
    }
  }

  lemma {:induction false} FallsWhenDown(vx: int, vy: int, t: nat)
    requires vy <= 0
    ensures At(vx, vy, t).y <= 0
  {
    if t > 0 {
      FallsWhenDown(vx, vy, t - 1);
      VelocityAt(vx, vy, t - 1);
    }
  }

  /** The rejection is sound: a launch pointing away from the target never enters it. */
  lemma WrongWayNeverInArea(a: Area, vx: int, vy: int, t: nat)
    requires WrongWay(a, vx, vy)
    ensures !InArea(a, At(vx, vy, t))
  {
    VelocityAt(vx, vy, t);
    if vy < 0 && a.yStart > 0 {
      FallsWhenDown(vx, vy, t);
    }
  }

  /** Height plus the climb the remaining y-velocity still gives is the climb of the launch velocity. */
  lemma {:induction false} HeightPotential(vx: int, vy: int, t: nat)
    ensures At(vx, vy, t).y + SumUpTo(vy - t) == SumUpTo(vy)
  {
    VelocityAt(vx, vy, t);
    if t > 0 {
      HeightPotential(vx, vy, t - 1);
      VelocityAt(vx, vy, t - 1);
      SumUpToStep(vy - (t - 1));
    }
  }

  /** The peak the search credits a hit with: the climb of a positive y-velocity, 0 otherwise. */
  function Peak(vy: int): int
  {
    if vy > 0 then SumUpTo(vy) else 0
  }

  /** The peak is the greatest height of the trajectory, and it is reached. */
  lemma PeakIsHighest(vx: int, vy: int, t: nat)
    ensures At(vx, vy, t).y <= Peak(vy)
    ensures At(vx, vy, if vy > 0 then vy else 0).y == Peak(vy)
  {
    if vy > 0 {
      HeightPotential(vx, vy, t);
      SumUpToBounds(vy - t);
      HeightPotential(vx, vy, vy);
    } else {
      FallsWhenDown(vx, vy, t);
    }
  }

  /** Simulates the launch until it is inside the area or can no longer reach it. */
  method DoesHit(a: Area, vx: int, vy: int) returns (hit: bool)
    ensures hit == Hits(a, vx, vy)
  {
    if (vx < 0 && a.xStart > 0) || (vx > 0 && a.xEnd < 0) || (vy < 0 && a.yStart > 0) {
      return false;
    }
    var p := Probe(0, 0, vx, vy);
    ghost var t: nat := 0;
    hit := false;
    while Abs(p.x) <= Max(Abs(a.xStart), Abs(a.xEnd)) && (p.vy >= 0 || p.y >= a.yStart)
      invariant p == At(vx, vy, t) && !hit
      invariant forall s: nat :: s < t ==> Flying(a, At(vx, vy, s)) && !InArea(a, At(vx, vy, s))
      decreases if p.vy >= 0 then p.vy + 1 else 0, if p.y >= a.yStart then p.y - a.yStart + 1 else 0
    {
      if a.xStart <= p.x <= a.xEnd && a.yStart <= p.y <= a.yEnd {
        hit := true;
        assert forall s: nat :: s <= t ==> Flying(a, At(vx, vy, s));
        return;
      }
      p := Probe(p.x + p.vx, p.y + p.vy, if p.vx > 0 then p.vx - 1 else 0, p.vy - 1);
      t := t + 1;
    }
    forall u: nat | InArea(a, At(vx, vy, u))
      ensures !forall s: nat :: s <= u ==> Flying(a, At(vx, vy, s))
    {
      assert !Flying(a, At(vx, vy, t));
    }
  }

  // --------------------------------------------------------------- search

  /** The least n ≥ 0 whose sum 0 + 1 + … + n reaches `v`. */
  function LeastReaching(v: int): (n: nat)
    ensures SumUpTo(n) >= v && forall k: nat :: k < n ==> SumUpTo(k) < v
  {
    ReachingFrom(v, 0)
  }

  function ReachingFrom(v: int, n: nat): (r: nat)
    requires forall k: nat :: k < n ==> SumUpTo(k) < v
    ensures r >= n && SumUpTo(r) >= v && forall k: nat :: k < r ==> SumUpTo(k) < v
    decreases if v > n then v - n else 0
  {
    SumUpToBounds(n);
    if v > SumUpTo(n) then ReachingFrom(v, n + 1) else n
  }

  /** The searched ranges of launch velocities: (min x, max x, min y, max y). */
  function Ranges(a: Area): (int, int, int, int)
  {
    (if a.xStart < 0 then a.xStart else LeastReaching(a.xStart),
     if a.xEnd < 0 then LeastReaching(a.xStart) else a.xEnd,
     if a.yStart < 0 then a.yStart else LeastReaching(a.yStart),
     if a.yEnd < 0 then Abs(a.yStart + 1) else a.yEnd)
  }

  /** The hitting launches in the ranges, scanned x-major up to (x, y) exclusive. */
  ghost function HitsBefore(a: Area, r: (int, int, int, int), x: int, y: int): set<(int, int)>
  {
    set vx: int, vy: int | r.0 <= vx <= r.1 && r.2 <= vy <= r.3 && (vx < x || (vx == x && vy < y)) && Hits(a, vx, vy) :: (vx, vy)
  }

  /** All hitting launches in the scanned ranges. */
  ghost function HitSet(a: Area): set<(int, int)>
  {
    var r := Ranges(a);
    HitsBefore(a, r, r.1 + 1, r.2)
  }

  method FindLeastReaching(v: int) returns (n: nat)
    ensures n == LeastReaching(v)
  {
    n := 0;
    while v > SumUpTo(n)
      invariant forall k: nat :: k < n ==> SumUpTo(k) < v
      decreases v - n
    {
      SumUpToBounds(n);
      n := n + 1;
    }
    assert n == ReachingFrom(v, n);
    LeastReachingIsUnique(v, n);
  }

  lemma LeastReachingIsUnique(v: int, n: nat)
    requires SumUpTo(n) >= v && forall k: nat :: k < n ==> SumUpTo(k) < v
    ensures n == LeastReaching(v)
  {
    var m := LeastReaching(v);
    assert m < n ==> SumUpTo(m) < v;
    assert n < m ==> SumUpTo(n) < v;
  }

  /** Scans one launch: counts it and raises the height when it hits. */
  method ScanOne(a: Area, r: (int, int, int, int), x: int, y: int, count: nat, highest: int)
    returns (count': nat, highest': int)
    requires r.0 <= x <= r.1 && r.2 <= y <= r.3
    requires count == |HitsBefore(a, r, x, y)|
    requires forall p :: p in HitsBefore(a, r, x, y) ==> Peak(p.1) <= highest
    requires highest == a.yStart || exists p :: p in HitsBefore(a, r, x, y) && Peak(p.1) == highest
    ensures count' == |HitsBefore(a, r, x, y + 1)| && highest' >= highest
    ensures forall p :: p in HitsBefore(a, r, x, y + 1) ==> Peak(p.1) <= highest'
    ensures highest' == a.yStart || exists p :: p in HitsBefore(a, r, x, y + 1) && Peak(p.1) == highest'
  {
    var hit := DoesHit(a, x, y);
    count', highest' := count, highest;
    if hit {
      assert HitsBefore(a, r, x, y + 1) == HitsBefore(a, r, x, y) + {(x, y)};
      count' := count + 1;
      var height := if y > 0 then SumUpTo(y) else 0;
      if height > highest {
        highest' := height;
      }
    } else {
      assert HitsBefore(a, r, x, y + 1) == HitsBefore(a, r, x, y);
    }
  }

  lemma RowDone(a: Area, r: (int, int, int, int), x: int, y: int)
    requires y > r.3 && y >= r.2
    ensures HitsBefore(a, r, x, y) == HitsBefore(a, r, x + 1, r.2)
  {
    forall p | p in HitsBefore(a, r, x + 1, r.2)
      ensures p in HitsBefore(a, r, x, y)
    {
    }
  }

  /** Scans the y-velocities minY .. maxY of one x-velocity. */
  method ScanRow(a: Area, r: (int, int, int, int), x: int, count: nat, highest: int)
    returns (count': nat, highest': int)
    requires r.0 <= x <= r.1
    requires count == |HitsBefore(a, r, x, r.2)| && highest >= a.yStart
    requires forall p :: p in HitsBefore(a, r, x, r.2) ==> Peak(p.1) <= highest
    requires highest == a.yStart || exists p :: p in HitsBefore(a, r, x, r.2) && Peak(p.1) == highest
    ensures count' == |HitsBefore(a, r, x + 1, r.2)| && highest' >= a.yStart
    ensures forall p :: p in HitsBefore(a, r, x + 1, r.2) ==> Peak(p.1) <= highest'
    ensures highest' == a.yStart || exists p :: p in HitsBefore(a, r, x + 1, r.2) && Peak(p.1) == highest'
  {
    count', highest' := count, highest;
    var y := r.2;
    while y <= r.3
      invariant r.2 <= y <= r.3 + 1 || (y == r.2 && r.2 > r.3)
      invariant count' == |HitsBefore(a, r, x, y)| && highest' >= a.yStart
      invariant forall p :: p in HitsBefore(a, r, x, y) ==> Peak(p.1) <= highest'
      invariant highest' == a.yStart || exists p :: p in HitsBefore(a, r, x, y) && Peak(p.1) == highest'
      decreases r.3 + 1 - y
    {
      count', highest' := ScanOne(a, r, x, y, count', highest');
      y := y + 1;
    }
    RowDone(a, r, x, y);
  }

  /** The scanned ranges, or the failure for a y-range holding 0. */
  method FindRanges(a: Area) returns (res: Result<(int, int, int, int), SearchError>)
    ensures res.Err? <==> a.yStart <= 0 <= a.yEnd
    ensures res.Ok? ==> res.value == Ranges(a)
  {
    var minX, maxX, minY, maxY: int;
    if a.xStart < 0 {
      minX := a.xStart;
    } else {
      minX := FindLeastReaching(a.xStart);
    }
    if a.xEnd < 0 {
      maxX := FindLeastReaching(a.xStart);
    } else {
      maxX := a.xEnd;
    }
    if a.yStart < 0 {
      minY := a.yStart;
    } else {
      minY := FindLeastReaching(a.yStart);
    }
    if a.yStart <= 0 && a.yEnd >= 0 {
      return Err(ZeroInYRange);
    } else if a.yEnd < 0 {
      maxY := Abs(a.yStart + 1);
    } else {
      maxY := a.yEnd;
    }
    res := Ok((minX, maxX, minY, maxY));
  }

  /**
   * The search: fails when the target's y-range holds 0; otherwise counts
   * the hitting launches of the scanned ranges and returns the greatest of
   * the target's lowest y and their peaks.
   */
  method FindGreatestHeight(a: Area) returns (res: Result<Outcome, SearchError>)
    ensures res.Err? <==> a.yStart <= 0 <= a.yEnd
    ensures res.Ok? ==> res.value.count == |HitSet(a)|
    ensures res.Ok? ==> res.value.highest >= a.yStart
    ensures res.Ok? ==> forall p :: p in HitSet(a) ==> Peak(p.1) <= res.value.highest
    ensures res.Ok? ==> res.value.highest == a.yStart || exists p :: p in HitSet(a) && Peak(p.1) == res.value.highest
  {
    var ranges := FindRanges(a);
    if ranges.Err? {
      return Err(ranges.error);
    }
    var r := ranges.value;
    var highest := a.yStart;
    var count := 0;
    var x := r.0;
    assert HitsBefore(a, r, x, r.2) == {};
    while x <= r.1
      invariant r.0 <= x <= r.1 + 1 || (x == r.0 && r.0 > r.1)
      invariant count == |HitsBefore(a, r, x, r.2)| && highest >= a.yStart
      invariant forall p :: p in HitsBefore(a, r, x, r.2) ==> Peak(p.1) <= highest
      invariant highest == a.yStart || exists p :: p in HitsBefore(a, r, x, r.2) && Peak(p.1) == highest
      decreases r.1 + 1 - x
    {
      count, highest := ScanRow(a, r, x, count, highest);
      x := x + 1;
    }
    assert HitsBefore(a, r, x, r.2) == HitSet(a);
    res := Ok(Outcome(highest, count));
  }
}
