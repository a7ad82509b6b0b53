/**
 * Lanternfish (src/day_06.c): the school is kept as nine counters, one per
 * timer value 0..8. Each day every counter moves down one timer; the fish at
 * 0 restart at 6 and each spawns a new fish at 8.
 */
module Lanternfish {

  /** Number of timer values, 0 .. 8. */
  const States := 9

  /** The counters of a school: how many fish have each timer value. */
  type Buckets = b: seq<nat> | |b| == States witness seq(States, _ => 0)

  /** The counters of a school given fish by fish. */
  function Bucket(timers: seq<nat>): (b: Buckets)
    ensures forall v :: 0 <= v < States ==> b[v] == multiset(timers)[v]
  {
    seq(States, v => multiset(timers)[v])
  }

  /** The counters after one day. */
  function Day(b: Buckets): (r: Buckets)
    ensures r[6] == b[7] + b[0] && r[8] == b[0]
    ensures forall v :: 0 <= v < 8 && v != 6 ==> r[v] == b[v + 1]
  {
    seq(States, v requires 0 <= v < States => if v == 6 then b[7] + b[0] else if v == 8 then b[0] else b[v + 1])
  }

  function Days(b: Buckets, n: nat): Buckets
  {
    if n == 0 then b else Day(Days(b, n - 1))
  }

  function Total(s: seq<nat>): nat
  {
    TotalTo(s, |s|)
  }

  /** The sum of the first `n` counters. */
  function TotalTo(s: seq<nat>, n: nat): nat
    requires n <= |s|
  {
    if n == 0 then 0 else TotalTo(s, n - 1) + s[n - 1]
  }

  /** One day of the school fish by fish: a fish at 0 becomes a 6 and brings in an 8, any other counts down. */
  function Tick(timers: seq<nat>): seq<nat>
  {
    if timers == [] then []
    else
      var t := timers[|timers| - 1];
      Tick(timers[..|timers| - 1]) + Hatch(t)
  }

  /** What one fish with timer `t` becomes after a day. */
  function Hatch(t: nat): seq<nat>
  {
    if t == 0 then [6, 8] else [t - 1]
  }

  function Ind(b: bool): nat
  {
    if b then 1 else 0
  }

  /** The fish with timer `v` that one fish with timer `t` leaves after a day. */
  lemma HatchCount(t: nat, v: nat)
    requires t < States
    ensures multiset(Hatch(t))[v] == if v == 6 then Ind(t == 7) + Ind(t == 0) else if v == 8 then Ind(t == 0) else Ind(t == v + 1)
  {
    if t == 0 {
      assert multiset(Hatch(t)) == multiset{6, 8};
    } else {
      assert multiset(Hatch(t)) == multiset{t - 1};
    }
  }

  lemma SnocCount(pre: seq<nat>, t: nat, x: nat)
    ensures multiset(pre + [t])[x] == multiset(pre)[x] + Ind(t == x)
  {
    assert multiset(pre + [t]) == multiset(pre) + multiset{t};
  }

  predicate Timers(timers: seq<nat>)
  {
    forall k :: 0 <= k < |timers| ==> timers[k] < States
  }

  /** Fish at timer `v` after one day, counted from the fish before it. */
  lemma {:induction false} TickCount(timers: seq<nat>, v: nat)
    requires Timers(timers) && v < States
    ensures var m := multiset(timers);
      multiset(Tick(timers))[v] == if v == 6 then m[7] + m[0] else if v == 8 then m[0] else m[v + 1]
  {
    if timers != [] {
      var pre := timers[..|timers| - 1];
      var t := timers[|timers| - 1];
      assert timers == pre + [t];
      assert t < States;
      TickCount(pre, v);
      assert Tick(timers) == Tick(pre) + Hatch(t);
      assert multiset(Tick(timers)) == multiset(Tick(pre)) + multiset(Hatch(t));
      HatchCount(t, v);
      SnocCount(pre, t, 0);
      SnocCount(pre, t, 7);
      SnocCount(pre, t, v + 1);
    }
  }

  /** Counting by timer and then stepping the counters is stepping every fish and then counting. */
  lemma {:induction false} TickIsDay(timers: seq<nat>)
    requires Timers(timers)
    ensures Bucket(Tick(timers)) == Day(Bucket(timers))
  {
    forall v | 0 <= v < States
      ensures Bucket(Tick(timers))[v] == Day(Bucket(timers))[v]
    {
      TickCount(timers, v);
    }
  }

  lemma TotalNine(b: Buckets)
    ensures Total(b) == b[0] + b[1] + b[2] + b[3] + b[4] + b[5] + b[6] + b[7] + b[8]
  {
    assert TotalTo(b, 1) == b[0];
    assert TotalTo(b, 2) == TotalTo(b, 1) + b[1];
    assert TotalTo(b, 3) == TotalTo(b, 2) + b[2];
    assert TotalTo(b, 4) == TotalTo(b, 3) + b[3];
    assert TotalTo(b, 5) == TotalTo(b, 4) + b[4];
    assert TotalTo(b, 6) == TotalTo(b, 5) + b[5];
    assert TotalTo(b, 7) == TotalTo(b, 6) + b[6];
    assert TotalTo(b, 8) == TotalTo(b, 7) + b[7];
    assert TotalTo(b, 9) == TotalTo(b, 8) + b[8];
  }

  /** A day adds exactly the fish whose timer was 0, so the school never shrinks. */
  lemma DayTotal(b: Buckets)
    ensures Total(Day(b)) == Total(b) + b[0]
  {
    TotalNine(b);
    TotalNine(Day(b));
  }

  /** The counters of a school of fish with timers 0 .. 8 hold every fish. */
  lemma {:induction false} BucketTotal(timers: seq<nat>)
    requires Timers(timers)
    ensures Total(Bucket(timers)) == |timers|
  {
    if timers == [] {
      TotalNine(Bucket(timers));
    } else {
      var pre := timers[..|timers| - 1];
      var t := timers[|timers| - 1];
      assert timers == pre + [t];
      BucketTotal(pre);
      BucketSnoc(pre, t);
      TotalBump(Bucket(pre), t);
    }
  }

  /** One more fish with timer `t` adds one to counter `t`. */
  lemma BucketSnoc(pre: seq<nat>, t: nat)
    requires t < States
    ensures Bucket(pre + [t]) == Bucket(pre)[t := Bucket(pre)[t] + 1]
  {
    forall v | 0 <= v < States
      ensures Bucket(pre + [t])[v] == Bucket(pre)[t := Bucket(pre)[t] + 1][v]
    {
      SnocCount(pre, t, v);
    }
  }

  lemma TotalBump(b: Buckets, t: nat)
    requires t < States
    ensures Total(b[t := b[t] + 1]) == Total(b) + 1
  {
    TotalNine(b);
    TotalNine(b[t := b[t] + 1]);
  }

  /** Counts the fish into the nine counters. */
  method ParseFish(timers: seq<nat>) returns (fish: array<nat>)
    requires Timers(timers)
    ensures fresh(fish) && fish.Length == States
    ensures fish[..] == Bucket(timers)
  {
    fish := new nat[States](_ => 0);
    var i := 0;
    while i < |timers|
      invariant 0 <= i <= |timers|
      invariant fish[..] == Bucket(timers[..i])
    {
      assert timers[..i + 1] == timers[..i] + [timers[i]];
      fish[timers[i]] := fish[timers[i]] + 1;
      i := i + 1;
    }
    assert timers[..i] == timers;
  }

  /** Moves every counter down one day, fish at 0 restarting at 6 and spawning at 8. */
  method IterateDay(fish: array<nat>)
    requires fish.Length == States
    modifies fish
    ensures fish[..] == Day(old(fish[..]))
  {
    var next := new nat[States](_ => 0);
    var i := 0;
    while i < States
      invariant 0 <= i <= States && fish[..] == old(fish[..])
      invariant next[6] == (if i > 7 then fish[7] else 0) + (if i > 0 then fish[0] else 0)
      invariant next[8] == if i > 0 then fish[0] else 0
      invariant forall v :: 0 <= v < 8 && v != 6 ==> next[v] == if v + 1 < i then fish[v + 1] else 0
    {
      if i == 0 {
        next[6] := next[6] + fish[0];
        next[8] := next[8] + fish[0];
      } else {
        next[i - 1] := next[i - 1] + fish[i];
      }
      i := i + 1;
    }
    forall v | 0 <= v < States {
      fish[v] := next[v];
    }
  }

  /** Runs the counters forward `days` days. */
  method Simulate(fish: array<nat>, days: nat)
    requires fish.Length == States
    modifies fish
    ensures fish[..] == Days(old(fish[..]), days)
  {
    var day := 0;
    while day < days
      invariant 0 <= day <= days && fish[..] == Days(old(fish[..]), day)
    {
      IterateDay(fish);
      day := day + 1;
    }
  }

  /** The number of fish: the sum of the counters. */
  method NumberOfFish(fish: array<nat>) returns (n: nat)
    ensures n == Total(fish[..])
  {
    n := 0;
    var i := 0;
    while i < fish.Length
      invariant 0 <= i <= fish.Length && n == TotalTo(fish[..], i)
    {
      n := n + fish[i];
      i := i + 1;
    }
  }
}
