/**
 * Sonar sweep (src/day_01.c): how often the sum of a sliding window of `k`
 * depth readings is larger than the sum of the window one reading earlier.
 * Part 1 uses windows of one reading, part 2 windows of three.
 */
module Sonar {

  function Sum(s: seq<int>): int
  {
    if s == [] then 0 else s[0] + Sum(s[1..])
  }

  lemma {:induction false} SumSnoc(s: seq<int>, x: int)
    ensures Sum(s + [x]) == Sum(s) + x
  {
    if s != [] {
      assert (s + [x])[1..] == s[1..] + [x];
      SumSnoc(s[1..], x);
    }
  }

  /** The window ending at reading `i` is larger than the window ending at `i - 1`. */
  predicate Rises(a: seq<int>, k: nat, i: nat)
    requires 0 < k <= i < |a|
  {
    Sum(a[i - k + 1..i + 1]) > Sum(a[i - k..i])
  }

  /** The rising windows ending at readings `k .. n - 1`. */
  function Increases(a: seq<int>, k: nat, n: nat): nat
    requires 0 < k <= n <= |a|
    decreases n
  {
    if n == k then 0 else Increases(a, k, n - 1) + (if Rises(a, k, n - 1) then 1 else 0)
  }

  /** Readings `i` among `k .. n - 1` deeper than the reading `k` places before. */
  function Deeper(a: seq<int>, k: nat, n: nat): nat
    requires 0 < k <= n <= |a|
    decreases n
  {
    if n == k then 0 else Deeper(a, k, n - 1) + (if a[n - 1] > a[n - 1 - k] then 1 else 0)
  }

  /**
   * The two windows share all readings but the newest of one and the oldest
   * of the other, so the window comparison is a comparison of those two.
   */
  lemma RisesIsDeeper(a: seq<int>, k: nat, i: nat)
    requires 0 < k <= i < |a|
    ensures Rises(a, k, i) <==> a[i] > a[i - k]
  {
    var shared := a[i - k + 1..i];
    assert a[i - k + 1..i + 1] == shared + [a[i]];
    assert a[i - k..i] == [a[i - k]] + shared;
    SumSnoc(shared, a[i]);
  }

  /** The count of rising windows is the count of readings deeper than the one `k` before. */
  lemma {:induction false} IncreasesIsDeeper(a: seq<int>, k: nat, n: nat)
    requires 0 < k <= n <= |a|
    ensures Increases(a, k, n) == Deeper(a, k, n)
    decreases n
  {
    if n > k {
      IncreasesIsDeeper(a, k, n - 1);
      RisesIsDeeper(a, k, n - 1);
    }
  }

  lemma {:induction false} IncreasesBound(a: seq<int>, k: nat, n: nat)
    requires 0 < k <= n <= |a|
    ensures Increases(a, k, n) <= n - k
    decreases n
  {
    if n > k {
      IncreasesBound(a, k, n - 1);
    }
  }

  /** The sums of the window ending before reading `i` and of the window ending at it. */
  method WindowSums(a: array<int>, ghost s: seq<int>, k: nat, i: nat) returns (previous: int, current: int)
    requires s == a[..] && 0 < k <= i < a.Length
    ensures previous == Sum(s[i - k..i]) && current == Sum(s[i - k + 1..i + 1])
  {
    previous := 0;
    current := 0;
    var j := 0;
    while j < k
      invariant 0 <= j <= k
      invariant previous == Sum(s[i - j..i]) && current == Sum(s[i - j + 1..i + 1])
    {
      assert s[i - j - 1..i][1..] == s[i - j..i];
      assert s[i - j..i + 1][1..] == s[i - j + 1..i + 1];
      previous := previous + a[i - j - 1];
      current := current + a[i - j];
      j := j + 1;
    }
  }

  /** Counts the windows of `k` readings whose sum is larger than the window before. */
  method FindNumberIncreasing(a: array<int>, k: nat) returns (count: nat)
    requires 0 < k <= a.Length
    ensures count == Increases(a[..], k, a.Length)
    ensures count <= a.Length - k
  {
    ghost var s := a[..];
    count := 0;
    var i := k;
    while i < a.Length
      invariant k <= i <= a.Length
      invariant count == Increases(s, k, i)
    {
      var previous, current := WindowSums(a, s, k, i);
      assert Increases(s, k, i + 1) == Increases(s, k, i) + if current > previous then 1 else 0;
      if current > previous {
        count := count + 1;
      }
      i := i + 1;
    }
    IncreasesBound(s, k, a.Length);
  }
}
