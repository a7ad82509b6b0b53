/**
 * Magnitude, the part-1 running sum and the part-2 maximum over ordered
 * pairs of snailfish numbers (src/day_18.c).
 */
module SnailfishSum {
  import opened SnailfishNum
  import opened SnailfishReduce

  /** 3 times the magnitude of the left side plus 2 times that of the right; a literal is its value. */
  function Magnitude(t: Num): nat
  {
    match t
    case Lit(v) => v
    case Pair(l, r) => 3 * Magnitude(l) + 2 * Magnitude(r)
  }

  /* ---------- Magnitude as a weighted sum of the literals ---------- */

  function Scale(s: seq<nat>, c: nat): (r: seq<nat>)
    ensures |r| == |s|
  {
    if s == [] then [] else [c * s[0]] + Scale(s[1..], c)
  }

  /**
   * The multiplier of every literal, parallel to Lits(t): 3 for each step
   * into a left side and 2 for each step into a right side on its path.
   */
  function Multipliers(t: Num): (ms: seq<nat>)
    ensures |ms| == |Lits(t)|
  {
    match t
    case Lit(_) => [1]
    case Pair(l, r) => Scale(Multipliers(l), 3) + Scale(Multipliers(r), 2)
  }

  function Dot(a: seq<nat>, b: seq<nat>): nat
    requires |a| == |b|
  {
    if a == [] then 0 else a[0] * b[0] + Dot(a[1..], b[1..])
  }

  lemma {:induction false} DotConcat(a: seq<nat>, b: seq<nat>, c: seq<nat>, d: seq<nat>)
    requires |a| == |c| && |b| == |d|
    ensures Dot(a + b, c + d) == Dot(a, c) + Dot(b, d)
  {
    if a == [] {
      assert a + b == b && c + d == d;
    } else {
      assert (a + b)[1..] == a[1..] + b && (c + d)[1..] == c[1..] + d;
      DotConcat(a[1..], b, c[1..], d);
    }
  }

  lemma {:induction false} DotScale(a: seq<nat>, m: seq<nat>, c: nat)
    requires |a| == |m|
    ensures Dot(a, Scale(m, c)) == c * Dot(a, m)
  {
    if a != [] {
      DotScale(a[1..], m[1..], c);
      assert Scale(m, c)[1..] == Scale(m[1..], c);
      assert a[0] * (c * m[0]) == c * (a[0] * m[0]);
      assert c * (a[0] * m[0]) + c * Dot(a[1..], m[1..]) == c * (a[0] * m[0] + Dot(a[1..], m[1..]));
    }
  }

  /** The magnitude is the sum of the literals, each times its multiplier. */
  lemma {:induction false} MagnitudeIsWeightedSum(t: Num)
    ensures Magnitude(t) == Dot(Lits(t), Multipliers(t))
  {
    match t
    case Lit(v) =>
      assert Dot([v], [1]) == v * 1 + Dot([], []);
    case Pair(l, r) =>
      MagnitudeIsWeightedSum(l);
      MagnitudeIsWeightedSum(r);
      DotConcat(Lits(l), Lits(r), Scale(Multipliers(l), 3), Scale(Multipliers(r), 2));
      DotScale(Lits(l), Multipliers(l), 3);
      DotScale(Lits(r), Multipliers(r), 2);
  }

  lemma {:induction false} MagnitudeExample()
    ensures Magnitude(Pair(Pair(Lit(1), Lit(2)), Pair(Pair(Lit(3), Lit(4)), Lit(5)))) == 143
  {
  }

  /* ---------- Part 1: the running sum ---------- */

  /** nums[0] + nums[1] + ... added from the left; a single number is left as it is. */
  function FoldSum(nums: seq<Num>): (r: Num)
    requires |nums| >= 1
  {
    if |nums| == 1 then nums[0] else Reduced(Pair(FoldSum(nums[..|nums| - 1]), nums[|nums| - 1]))
  }

  /** Every sum of two or more numbers is reduced. */
  lemma {:induction false} FoldSumReduced(nums: seq<Num>)
    requires |nums| >= 2
    ensures IsReduced(FoldSum(nums))
  {
    ReducedIsReduced(Pair(FoldSum(nums[..|nums| - 1]), nums[|nums| - 1]));
  }

  /** The part-1 loop of the runner: start from a copy of nums[0] and add each further number. */
  method SumAll(nums: seq<Num>) returns (r: Num)
    requires |nums| >= 1
    ensures r == FoldSum(nums)
  {
    r := nums[0];
    assert nums[..1] == [nums[0]];
    for i := 1 to |nums|
      invariant r == FoldSum(nums[..i])
    {
      r := Add(r, nums[i]);
      assert nums[..i + 1][..i] == nums[..i];
    }
    assert nums[..|nums|] == nums;
  }

  /* ---------- Part 2: the largest magnitude of a sum of two ---------- */

  function SumMagnitude(a: Num, b: Num): nat
  {
    Magnitude(Reduced(Pair(a, b)))
  }

  /**
   * find_maximum_magnitude_of_sums: the largest magnitude of nums[i] + nums[j]
   * over ordered pairs i != j, or 0 when there is no such pair.
   */
  method MaxMagnitude(nums: seq<Num>) returns (m: nat)
    ensures forall i, j :: 0 <= i < |nums| && 0 <= j < |nums| && i != j ==> SumMagnitude(nums[i], nums[j]) <= m
    ensures |nums| >= 2 ==> exists i, j :: 0 <= i < |nums| && 0 <= j < |nums| && i != j && m == SumMagnitude(nums[i], nums[j])
    ensures |nums| < 2 ==> m == 0
  {
    var n := |nums|;
    m := 0;
    ghost var found, wi, wj := false, 0, 0;
    for i := 0 to n
      invariant forall i', j :: 0 <= i' < i && 0 <= j < n && i' != j ==> SumMagnitude(nums[i'], nums[j]) <= m
      invariant found ==> wi < n && wj < n && wi != wj && m == SumMagnitude(nums[wi], nums[wj])
      invariant !found ==> m == 0
      invariant found ==> n >= 2
      invariant i >= 1 && n >= 2 ==> found
    {
      for j := 0 to n
        invariant forall i', j' :: 0 <= i' < i && 0 <= j' < n && i' != j' ==> SumMagnitude(nums[i'], nums[j']) <= m
        invariant forall j' :: 0 <= j' < j && i != j' ==> SumMagnitude(nums[i], nums[j']) <= m
        invariant found ==> wi < n && wj < n && wi != wj && m == SumMagnitude(nums[wi], nums[wj])
        invariant !found ==> m == 0
        invariant found ==> n >= 2
        invariant i >= 1 && n >= 2 ==> found
        invariant i == 0 && j >= 2 ==> found
      {
        if i != j {
          var sum := Add(nums[i], nums[j]);
          var magnitude := Magnitude(sum);
          if magnitude > m {
            m := magnitude;
            wi, wj := i, j;
          } else if !found {
            wi, wj := i, j;
          }
          found := true;
        }
      }
    }
  }
}
