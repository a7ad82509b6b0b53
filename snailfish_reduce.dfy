/**
 * Reduction, addition and magnitude of snailfish numbers (src/day_18.c).
 *
 * Reduction repeats "explode the leftmost explodable pair, or else split the
 * leftmost literal of at least 10" until neither applies. The C loop carries
 * no termination argument; here termination is proved with the measure
 * (Cost of the leaf depths, Potential, PairCount), ordered lexicographically:
 *   - Cost charges every literal above depth 4, so a split there lowers it
 *     and nothing raises it;
 *   - Potential weighs the literals of the fully exploded tree by position,
 *     so it is unchanged by an explosion and lowered by a split at depth 4,
 *     whose halves the following explosion hands to lighter neighbours;
 *   - PairCount drops with every explosion.
 */
module SnailfishReduce {
  import opened Wrappers
  import opened SnailfishNum

  /* ---------- Cost: literals above depth 4 ---------- */

  /** 2^(4-D) - 1 for a literal at depth D <= 4, so that splitting it costs exactly one less. */
  function LeafCost(depth: nat): nat
  {
    if depth == 0 then 15 else if depth == 1 then 7 else if depth == 2 then 3 else if depth == 3 then 1 else 0
  }

  function Cost(ds: seq<nat>): nat
  {
    if ds == [] then 0 else LeafCost(ds[0]) + Cost(ds[1..])
  }

  lemma {:induction false} CostConcat(a: seq<nat>, b: seq<nat>)
    ensures Cost(a + b) == Cost(a) + Cost(b)
  {
    if a == [] {
      assert a + b == b;
    } else {
      assert (a + b)[1..] == a[1..] + b;
      CostConcat(a[1..], b);
    }
  }

  lemma {:induction false} CostThree(a: seq<nat>, m: seq<nat>, b: seq<nat>)
    ensures Cost(a + m + b) == Cost(a) + Cost(m) + Cost(b)
  {
    CostConcat(a + m, b);
    CostConcat(a, m);
  }

  /** Collapsing a deep sibling pair into one literal never raises the cost. */
  lemma {:induction false} CostCollapsed(ds: seq<nat>, i: nat)
    requires i + 1 < |ds| && ds[i] >= 5
    ensures Cost(Collapsed(ds, i)) <= Cost(ds)
  {
    var a, b := ds[..i], ds[i + 2..];
    assert ds == a + [ds[i], ds[i + 1]] + b;
    CostThree(a, [ds[i], ds[i + 1]], b);
    CostThree(a, [ds[i] - 1], b);
    assert Cost([ds[i] - 1]) == 0;
  }

  /** Splitting a literal above depth 4 lowers the cost; at depth 4 or deeper it keeps it. */
  lemma {:induction false} CostDeepened(ds: seq<nat>, k: nat)
    requires k < |ds|
    ensures ds[k] <= 3 ==> Cost(Deepened(ds, k)) < Cost(ds)
    ensures ds[k] >= 4 ==> Cost(Deepened(ds, k)) == Cost(ds)
  {
    var a, b := ds[..k], ds[k + 1..];
    assert ds == a + [ds[k]] + b;
    CostThree(a, [ds[k]], b);
    CostThree(a, [ds[k] + 1, ds[k] + 1], b);
    assert Cost([ds[k] + 1, ds[k] + 1]) == 2 * LeafCost(ds[k] + 1) by {
      assert [ds[k] + 1, ds[k] + 1][1..] == [ds[k] + 1];
    }
  }

  /* ---------- Shape facts about trees with nothing to explode ---------- */

  predicate AtMostFour(ds: seq<nat>)
  {
    forall j :: 0 <= j < |ds| ==> ds[j] <= 4
  }

  /** With nothing to explode, no literal lies deeper than 4. */
  lemma {:induction false} NoExplosionDepths(t: Num, d: nat)
    requires d <= 4 && (t.Pair? ==> ExplodeAt(t, d).None?)
    ensures AtMostFour(Depths(t, d))
  {
    match t
    case Lit(_) =>
    case Pair(l, r) =>
      if d >= 4 { DeepPairExplodes(t, d); }
      assert l.Pair? ==> ExplodeAt(l, d + 1).None?;
      assert r.Pair? ==> ExplodeAt(r, d + 1).None?;
      NoExplosionDepths(l, d + 1);
      NoExplosionDepths(r, d + 1);
  }

  lemma {:induction false} FirstDepth(t: Num, d: nat)
    ensures Depths(t, d)[0] >= d
  {
    match t
    case Lit(_) =>
    case Pair(l, r) => FirstDepth(l, d + 1);
  }

  /** The most literals a tree at depth d can hold without going below depth 4. */
  function Capacity(d: nat): nat
    decreases 4 - d
  {
    if d >= 4 then 1 else 2 * Capacity(d + 1)
  }

  lemma {:induction false} LitsBound(t: Num, d: nat)
    requires d <= 4 && AtMostFour(Depths(t, d))
    ensures |Lits(t)| <= Capacity(d)
  {
    match t
    case Lit(_) =>
    case Pair(l, r) =>
      FirstDepth(l, d + 1);
      assert Depths(t, d)[0] == Depths(l, d + 1)[0];
      assert AtMostFour(Depths(l, d + 1)) && AtMostFour(Depths(r, d + 1)) by {
        var dl, dr := Depths(l, d + 1), Depths(r, d + 1);
        assert forall j :: 0 <= j < |dl| ==> dl[j] == (dl + dr)[j];
        assert forall j :: 0 <= j < |dr| ==> dr[j] == (dl + dr)[|dl| + j];
      }
      LitsBound(l, d + 1);
      LitsBound(r, d + 1);
  }

  /** Sibling literals lie at the same depth. */
  lemma {:induction false} SiblingDepths(t: Num, d: nat, i: nat)
    requires SiblingAt(t, i)
    ensures i + 1 < |Lits(t)| && Depths(t, d)[i] == Depths(t, d)[i + 1]
  {
    SiblingInRange(t, i);
    match t
    case Pair(l, r) =>
      var n := |Lits(l)|;
      if l.Lit? && r.Lit? && i == 0 {
      } else if SiblingAt(l, i) {
        SiblingDepths(l, d + 1, i);
        SameInLeft(Depths(l, d + 1), Depths(r, d + 1), i);
      } else {
        SiblingDepths(r, d + 1, i - n);
        SameInRight(Depths(l, d + 1), Depths(r, d + 1), i - n);
      }
  }

  lemma SameInLeft(dl: seq<nat>, dr: seq<nat>, i: nat)
    requires i + 1 < |dl| && dl[i] == dl[i + 1]
    ensures (dl + dr)[i] == (dl + dr)[i + 1]
  {
  }

  lemma SameInRight(dl: seq<nat>, dr: seq<nat>, i: nat)
    requires i + 1 < |dr| && dr[i] == dr[i + 1]
    ensures (dl + dr)[|dl| + i] == (dl + dr)[|dl| + i + 1]
  {
  }

  /* ---------- Potential: literals weighed by position ---------- */

  /** Positions 0..15 weigh 256 - j*j; a tree with nothing to explode has at most 16 literals. */
  function Weight(j: nat): nat
  {
    if j < 16 then 256 - j * j else 0
  }

  /** The literals of s weighed by position, the first at position j. */
  function WSum(s: seq<nat>, j: nat): nat
  {
    if s == [] then 0 else s[0] * Weight(j) + WSum(s[1..], j + 1)
  }

  lemma {:induction false} WSumConcat(a: seq<nat>, b: seq<nat>, j: nat)
    ensures WSum(a + b, j) == WSum(a, j) + WSum(b, j + |a|)
  {
    if a == [] {
      assert a + b == b;
    } else {
      assert (a + b)[1..] == a[1..] + b;
      WSumConcat(a[1..], b, j + 1);
    }
  }

  lemma {:induction false} WSumAddFirst(b: seq<nat>, x: nat, j: nat)
    requires b != []
    ensures WSum(AddFirst(b, x), j) == WSum(b, j) + x * Weight(j)
  {
    assert AddFirst(b, x)[1..] == b[1..];
  }

  lemma {:induction false} WSumSingle(x: nat, j: nat)
    ensures WSum([x], j) == x * Weight(j)
  {
    assert [x][1..] == [];
  }

  lemma {:induction false} WSumAddLast(a: seq<nat>, x: nat, j: nat)
    requires a != []
    ensures WSum(AddLast(a, x), j) == WSum(a, j) + x * Weight(j + |a| - 1)
  {
    var n := |a| - 1;
    assert a == a[..n] + [a[n]];
    assert AddLast(a, x) == a[..n] + [a[n] + x];
    WSumConcat(a[..n], [a[n]], j);
    WSumConcat(a[..n], [a[n] + x], j);
    WSumSingle(a[n], j + n);
    WSumSingle(a[n] + x, j + n);
    MulDistrib(Weight(j + n), a[n], x);
  }

  lemma {:induction false} MulDistrib(c: int, a: int, b: int)
    ensures (a + b) * c == a * c + b * c
  {
  }

  lemma {:induction false} MulMono(a: int, b: int, c: int)
    requires a <= b && c >= 0
    ensures a * c <= b * c
  {
  }

  lemma {:induction false} MulStrict(a: int, b: int, c: int)
    requires a < b && c > 0
    ensures a * c < b * c
  {
  }

  lemma {:induction false} WeightSteps(k: nat)
    requires 1 <= k <= 15
    ensures Weight(k - 1) == Weight(k) + (2 * k - 1)
    ensures k < 15 ==> Weight(k + 1) + (2 * k + 1) == Weight(k)
    ensures Weight(k - 1) < 2 * Weight(k)
  {
    assert (k - 1) * (k - 1) == k * k - 2 * k + 1;
    assert (k + 1) * (k + 1) == k * k + 2 * k + 1;
    assert k * k <= 15 * k <= 225;
  }

  lemma {:induction false} DropBothSides(k: nat, h1: nat, h2: nat)
    requires 1 <= k < 15 && 0 < h1 <= h2
    ensures h1 * Weight(k - 1) + h2 * Weight(k + 1) < (h1 + h2) * Weight(k)
  {
    var c := Weight(k);
    WeightSteps(k);
    var p, q := 2 * k - 1, 2 * k + 1;
    assert Weight(k - 1) == c + p && Weight(k + 1) + q == c;
    MulDistrib(h1, c, p);
    MulDistrib(h2, Weight(k + 1), q);
    MulDistrib(c, h1, h2);
    MulMono(h1, h2, p);
    MulStrict(p, q, h2);
    assert h1 * Weight(k - 1) == c * h1 + p * h1;
    assert h2 * Weight(k + 1) == c * h2 - q * h2;
  }

  lemma {:induction false} DropLeftSide(k: nat, h1: nat, v: nat)
    requires 1 <= k <= 15 && 0 < h1 && 2 * h1 <= v
    ensures h1 * Weight(k - 1) < v * Weight(k)
  {
    WeightSteps(k);
    MulStrict(Weight(k - 1), 2 * Weight(k), h1);
    MulMono(2 * h1, v, Weight(k));
  }

  lemma {:induction false} DropRightSide(h2: nat, v: nat)
    requires 0 < h2 <= v
    ensures h2 * Weight(1) < v * Weight(0)
  {
    MulMono(h2, v, 255);
  }

  /**
   * Handing the halves of v >= 10 at position k to the neighbours k-1 and
   * k+1 (when present) weighs less than v did at k, for positions below 16.
   */
  lemma {:induction false} SplitWeightDrop(k: nat, n: nat, v: nat)
    requires k < n <= 16 && v >= 10
    ensures (if k > 0 then (v / 2) * Weight(k - 1) else 0)
          + (if k + 1 < n then ((v + 1) / 2) * Weight(k + 1) else 0) < v * Weight(k)
  {
    var h1, h2 := v / 2, (v + 1) / 2;
    assert h1 + h2 == v && h1 <= h2 && 2 * h1 <= v && h1 > 0;
    if k > 0 && k + 1 < n {
      DropBothSides(k, h1, h2);
    } else if k > 0 {
      DropLeftSide(k, h1, v);
    } else if k + 1 < n {
      DropRightSide(h2, v);
    }
  }

  lemma {:induction false} RedistributeSplit(s: seq<nat>, k: nat)
    requires k < |s|
    ensures Redistributed(SplitLits(s, k), k) == AddLast(s[..k], s[k] / 2) + [0] + AddFirst(s[k + 1..], (s[k] + 1) / 2)
  {
    var u := SplitLits(s, k);
    RedistributedClosedForm(u, k);
    assert u[..k] == s[..k] && u[k] == s[k] / 2 && u[k + 1] == (s[k] + 1) / 2 && u[k + 2..] == s[k + 1..];
  }

  lemma {:induction false} WSumAround(a: seq<nat>, x: nat, b: seq<nat>)
    ensures WSum(a + [x] + b, 0) == WSum(a, 0) + x * Weight(|a|) + WSum(b, |a| + 1)
  {
    WSumConcat(a + [x], b, 0);
    WSumConcat(a, [x], 0);
    WSumSingle(x, |a|);
  }

  /** The split-then-explode of a literal v >= 10 at position k weighs less than s. */
  lemma {:induction false} SplitWeightLess(s: seq<nat>, k: nat)
    requires k < |s| <= 16 && s[k] >= 10
    ensures WSum(Redistributed(SplitLits(s, k), k), 0) < WSum(s, 0)
  {
    var a, b, v := s[..k], s[k + 1..], s[k];
    var h1, h2 := v / 2, (v + 1) / 2;
    RedistributeSplit(s, k);
    assert s == a + [v] + b;
    WSumAround(a, v, b);
    WSumAround(AddLast(a, h1), 0, AddFirst(b, h2));
    if a != [] { WSumAddLast(a, h1, 0); }
    if b != [] { WSumAddFirst(b, h2, k + 1); }
    SplitWeightDrop(k, |s|, v);
  }

  /* ---------- Explode to a fixpoint ---------- */

  /** The whole-tree explosion, as ExplodedAt describes it at the root. */
  lemma {:induction false} ExplodeSpec(t: Num) returns (i: nat)
    requires Explode(t).Some?
    ensures Explodable(t, 0, i)
    ensures Depths(Explode(t).value, 0) == Collapsed(Depths(t, 0), i)
    ensures Lits(Explode(t).value) == Redistributed(Lits(t), i)
    ensures PairCount(Explode(t).value) + 1 == PairCount(t)
  {
    i := ExplodeAtSpec(t, 0);
  }

  lemma {:induction false} ExplodeLowersPairCount(t: Num)
    requires Explode(t).Some?
    ensures PairCount(Explode(t).value) < PairCount(t)
  {
    var _ := ExplodeSpec(t);
  }

  /** Explodes t until nothing explodes. */
  function ExplodeAll(t: Num): (r: Num)
    ensures ExplodeAt(r, 0).None?
    decreases PairCount(t)
  {
    match Explode(t)
    case None => t
    case Some(u) =>
      ExplodeLowersPairCount(t);
      ExplodeAll(u)
  }

  /** The literals of the fully exploded tree, weighed by position. */
  function Potential(t: Num): nat
  {
    WSum(Lits(ExplodeAll(t)), 0)
  }

  lemma {:induction false} ExplodeAllStep(t: Num)
    requires Explode(t).Some?
    ensures ExplodeAll(t) == ExplodeAll(Explode(t).value)
  {
  }

  lemma {:induction false} ExplodeAllFixed(t: Num)
    requires ExplodeAt(t, 0).None?
    ensures ExplodeAll(t) == t
  {
  }

  /** A literal deeper than 4 means there is something to explode. */
  lemma {:induction false} DeepLeafExplodes(t: Num, d: nat, j: nat)
    requires d <= 4 && j < |Depths(t, d)| && Depths(t, d)[j] >= 5
    ensures t.Pair? && ExplodeAt(t, d).Some?
  {
    if !(t.Pair? && ExplodeAt(t, d).Some?) {
      NoExplosionDepths(t, d);
    }
  }

  /* ---------- The measure drops with every rewrite ---------- */

  lemma {:induction false} ExplodeStepMeasure(t: Num)
    requires Explode(t).Some?
    ensures Cost(Depths(Explode(t).value, 0)) <= Cost(Depths(t, 0))
    ensures Potential(Explode(t).value) == Potential(t)
    ensures PairCount(Explode(t).value) < PairCount(t)
  {
    var i := ExplodeSpec(t);
    CostCollapsed(Depths(t, 0), i);
    ExplodeAllStep(t);
  }

  /** Deepening a depth-4 literal makes it and its new sibling the only depths above 4. */
  lemma {:induction false} OnlyDeepSiblings(ds: seq<nat>, k: nat, i: nat)
    requires k < |ds| && AtMostFour(ds) && ds[k] == 4
    requires i + 1 < |Deepened(ds, k)| && Deepened(ds, k)[i] >= 5 && Deepened(ds, k)[i + 1] >= 5
    ensures i == k
  {
    var e := Deepened(ds, k);
    assert forall j :: 0 <= j < k ==> e[j] == ds[j];
    assert forall j :: k + 2 <= j < |e| ==> e[j] == ds[j - 1];
  }

  /** Exploding that pair again leaves every literal at depth 4 or above. */
  lemma {:induction false} CollapsedDeepened(ds: seq<nat>, k: nat)
    requires k < |ds| && AtMostFour(ds) && ds[k] == 4
    ensures AtMostFour(Collapsed(Deepened(ds, k), k))
  {
    var dw := Collapsed(Deepened(ds, k), k);
    assert forall j :: 0 <= j < k ==> dw[j] == ds[j];
    assert dw[k] == 4;
    assert forall j :: k < j < |dw| ==> dw[j] == ds[j];
  }

  /** After splitting a depth-4 literal, the new pair is the one that explodes. */
  lemma {:induction false} DeepSplitExplodes(u: Num, ds: seq<nat>, k: nat)
    requires k < |ds| && AtMostFour(ds) && ds[k] == 4 && Depths(u, 0) == Deepened(ds, k)
    ensures Explode(u).Some?
    ensures Lits(Explode(u).value) == Redistributed(Lits(u), k)
    ensures Depths(Explode(u).value, 0) == Collapsed(Depths(u, 0), k)
  {
    assert Depths(u, 0)[k] == 5;
    DeepLeafExplodes(u, 0, k);
    var i := ExplodeSpec(u);
    SiblingDepths(u, 0, i);
    OnlyDeepSiblings(ds, k, i);
  }

  lemma {:induction false} DeepSplitPotential(t: Num, u: Num, k: nat)
    requires ExplodeAt(t, 0).None? && SplitDone(t, 0, u, k) && Depths(t, 0)[k] >= 4
    ensures Potential(u) < Potential(t)
  {
    var s, ds := Lits(t), Depths(t, 0);
    NoExplosionDepths(t, 0);
    LitsBound(t, 0);
    assert Capacity(4) == 1 && Capacity(3) == 2 && Capacity(2) == 4 && Capacity(1) == 8 && Capacity(0) == 16;
    DeepSplitExplodes(u, ds, k);
    var w := Explode(u).value;
    var dw := Depths(w, 0);
    CollapsedDeepened(ds, k);
    ExplodeAtNoneIff(w, 0);
    ExplodeAllStep(u);
    ExplodeAllFixed(w);
    ExplodeAllFixed(t);
    SplitWeightLess(s, k);
  }

  lemma {:induction false} SplitStepMeasure(t: Num)
    requires ExplodeAt(t, 0).None? && SplitAt(t).Some?
    ensures Cost(Depths(SplitAt(t).value, 0)) < Cost(Depths(t, 0))
         || (Cost(Depths(SplitAt(t).value, 0)) == Cost(Depths(t, 0)) && Potential(SplitAt(t).value) < Potential(t))
  {
    var k := SplitAtSpec(t, 0);
    CostDeepened(Depths(t, 0), k);
    if Depths(t, 0)[k] >= 4 {
      DeepSplitPotential(t, SplitAt(t).value, k);
    }
  }

  /* ---------- Reduction ---------- */

  /** Nothing explodes and, for a pair, no literal is 10 or more. */
  ghost predicate IsReduced(t: Num)
  {
    (forall j :: !Explodable(t, 0, j)) && (t.Pair? ==> AllBelowTen(Lits(t)))
  }

  /** The searches find nothing exactly on reduced numbers. */
  lemma {:induction false} IsReducedIff(t: Num)
    ensures IsReduced(t) <==> ExplodeAt(t, 0).None? && SplitAt(t).None?
  {
    ExplodeAtNoneIff(t, 0);
    if t.Pair? { SplitAtNoneIff(t); }
  }

  /** Explode while something explodes, otherwise split, until neither applies. */
  function Reduced(t: Num): (r: Num)
    ensures ExplodeAt(r, 0).None? && SplitAt(r).None?
    decreases Cost(Depths(t, 0)), Potential(t), PairCount(t)
  {
    match Explode(t)
    case Some(u) =>
      ExplodeStepMeasure(t);
      Reduced(u)
    case None =>
      match SplitAt(t)
      case Some(u) =>
        SplitStepMeasure(t);
        Reduced(u)
      case None => t
  }

  lemma {:induction false} ReducedIsReduced(t: Num)
    ensures IsReduced(Reduced(t))
  {
    IsReducedIff(Reduced(t));
  }

  /** Reducing a reduced number changes nothing, so reduction is idempotent. */
  lemma {:induction false} ReducedFixpoint(t: Num)
    ensures IsReduced(t) ==> Reduced(t) == t
    ensures Reduced(Reduced(t)) == Reduced(t)
  {
    IsReducedIff(t);
    IsReducedIff(Reduced(t));
  }

  /** reduce_snailfish_num: the explode-first loop, run until a pass changes nothing. */
  method Reduce(t: Num) returns (r: Num)
    ensures r == Reduced(t)
  {
    var current := t;
    var changed := true;
    while changed
      invariant Reduced(current) == Reduced(t)
      invariant !changed ==> ExplodeAt(current, 0).None? && SplitAt(current).None?
      decreases Cost(Depths(current, 0)), Potential(current), PairCount(current), if changed then 1 else 0
    {
      var exploded := Explode(current);
      changed := exploded.Some?;
      if changed {
        ExplodeStepMeasure(current);
        current := exploded.value;
      } else {
        var split := SplitAt(current);
        changed := split.Some?;
        if changed {
          SplitStepMeasure(current);
          current := split.value;
        }
      }
    }
    r := current;
  }

  /** add_snailfish_nums: the pair of the two operands, reduced. */
  method Add(a: Num, b: Num) returns (r: Num)
    ensures r == Reduced(Pair(a, b)) && IsReduced(r)
  {
    r := Reduce(Pair(a, b));
    ReducedIsReduced(Pair(a, b));
  }
}
