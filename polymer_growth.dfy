/**
 * What the pair-count table of src/day_14.c stands for: the polymer string
 * itself, grown by inserting every rule's element between the two elements
 * of each adjacent pair. The table after a step is the table of the grown
 * string, and the recovered element counts are twice the string's element
 * counts.
 */
module PolymerGrowth {
  import opened Wrappers
  import opened Polymer

  /** How many of the pair's two elements are `x`. */
  function Hits(p: Pair, x: byte): nat
  {
    (if p.left == x then 1 else 0) + (if p.right == x then 1 else 0)
  }

  /** Occurrences of `x` among the first `n` elements of `u`. */
  function Occ(u: seq<byte>, x: byte, n: nat): nat
    requires n <= |u|
  {
    if n == 0 then 0 else Occ(u, x, n - 1) + (if u[n - 1] == x then 1 else 0)
  }

  /** Adjacent pair `k` of `u`. */
  function PairAt(u: seq<byte>, k: nat): Pair
    requires k + 1 < |u|
  {
    Pair(u[k], u[k + 1])
  }

  /** Sum of `f` over the first `n` adjacent pairs of `u`. */
  function PairSum(u: seq<byte>, f: Pair -> nat, n: nat): nat
    requires n < |u|
  {
    if n == 0 then 0 else PairSum(u, f, n - 1) + f(Pair(u[n - 1], u[n]))
  }

  /** Sum of count times weight over the first `n` table entries. */
  function Dot(c: seq<nat>, w: seq<nat>, n: nat): nat
    requires n <= |c| && n <= |w|
  {
    if n == 0 then 0 else Dot(c, w, n - 1) + c[n - 1] * w[n - 1]
  }

  /** The weight `f` gives each label of the table. */
  function Weights(labels: seq<Pair>, f: Pair -> nat): (w: seq<nat>)
    ensures |w| == |labels|
  {
    seq(|labels|, i requires 0 <= i < |labels| => f(labels[i]))
  }

  lemma {:induction false} DotIncrement(c: seq<nat>, w: seq<nat>, i: nat, n: nat)
    requires i < |c| == |w| && n <= |c|
    ensures Dot(c[i := c[i] + 1], w, n) == Dot(c, w, n) + (if i < n then w[i] else 0)
  {
    if n > 0 {
      DotIncrement(c, w, i, n - 1);
      if i == n - 1 {
        assert (c[i] + 1) * w[i] == c[i] * w[i] + w[i];
      }
    }
  }

  lemma {:induction false} DotZeros(w: seq<nat>, n: nat)
    requires n <= |w|
    ensures Dot(Zeros(|w|), w, n) == 0
  {
    if n > 0 {
      DotZeros(w, n - 1);
    }
  }

  /**
   * Weighing the template's pair table by any per-pair weight is the same
   * as summing that weight over the template's adjacent pairs.
   */
  lemma {:induction false} TalliedDot(labels: seq<Pair>, u: seq<byte>, n: nat, f: Pair -> nat)
    requires n < |u| && Tallied(labels, u, n).Ok?
    ensures Dot(Tallied(labels, u, n).value, Weights(labels, f), |labels|) == PairSum(u, f, n)
  {
    var w := Weights(labels, f);
    if n == 0 {
      DotZeros(w, |labels|);
    } else {
      TalliedDot(labels, u, n - 1, f);
      var c := Tallied(labels, u, n - 1).value;
      var i := Find(labels, Pair(u[n - 1], u[n])).value;
      DotIncrement(c, w, i, |labels|);
    }
  }

  /** An element's total in the element tally is its table entries' counts weighed by how often the label holds it. */
  lemma {:induction false} ElementTallyDot(labels: seq<Pair>, counts: seq<nat>, n: nat, x: byte, f: Pair -> nat)
    requires n <= |labels| == |counts|
    requires forall p :: f(p) == Hits(p, x)
    ensures ElementTally(labels, counts, n)[x as nat] == Dot(counts, Weights(labels, f), n)
  {
    if n > 0 {
      ElementTallyDot(labels, counts, n - 1, x, f);
      var p := labels[n - 1];
      AddBothAt(ElementTally(labels, counts, n - 1), p.left as nat, p.right as nat, counts[n - 1], x as nat);
      var d := counts[n - 1];
      assert d * Hits(p, x) == (if p.left == x then d else 0) + (if p.right == x then d else 0);
    }
  }

  /**
   * Every element lies in two adjacent pairs except the first and the last,
   * which lie in one; adding those two once more counts every element twice.
   */
  lemma {:induction false} PairHitsTwice(u: seq<byte>, x: byte, n: nat, f: Pair -> nat)
    requires n < |u|
    requires forall p :: f(p) == Hits(p, x)
    ensures PairSum(u, f, n) + Hits(Pair(u[0], u[n]), x) == 2 * Occ(u, x, n + 1)
  {
    if n > 0 {
      PairHitsTwice(u, x, n - 1, f);
    }
  }

  /** The recovered element counts of a string's pair table are exactly twice the string's element counts. */
  lemma ElementCountsTwice(labels: seq<Pair>, u: seq<byte>, c: seq<nat>, x: byte)
    requires |u| >= 1 && Tallied(labels, u, |u| - 1) == Ok(c)
    ensures ElementCounts(labels, c, u)[x as nat] == 2 * Occ(u, x, |u|)
  {
    var f := (p: Pair) => Hits(p, x);
    var n := |u| - 1;
    ElementTallyDot(labels, c, |labels|, x, f);
    TalliedDot(labels, u, n, f);
    PairHitsTwice(u, x, n, f);
    AddBothAt(ElementTally(labels, c, |labels|), u[0] as nat, u[n] as nat, 1, x as nat);
  }

  /** The element inserted into `p`; a pair without a rule never reaches here under the lemmas' hypotheses. */
  function Inserted(rules: seq<Rule>, p: Pair): byte
  {
    match ResultOf(rules, p)
    case None => p.left
    case Some(c) => c
  }

  /** The grown form of the first `n + 1` elements of `u`. */
  function ExpandTo(rules: seq<Rule>, u: seq<byte>, n: nat): (e: seq<byte>)
    requires n < |u|
    ensures |e| == 2 * n + 1 && e[0] == u[0] && e[2 * n] == u[n]
  {
    if n == 0 then [u[0]] else ExpandTo(rules, u, n - 1) + [Inserted(rules, PairAt(u, n - 1)), u[n]]
  }

  /** One step on the string: the rule's element goes between the two elements of every adjacent pair. */
  function Expand(rules: seq<Rule>, u: seq<byte>): (e: seq<byte>)
    requires |u| >= 1
    ensures |e| == 2 * |u| - 1 && e[0] == u[0] && e[|e| - 1] == u[|u| - 1]
  {
    ExpandTo(rules, u, |u| - 1)
  }

  lemma {:induction false} ExpandToAt(rules: seq<Rule>, u: seq<byte>, n: nat, k: nat)
    requires k < n < |u|
    ensures ExpandTo(rules, u, n)[2 * k] == u[k]
    ensures ExpandTo(rules, u, n)[2 * k + 1] == Inserted(rules, PairAt(u, k))
    ensures ExpandTo(rules, u, n)[2 * k + 2] == u[k + 1]
  {
    if k < n - 1 {
      ExpandToAt(rules, u, n - 1, k);
    }
  }

  /** Adjacent pair `k` of the string becomes pairs `2k` and `2k + 1` of the grown string. */
  lemma ExpandAt(rules: seq<Rule>, u: seq<byte>, k: nat)
    requires k + 1 < |u|
    ensures Expand(rules, u)[2 * k] == u[k]
    ensures Expand(rules, u)[2 * k + 1] == Inserted(rules, PairAt(u, k))
    ensures Expand(rules, u)[2 * k + 2] == u[k + 1]
  {
    ExpandToAt(rules, u, |u| - 1, k);
  }

  /** 1 when the table counts `q` at entry `j`. */
  function CountedAt(labels: seq<Pair>, q: Pair, j: nat): nat
  {
    if Find(labels, q) == Some(j) then 1 else 0
  }

  /** How much of a pair's count a step hands to entry `j`. */
  function GivesTo(labels: seq<Pair>, rules: seq<Rule>, p: Pair, j: nat): nat
  {
    match ResultOf(rules, p)
    case None => 0
    case Some(c) => CountedAt(labels, Pair(p.left, c), j) + CountedAt(labels, Pair(c, p.right), j)
  }

  /** A successful step found a rule and both produced pairs for every entry it went through. */
  lemma {:induction false} StepFromFound(labels: seq<Pair>, rules: seq<Rule>, prev: seq<nat>, n: nat, i: nat)
    requires n <= |prev| == |labels| && StepFrom(labels, rules, prev, n).Ok? && i < n
    ensures ResultOf(rules, labels[i]).Some?
    ensures Find(labels, Pair(labels[i].left, ResultOf(rules, labels[i]).value)).Some?
    ensures Find(labels, Pair(ResultOf(rules, labels[i]).value, labels[i].right)).Some?
  {
    if i < n - 1 {
      StepFromFound(labels, rules, prev, n - 1, i);
    }
  }

  /** Entry `j` of a step's table collects every old count weighed by how much of it goes to `j`. */
  lemma {:induction false} StepFromAt(labels: seq<Pair>, rules: seq<Rule>, prev: seq<nat>, n: nat, j: nat, g: Pair -> nat)
    requires n <= |prev| == |labels| && j < |labels| && StepFrom(labels, rules, prev, n).Ok?
    requires forall p :: g(p) == GivesTo(labels, rules, p, j)
    ensures StepFrom(labels, rules, prev, n).value[j] == Dot(prev, Weights(labels, g), n)
  {
    if n == 0 {
    } else {
      StepFromAt(labels, rules, prev, n - 1, j, g);
      var acc := StepFrom(labels, rules, prev, n - 1).value;
      var ab := labels[n - 1];
      var c := ResultOf(rules, ab).value;
      var a := Find(labels, Pair(ab.left, c)).value;
      var b := Find(labels, Pair(c, ab.right)).value;
      var d := prev[n - 1];
      AddBothAt(acc, a, b, d, j);
      var x, y := CountedAt(labels, Pair(ab.left, c), j), CountedAt(labels, Pair(c, ab.right), j);
      assert g(ab) == x + y;
      assert x == (if a == j then 1 else 0) && y == (if b == j then 1 else 0);
      ScaleIndicators(d, x, y);
    }
  }

  /** A count handed out once per indicator that is set. */
  lemma ScaleIndicators(d: nat, x: nat, y: nat)
    requires x <= 1 && y <= 1
    ensures d * (x + y) == (if x == 1 then d else 0) + (if y == 1 then d else 0)
  {
  }

  /** Entry `j` of a string's table counts the adjacent pairs the table files under `j`. */
  lemma {:induction false} TalliedAt(labels: seq<Pair>, u: seq<byte>, n: nat, j: nat, f: Pair -> nat)
    requires n < |u| && j < |labels| && Tallied(labels, u, n).Ok?
    requires forall q :: f(q) == CountedAt(labels, q, j)
    ensures Tallied(labels, u, n).value[j] == PairSum(u, f, n)
  {
    if n > 0 {
      TalliedAt(labels, u, n - 1, j, f);
    }
  }

  /** A string's table exists when every adjacent pair has a label. */
  lemma {:induction false} TalliedOk(labels: seq<Pair>, u: seq<byte>, n: nat)
    requires n < |u|
    requires forall k :: 0 <= k < n ==> Find(labels, PairAt(u, k)).Some?
    ensures Tallied(labels, u, n).Ok?
  {
    if n > 0 {
      TalliedOk(labels, u, n - 1);
      assert Find(labels, PairAt(u, n - 1)).Some?;
    }
  }

  /**
   * The two pairs an adjacent pair becomes in the grown string are filed
   * where the step hands that pair's count.
   */
  lemma {:induction false} ExpandPairs(labels: seq<Pair>, rules: seq<Rule>, u: seq<byte>, n: nat, j: nat,
                                       f: Pair -> nat, g: Pair -> nat)
    requires 1 <= |u| && n < |u|
    requires forall k :: 0 <= k < n ==> ResultOf(rules, PairAt(u, k)).Some?
    requires forall q :: f(q) == CountedAt(labels, q, j)
    requires forall p :: g(p) == GivesTo(labels, rules, p, j)
    ensures PairSum(Expand(rules, u), f, 2 * n) == PairSum(u, g, n)
  {
    if n > 0 {
      ExpandPairs(labels, rules, u, n - 1, j, f, g);
      ExpandPairStep(labels, rules, u, n - 1, j, f, g);
    }
  }

  /** The two grown pairs of adjacent pair `k` add what the step hands on from it. */
  lemma ExpandPairStep(labels: seq<Pair>, rules: seq<Rule>, u: seq<byte>, k: nat, j: nat,
                       f: Pair -> nat, g: Pair -> nat)
    requires k + 1 < |u| && ResultOf(rules, PairAt(u, k)).Some?
    requires forall q :: f(q) == CountedAt(labels, q, j)
    requires forall p :: g(p) == GivesTo(labels, rules, p, j)
    ensures PairSum(Expand(rules, u), f, 2 * k + 2) == PairSum(Expand(rules, u), f, 2 * k) + g(PairAt(u, k))
  {
    var e := Expand(rules, u);
    ExpandAt(rules, u, k);
    var c := ResultOf(rules, PairAt(u, k)).value;
    assert PairAt(e, 2 * k) == Pair(u[k], c) && PairAt(e, 2 * k + 1) == Pair(c, u[k + 1]);
  }

  /** Under a successful step, adjacent pair `k` of the string has a rule and both pairs it becomes have labels. */
  lemma GrownPairsLabelled(labels: seq<Pair>, rules: seq<Rule>, u: seq<byte>, c: seq<nat>, k: nat)
    requires |u| >= 1 && Tallied(labels, u, |u| - 1) == Ok(c) && k + 1 < |u|
    requires NextCounts(labels, rules, c).Ok?
    ensures ResultOf(rules, Pair(u[k], u[k + 1])).Some?
    ensures Find(labels, Pair(u[k], Inserted(rules, Pair(u[k], u[k + 1])))).Some?
    ensures Find(labels, Pair(Inserted(rules, Pair(u[k], u[k + 1])), u[k + 1])).Some?
  {
    PairLabelled(labels, u, |u| - 1, k);
    var i := Find(labels, Pair(u[k], u[k + 1])).value;
    StepFromFound(labels, rules, c, |c|, i);
  }

  /** Under a successful step, adjacent pair `k` of the grown string has a label. */
  lemma {:induction false} GrownPairLabelled(labels: seq<Pair>, rules: seq<Rule>, u: seq<byte>, c: seq<nat>, k: nat)
    requires |u| >= 1 && Tallied(labels, u, |u| - 1) == Ok(c) && k < 2 * (|u| - 1)
    requires NextCounts(labels, rules, c).Ok?
    ensures Find(labels, Pair(Expand(rules, u)[k], Expand(rules, u)[k + 1])).Some?
  {
    var h := k / 2;
    ExpandAt(rules, u, h);
    GrownPairsLabelled(labels, rules, u, c, h);
  }

  /** Under a successful step every adjacent pair of the string has a rule, and the grown string has a table. */
  lemma {:induction false} ExpansionLabelled(labels: seq<Pair>, rules: seq<Rule>, u: seq<byte>, c: seq<nat>)
    requires |u| >= 1 && Tallied(labels, u, |u| - 1) == Ok(c)
    requires NextCounts(labels, rules, c).Ok?
    ensures forall k :: 0 <= k < |u| - 1 ==> ResultOf(rules, PairAt(u, k)).Some?
    ensures Tallied(labels, Expand(rules, u), 2 * (|u| - 1)).Ok?
  {
    var e := Expand(rules, u);
    forall k | 0 <= k < |u| - 1
      ensures ResultOf(rules, PairAt(u, k)).Some?
    {
      GrownPairsLabelled(labels, rules, u, c, k);
    }
    forall k | 0 <= k < 2 * (|u| - 1)
      ensures Find(labels, PairAt(e, k)).Some?
    {
      GrownPairLabelled(labels, rules, u, c, k);
    }
    TalliedOk(labels, e, 2 * (|u| - 1));
  }

  /** Entry `j` of the grown string's table equals entry `j` of the step's table. */
  lemma {:induction false} ExpansionEntry(labels: seq<Pair>, rules: seq<Rule>, u: seq<byte>, c: seq<nat>, j: nat)
    requires |u| >= 1 && Tallied(labels, u, |u| - 1) == Ok(c) && j < |labels|
    requires NextCounts(labels, rules, c).Ok?
    requires forall k :: 0 <= k < |u| - 1 ==> ResultOf(rules, PairAt(u, k)).Some?
    requires Tallied(labels, Expand(rules, u), 2 * (|u| - 1)).Ok?
    ensures Tallied(labels, Expand(rules, u), 2 * (|u| - 1)).value[j] == NextCounts(labels, rules, c).value[j]
  {
    var n := |u| - 1;
    var f := (q: Pair) => CountedAt(labels, q, j);
    var g := (p: Pair) => GivesTo(labels, rules, p, j);
    TalliedAt(labels, Expand(rules, u), 2 * n, j, f);
    ExpandPairs(labels, rules, u, n, j, f, g);
    TalliedDot(labels, u, n, g);
    StepFromAt(labels, rules, c, |c|, j, g);
  }

  /**
   * The table a step produces from a string's table is the table of the
   * grown string: the counts stand for the polymer the puzzle describes.
   */
  lemma StepIsExpansion(labels: seq<Pair>, rules: seq<Rule>, u: seq<byte>, c: seq<nat>)
    requires |u| >= 1 && Tallied(labels, u, |u| - 1) == Ok(c)
    requires NextCounts(labels, rules, c).Ok?
    ensures Tallied(labels, Expand(rules, u), 2 * (|u| - 1)) == NextCounts(labels, rules, c)
  {
    ExpansionLabelled(labels, rules, u, c);
    var t := Tallied(labels, Expand(rules, u), 2 * (|u| - 1)).value;
    var next := NextCounts(labels, rules, c).value;
    forall j | 0 <= j < |labels|
      ensures t[j] == next[j]
    {
      ExpansionEntry(labels, rules, u, c, j);
    }
    assert t == next;
  }

  /** Every adjacent pair of a string whose table exists has a label. */
  lemma {:induction false} PairLabelled(labels: seq<Pair>, u: seq<byte>, n: nat, k: nat)
    requires n < |u| && Tallied(labels, u, n).Ok? && k < n
    ensures Find(labels, Pair(u[k], u[k + 1])).Some?
  {
    if k < n - 1 {
      PairLabelled(labels, u, n - 1, k);
    }
  }

  /** The string after `s` steps. */
  function Grow(rules: seq<Rule>, u: seq<byte>, s: nat): (g: seq<byte>)
    requires |u| >= 1
    ensures |g| >= 1 && g[0] == u[0] && g[|g| - 1] == u[|u| - 1]
    decreases s
  {
    if s == 0 then u else Grow(rules, Expand(rules, u), s - 1)
  }

  /** After any number of successful steps the table is the table of the grown string. */
  lemma {:induction false} StepsAreGrowth(labels: seq<Pair>, rules: seq<Rule>, u: seq<byte>, c: seq<nat>, s: nat)
    requires |u| >= 1 && Tallied(labels, u, |u| - 1) == Ok(c)
    requires Steps(labels, rules, c, s).Ok?
    ensures Tallied(labels, Grow(rules, u, s), |Grow(rules, u, s)| - 1) == Steps(labels, rules, c, s)
    decreases s
  {
    if s > 0 {
      StepIsExpansion(labels, rules, u, c);
      var c1 := NextCounts(labels, rules, c).value;
      StepsAreGrowth(labels, rules, Expand(rules, u), c1, s - 1);
    }
  }

  /** Every element's number of occurrences in the string. */
  function Census(u: seq<byte>): (v: seq<nat>)
    ensures |v| == 256
  {
    seq(256, x requires 0 <= x < 256 => Occ(u, x as byte, |u|))
  }

  lemma {:induction false} OccBounds(u: seq<byte>, x: byte, n: nat)
    requires n <= |u|
    ensures Occ(u, x, n) <= n
    ensures (exists k :: 0 <= k < n && u[k] == x) ==> Occ(u, x, n) >= 1
    ensures (forall k :: 0 <= k < n ==> u[k] == x) ==> Occ(u, x, n) == n
    ensures (forall k :: 0 <= k < n ==> u[k] != x) ==> Occ(u, x, n) == 0
  {
    if n > 0 {
      OccBounds(u, x, n - 1);
    }
  }

  lemma {:induction false} MaxToDouble(v: seq<nat>, w: seq<nat>, n: nat)
    requires n <= |v| == |w| && forall k :: 0 <= k < n ==> w[k] == 2 * v[k]
    ensures MaxTo(w, n) == 2 * MaxTo(v, n)
  {
    if n > 0 {
      MaxToDouble(v, w, n - 1);
    }
  }

  lemma {:induction false} MinToDouble(v: seq<nat>, w: seq<nat>, n: nat, start: nat)
    requires n <= |v| == |w| && forall k :: 0 <= k < n ==> w[k] == 2 * v[k]
    ensures MinTo(w, n, 2 * start) == 2 * MinTo(v, n, start)
  {
    if n > 0 {
      MinToDouble(v, w, n - 1, start);
    }
  }

  /** Halving the least of doubled counts, searched from twice the start, gives the least count. */
  lemma MinToHalved(v: seq<nat>, w: seq<nat>, start2: nat, start: nat)
    requires |v| == |w| == 256 && forall k :: 0 <= k < 256 ==> w[k] == 2 * v[k]
    requires start2 == 2 * start
    ensures MinTo(w, 256, start2) / 2 == MinTo(v, 256, start)
  {
    MinToDouble(v, w, 256, start);
  }

  /** After `s` steps the recovered element counts are twice the grown string's census. */
  lemma ElementCountsOfGrowth(labels: seq<Pair>, rules: seq<Rule>, t: seq<byte>, c: seq<nat>, s: nat, cs: seq<nat>)
    requires |t| >= 1 && Tallied(labels, t, |t| - 1) == Ok(c)
    requires Steps(labels, rules, c, s) == Ok(cs)
    ensures forall x :: 0 <= x < 256 ==> ElementCounts(labels, cs, t)[x] == 2 * Census(Grow(rules, t, s))[x]
    ensures SumTo(cs, |cs|) + 1 == |Grow(rules, t, s)|
  {
    var g := Grow(rules, t, s);
    StepsAreGrowth(labels, rules, t, c, s);
    assert ElementCounts(labels, cs, t) == ElementCounts(labels, cs, g);
    forall x | 0 <= x < 256
      ensures ElementCounts(labels, cs, t)[x] == 2 * Census(g)[x]
    {
      ElementCountsTwice(labels, g, cs, x as byte);
    }
    TalliedSum(labels, g, |g| - 1);
  }

  /** The most-common result is the number of occurrences of the grown string's most common element. */
  lemma MostCommonIsTrue(labels: seq<Pair>, rules: seq<Rule>, t: seq<byte>, c: seq<nat>, s: nat, cs: seq<nat>)
    requires |t| >= 1 && Tallied(labels, t, |t| - 1) == Ok(c)
    requires Steps(labels, rules, c, s) == Ok(cs)
    ensures MostCommon(labels, cs, t) == MaxTo(Census(Grow(rules, t, s)), 256)
  {
    ElementCountsOfGrowth(labels, rules, t, c, s, cs);
    MaxToDouble(Census(Grow(rules, t, s)), ElementCounts(labels, cs, t), 256);
  }

  /**
   * As written, the least-common search starts at one less than the grown
   * string's length instead of above every count.
   */
  lemma {:induction false} LeastCommonAsWritten(labels: seq<Pair>, rules: seq<Rule>, t: seq<byte>, c: seq<nat>, s: nat, cs: seq<nat>)
    requires |t| >= 1 && Tallied(labels, t, |t| - 1) == Ok(c)
    requires Steps(labels, rules, c, s) == Ok(cs)
    ensures LeastCommon(labels, cs, t) == MinTo(Census(Grow(rules, t, s)), 256, |Grow(rules, t, s)| - 1)
  {
    var g := Grow(rules, t, s);
    ElementCountsOfGrowth(labels, rules, t, c, s, cs);
    MinToHalved(Census(g), ElementCounts(labels, cs, t), 2 * SumTo(cs, |cs|), |g| - 1);
  }

  /**
   * When the grown string holds a single element, the least-common result
   * as written is one less than that element's number of occurrences.
   */
  lemma {:induction false} LeastCommonSingleElement(labels: seq<Pair>, rules: seq<Rule>, t: seq<byte>, c: seq<nat>, s: nat, cs: seq<nat>)
    requires |t| >= 1 && Tallied(labels, t, |t| - 1) == Ok(c)
    requires Steps(labels, rules, c, s) == Ok(cs)
    requires forall k :: 0 <= k < |Grow(rules, t, s)| ==> Grow(rules, t, s)[k] == t[0]
    ensures Census(Grow(rules, t, s))[t[0] as nat] == |Grow(rules, t, s)|
    ensures LeastCommon(labels, cs, t) == |Grow(rules, t, s)| - 1
  {
    var g := Grow(rules, t, s);
    var v := Census(g);
    LeastCommonAsWritten(labels, rules, t, c, s, cs);
    forall x | 0 <= x < 256
      ensures v[x] == if x == t[0] as nat then |g| else 0
    {
      OccBounds(g, x as byte, |g|);
    }
  }

  /** Template `NN` with the single rule `NN -> N`: two N's, but a least-common result of 1. */
  lemma LeastCommonExample()
    ensures var labels := [Pair(78, 78)];
      var t: seq<byte> := [78, 78];
      Tallied(labels, t, 1) == Ok([1]) && Census(t)[78] == 2 && LeastCommon(labels, [1], t) == 1
  {
    var labels := [Pair(78, 78)];
    var rules := [Rule(Pair(78, 78), 78)];
    var t: seq<byte> := [78, 78];
    assert Find(labels, Pair(t[0], t[1])) == Some(0);
    assert Zeros(1) == [0];
    assert Tallied(labels, t, 0) == Ok([0]);
    assert [0][0 := 1] == [1];
    assert Tallied(labels, t, 1) == Ok([1]);
    LeastCommonSingleElement(labels, rules, t, [1], 0, [1]);
  }

  /** With the search started above every count, the result is the grown string's smallest non-zero census entry. */
  lemma {:induction false} LeastCommonFixedIsTrue(labels: seq<Pair>, rules: seq<Rule>, t: seq<byte>, c: seq<nat>, s: nat, cs: seq<nat>)
    requires |t| >= 1 && Tallied(labels, t, |t| - 1) == Ok(c)
    requires Steps(labels, rules, c, s) == Ok(cs)
    ensures var v := Census(Grow(rules, t, s));
      var m := LeastCommonFixed(labels, cs, t);
      0 < m && (exists x :: 0 <= x < 256 && v[x] == m) && forall x :: 0 <= x < 256 && v[x] > 0 ==> m <= v[x]
  {
    var g := Grow(rules, t, s);
    LeastCommonFixedIsMin(labels, rules, t, c, s, cs);
    CensusFirst(g);
    MinToIsLeast(Census(g), |g|, g[0] as nat);
  }

  /** The corrected search finds the least count present in the grown string, searched from its length. */
  lemma {:induction false} LeastCommonFixedIsMin(labels: seq<Pair>, rules: seq<Rule>, t: seq<byte>, c: seq<nat>, s: nat, cs: seq<nat>)
    requires |t| >= 1 && Tallied(labels, t, |t| - 1) == Ok(c)
    requires Steps(labels, rules, c, s) == Ok(cs)
    ensures LeastCommonFixed(labels, cs, t) == MinTo(Census(Grow(rules, t, s)), 256, |Grow(rules, t, s)|)
  {
    var g := Grow(rules, t, s);
    ElementCountsOfGrowth(labels, rules, t, c, s, cs);
    MinToHalved(Census(g), ElementCounts(labels, cs, t), 2 * SumTo(cs, |cs|) + 2, |g|);
  }

  /** The first element of a string occurs in it, at most as often as the string is long. */
  lemma CensusFirst(u: seq<byte>)
    requires |u| >= 1
    ensures 0 < Census(u)[u[0] as nat] <= |u|
  {
    OccBounds(u, u[0], |u|);
  }

  /**
   * Searched from a start no smaller than some present count, the search
   * finds the least present count.
   */
  lemma MinToIsLeast(v: seq<nat>, start: nat, y: nat)
    requires |v| == 256 && y < 256 && 0 < v[y] <= start
    ensures var m := MinTo(v, 256, start);
      0 < m && (exists x :: 0 <= x < 256 && v[x] == m) && forall x :: 0 <= x < 256 && v[x] > 0 ==> m <= v[x]
  {
    var m := MinTo(v, 256, start);
    assert m <= v[y];
    if m == start {
      assert v[y] == m;
    }
  }
}
