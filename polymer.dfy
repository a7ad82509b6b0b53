/**
 * Polymer pair insertion (src/day_14.c): the polymer is kept as a table of
 * pair counts whose labels are the pairs of the insertion rules, a step
 * moves every pair's count to the two pairs its rule produces, and element
 * counts are recovered from the pair counts.
 */
module Polymer {
  import opened Wrappers

  /** An element, as the unsigned char the C code indexes its count arrays with. */
  newtype byte = x: int | 0 <= x < 256

  datatype Pair = Pair(left: byte, right: byte)

  /** An insertion rule `AB -> C`. */
  datatype Rule = Rule(pair: Pair, result: byte)

  /** The `assert(false)` of a failed lookup. */
  datatype PolymerError = MissingPair(pair: Pair) | MissingRule(ruleFor: Pair)

  /** The table's labels are the rule pairs, in rule order. */
  function Labels(rules: seq<Rule>): (ls: seq<Pair>)
    ensures |ls| == |rules|
    ensures forall k :: 0 <= k < |rules| ==> ls[k] == rules[k].pair
  {
    seq(|rules|, k requires 0 <= k < |rules| => rules[k].pair)
  }

  /** The first index at or after `i` whose label equals `p`. */
  function FindFrom(labels: seq<Pair>, p: Pair, i: nat): (r: Option<nat>)
    requires i <= |labels|
    ensures r.Some? ==> i <= r.value < |labels| && labels[r.value] == p
    decreases |labels| - i
  {
    if i == |labels| then None
    else if labels[i] == p then Some(i)
    else FindFrom(labels, p, i + 1)
  }

  /** The search returns the first equal label, and reports none exactly when no label is equal. */
  lemma {:induction false} FindFromIsFirst(labels: seq<Pair>, p: Pair, i: nat)
    requires i <= |labels|
    ensures FindFrom(labels, p, i).Some? ==> forall k :: i <= k < FindFrom(labels, p, i).value ==> labels[k] != p
    ensures FindFrom(labels, p, i).None? <==> forall k :: i <= k < |labels| ==> labels[k] != p
    decreases |labels| - i
  {
    if i < |labels| && labels[i] != p {
      FindFromIsFirst(labels, p, i + 1);
    }
  }

  function Find(labels: seq<Pair>, p: Pair): Option<nat>
  {
    FindFrom(labels, p, 0)
  }

  /** The element the first rule for `p` inserts. */
  function ResultOf(rules: seq<Rule>, p: Pair): Option<byte>
  {
    match Find(Labels(rules), p)
    case None => None
    case Some(k) => Some(rules[k].result)
  }

  function Zeros(n: nat): (z: seq<nat>)
    ensures |z| == n && forall k :: 0 <= k < n ==> z[k] == 0
  {
    seq(n, _ => 0)
  }

  /** Sum of the first `n` counts. */
  function SumTo(s: seq<nat>, n: nat): nat
    requires n <= |s|
  {
    if n == 0 then 0 else SumTo(s, n - 1) + s[n - 1]
  }

  lemma {:induction false} SumUpdate(s: seq<nat>, i: nat, d: nat, n: nat)
    requires i < |s| && n <= |s|
    ensures SumTo(s[i := s[i] + d], n) == SumTo(s, n) + (if i < n then d else 0)
  {
    if n > 0 {
      SumUpdate(s, i, d, n - 1);
    }
  }

  lemma {:induction false} SumZeros(m: nat, n: nat)
    requires n <= m
    ensures SumTo(Zeros(m), n) == 0
  {
    if n > 0 {
      SumZeros(m, n - 1);
    }
  }

  /**
   * The pair table after counting the first `n` adjacent pairs of the
   * template `t`, each at the first label equal to it.
   */
  function Tallied(labels: seq<Pair>, t: seq<byte>, n: nat): (r: Result<seq<nat>, PolymerError>)
    requires n < |t|
    ensures r.Ok? ==> |r.value| == |labels|
  {
    if n == 0 then Ok(Zeros(|labels|))
    else
      match Tallied(labels, t, n - 1)
      case Err(e) => Err(e)
      case Ok(c) =>
        var p := Pair(t[n - 1], t[n]);
        match Find(labels, p)
        case None => Err(MissingPair(p))
        case Some(i) => Ok(c[i := c[i] + 1])
  }

  /** Once counting the template fails at some pair, the whole count reports that failure. */
  lemma {:induction false} TalliedErrPersists(labels: seq<Pair>, t: seq<byte>, n: nat, m: nat)
    requires n <= m < |t| && Tallied(labels, t, n).Err?
    ensures Tallied(labels, t, m) == Tallied(labels, t, n)
    decreases m - n
  {
    if n < m {
      TalliedErrPersists(labels, t, n, m - 1);
    }
  }

  /** The initial table counts every adjacent pair of the template once, so it sums to its length minus one. */
  lemma {:induction false} TalliedSum(labels: seq<Pair>, t: seq<byte>, n: nat)
    requires n < |t| && Tallied(labels, t, n).Ok?
    ensures SumTo(Tallied(labels, t, n).value, |labels|) == n
  {
    if n == 0 {
      SumZeros(|labels|, |labels|);
    } else {
      TalliedSum(labels, t, n - 1);
      var c := Tallied(labels, t, n - 1).value;
      var i := Find(labels, Pair(t[n - 1], t[n])).value;
      SumUpdate(c, i, 1, |labels|);
    }
  }

  /** Adds `d` at both produced indices, left first, as the step does. */
  function AddBoth(acc: seq<nat>, i: nat, j: nat, d: nat): (r: seq<nat>)
    requires i < |acc| && j < |acc|
    ensures |r| == |acc|
  {
    var a := acc[i := acc[i] + d];
    a[j := a[j] + d]
  }

  /** Adds `d` at index `i` and then at index `j` of the array. */
  method AddTwice(a: array<nat>, i: nat, j: nat, d: nat)
    requires i < a.Length && j < a.Length
    modifies a
    ensures a[..] == AddBoth(old(a[..]), i, j, d)
  {
    a[i] := a[i] + d;
    a[j] := a[j] + d;
  }

  /** Both produced indices receive `d`, twice over when they coincide. */
  lemma AddBothAt(acc: seq<nat>, i: nat, j: nat, d: nat, k: nat)
    requires i < |acc| && j < |acc| && k < |acc|
    ensures AddBoth(acc, i, j, d)[k] == acc[k] + (if k == i then d else 0) + (if k == j then d else 0)
  {
  }

  /**
   * The fresh table after the first `n` labels of the old table `prev` have
   * given their counts to the two pairs their rule produces.
   */
  function StepFrom(labels: seq<Pair>, rules: seq<Rule>, prev: seq<nat>, n: nat): (r: Result<seq<nat>, PolymerError>)
    requires n <= |prev| == |labels|
    ensures r.Ok? ==> |r.value| == |labels|
  {
    if n == 0 then Ok(Zeros(|labels|))
    else
      match StepFrom(labels, rules, prev, n - 1)
      case Err(e) => Err(e)
      case Ok(acc) =>
        var ab := labels[n - 1];
        match ResultOf(rules, ab)
        case None => Err(MissingRule(ab))
        case Some(c) =>
          match Find(labels, Pair(ab.left, c))
          case None => Err(MissingPair(Pair(ab.left, c)))
          case Some(i) =>
            match Find(labels, Pair(c, ab.right))
            case None => Err(MissingPair(Pair(c, ab.right)))
            case Some(j) => Ok(AddBoth(acc, i, j, prev[n - 1]))
  }

  /** One more label moves its count to the two indices its rule produces. */
  lemma StepFromNext(labels: seq<Pair>, rules: seq<Rule>, prev: seq<nat>, n: nat, acc: seq<nat>, c: byte, i: nat, j: nat)
    requires n < |prev| == |labels| && StepFrom(labels, rules, prev, n) == Ok(acc)
    requires ResultOf(rules, labels[n]) == Some(c)
    requires Find(labels, Pair(labels[n].left, c)) == Some(i) && Find(labels, Pair(c, labels[n].right)) == Some(j)
    ensures i < |acc| && j < |acc|
    ensures StepFrom(labels, rules, prev, n + 1) == Ok(AddBoth(acc, i, j, prev[n]))
  {
  }

  function NextCounts(labels: seq<Pair>, rules: seq<Rule>, prev: seq<nat>): Result<seq<nat>, PolymerError>
    requires |prev| == |labels|
  {
    StepFrom(labels, rules, prev, |prev|)
  }

  /** Once a step fails at some entry, the whole step reports that failure. */
  lemma {:induction false} StepFromErrPersists(labels: seq<Pair>, rules: seq<Rule>, prev: seq<nat>, n: nat, m: nat)
    requires n <= m <= |prev| == |labels| && StepFrom(labels, rules, prev, n).Err?
    ensures StepFrom(labels, rules, prev, m) == StepFrom(labels, rules, prev, n)
    decreases m - n
  {
    if n < m {
      StepFromErrPersists(labels, rules, prev, n, m - 1);
    }
  }

  /** Every pair hands its count on twice, so a step doubles the total. */
  lemma {:induction false} StepDoubles(labels: seq<Pair>, rules: seq<Rule>, prev: seq<nat>, n: nat)
    requires n <= |prev| == |labels| && StepFrom(labels, rules, prev, n).Ok?
    ensures SumTo(StepFrom(labels, rules, prev, n).value, |labels|) == 2 * SumTo(prev, n)
  {
    if n == 0 {
      SumZeros(|labels|, |labels|);
    } else {
      StepDoubles(labels, rules, prev, n - 1);
      var acc := StepFrom(labels, rules, prev, n - 1).value;
      var ab := labels[n - 1];
      var c := ResultOf(rules, ab).value;
      var i := Find(labels, Pair(ab.left, c)).value;
      var j := Find(labels, Pair(c, ab.right)).value;
      var a := acc[i := acc[i] + prev[n - 1]];
      SumUpdate(acc, i, prev[n - 1], |labels|);
      SumUpdate(a, j, prev[n - 1], |labels|);
    }
  }

  /** Per-element totals after the first `n` table entries added their count to both of their elements. */
  function ElementTally(labels: seq<Pair>, counts: seq<nat>, n: nat): (e: seq<nat>)
    requires n <= |labels| == |counts|
    ensures |e| == 256
  {
    if n == 0 then Zeros(256)
    else
      var p := labels[n - 1];
      AddBoth(ElementTally(labels, counts, n - 1), p.left as nat, p.right as nat, counts[n - 1])
  }

  /** Per-element totals of the whole table, with the template's first and last elements counted once more. */
  function ElementCounts(labels: seq<Pair>, counts: seq<nat>, t: seq<byte>): (e: seq<nat>)
    requires |labels| == |counts| && |t| >= 1
    ensures |e| == 256
  {
    AddBoth(ElementTally(labels, counts, |labels|), t[0] as nat, t[|t| - 1] as nat, 1)
  }

  /** The largest non-zero value among the first `n` entries, or 0. */
  function MaxTo(c: seq<nat>, n: nat): (m: nat)
    requires n <= |c|
    ensures forall k :: 0 <= k < n ==> c[k] <= m
    ensures m == 0 || exists k :: 0 <= k < n && c[k] == m
  {
    if n == 0 then 0
    else
      var m := MaxTo(c, n - 1);
      if c[n - 1] > 0 && m < c[n - 1] then c[n - 1] else m
  }

  /** The smallest non-zero value among the first `n` entries, starting from `start`. */
  function MinTo(c: seq<nat>, n: nat, start: nat): (m: nat)
    requires n <= |c|
    ensures m <= start
    ensures forall k :: 0 <= k < n && c[k] > 0 ==> m <= c[k]
    ensures m == start || exists k :: 0 <= k < n && 0 < c[k] == m
  {
    if n == 0 then start
    else
      var m := MinTo(c, n - 1, start);
      if c[n - 1] > 0 && m > c[n - 1] then c[n - 1] else m
  }

  /** The most-common element's count, halved. */
  function MostCommon(labels: seq<Pair>, counts: seq<nat>, t: seq<byte>): nat
    requires |labels| == |counts| && |t| >= 1
  {
    MaxTo(ElementCounts(labels, counts, t), 256) / 2
  }

  /** The least-common element's count, halved; the search starts at twice the total pair count. */
  function LeastCommon(labels: seq<Pair>, counts: seq<nat>, t: seq<byte>): nat
    requires |labels| == |counts| && |t| >= 1
  {
    MinTo(ElementCounts(labels, counts, t), 256, 2 * SumTo(counts, |counts|)) / 2
  }

  /**
   * The least-common search started above every possible element count: the
   * element counts sum to twice the pair total plus two.
   */
  function LeastCommonFixed(labels: seq<Pair>, counts: seq<nat>, t: seq<byte>): nat
    requires |labels| == |counts| && |t| >= 1
  {
    MinTo(ElementCounts(labels, counts, t), 256, 2 * SumTo(counts, |counts|) + 2) / 2
  }

  /** The runner's step loop: `s` steps, each replacing the table by the next one. */
  function Steps(labels: seq<Pair>, rules: seq<Rule>, c: seq<nat>, s: nat): (r: Result<seq<nat>, PolymerError>)
    requires |c| == |labels|
    ensures r.Ok? ==> |r.value| == |labels|
    decreases s
  {
    if s == 0 then Ok(c)
    else
      match NextCounts(labels, rules, c)
      case Err(e) => Err(e)
      case Ok(c1) => Steps(labels, rules, c1, s - 1)
  }

  /** The template's first element always has a non-zero count, so the least-common result never exceeds the most-common one. */
  lemma LeastNotAboveMost(labels: seq<Pair>, counts: seq<nat>, t: seq<byte>)
    requires |labels| == |counts| && |t| >= 1
    ensures LeastCommon(labels, counts, t) <= MostCommon(labels, counts, t)
  {
    var e := ElementCounts(labels, counts, t);
    var k := t[0] as nat;
    AddBothAt(ElementTally(labels, counts, |labels|), k, t[|t| - 1] as nat, 1, k);
    assert MinTo(e, 256, 2 * SumTo(counts, |counts|)) <= e[k] <= MaxTo(e, 256);
  }

  /** find_polymer_pair: a linear search for the first equal label. */
  method FindPolymerPair(labels: seq<Pair>, p: Pair) returns (r: Option<nat>)
    ensures r == Find(labels, p)
  {
    var i := 0;
    while i < |labels|
      invariant i <= |labels|
      invariant FindFrom(labels, p, i) == Find(labels, p)
    {
      if labels[i] == p {
        return Some(i);
      }
      i := i + 1;
    }
    return None;
  }

  /** find_result_of_pair: the element of the first rule whose pair equals `p`. */
  method FindResultOfPair(rules: seq<Rule>, p: Pair) returns (r: Option<byte>)
    ensures r == ResultOf(rules, p)
  {
    var i := 0;
    while i < |rules|
      invariant i <= |rules|
      invariant FindFrom(Labels(rules), p, i) == Find(Labels(rules), p)
    {
      if rules[i].pair == p {
        return Some(rules[i].result);
      }
      i := i + 1;
    }
    return None;
  }

  /** The polymer: pair labels and a parallel array of their counts. */
  class PairTable {
    var labels: seq<Pair>
    var counts: array<nat>

    ghost predicate Valid()
      reads this
    {
      counts.Length == |labels|
    }

    /** A table with the given labels and every count zero, as calloc leaves it. */
    constructor (labels: seq<Pair>)
      ensures Valid() && this.labels == labels && counts[..] == Zeros(|labels|)
      ensures fresh(counts)
    {
      this.labels := labels;
      counts := new nat[|labels|](_ => 0);
    }

    /**
     * perform_polymer_step: a fresh table with the same labels receives,
     * for every old entry AB with rule AB -> C, its count at AC and at CB,
     * and then replaces the old counts.
     */
    method Step(rules: seq<Rule>) returns (err: Option<PolymerError>)
      requires Valid()
      modifies this
      ensures Valid() && labels == old(labels)
      ensures match NextCounts(old(labels), rules, old(counts[..]))
        case Ok(c) => err == None && counts[..] == c
        case Err(e) => err == Some(e)
    {
      var next := new nat[|labels|](_ => 0);
      assert next[..] == Zeros(|labels|);
      var i := 0;
      while i < |labels|
        invariant i <= |labels| && next.Length == counts.Length == |labels|
        invariant StepFrom(labels, rules, counts[..], i) == Ok(next[..])
        modifies next
      {
        var ab := labels[i];
        var c := FindResultOfPair(rules, ab);
        if c.None? {
          StepFromErrPersists(labels, rules, counts[..], i + 1, |labels|);
          return Some(MissingRule(ab));
        }
        var l := FindPolymerPair(labels, Pair(ab.left, c.value));
        if l.None? {
          StepFromErrPersists(labels, rules, counts[..], i + 1, |labels|);
          return Some(MissingPair(Pair(ab.left, c.value)));
        }
        var r := FindPolymerPair(labels, Pair(c.value, ab.right));
        if r.None? {
          StepFromErrPersists(labels, rules, counts[..], i + 1, |labels|);
          return Some(MissingPair(Pair(c.value, ab.right)));
        }
        ghost var acc := next[..];
        AddTwice(next, l.value, r.value, counts[i]);
        StepFromNext(labels, rules, counts[..], i, acc, c.value, l.value, r.value);
        i := i + 1;
      }
      counts := next;
      return None;
    }

    /** Fills a 256-entry array with every element's count, as both count functions of the C code do. */
    method CountElements(t: seq<byte>) returns (count: array<nat>)
      requires Valid() && |t| >= 1
      ensures fresh(count) && count[..] == ElementCounts(labels, counts[..], t)
    {
      count := new nat[256](_ => 0);
      assert count[..] == Zeros(256);
      var i := 0;
      while i < |labels|
        invariant i <= |labels|
        invariant count[..] == ElementTally(labels, counts[..], i)
      {
        var p := labels[i];
        AddTwice(count, p.left as nat, p.right as nat, counts[i]);
        i := i + 1;
      }
      AddTwice(count, t[0] as nat, t[|t| - 1] as nat, 1);
    }

    /** find_num_occurances_of_most_common_char_in_polymer */
    method MostCommonCount(t: seq<byte>) returns (m: nat)
      requires Valid() && |t| >= 1
      ensures m == MostCommon(labels, counts[..], t)
    {
      var count := CountElements(t);
      var max := 0;
      var i := 0;
      while i < 256
        invariant i <= 256
        invariant max == MaxTo(count[..], i)
      {
        if count[i] > 0 && max < count[i] {
          max := count[i];
        }
        i := i + 1;
      }
      return max / 2;
    }

    /** find_num_occurances_of_least_common_char_in_polymer */
    method LeastCommonCount(t: seq<byte>) returns (m: nat)
      requires Valid() && |t| >= 1
      ensures m == LeastCommon(labels, counts[..], t)
    {
      var min := 0;
      var i := 0;
      while i < |labels|
        invariant i <= |labels|
        invariant min == 2 * SumTo(counts[..], i)
      {
        min := min + counts[i] * 2;
        i := i + 1;
      }
      var count := CountElements(t);
      i := 0;
      while i < 256
        invariant i <= 256
        invariant min == MinTo(count[..], i, 2 * SumTo(counts[..], |labels|))
      {
        if count[i] > 0 && min > count[i] {
          min := count[i];
        }
        i := i + 1;
      }
      return min / 2;
    }
  }

  /**
   * parse_text_into_polymer_and_rules, after the lines are read: a table
   * labelled with the rule pairs, then one increment for every adjacent pair
   * of the template.
   */
  method Setup(t: seq<byte>, rules: seq<Rule>) returns (r: Result<PairTable, PolymerError>)
    requires |t| >= 1
    ensures r.Ok? ==> fresh(r.value) && fresh(r.value.counts) && r.value.Valid() && r.value.labels == Labels(rules)
    ensures match Tallied(Labels(rules), t, |t| - 1)
      case Ok(c) => r.Ok? && r.value.counts[..] == c
      case Err(e) => r == Err(e)
  {
    var table := new PairTable(Labels(rules));
    var i := 0;
    while i < |t| - 1
      invariant i <= |t| - 1
      invariant table.Valid() && table.labels == Labels(rules)
      invariant Tallied(table.labels, t, i) == Ok(table.counts[..])
      modifies table.counts
    {
      var p := Pair(t[i], t[i + 1]);
      var k := FindPolymerPair(table.labels, p);
      if k.None? {
        TalliedErrPersists(table.labels, t, i + 1, |t| - 1);
        return Err(MissingPair(p));
      }
      table.counts[k.value] := table.counts[k.value] + 1;
      i := i + 1;
    }
    return Ok(table);
  }
}
