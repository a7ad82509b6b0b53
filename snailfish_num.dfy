/**
 * Snailfish numbers (src/day_18.c): the tree, and the two rewrites that
 * reduction applies to it, explode and split.
 *
 * The C code keeps each pair as a struct with a literal field and a child
 * pointer per side, plus a parent pointer used to walk to the neighbouring
 * literals. Here a number is an immutable tree; the walk along parent
 * pointers becomes a carry that travels back up the recursion and is added
 * to the nearest literal on the way.
 */
module SnailfishNum {
  import opened Wrappers

  /** A literal value, or a pair of two snailfish numbers. */
  datatype Num = Lit(v: nat) | Pair(left: Num, right: Num)

  /** The literal field of one side of a pair: 0 when that side holds a sub-pair. */
  function LitVal(side: Num): nat
  {
    if side.Lit? then side.v else 0
  }

  /** All literal values of t, left to right. */
  function Lits(t: Num): (s: seq<nat>)
    ensures |s| >= 1
  {
    match t
    case Lit(v) => [v]
    case Pair(l, r) => Lits(l) + Lits(r)
  }

  /**
   * The depth of every literal of t, parallel to Lits(t), when t itself sits
   * at depth d. The outermost pair is at depth 0, so its sides are at depth 1.
   */
  function Depths(t: Num, d: nat): (ds: seq<nat>)
    ensures |ds| == |Lits(t)|
  {
    match t
    case Lit(_) => [d]
    case Pair(l, r) => Depths(l, d + 1) + Depths(r, d + 1)
  }

  function PairCount(t: Num): nat
  {
    match t
    case Lit(_) => 0
    case Pair(l, r) => 1 + PairCount(l) + PairCount(r)
  }

  /** s with x added to its first element (s itself when empty). */
  function AddFirst(s: seq<nat>, x: nat): (r: seq<nat>)
    ensures |r| == |s|
  {
    if s == [] then [] else s[0 := s[0] + x]
  }

  /** s with x added to its last element (s itself when empty). */
  function AddLast(s: seq<nat>, x: nat): (r: seq<nat>)
    ensures |r| == |s|
  {
    if s == [] then [] else s[|s| - 1 := s[|s| - 1] + x]
  }

  lemma {:induction false} AddFirstConcat(a: seq<nat>, b: seq<nat>, x: nat)
    ensures AddFirst(a + b, x) == if a == [] then AddFirst(b, x) else AddFirst(a, x) + b
  {
  }

  lemma {:induction false} AddLastConcat(a: seq<nat>, b: seq<nat>, x: nat)
    ensures AddLast(a + b, x) == if b == [] then AddLast(a, x) else a + AddLast(b, x)
  {
    if b == [] {
      assert a + b == a;
    }
  }

  /** Adds x to the leftmost literal of t: where a carried right value lands. */
  function AddLeftmost(t: Num, x: nat): (r: Num)
    ensures Lits(r) == AddFirst(Lits(t), x)
    ensures PairCount(r) == PairCount(t)
  {
    match t
    case Lit(v) => Lit(v + x)
    case Pair(l, rt) =>
      AddFirstConcat(Lits(l), Lits(rt), x);
      Pair(AddLeftmost(l, x), rt)
  }

  /** Adds x to the rightmost literal of t: where a carried left value lands. */
  function AddRightmost(t: Num, x: nat): (r: Num)
    ensures Lits(r) == AddLast(Lits(t), x)
    ensures PairCount(r) == PairCount(t)
  {
    match t
    case Lit(v) => Lit(v + x)
    case Pair(l, rt) =>
      AddLastConcat(Lits(l), Lits(rt), x);
      Pair(l, AddRightmost(rt, x))
  }

  lemma {:induction false} AddLeftmostDepths(t: Num, x: nat, d: nat)
    ensures Depths(AddLeftmost(t, x), d) == Depths(t, d)
  {
    match t
    case Lit(_) =>
    case Pair(l, r) => AddLeftmostDepths(l, x, d + 1);
  }

  lemma {:induction false} AddRightmostDepths(t: Num, x: nat, d: nat)
    ensures Depths(AddRightmost(t, x), d) == Depths(t, d)
  {
    match t
    case Lit(_) =>
    case Pair(l, r) => AddRightmostDepths(r, x, d + 1);
  }

  /** Literals i and i+1 of t are the two sides of one pair. */
  predicate SiblingAt(t: Num, i: nat)
  {
    match t
    case Lit(_) => false
    case Pair(l, r) =>
      (l.Lit? && r.Lit? && i == 0)
      || SiblingAt(l, i)
      || (i >= |Lits(l)| && SiblingAt(r, i - |Lits(l)|))
  }

  lemma {:induction false} SiblingInRange(t: Num, i: nat)
    requires SiblingAt(t, i)
    ensures i + 1 < |Lits(t)|
  {
    match t
    case Pair(l, r) =>
      if l.Lit? && r.Lit? && i == 0 {
      } else if SiblingAt(l, i) {
        SiblingInRange(l, i);
      } else {
        SiblingInRange(r, i - |Lits(l)|);
      }
  }

  /**
   * Literals i and i+1 form a pair of two literals nested inside four pairs,
   * i.e. a pair at depth 4 or more whose sides are both literals: the pairs
   * that explode.
   */
  predicate Explodable(t: Num, d: nat, i: nat)
  {
    i + 1 < |Lits(t)| && SiblingAt(t, i) && Depths(t, d)[i] >= 5
  }

  /** What is left after exploding the pair whose literals are s[i] and s[i+1]. */
  function Redistributed(s: seq<nat>, i: nat): (r: seq<nat>)
    requires i + 1 < |s|
    ensures |r| + 1 == |s|
  {
    if i == 0 then [0] + AddFirst(s[2..], s[1])
    else [s[0] + (if i == 1 then s[1] else 0)] + Redistributed(s[1..], i - 1)
  }

  /** Depths after the pair whose literals are at i and i+1 becomes one literal. */
  function Collapsed(ds: seq<nat>, i: nat): (r: seq<nat>)
    requires i + 1 < |ds| && ds[i] >= 1
    ensures |r| + 1 == |ds|
  {
    ds[..i] + [ds[i] - 1] + ds[i + 2..]
  }

  lemma AppendAssoc(a: seq<nat>, b: seq<nat>, c: seq<nat>)
    ensures (a + b) + c == a + (b + c)
  {
  }

  lemma {:induction false} RedistributedStep(s: seq<nat>, i: nat)
    requires 0 < i && i + 1 < |s|
    ensures Redistributed(s, i) == [s[0] + (if i == 1 then s[1] else 0)] + Redistributed(s[1..], i - 1)
  {
  }

  /** The direct description: the left value joins s[..i] at its end, the right value s[i+2..] at its start. */
  lemma {:induction false} RedistributedClosedForm(s: seq<nat>, i: nat)
    requires i + 1 < |s|
    ensures Redistributed(s, i) == AddLast(s[..i], s[i]) + [0] + AddFirst(s[i + 2..], s[i + 1])
  {
    if i > 0 {
      assert s == s[..i] + s[i..];
      RedistributedInRight(s[..i], s[i..], 0);
      assert s[i..][2..] == s[i + 2..];
    }
  }

  lemma {:induction false} RedistributedInLeft(sl: seq<nat>, sr: seq<nat>, i: nat)
    requires i + 1 < |sl|
    ensures Redistributed(sl + sr, i)
         == Redistributed(sl, i) + AddFirst(sr, if i + 2 == |sl| then sl[i + 1] else 0)
    decreases i
  {
    var s := sl + sr;
    if i == 0 {
      assert s[2..] == sl[2..] + sr && s[1] == sl[1];
      AddFirstConcat(sl[2..], sr, sl[1]);
      if 2 < |sl| {
        assert AddFirst(sr, 0) == sr;
      }
    } else {
      var tl := sl[1..];
      assert s[1..] == tl + sr && s[0] == sl[0] && s[1] == sl[1] && tl[i] == sl[i + 1];
      RedistributedInLeft(tl, sr, i - 1);
      RedistributedStep(s, i);
      RedistributedStep(sl, i);
    }
  }

  lemma {:induction false} RedistributedInRight(sl: seq<nat>, sr: seq<nat>, i: nat)
    requires i + 1 < |sr| && sl != []
    ensures Redistributed(sl + sr, |sl| + i)
         == AddLast(sl, if i == 0 then sr[0] else 0) + Redistributed(sr, i)
    decreases |sl|
  {
    var s := sl + sr;
    var c := if i == 0 then sr[0] else 0;
    RedistributedStep(s, |sl| + i);
    if |sl| == 1 {
      assert s[1..] == sr && s[1] == sr[0];
      assert AddLast(sl, c) == [sl[0] + c];
    } else {
      var tl := sl[1..];
      RedistributedInRight(tl, sr, i);
      assert s[1..] == tl + sr && s[0] == sl[0];
      assert sl == [sl[0]] + tl;
      AddLastConcat([sl[0]], tl, c);
      AppendAssoc([sl[0]], AddLast(tl, c), Redistributed(sr, i));
    }
  }

  lemma {:induction false} CollapsedInLeft(dl: seq<nat>, dr: seq<nat>, i: nat)
    requires i + 1 < |dl| && dl[i] >= 1
    ensures Collapsed(dl + dr, i) == Collapsed(dl, i) + dr
  {
    assert (dl + dr)[..i] == dl[..i];
    assert (dl + dr)[i + 2..] == dl[i + 2..] + dr;
  }

  lemma {:induction false} CollapsedInRight(dl: seq<nat>, dr: seq<nat>, i: nat)
    requires i + 1 < |dr| && dr[i] >= 1
    ensures |dl| + i + 1 < |dl + dr| && (dl + dr)[|dl| + i] >= 1
    ensures Collapsed(dl + dr, |dl| + i) == dl + Collapsed(dr, i)
  {
    assert (dl + dr)[..|dl| + i] == dl + dr[..i];
    assert (dl + dr)[|dl| + i + 2..] == dr[i + 2..];
  }

  /**
   * An explosion found below some pair: the rewritten subtree, and the two
   * values still travelling to the nearest literal on the left and on the
   * right outside that subtree (0 once they have been added).
   */
  datatype Exploded = Exploded(tree: Num, carryLeft: nat, carryRight: nat)

  /**
   * The explode search of one pair at the given depth: look into the left
   * side first when it is a pair; otherwise, at depth 4 or more with both
   * sides literal, explode this pair; if nothing happened, look into the
   * right side when it is a pair.
   */
  function ExplodeAt(t: Num, depth: nat): Option<Exploded>
  {
    match t
    case Lit(_) => None
    case Pair(l, r) =>
      var fromLeft := if l.Pair? then ExplodeAt(l, depth + 1) else None;
      if fromLeft.Some? then
        var e := fromLeft.value;
        Some(Exploded(Pair(e.tree, AddLeftmost(r, e.carryRight)), e.carryLeft, 0))
      else if l.Lit? && depth >= 4 && r.Lit? then
        Some(Exploded(Lit(0), l.v, r.v))
      else if r.Pair? then
        match ExplodeAt(r, depth + 1)
        case Some(e) => Some(Exploded(Pair(AddRightmost(l, e.carryLeft), e.tree), 0, e.carryRight))
        case None => None
      else
        None
  }

  /** One explosion of a whole number; values carried past either end are dropped. */
  function Explode(t: Num): Option<Num>
  {
    match ExplodeAt(t, 0)
    case None => None
    case Some(e) => Some(e.tree)
  }

  lemma {:induction false} ExplodeAtNone(t: Num, d: nat)
    requires ExplodeAt(t, d).None?
    ensures forall j :: !Explodable(t, d, j)
  {
    match t
    case Lit(_) =>
    case Pair(l, r) =>
      if l.Pair? { ExplodeAtNone(l, d + 1); }
      if r.Pair? { ExplodeAtNone(r, d + 1); }
      forall j: nat | Explodable(t, d, j) ensures false {
        if l.Lit? && r.Lit? && j == 0 {
        } else if SiblingAt(l, j) {
          SiblingInRange(l, j);
          assert Depths(t, d)[j] == Depths(l, d + 1)[j];
          assert Explodable(l, d + 1, j);
        } else {
          var j' := j - |Lits(l)|;
          SiblingInRange(r, j');
          assert Depths(t, d)[j] == Depths(r, d + 1)[j'];
          assert Explodable(r, d + 1, j');
        }
      }
  }

  /** i is the leftmost explodable pair of t. */
  predicate LeftmostExplodable(t: Num, d: nat, i: nat)
  {
    Explodable(t, d, i) && forall j: nat :: Explodable(t, d, j) ==> i <= j
  }

  /**
   * The literals after exploding the pair at literal index i: its left value
   * goes to the nearest literal before it and its right value to the nearest
   * literal after it, or is carried out of t when there is none; the pair
   * becomes the literal 0 and no other literal changes.
   */
  predicate ExplodedLits(s: seq<nat>, i: nat, e: Exploded)
    requires i + 1 < |s|
  {
    Lits(e.tree) == Redistributed(s, i)
    && e.carryLeft == (if i == 0 then s[0] else 0)
    && e.carryRight == (if i + 2 == |s| then s[i + 1] else 0)
  }

  /** The shape after exploding the pair at literal index i: it becomes a literal one level up. */
  predicate ExplodedShape(t: Num, d: nat, i: nat, u: Num)
    requires i + 1 < |Lits(t)| && Depths(t, d)[i] >= 1
  {
    Depths(u, d) == Collapsed(Depths(t, d), i) && PairCount(u) + 1 == PairCount(t)
  }

  /** The whole effect of an explosion of t at literal index i. */
  predicate ExplodedAt(t: Num, d: nat, e: Exploded, i: nat)
  {
    LeftmostExplodable(t, d, i) && ExplodedLits(Lits(t), i, e) && ExplodedShape(t, d, i, e.tree)
  }

  lemma {:induction false} LeftmostInLeft(l: Num, r: Num, d: nat, cd: nat, i: nat)
    requires cd == d + 1 && LeftmostExplodable(l, cd, i)
    ensures LeftmostExplodable(Pair(l, r), d, i)
  {
    var t := Pair(l, r);
    assert Depths(t, d)[i] == Depths(l, cd)[i];
    forall j: nat | Explodable(t, d, j) ensures i <= j {
      if SiblingAt(l, j) {
        SiblingInRange(l, j);
        assert Depths(t, d)[j] == Depths(l, cd)[j];
        assert Explodable(l, cd, j);
      }
    }
  }

  lemma {:induction false} ExplodableLeftPart(l: Num, r: Num, d: nat, cd: nat, j: nat)
    requires cd == d + 1 && Explodable(Pair(l, r), d, j) && SiblingAt(l, j)
    ensures Explodable(l, cd, j)
  {
    SiblingInRange(l, j);
    assert Depths(Pair(l, r), d)[j] == Depths(l, cd)[j];
  }

  lemma {:induction false} ExplodableRightPart(l: Num, r: Num, d: nat, cd: nat, j: nat, j': nat)
    requires cd == d + 1 && r.Pair? && Explodable(Pair(l, r), d, j) && !SiblingAt(l, j)
    requires j >= |Lits(l)| && j' == j - |Lits(l)|
    ensures Explodable(r, cd, j')
  {
    assert SiblingAt(r, j');
    SiblingInRange(r, j');
    assert Depths(Pair(l, r), d)[j] == Depths(r, cd)[j'];
  }

  /** A pair explodable inside Pair(l, r) lies in the left side or in the right side. */
  lemma {:induction false} ExplodableInSide(l: Num, r: Num, d: nat, cd: nat, j: nat)
    requires cd == d + 1 && r.Pair? && Explodable(Pair(l, r), d, j)
    ensures Explodable(l, cd, j) || (j >= |Lits(l)| && Explodable(r, cd, j - |Lits(l)|))
  {
    if SiblingAt(l, j) {
      ExplodableLeftPart(l, r, d, cd, j);
    } else {
      assert j >= |Lits(l)|;
      ExplodableRightPart(l, r, d, cd, j, j - |Lits(l)|);
    }
  }

  lemma {:induction false} LeftmostInRight(l: Num, r: Num, d: nat, cd: nat, i: nat, k: nat)
    requires cd == d + 1 && r.Pair? && LeftmostExplodable(r, cd, i)
    requires l.Pair? ==> ExplodeAt(l, cd).None?
    requires k == |Lits(l)| + i
    ensures LeftmostExplodable(Pair(l, r), d, k)
  {
    var t := Pair(l, r);
    var n := |Lits(l)|;
    assert Depths(t, d)[n + i] == Depths(r, cd)[i];
    assert SiblingAt(t, n + i);
    forall j: nat | Explodable(t, d, j) ensures k <= j {
      ExplodableInSide(l, r, d, cd, j);
      if Explodable(l, cd, j) {
        ExplodeAtNone(l, cd);
      }
    }
  }

  lemma {:induction false} LitsInLeft(sl: seq<nat>, sr: seq<nat>, i: nat, e: Exploded, rt: Num)
    requires i + 1 < |sl| && ExplodedLits(sl, i, e) && Lits(rt) == AddFirst(sr, e.carryRight)
    ensures ExplodedLits(sl + sr, i, Exploded(Pair(e.tree, rt), e.carryLeft, 0))
  {
    var s := sl + sr;
    assert e.carryRight == (if i + 2 == |sl| then sl[i + 1] else 0);
    RedistributedInLeft(sl, sr, i);
    assert Redistributed(s, i) == Redistributed(sl, i) + AddFirst(sr, e.carryRight);
    assert Lits(Pair(e.tree, rt)) == Lits(e.tree) + Lits(rt);
    assert s[0] == sl[0];
  }

  lemma {:induction false} LitsInRight(sl: seq<nat>, sr: seq<nat>, i: nat, e: Exploded, lt: Num, k: nat, v: Exploded)
    requires sl != [] && i + 1 < |sr| && ExplodedLits(sr, i, e) && Lits(lt) == AddLast(sl, e.carryLeft)
    requires k == |sl| + i && v == Exploded(Pair(lt, e.tree), 0, e.carryRight)
    ensures ExplodedLits(sl + sr, k, v)
  {
    RedistributedInRight(sl, sr, i);
    assert (sl + sr)[k + 1] == sr[i + 1];
  }

  lemma {:induction false} ShapeInLeft(l: Num, r: Num, d: nat, cd: nat, i: nat, u: Num, x: nat)
    requires cd == d + 1 && i + 1 < |Lits(l)| && Depths(l, cd)[i] >= 1
    requires ExplodedShape(l, cd, i, u)
    ensures Depths(Pair(l, r), d)[i] >= 1
    ensures ExplodedShape(Pair(l, r), d, i, Pair(u, AddLeftmost(r, x)))
  {
    AddLeftmostDepths(r, x, cd);
    CollapsedInLeft(Depths(l, cd), Depths(r, cd), i);
  }

  lemma {:induction false} ShapeInRight(l: Num, r: Num, d: nat, cd: nat, i: nat, u: Num, x: nat, k: nat, w: Num)
    requires cd == d + 1 && i + 1 < |Lits(r)| && Depths(r, cd)[i] >= 1
    requires ExplodedShape(r, cd, i, u)
    requires k == |Lits(l)| + i && w == Pair(AddRightmost(l, x), u)
    ensures k + 1 < |Lits(Pair(l, r))| && Depths(Pair(l, r), d)[k] >= 1
    ensures ExplodedShape(Pair(l, r), d, k, w)
  {
    AddRightmostDepths(l, x, cd);
    ShapeRightDepths(Depths(l, cd), Depths(r, cd), Depths(u, cd), Depths(w, d), Depths(Pair(l, r), d), i, k);
  }

  /** The depth sequences of `ShapeInRight`, with the trees out of the way. */
  lemma ShapeRightDepths(dl: seq<nat>, dr: seq<nat>, du: seq<nat>, dw: seq<nat>, dt: seq<nat>, i: nat, k: nat)
    requires i + 1 < |dr| && dr[i] >= 1 && du == Collapsed(dr, i)
    requires dt == dl + dr && dw == dl + du && k == |dl| + i
    ensures k + 1 < |dt| && dt[k] >= 1 && dw == Collapsed(dt, k)
  {
    CollapsedInRight(dl, dr, i);
  }

  lemma {:induction false} ExplodedInLeft(l: Num, r: Num, d: nat, cd: nat, e: Exploded, i: nat)
    requires cd == d + 1 && l.Pair? && ExplodedAt(l, cd, e, i)
    ensures ExplodedAt(Pair(l, r), d, Exploded(Pair(e.tree, AddLeftmost(r, e.carryRight)), e.carryLeft, 0), i)
  {
    LeftmostInLeft(l, r, d, cd, i);
    LitsInLeft(Lits(l), Lits(r), i, e, AddLeftmost(r, e.carryRight));
    ShapeInLeft(l, r, d, cd, i, e.tree, e.carryRight);
  }

  lemma {:induction false} ExplodedInRight(l: Num, r: Num, d: nat, cd: nat, e: Exploded, i: nat, k: nat, v: Exploded)
    requires cd == d + 1 && r.Pair? && ExplodedAt(r, cd, e, i)
    requires l.Pair? ==> ExplodeAt(l, cd).None?
    requires k == |Lits(l)| + i && v == Exploded(Pair(AddRightmost(l, e.carryLeft), e.tree), 0, e.carryRight)
    ensures ExplodedAt(Pair(l, r), d, v, k)
  {
    var lt := AddRightmost(l, e.carryLeft);
    LitsInRight(Lits(l), Lits(r), i, e, lt, k, v);
    ShapeInRight(l, r, d, cd, i, e.tree, e.carryLeft, k, v.tree);
    LeftmostInRight(l, r, d, cd, i, k);
  }

  lemma {:induction false} ExplodeAtLeftCase(l: Num, r: Num, d: nat) returns (i: nat)
    requires l.Pair? && ExplodeAt(l, d + 1).Some?
    ensures ExplodeAt(Pair(l, r), d).Some?
    ensures ExplodedAt(Pair(l, r), d, ExplodeAt(Pair(l, r), d).value, i)
    decreases Pair(l, r), 0
  {
    var e := ExplodeAt(l, d + 1).value;
    i := ExplodeAtSpec(l, d + 1);
    assert ExplodeAt(Pair(l, r), d).value == Exploded(Pair(e.tree, AddLeftmost(r, e.carryRight)), e.carryLeft, 0);
    ExplodedInLeft(l, r, d, d + 1, e, i);
  }

  lemma {:induction false} ExplodeAtRightValue(l: Num, r: Num, d: nat)
    requires !(l.Pair? && ExplodeAt(l, d + 1).Some?) && !(l.Lit? && d >= 4 && r.Lit?)
    requires r.Pair? && ExplodeAt(r, d + 1).Some?
    ensures ExplodeAt(Pair(l, r), d).Some?
    ensures ExplodeAt(Pair(l, r), d).value == Exploded(Pair(AddRightmost(l, ExplodeAt(r, d + 1).value.carryLeft), ExplodeAt(r, d + 1).value.tree), 0, ExplodeAt(r, d + 1).value.carryRight)
  {
  }

  lemma {:induction false} ExplodeAtRightStep(l: Num, r: Num, d: nat, i: nat) returns (k: nat)
    requires !(l.Pair? && ExplodeAt(l, d + 1).Some?) && !(l.Lit? && d >= 4 && r.Lit?)
    requires r.Pair? && ExplodeAt(r, d + 1).Some?
    requires ExplodedAt(r, d + 1, ExplodeAt(r, d + 1).value, i)
    ensures ExplodeAt(Pair(l, r), d).Some?
    ensures ExplodedAt(Pair(l, r), d, ExplodeAt(Pair(l, r), d).value, k)
  {
    k := |Lits(l)| + i;
    ExplodeAtRightValue(l, r, d);
    ExplodedInRight(l, r, d, d + 1, ExplodeAt(r, d + 1).value, i, k, ExplodeAt(Pair(l, r), d).value);
  }

  lemma {:induction false} ExplodeAtRightCase(l: Num, r: Num, d: nat) returns (i: nat)
    requires !(l.Pair? && ExplodeAt(l, d + 1).Some?) && !(l.Lit? && d >= 4 && r.Lit?)
    requires ExplodeAt(Pair(l, r), d).Some?
    ensures ExplodedAt(Pair(l, r), d, ExplodeAt(Pair(l, r), d).value, i)
    decreases Pair(l, r), 0
  {
    assert r.Pair? && ExplodeAt(r, d + 1).Some?;
    var i' := ExplodeAtSpec(r, d + 1);
    i := ExplodeAtRightStep(l, r, d, i');
  }

  lemma {:induction false} ExplodeAtHereCase(a: nat, b: nat, d: nat)
    requires d >= 4
    ensures ExplodedAt(Pair(Lit(a), Lit(b)), d, Exploded(Lit(0), a, b), 0)
  {
    assert Redistributed([a, b], 0) == [0];
    assert Collapsed([d + 1, d + 1], 0) == [d];
  }

  /** The explosion the search performs is the one ExplodedAt describes. */
  lemma {:induction false} ExplodeAtSpec(t: Num, d: nat) returns (i: nat)
    requires ExplodeAt(t, d).Some?
    ensures ExplodedAt(t, d, ExplodeAt(t, d).value, i)
    decreases t, 1
  {
    match t
    case Pair(l, r) =>
      if l.Pair? && ExplodeAt(l, d + 1).Some? {
        i := ExplodeAtLeftCase(l, r, d);
      } else if l.Lit? && d >= 4 && r.Lit? {
        i := 0;
        ExplodeAtHereCase(l.v, r.v, d);
      } else {
        i := ExplodeAtRightCase(l, r, d);
      }
  }

  /** The search finds nothing exactly when no pair is explodable. */
  lemma {:induction false} ExplodeAtNoneIff(t: Num, d: nat)
    ensures ExplodeAt(t, d).None? <==> forall j :: !Explodable(t, d, j)
  {
    if ExplodeAt(t, d).None? {
      ExplodeAtNone(t, d);
    } else {
      var i := ExplodeAtSpec(t, d);
    }
  }

  /**
   * Every pair at depth 4 or more contains a pair that the search explodes.
   * This is why the C explode may tell which side of its parent it came from
   * by testing only whether the parent's left side is a pair: when the
   * search explodes a right side, the left side beside it is a literal.
   */
  lemma {:induction false} DeepPairExplodes(t: Num, d: nat)
    requires d >= 4 && t.Pair?
    ensures ExplodeAt(t, d).Some?
  {
    var l, r := t.left, t.right;
    if l.Pair? {
      DeepPairExplodes(l, d + 1);
    } else if r.Pair? {
      DeepPairExplodes(r, d + 1);
    }
  }

  lemma {:induction false} ExplodedRightSideHasLiteralSibling(l: Num, r: Num, d: nat)
    requires d >= 3 && r.Pair? && (l.Pair? ==> ExplodeAt(l, d + 1).None?)
    ensures l.Lit?
  {
    if l.Pair? { DeepPairExplodes(l, d + 1); }
  }

  /** A literal of at least 10 split into its rounded-down and rounded-up halves. */
  function Halves(v: nat): Num
  {
    Pair(Lit(v / 2), Lit((v + 1) / 2))
  }

  /** Splits the left literal of a pair when it is at least 10, otherwise the right one. */
  function SplitSide(l: Num, r: Num): Num
  {
    if LitVal(l) >= 10 then Pair(Halves(LitVal(l)), r) else Pair(l, Halves(LitVal(r)))
  }

  /**
   * The split search of one pair: look into the left side when it is a
   * pair; if nothing happened and either literal field is at least 10,
   * split this pair; if still nothing happened, look into the right side.
   */
  function SplitAt(t: Num): Option<Num>
  {
    match t
    case Lit(_) => None
    case Pair(l, r) =>
      var fromLeft := if l.Pair? then SplitAt(l) else None;
      if fromLeft.Some? then
        Some(Pair(fromLeft.value, r))
      else if LitVal(l) >= 10 || LitVal(r) >= 10 then
        Some(SplitSide(l, r))
      else if r.Pair? then
        match SplitAt(r)
        case Some(r') => Some(Pair(l, r'))
        case None => None
      else
        None
  }

  predicate AllBelowTen(s: seq<nat>)
  {
    forall k :: 0 <= k < |s| ==> s[k] < 10
  }

  /** s with its literal at k replaced by the two halves of that literal. */
  function SplitLits(s: seq<nat>, k: nat): (r: seq<nat>)
    requires k < |s|
    ensures |r| == |s| + 1
  {
    s[..k] + [s[k] / 2, (s[k] + 1) / 2] + s[k + 1..]
  }

  /** Depths with the literal at k replaced by a pair one level deeper. */
  function Deepened(ds: seq<nat>, k: nat): (r: seq<nat>)
    requires k < |ds|
    ensures |r| == |ds| + 1
  {
    ds[..k] + [ds[k] + 1, ds[k] + 1] + ds[k + 1..]
  }

  lemma {:induction false} SplitAtNone(t: Num)
    requires t.Pair? && SplitAt(t).None?
    ensures AllBelowTen(Lits(t))
  {
    var l, r := t.left, t.right;
    if l.Pair? { SplitAtNone(l); }
    if r.Pair? { SplitAtNone(r); }
  }

  /** k is the leftmost literal of s that is at least 10. */
  predicate LeftmostBig(s: seq<nat>, k: nat)
  {
    k < |s| && s[k] >= 10 && AllBelowTen(s[..k])
  }

  /** u is t with its literal at k split into a pair one level deeper. */
  predicate SplitShape(t: Num, d: nat, k: nat, u: Num)
    requires k < |Lits(t)|
  {
    Lits(u) == SplitLits(Lits(t), k) && Depths(u, d) == Deepened(Depths(t, d), k) && PairCount(u) == PairCount(t) + 1
  }

  /**
   * The split happens at the leftmost literal k that is at least 10; that
   * literal becomes a pair of its two halves one level deeper, and no other
   * literal changes.
   */
  predicate SplitDone(t: Num, d: nat, u: Num, k: nat)
  {
    LeftmostBig(Lits(t), k) && SplitShape(t, d, k, u)
  }

  lemma {:induction false} SplitLitsInLeft(a: seq<nat>, b: seq<nat>, k: nat)
    requires k < |a|
    ensures SplitLits(a + b, k) == SplitLits(a, k) + b
  {
    assert (a + b)[..k] == a[..k];
    assert (a + b)[k + 1..] == a[k + 1..] + b;
  }

  lemma {:induction false} SplitLitsInRight(a: seq<nat>, b: seq<nat>, k': nat, k: nat)
    requires k' < |b| && k == |a| + k'
    ensures SplitLits(a + b, k) == a + SplitLits(b, k')
  {
    assert (a + b)[..k] == a + b[..k'];
    assert (a + b)[k + 1..] == b[k' + 1..];
  }

  lemma {:induction false} DeepenedInLeft(a: seq<nat>, b: seq<nat>, k: nat)
    requires k < |a|
    ensures Deepened(a + b, k) == Deepened(a, k) + b
  {
    assert (a + b)[..k] == a[..k];
    assert (a + b)[k + 1..] == a[k + 1..] + b;
  }

  lemma {:induction false} DeepenedInRight(a: seq<nat>, b: seq<nat>, k': nat, k: nat)
    requires k' < |b| && k == |a| + k'
    ensures Deepened(a + b, k) == a + Deepened(b, k')
  {
    assert (a + b)[..k] == a + b[..k'];
    assert (a + b)[k + 1..] == b[k' + 1..];
  }

  lemma {:induction false} LeftmostBigInLeft(a: seq<nat>, b: seq<nat>, k: nat)
    requires LeftmostBig(a, k)
    ensures LeftmostBig(a + b, k)
  {
    assert (a + b)[..k] == a[..k];
  }

  lemma {:induction false} LeftmostBigInRight(a: seq<nat>, b: seq<nat>, k': nat, k: nat)
    requires AllBelowTen(a) && LeftmostBig(b, k') && k == |a| + k'
    ensures LeftmostBig(a + b, k)
  {
    assert (a + b)[..k] == a + b[..k'];
  }

  lemma {:induction false} SplitInLeft(l: Num, r: Num, d: nat, cd: nat, ul: Num, k: nat, u: Num)
    requires cd == d + 1 && SplitDone(l, cd, ul, k) && u == Pair(ul, r)
    ensures SplitDone(Pair(l, r), d, u, k)
  {
    LeftmostBigInLeft(Lits(l), Lits(r), k);
    SplitLitsInLeft(Lits(l), Lits(r), k);
    DeepenedInLeft(Depths(l, cd), Depths(r, cd), k);
  }

  lemma {:induction false} SplitInRight(l: Num, r: Num, d: nat, cd: nat, ur: Num, k': nat, k: nat, u: Num)
    requires cd == d + 1 && AllBelowTen(Lits(l)) && SplitDone(r, cd, ur, k')
    requires k == |Lits(l)| + k' && u == Pair(l, ur)
    ensures SplitDone(Pair(l, r), d, u, k)
  {
    LeftmostBigInRight(Lits(l), Lits(r), k', k);
    SplitLitsInRight(Lits(l), Lits(r), k', k);
    DeepenedInRight(Depths(l, cd), Depths(r, cd), k', k);
  }

  lemma {:induction false} HalvesShape(a: nat, d: nat)
    ensures Lits(Halves(a)) == SplitLits([a], 0) == [a / 2, (a + 1) / 2]
    ensures Depths(Halves(a), d) == Deepened([d], 0) == [d + 1, d + 1]
    ensures PairCount(Halves(a)) == 1
  {
  }

  lemma {:induction false} SplitLeftLiteral(a: nat, r: Num, d: nat)
    requires a >= 10
    ensures SplitDone(Pair(Lit(a), r), d, Pair(Halves(a), r), 0)
  {
    HalvesShape(a, d + 1);
    SplitLitsInLeft([a], Lits(r), 0);
    DeepenedInLeft([d + 1], Depths(r, d + 1), 0);
  }

  lemma {:induction false} SplitRightLiteral(l: Num, b: nat, d: nat, k: nat)
    requires b >= 10 && AllBelowTen(Lits(l)) && k == |Lits(l)|
    ensures SplitDone(Pair(l, Lit(b)), d, Pair(l, Halves(b)), k)
  {
    HalvesShape(b, d + 1);
    LeftmostBigInRight(Lits(l), [b], 0, k);
    SplitLitsInRight(Lits(l), [b], 0, k);
    DeepenedInRight(Depths(l, d + 1), [d + 1], 0, k);
  }

  lemma {:induction false} SplitAtLeftValue(l: Num, r: Num)
    requires l.Pair? && SplitAt(l).Some?
    ensures SplitAt(Pair(l, r)) == Some(Pair(SplitAt(l).value, r))
  {
  }

  lemma {:induction false} SplitAtHereValue(l: Num, r: Num)
    requires !(l.Pair? && SplitAt(l).Some?) && (LitVal(l) >= 10 || LitVal(r) >= 10)
    ensures SplitAt(Pair(l, r)) == Some(SplitSide(l, r))
  {
  }

  lemma {:induction false} SplitAtRightValue(l: Num, r: Num)
    requires !(l.Pair? && SplitAt(l).Some?) && LitVal(l) < 10 && LitVal(r) < 10
    requires r.Pair? && SplitAt(r).Some?
    ensures SplitAt(Pair(l, r)) == Some(Pair(l, SplitAt(r).value))
  {
  }

  /** A literal below 10, or a pair with no split, has all its literals below 10. */
  lemma {:induction false} NoSplitLeft(l: Num)
    requires !(l.Pair? && SplitAt(l).Some?) && LitVal(l) < 10
    ensures AllBelowTen(Lits(l))
  {
    if l.Pair? { SplitAtNone(l); }
  }

  lemma {:induction false} SplitAtLeftCase(l: Num, r: Num, d: nat) returns (k: nat)
    requires l.Pair? && SplitAt(l).Some?
    ensures SplitAt(Pair(l, r)).Some? && SplitDone(Pair(l, r), d, SplitAt(Pair(l, r)).value, k)
    decreases Pair(l, r), 0
  {
    k := SplitAtSpec(l, d + 1);
    SplitAtLeftValue(l, r);
    SplitInLeft(l, r, d, d + 1, SplitAt(l).value, k, SplitAt(Pair(l, r)).value);
  }

  lemma {:induction false} SplitAtHereCase(l: Num, r: Num, d: nat) returns (k: nat)
    requires !(l.Pair? && SplitAt(l).Some?) && (LitVal(l) >= 10 || LitVal(r) >= 10)
    ensures SplitAt(Pair(l, r)).Some? && SplitDone(Pair(l, r), d, SplitAt(Pair(l, r)).value, k)
  {
    SplitAtHereValue(l, r);
    if LitVal(l) >= 10 {
      k := 0;
      SplitLeftLiteral(l.v, r, d);
    } else {
      k := |Lits(l)|;
      NoSplitLeft(l);
      SplitRightLiteral(l, r.v, d, k);
    }
  }

  lemma {:induction false} SplitAtRightStep(l: Num, r: Num, d: nat, k': nat) returns (k: nat)
    requires !(l.Pair? && SplitAt(l).Some?) && LitVal(l) < 10 && LitVal(r) < 10
    requires r.Pair? && SplitAt(r).Some? && SplitDone(r, d + 1, SplitAt(r).value, k')
    ensures SplitAt(Pair(l, r)).Some? && SplitDone(Pair(l, r), d, SplitAt(Pair(l, r)).value, k)
  {
    k := |Lits(l)| + k';
    SplitAtRightValue(l, r);
    NoSplitLeft(l);
    SplitInRight(l, r, d, d + 1, SplitAt(r).value, k', k, SplitAt(Pair(l, r)).value);
  }

  lemma {:induction false} SplitAtRightCase(l: Num, r: Num, d: nat) returns (k: nat)
    requires !(l.Pair? && SplitAt(l).Some?) && LitVal(l) < 10 && LitVal(r) < 10
    requires SplitAt(Pair(l, r)).Some?
    ensures SplitDone(Pair(l, r), d, SplitAt(Pair(l, r)).value, k)
    decreases Pair(l, r), 0
  {
    assert r.Pair? && SplitAt(r).Some?;
    var k' := SplitAtSpec(r, d + 1);
    k := SplitAtRightStep(l, r, d, k');
  }

  /** The split the search performs is the one SplitDone describes. */
  lemma {:induction false} SplitAtSpec(t: Num, d: nat) returns (k: nat)
    requires SplitAt(t).Some?
    ensures SplitDone(t, d, SplitAt(t).value, k)
    decreases t, 1
  {
    match t
    case Pair(l, r) =>
      if l.Pair? && SplitAt(l).Some? {
        k := SplitAtLeftCase(l, r, d);
      } else if LitVal(l) >= 10 || LitVal(r) >= 10 {
        k := SplitAtHereCase(l, r, d);
      } else {
        k := SplitAtRightCase(l, r, d);
      }
  }

  /** The split search of a pair finds nothing exactly when every literal is below 10. */
  lemma {:induction false} SplitAtNoneIff(t: Num)
    requires t.Pair?
    ensures SplitAt(t).None? <==> AllBelowTen(Lits(t))
  {
    if SplitAt(t).None? {
      SplitAtNone(t);
    } else {
      var k := SplitAtSpec(t, 0);
    }
  }
}
