/**
 * Passage pathing (src/day_12.c): caves joined by passages, and the number
 * of routes from `start` to `end` in which small caves are entered at most
 * a set number of times. Big caves (upper-case names) may be entered any
 * number of times; `start` is never re-entered. In part 2 one small cave
 * may be entered twice, after which every small cave is down to one visit.
 */
module Caves {
  import opened Wrappers

  /** A cave: its name and the indices of the caves its passages lead to, once per passage. */
  datatype Cave = Cave(name: string, links: seq<nat>)

  predicate IsStart(name: string)
  {
    name == "start"
  }

  predicate IsEnd(name: string)
  {
    name == "end"
  }

  /** A small cave: lower-case first letter, and neither `start` nor `end`. */
  predicate IsSmall(name: string)
  {
    |name| > 0 && 'a' <= name[0] <= 'z' && !IsStart(name) && !IsEnd(name)
  }

  /** A big cave: upper-case first letter. */
  predicate IsBig(name: string)
  {
    |name| > 0 && 'A' <= name[0] <= 'Z'
  }

  /** `start` is neither small nor big, so it is never entered again; no cave is both. */
  lemma CaveClasses(name: string)
    ensures IsStart(name) ==> !IsSmall(name) && !IsBig(name)
    ensures !(IsSmall(name) && IsBig(name))
  {
  }

  // ------------------------------------------------------------- lookup

  function Names(caves: seq<Cave>): (ns: seq<string>)
    ensures |ns| == |caves| && forall i :: 0 <= i < |caves| ==> ns[i] == caves[i].name
  {
    seq(|caves|, i requires 0 <= i < |caves| => caves[i].name)
  }

  /** The index of the first cave called `name`, if any. */
  method FindCave(caves: seq<Cave>, name: string) returns (r: Option<nat>)
    ensures r.None? <==> name !in Names(caves)
    ensures r.Some? ==> r.value < |caves| && caves[r.value].name == name
    ensures r.Some? ==> forall i :: 0 <= i < r.value ==> caves[i].name != name
  {
    var i := 0;
    while i < |caves|
      invariant 0 <= i <= |caves| && forall m :: 0 <= m < i ==> caves[m].name != name
    {
      if caves[i].name == name {
        return Some(i);
      }
      i := i + 1;
    }
    return None;
  }

  // ------------------------------------------------------------ building

  /** The names `ns` with `x` added at the end when it is not already there. */
  function AddName(ns: seq<string>, x: string): (r: seq<string>)
    ensures x in r && forall y :: y in r <==> y in ns || y == x
  {
    if x in ns then ns else ns + [x]
  }

  /** The cave names in order of first appearance: `start`, then each passage's two ends in turn. */
  function CaveNames(edges: seq<(string, string)>): (ns: seq<string>)
    ensures |ns| >= 1 && ns[0] == "start"
  {
    if edges == [] then ["start"]
    else
      var e := edges[|edges| - 1];
      AddName(AddName(CaveNames(edges[..|edges| - 1]), e.0), e.1)
  }

  predicate Distinct(ns: seq<string>)
  {
    forall i, j :: 0 <= i < j < |ns| ==> ns[i] != ns[j]
  }

  lemma AddNameDistinct(ns: seq<string>, x: string)
    requires Distinct(ns)
    ensures Distinct(AddName(ns, x)) && |AddName(ns, x)| <= |ns| + 1
  {
  }

  /** No cave name is listed twice. */
  lemma {:induction false} CaveNamesDistinct(edges: seq<(string, string)>)
    ensures Distinct(CaveNames(edges))
  {
    if edges != [] {
      var pre := edges[..|edges| - 1];
      var e := edges[|edges| - 1];
      CaveNamesDistinct(pre);
      AddNameDistinct(CaveNames(pre), e.0);
      AddNameDistinct(AddName(CaveNames(pre), e.0), e.1);
    }
  }

  /** There are at most two caves per passage, plus `start`. */
  lemma {:induction false} CaveNamesBound(edges: seq<(string, string)>)
    ensures |CaveNames(edges)| <= 2 * |edges| + 1
  {
    if edges != [] {
      var pre := edges[..|edges| - 1];
      var e := edges[|edges| - 1];
      CaveNamesBound(pre);
      assert |AddName(CaveNames(pre), e.0)| <= |CaveNames(pre)| + 1;
    }
  }

  /** Every cave is `start` or an end of some passage. */
  lemma {:induction false} CaveNamesFromEdges(edges: seq<(string, string)>)
    ensures forall x :: x in CaveNames(edges) ==> x == "start" || exists e :: e in edges && (x == e.0 || x == e.1)
  {
    if edges != [] {
      var pre := edges[..|edges| - 1];
      CaveNamesFromEdges(pre);
      assert forall e :: e in pre ==> e in edges;
      assert edges[|edges| - 1] in edges;
    }
  }

  /** Every passage's ends are among the cave names. */
  lemma {:induction false} CaveNamesHoldEdges(edges: seq<(string, string)>)
    ensures forall e :: e in edges ==> e.0 in CaveNames(edges) && e.1 in CaveNames(edges)
  {
    if edges != [] {
      var pre := edges[..|edges| - 1];
      CaveNamesHoldEdges(pre);
      assert edges == pre + [edges[|edges| - 1]];
    }
  }

  /** The C code's cave array has one slot per input line. */
  function SlotsAsWritten(edges: seq<(string, string)>): nat
  {
    |edges|
  }

  /** A one-line input `start-end` makes two caves, one more than the C code allocates. */
  lemma SlotsAsWrittenOverflow()
    ensures |CaveNames([("start", "end")])| == 2 > SlotsAsWritten([("start", "end")])
  {
    assert [("start", "end")][..0] == [];
  }

  /** Every link leads to a cave of the system. */
  predicate LinksValid(caves: seq<Cave>)
  {
    forall j, x :: 0 <= j < |caves| && x in caves[j].links ==> x < |caves|
  }

  /** Passages go both ways. */
  predicate Symmetric(caves: seq<Cave>)
  {
    forall j, k :: 0 <= j < |caves| && 0 <= k < |caves| ==> (k in caves[j].links <==> j in caves[k].links)
  }

  /** Some cave called `a` has a passage to some cave called `b`. */
  predicate Joined(caves: seq<Cave>, a: string, b: string)
  {
    exists j, k :: 0 <= j < |caves| && 0 <= k < |caves| && caves[j].name == a && caves[k].name == b && k in caves[j].links
  }

  /** `after` keeps every cave of `before`, with its name and at least its links. */
  predicate Keeps(before: seq<Cave>, after: seq<Cave>)
  {
    |before| <= |after| && forall j :: 0 <= j < |before| ==>
      after[j].name == before[j].name && forall x :: x in before[j].links ==> x in after[j].links
  }

  lemma JoinedKept(before: seq<Cave>, after: seq<Cave>, a: string, b: string)
    requires Keeps(before, after) && Joined(before, a, b)
    ensures Joined(after, a, b)
  {
    var j, k :| 0 <= j < |before| && 0 <= k < |before| && before[j].name == a && before[k].name == b && k in before[j].links;
    assert after[j].name == a && after[k].name == b && k in after[j].links;
  }

  /** The cave called `name`, added at the end when there is none. */
  method FindOrAdd(caves: seq<Cave>, name: string) returns (caves': seq<Cave>, index: nat)
    requires LinksValid(caves) && Symmetric(caves)
    ensures Names(caves') == AddName(Names(caves), name)
    ensures index < |caves'| && caves'[index].name == name
    ensures Keeps(caves, caves') && LinksValid(caves') && Symmetric(caves')
    ensures forall j :: |caves| <= j < |caves'| ==> caves'[j].links == []
  {
    var found := FindCave(caves, name);
    if found.Some? {
      return caves, found.value;
    }
    caves' := caves + [Cave(name, [])];
    index := |caves|;
    assert Names(caves') == Names(caves) + [name];
  }

  /** Records a passage between caves j and k in both caves' lists. */
  method Connect(caves: seq<Cave>, j: nat, k: nat) returns (caves': seq<Cave>)
    requires j < |caves| && k < |caves| && LinksValid(caves) && Symmetric(caves)
    ensures Names(caves') == Names(caves) && Keeps(caves, caves')
    ensures LinksValid(caves') && Symmetric(caves') && k in caves'[j].links
  {
    var first := caves[j := caves[j].(links := caves[j].links + [k])];
    caves' := first[k := first[k].(links := first[k].links + [j])];
    assert Names(caves') == Names(caves);
    forall m, x | 0 <= m < |caves'| && x in caves'[m].links
      ensures x < |caves'|
    {
      if x !in caves[m].links {
        assert (m == j && x == k) || (m == k && x == j);
      }
    }
    forall m, n | 0 <= m < |caves'| && 0 <= n < |caves'|
      ensures n in caves'[m].links <==> m in caves'[n].links
    {
      assert n in caves'[m].links <==> n in caves[m].links || (m == j && n == k) || (m == k && n == j);
      assert m in caves'[n].links <==> m in caves[n].links || (n == j && m == k) || (n == k && m == j);
    }
  }

  /** Adds one passage: finds or adds both ends and joins them, keeping every earlier cave and link. */
  method AddPassage(caves: seq<Cave>, a: string, b: string) returns (caves': seq<Cave>)
    requires LinksValid(caves) && Symmetric(caves)
    ensures Names(caves') == AddName(AddName(Names(caves), a), b)
    ensures LinksValid(caves') && Symmetric(caves') && Keeps(caves, caves') && Joined(caves', a, b)
  {
    var c1, j := FindOrAdd(caves, a);
    var c2, k := FindOrAdd(c1, b);
    caves' := Connect(c2, j, k);
    assert caves'[j].name == a && caves'[k].name == b;
  }

  /**
   * Builds the cave system from the passages: `start` is cave 0, each
   * passage adds any end not yet present (found by name) and joins the two.
   */
  method ParseCaves(edges: seq<(string, string)>) returns (caves: seq<Cave>)
    ensures Names(caves) == CaveNames(edges) && caves[0].name == "start"
    ensures LinksValid(caves) && Symmetric(caves)
    ensures forall e :: e in edges ==> Joined(caves, e.0, e.1)
  {
    caves := [Cave("start", [])];
    assert Names(caves) == ["start"];
    var i := 0;
    while i < |edges|
      invariant 0 <= i <= |edges| && Names(caves) == CaveNames(edges[..i])
      invariant LinksValid(caves) && Symmetric(caves)
      invariant AllJoined(caves, edges[..i])
    {
      var before := caves;
      caves := AddPassage(caves, edges[i].0, edges[i].1);
      AllJoinedStep(before, caves, edges, i);
      CaveNamesStep(edges, i);
      i := i + 1;
    }
    assert edges[..i] == edges;
  }

  predicate AllJoined(caves: seq<Cave>, es: seq<(string, string)>)
  {
    forall e :: e in es ==> Joined(caves, e.0, e.1)
  }

  lemma AllJoinedStep(before: seq<Cave>, after: seq<Cave>, edges: seq<(string, string)>, i: nat)
    requires i < |edges| && Keeps(before, after) && AllJoined(before, edges[..i])
    requires Joined(after, edges[i].0, edges[i].1)
    ensures AllJoined(after, edges[..i + 1])
  {
    forall e | e in edges[..i + 1]
      ensures Joined(after, e.0, e.1)
    {
      var m :| 0 <= m <= i && edges[m] == e;
      if m < i {
        assert e in edges[..i];
        JoinedKept(before, after, e.0, e.1);
      }
    }
  }

  lemma CaveNamesStep(edges: seq<(string, string)>, i: nat)
    requires i < |edges|
    ensures CaveNames(edges[..i + 1]) == AddName(AddName(CaveNames(edges[..i]), edges[i].0), edges[i].1)
  {
    assert edges[..i + 1][..i] == edges[..i];
  }

  // -------------------------------------------------------------- visits

  /** How often `name` occurs on the path. */
  method NumVisits(name: string, path: seq<string>) returns (n: nat)
    ensures n == multiset(path)[name]
  {
    n := 0;
    var i := 0;
    while i < |path|
      invariant 0 <= i <= |path| && n == multiset(path[..i])[name]
    {
      assert path[..i + 1] == path[..i] + [path[i]];
      if path[i] == name {
        n := n + 1;
      }
      i := i + 1;
    }
    assert path[..i] == path;
  }

  // -------------------------------------------------------------- routes

  /** No passage joins two big caves; otherwise a route could bounce between them forever. */
  predicate NoBigPair(caves: seq<Cave>)
  {
    forall j, x :: 0 <= j < |caves| && x in caves[j].links && x < |caves| ==> !(IsBig(caves[j].name) && IsBig(caves[x].name))
  }

  /** Small-cave entries still open on the path: up to two per small cave among the first `k`. */
  function SmallLeft(caves: seq<Cave>, path: seq<string>, k: nat): nat
    requires k <= |caves|
  {
    if k == 0 then 0
    else
      var v := multiset(path)[caves[k - 1].name];
      SmallLeft(caves, path, k - 1) + (if IsSmall(caves[k - 1].name) && v <= 2 then 2 - v else 0)
  }

  /** Entering a cave never opens entries, and entering a small cave with fewer than two visits closes one. */
  lemma {:induction false} SmallLeftDrops(caves: seq<Cave>, path: seq<string>, name: string, k: nat)
    requires k <= |caves|
    ensures SmallLeft(caves, path + [name], k) <= SmallLeft(caves, path, k)
    ensures (exists j :: 0 <= j < k && caves[j].name == name) && IsSmall(name) && multiset(path)[name] < 2 ==>
      SmallLeft(caves, path + [name], k) < SmallLeft(caves, path, k)
  {
    assert multiset(path + [name]) == multiset(path) + multiset{name};
    if k > 0 {
      SmallLeftDrops(caves, path, name, k - 1);
    }
  }

  /** The termination measure of the route count: twice the open small entries, plus one off a big cave. */
  function Budget(caves: seq<Cave>, cur: nat, path: seq<string>): nat
    requires cur < |caves|
  {
    2 * SmallLeft(caves, path, |caves|) + (if IsBig(caves[cur].name) then 0 else 1)
  }

  /** The next allowance: down to 1 once a small cave has been entered twice. */
  function NextAllowed(name: string, visits: nat, allowed: nat): nat
  {
    if visits + 1 > 1 && IsSmall(name) then 1 else allowed
  }

  /** A neighbour is entered when it is small and visited fewer times than allowed, or big. */
  predicate Enters(name: string, visits: nat, allowed: nat)
  {
    (IsSmall(name) && visits < allowed) || IsBig(name)
  }

  lemma BudgetDrops(caves: seq<Cave>, cur: nat, path: seq<string>, n: nat, allowed: nat)
    requires cur < |caves| && n < |caves| && n in caves[cur].links && NoBigPair(caves) && allowed <= 2
    requires Enters(caves[n].name, multiset(path)[caves[n].name], allowed) && !IsEnd(caves[n].name)
    ensures Budget(caves, n, path + [caves[n].name]) < Budget(caves, cur, path)
  {
    SmallLeftDrops(caves, path, caves[n].name, |caves|);
  }

  /**
   * The routes onward from cave `cur`, the last cave of `path`, with small
   * caves allowed `allowed` entries: a neighbour called `end` closes one
   * route and is not entered; an enterable neighbour adds its own onward routes.
   */
  function Routes(caves: seq<Cave>, cur: nat, path: seq<string>, allowed: nat): (r: nat)
    requires LinksValid(caves) && NoBigPair(caves) && cur < |caves| && allowed <= 2
    ensures r == |RouteList(caves, cur, path, allowed, 0)|
    decreases Budget(caves, cur, path), 1, 0
  {
    RoutesVia(caves, cur, path, allowed, 0)
  }

  /** The routes through the links of `cur` from its `i`-th on. */
  function RoutesVia(caves: seq<Cave>, cur: nat, path: seq<string>, allowed: nat, i: nat): (r: nat)
    requires LinksValid(caves) && NoBigPair(caves) && cur < |caves| && allowed <= 2 && i <= |caves[cur].links|
    ensures r == |RouteList(caves, cur, path, allowed, i)|
    decreases Budget(caves, cur, path), 0, |caves[cur].links| - i
  {
    if i == |caves[cur].links| then 0
    else
      var n := caves[cur].links[i];
      assert n in caves[cur].links;
      var name := caves[n].name;
      var visits := multiset(path)[name];
      var here :=
        if IsEnd(name) then 1
        else if Enters(name, visits, allowed) then
          BudgetDrops(caves, cur, path, n, allowed);
          Routes(caves, n, path + [name], NextAllowed(name, visits, allowed))
        else 0;
      here + RoutesVia(caves, cur, path, allowed, i + 1)
  }

  /** A larger allowance never finds fewer routes. */
  lemma {:induction false} RoutesGrow(caves: seq<Cave>, cur: nat, path: seq<string>, a: nat, b: nat)
    requires LinksValid(caves) && NoBigPair(caves) && cur < |caves| && a <= b <= 2
    ensures Routes(caves, cur, path, a) <= Routes(caves, cur, path, b)
    decreases Budget(caves, cur, path), 1, 0
  {
    RoutesViaGrow(caves, cur, path, a, b, 0);
  }

  lemma {:induction false} RoutesViaGrow(caves: seq<Cave>, cur: nat, path: seq<string>, a: nat, b: nat, i: nat)
    requires LinksValid(caves) && NoBigPair(caves) && cur < |caves| && a <= b <= 2 && i <= |caves[cur].links|
    ensures RoutesVia(caves, cur, path, a, i) <= RoutesVia(caves, cur, path, b, i)
    decreases Budget(caves, cur, path), 0, |caves[cur].links| - i
  {
    if i < |caves[cur].links| {
      RoutesViaGrow(caves, cur, path, a, b, i + 1);
      var n := caves[cur].links[i];
      assert n in caves[cur].links;
      var name := caves[n].name;
      var visits := multiset(path)[name];
      if !IsEnd(name) && Enters(name, visits, a) {
        BudgetDrops(caves, cur, path, n, a);
        RoutesGrow(caves, n, path + [name], NextAllowed(name, visits, a), NextAllowed(name, visits, b));
      }
    }
  }

  /** The number of routes from `start`, whose path so far is just `start`. */
  function NumberOfRoutes(caves: seq<Cave>, allowed: nat): (r: nat)
    requires |caves| > 0 && LinksValid(caves) && NoBigPair(caves) && allowed <= 2
    ensures r == |AllRoutes(caves, allowed)|
    ensures NoRepeatedLinks(caves) && 1 <= allowed ==>
      r == |set p | p in AllRoutes(caves, allowed)| && forall p :: p in AllRoutes(caves, allowed) <==> ValidRoute(caves, allowed, p)
  {
    AllRoutesValid(caves, allowed);
    DistinctCardIf(AllRoutes(caves, allowed));
    Routes(caves, 0, [caves[0].name], allowed)
  }

  /** Part 2, with one small cave allowed a second entry, finds at least the routes of part 1. */
  lemma PartTwoAtLeastPartOne(caves: seq<Cave>)
    requires |caves| > 0 && LinksValid(caves) && NoBigPair(caves)
    ensures NumberOfRoutes(caves, 1) <= NumberOfRoutes(caves, 2)
  {
    RoutesGrow(caves, 0, [caves[0].name], 1, 2);
  }

  /** Passages into `end` close one route each and are not followed further. */
  lemma {:induction false} EndLinksCount(caves: seq<Cave>, cur: nat, path: seq<string>, allowed: nat, i: nat)
    requires LinksValid(caves) && NoBigPair(caves) && cur < |caves| && allowed <= 2 && i <= |caves[cur].links|
    requires forall k :: i <= k < |caves[cur].links| ==> caves[cur].links[k] < |caves| && IsEnd(caves[caves[cur].links[k]].name)
    ensures RoutesVia(caves, cur, path, allowed, i) == |caves[cur].links| - i
    decreases |caves[cur].links| - i
  {
    if i < |caves[cur].links| {
      EndLinksCount(caves, cur, path, allowed, i + 1);
    }
  }

  // ------------------------------------------------------- routes listed

  /** No cave lists the same passage twice. */
  predicate NoRepeatedLinks(caves: seq<Cave>)
  {
    forall j, a, b :: 0 <= j < |caves| && 0 <= a < b < |caves[j].links| ==> caves[j].links[a] != caves[j].links[b]
  }

  /** The names of the caves at the indices of `q`. */
  function NamesOf(caves: seq<Cave>, q: seq<nat>): (ns: seq<string>)
    requires forall k :: 0 <= k < |q| ==> q[k] < |caves|
    ensures |ns| == |q| && forall k :: 0 <= k < |q| ==> ns[k] == caves[q[k]].name
  {
    seq(|q|, k requires 0 <= k < |q| => caves[q[k]].name)
  }

  /** The small-cave rule on a path: no small cave more than `allowed` times, and at most one small cave twice. */
  ghost predicate SmallOk(path: seq<string>, allowed: nat)
  {
    && (forall x :: IsSmall(x) ==> multiset(path)[x] <= allowed)
    && (forall x, y :: IsSmall(x) && IsSmall(y) && multiset(path)[x] >= 2 && multiset(path)[y] >= 2 ==> x == y)
  }

  /** Some small cave occurs twice on the path. */
  ghost predicate HasDouble(path: seq<string>)
  {
    exists x :: IsSmall(x) && multiset(path)[x] >= 2
  }

  /** The allowance in force after `path` on a route that began with `allowed`: 1 once a small cave is doubled. */
  ghost function Allowance(path: seq<string>, allowed: nat): nat
  {
    if allowed == 2 && HasDouble(path) then 1 else allowed
  }

  /** Step k of `q` follows a passage. */
  predicate Passage(caves: seq<Cave>, q: seq<nat>, k: nat)
    requires k + 1 < |q| && q[k] < |caves|
  {
    q[k + 1] in caves[q[k]].links
  }

  /** Every index of `q` is a cave. */
  predicate InCaves(caves: seq<Cave>, q: seq<nat>)
  {
    forall k :: 0 <= k < |q| ==> q[k] < |caves|
  }

  /** Each cave of `q` is joined by a passage to the one after it. */
  predicate Connected(caves: seq<Cave>, q: seq<nat>)
    requires InCaves(caves, q)
  {
    forall k :: 0 <= k < |q| - 1 ==> Passage(caves, q, k)
  }

  /** Every cave of `q` but the last is small or big, so neither `start` nor `end`. */
  predicate Passable(caves: seq<Cave>, q: seq<nat>)
    requires InCaves(caves, q)
  {
    forall k :: 0 <= k < |q| - 1 ==> IsSmall(caves[q[k]].name) || IsBig(caves[q[k]].name)
  }

  /**
   * `q` is a route onward from cave `cur`, the path so far being `path`: its
   * first cave is joined to `cur` and each later one to the one before; the
   * last is `end`; every other is small or big (so never `start` or `end`);
   * and the whole path, `end` aside, obeys the small-cave rule.
   */
  ghost predicate RouteOn(caves: seq<Cave>, cur: nat, path: seq<string>, allowed: nat, q: seq<nat>)
  {
    && |q| > 0 && cur < |caves| && InCaves(caves, q)
    && q[0] in caves[cur].links
    && Connected(caves, q)
    && IsEnd(caves[q[|q| - 1]].name)
    && Passable(caves, q)
    && SmallOk(Walked(caves, path, q), allowed)
  }

  /** The path once `q` is walked, its last cave (`end`) aside. */
  function Walked(caves: seq<Cave>, path: seq<string>, q: seq<nat>): seq<string>
    requires |q| > 0 && InCaves(caves, q)
  {
    path + NamesOf(caves, q[..|q| - 1])
  }

  /** A route from `start` (cave 0) to `end`, as a list of cave indices, obeying the small-cave rule for `allowed`. */
  ghost predicate ValidRoute(caves: seq<Cave>, allowed: nat, p: seq<nat>)
  {
    |p| >= 2 && p[0] == 0 && |caves| > 0 && RouteOn(caves, 0, [caves[0].name], allowed, p[1..])
  }

  /** Each route of `routes` with `n` put in front. */
  ghost function Prefixed(n: nat, routes: seq<seq<nat>>): (r: seq<seq<nat>>)
    ensures |r| == |routes| && forall j :: 0 <= j < |routes| ==> r[j] == [n] + routes[j]
  {
    seq(|routes|, j requires 0 <= j < |routes| => [n] + routes[j])
  }

  predicate DistinctRoutes(routes: seq<seq<nat>>)
  {
    forall j, k :: 0 <= j < k < |routes| ==> routes[j] != routes[k]
  }

  /** The onward routes that `RoutesVia` counts, listed in the same order. */
  ghost function RouteList(caves: seq<Cave>, cur: nat, path: seq<string>, allowed: nat, i: nat): seq<seq<nat>>
    requires LinksValid(caves) && NoBigPair(caves) && cur < |caves| && allowed <= 2 && i <= |caves[cur].links|
    decreases Budget(caves, cur, path), |caves[cur].links| - i, 1
  {
    if i == |caves[cur].links| then []
    else Through(caves, cur, path, allowed, i) + RouteList(caves, cur, path, allowed, i + 1)
  }

  /** The onward routes through the i-th link of `cur`: the link alone when it leads to `end`. */
  ghost function Through(caves: seq<Cave>, cur: nat, path: seq<string>, allowed: nat, i: nat): seq<seq<nat>>
    requires LinksValid(caves) && NoBigPair(caves) && cur < |caves| && allowed <= 2 && i < |caves[cur].links|
    decreases Budget(caves, cur, path), |caves[cur].links| - i, 0
  {
    var n := caves[cur].links[i];
    assert n in caves[cur].links;
    var name := caves[n].name;
    var visits := multiset(path)[name];
    if IsEnd(name) then [[n]]
    else if Enters(name, visits, allowed) then
      BudgetDrops(caves, cur, path, n, allowed);
      Prefixed(n, RouteList(caves, n, path + [name], NextAllowed(name, visits, allowed), 0))
    else []
  }

  /** With no passage listed twice, the listed routes differ, and each leaves through the i-th link or a later one. */
  lemma {:induction false} RouteListDistinct(caves: seq<Cave>, cur: nat, path: seq<string>, allowed: nat, i: nat)
    requires LinksValid(caves) && NoBigPair(caves) && NoRepeatedLinks(caves)
    requires cur < |caves| && allowed <= 2 && i <= |caves[cur].links|
    ensures DistinctRoutes(RouteList(caves, cur, path, allowed, i))
    ensures forall q :: q in RouteList(caves, cur, path, allowed, i) ==> |q| > 0 && q[0] in caves[cur].links[i..]
    decreases Budget(caves, cur, path), |caves[cur].links| - i, 1
  {
    if i < |caves[cur].links| {
      RouteListDistinct(caves, cur, path, allowed, i + 1);
      ThroughDistinct(caves, cur, path, allowed, i);
      var n := caves[cur].links[i];
      var later := caves[cur].links[i + 1..];
      assert caves[cur].links[i..] == [n] + later;
      assert n !in later by {
        forall k | 0 <= k < |later|
          ensures later[k] != n
        {
          assert later[k] == caves[cur].links[i + 1 + k];
        }
      }
      JoinApart(Through(caves, cur, path, allowed, i), RouteList(caves, cur, path, allowed, i + 1), n, later);
    }
  }

  /** The routes through one link differ from each other and all begin with that link. */
  lemma {:induction false} ThroughDistinct(caves: seq<Cave>, cur: nat, path: seq<string>, allowed: nat, i: nat)
    requires LinksValid(caves) && NoBigPair(caves) && NoRepeatedLinks(caves)
    requires cur < |caves| && allowed <= 2 && i < |caves[cur].links|
    ensures DistinctRoutes(Through(caves, cur, path, allowed, i))
    ensures forall q :: q in Through(caves, cur, path, allowed, i) ==> |q| > 0 && q[0] == caves[cur].links[i]
    decreases Budget(caves, cur, path), |caves[cur].links| - i, 0
  {
    var n := caves[cur].links[i];
    assert n in caves[cur].links;
    var name := caves[n].name;
    var visits := multiset(path)[name];
    if !IsEnd(name) && Enters(name, visits, allowed) {
      BudgetDrops(caves, cur, path, n, allowed);
      RouteListDistinct(caves, n, path + [name], NextAllowed(name, visits, allowed), 0);
      PrefixedDistinct(n, RouteList(caves, n, path + [name], NextAllowed(name, visits, allowed), 0));
    }
  }

  /** Routes through link `n` and routes through later links, `n` not among them, join without repeats. */
  lemma JoinApart(here: seq<seq<nat>>, rest: seq<seq<nat>>, n: nat, later: seq<nat>)
    requires DistinctRoutes(here) && DistinctRoutes(rest) && n !in later
    requires forall q :: q in here ==> |q| > 0 && q[0] == n
    requires forall q :: q in rest ==> |q| > 0 && q[0] in later
    ensures DistinctRoutes(here + rest)
    ensures forall q :: q in here + rest ==> |q| > 0 && q[0] in [n] + later
  {
    JoinDistinct(here, rest);
  }

  lemma PrefixedDistinct(n: nat, routes: seq<seq<nat>>)
    requires DistinctRoutes(routes)
    ensures DistinctRoutes(Prefixed(n, routes))
    ensures forall q :: q in Prefixed(n, routes) ==> |q| > 0 && q[0] == n
  {
    var r := Prefixed(n, routes);
    forall j, k | 0 <= j < k < |r|
      ensures r[j] != r[k]
    {
      assert r[j][1..] == routes[j] && r[k][1..] == routes[k];
    }
  }

  lemma JoinDistinct(a: seq<seq<nat>>, b: seq<seq<nat>>)
    requires DistinctRoutes(a) && DistinctRoutes(b) && forall q :: q in a ==> q !in b
    ensures DistinctRoutes(a + b)
  {
    var c := a + b;
    forall j, k | 0 <= j < k < |c|
      ensures c[j] != c[k]
    {
      if j < |a| && k >= |a| {
        assert c[j] in a && c[k] == b[k - |a|];
      }
    }
  }

  /** A path that obeys the small-cave rule obeys it before its last steps too. */
  lemma SmallOkPrefix(path: seq<string>, more: seq<string>, allowed: nat)
    requires SmallOk(path + more, allowed)
    ensures SmallOk(path, allowed)
  {
    assert multiset(path + more) == multiset(path) + multiset(more);
  }

  /**
   * The C code's entry test, with the allowance it carries, agrees with the
   * small-cave rule: a small or big cave is entered exactly when the path
   * with it still obeys the rule, and the allowance passed down is the one
   * in force on the longer path.
   */
  lemma EntryRule(path: seq<string>, x: string, allowed: nat)
    requires 1 <= allowed <= 2 && SmallOk(path, allowed) && (IsSmall(x) || IsBig(x))
    ensures Enters(x, multiset(path)[x], Allowance(path, allowed)) <==> SmallOk(path + [x], allowed)
    ensures Enters(x, multiset(path)[x], Allowance(path, allowed)) ==>
      NextAllowed(x, multiset(path)[x], Allowance(path, allowed)) == Allowance(path + [x], allowed)
  {
    var m, m' := multiset(path), multiset(path + [x]);
    assert m' == m + multiset{x};
    CaveClasses(x);
    if IsBig(x) {
      assert forall y :: IsSmall(y) ==> m'[y] == m[y];
      assert HasDouble(path + [x]) <==> HasDouble(path);
    } else if allowed == 1 {
      assert m'[x] == m[x] + 1;
    } else if HasDouble(path) {
      var y :| IsSmall(y) && m[y] >= 2;
      assert m'[y] >= 2;
      assert HasDouble(path + [x]);
      if m[x] >= 1 && x == y {
        assert m'[x] >= 3;
      } else if m[x] >= 1 {
        assert m'[x] >= 2;
      }
    } else {
      assert m[x] <= 1;
      if m[x] == 1 {
        assert m'[x] == 2;
        assert HasDouble(path + [x]);
      } else {
        assert forall y :: IsSmall(y) ==> m'[y] <= 1;
      }
    }
  }

  lemma RangeShift(caves: seq<Cave>, q: seq<nat>)
    requires |q| > 0
    ensures InCaves(caves, q) <==> q[0] < |caves| && InCaves(caves, q[1..])
  {
    if q[0] < |caves| && InCaves(caves, q[1..]) {
      forall k | 1 <= k < |q|
        ensures q[k] < |caves|
      {
        assert q[k] == q[1..][k - 1];
      }
    }
  }

  lemma PassageShift(caves: seq<Cave>, q: seq<nat>)
    requires |q| > 1 && InCaves(caves, q) && InCaves(caves, q[1..])
    ensures Connected(caves, q) <==> Passage(caves, q, 0) && Connected(caves, q[1..])
  {
    var q' := q[1..];
    if Connected(caves, q') {
      forall k | 1 <= k < |q| - 1
        ensures Passage(caves, q, k)
      {
        assert Passage(caves, q', k - 1);
      }
    }
    if Connected(caves, q) {
      forall k | 0 <= k < |q'| - 1
        ensures Passage(caves, q', k)
      {
        assert Passage(caves, q, k + 1);
      }
    }
  }

  lemma ClassShift(caves: seq<Cave>, q: seq<nat>)
    requires |q| > 1 && InCaves(caves, q) && InCaves(caves, q[1..])
    ensures Passable(caves, q) <==> (IsSmall(caves[q[0]].name) || IsBig(caves[q[0]].name)) && Passable(caves, q[1..])
  {
    var q' := q[1..];
    if Passable(caves, q') {
      forall k | 1 <= k < |q| - 1
        ensures IsSmall(caves[q[k]].name) || IsBig(caves[q[k]].name)
      {
        assert q[k] == q'[k - 1];
      }
    }
  }

  lemma NamesShift(caves: seq<Cave>, path: seq<string>, q: seq<nat>)
    requires |q| > 1 && InCaves(caves, q) && InCaves(caves, q[1..])
    ensures Walked(caves, path, q) == Walked(caves, path + [caves[q[0]].name], q[1..])
  {
    assert NamesOf(caves, q[..|q| - 1]) == [caves[q[0]].name] + NamesOf(caves, q[1..][..|q| - 2]);
  }

  /** A route onward from `cur` ending at its first cave: that cave is `end`. */
  lemma RouteOnLast(caves: seq<Cave>, cur: nat, path: seq<string>, allowed: nat, q: seq<nat>)
    requires |q| == 1 && cur < |caves| && q[0] < |caves| && q[0] in caves[cur].links
    ensures RouteOn(caves, cur, path, allowed, q) <==> IsEnd(caves[q[0]].name) && SmallOk(path, allowed)
  {
    assert q[..0] == [];
    assert path + [] == path;
  }

  /** A longer route onward from `cur`: a small or big first cave and a route onward from there. */
  lemma RouteOnNext(caves: seq<Cave>, cur: nat, path: seq<string>, allowed: nat, q: seq<nat>)
    requires |q| > 1 && cur < |caves| && q[0] < |caves| && q[0] in caves[cur].links
    ensures var x := caves[q[0]].name;
      RouteOn(caves, cur, path, allowed, q) <==>
        (IsSmall(x) || IsBig(x)) && RouteOn(caves, q[0], path + [x], allowed, q[1..])
  {
    RangeShift(caves, q);
    if InCaves(caves, q) {
      PassageShift(caves, q);
      ClassShift(caves, q);
      NamesShift(caves, path, q);
      assert q[|q| - 1] == q[1..][|q| - 2];
    }
  }

  /** Through a link to `end` the one route is that link alone. */
  lemma EndCase(caves: seq<Cave>, cur: nat, path: seq<string>, allowed: nat, n: nat, q: seq<nat>)
    requires cur < |caves| && n < |caves| && n in caves[cur].links && IsEnd(caves[n].name) && SmallOk(path, allowed)
    ensures q in [[n]] <==> RouteOn(caves, cur, path, allowed, q) && q[0] == n
  {
    if |q| == 1 && q[0] == n {
      RouteOnLast(caves, cur, path, allowed, q);
      assert q == [n];
    } else if |q| > 1 && q[0] == n {
      RouteOnNext(caves, cur, path, allowed, q);
      CaveClasses(caves[n].name);
    }
  }

  /** Through an entered cave the routes are that cave followed by the routes onward from it. */
  lemma EnterCase(caves: seq<Cave>, cur: nat, path: seq<string>, allowed: nat, n: nat, inner: seq<seq<nat>>, q: seq<nat>)
    requires cur < |caves| && n < |caves| && n in caves[cur].links
    requires var x := caves[n].name; !IsEnd(x) && (IsSmall(x) || IsBig(x))
    requires |q| > 1 ==> (q[1..] in inner <==> RouteOn(caves, n, path + [caves[n].name], allowed, q[1..]) && q[1] in caves[n].links[0..])
    requires forall r :: r in inner ==> |r| > 0
    ensures q in Prefixed(n, inner) <==> RouteOn(caves, cur, path, allowed, q) && q[0] == n
  {
    PrefixedMember(n, inner, q);
    if |q| == 1 && q[0] == n {
      RouteOnLast(caves, cur, path, allowed, q);
      assert q[1..] !in inner;
    } else if |q| > 1 && q[0] == n {
      RouteOnNext(caves, cur, path, allowed, q);
      assert caves[n].links[0..] == caves[n].links;
    }
  }

  /** A prefixed route is `n` followed by a listed one. */
  lemma PrefixedMember(n: nat, inner: seq<seq<nat>>, q: seq<nat>)
    ensures q in Prefixed(n, inner) <==> |q| > 0 && q[0] == n && q[1..] in inner
  {
    if |q| > 0 && q[0] == n && q[1..] in inner {
      var j :| 0 <= j < |inner| && inner[j] == q[1..];
      assert Prefixed(n, inner)[j] == q;
    }
    if q in Prefixed(n, inner) {
      var j :| 0 <= j < |inner| && q == Prefixed(n, inner)[j];
      assert q[1..] == inner[j];
    }
  }

  /** The path before a route onward obeys the small-cave rule. */
  lemma RouteOnSmallOk(caves: seq<Cave>, cur: nat, path: seq<string>, allowed: nat, q: seq<nat>)
    ensures RouteOn(caves, cur, path, allowed, q) ==> SmallOk(path, allowed)
  {
    if RouteOn(caves, cur, path, allowed, q) {
      SmallOkPrefix(path, NamesOf(caves, q[..|q| - 1]), allowed);
    }
  }

  /** Through a cave the C code does not enter there is no route. */
  lemma SkipCase(caves: seq<Cave>, cur: nat, path: seq<string>, allowed: nat, n: nat, q: seq<nat>)
    requires cur < |caves| && n < |caves| && n in caves[cur].links && 1 <= allowed <= 2 && SmallOk(path, allowed)
    requires var x := caves[n].name; !IsEnd(x) && !Enters(x, multiset(path)[x], Allowance(path, allowed))
    ensures !(RouteOn(caves, cur, path, allowed, q) && q[0] == n)
  {
    var x := caves[n].name;
    if |q| == 1 && q[0] == n {
      RouteOnLast(caves, cur, path, allowed, q);
    } else if |q| > 1 && q[0] == n {
      RouteOnNext(caves, cur, path, allowed, q);
      RouteOnSmallOk(caves, n, path + [x], allowed, q[1..]);
      if IsSmall(x) || IsBig(x) {
        EntryRule(path, x, allowed);
      }
    }
  }

  /**
   * The listed routes are exactly the routes onward from `cur` that leave
   * through the i-th link or a later one, when the path obeys the
   * small-cave rule and the allowance is the one in force on it.
   */
  lemma {:induction false} RouteListRoutes(caves: seq<Cave>, cur: nat, path: seq<string>, allowed: nat, i: nat, q: seq<nat>)
    requires LinksValid(caves) && NoBigPair(caves) && cur < |caves| && 1 <= allowed <= 2 && i <= |caves[cur].links|
    requires SmallOk(path, allowed)
    ensures q in RouteList(caves, cur, path, Allowance(path, allowed), i) <==>
      RouteOn(caves, cur, path, allowed, q) && q[0] in caves[cur].links[i..]
    decreases Budget(caves, cur, path), 0, |caves[cur].links| - i
  {
    var a := Allowance(path, allowed);
    if i < |caves[cur].links| {
      RouteListRoutes(caves, cur, path, allowed, i + 1, q);
      var n := caves[cur].links[i];
      assert n in caves[cur].links;
      var name := caves[n].name;
      var visits := multiset(path)[name];
      assert caves[cur].links[i..] == [n] + caves[cur].links[i + 1..];
      var here: seq<seq<nat>>;
      if IsEnd(name) {
        here := [[n]];
        EndCase(caves, cur, path, allowed, n, q);
      } else if Enters(name, visits, a) {
        BudgetDrops(caves, cur, path, n, a);
        EntryRule(path, name, allowed);
        var inner := RouteList(caves, n, path + [name], NextAllowed(name, visits, a), 0);
        if |q| > 1 {
          RouteListRoutes(caves, n, path + [name], allowed, 0, q[1..]);
        }
        RouteListShape(caves, n, path + [name], NextAllowed(name, visits, a), 0);
        here := Prefixed(n, inner);
        EnterCase(caves, cur, path, allowed, n, inner, q);
      } else {
        here := [];
        SkipCase(caves, cur, path, allowed, n, q);
      }
      assert RouteList(caves, cur, path, a, i) == here + RouteList(caves, cur, path, a, i + 1);
    }
  }

  /** Every listed route is non-empty. */
  lemma {:induction false} RouteListShape(caves: seq<Cave>, cur: nat, path: seq<string>, allowed: nat, i: nat)
    requires LinksValid(caves) && NoBigPair(caves) && cur < |caves| && allowed <= 2 && i <= |caves[cur].links|
    ensures forall r :: r in RouteList(caves, cur, path, allowed, i) ==> |r| > 0
    decreases |caves[cur].links| - i
  {
    if i < |caves[cur].links| {
      RouteListShape(caves, cur, path, allowed, i + 1);
    }
  }

  /** Every route from `start`, listed in the order the count meets them. */
  ghost function AllRoutes(caves: seq<Cave>, allowed: nat): seq<seq<nat>>
    requires |caves| > 0 && LinksValid(caves) && NoBigPair(caves) && allowed <= 2
  {
    Prefixed(0, RouteList(caves, 0, [caves[0].name], allowed, 0))
  }

  lemma DistinctCardIf(routes: seq<seq<nat>>)
    ensures DistinctRoutes(routes) ==> |set q | q in routes| == |routes|
  {
    if DistinctRoutes(routes) {
      DistinctCard(routes);
    }
  }

  /** A list with no route twice has as many members as entries. */
  lemma {:induction false} DistinctCard(routes: seq<seq<nat>>)
    requires DistinctRoutes(routes)
    ensures |set q | q in routes| == |routes|
  {
    if routes != [] {
      var init, last := routes[..|routes| - 1], routes[|routes| - 1];
      DistinctCard(init);
      assert (set q | q in routes) == (set q | q in init) + {last};
      assert last !in init;
    }
  }

  /** The path holding `start` alone obeys the small-cave rule and doubles no cave. */
  lemma StartPath(name: string, allowed: nat)
    requires 1 <= allowed <= 2
    ensures SmallOk([name], allowed) && Allowance([name], allowed) == allowed
  {
    assert forall x :: multiset([name])[x] <= 1;
  }

  /**
   * When no passage is listed twice and small caves may be entered at
   * least once, the listed routes from `start` are exactly the valid
   * routes, each listed once.
   */
  lemma AllRoutesValid(caves: seq<Cave>, allowed: nat)
    requires |caves| > 0 && LinksValid(caves) && NoBigPair(caves) && allowed <= 2
    ensures NoRepeatedLinks(caves) && 1 <= allowed ==>
      DistinctRoutes(AllRoutes(caves, allowed)) && forall p :: p in AllRoutes(caves, allowed) <==> ValidRoute(caves, allowed, p)
  {
    if NoRepeatedLinks(caves) && 1 <= allowed {
      var start := [caves[0].name];
      StartPath(caves[0].name, allowed);
      var inner := RouteList(caves, 0, start, allowed, 0);
      RouteListDistinct(caves, 0, start, allowed, 0);
      PrefixedDistinct(0, inner);
      assert caves[0].links[0..] == caves[0].links;
      forall p
        ensures p in AllRoutes(caves, allowed) <==> ValidRoute(caves, allowed, p)
      {
        PrefixedMember(0, inner, p);
        if |p| > 0 {
          RouteListRoutes(caves, 0, start, allowed, 0, p[1..]);
        }
      }
    }
  }
}
