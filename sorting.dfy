/**
 * The sorting helper of the repository's utilities, for naturals: a sort in
 * non-decreasing order, specified as a sorted permutation.
 */
module Sorting {
  predicate Sorted(s: seq<nat>)
  {
    forall a, b :: 0 <= a < b < |s| ==> s[a] <= s[b]
  }

  function Insert(x: nat, s: seq<nat>): (r: seq<nat>)
    ensures |r| == |s| + 1
  {
    if s == [] || x <= s[0] then [x] + s else [s[0]] + Insert(x, s[1..])
  }

  lemma {:induction false} InsertMultiset(x: nat, s: seq<nat>)
    ensures multiset(Insert(x, s)) == multiset(s) + multiset{x}
  {
    if s != [] && x > s[0] {
      InsertMultiset(x, s[1..]);
      assert s == [s[0]] + s[1..];
    }
  }

  lemma {:induction false} InsertSorted(x: nat, s: seq<nat>)
    requires Sorted(s)
    ensures Sorted(Insert(x, s))
  {
    if s != [] && x > s[0] {
      var t := s[1..];
      InsertSorted(x, t);
      InsertMultiset(x, t);
      var r := Insert(x, t);
      forall k | 0 <= k < |r| ensures s[0] <= r[k] {
        assert r[k] in multiset(t) + multiset{x};
        if r[k] != x {
          var m :| 0 <= m < |t| && t[m] == r[k];
          assert t[m] == s[m + 1];
        }
      }
      assert Insert(x, s) == [s[0]] + r;
    }
  }

  /** Insertion sort: the numbers in non-decreasing order. */
  function Sort(s: seq<nat>): (r: seq<nat>)
    ensures |r| == |s|
  {
    if s == [] then [] else Insert(s[0], Sort(s[1..]))
  }

  lemma {:induction false} SortIsSortedPermutation(s: seq<nat>)
    ensures Sorted(Sort(s)) && multiset(Sort(s)) == multiset(s)
  {
    if s != [] {
      SortIsSortedPermutation(s[1..]);
      InsertMultiset(s[0], Sort(s[1..]));
      InsertSorted(s[0], Sort(s[1..]));
      assert s == [s[0]] + s[1..];
    }
  }

  /** The characters of `s` in non-decreasing order. */
  predicate SortedChars(s: string)
  {
    forall a, b :: 0 <= a < b < |s| ==> s[a] <= s[b]
  }

  function InsertChar(x: char, s: string): (r: string)
    ensures |r| == |s| + 1
  {
    if s == [] || x <= s[0] then [x] + s else [s[0]] + InsertChar(x, s[1..])
  }

  lemma {:induction false} InsertCharMultiset(x: char, s: string)
    ensures multiset(InsertChar(x, s)) == multiset(s) + multiset{x}
  {
    if s != [] && x > s[0] {
      InsertCharMultiset(x, s[1..]);
      assert s == [s[0]] + s[1..];
    }
  }

  lemma {:induction false} InsertCharSorted(x: char, s: string)
    requires SortedChars(s)
    ensures SortedChars(InsertChar(x, s))
  {
    if s != [] && x > s[0] {
      var t := s[1..];
      InsertCharSorted(x, t);
      InsertCharMultiset(x, t);
      var r := InsertChar(x, t);
      forall k | 0 <= k < |r| ensures s[0] <= r[k] {
        assert r[k] in multiset(t) + multiset{x};
        if r[k] != x {
          var m :| 0 <= m < |t| && t[m] == r[k];
          assert t[m] == s[m + 1];
        }
      }
      assert InsertChar(x, s) == [s[0]] + r;
    }
  }

  /** The string sort of the utilities: the characters in non-decreasing order. */
  function SortString(s: string): (r: string)
    ensures |r| == |s|
  {
    if s == [] then [] else InsertChar(s[0], SortString(s[1..]))
  }

  lemma {:induction false} SortStringIsSortedPermutation(s: string)
    ensures SortedChars(SortString(s)) && multiset(SortString(s)) == multiset(s)
  {
    if s != [] {
      SortStringIsSortedPermutation(s[1..]);
      InsertCharMultiset(s[0], SortString(s[1..]));
      InsertCharSorted(s[0], SortString(s[1..]));
      assert s == [s[0]] + s[1..];
    }
  }

  lemma SortedHeadIsLeast(s: string, c: char)
    requires SortedChars(s) && c in s
    ensures s[0] <= c
  {
    var i :| 0 <= i < |s| && s[i] == c;
    if i > 0 {
      assert s[0] <= s[i];
    }
  }

  lemma SortedTail(s: string)
    requires SortedChars(s) && s != []
    ensures s == [s[0]] + s[1..]
    ensures SortedChars(s[1..]) && multiset(s) == multiset{s[0]} + multiset(s[1..])
  {
    assert s == [s[0]] + s[1..];
    forall x, y | 0 <= x < y < |s| - 1 ensures s[1..][x] <= s[1..][y] {
      assert s[x + 1] <= s[y + 1];
    }
  }

  /** Two sorted strings with the same characters start alike, and their tails have the same characters. */
  lemma SortedSameHead(a: string, b: string)
    requires SortedChars(a) && SortedChars(b) && multiset(a) == multiset(b) && a != []
    ensures b != [] && a[0] == b[0] && a == [a[0]] + a[1..] && b == [b[0]] + b[1..]
    ensures SortedChars(a[1..]) && SortedChars(b[1..]) && multiset(a[1..]) == multiset(b[1..])
  {
    assert |b| == |multiset(b)| == |multiset(a)| == |a| > 0;
    SortedTail(a);
    SortedTail(b);
    var x, y := a[0], b[0];
    assert x in multiset(b) && y in multiset(a) by {
      assert x in a && y in b;
    }
    SortedHeadIsLeast(a, y);
    SortedHeadIsLeast(b, x);
    assert multiset{x} + multiset(a[1..]) == multiset{x} + multiset(b[1..]);
    MultisetCancel(x, multiset(a[1..]), multiset(b[1..]));
  }

  lemma MultisetCancel(x: char, p: multiset<char>, q: multiset<char>)
    requires multiset{x} + p == multiset{x} + q
    ensures p == q
  {
    assert p == (multiset{x} + p) - multiset{x};
    assert q == (multiset{x} + q) - multiset{x};
  }

  /** Two sorted strings with the same characters, counted with repeats, are equal. */
  lemma {:induction false} SortedCharsUnique(a: string, b: string)
    requires SortedChars(a) && SortedChars(b) && multiset(a) == multiset(b)
    ensures a == b
    decreases |a|
  {
    if a == [] {
      assert |b| == |multiset(b)| == 0;
    } else {
      SortedSameHead(a, b);
      SortedCharsUnique(a[1..], b[1..]);
    }
  }
}
