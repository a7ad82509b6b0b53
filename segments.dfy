/**
 * Seven-segment search (src/day_08.c): each note holds ten unique signal
 * patterns and four output patterns, each stored with its segments sorted.
 * Patterns of length 2, 4, 3 and 7 are the digits 1, 4, 7 and 8; the
 * others are told apart by which segments of the 1 and of the 4 they hold;
 * each output takes the digit of the identical signal pattern.
 */
module Segments {
  import opened Wrappers
  import opened Sorting

  /** Digit slots start at this value, which no display can show. */
  const Unidentified := 100

  datatype Note = Note(signals: seq<string>, signalNums: seq<int>, output: seq<string>, outputNums: seq<int>)

  /** A note as the parser lays it out: ten signal slots and four output slots. */
  type DisplayNote = n: Note | |n.signals| == 10 && |n.signalNums| == 10 && |n.output| == 4 && |n.outputNums| == 4
    witness Note(seq(10, _ => ""), seq(10, _ => 100), seq(4, _ => ""), seq(4, _ => 100))

  /** The `assert(false)` of a five-segment pattern that shares neither 2 nor 3 segments with the 4. */
  datatype SegmentError = NotTwoOrFive(matching: nat)

  /** A freshly parsed note: every pattern with its segments sorted, every digit slot unidentified. */
  function FreshNote(signals: seq<string>, output: seq<string>): (n: DisplayNote)
    requires |signals| == 10 && |output| == 4
    ensures forall j :: 0 <= j < 10 ==> SortedChars(n.signals[j]) && multiset(n.signals[j]) == multiset(signals[j])
    ensures forall j :: 0 <= j < 4 ==> SortedChars(n.output[j]) && multiset(n.output[j]) == multiset(output[j])
    ensures forall j :: 0 <= j < 10 ==> n.signalNums[j] == Unidentified
    ensures forall j :: 0 <= j < 4 ==> n.outputNums[j] == Unidentified
  {
    SortAllIsSorted(signals);
    SortAllIsSorted(output);
    Note(SortAll(signals), seq(10, _ => Unidentified), SortAll(output), seq(4, _ => Unidentified))
  }

  function SortAll(ps: seq<string>): (r: seq<string>)
    ensures |r| == |ps|
  {
    seq(|ps|, k requires 0 <= k < |ps| => SortString(ps[k]))
  }

  lemma SortAllIsSorted(ps: seq<string>)
    ensures forall j :: 0 <= j < |ps| ==> SortedChars(SortAll(ps)[j]) && multiset(SortAll(ps)[j]) == multiset(ps[j])
  {
    forall j | 0 <= j < |ps|
      ensures SortedChars(SortAll(ps)[j]) && multiset(SortAll(ps)[j]) == multiset(ps[j])
    {
      SortStringIsSortedPermutation(ps[j]);
    }
  }

  // ---------------------------------------------------------------- part 1

  /** A pattern whose length alone names its digit (1, 4, 7 or 8). */
  predicate IsEasy(p: string)
  {
    |p| == 2 || |p| == 4 || |p| == 3 || |p| == 7
  }

  /** Easy patterns among the first `j` outputs. */
  function EasyIn(out: seq<string>, j: nat): nat
    requires j <= |out|
  {
    if j == 0 then 0 else EasyIn(out, j - 1) + (if IsEasy(out[j - 1]) then 1 else 0)
  }

  /** Easy output patterns over the first `i` notes. */
  function EasyCount(notes: seq<DisplayNote>, i: nat): nat
    requires i <= |notes|
  {
    if i == 0 then 0 else EasyCount(notes, i - 1) + EasyIn(notes[i - 1].output, 4)
  }

  // ------------------------------------------------------- identification

  /** The digit an easy pattern gets; any other slot keeps `prev`. */
  function EasyLabel(p: string, prev: int): int
  {
    if |p| == 2 then 1
    else if |p| == 4 then 4
    else if |p| == 3 then 7
    else if |p| == 7 then 8
    else prev
  }

  /** The first `j` slots labelled by length. */
  function EasyNumsTo(sigs: seq<string>, nums: seq<int>, j: nat): (r: seq<int>)
    requires |sigs| == |nums| && j <= |nums|
    ensures |r| == |nums|
  {
    if j == 0 then nums else EasyNumsTo(sigs, nums, j - 1)[j - 1 := EasyLabel(sigs[j - 1], nums[j - 1])]
  }

  lemma {:induction false} EasyNumsToAt(sigs: seq<string>, nums: seq<int>, j: nat, m: nat)
    requires |sigs| == |nums| && j <= |nums| && m < |nums|
    ensures EasyNumsTo(sigs, nums, j)[m] == if m < j then EasyLabel(sigs[m], nums[m]) else nums[m]
  {
    if j > 0 {
      EasyNumsToAt(sigs, nums, j - 1, m);
    }
  }

  function LabelEasy(n: DisplayNote): DisplayNote
  {
    n.(signalNums := EasyNumsTo(n.signals, n.signalNums, 10))
  }

  /** The first `i` notes with their easy slots labelled. */
  function LabelEasyTo(notes: seq<DisplayNote>, i: nat): (r: seq<DisplayNote>)
    requires i <= |notes|
    ensures |r| == |notes|
  {
    if i == 0 then notes else LabelEasyTo(notes, i - 1)[i - 1 := LabelEasy(notes[i - 1])]
  }

  lemma {:induction false} LabelEasyToAt(notes: seq<DisplayNote>, i: nat, m: nat)
    requires i <= |notes| && m < |notes|
    ensures LabelEasyTo(notes, i)[m] == if m < i then LabelEasy(notes[m]) else notes[m]
  {
    if i > 0 {
      LabelEasyToAt(notes, i - 1, m);
    }
  }

  /** Some signal pattern has length `len`. */
  predicate HasLength(sigs: seq<string>, len: nat)
  {
    exists k :: 0 <= k < |sigs| && |sigs[k]| == len
  }

  /** What the unbounded searches for the 1 and the 4 need: they run only for five- and six-segment patterns. */
  predicate Searchable(sigs: seq<string>)
  {
    (HasLength(sigs, 5) || HasLength(sigs, 6)) ==> HasLength(sigs, 2) && HasLength(sigs, 4)
  }

  /** The first signal at or after `i` of length `len`. */
  function FirstOfLength(sigs: seq<string>, len: nat, i: nat): (k: nat)
    requires i <= |sigs| && exists m :: i <= m < |sigs| && |sigs[m]| == len
    ensures i <= k < |sigs| && |sigs[k]| == len
    decreases |sigs| - i
  {
    if |sigs[i]| == len then i else FirstOfLength(sigs, len, i + 1)
  }

  /** Every one of the first `k` segments of `small` lies in `p`. */
  predicate AllInTo(small: string, p: string, k: nat)
    requires k <= |small|
  {
    k == 0 || (AllInTo(small, p, k - 1) && small[k - 1] in p)
  }

  predicate AllIn(small: string, p: string)
  {
    AllInTo(small, p, |small|)
  }

  /** How many of the first `k` segments of `small` lie in `p`. */
  function CountIn(small: string, p: string, k: nat): nat
    requires k <= |small|
  {
    if k == 0 then 0 else CountIn(small, p, k - 1) + (if small[k - 1] in p then 1 else 0)
  }

  /**
   * The digit of pattern `p` given the 1 and the 4.  For six segments: 6 when
   * it misses a segment of the 1; a slot already holding 6 or 0 keeps it, as
   * the C code tests the slot itself; else 0 when it misses a segment of the
   * 4, else 9.  For five segments: 3 when it holds the 1, else 5 or 2 by the
   * number of segments it shares with the 4.  Other slots keep `prev`.
   */
  function HardLabel(p: string, one: string, four: string, prev: int): Result<int, SegmentError>
  {
    if |p| == 6 then
      if !AllIn(one, p) then Ok(6)
      else if prev == 6 then Ok(6)
      else if !AllIn(four, p) then Ok(0)
      else if prev == 0 then Ok(0)
      else Ok(9)
    else if |p| == 5 then
      if AllIn(one, p) then Ok(3)
      else if CountIn(four, p, |four|) == 3 then Ok(5)
      else if CountIn(four, p, |four|) == 2 then Ok(2)
      else Err(NotTwoOrFive(CountIn(four, p, |four|)))
    else Ok(prev)
  }

  /** The label of slot `j`, the 1 and the 4 being the first signals of lengths 2 and 4. */
  function HardLabelAt(sigs: seq<string>, j: nat, prev: int): Result<int, SegmentError>
    requires j < |sigs| && Searchable(sigs)
  {
    if |sigs[j]| == 5 || |sigs[j]| == 6 then
      HardLabel(sigs[j], sigs[FirstOfLength(sigs, 2, 0)], sigs[FirstOfLength(sigs, 4, 0)], prev)
    else Ok(prev)
  }

  /** The first `j` slots labelled, stopping at the first failure. */
  function HardNumsTo(sigs: seq<string>, nums: seq<int>, j: nat): (r: Result<seq<int>, SegmentError>)
    requires |sigs| == |nums| && j <= |nums| && Searchable(sigs)
    ensures r.Ok? ==> |r.value| == |nums|
  {
    if j == 0 then Ok(nums)
    else
      match HardNumsTo(sigs, nums, j - 1)
      case Err(e) => Err(e)
      case Ok(ns) =>
        match HardLabelAt(sigs, j - 1, nums[j - 1])
        case Err(e) => Err(e)
        case Ok(v) => Ok(ns[j - 1 := v])
  }

  lemma {:induction false} HardNumsToAt(sigs: seq<string>, nums: seq<int>, j: nat, m: nat)
    requires |sigs| == |nums| && j <= |nums| && Searchable(sigs) && m < |nums|
    requires HardNumsTo(sigs, nums, j).Ok?
    ensures m < j ==> HardLabelAt(sigs, m, nums[m]).Ok? && HardNumsTo(sigs, nums, j).value[m] == HardLabelAt(sigs, m, nums[m]).value
    ensures m >= j ==> HardNumsTo(sigs, nums, j).value[m] == nums[m]
  {
    if j > 0 {
      HardNumsToAt(sigs, nums, j - 1, m);
    }
  }

  function HardNote(n: DisplayNote): Result<DisplayNote, SegmentError>
    requires Searchable(n.signals)
  {
    match HardNumsTo(n.signals, n.signalNums, 10)
    case Err(e) => Err(e)
    case Ok(ns) =>
      var m: DisplayNote := n.(signalNums := ns);
      Ok(m)
  }

  predicate AllSearchable(notes: seq<DisplayNote>)
  {
    forall k :: 0 <= k < |notes| ==> Searchable(notes[k].signals)
  }

  /** The first `i` notes through the segment tests, stopping at the first failure. */
  function HardAllTo(notes: seq<DisplayNote>, i: nat): (r: Result<seq<DisplayNote>, SegmentError>)
    requires i <= |notes| && AllSearchable(notes)
    ensures r.Ok? ==> |r.value| == |notes|
  {
    if i == 0 then Ok(notes)
    else
      match HardAllTo(notes, i - 1)
      case Err(e) => Err(e)
      case Ok(ns) =>
        match HardNote(notes[i - 1])
        case Err(e) => Err(e)
        case Ok(n) => Ok(ns[i - 1 := n])
  }

  lemma {:induction false} HardAllToRest(notes: seq<DisplayNote>, i: nat, m: nat)
    requires i <= m < |notes| && AllSearchable(notes)
    requires HardAllTo(notes, i).Ok?
    ensures HardAllTo(notes, i).value[m] == notes[m]
  {
    if i > 0 {
      HardAllToRest(notes, i - 1, m);
    }
  }

  lemma {:induction false} HardNumsErrPersists(sigs: seq<string>, nums: seq<int>, j: nat, k: nat)
    requires |sigs| == |nums| && j <= k <= |nums| && Searchable(sigs)
    requires HardNumsTo(sigs, nums, j).Err?
    ensures HardNumsTo(sigs, nums, k) == HardNumsTo(sigs, nums, j)
  {
    if j < k {
      HardNumsErrPersists(sigs, nums, j, k - 1);
    }
  }

  lemma {:induction false} HardAllErrPersists(notes: seq<DisplayNote>, i: nat, k: nat)
    requires i <= k <= |notes| && AllSearchable(notes)
    requires HardAllTo(notes, i).Err?
    ensures HardAllTo(notes, k) == HardAllTo(notes, i)
  {
    if i < k {
      HardAllErrPersists(notes, i, k - 1);
    }
  }

  // ------------------------------------------------------------- outputs

  /** The first signal at or after `i` identical to `o`. */
  function FirstEqual(sigs: seq<string>, o: string, i: nat): (k: nat)
    requires i <= |sigs| && o in sigs[i..]
    ensures i <= k < |sigs| && sigs[k] == o
    decreases |sigs| - i
  {
    if sigs[i] == o then i
    else
      assert sigs[i..] == [sigs[i]] + sigs[i + 1..];
      FirstEqual(sigs, o, i + 1)
  }

  /** Every output pattern is among the signals, as the unbounded match search needs. */
  predicate OutputsListed(n: DisplayNote)
  {
    forall j :: 0 <= j < 4 ==> n.output[j] in n.signals
  }

  /** The first `j` output slots given the digit of their signal. */
  function OutputNumsTo(n: DisplayNote, j: nat): (r: seq<int>)
    requires j <= 4 && OutputsListed(n)
    ensures |r| == 4
  {
    if j == 0 then n.outputNums
    else
      assert n.signals[0..] == n.signals;
      OutputNumsTo(n, j - 1)[j - 1 := n.signalNums[FirstEqual(n.signals, n.output[j - 1], 0)]]
  }

  lemma {:induction false} OutputNumsToAt(n: DisplayNote, j: nat, m: nat)
    requires j <= 4 && OutputsListed(n) && m < 4
    ensures m < j ==> n.signals[0..] == n.signals && OutputNumsTo(n, j)[m] == n.signalNums[FirstEqual(n.signals, n.output[m], 0)]
    ensures m >= j ==> OutputNumsTo(n, j)[m] == n.outputNums[m]
  {
    assert n.signals[0..] == n.signals;
    if j > 0 {
      OutputNumsToAt(n, j - 1, m);
    }
  }

  function LabelOutputs(n: DisplayNote): DisplayNote
    requires OutputsListed(n)
  {
    n.(outputNums := OutputNumsTo(n, 4))
  }

  predicate AllListed(notes: seq<DisplayNote>)
  {
    forall k :: 0 <= k < |notes| ==> OutputsListed(notes[k])
  }

  /** The first `i` notes with their outputs labelled. */
  function LabelOutputsTo(notes: seq<DisplayNote>, i: nat): (r: seq<DisplayNote>)
    requires i <= |notes| && AllListed(notes)
    ensures |r| == |notes|
  {
    if i == 0 then notes else LabelOutputsTo(notes, i - 1)[i - 1 := LabelOutputs(notes[i - 1])]
  }

  lemma {:induction false} LabelOutputsToAt(notes: seq<DisplayNote>, i: nat, m: nat)
    requires i <= |notes| && AllListed(notes) && m < |notes|
    ensures LabelOutputsTo(notes, i)[m] == if m < i then LabelOutputs(notes[m]) else notes[m]
  {
    if i > 0 {
      LabelOutputsToAt(notes, i - 1, m);
    }
  }

  /** The four output digits read as a decimal number, most significant first. */
  function OutputValue(ds: seq<int>, j: nat): int
    requires j <= |ds|
  {
    if j == 0 then 0 else OutputValue(ds, j - 1) * 10 + ds[j - 1]
  }

  /** Sum of the output values of the first `i` notes. */
  function OutputSum(notes: seq<DisplayNote>, i: nat): int
    requires i <= |notes|
  {
    if i == 0 then 0 else OutputSum(notes, i - 1) + OutputValue(notes[i - 1].outputNums, 4)
  }

  /** The last `j` decimal digits of `v`, most significant first. */
  function DecimalDigits(v: nat, j: nat): (ds: seq<int>)
    ensures |ds| == j
  {
    if j == 0 then [] else DecimalDigits(v / 10, j - 1) + [v % 10]
  }

  /**
   * Reading digits 0..9 as a decimal number loses nothing: the value lies
   * below 10^j and its last `j` decimal digits are the digits read.
   */
  lemma {:induction false} OutputValueRoundTrip(ds: seq<int>, j: nat)
    requires j <= |ds| && forall k :: 0 <= k < |ds| ==> 0 <= ds[k] <= 9
    ensures 0 <= OutputValue(ds, j) < Pow10(j)
    ensures DecimalDigits(OutputValue(ds, j), j) == ds[..j]
  {
    if j > 0 {
      OutputValueRoundTrip(ds, j - 1);
      var v := OutputValue(ds, j);
      assert v / 10 == OutputValue(ds, j - 1);
      assert v % 10 == ds[j - 1];
      assert ds[..j] == ds[..j - 1] + [ds[j - 1]];
    }
  }

  function Pow10(j: nat): (p: nat)
    ensures p >= 1
  {
    if j == 0 then 1 else 10 * Pow10(j - 1)
  }

  // ------------------------------------------------- what a display shows

  const Wires: set<char> := {'a', 'b', 'c', 'd', 'e', 'f', 'g'}

  /** The lit segments of each digit on an unscrambled display. */
  function Lit(d: int): (s: set<char>)
    requires 0 <= d <= 9
    ensures s <= Wires
  {
    match d
    case 0 => {'a', 'b', 'c', 'e', 'f', 'g'}
    case 1 => {'c', 'f'}
    case 2 => {'a', 'c', 'd', 'e', 'g'}
    case 3 => {'a', 'c', 'd', 'f', 'g'}
    case 4 => {'b', 'c', 'd', 'f'}
    case 5 => {'a', 'b', 'd', 'f', 'g'}
    case 6 => {'a', 'b', 'd', 'e', 'f', 'g'}
    case 7 => {'a', 'c', 'f'}
    case 8 => {'a', 'b', 'c', 'd', 'e', 'f', 'g'}
    case _ => {'a', 'b', 'c', 'd', 'f', 'g'}
  }

  /** A scrambling of the wires: each segment goes to a different wire. */
  predicate Wiring(w: map<char, char>)
  {
    Wires <= w.Keys && forall x, y :: x in Wires && y in Wires && x != y ==> w[x] != w[y]
  }

  function Image(w: map<char, char>, s: set<char>): set<char>
    requires s <= w.Keys
  {
    set x | x in s :: w[x]
  }

  function Chars(p: string): set<char>
  {
    set c | c in p
  }

  predicate NoRepeats(p: string)
  {
    forall a, b :: 0 <= a < b < |p| ==> p[a] != p[b]
  }

  /** Pattern `p` is what the scrambled display shows for digit `d`. */
  predicate Shows(p: string, w: map<char, char>, d: int)
    requires Wiring(w)
  {
    0 <= d <= 9 && NoRepeats(p) && Chars(p) == Image(w, Lit(d))
  }

  /** The ten signals of a note are the ten digits under wiring `w`, slot `k` showing `digits[k]`. */
  predicate Wired(sigs: seq<string>, w: map<char, char>, digits: seq<int>)
  {
    Wiring(w) && |sigs| == |digits| == 10
    && (forall k :: 0 <= k < 10 ==> Shows(sigs[k], w, digits[k]))
    && (forall d :: 0 <= d <= 9 ==> d in digits)
  }

  lemma {:induction false} CharsCount(p: string)
    requires NoRepeats(p)
    ensures |Chars(p)| == |p|
  {
    if |p| > 0 {
      var q := p[..|p| - 1];
      assert NoRepeats(q) by {
        forall a, b | 0 <= a < b < |q|
          ensures q[a] != q[b]
        {
          assert q[a] == p[a] && q[b] == p[b];
        }
      }
      CharsCount(q);
      assert Chars(p) == Chars(q) + {p[|p| - 1]} by {
        assert p == q + [p[|p| - 1]];
      }
      assert p[|p| - 1] !in Chars(q) by {
        forall a | 0 <= a < |q|
          ensures q[a] != p[|p| - 1]
        {
          assert q[a] == p[a];
        }
      }
    }
  }

  lemma ImageCount(w: map<char, char>, s: set<char>)
    requires Wiring(w) && s <= Wires
    ensures |Image(w, s)| == |s|
    decreases |s|
  {
    if s != {} {
      var x :| x in s;
      var t := s - {x};
      ImageCount(w, t);
      assert Image(w, s) == Image(w, t) + {w[x]};
      assert w[x] !in Image(w, t);
    }
  }

  lemma ImageSubset(w: map<char, char>, a: set<char>, b: set<char>)
    requires Wiring(w) && a <= Wires && b <= Wires
    ensures Image(w, a) <= Image(w, b) <==> a <= b
  {
    if Image(w, a) <= Image(w, b) {
      forall x | x in a
        ensures x in b
      {
        assert w[x] in Image(w, b);
      }
    }
  }

  lemma ImageMeet(w: map<char, char>, a: set<char>, b: set<char>)
    requires Wiring(w) && a <= Wires && b <= Wires
    ensures Image(w, a) * Image(w, b) == Image(w, a * b)
  {
    forall c | c in Image(w, a) * Image(w, b)
      ensures c in Image(w, a * b)
    {
      var x :| x in a && w[x] == c;
      var y :| y in b && w[y] == c;
      assert x == y;
    }
  }

  lemma {:induction false} AllInToMeans(small: string, p: string, k: nat)
    requires k <= |small|
    ensures AllInTo(small, p, k) <==> Chars(small[..k]) <= Chars(p)
  {
    if k > 0 {
      AllInToMeans(small, p, k - 1);
      assert small[..k] == small[..k - 1] + [small[k - 1]];
      assert Chars(small[..k]) == Chars(small[..k - 1]) + {small[k - 1]};
    }
  }

  lemma CharsSnoc(q: string, c: char)
    ensures Chars(q + [c]) == Chars(q) + {c}
  {
    assert forall x :: x in q + [c] <==> x in q || x == c;
  }

  lemma MeetAdd(a: set<char>, b: set<char>, c: char)
    requires c !in a
    ensures |(a + {c}) * b| == |a * b| + (if c in b then 1 else 0)
  {
    if c in b {
      assert (a + {c}) * b == (a * b) + {c};
    } else {
      assert (a + {c}) * b == a * b;
    }
  }

  /** In a pattern without repeats, a segment does not occur before its own position. */
  lemma FreshLast(small: string, k: nat)
    requires 0 < k <= |small| && NoRepeats(small)
    ensures small[k - 1] !in Chars(small[..k - 1])
  {
    var pre := small[..k - 1];
    forall a | 0 <= a < |pre|
      ensures pre[a] != small[k - 1]
    {
      assert pre[a] == small[a];
    }
  }

  /** Adding the next segment of `small` adds one shared segment exactly when `p` has it. */
  lemma CountInStep(small: string, p: string, k: nat)
    requires 0 < k <= |small| && NoRepeats(small)
    ensures |Chars(small[..k]) * Chars(p)| == |Chars(small[..k - 1]) * Chars(p)| + (if small[k - 1] in p then 1 else 0)
  {
    var c := small[k - 1];
    var pre := small[..k - 1];
    assert small[..k] == pre + [c];
    CharsSnoc(pre, c);
    FreshLast(small, k);
    assert c in Chars(p) <==> c in p;
    MeetAdd(Chars(pre), Chars(p), c);
  }

  lemma {:induction false} CountInMeans(small: string, p: string, k: nat)
    requires k <= |small| && NoRepeats(small)
    ensures CountIn(small, p, k) == |Chars(small[..k]) * Chars(p)|
  {
    if k > 0 {
      CountInMeans(small, p, k - 1);
      CountInStep(small, p, k);
    } else {
      assert small[..k] == [];
    }
  }

  /** A shown pattern has as many segments as its digit has lit. */
  lemma ShownLength(p: string, w: map<char, char>, d: int)
    requires Wiring(w) && Shows(p, w, d)
    ensures |p| == |Lit(d)|
  {
    CharsCount(p);
    ImageCount(w, Lit(d));
  }

  /** The segment tests the C code makes on shown patterns are the same tests on the digits' lit segments. */
  lemma ShownTests(small: string, p: string, w: map<char, char>, a: int, b: int)
    requires Wiring(w) && Shows(small, w, a) && Shows(p, w, b)
    ensures AllIn(small, p) <==> Lit(a) <= Lit(b)
    ensures CountIn(small, p, |small|) == |Lit(a) * Lit(b)|
  {
    assert small[..|small|] == small;
    AllInToMeans(small, p, |small|);
    ImageSubset(w, Lit(a), Lit(b));
    CountInMeans(small, p, |small|);
    ImageMeet(w, Lit(a), Lit(b));
    ImageCount(w, Lit(a) * Lit(b));
  }

  /** The facts about the unscrambled digits the deduction rests on. */
  lemma LitFacts(d: int)
    requires 0 <= d <= 9
    ensures |Lit(d)| == [6, 2, 5, 5, 4, 5, 6, 3, 7, 6][d]
    ensures |Lit(d)| == 6 ==> (Lit(1) <= Lit(d) <==> d != 6) && (Lit(4) <= Lit(d) <==> d == 9)
    ensures |Lit(d)| == 5 ==> (Lit(1) <= Lit(d) <==> d == 3)
    ensures |Lit(d)| == 5 && d != 3 ==> |Lit(4) * Lit(d)| == (if d == 5 then 3 else 2)
  {
    match d
    case 0 =>
    case 1 =>
    case 2 =>
      assert Lit(4) * Lit(2) == {'c', 'd'};
    case 3 =>
    case 4 =>
    case 5 =>
      assert Lit(4) * Lit(5) == {'b', 'd', 'f'};
    case 6 =>
    case 7 =>
    case 8 =>
    case 9 =>
  }

  /** Under a wiring the unbounded searches succeed, and find the patterns showing 1 and 4. */
  lemma WiredSearches(sigs: seq<string>, w: map<char, char>, digits: seq<int>)
    requires Wired(sigs, w, digits)
    ensures HasLength(sigs, 2) && HasLength(sigs, 4) && Searchable(sigs)
    ensures Shows(sigs[FirstOfLength(sigs, 2, 0)], w, 1)
    ensures Shows(sigs[FirstOfLength(sigs, 4, 0)], w, 4)
  {
    assert 1 in digits && 4 in digits;
    var k1 :| 0 <= k1 < 10 && digits[k1] == 1;
    var k4 :| 0 <= k4 < 10 && digits[k4] == 4;
    ShownLength(sigs[k1], w, 1);
    ShownLength(sigs[k4], w, 4);
    LitFacts(1);
    LitFacts(4);
    var i1 := FirstOfLength(sigs, 2, 0);
    var i4 := FirstOfLength(sigs, 4, 0);
    ShownLength(sigs[i1], w, digits[i1]);
    ShownLength(sigs[i4], w, digits[i4]);
    LitFacts(digits[i1]);
    LitFacts(digits[i4]);
  }

  /** The segment tests, answered as on the unscrambled digit `d`, decide a five- or six-segment slot. */
  lemma HardLabelDecides(p: string, one: string, four: string, d: int)
    requires 0 <= d <= 9 && |p| == |Lit(d)| && (|p| == 5 || |p| == 6)
    requires AllIn(one, p) <==> Lit(1) <= Lit(d)
    requires AllIn(four, p) <==> Lit(4) <= Lit(d)
    requires CountIn(four, p, |four|) == |Lit(4) * Lit(d)|
    ensures HardLabel(p, one, four, Unidentified) == Ok(d)
  {
    LitFacts(d);
  }

  /** Under a wiring, each slot, labelled by length and then by the segment tests, gets the digit it shows. */
  lemma SlotIdentified(sigs: seq<string>, w: map<char, char>, digits: seq<int>, j: nat)
    requires Wired(sigs, w, digits) && j < 10
    ensures Searchable(sigs)
    ensures HardLabelAt(sigs, j, EasyLabel(sigs[j], Unidentified)) == Ok(digits[j])
  {
    WiredSearches(sigs, w, digits);
    var d, p := digits[j], sigs[j];
    ShownLength(p, w, d);
    LitFacts(d);
    if |p| == 5 || |p| == 6 {
      var one, four := sigs[FirstOfLength(sigs, 2, 0)], sigs[FirstOfLength(sigs, 4, 0)];
      ShownTests(one, p, w, 1, d);
      ShownTests(four, p, w, 4, d);
      HardLabelDecides(p, one, four, d);
    }
  }

  lemma {:induction false} HardNumsCorrectTo(sigs: seq<string>, w: map<char, char>, digits: seq<int>, nums: seq<int>, j: nat)
    requires Wired(sigs, w, digits) && |nums| == 10 && j <= 10
    requires forall m :: 0 <= m < 10 ==> nums[m] == EasyLabel(sigs[m], Unidentified)
    ensures Searchable(sigs) && HardNumsTo(sigs, nums, j).Ok?
    ensures forall m :: 0 <= m < j ==> HardNumsTo(sigs, nums, j).value[m] == digits[m]
    ensures forall m :: j <= m < 10 ==> HardNumsTo(sigs, nums, j).value[m] == nums[m]
  {
    WiredSearches(sigs, w, digits);
    if j > 0 {
      HardNumsCorrectTo(sigs, w, digits, nums, j - 1);
      SlotIdentified(sigs, w, digits, j - 1);
    }
  }

  /**
   * On a freshly parsed note whose signals are the ten digits under some
   * wiring, labelling by length and then by the segment tests gives every
   * signal slot the digit it shows, with no failure.
   */
  lemma SignalsIdentified(n: DisplayNote, w: map<char, char>, digits: seq<int>)
    requires Wired(n.signals, w, digits)
    requires forall m :: 0 <= m < 10 ==> n.signalNums[m] == Unidentified
    ensures Searchable(n.signals)
    ensures HardNumsTo(n.signals, LabelEasy(n).signalNums, 10) == Ok(digits)
  {
    var nums := LabelEasy(n).signalNums;
    forall m | 0 <= m < 10
      ensures nums[m] == EasyLabel(n.signals[m], Unidentified)
    {
      EasyNumsToAt(n.signals, n.signalNums, 10, m);
    }
    HardNumsCorrectTo(n.signals, w, digits, nums, 10);
    assert HardNumsTo(n.signals, nums, 10).value == digits;
  }

  /** Under a wiring a pattern shows at most one digit. */
  lemma ShowsOneDigit(p: string, w: map<char, char>, a: int, b: int)
    requires Wiring(w) && Shows(p, w, a) && Shows(p, w, b)
    ensures a == b
  {
    ImageSubset(w, Lit(a), Lit(b));
    ImageSubset(w, Lit(b), Lit(a));
    assert Lit(a) == Lit(b);
    LitFacts(a);
    LitFacts(b);
  }

  /**
   * Once the signals carry their digits, each output slot gets the digit its
   * pattern shows.
   */
  lemma OutputsIdentified(n: DisplayNote, w: map<char, char>, digits: seq<int>, shown: seq<int>)
    requires Wired(n.signals, w, digits) && n.signalNums == digits && OutputsListed(n)
    requires |shown| == 4 && forall j :: 0 <= j < 4 ==> Shows(n.output[j], w, shown[j])
    ensures OutputNumsTo(n, 4) == shown
  {
    forall m | 0 <= m < 4
      ensures OutputNumsTo(n, 4)[m] == shown[m]
    {
      OutputNumsToAt(n, 4, m);
      var k := FirstEqual(n.signals, n.output[m], 0);
      ShowsOneDigit(n.output[m], w, digits[k], shown[m]);
    }
  }

  /**
   * On a freshly parsed note whose signals are the ten digits under some
   * wiring and whose outputs show `shown`, the three labelling passes give
   * the outputs exactly the digits they show.
   */
  lemma NoteDecoded(n: DisplayNote, w: map<char, char>, digits: seq<int>, shown: seq<int>)
    requires Wired(n.signals, w, digits) && OutputsListed(n)
    requires |shown| == 4 && forall j :: 0 <= j < 4 ==> Shows(n.output[j], w, shown[j])
    requires forall m :: 0 <= m < 10 ==> n.signalNums[m] == Unidentified
    ensures Searchable(n.signals) && HardNote(LabelEasy(n)).Ok?
    ensures OutputsListed(HardNote(LabelEasy(n)).value)
    ensures LabelOutputs(HardNote(LabelEasy(n)).value).outputNums == shown
  {
    SignalsIdentified(n, w, digits);
    var h := HardNote(LabelEasy(n)).value;
    assert h.signals == n.signals && h.output == n.output && h.signalNums == digits;
    OutputsIdentified(h, w, digits, shown);
  }

  /** A pattern has no repeated segment exactly when no segment occurs twice in its multiset. */
  lemma {:induction false} NoRepeatsCounts(p: string)
    ensures NoRepeats(p) <==> forall c :: multiset(p)[c] <= 1
  {
    if p != [] {
      var q := p[..|p| - 1];
      var x := p[|p| - 1];
      assert p == q + [x];
      assert multiset(p) == multiset(q) + multiset{x};
      NoRepeatsCounts(q);
      if NoRepeats(p) {
        assert NoRepeats(q) by {
          forall a, b | 0 <= a < b < |q|
            ensures q[a] != q[b]
          {
            assert q[a] == p[a] && q[b] == p[b];
          }
        }
        assert x !in multiset(q) by {
          forall a | 0 <= a < |q|
            ensures q[a] != x
          {
            assert q[a] == p[a];
          }
        }
        forall c
          ensures multiset(p)[c] <= 1
        {
          assert multiset(q)[c] <= 1;
        }
      }
      if forall c :: multiset(p)[c] <= 1 {
        assert forall c :: multiset(q)[c] <= 1 by {
          forall c
            ensures multiset(q)[c] <= 1
          {
            assert multiset(p)[c] <= 1;
          }
        }
        assert multiset(p)[x] <= 1;
        assert x !in q;
        forall a, b | 0 <= a < b < |p|
          ensures p[a] != p[b]
        {
          if b < |p| - 1 {
            assert p[a] == q[a] && p[b] == q[b];
          } else {
            assert p[a] == q[a];
          }
        }
      }
    }
  }

  /** Rearranging a pattern keeps its segments and its lack of repeats. */
  lemma SameSegments(p: string, q: string)
    requires multiset(p) == multiset(q)
    ensures Chars(p) == Chars(q) && (NoRepeats(p) <==> NoRepeats(q))
  {
    assert forall c :: c in p <==> c in multiset(p);
    assert forall c :: c in q <==> c in multiset(q);
    NoRepeatsCounts(p);
    NoRepeatsCounts(q);
  }

  /** Two patterns without repeats on the same segments are rearrangements of each other. */
  lemma SameSetSameMultiset(p: string, q: string)
    requires NoRepeats(p) && NoRepeats(q) && Chars(p) == Chars(q)
    ensures multiset(p) == multiset(q)
  {
    NoRepeatsCounts(p);
    NoRepeatsCounts(q);
    forall c
      ensures multiset(p)[c] == multiset(q)[c]
    {
      assert c in p <==> c in multiset(p);
      assert c in q <==> c in multiset(q);
      assert c in p <==> c in Chars(p);
      assert c in q <==> c in Chars(q);
    }
  }

  /**
   * Two displays of the same digit, each with its segments sorted, are the
   * same string: the string comparison of the output search meets the
   * signal showing that digit.
   */
  lemma SortedShowsUnique(p: string, q: string, w: map<char, char>, d: int)
    requires Wiring(w) && Shows(p, w, d) && Shows(q, w, d) && SortedChars(p) && SortedChars(q)
    ensures p == q
  {
    SameSetSameMultiset(p, q);
    SortedCharsUnique(p, q);
  }

  /**
   * A note parsed from a display: the ten signals show the ten digits under
   * some wiring, in any segment order, and the four outputs show `shown`.
   * After sorting each pattern, every output is among the signals, and the
   * three labelling passes give the outputs exactly the digits they show.
   */
  lemma DisplayDecoded(signals: seq<string>, output: seq<string>, w: map<char, char>, digits: seq<int>, shown: seq<int>)
    requires Wired(signals, w, digits) && |output| == 4
    requires |shown| == 4 && forall j :: 0 <= j < 4 ==> Shows(output[j], w, shown[j])
    ensures OutputsListed(FreshNote(signals, output))
    ensures Searchable(FreshNote(signals, output).signals) && HardNote(LabelEasy(FreshNote(signals, output))).Ok?
    ensures LabelOutputs(HardNote(LabelEasy(FreshNote(signals, output))).value).outputNums == shown
  {
    var n := FreshNote(signals, output);
    forall k | 0 <= k < 10
      ensures Shows(n.signals[k], w, digits[k])
    {
      SameSegments(signals[k], n.signals[k]);
    }
    assert Wired(n.signals, w, digits);
    forall j | 0 <= j < 4
      ensures Shows(n.output[j], w, shown[j]) && n.output[j] in n.signals
    {
      SameSegments(output[j], n.output[j]);
      assert shown[j] in digits;
      var k :| 0 <= k < 10 && digits[k] == shown[j];
      SortedShowsUnique(n.output[j], n.signals[k], w, shown[j]);
    }
    NoteDecoded(n, w, digits, shown);
  }

  /** Shown digits among the first `j` that are 1, 4, 7 or 8. */
  function EasyDigits(shown: seq<int>, j: nat): nat
    requires j <= |shown|
  {
    if j == 0 then 0 else EasyDigits(shown, j - 1) + (if shown[j - 1] in {1, 4, 7, 8} then 1 else 0)
  }

  /** Part 1 counts, on a displayed note, exactly the outputs showing 1, 4, 7 or 8. */
  lemma {:induction false} EasyCountsDigits(out: seq<string>, w: map<char, char>, shown: seq<int>, j: nat)
    requires Wiring(w) && |out| == |shown| && j <= |out|
    requires forall k :: 0 <= k < |out| ==> Shows(out[k], w, shown[k])
    ensures EasyIn(out, j) == EasyDigits(shown, j)
  {
    if j > 0 {
      EasyCountsDigits(out, w, shown, j - 1);
      ShownLength(out[j - 1], w, shown[j - 1]);
      LitFacts(shown[j - 1]);
    }
  }

  // ------------------------------------------------------------- methods

  /** Part 1: the easy patterns among all outputs. */
  method FindNumEasyInOutput(notes: array<DisplayNote>) returns (count: nat)
    ensures count == EasyCount(notes[..], notes.Length)
  {
    count := 0;
    var i := 0;
    while i < notes.Length
      invariant 0 <= i <= notes.Length
      invariant count == EasyCount(notes[..], i)
    {
      var j := 0;
      while j < 4
        invariant 0 <= j <= 4
        invariant count == EasyCount(notes[..], i) + EasyIn(notes[i].output, j)
      {
        var p := notes[i].output[j];
        if |p| == 2 || |p| == 4 || |p| == 3 || |p| == 7 {
          count := count + 1;
        }
        j := j + 1;
      }
      i := i + 1;
    }
  }

  /** Labels the patterns of length 2, 4, 3 and 7 of every note as 1, 4, 7 and 8. */
  method IdentifyEasy(notes: array<DisplayNote>)
    modifies notes
    ensures notes[..] == LabelEasyTo(old(notes[..]), notes.Length)
  {
    ghost var start := notes[..];
    var i := 0;
    while i < notes.Length
      invariant 0 <= i <= notes.Length
      invariant notes[..] == LabelEasyTo(start, i)
    {
      LabelEasyToAt(start, i, i);
      ghost var n := notes[i];
      var j := 0;
      while j < 10
        invariant 0 <= j <= 10
        invariant notes[..] == LabelEasyTo(start, i)[i := notes[i]]
        invariant notes[i] == n.(signalNums := EasyNumsTo(n.signals, n.signalNums, j))
      {
        EasyNumsToAt(n.signals, n.signalNums, j, j);
        var p := notes[i].signals[j];
        if |p| == 2 {
          notes[i] := notes[i].(signalNums := notes[i].signalNums[j := 1]);
        } else if |p| == 4 {
          notes[i] := notes[i].(signalNums := notes[i].signalNums[j := 4]);
        } else if |p| == 3 {
          notes[i] := notes[i].(signalNums := notes[i].signalNums[j := 7]);
        } else if |p| == 7 {
          notes[i] := notes[i].(signalNums := notes[i].signalNums[j := 8]);
        } else {
          assert EasyNumsTo(n.signals, n.signalNums, j + 1) == EasyNumsTo(n.signals, n.signalNums, j);
        }
        j := j + 1;
      }
      i := i + 1;
    }
  }

  /** The unbounded search for the first pattern of length `len`. */
  method FindOfLength(sigs: seq<string>, len: nat) returns (index: nat)
    requires HasLength(sigs, len)
    ensures index == FirstOfLength(sigs, len, 0)
  {
    index := 0;
    while |sigs[index]| != len
      invariant 0 <= index < |sigs| && exists m :: index <= m < |sigs| && |sigs[m]| == len
      invariant FirstOfLength(sigs, len, index) == FirstOfLength(sigs, len, 0)
      decreases |sigs| - index
    {
      index := index + 1;
    }
  }

  lemma {:induction false} AllInToStops(small: string, p: string, k: nat, m: nat)
    requires k <= m <= |small| && !AllInTo(small, p, k)
    ensures !AllInTo(small, p, m)
  {
    if k < m {
      AllInToStops(small, p, k, m - 1);
    }
  }

  /** The segment tests on slot `j`, whose digit slot holds `prev`. */
  method DeduceSlot(sigs: seq<string>, j: nat, prev: int) returns (r: Result<int, SegmentError>)
    requires j < |sigs| && Searchable(sigs)
    ensures r == HardLabelAt(sigs, j, prev)
  {
    var p := sigs[j];
    var num := prev;
    if |p| == 6 {
      var index := FindOfLength(sigs, 2);
      var one := sigs[index];
      var k := 0;
      while k < |one|
        invariant 0 <= k <= |one| && AllInTo(one, p, k) && num == prev
      {
        if one[k] !in p {
          AllInToStops(one, p, k + 1, |one|);
          num := 6;
          break;
        }
        k := k + 1;
      }
      if num == 6 {
        return Ok(num);
      }
      index := FindOfLength(sigs, 4);
      var four := sigs[index];
      k := 0;
      while k < |four|
        invariant 0 <= k <= |four| && AllInTo(four, p, k) && num == prev
      {
        if four[k] !in p {
          AllInToStops(four, p, k + 1, |four|);
          num := 0;
          break;
        }
        k := k + 1;
      }
      if num != 0 {
        num := 9;
      }
      r := Ok(num);
    } else if |p| == 5 {
      var index := FindOfLength(sigs, 2);
      var one := sigs[index];
      var k := 0;
      while k < |one|
        invariant 0 <= k <= |one| && AllInTo(one, p, k)
      {
        if one[k] !in p {
          AllInToStops(one, p, k + 1, |one|);
          break;
        }
        k := k + 1;
      }
      if k == |one| {
        return Ok(3);
      }
      index := FindOfLength(sigs, 4);
      var four := sigs[index];
      var matching := 0;
      k := 0;
      while k < |four|
        invariant 0 <= k <= |four| && matching == CountIn(four, p, k)
      {
        if four[k] in p {
          matching := matching + 1;
        }
        k := k + 1;
      }
      if matching == 3 {
        r := Ok(5);
      } else if matching == 2 {
        r := Ok(2);
      } else {
        r := Err(NotTwoOrFive(matching));
      }
    } else {
      r := Ok(num);
    }
  }

  /** Labels the five- and six-segment patterns of every note; stops at a pattern the tests cannot place. */
  method IdentifyHard(notes: array<DisplayNote>) returns (err: Option<SegmentError>)
    requires AllSearchable(notes[..])
    modifies notes
    ensures match HardAllTo(old(notes[..]), notes.Length)
      case Ok(ns) => err.None? && notes[..] == ns
      case Err(e) => err == Some(e)
  {
    ghost var start := notes[..];
    var i := 0;
    while i < notes.Length
      invariant 0 <= i <= notes.Length
      invariant HardAllTo(start, i) == Ok(notes[..])
    {
      ghost var before := notes[..];
      ghost var n := notes[i];
      HardAllToRest(start, i, i);
      var j := 0;
      while j < 10
        invariant 0 <= j <= 10
        invariant notes[..] == before[i := notes[i]]
        invariant notes[i].signals == n.signals && notes[i].output == n.output && notes[i].outputNums == n.outputNums
        invariant HardNumsTo(n.signals, n.signalNums, j) == Ok(notes[i].signalNums)
      {
        HardNumsToAt(n.signals, n.signalNums, j, j);
        var r := DeduceSlot(notes[i].signals, j, notes[i].signalNums[j]);
        if r.Err? {
          HardNumsErrPersists(n.signals, n.signalNums, j + 1, 10);
          HardAllErrPersists(start, i + 1, notes.Length);
          return Some(r.error);
        }
        notes[i] := notes[i].(signalNums := notes[i].signalNums[j := r.value]);
        j := j + 1;
      }
      i := i + 1;
    }
    err := None;
  }

  /** Gives every output slot the digit of the identical signal pattern. */
  method IdentifyOutputs(notes: array<DisplayNote>)
    requires AllListed(notes[..])
    modifies notes
    ensures notes[..] == LabelOutputsTo(old(notes[..]), notes.Length)
  {
    ghost var start := notes[..];
    var i := 0;
    while i < notes.Length
      invariant 0 <= i <= notes.Length
      invariant notes[..] == LabelOutputsTo(start, i)
    {
      LabelOutputsToAt(start, i, i);
      ghost var n := notes[i];
      var j := 0;
      while j < 4
        invariant 0 <= j <= 4
        invariant notes[..] == LabelOutputsTo(start, i)[i := notes[i]]
        invariant notes[i] == n.(outputNums := OutputNumsTo(n, j))
      {
        OutputNumsToAt(n, j + 1, j);
        var k := FindMatch(notes[i].signals, notes[i].output[j]);
        notes[i] := notes[i].(outputNums := notes[i].outputNums[j := notes[i].signalNums[k]]);
        j := j + 1;
      }
      i := i + 1;
    }
  }

  /** The unbounded search for the signal pattern identical to `o`. */
  method FindMatch(sigs: seq<string>, o: string) returns (k: nat)
    requires o in sigs
    ensures sigs[0..] == sigs && k == FirstEqual(sigs, o, 0)
  {
    assert sigs[0..] == sigs;
    k := 0;
    while sigs[k] != o
      invariant 0 <= k < |sigs| && o in sigs[k..]
      invariant FirstEqual(sigs, o, k) == FirstEqual(sigs, o, 0)
      decreases |sigs| - k
    {
      assert sigs[k..] == [sigs[k]] + sigs[k + 1..];
      k := k + 1;
    }
  }

  /** Part 2: the sum over notes of the four output digits read as a decimal number. */
  method FindSumOfOutputs(notes: array<DisplayNote>) returns (sum: int)
    ensures sum == OutputSum(notes[..], notes.Length)
  {
    sum := 0;
    var i := 0;
    while i < notes.Length
      invariant 0 <= i <= notes.Length
      invariant sum == OutputSum(notes[..], i)
    {
      var output := 0;
      var j := 0;
      while j < 4
        invariant 0 <= j <= 4
        invariant output == OutputValue(notes[i].outputNums, j)
      {
        output := output * 10;
        output := output + notes[i].outputNums[j];
        j := j + 1;
      }
      sum := sum + output;
      i := i + 1;
    }
  }
}
