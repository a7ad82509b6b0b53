/**
 * Syntax scoring of bracket lines (src/day_10.c): a stack of unmatched
 * opening brackets, the corruption score of the first illegal closing
 * bracket, the autocomplete score of what is left open, and the middle of
 * the sorted autocomplete scores.
 */
module Brackets {
  import opened Wrappers
  import opened Sorting

  predicate IsOpen(c: char)
  {
    c == '(' || c == '[' || c == '{' || c == '<'
  }

  predicate IsClose(c: char)
  {
    c == ')' || c == ']' || c == '}' || c == '>'
  }

  /** The opening bracket a closing bracket must meet. */
  function OpenerOf(c: char): (o: char)
    requires IsClose(c)
    ensures IsOpen(o)
  {
    if c == ')' then '(' else if c == ']' then '[' else if c == '}' then '{' else '<'
  }

  /** The closing bracket that completes an opening bracket. */
  function CloserOf(o: char): (c: char)
    requires IsOpen(o)
    ensures IsClose(c) && OpenerOf(c) == o
  {
    if o == '(' then ')' else if o == '[' then ']' else if o == '{' then '}' else '>'
  }

  /** Syntax error points of an illegal closing bracket. */
  function ErrorPoints(c: char): nat
    requires IsClose(c)
  {
    if c == ')' then 3 else if c == ']' then 57 else if c == '}' then 1197 else 25137
  }

  /** Autocomplete points of a closing bracket added to complete a line. */
  function ClosingPoints(c: char): nat
    requires IsClose(c)
  {
    if c == ')' then 1 else if c == ']' then 2 else if c == '}' then 3 else 4
  }

  /** Autocomplete points for an opener left on the buffer, as the runner's switch gives them. */
  function OpenerPoints(o: char): (p: nat)
    requires IsOpen(o)
    ensures p == ClosingPoints(CloserOf(o)) && 1 <= p <= 4
  {
    if o == '(' then 1 else if o == '[' then 2 else if o == '{' then 3 else 4
  }

  datatype LineStatus = Corrupted(points: nat) | Incomplete(open: seq<char>)

  datatype BracketError =
    | InvalidCharacter(c: char)  // a character that is no bracket stops the program
    | NoIncompleteLines          // the middle score of no scores is read out of bounds

  predicate AllOpeners(st: seq<char>)
  {
    forall k :: 0 <= k < |st| ==> IsOpen(st[k])
  }

  /* ---------- The line scan ---------- */

  /**
   * The scan of line from position j with the unmatched openers st: an
   * opener is pushed; a closer pops a matching opener on top and otherwise
   * ends the line as corrupted with its error points; any other character
   * is an error. At the end of the line the openers left are reported.
   */
  function ScanFrom(line: seq<char>, j: nat, st: seq<char>): Result<LineStatus, BracketError>
    requires j <= |line|
    decreases |line| - j
  {
    if j == |line| then Ok(Incomplete(st))
    else
      var c := line[j];
      if IsOpen(c) then ScanFrom(line, j + 1, st + [c])
      else if !IsClose(c) then Err(InvalidCharacter(c))
      else if st == [] || st[|st| - 1] != OpenerOf(c) then Ok(Corrupted(ErrorPoints(c)))
      else ScanFrom(line, j + 1, st[..|st| - 1])
  }

  function Scan(line: seq<char>): Result<LineStatus, BracketError>
  {
    ScanFrom(line, 0, [])
  }

  /** What is left open is made of openers and is never longer than the text scanned. */
  lemma {:induction false} ScanLeavesOpeners(line: seq<char>, j: nat, st: seq<char>)
    requires j <= |line| && AllOpeners(st)
    requires ScanFrom(line, j, st).Ok? && ScanFrom(line, j, st).value.Incomplete?
    ensures AllOpeners(ScanFrom(line, j, st).value.open)
    ensures |ScanFrom(line, j, st).value.open| <= |st| + |line| - j
    decreases |line| - j
  {
    if j < |line| {
      var c := line[j];
      if IsOpen(c) {
        ScanLeavesOpeners(line, j + 1, st + [c]);
      } else {
        ScanLeavesOpeners(line, j + 1, st[..|st| - 1]);
      }
    }
  }

  lemma {:induction false} ScanShift(a: seq<char>, b: seq<char>, k: nat, st: seq<char>)
    requires k <= |b|
    ensures ScanFrom(a + b, |a| + k, st) == ScanFrom(b, k, st)
    decreases |b| - k
  {
    if k < |b| {
      assert (a + b)[|a| + k] == b[k];
      var c := b[k];
      if IsOpen(c) {
        ScanShift(a, b, k + 1, st + [c]);
      } else if IsClose(c) && st != [] && st[|st| - 1] == OpenerOf(c) {
        ScanShift(a, b, k + 1, st[..|st| - 1]);
      }
    }
  }

  /** Scanning a + b continues the scan of b from the openers a leaves, or stops where a stops. */
  lemma {:induction false} ScanConcat(a: seq<char>, b: seq<char>, j: nat, st: seq<char>)
    requires j <= |a|
    ensures var ra := ScanFrom(a, j, st);
            ScanFrom(a + b, j, st) == if ra.Ok? && ra.value.Incomplete? then ScanFrom(b, 0, ra.value.open) else ra
    decreases |a| - j
  {
    if j == |a| {
      ScanShift(a, b, 0, st);
    } else {
      assert (a + b)[j] == a[j];
      var c := a[j];
      if IsOpen(c) {
        ScanConcat(a, b, j + 1, st + [c]);
      } else if IsClose(c) && st != [] && st[|st| - 1] == OpenerOf(c) {
        ScanConcat(a, b, j + 1, st[..|st| - 1]);
      }
    }
  }

  /* ---------- Completion ---------- */

  /** The closers of st[..p], the top of the buffer first. */
  function CompletionFrom(st: seq<char>, p: nat): (s: seq<char>)
    requires p <= |st| && AllOpeners(st)
    ensures |s| == p
  {
    if p == 0 then [] else [CloserOf(st[p - 1])] + CompletionFrom(st, p - 1)
  }

  /** The closing brackets that complete a line whose unmatched openers are st. */
  function Completion(st: seq<char>): seq<char>
    requires AllOpeners(st)
  {
    CompletionFrom(st, |st|)
  }

  lemma {:induction false} CompletionIndex(st: seq<char>, p: nat, k: nat)
    requires p <= |st| && AllOpeners(st) && k < p
    ensures CompletionFrom(st, p)[k] == CloserOf(st[p - 1 - k])
    decreases p
  {
    if k > 0 {
      CompletionIndex(st, p - 1, k - 1);
    }
  }

  lemma {:induction false} CompletionFromCloses(st: seq<char>, p: nat)
    requires p <= |st| && AllOpeners(st)
    ensures ScanFrom(CompletionFrom(st, p), 0, st[..p]) == Ok(Incomplete([]))
    decreases p
  {
    if p > 0 {
      var c := CloserOf(st[p - 1]);
      var rest := CompletionFrom(st, p - 1);
      assert st[..p][p - 1] == st[p - 1] && st[..p][..p - 1] == st[..p - 1];
      assert ([c] + rest)[0] == c;
      CompletionFromCloses(st, p - 1);
      ScanShift([c], rest, 0, st[..p - 1]);
    }
  }

  /** Appending the completion to a line that is not corrupted leaves nothing open. */
  lemma {:induction false} CompletionCloses(line: seq<char>)
    requires Scan(line).Ok? && Scan(line).value.Incomplete?
    ensures AllOpeners(Scan(line).value.open)
    ensures Scan(line + Completion(Scan(line).value.open)) == Ok(Incomplete([]))
  {
    var st := Scan(line).value.open;
    ScanLeavesOpeners(line, 0, []);
    ScanConcat(line, Completion(st), 0, []);
    CompletionFromCloses(st, |st|);
    assert st[..|st|] == st;
  }

  /* ---------- Autocomplete score ---------- */

  /** The puzzle's score of a completion string: for each closer in turn, times 5 plus its points. */
  function StringScore(s: seq<char>, n: nat): nat
    requires n <= |s| && forall k :: 0 <= k < |s| ==> IsClose(s[k])
  {
    if n == 0 then 0 else 5 * StringScore(s, n - 1) + ClosingPoints(s[n - 1])
  }

  /** The runner's fold over the buffer from the top down to position p. */
  function BufferScore(st: seq<char>, p: nat): nat
    requires p <= |st| && AllOpeners(st)
    decreases |st| - p
  {
    if p == |st| then 0 else 5 * BufferScore(st, p + 1) + OpenerPoints(st[p])
  }

  /** Folding the buffer from the top is scoring the completion string from its start. */
  lemma {:induction false} BufferScoreIsCompletionScore(st: seq<char>, n: nat)
    requires AllOpeners(st) && n <= |st|
    ensures forall k :: 0 <= k < |Completion(st)| ==> IsClose(Completion(st)[k])
    ensures BufferScore(st, |st| - n) == StringScore(Completion(st), n)
    decreases n
  {
    forall k | 0 <= k < |Completion(st)| ensures IsClose(Completion(st)[k]) {
      CompletionIndex(st, |st|, k);
    }
    if n > 0 {
      BufferScoreIsCompletionScore(st, n - 1);
      CompletionIndex(st, |st|, n - 1);
    }
  }

  /** The autocomplete score is 0 exactly when nothing is left open. */
  lemma {:induction false} BufferScoreZero(st: seq<char>, p: nat)
    requires p <= |st| && AllOpeners(st)
    ensures BufferScore(st, p) == 0 <==> p == |st|
    decreases |st| - p
  {
  }

  /* ---------- The whole text ---------- */

  /** Part 1 total and the autocomplete scores in line order, over the first n lines. */
  function Summary(lines: seq<seq<char>>, n: nat): Result<(nat, seq<nat>), BracketError>
    requires n <= |lines|
  {
    if n == 0 then Ok((0, []))
    else
      match Summary(lines, n - 1)
      case Err(e) => Err(e)
      case Ok((total, scores)) =>
        match Scan(lines[n - 1])
        case Err(e) => Err(e)
        case Ok(Corrupted(points)) => Ok((total + points, scores))
        case Ok(Incomplete(st)) =>
          ScanLeavesOpeners(lines[n - 1], 0, []);
          Ok((total, scores + [BufferScore(st, 0)]))
  }

  /** Once a line stops the program, later lines change nothing. */
  lemma {:induction false} SummaryErrPersists(lines: seq<seq<char>>, n: nat, m: nat)
    requires n <= m <= |lines| && Summary(lines, n).Err?
    ensures Summary(lines, m) == Summary(lines, n)
    decreases m
  {
    if m > n {
      SummaryErrPersists(lines, n, m - 1);
    }
  }

  /** The syntax error score and the middle autocomplete score. */
  function Scores(lines: seq<seq<char>>): Result<(nat, nat), BracketError>
  {
    match Summary(lines, |lines|)
    case Err(e) => Err(e)
    case Ok((total, scores)) =>
      if scores == [] then Err(NoIncompleteLines) else Ok((total, Sort(scores)[|scores| / 2]))
  }

  /** The reported score is the middle of the sorted scores: one of them, with as many below as the index says. */
  lemma {:induction false} MiddleScore(scores: seq<nat>)
    requires scores != []
    ensures Sort(scores)[|scores| / 2] in scores
    ensures forall k :: 0 <= k < |scores| / 2 ==> Sort(scores)[k] <= Sort(scores)[|scores| / 2]
    ensures forall k :: |scores| / 2 < k < |scores| ==> Sort(scores)[|scores| / 2] <= Sort(scores)[k]
  {
    SortIsSortedPermutation(scores);
    var r := Sort(scores);
    assert r[|scores| / 2] in multiset(r);
  }

  /* ---------- The runner's loops ---------- */

  /**
   * The scan of one line over the shared buffer: reset it to '\0', push
   * openers at pos, pop on a matching closer, stop at the first corruption.
   */
  method ScanLine(line: seq<char>, buf: array<char>) returns (r: Result<LineStatus, BracketError>, pos: nat)
    requires |line| < buf.Length
    modifies buf
    ensures r == Scan(line)
    ensures r.Ok? && r.value.Incomplete? ==> pos == |r.value.open| <= |line| && buf[..pos] == r.value.open
  {
    forall k | 0 <= k < buf.Length {
      buf[k] := '\0';
    }
    pos := 0;
    ghost var st: seq<char> := [];
    var j := 0;
    while j < |line|
      invariant j <= |line| && pos == |st| <= j
      invariant forall k :: 0 <= k < pos ==> buf[k] == st[k]
      invariant Scan(line) == ScanFrom(line, j, st)
    {
      var c := line[j];
      if IsOpen(c) {
        buf[pos] := c;
        pos := pos + 1;
        st := st + [c];
      } else if IsClose(c) {
        if pos == 0
          || (c == ')' && buf[pos - 1] != '(')
          || (c == ']' && buf[pos - 1] != '[')
          || (c == '}' && buf[pos - 1] != '{')
          || (c == '>' && buf[pos - 1] != '<')
        {
          return Ok(Corrupted(ErrorPoints(c))), pos;
        }
        pos := pos - 1;
        buf[pos] := '\0';
        st := st[..pos];
      } else {
        return Err(InvalidCharacter(c)), pos;
      }
      j := j + 1;
    }
    assert buf[..pos] == st;
    r := Ok(Incomplete(buf[..pos]));
  }

  /** The autocomplete loop: from the top of the buffer down, times 5 plus the opener's points. */
  method AutocompleteScore(buf: array<char>, pos: nat) returns (score: nat)
    requires pos <= buf.Length && AllOpeners(buf[..pos])
    ensures score == BufferScore(buf[..pos], 0)
  {
    ghost var st := buf[..pos];
    score := 0;
    var p := pos;
    while p >= 1
      invariant p <= pos && score == BufferScore(st, p)
    {
      var c := buf[p - 1];
      assert c == st[p - 1];
      score := score * 5 + OpenerPoints(c);
      p := p - 1;
    }
  }

  /** find_syntax_error_and_autocomplete_scores over already-read lines. */
  method FindScores(lines: seq<seq<char>>) returns (r: Result<(nat, nat), BracketError>)
    ensures r == Scores(lines)
  {
    var maxLen: nat := 0;
    for i := 0 to |lines|
      invariant forall k :: 0 <= k < i ==> |lines[k]| <= maxLen
    {
      if |lines[i]| > maxLen {
        maxLen := |lines[i]|;
      }
    }
    var buf := new char[maxLen + 1];
    var scores := new nat[|lines|];
    var count := 0;
    var total := 0;
    for i := 0 to |lines|
      invariant count <= i
      invariant Summary(lines, i) == Ok((total, scores[..count]))
    {
      var status, pos := ScanLine(lines[i], buf);
      match status {
        case Err(e) =>
          SummaryErrPersists(lines, i + 1, |lines|);
          return Err(e);
        case Ok(Corrupted(points)) =>
          total := total + points;
        case Ok(Incomplete(st)) =>
          ScanLeavesOpeners(lines[i], 0, []);
          var score := AutocompleteScore(buf, pos);
          scores[count] := score;
          count := count + 1;
          assert scores[..count] == scores[..count - 1] + [score];
      }
    }
    assert lines[..|lines|] == lines;
    if count == 0 {
      return Err(NoIncompleteLines);
    }
    var sorted := Sort(scores[..count]);
    r := Ok((total, sorted[count / 2]));
  }
}
