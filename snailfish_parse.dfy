/**
 * The recursive-descent reader of snailfish numbers (src/day_18.c,
 * parse_str_into_snailfish_num) and a printer that it reads back.
 *
 * The reader works on a cursor into a line of text.  Where the C code
 * asserts, the model returns an error naming the cursor position.  The
 * "%d" conversion is a maximal run of decimal digits, and the skip loops
 * that follow it are searches for the next ',' or ']'.
 */
module SnailfishParse {
  import opened Wrappers
  import opened SnailfishNum
  import opened Seqs

  datatype ParseError =
    | NoOpenBracket(at: nat)   // the number does not start with '['
    | NoDigits(at: nat)        // a literal side holds no decimal digit
    | NoSeparator(at: nat)     // a nested side is not followed by ',' (left) or ']' (right)
    | RanOffEnd                // a skip loop found no ',' or ']' before the end of the line

  predicate IsDigit(c: char)
  {
    '0' <= c <= '9'
  }

  /** The length of the run of digits starting at p. */
  function DigitRun(s: seq<char>, p: nat): (n: nat)
    requires p <= |s|
    ensures p + n <= |s|
    ensures forall k :: p <= k < p + n ==> IsDigit(s[k])
    ensures p + n < |s| ==> !IsDigit(s[p + n])
    decreases |s| - p
  {
    if p < |s| && IsDigit(s[p]) then 1 + DigitRun(s, p + 1) else 0
  }

  /** The number a string of decimal digits denotes, most significant digit first. */
  function DigitsValue(ds: seq<char>): nat
    requires forall k :: 0 <= k < |ds| ==> IsDigit(ds[k])
  {
    if ds == [] then 0
    else
      assert IsDigit(ds[|ds| - 1]);
      10 * DigitsValue(ds[..|ds| - 1]) + (ds[|ds| - 1] as int - '0' as int)
  }

  /** The first position at or after p holding c, if any: the skip loops of the reader. */
  function SkipTo(s: seq<char>, p: nat, c: char): (r: Option<nat>)
    requires p <= |s|
    ensures r.Some? ==> p <= r.value < |s| && s[r.value] == c
    ensures r.Some? ==> forall k :: p <= k < r.value ==> s[k] != c
    ensures r.None? ==> forall k :: p <= k < |s| ==> s[k] != c
    decreases |s| - p
  {
    if p == |s| then None
    else if s[p] == c then Some(p)
    else SkipTo(s, p + 1, c)
  }

  /**
   * One side of a pair starting at p and the position just past the
   * separator sep that ends it (',' for a left side, ']' for a right one).
   */
  function ParseSide(s: seq<char>, p: nat, sep: char): (r: Result<(Num, nat), ParseError>)
    requires p <= |s|
    ensures r.Ok? ==> p < r.value.1 <= |s| && s[r.value.1 - 1] == sep
    decreases |s| - p, 1
  {
    if p < |s| && s[p] == '[' then
      match ParseAt(s, p)
      case Err(e) => Err(e)
      case Ok((n, q)) =>
        if q < |s| && s[q] == sep then Ok((n, q + 1)) else Err(NoSeparator(q))
    else
      var run := DigitRun(s, p);
      if run == 0 then Err(NoDigits(p))
      else
        match SkipTo(s, p, sep)
        case None => Err(RanOffEnd)
        case Some(k) => Ok((Lit(DigitsValue(s[p..p + run])), k + 1))
  }

  /** The pair starting at p and the position just past its closing ']'. */
  function ParseAt(s: seq<char>, p: nat): (r: Result<(Num, nat), ParseError>)
    requires p <= |s|
    ensures r.Ok? ==> r.value.0.Pair?
    ensures r.Ok? ==> p < r.value.1 <= |s| && s[p] == '[' && s[r.value.1 - 1] == ']'
    decreases |s| - p, 0
  {
    if p == |s| || s[p] != '[' then Err(NoOpenBracket(p))
    else
      match ParseSide(s, p + 1, ',')
      case Err(e) => Err(e)
      case Ok((left, q)) =>
        match ParseSide(s, q, ']')
        case Err(e) => Err(e)
        case Ok((right, end)) => Ok((Pair(left, right), end))
  }

  /** A line of the input; text after the closing ']' is ignored. */
  function ParseLine(line: seq<char>): Result<Num, ParseError>
  {
    match ParseAt(line, 0)
    case Err(e) => Err(e)
    case Ok((n, _)) => Ok(n)
  }

  /** parse_text_into_snailfish_nums: every line, in order, or the first line's error. */
  method ParseLines(lines: seq<seq<char>>) returns (r: Result<seq<Num>, ParseError>)
    ensures r.Ok? <==> forall i :: 0 <= i < |lines| ==> ParseLine(lines[i]).Ok?
    ensures r.Ok? ==> |r.value| == |lines| && forall i :: 0 <= i < |lines| ==> r.value[i] == ParseLine(lines[i]).value
  {
    var nums: seq<Num> := [];
    for i := 0 to |lines|
      invariant |nums| == i
      invariant forall k :: 0 <= k < i ==> ParseLine(lines[k]).Ok? && nums[k] == ParseLine(lines[k]).value
    {
      match ParseLine(lines[i])
      case Err(e) =>
        return Err(e);
      case Ok(n) =>
        nums := nums + [n];
    }
    r := Ok(nums);
  }

  /* ---------- The printer and the round trip ---------- */

  function DigitChar(d: nat): char
    requires d < 10
  {
    ('0' as int + d) as char
  }

  /** v in decimal without leading zeros. */
  function Decimal(v: nat): (ds: seq<char>)
    ensures |ds| >= 1
    ensures forall k :: 0 <= k < |ds| ==> IsDigit(ds[k])
  {
    if v < 10 then [DigitChar(v)] else Decimal(v / 10) + [DigitChar(v % 10)]
  }

  /** The text of a number: literals in decimal, pairs as [left,right]. */
  function Show(t: Num): seq<char>
  {
    match t
    case Lit(v) => Decimal(v)
    case Pair(l, r) => ['['] + Show(l) + [','] + Show(r) + [']']
  }

  lemma {:induction false} DecimalValue(v: nat)
    ensures DigitsValue(Decimal(v)) == v
  {
    if v >= 10 {
      DecimalValue(v / 10);
      var ds := Decimal(v);
      assert ds[..|ds| - 1] == Decimal(v / 10);
    }
  }

  lemma {:induction false} DigitRunExact(s: seq<char>, p: nat, n: nat)
    requires p + n < |s| && !IsDigit(s[p + n])
    requires forall k :: p <= k < p + n ==> IsDigit(s[k])
    ensures DigitRun(s, p) == n
    decreases n
  {
    if n > 0 {
      DigitRunExact(s, p + 1, n - 1);
    }
  }

  lemma {:induction false} SkipDigits(s: seq<char>, p: nat, n: nat, c: char)
    requires p + n < |s| && s[p + n] == c && !IsDigit(c)
    requires forall k :: p <= k < p + n ==> IsDigit(s[k])
    ensures SkipTo(s, p, c) == Some(p + n)
    decreases n
  {
    if n > 0 {
      SkipDigits(s, p + 1, n - 1, c);
    }
  }

  lemma {:induction false} ParseSideLiteral(s: seq<char>, p: nat, sep: char, run: nat, k: nat)
    requires p < |s| && s[p] != '['
    requires run == DigitRun(s, p) && run > 0
    requires SkipTo(s, p, sep) == Some(k)
    ensures ParseSide(s, p, sep) == Ok((Lit(DigitsValue(s[p..p + run])), k + 1))
  {
  }

  lemma {:induction false} ParseSideNested(s: seq<char>, p: nat, sep: char, n: Num, q: nat)
    requires p < |s| && s[p] == '['
    requires ParseAt(s, p) == Ok((n, q)) && q < |s| && s[q] == sep
    ensures ParseSide(s, p, sep) == Ok((n, q + 1))
  {
  }

  lemma {:induction false} ParseAtPair(s: seq<char>, p: nat, left: Num, q: nat, right: Num, e: nat)
    requires p < |s| && s[p] == '['
    requires ParseSide(s, p + 1, ',') == Ok((left, q))
    requires q <= |s| && ParseSide(s, q, ']') == Ok((right, e))
    ensures ParseAt(s, p) == Ok((Pair(left, right), e))
  {
  }

  /** A literal printed at p and followed by sep reads back as itself. */
  lemma {:induction false} ParseLiteralShow(v: nat, s: seq<char>, p: nat, sep: char)
    requires sep == ',' || sep == ']'
    requires p + |Decimal(v)| < |s| && s[p..p + |Decimal(v)|] == Decimal(v) && s[p + |Decimal(v)|] == sep
    ensures ParseSide(s, p, sep) == Ok((Lit(v), p + |Decimal(v)| + 1))
  {
    var n := |Decimal(v)|;
    forall k | p <= k < p + n
      ensures IsDigit(s[k])
    {
      assert s[k] == Decimal(v)[k - p];
    }
    assert s[p] == Decimal(v)[0];
    DigitRunExact(s, p, n);
    SkipDigits(s, p, n, sep);
    DecimalValue(v);
    ParseSideLiteral(s, p, sep, n, p + n);
  }

  /** A side printed at p and followed by sep reads back as itself. */
  lemma {:induction false} ParseSideShow(t: Num, s: seq<char>, p: nat, sep: char)
    requires sep == ',' || sep == ']'
    requires p + |Show(t)| < |s| && s[p..p + |Show(t)|] == Show(t) && s[p + |Show(t)|] == sep
    ensures ParseSide(s, p, sep) == Ok((t, p + |Show(t)| + 1))
    decreases t, 2
  {
    if t.Lit? {
      assert Show(t) == Decimal(t.v);
      ParseLiteralShow(t.v, s, p, sep);
    } else {
      ParseNestedShow(t, s, p, sep, p + |Show(t)|);
    }
  }

  /** A pair printed at p, ending at e and followed by sep, reads back as itself. */
  lemma {:induction false} ParseNestedShow(t: Num, s: seq<char>, p: nat, sep: char, e: nat)
    requires t.Pair? && e == p + |Show(t)|
    requires e < |s| && s[p..e] == Show(t) && s[e] == sep
    ensures ParseSide(s, p, sep) == Ok((t, e + 1))
    decreases t, 1
  {
    ParseAtShow(t, s, p);
    ParseSideNested(s, p, sep, t, e);
  }

  /** A pair printed at p reads back as itself, and the cursor ends just past it. */
  lemma {:induction false} ParseAtShow(t: Num, s: seq<char>, p: nat)
    requires t.Pair?
    requires p + |Show(t)| <= |s| && s[p..p + |Show(t)|] == Show(t)
    ensures ParseAt(s, p) == Ok((t, p + |Show(t)|))
    decreases t, 0
  {
    var sl, sr := Show(t.left), Show(t.right);
    var q := p + 1 + |sl| + 1;
    ShowSlices(t, s, p);
    ParseSideShow(t.left, s, p + 1, ',');
    ParseSideShow(t.right, s, q, ']');
    ParseAtPair(s, p, t.left, q, t.right, q + |sr| + 1);
  }

  lemma {:induction false} ShowSlices(t: Num, s: seq<char>, p: nat)
    requires t.Pair?
    requires p + |Show(t)| <= |s| && s[p..p + |Show(t)|] == Show(t)
    ensures s[p] == '['
    ensures s[p + 1..p + 1 + |Show(t.left)|] == Show(t.left)
    ensures s[p + 1 + |Show(t.left)|] == ','
    ensures s[p + 2 + |Show(t.left)|..p + 2 + |Show(t.left)| + |Show(t.right)|] == Show(t.right)
    ensures s[p + 2 + |Show(t.left)| + |Show(t.right)|] == ']'
    ensures |Show(t)| == |Show(t.left)| + |Show(t.right)| + 3
  {
    var sl, sr := Show(t.left), Show(t.right);
    var w := Show(t);
    assert w == ['['] + sl + [','] + sr + [']'];
    assert s[p] == w[0];
    SliceOfSlice(s, p, w, 1, 1 + |sl|);
    assert w[1..1 + |sl|] == sl;
    assert s[p + 1 + |sl|] == w[1 + |sl|];
    SliceOfSlice(s, p, w, 2 + |sl|, 2 + |sl| + |sr|);
    assert w[2 + |sl|..2 + |sl| + |sr|] == sr;
    assert s[p + 2 + |sl| + |sr|] == w[2 + |sl| + |sr|];
  }

  /** Printing a number and reading it back gives the number, whatever text follows it. */
  lemma {:induction false} ParseLineShow(t: Num, rest: seq<char>)
    requires t.Pair?
    ensures ParseLine(Show(t) + rest) == Ok(t)
  {
    var s := Show(t) + rest;
    assert s[0..|Show(t)|] == Show(t);
    ParseAtShow(t, s, 0);
  }
}
