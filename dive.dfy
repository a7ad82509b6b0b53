/**
 * Submarine course (src/day_02.c): a list of `forward`, `down` and `up`
 * instructions is folded into a position. Part 1 moves the depth directly;
 * part 2 moves an aim and dives by distance times aim on each forward move.
 */
module Dive {
  import opened Wrappers

  datatype Direction = Forward | Down | Up

  datatype Instruction = Instruction(direction: Direction, distance: int)

  datatype Position = Position(horizontal: int, depth: int, aim: int)

  /** A line as its `%s %d` scan leaves it: the direction word and the distance. */
  datatype Line = Line(word: string, distance: int)

  /** The starting position: everything zero. */
  const Start := Position(0, 0, 0)

  function DirectionWord(d: Direction): string
  {
    match d
    case Forward => "forward"
    case Down => "down"
    case Up => "up"
  }

  /** The direction a word names; any other word is the C code's `assert(false)`. */
  function ParseDirection(word: string): (r: Option<Direction>)
    ensures r.Some? ==> DirectionWord(r.value) == word
  {
    if word == "forward" then Some(Forward)
    else if word == "down" then Some(Down)
    else if word == "up" then Some(Up)
    else None
  }

  /** Each direction's own word parses back to it, and no other word does. */
  lemma ParseDirectionRoundTrip(d: Direction, word: string)
    ensures ParseDirection(DirectionWord(d)) == Some(d)
    ensures ParseDirection(word).None? <==> word !in {"forward", "down", "up"}
  {
  }

  /** The instructions of all lines, or the first unknown direction word. */
  function ParseAll(lines: seq<Line>): (r: Result<seq<Instruction>, string>)
    ensures r.Ok? ==> |r.value| == |lines|
  {
    if lines == [] then Ok([])
    else
      var last := lines[|lines| - 1];
      match ParseAll(lines[..|lines| - 1])
      case Err(word) => Err(word)
      case Ok(ins) =>
        match ParseDirection(last.word)
        case None => Err(last.word)
        case Some(d) => Ok(ins + [Instruction(d, last.distance)])
  }

  /** Parsing fails exactly when some word is not a direction. */
  lemma {:induction false} ParseAllFails(lines: seq<Line>)
    ensures ParseAll(lines).Err? <==> exists i :: 0 <= i < |lines| && ParseDirection(lines[i].word).None?
  {
    if lines != [] {
      var pre := lines[..|lines| - 1];
      ParseAllFails(pre);
      assert forall i :: 0 <= i < |pre| ==> pre[i] == lines[i];
    }
  }

  /** A failed parse names the first word that is not a direction. */
  lemma {:induction false} ParseAllFirstError(lines: seq<Line>)
    requires ParseAll(lines).Err?
    ensures exists i ::
              0 <= i < |lines| && ParseAll(lines).error == lines[i].word &&
              ParseDirection(lines[i].word).None? && (forall m :: 0 <= m < i ==> ParseDirection(lines[m].word).Some?)
  {
    var pre := lines[..|lines| - 1];
    assert forall i :: 0 <= i < |pre| ==> pre[i] == lines[i];
    if ParseAll(pre).Err? {
      ParseAllFirstError(pre);
    } else {
      ParseAllFails(pre);
      var i := |lines| - 1;
      assert forall m :: 0 <= m < i ==> ParseDirection(lines[m].word).Some?;
    }
  }

  /** A successful parse gives each line's direction and distance, in order. */
  lemma {:induction false} ParseAllValues(lines: seq<Line>)
    requires ParseAll(lines).Ok?
    ensures forall i :: 0 <= i < |lines| ==>
              ParseDirection(lines[i].word).Some? &&
              ParseAll(lines).value[i] == Instruction(ParseDirection(lines[i].word).value, lines[i].distance)
  {
    if lines != [] {
      var pre := lines[..|lines| - 1];
      ParseAllValues(pre);
      assert forall i :: 0 <= i < |pre| ==> pre[i] == lines[i];
    }
  }

  function Move1(p: Position, i: Instruction): Position
  {
    match i.direction
    case Forward => p.(horizontal := p.horizontal + i.distance)
    case Down => p.(depth := p.depth + i.distance)
    case Up => p.(depth := p.depth - i.distance)
  }

  function Move2(p: Position, i: Instruction): Position
  {
    match i.direction
    case Forward => p.(horizontal := p.horizontal + i.distance, depth := p.depth + i.distance * p.aim)
    case Down => p.(aim := p.aim + i.distance)
    case Up => p.(aim := p.aim - i.distance)
  }

  /** Part 1's position after the instructions, from the start. */
  function Course1(ins: seq<Instruction>): Position
  {
    if ins == [] then Start else Move1(Course1(ins[..|ins| - 1]), ins[|ins| - 1])
  }

  /** Part 2's position after the instructions, from the start. */
  function Course2(ins: seq<Instruction>): Position
  {
    if ins == [] then Start else Move2(Course2(ins[..|ins| - 1]), ins[|ins| - 1])
  }

  /** Total distance of the instructions in direction `d`. */
  function Total(ins: seq<Instruction>, d: Direction): int
  {
    if ins == [] then 0
    else Total(ins[..|ins| - 1], d) + (if ins[|ins| - 1].direction == d then ins[|ins| - 1].distance else 0)
  }

  /** Part 1 goes as far forward as all forward moves, and as deep as down minus up; the aim stays 0. */
  lemma {:induction false} Course1Totals(ins: seq<Instruction>)
    ensures Course1(ins) == Position(Total(ins, Forward), Total(ins, Down) - Total(ins, Up), 0)
  {
    if ins != [] {
      Course1Totals(ins[..|ins| - 1]);
    }
  }

  /** Part 2 goes as far forward as all forward moves, and aims at down minus up. */
  lemma {:induction false} Course2Totals(ins: seq<Instruction>)
    ensures Course2(ins).horizontal == Total(ins, Forward)
    ensures Course2(ins).aim == Total(ins, Down) - Total(ins, Up)
  {
    if ins != [] {
      Course2Totals(ins[..|ins| - 1]);
    }
  }

  /** Both parts end at the same horizontal position, and part 1's depth is part 2's aim. */
  lemma PartsAgree(ins: seq<Instruction>)
    ensures Course1(ins).horizontal == Course2(ins).horizontal
    ensures Course1(ins).depth == Course2(ins).aim
  {
    Course1Totals(ins);
    Course2Totals(ins);
  }

  /** Part 2 with no forward moves stays at depth 0, whatever it aims at. */
  lemma {:induction false} NoForwardNoDive(ins: seq<Instruction>)
    requires forall i :: 0 <= i < |ins| ==> ins[i].direction != Forward
    ensures Course2(ins).depth == 0 && Course2(ins).horizontal == 0
  {
    if ins != [] {
      NoForwardNoDive(ins[..|ins| - 1]);
    }
  }

  lemma CourseSnoc(ins: seq<Instruction>, x: Instruction)
    ensures Course1(ins + [x]) == Move1(Course1(ins), x)
    ensures Course2(ins + [x]) == Move2(Course2(ins), x)
  {
    assert (ins + [x])[..|ins|] == ins;
  }

  lemma ParsePrefix(lines: seq<Line>, i: nat)
    requires i < |lines| && ParseAll(lines[..i]).Ok? && ParseDirection(lines[i].word).Some?
    ensures ParseAll(lines[..i + 1]) == Ok(ParseAll(lines[..i]).value + [Instruction(ParseDirection(lines[i].word).value, lines[i].distance)])
  {
    assert lines[..i + 1][..i] == lines[..i];
  }

  /** Once a line fails to parse, every longer run of lines fails with its word. */
  lemma {:induction false} ParseStops(lines: seq<Line>, i: nat)
    requires i < |lines| && ParseAll(lines[..i]).Ok? && ParseDirection(lines[i].word).None?
    ensures ParseAll(lines) == Err(lines[i].word)
    decreases |lines|
  {
    var pre := lines[..|lines| - 1];
    if |lines| == i + 1 {
      assert pre == lines[..i];
    } else {
      assert pre[..i] == lines[..i] && pre[i] == lines[i];
      ParseStops(pre, i);
    }
  }

  /** Part 1: folds the lines into a position, failing on the first unknown direction. */
  method FinalPositionPart1(lines: seq<Line>) returns (r: Result<Position, string>)
    ensures r.Ok? <==> ParseAll(lines).Ok?
    ensures r.Err? ==> r.error == ParseAll(lines).error
    ensures r.Ok? ==> r.value == Course1(ParseAll(lines).value)
  {
    var position := Start;
    var i := 0;
    while i < |lines|
      invariant 0 <= i <= |lines| && ParseAll(lines[..i]).Ok?
      invariant position == Course1(ParseAll(lines[..i]).value)
    {
      ghost var before := position;
      var line := lines[i];
      var direction := ParseDirection(line.word);
      if direction.None? {
        ParseStops(lines, i);
        return Err(line.word);
      }
      match direction.value {
        case Forward =>
          position := position.(horizontal := position.horizontal + line.distance);
        case Down =>
          position := position.(depth := position.depth + line.distance);
        case Up =>
          position := position.(depth := position.depth - line.distance);
      }
      ParsePrefix(lines, i);
      CourseSnoc(ParseAll(lines[..i]).value, Instruction(direction.value, line.distance));
      assert position == Move1(before, Instruction(direction.value, line.distance));
      i := i + 1;
    }
    assert lines[..i] == lines;
    r := Ok(position);
  }

  /** Part 2: as part 1, with the aim steering the dive. */
  method FinalPositionPart2(lines: seq<Line>) returns (r: Result<Position, string>)
    ensures r.Ok? <==> ParseAll(lines).Ok?
    ensures r.Err? ==> r.error == ParseAll(lines).error
    ensures r.Ok? ==> r.value == Course2(ParseAll(lines).value)
  {
    var position := Start;
    var i := 0;
    while i < |lines|
      invariant 0 <= i <= |lines| && ParseAll(lines[..i]).Ok?
      invariant position == Course2(ParseAll(lines[..i]).value)
    {
      ghost var before := position;
      var line := lines[i];
      var direction := ParseDirection(line.word);
      if direction.None? {
        ParseStops(lines, i);
        return Err(line.word);
      }
      match direction.value {
        case Forward =>
          position := position.(horizontal := position.horizontal + line.distance,
                                depth := position.depth + line.distance * position.aim);
        case Down =>
          position := position.(aim := position.aim + line.distance);
        case Up =>
          position := position.(aim := position.aim - line.distance);
      }
      ParsePrefix(lines, i);
      CourseSnoc(ParseAll(lines[..i]).value, Instruction(direction.value, line.distance));
      assert position == Move2(before, Instruction(direction.value, line.distance));
      i := i + 1;
    }
    assert lines[..i] == lines;
    r := Ok(position);
  }
}
