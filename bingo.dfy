/**
 * Bingo (src/day_04.c): cards of 5 x 5 squares are marked call by call, a
 * card with a fully called row or column gets its line flag, the first
 * winner and the last card to win are searched for, and a card's score is
 * the sum of its uncalled numbers.
 */
module Bingo {
  import opened Wrappers

  datatype Square = Square(num: int, called: bool)

  /** The 25 squares in row-major order, and whether the card has a completed line. */
  datatype Card = Card(squares: seq<Square>, hasLine: bool)

  /** The `assert`s of the two searches. */
  datatype BingoError = NoWinner | NoLastWinner

  /** A card as read from the input: always 5 x 5. */
  type BingoCard = c: Card | |c.squares| == 25
    witness Card(seq(25, _ => Square(0, false)), false)

  /** Whether the square in row `i`, column `j` of a card's squares is called. */
  predicate Called(sq: seq<Square>, i: nat, j: nat)
    requires |sq| == 25 && i < 5 && j < 5
  {
    sq[5 * i + j].called
  }

  /** The first `k` squares of row `i` are called. */
  predicate RowFullTo(sq: seq<Square>, i: nat, k: nat)
    requires |sq| == 25 && i < 5 && k <= 5
  {
    k == 0 || (RowFullTo(sq, i, k - 1) && Called(sq, i, k - 1))
  }

  /** The first `k` squares of column `j` are called. */
  predicate ColFullTo(sq: seq<Square>, j: nat, k: nat)
    requires |sq| == 25 && j < 5 && k <= 5
  {
    k == 0 || (ColFullTo(sq, j, k - 1) && Called(sq, k - 1, j))
  }

  /** One of the first `n` rows is full. */
  predicate AnyRow(sq: seq<Square>, n: nat)
    requires |sq| == 25 && n <= 5
  {
    n > 0 && (AnyRow(sq, n - 1) || RowFullTo(sq, n - 1, 5))
  }

  /** One of the first `n` columns is full. */
  predicate AnyCol(sq: seq<Square>, n: nat)
    requires |sq| == 25 && n <= 5
  {
    n > 0 && (AnyCol(sq, n - 1) || ColFullTo(sq, n - 1, 5))
  }

  lemma {:induction false} RowFullToMeans(sq: seq<Square>, i: nat, k: nat)
    requires |sq| == 25 && i < 5 && k <= 5
    ensures RowFullTo(sq, i, k) <==> forall j :: 0 <= j < k ==> Called(sq, i, j)
  {
    if k > 0 {
      RowFullToMeans(sq, i, k - 1);
    }
  }

  lemma {:induction false} ColFullToMeans(sq: seq<Square>, j: nat, k: nat)
    requires |sq| == 25 && j < 5 && k <= 5
    ensures ColFullTo(sq, j, k) <==> forall i :: 0 <= i < k ==> Called(sq, i, j)
  {
    if k > 0 {
      ColFullToMeans(sq, j, k - 1);
    }
  }

  lemma {:induction false} AnyRowMeans(sq: seq<Square>, n: nat)
    requires |sq| == 25 && n <= 5
    ensures AnyRow(sq, n) <==> exists i :: 0 <= i < n && RowFullTo(sq, i, 5)
  {
    if n > 0 {
      AnyRowMeans(sq, n - 1);
      if RowFullTo(sq, n - 1, 5) {
        assert exists i :: 0 <= i < n && RowFullTo(sq, i, 5);
      }
    }
  }

  lemma {:induction false} AnyColMeans(sq: seq<Square>, n: nat)
    requires |sq| == 25 && n <= 5
    ensures AnyCol(sq, n) <==> exists j :: 0 <= j < n && ColFullTo(sq, j, 5)
  {
    if n > 0 {
      AnyColMeans(sq, n - 1);
      if ColFullTo(sq, n - 1, 5) {
        assert exists j :: 0 <= j < n && ColFullTo(sq, j, 5);
      }
    }
  }

  /** A card with every square of some row, or of some column, called. */
  predicate HasFullLine(c: BingoCard)
  {
    AnyRow(c.squares, 5) || AnyCol(c.squares, 5)
  }

  /**
   * A card the winner check reports: a full row, or a full column when the
   * card had no line flag before (the column check is skipped for flagged
   * cards).
   */
  predicate WinsNow(c: BingoCard)
  {
    AnyRow(c.squares, 5) || (!c.hasLine && AnyCol(c.squares, 5))
  }

  /** The card after the winner check: the flag is set by a full line and never cleared. */
  function Flagged(c: BingoCard): (r: BingoCard)
    ensures r.squares == c.squares
    ensures r.hasLine <==> c.hasLine || HasFullLine(c)
  {
    c.(hasLine := c.hasLine || HasFullLine(c))
  }

  function MarkSquare(s: Square, n: int): Square
  {
    if s.num == n then s.(called := true) else s
  }

  /** The first `k` squares marked for the call `n`. */
  function MarkTo(sq: seq<Square>, n: int, k: nat): (r: seq<Square>)
    requires k <= |sq|
    ensures |r| == |sq|
  {
    if k == 0 then sq else MarkTo(sq, n, k - 1)[k - 1 := MarkSquare(sq[k - 1], n)]
  }

  /** The card after the call `n`. */
  function Mark(c: BingoCard, n: int): (r: BingoCard)
  {
    c.(squares := MarkTo(c.squares, n, 25))
  }

  lemma {:induction false} MarkToAt(sq: seq<Square>, n: int, k: nat, m: nat)
    requires k <= |sq| && m < |sq|
    ensures MarkTo(sq, n, k)[m] == if m < k then MarkSquare(sq[m], n) else sq[m]
  {
    if k > 0 {
      MarkToAt(sq, n, k - 1, m);
    }
  }

  /**
   * Marking a call sets `called` on exactly the squares holding that number
   * and changes no number, no other square and not the line flag.
   */
  lemma MarkChangesOnlyMatches(c: BingoCard, n: int, m: nat)
    requires m < 25
    ensures Mark(c, n).hasLine == c.hasLine
    ensures Mark(c, n).squares[m].num == c.squares[m].num
    ensures Mark(c, n).squares[m].called <==> c.squares[m].called || c.squares[m].num == n
  {
    MarkToAt(c.squares, n, 25, m);
  }

  /** Every card of the first `n` marked for the call. */
  function MarkCardsTo(cards: seq<BingoCard>, n: int, k: nat): (r: seq<BingoCard>)
    requires k <= |cards|
    ensures |r| == |cards|
  {
    if k == 0 then cards else MarkCardsTo(cards, n, k - 1)[k - 1 := Mark(cards[k - 1], n)]
  }

  function MarkCards(cards: seq<BingoCard>, n: int): (r: seq<BingoCard>)
    ensures |r| == |cards|
  {
    MarkCardsTo(cards, n, |cards|)
  }

  /** The first `k` cards after the winner check. */
  function FlagTo(cards: seq<BingoCard>, k: nat): (r: seq<BingoCard>)
    requires k <= |cards|
    ensures |r| == |cards|
  {
    if k == 0 then cards else FlagTo(cards, k - 1)[k - 1 := Flagged(cards[k - 1])]
  }

  function FlagAll(cards: seq<BingoCard>): (r: seq<BingoCard>)
    ensures |r| == |cards|
  {
    FlagTo(cards, |cards|)
  }

  lemma {:induction false} FlagToAt(cards: seq<BingoCard>, k: nat, m: nat)
    requires k <= |cards| && m < |cards|
    ensures FlagTo(cards, k)[m] == if m < k then Flagged(cards[m]) else cards[m]
  {
    if k > 0 {
      FlagToAt(cards, k - 1, m);
    }
  }

  /** The first card among the first `k` that the winner check reports. */
  function FirstWinnerTo(cards: seq<BingoCard>, k: nat): (r: Option<nat>)
    requires k <= |cards|
    ensures r.Some? ==> r.value < k && WinsNow(cards[r.value])
  {
    if k == 0 then None
    else
      match FirstWinnerTo(cards, k - 1)
      case Some(w) => Some(w)
      case None => if WinsNow(cards[k - 1]) then Some(k - 1) else None
  }

  function FirstWinner(cards: seq<BingoCard>): Option<nat>
  {
    FirstWinnerTo(cards, |cards|)
  }

  /** The reported winner is the first reporting card in array order, and none is reported when no card reports. */
  lemma {:induction false} FirstWinnerIsFirst(cards: seq<BingoCard>, k: nat)
    requires k <= |cards|
    ensures FirstWinnerTo(cards, k).Some? ==> forall m :: 0 <= m < FirstWinnerTo(cards, k).value ==> !WinsNow(cards[m])
    ensures FirstWinnerTo(cards, k).None? <==> forall m :: 0 <= m < k ==> !WinsNow(cards[m])
  {
    if k > 0 {
      FirstWinnerIsFirst(cards, k - 1);
    }
  }

  /** Sum of the uncalled numbers among the first `k` squares. */
  function UncalledSum(sq: seq<Square>, k: nat): int
    requires k <= |sq|
  {
    if k == 0 then 0 else UncalledSum(sq, k - 1) + (if sq[k - 1].called then 0 else sq[k - 1].num)
  }

  /** Uncalled squares holding `n` among the first `k`. */
  function UncalledCount(sq: seq<Square>, n: int, k: nat): nat
    requires k <= |sq|
  {
    if k == 0 then 0 else UncalledCount(sq, n, k - 1) + (if !sq[k - 1].called && sq[k - 1].num == n then 1 else 0)
  }

  /** A call takes its number off the score once for every uncalled square that holds it. */
  lemma {:induction false} UncalledSumAfterMark(sq: seq<Square>, n: int, k: nat)
    requires k <= |sq|
    ensures UncalledSum(MarkTo(sq, n, k), k) == UncalledSum(sq, k) - n * UncalledCount(sq, n, k)
  {
    if k > 0 {
      UncalledSumAfterMark(sq, n, k - 1);
      var m := MarkTo(sq, n, k);
      forall i | 0 <= i < k - 1
        ensures m[i] == MarkTo(sq, n, k - 1)[i]
      {
      }
      UncalledSumPrefix(m, MarkTo(sq, n, k - 1), k - 1);
    }
  }

  lemma {:induction false} UncalledSumPrefix(a: seq<Square>, b: seq<Square>, k: nat)
    requires k <= |a| && k <= |b| && forall i :: 0 <= i < k ==> a[i] == b[i]
    ensures UncalledSum(a, k) == UncalledSum(b, k)
  {
    if k > 0 {
      UncalledSumPrefix(a, b, k - 1);
    }
  }

  /** The cards among the first `k` without a line flag, in order. */
  function NonWinnersTo(cards: seq<BingoCard>, k: nat): (r: seq<BingoCard>)
    requires k <= |cards|
    ensures |r| <= k
  {
    if k == 0 then []
    else NonWinnersTo(cards, k - 1) + (if cards[k - 1].hasLine then [] else [cards[k - 1]])
  }

  function NonWinners(cards: seq<BingoCard>): (r: seq<BingoCard>)
    ensures |r| <= |cards|
  {
    NonWinnersTo(cards, |cards|)
  }

  function CountNonWinners(cards: seq<BingoCard>, k: nat): nat
    requires k <= |cards|
  {
    if k == 0 then 0 else CountNonWinners(cards, k - 1) + (if cards[k - 1].hasLine then 0 else 1)
  }

  lemma {:induction false} CountNonWinnersGrows(cards: seq<BingoCard>, i: nat, k: nat)
    requires i <= k <= |cards|
    ensures CountNonWinners(cards, i) <= CountNonWinners(cards, k)
  {
    if i < k {
      CountNonWinnersGrows(cards, i, k - 1);
    }
  }

  /** The filter keeps as many cards as there are without a line flag. */
  lemma {:induction false} NonWinnersCount(cards: seq<BingoCard>, k: nat)
    requires k <= |cards|
    ensures |NonWinnersTo(cards, k)| == CountNonWinners(cards, k)
  {
    if k > 0 {
      NonWinnersCount(cards, k - 1);
    }
  }

  /** The filter keeps exactly the cards without a line flag, and nothing else. */
  lemma {:induction false} NonWinnersExactly(cards: seq<BingoCard>, k: nat)
    requires k <= |cards|
    ensures forall c :: c in NonWinnersTo(cards, k) <==> c in cards[..k] && !c.hasLine
  {
    if k > 0 {
      NonWinnersExactly(cards, k - 1);
      assert cards[..k] == cards[..k - 1] + [cards[k - 1]];
    }
  }

  lemma {:induction false} MarkCardsToAt(cards: seq<BingoCard>, n: int, k: nat, m: nat)
    requires k <= |cards| && m < |cards|
    ensures MarkCardsTo(cards, n, k)[m] == if m < k then Mark(cards[m], n) else cards[m]
  {
    if k > 0 {
      MarkCardsToAt(cards, n, k - 1, m);
    }
  }

  /** The card chosen by the winner check has a full line and carries the flag. */
  lemma FirstWinnerHasLine(cards: seq<BingoCard>)
    requires FirstWinner(cards).Some?
    ensures FlagAll(cards)[FirstWinner(cards).value].hasLine
    ensures HasFullLine(FlagAll(cards)[FirstWinner(cards).value])
  {
    FlagToAt(cards, |cards|, FirstWinner(cards).value);
  }

  /**
   * Part 1 from the `i`-th call on: every card is checked off and the winner
   * check runs, until a call produces a winner.  Returns the cards as the
   * search leaves them, and the winning card with its call.
   */
  function FirstWinFrom(cards: seq<BingoCard>, calls: seq<int>, i: nat): (r: (seq<BingoCard>, Result<(BingoCard, int), BingoError>))
    requires i <= |calls|
    ensures |r.0| == |cards|
    decreases |calls| - i
  {
    if i == |calls| then (cards, Err(NoWinner))
    else
      var marked := MarkCards(cards, calls[i]);
      var flagged := FlagAll(marked);
      match FirstWinner(marked)
      case Some(w) => (flagged, Ok((flagged[w], calls[i])))
      case None => FirstWinFrom(flagged, calls, i + 1)
  }

  function FirstWin(cards: seq<BingoCard>, calls: seq<int>): (seq<BingoCard>, Result<(BingoCard, int), BingoError>)
  {
    FirstWinFrom(cards, calls, 0)
  }

  /** The first winner has a fully called line, carries the flag, and its number is one of the calls. */
  lemma {:induction false} FirstWinIsLine(cards: seq<BingoCard>, calls: seq<int>, i: nat)
    requires i <= |calls|
    ensures FirstWinFrom(cards, calls, i).1.Ok? ==>
      var (c, n) := FirstWinFrom(cards, calls, i).1.value;
      c.hasLine && HasFullLine(c) && n in calls[i..]
    decreases |calls| - i
  {
    if i < |calls| {
      assert calls[i..] == [calls[i]] + calls[i + 1..];
      var marked := MarkCards(cards, calls[i]);
      match FirstWinner(marked)
      case Some(w) =>
        FirstWinnerHasLine(marked);
      case None =>
        FirstWinIsLine(FlagAll(marked), calls, i + 1);
    }
  }

  /**
   * Part 2 from the `i`-th call on, over the cards `nw` not yet won: check
   * off and run the winner check on them, keep the ones still without a
   * line.  `tracking` says that `nw` is a single card that was left over
   * by an earlier call; when the last card wins, it is the answer.  Any
   * other way of running out of cards, or running out of calls, fails the
   * search's assertions.
   */
  function LastWinFrom(nw: seq<BingoCard>, calls: seq<int>, i: nat, tracking: bool): (r: Result<(BingoCard, int), BingoError>)
    requires i <= |calls| && (tracking ==> |nw| == 1)
    decreases |calls| - i
  {
    if i == |calls| then Err(NoLastWinner)
    else
      var flagged := FlagAll(MarkCards(nw, calls[i]));
      var rest := NonWinners(flagged);
      if |rest| == 0 then
        if tracking then Ok((flagged[0], calls[i])) else Err(NoLastWinner)
      else LastWinFrom(rest, calls, i + 1, |rest| == 1)
  }

  function LastWinner(cards: seq<BingoCard>, calls: seq<int>): Result<(BingoCard, int), BingoError>
  {
    LastWinFrom(NonWinners(cards), calls, 0, false)
  }

  predicate NoneFlagged(nw: seq<BingoCard>)
  {
    forall k :: 0 <= k < |nw| ==> !nw[k].hasLine
  }

  /**
   * The last winner is a card that had no line before the final call and
   * has a fully called line, and the flag, after it; its number is one of
   * the calls.
   */
  lemma {:induction false} LastWinIsLine(nw: seq<BingoCard>, calls: seq<int>, i: nat, tracking: bool)
    requires i <= |calls| && (tracking ==> |nw| == 1) && NoneFlagged(nw)
    ensures LastWinFrom(nw, calls, i, tracking).Ok? ==>
      var (c, n) := LastWinFrom(nw, calls, i, tracking).value;
      c.hasLine && HasFullLine(c) && n in calls[i..]
    decreases |calls| - i
  {
    if i < |calls| {
      assert calls[i..] == [calls[i]] + calls[i + 1..];
      var marked := MarkCards(nw, calls[i]);
      var flagged := FlagAll(marked);
      var rest := NonWinners(flagged);
      NonWinnersExactly(flagged, |flagged|);
      NonWinnersCount(flagged, |flagged|);
      assert flagged[..|flagged|] == flagged;
      if |rest| == 0 {
        if tracking {
          FlagToAt(marked, |marked|, 0);
          MarkCardsToAt(nw, calls[i], |nw|, 0);
          MarkChangesOnlyMatches(nw[0], calls[i], 0);
          assert flagged[0] in flagged;
        }
      } else {
        forall k | 0 <= k < |rest|
          ensures !rest[k].hasLine
        {
          assert rest[k] in rest;
        }
        LastWinIsLine(rest, calls, i + 1, |rest| == 1);
      }
    }
  }

  /** Part 2 over the cards as part 1 left them: the answer has a fully called line. */
  lemma LastWinnerIsLine(cards: seq<BingoCard>, calls: seq<int>)
    ensures LastWinner(cards, calls).Ok? ==>
      LastWinner(cards, calls).value.0.hasLine && HasFullLine(LastWinner(cards, calls).value.0)
  {
    NonWinnersExactly(cards, |cards|);
    assert cards[..|cards|] == cards;
    var nw := NonWinners(cards);
    forall k | 0 <= k < |nw|
      ensures !nw[k].hasLine
    {
      assert nw[k] in nw;
    }
    LastWinIsLine(nw, calls, 0, false);
  }

  /** The cards as part 1 has them when it reaches call `k`, having checked calls `i` to `k - 1`. */
  ghost function CardsAt(cards: seq<BingoCard>, calls: seq<int>, i: nat, k: nat): (r: seq<BingoCard>)
    requires i <= k <= |calls|
    ensures |r| == |cards|
    decreases k - i
  {
    if k == i then cards else CardsAt(FlagAll(MarkCards(cards, calls[i])), calls, i + 1, k)
  }

  /** Call `k` produces a winner in part 1, the search having reached it. */
  ghost predicate WinsAt(cards: seq<BingoCard>, calls: seq<int>, i: nat, k: nat)
    requires i <= k < |calls|
  {
    FirstWinner(MarkCards(CardsAt(cards, calls, i, k), calls[k])).Some?
  }

  /**
   * Part 1 finds a winner exactly when some call produces one, and then it
   * answers the first card reported at the first such call, with that call's
   * number: no earlier call produced a winner.
   */
  lemma {:induction false} FirstWinIsFirst(cards: seq<BingoCard>, calls: seq<int>, i: nat)
    requires i <= |calls|
    ensures FirstWinFrom(cards, calls, i).1.Err? <==> forall k :: i <= k < |calls| ==> !WinsAt(cards, calls, i, k)
    ensures forall k :: i <= k < |calls| && WinsAt(cards, calls, i, k) && (forall j :: i <= j < k ==> !WinsAt(cards, calls, i, j)) ==>
      var marked := MarkCards(CardsAt(cards, calls, i, k), calls[k]);
      FirstWinFrom(cards, calls, i).1 == Ok((FlagAll(marked)[FirstWinner(marked).value], calls[k]))
    decreases |calls| - i
  {
    if i < |calls| {
      var next := FlagAll(MarkCards(cards, calls[i]));
      assert CardsAt(cards, calls, i, i) == cards;
      forall k | i < k <= |calls|
        ensures CardsAt(cards, calls, i, k) == CardsAt(next, calls, i + 1, k)
      {
      }
      if FirstWinner(MarkCards(cards, calls[i])).None? {
        assert !WinsAt(cards, calls, i, i);
        assert FirstWinFrom(cards, calls, i).1 == FirstWinFrom(next, calls, i + 1).1;
        FirstWinIsFirst(next, calls, i + 1);
        forall k | i < k < |calls|
          ensures WinsAt(cards, calls, i, k) == WinsAt(next, calls, i + 1, k)
        {
        }
        if FirstWinFrom(cards, calls, i).1.Ok? {
          var k :| i + 1 <= k < |calls| && WinsAt(next, calls, i + 1, k);
          assert WinsAt(cards, calls, i, k);
        }
        forall k | i <= k < |calls| && WinsAt(cards, calls, i, k) && (forall j :: i <= j < k ==> !WinsAt(cards, calls, i, j))
          ensures var marked := MarkCards(CardsAt(cards, calls, i, k), calls[k]);
            FirstWinFrom(cards, calls, i).1 == Ok((FlagAll(marked)[FirstWinner(marked).value], calls[k]))
        {
          var i' := i + 1;
          forall j | i' <= j < k
            ensures !WinsAt(next, calls, i', j)
          {
            assert !WinsAt(cards, calls, i, j);
          }
        }
      } else {
        assert WinsAt(cards, calls, i, i);
      }
    }
  }

  /** One call of part 2: check off, run the winner check, keep the cards still without a line. */
  ghost function Step(nw: seq<BingoCard>, n: int): seq<BingoCard>
  {
    NonWinners(FlagAll(MarkCards(nw, n)))
  }

  /** The cards not yet won when part 2 reaches call `k`, having run calls `i` to `k - 1`. */
  ghost function Remaining(nw: seq<BingoCard>, calls: seq<int>, i: nat, k: nat): seq<BingoCard>
    requires i <= k <= |calls|
    decreases k - i
  {
    if k == i then nw else Remaining(Step(nw, calls[i]), calls, i + 1, k)
  }

  /**
   * Call `k` is where part 2 ends with an answer: every call before it left
   * some card without a line, just before it every card but one had a line
   * and that one did not, and the call leaves none; the answer is that card
   * after the call, with the call's number.
   */
  ghost predicate FinalCall(nw: seq<BingoCard>, calls: seq<int>, i: nat, tracking: bool, k: nat)
    requires i <= k < |calls| && (tracking ==> |nw| == 1)
  {
    var last := Remaining(nw, calls, i, k);
    (forall j :: i < j <= k ==> |Remaining(nw, calls, i, j)| > 0)
    && |last| == 1 && (k > i || tracking) && !last[0].hasLine
    && |Step(last, calls[k])| == 0
    && LastWinFrom(nw, calls, i, tracking) == Ok((FlagAll(MarkCards(last, calls[k]))[0], calls[k]))
  }

  lemma StepNoneFlagged(nw: seq<BingoCard>, n: int)
    ensures NoneFlagged(Step(nw, n))
  {
    var flagged := FlagAll(MarkCards(nw, n));
    NonWinnersExactly(flagged, |flagged|);
    assert flagged[..|flagged|] == flagged;
    var rest := Step(nw, n);
    forall k | 0 <= k < |rest|
      ensures !rest[k].hasLine
    {
      assert rest[k] in rest;
    }
  }

  /** A part-2 answer comes from a final call as `FinalCall` describes it. */
  lemma {:induction false} LastWinIsLast(nw: seq<BingoCard>, calls: seq<int>, i: nat, tracking: bool)
    requires i <= |calls| && (tracking ==> |nw| == 1) && NoneFlagged(nw)
    ensures LastWinFrom(nw, calls, i, tracking).Ok? ==>
      exists k :: i <= k < |calls| && FinalCall(nw, calls, i, tracking, k)
    decreases |calls| - i
  {
    if i < |calls| {
      var rest := Step(nw, calls[i]);
      assert Remaining(nw, calls, i, i) == nw;
      if |rest| == 0 {
        if tracking {
          assert FinalCall(nw, calls, i, tracking, i);
        }
      } else {
        StepNoneFlagged(nw, calls[i]);
        LastWinIsLast(rest, calls, i + 1, |rest| == 1);
        if LastWinFrom(nw, calls, i, tracking).Ok? {
          var k :| i + 1 <= k < |calls| && FinalCall(rest, calls, i + 1, |rest| == 1, k);
          forall j | i < j <= |calls|
            ensures Remaining(nw, calls, i, j) == Remaining(rest, calls, i + 1, j)
          {
          }
          assert FinalCall(nw, calls, i, tracking, k);
        }
      }
    }
  }

  /** Part 2 over the cards as part 1 left them answers the card that won last, at the call where it won. */
  lemma LastWinnerIsLast(cards: seq<BingoCard>, calls: seq<int>)
    ensures LastWinner(cards, calls).Ok? ==>
      exists k :: 0 <= k < |calls| && FinalCall(NonWinners(cards), calls, 0, false, k)
  {
    NonWinnersExactly(cards, |cards|);
    assert cards[..|cards|] == cards;
    var nw := NonWinners(cards);
    forall k | 0 <= k < |nw|
      ensures !nw[k].hasLine
    {
      assert nw[k] in nw;
    }
    LastWinIsLast(nw, calls, 0, false);
  }

  /** Checks off `n` on the card at `idx`, square by square. */
  method CheckOff(cards: array<BingoCard>, idx: nat, n: int)
    requires idx < cards.Length
    modifies cards
    ensures cards[..] == old(cards[..])[idx := Mark(old(cards[idx]), n)]
  {
    ghost var sq := cards[idx].squares;
    var i := 0;
    while i < 5
      invariant 0 <= i <= 5
      invariant cards[..] == old(cards[..])[idx := cards[idx]]
      invariant cards[idx] == old(cards[idx]).(squares := MarkTo(sq, n, 5 * i))
    {
      var j := 0;
      while j < 5
        invariant 0 <= j <= 5
        invariant cards[..] == old(cards[..])[idx := cards[idx]]
        invariant cards[idx] == old(cards[idx]).(squares := MarkTo(sq, n, 5 * i + j))
      {
        MarkToAt(sq, n, 5 * i + j, 5 * i + j);
        var s := cards[idx].squares[5 * i + j];
        if s.num == n {
          cards[idx] := cards[idx].(squares := cards[idx].squares[5 * i + j := s.(called := true)]);
        } else {
          assert MarkTo(sq, n, 5 * i + j + 1) == MarkTo(sq, n, 5 * i + j);
        }
        j := j + 1;
      }
      i := i + 1;
    }
  }

  /** Checks off `n` on every card. */
  method CheckOffAll(cards: array<BingoCard>, n: int)
    modifies cards
    ensures cards[..] == MarkCards(old(cards[..]), n)
  {
    var j := 0;
    while j < cards.Length
      invariant 0 <= j <= cards.Length
      invariant cards[..] == MarkCardsTo(old(cards[..]), n, j)
    {
      MarkCardsToAt(old(cards[..]), n, j, j);
      CheckOff(cards, j, n);
      j := j + 1;
    }
  }

  /** Whether every square of row `row` is called. */
  method RowIsCalled(c: BingoCard, row: nat) returns (has: bool)
    requires row < 5
    ensures has == RowFullTo(c.squares, row, 5)
  {
    has := true;
    var k := 0;
    while k < 5
      invariant 0 <= k <= 5
      invariant has == RowFullTo(c.squares, row, k)
    {
      if !c.squares[5 * row + k].called {
        has := false;
      }
      k := k + 1;
    }
  }

  /** Whether every square of column `col` is called. */
  method ColumnIsCalled(c: BingoCard, col: nat) returns (has: bool)
    requires col < 5
    ensures has == ColFullTo(c.squares, col, 5)
  {
    has := true;
    var k := 0;
    while k < 5
      invariant 0 <= k <= 5
      invariant has == ColFullTo(c.squares, col, k)
    {
      if !c.squares[5 * k + col].called {
        has := false;
      }
      k := k + 1;
    }
  }

  /**
   * Flags every card with a full row, and every card not yet flagged with a
   * full column, and returns the index of the first card so flagged.
   */
  method CheckForWinningLine(cards: array<BingoCard>) returns (winner: Option<nat>)
    modifies cards
    ensures cards[..] == FlagAll(old(cards[..]))
    ensures winner == FirstWinner(old(cards[..]))
  {
    ghost var start := cards[..];
    winner := None;
    var i := 0;
    while i < cards.Length
      invariant 0 <= i <= cards.Length
      invariant cards[..] == FlagTo(start, i)
      invariant winner == FirstWinnerTo(start, i)
    {
      FlagToAt(start, i, i);
      ghost var c := cards[i];
      ghost var prior := FirstWinnerTo(start, i);
      var j := 0;
      while j < 5
        invariant 0 <= j <= 5
        invariant cards[..] == FlagTo(start, i)[i := cards[i]]
        invariant cards[i].squares == c.squares
        invariant cards[i].hasLine == (c.hasLine || AnyRow(c.squares, j))
        invariant winner == if prior.Some? then prior else if AnyRow(c.squares, j) then Some(i) else None
      {
        var has := RowIsCalled(cards[i], j);
        if has {
          cards[i] := cards[i].(hasLine := true);
          if winner.None? {
            winner := Some(i);
          }
        }
        j := j + 1;
      }
      if !cards[i].hasLine {
        j := 0;
        while j < 5
          invariant 0 <= j <= 5
          invariant cards[..] == FlagTo(start, i)[i := cards[i]]
          invariant cards[i].squares == c.squares
          invariant cards[i].hasLine == AnyCol(c.squares, j)
          invariant winner == if prior.Some? then prior else if AnyCol(c.squares, j) then Some(i) else None
        {
          var has := ColumnIsCalled(cards[i], j);
          if has {
            cards[i] := cards[i].(hasLine := true);
            if winner.None? {
              winner := Some(i);
            }
          }
          j := j + 1;
        }
      }
      i := i + 1;
    }
  }

  /**
   * Part 1: calls numbers until a card wins and returns that card with its
   * call; the cards are left as the search marked and flagged them.
   */
  method FindBingoWinner(calls: seq<int>, cards: array<BingoCard>) returns (r: Result<(BingoCard, int), BingoError>)
    modifies cards
    ensures (cards[..], r) == FirstWin(old(cards[..]), calls)
  {
    var i := 0;
    while i < |calls|
      invariant 0 <= i <= |calls|
      invariant FirstWinFrom(cards[..], calls, i) == FirstWin(old(cards[..]), calls)
    {
      CheckOffAll(cards, calls[i]);
      var w := CheckForWinningLine(cards);
      if w.Some? {
        return Ok((cards[w.value], calls[i]));
      }
      i := i + 1;
    }
    r := Err(NoWinner);
  }

  /** The score of a card: the sum of its uncalled numbers. */
  method SumOfUnmarked(card: BingoCard) returns (score: int)
    ensures score == UncalledSum(card.squares, 25)
  {
    score := 0;
    var i := 0;
    while i < 5
      invariant 0 <= i <= 5
      invariant score == UncalledSum(card.squares, 5 * i)
    {
      var j := 0;
      while j < 5
        invariant 0 <= j <= 5
        invariant score == UncalledSum(card.squares, 5 * i + j)
      {
        if !card.squares[5 * i + j].called {
          score := score + card.squares[5 * i + j].num;
        }
        j := j + 1;
      }
      i := i + 1;
    }
  }

  /** A new array of the cards without a line flag, in their order. */
  method Filter(cards: array<BingoCard>) returns (out: array<BingoCard>)
    ensures fresh(out)
    ensures out[..] == NonWinners(cards[..])
  {
    var count := 0;
    var i := 0;
    while i < cards.Length
      invariant 0 <= i <= cards.Length
      invariant count == CountNonWinners(cards[..], i)
    {
      if !cards[i].hasLine {
        count := count + 1;
      }
      i := i + 1;
    }
    ghost var a := cards[..];
    NonWinnersCount(a, cards.Length);
    out := new BingoCard[count];
    var j := 0;
    i := 0;
    while i < cards.Length
      invariant 0 <= i <= cards.Length
      invariant j == CountNonWinners(a, i) <= count
      invariant out[..j] == NonWinnersTo(a, i)
    {
      NonWinnersCount(a, i);
      CountNonWinnersGrows(a, i + 1, cards.Length);
      if !cards[i].hasLine {
        out[j] := cards[i];
        j := j + 1;
      }
      i := i + 1;
    }
    assert out[..] == out[..j];
  }

  /**
   * Part 2: plays the calls on copies of the cards not yet won, keeping the
   * cards still without a line after each call, until none is left.  The
   * cards given are not changed.
   */
  method FindLastWinner(calls: seq<int>, cards: array<BingoCard>) returns (r: Result<(BingoCard, int), BingoError>)
    ensures r == LastWinner(cards[..], calls)
  {
    var nw := Filter(cards);
    var copy: array<BingoCard> := new BingoCard[0];
    var last: array?<BingoCard> := null;
    var i := 0;
    while i < |calls|
      invariant 0 <= i <= |calls|
      invariant fresh(nw) && fresh(copy)
      invariant last != null ==> last == nw && nw.Length == 1
      invariant LastWinFrom(nw[..], calls, i, last != null) == LastWinner(cards[..], calls)
    {
      copy := Filter(nw);
      CheckOffAll(nw, calls[i]);
      var ignored := CheckForWinningLine(nw);
      copy := Filter(nw);
      nw, copy := copy, nw;
      if nw.Length == 1 {
        last := nw;
      } else if nw.Length == 0 {
        if last == null {
          return Err(NoLastWinner);
        }
        return Ok((last[0], calls[i]));
      }
      i := i + 1;
    }
    r := Err(NoLastWinner);
  }
}
