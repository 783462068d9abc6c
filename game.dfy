// The Board component's state (`squares`, `xIsNext`) and its click handler.

module Game {
  import opened Marks
  import opened WinEvaluator

  /** The mark placed by the player whose turn it is. */
  function TurnMark(xIsNext: bool): (m: Mark)
    ensures m != Empty
    ensures m == X <==> xIsNext
  {
    if xIsNext then X else Zero
  }

  /** A snapshot of the component's two state variables. */
  datatype Position = Position(squares: Squares, xIsNext: bool)

  /** The state the component is created with: nine `null`s, X to move. */
  const Start := Position(EmptySquares, true)

  /** What `handleClick(i)` does to the state: nothing when square `i` is
      occupied; otherwise the current player's mark goes into square `i` of a
      copy of the board and the turn passes. There is no check for a winner. */
  function Click(p: Position, i: Cell): Position
  {
    if p.squares[i] != Empty then p
    else Position(p.squares[i := TurnMark(p.xIsNext)], !p.xIsNext)
  }

  /** The state after the component, in state `p`, receives the clicks in order. */
  function Run(p: Position, clicks: seq<Cell>): Position
    decreases |clicks|
  {
    if clicks == [] then p else Run(Click(p, clicks[0]), clicks[1..])
  }

  /** The state after a freshly created component receives the clicks in order. */
  function Play(clicks: seq<Cell>): Position
  {
    Run(Start, clicks)
  }

  /** The turn invariant: X has moved as often as the second player when it is
      X's turn, and once more otherwise. */
  predicate TurnBalanced(p: Position)
  {
    CountOf(p.squares, X) == CountOf(p.squares, Zero) + (if p.xIsNext then 0 else 1)
  }

  /** A click on an occupied square changes nothing. */
  lemma ClickOccupiedIsNoOp(p: Position, i: Cell)
    requires p.squares[i] != Empty
    ensures Click(p, i) == p
  {
  }

  /** A click on an empty square writes the current player's mark there and
      nowhere else, passes the turn, and fills exactly one more square. */
  lemma ClickEmptyPlaces(p: Position, i: Cell)
    requires p.squares[i] == Empty
    ensures Click(p, i).squares[i] == (if p.xIsNext then X else Zero)
    ensures forall j :: 0 <= j < 9 && j != i ==> Click(p, i).squares[j] == p.squares[j]
    ensures Click(p, i).xIsNext == !p.xIsNext
    ensures Filled(Click(p, i).squares) == Filled(p.squares) + 1
  {
    var m := TurnMark(p.xIsNext);
    CountOfUpdate(p.squares, i, m, X);
    CountOfUpdate(p.squares, i, m, Zero);
  }

  /** A click either changes nothing or fills one more square. */
  lemma ClickFilled(p: Position, i: Cell)
    ensures Click(p, i) == p || Filled(Click(p, i).squares) == Filled(p.squares) + 1
  {
    if p.squares[i] == Empty {
      ClickEmptyPlaces(p, i);
    }
  }

  /** Every click keeps the turn invariant. */
  lemma ClickKeepsTurnBalanced(p: Position, i: Cell)
    requires TurnBalanced(p)
    ensures TurnBalanced(Click(p, i))
  {
    if p.squares[i] == Empty {
      var m := TurnMark(p.xIsNext);
      CountOfUpdate(p.squares, i, m, X);
      CountOfUpdate(p.squares, i, m, Zero);
    }
  }

  /** Under the turn invariant, it is X's turn exactly when an even number of squares is filled. */
  lemma TurnParity(p: Position)
    requires TurnBalanced(p)
    ensures p.xIsNext <==> Filled(p.squares) % 2 == 0
    ensures p.xIsNext <==> CountOf(p.squares, X) == CountOf(p.squares, Zero)
  {
  }

  /** Any sequence of clicks keeps the turn invariant. */
  lemma {:induction false} RunKeepsTurnBalanced(p: Position, clicks: seq<Cell>)
    requires TurnBalanced(p)
    ensures TurnBalanced(Run(p, clicks))
    decreases |clicks|
  {
    if clicks != [] {
      ClickKeepsTurnBalanced(p, clicks[0]);
      RunKeepsTurnBalanced(Click(p, clicks[0]), clicks[1..]);
    }
  }

  /** The freshly created component has an empty board, so it keeps the turn invariant. */
  lemma StartTurnBalanced()
    ensures Filled(Start.squares) == 0
    ensures TurnBalanced(Start)
  {
  }

  /** Every state the component can reach keeps the turn invariant. */
  lemma PlayTurnBalanced(clicks: seq<Cell>)
    ensures TurnBalanced(Play(clicks))
  {
    StartTurnBalanced();
    RunKeepsTurnBalanced(Start, clicks);
  }

  /** In every reachable state, X is to move exactly when an even number of
      squares is filled, that is, when both players have moved equally often. */
  lemma ReachableTurnParity(clicks: seq<Cell>)
    ensures Play(clicks).xIsNext <==> Filled(Play(clicks).squares) % 2 == 0
    ensures Play(clicks).xIsNext <==> CountOf(Play(clicks).squares, X) == CountOf(Play(clicks).squares, Zero)
  {
    PlayTurnBalanced(clicks);
    TurnParity(Play(clicks));
  }

  /** A game in which X completes the top row (clicks 0, 3, 1, 4, 2): the
      winner is reported, yet a further click on an empty square is still
      accepted, because `handleClick` does not consult the winner. */
  lemma MoveAcceptedAfterWin()
    ensures Winner(Play([0, 3, 1, 4, 2]).squares) == X
    ensures Click(Play([0, 3, 1, 4, 2]), 5).squares == [X, X, X, Zero, Zero, Zero, Empty, Empty, Empty]
  {
  }

  /** A full board with no line: X on 0, 1, 5, 6, 8, the second player on 2, 3, 4, 7. */
  const DrawBoard: Squares := [X, X, Zero, Zero, Zero, X, X, Zero, X]

  /** The clicks 0, 2, 1, 3, 5, 4, 6, 7, 8 produce that board. */
  lemma DrawGameBoard()
    ensures Play([0, 2, 1, 3, 5, 4, 6, 7, 8]).squares == DrawBoard
  {
  }

  /** No line of the table matches on that board, and no square is empty. */
  lemma DrawBoardHasNoLine()
    ensures !SomeLineFrom(DrawBoard, 0)
    ensures forall j :: 0 <= j < 9 ==> DrawBoard[j] != Empty
  {
  }

  /** A full board with no line: no winner is reported, as for a game still in progress. */
  lemma DrawReportsNoWinner()
    ensures Filled(Play([0, 2, 1, 3, 5, 4, 6, 7, 8]).squares) == 9
    ensures Winner(Play([0, 2, 1, 3, 5, 4, 6, 7, 8]).squares) == Empty
  {
    DrawGameBoard();
    DrawBoardHasNoLine();
    CountPositive(DrawBoard, Empty);
    CountsPartition(DrawBoard);
  }

  /** What the status line shows: the winner, or whose turn it is. */
  datatype Status = Won(winner: Mark) | NextPlayer(player: Mark)

  /** The Board component, holding its two state variables. */
  class Board {
    var squares: Squares
    var xIsNext: bool

    /** The state as a value. */
    function State(): Position
      reads this
    {
      Position(squares, xIsNext)
    }

    /** The turn invariant, which every reachable state keeps. */
    ghost predicate Valid()
      reads this
    {
      TurnBalanced(State())
    }

    constructor ()
      ensures State() == Start
      ensures Valid()
    {
      squares := EmptySquares;
      xIsNext := true;
    }

    /** `handleClick(i)`. */
    method HandleClick(i: Cell)
      modifies this
      ensures State() == Click(old(State()), i)
      ensures old(squares[i]) != Empty ==> squares == old(squares) && xIsNext == old(xIsNext)
      ensures old(squares[i]) == Empty ==>
                squares == old(squares)[i := if old(xIsNext) then X else Zero]
                && xIsNext == !old(xIsNext)
                && Filled(squares) == old(Filled(squares)) + 1
      ensures old(Valid()) ==> Valid()
    {
      if squares[i] != Empty {
        return;
      }
      ghost var before := State();
      var nextSquares := squares;
      if xIsNext {
        nextSquares := nextSquares[i := X];
      } else {
        nextSquares := nextSquares[i := Zero];
      }
      squares := nextSquares;
      xIsNext := !xIsNext;
      ClickEmptyPlaces(before, i);
      if TurnBalanced(before) {
        ClickKeepsTurnBalanced(before, i);
      }
    }

    /** The status line: the winner when `calculateWinner` reports one, the
        player to move otherwise. */
    method GameStatus() returns (s: Status)
      ensures s.Won? <==> Wins(squares, X) || Wins(squares, Zero)
      ensures s.Won? ==> s.winner == Winner(squares) && Wins(squares, s.winner)
      ensures s.NextPlayer? ==> s.player == (if xIsNext then X else Zero)
      ensures Valid() && s.NextPlayer? ==> (s.player == X <==> Filled(squares) % 2 == 0)
    {
      var winner := CalculateWinner(squares);
      NoWinnerIffNoLine(squares);
      if Valid() {
        TurnParity(State());
      }
      if winner != Empty {
        WinnerWins(squares);
        s := Won(winner);
      } else {
        s := NextPlayer(TurnMark(xIsNext));
      }
    }
  }
}
