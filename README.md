# Tic-tac-toe board: win evaluation and click handling

A Dafny model of the logic of the `Board` component of a small React
tic-tac-toe page (`src/App.jsx`): the win evaluator `calculateWinner` and the
click handler `handleClick` with the component's two state variables,
`squares` (nine cells, each `null`, `X` or the digit `0`) and `xIsNext`.

- `marks.dfy` (module `Marks`): the cell contents `Mark = Empty | X | Zero`
  (`Empty` is `null`; `Zero` is the digit-zero mark), the nine-cell board
  `Squares`, cell indices `Cell`, and counting of marks.
- `winner.dfy` (module `WinEvaluator`): the table of eight lines in the
  source's order, `Winner` (the value `calculateWinner` returns, `Empty` for
  `null`) specified as "the mark of the first matching line", the source's
  loop `CalculateWinner` proved equal to it, and an independent
  row/column/diagonal description `Wins` with lemmas tying the two together.
- `game.dfy` (module `Game`): `Click`, the pure transition of
  `handleClick`; `Run`/`Play` for sequences of clicks from the initial state;
  the turn invariant `TurnBalanced` (X has moved as often as `0` when
  `xIsNext`, once more otherwise) and its preservation; the class `Board`
  whose fields `squares` and `xIsNext` are updated in place by
  `HandleClick`, and whose `GameStatus` chooses between the winner and the
  next player as the status line does.

Two points of the JavaScript that the model makes explicit: the second
player's mark is the string `"0"`, which is truthy, so an occupied `0` cell
blocks a click (App.jsx:23) and a line of `0`s is a win (App.jsx:85) exactly
as for `X`; and `handleClick` does not consult `calculateWinner`, so moves are
still accepted after a win (`MoveAcceptedAfterWin`). This version of the
component keeps no move history and has no jump to an earlier move.

## Model

| member | source | states |
|---|---|---|
| `WinEvaluator.WinnerFrom` | src/App.jsx:83-89 | scanning the table from line i yields a mark exactly when some line at or after i matches, and then the mark of the first such line |
| `WinEvaluator.Winner` | src/App.jsx:72-90 | calculateWinner returns null exactly when no line of the table has three equal non-null cells; otherwise the mark of the earliest matching line in table order |
| `WinEvaluator.CalculateWinner` | src/App.jsx:83-89 | the for loop with early return computes exactly `Winner`, reading the board without changing it |
| `WinEvaluator.TableLineWins` | src/App.jsx:73-82 | every matching entry of the table is a full row, column or diagonal of that mark |
| `WinEvaluator.WinningLineInTable` | src/App.jsx:73-82 | every full row, column or diagonal of a mark appears in the table as a matching entry with that mark |
| `WinEvaluator.WinnerWins` | src/App.jsx:83-87 | a non-null result is a mark that holds a full row, column or diagonal |
| `WinEvaluator.NoWinnerIffNoLine` | src/App.jsx:83-89 | null is returned if and only if neither player holds a full line; a full board without a line (a draw) therefore reads as no winner |
| `WinEvaluator.SoleWinnerReported` | src/App.jsx:83-87 | when exactly one mark holds a line, that mark is returned |
| `WinEvaluator.TableOrderDecidesTies` | src/App.jsx:83-87 | with X on the top row and 0 on the middle row both win, and X, whose line comes first in the table, is returned |
| `Game.TurnMark` | src/App.jsx:27-31 | the mark placed is never null, and is X exactly when xIsNext |
| `Game.ClickOccupiedIsNoOp` | src/App.jsx:23-25 | a click on an occupied cell leaves squares and xIsNext unchanged |
| `Game.ClickEmptyPlaces` | src/App.jsx:26-33 | a click on an empty cell puts X there when xIsNext and 0 otherwise, leaves every other cell unchanged, negates xIsNext and fills exactly one more cell |
| `Game.ClickFilled` | src/App.jsx:22-34 | every click is either a no-op or fills exactly one more cell |
| `Game.ClickKeepsTurnBalanced` | src/App.jsx:22-34 | a click keeps the turn invariant (count of X equals count of 0 when xIsNext, exceeds it by one otherwise) |
| `Game.TurnParity` | src/App.jsx:27-33 | under the turn invariant, xIsNext holds exactly when the number of filled cells is even, and exactly when X and 0 are equally many |
| `Game.RunKeepsTurnBalanced` | src/App.jsx:22-34 | any sequence of clicks from a state with the turn invariant keeps it |
| `Game.StartTurnBalanced` | src/App.jsx:19-20 | the initial all-null board with xIsNext true has no filled cell and satisfies the turn invariant |
| `Game.PlayTurnBalanced` | src/App.jsx:19-34 | every state reachable from the initial state by clicks satisfies the turn invariant |
| `Game.ReachableTurnParity` | src/App.jsx:19-34 | in every reachable state xIsNext holds iff the number of filled cells is even, iff X and 0 are equally many |
| `Game.MoveAcceptedAfterWin` | src/App.jsx:22-38 | after clicks 0,3,1,4,2 X has won the top row, and a further click on cell 5 is still accepted and writes 0 there |
| `Game.DrawGameBoard` | src/App.jsx:26-33 | clicks 0,2,1,3,5,4,6,7,8 produce X on 0,1,5,6,8 and 0 on 2,3,4,7 |
| `Game.DrawBoardHasNoLine` | src/App.jsx:73-85 | on that board no table line matches and no cell is null |
| `Game.DrawReportsNoWinner` | src/App.jsx:83-89 | after that game all nine cells are filled and calculateWinner returns null |
| `Game.Board.constructor` | src/App.jsx:19-20 | the component starts with nine null cells and xIsNext true, which satisfies the turn invariant |
| `Game.Board.HandleClick` | src/App.jsx:22-34 | the new state is `Click` of the old: unchanged on an occupied cell; otherwise the copied board with the current mark written at i, every other cell kept, xIsNext negated, one more cell filled; the turn invariant is kept |
| `Game.Board.GameStatus` | src/App.jsx:38-44 | the status shows a winner exactly when some player holds a full line, that winner being calculateWinner's result; otherwise it shows X as next player when xIsNext and 0 otherwise; in a state with the turn invariant, the next player is X exactly when an even number of cells is filled |

## Left out

- The `Square` component and all JSX rendering (App.jsx:5-12, 46-66): markup with no logic; the nine literal call sites `handleClick(0)`..`handleClick(8)` are reflected in the `Cell` type of the click index.
- React's `useState` hook and re-render scheduling: the two state variables are plain fields updated together at the end of `HandleClick`; the `squares.slice()` copy is modelled by value semantics of `seq`.
- The concatenated status strings (`Ganador: ...`, `Siguiente jugador: ...`): only the choice between winner and next player is modelled, as the `Status` datatype.
- Move history, jumping to an earlier move and a winner check before accepting a move: not present in this code.
- `calculateWinner` on arrays of other lengths: the component only ever passes its nine-cell `squares`, so the board type has exactly nine cells.
