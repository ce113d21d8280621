# Tic-Tac-Toe game core in Dafny

A model of the logic of a browser Tic-Tac-Toe game, where a human plays
"X" and the computer plays "O". It has two parts.

- `tictactok.dfy`, module `TicTacTok`: the outcome evaluator
  `checkForWinner`. It scans a fixed table of eight winning index triples
  (three rows, three columns, two diagonals). It returns the mark of the first
  line whose three cells hold the same non-empty string, or `null`. `Winner`
  is the scan as a pure function. The method `CheckForWinner` is the source's
  early-returning `for` loop over an array, proved equal to `Winner`.
- `home.dfy`, module `HomePage`: the game state of the `Home` page. Its
  fields are `board`, `isXTurn`, `gameOver`, `winner`, `playerWins`,
  `computerWins` and `ties`. `State` is that state as a value. `Click`,
  `Reset` and `ComputerTurn` are `handleCellClick`, `resetGame` and the
  computer-turn effect as transitions. The class `HomePage.Home` holds the same
  fields and runs them in place. Its methods are proved to agree with the
  transitions and to keep the invariant `Consistent`.

Boards are `seq<string>` (an `array<string>` in the class), so cells are the
source's strings "", "X" and "O". The evaluator accepts any board. For a board
shorter than nine cells, an index past the end reads as "". That matches the
source, where `undefined` is falsy and equal to no non-empty string.

Each `setX` call is modelled as a plain assignment, and each handler call as
one atomic step. The computer's move selector `playComputerMove` is not part
of this model. It appears as a parameter `select: seq<string> -> int`, a pure
function of the board: total, deterministic and reading nothing else. Every
lemma holds for every such function. A selector outside that class is still
covered, because each move it makes reaches the state as a `CellClick` step. The
only thing the page relies on about the selector's result is the test against
-1 (src/pages/Home.tsx:53). Any other value is clicked, and the click's guard
rejects an index off the board.

The full board `X O X / O X O / X O X` is a win for "X", on the diagonal 0-4-8
(lemma `TicTacTok.AlternatingFullBoardIsWinForX`).

## Model

| member | source | states |
|---|---|---|
| `TicTacTok.CheckForWinner` | src/utils/tictactok.ts:11-33 | the loop over the table, with its early return, yields exactly `Winner(squares[..])` and does not modify `squares` (no `modifies` clause) |
| `TicTacTok.LinesTable` | src/utils/tictactok.ts:12-21 | the table has 8 triples, every index is in 0..8 and increasing in each triple, no two triples are equal, and the order is rows 0-2, then columns 0-2, then the diagonals 0-4-8 and 2-4-6 |
| `TicTacTok.WinnerFrom` | src/utils/tictactok.ts:23-32 | the scan of the table from entry `i`, returning at the first completed line; its result is never "", and on a board over "", "X" and "O" it is "X" or "O". See `WinnerFromNone`, `WinnerFromSome` and `WinnerFromFirst` |
| `TicTacTok.Winner` | src/utils/tictactok.ts:5-11 | what `checkForWinner` returns: never ""; "X" or "O" on a board whose cells are "", "X" or "O". See `NoWinnerIffNoCompletedLine`, `WinnerIsEarliestCompletedLine` and `EarliestCompletedLineIsWinner` |
| `TicTacTok.WinnerFromNone` | src/utils/tictactok.ts:23-32 | the scan from table entry `i` returns `null` exactly when no line from `i` on has three equal non-empty cells |
| `TicTacTok.WinnerFromSome` | src/utils/tictactok.ts:23-29 | a hit of the scan from `i` is `squares[a]` of a completed line at or after `i`, with no completed line between `i` and it |
| `TicTacTok.WinnerFromFirst` | src/utils/tictactok.ts:23-29 | the earliest completed line at or after `i` determines the scan from `i` |
| `TicTacTok.NoWinnerIffNoCompletedLine` | src/utils/tictactok.ts:23-32 | the result is `null` if and only if no line of the table has three equal non-empty cells |
| `TicTacTok.WinnerIsEarliestCompletedLine` | src/utils/tictactok.ts:27-28 | a non-null result equals `squares[a]` for a line `[a,b,c]` with `squares[a] == squares[b] == squares[c] != ""`, and no earlier line of the table is completed |
| `TicTacTok.EarliestCompletedLineIsWinner` | src/utils/tictactok.ts:23-29 | conversely, when line `k` is completed and no earlier one is, the result is `Some(squares[a])` of line `k` |
| `TicTacTok.SingleMarkWins` | src/utils/tictactok.ts:23-29 | if some line is completed with mark `m` and every completed line holds `m`, the result is `m` |
| `TicTacTok.EmptyBoardHasNoWinner` | src/utils/tictactok.ts:27-32 | an all-empty board yields `null` |
| `TicTacTok.NewWinnerIsLastMark` | src/utils/tictactok.ts:23-32 | writing mark `m` into one cell of a board without a winner can only complete lines through that cell, so a new winner is `m` |
| `TicTacTok.AlternatingFullBoardIsWinForX` | src/utils/tictactok.ts:19 | the full board X,O,X,O,X,O,X,O,X yields "X" |
| `HomePage.EmptyBoard` | src/pages/Home.tsx:30 | the nine empty cells of a fresh board: no winner, and no "X" or "O" to count |
| `HomePage.Initial` | src/pages/Home.tsx:30-39 | the state the page mounts with is consistent and has every counter at 0 |
| `HomePage.Reset` | src/pages/Home.tsx:60-65 | the `resetGame` transition: from any state it yields a consistent state and keeps the three counters. See `ResetState` |
| `HomePage.Click` | src/pages/Home.tsx:67-101 | the `handleCellClick` transition: the state changes exactly when the click is accepted, and the board keeps its length. See `ClickRejected`, `ClickWritesOneCell`, `ClickBranches`, `ClickCounters` and `ClickConsistent` |
| `HomePage.ComputerTurn` | src/pages/Home.tsx:48-58 | the computer-turn effect: when it changes the state, it was O's turn in a running game, the selector's index `k` was not -1 and was accepted, and the new board is the old one with "O" at `k`. See `ComputerTurnCases` |
| `HomePage.CountAfterWrite` | src/pages/Home.tsx:73 | writing mark `m` over an empty cell raises the count of `m` by one and leaves the count of every other non-empty mark unchanged |
| `HomePage.CountAbsent` | src/pages/Home.tsx:61 | a board without mark `m` counts zero `m` |
| `HomePage.ClickRejected` | src/pages/Home.tsx:68 | when the game is over, or `board[index]` is not "" (an index off the board included), a click leaves the entire state unchanged |
| `HomePage.ClickWritesOneCell` | src/pages/Home.tsx:70-76 | an accepted click writes "X" when `isXTurn` and "O" otherwise into cell `index`, keeps every other cell and the board length; the `player` argument plays no part |
| `HomePage.ClickBranches` | src/pages/Home.tsx:82-100 | after an accepted click, exactly one branch applies. Win `w`: `winner := w`, game over, `playerWins` +1 if `w == "X"` else `computerWins` +1, turn kept. Tie (no "" left): `winner := "Tie"`, game over, `ties` +1. Otherwise `isXTurn` flips, and `gameOver`, `winner` and all counters are unchanged |
| `HomePage.ClickCounters` | src/pages/Home.tsx:82-100 | a click never lowers a counter and raises at most one of them, by exactly 1; one is raised exactly when the click ends the game |
| `HomePage.ResetState` | src/pages/Home.tsx:60-65 | reset gives 9 empty cells, X to move, the game not over and no winner, and keeps all three counters |
| `HomePage.ClickConsistent` | src/pages/Home.tsx:67-101 | a click keeps `Consistent`. This invariant covers: nine cells over "", "X" and "O"; `winner` set exactly when the game is over; while running, an empty cell, no completed line, and count(X) − count(O) = 0 on X's turn, 1 on O's; when over, either a tie on a full board without a completed line, or a win by the player whose turn flag stands |
| `HomePage.WinCreditsMover` | src/pages/Home.tsx:82-91 | when no line was completed before the move (true of every running consistent state), a winning click makes the mover the winner. It then raises `playerWins` when X moved and `computerWins` when O moved |
| `HomePage.ComputerTurnCases` | src/pages/Home.tsx:48-58 | the computer is asked only when `!isXTurn && !gameOver`. Its index is applied, as a click, only when it is not -1. An accepted computer move writes "O" |
| `HomePage.ComputerHasAMove` | src/pages/Home.tsx:50-51 | in a consistent state where the computer is asked, the board has an empty cell |
| `HomePage.StepConsistent` | src/pages/Home.tsx:48-101 | a click, a computer turn or a restart keeps `Consistent` |
| `HomePage.RunConsistent` | src/pages/Home.tsx:60-101 | every sequence of steps from a consistent state ends consistent. So from mounting or reset, count(X) − count(O) is 0 on X's turn and 1 on O's while the game runs |
| `HomePage.RunCountersMonotone` | src/pages/Home.tsx:60-100 | no sequence of clicks, computer turns and restarts lowers any counter |
| `HomePage.Home.constructor` | src/pages/Home.tsx:30-39 | the fields start as `Initial()`: empty board, X to move, not over, no winner, counters 0 |
| `HomePage.Home.ResetGame` | src/pages/Home.tsx:60-65 | updates the fields in place to `Reset` of the old state, on a fresh board array, keeping `Valid()` |
| `HomePage.Home.HandleCellClick` | src/pages/Home.tsx:67-101 | copies the board into a fresh array, writes the cell, calls `CheckForWinner` and branches. The new fields are `Click` of the old state, and `Valid()` is kept |
| `HomePage.Home.ComputerMove` | src/pages/Home.tsx:48-58 | when `!isXTurn && !gameOver`, asks `select` for an index and clicks it unless it is -1. The new fields are `ComputerTurn` of the old state, and `Valid()` is kept |

## Left out

- `playComputerMove` (the computer's move heuristic): its source file is not part of this model. It is the parameter `select`, and its choices are not modelled.
- Sound playback and the `mute` volume: foreign library I/O with no effect on game state.
- `animationTriggers`: cosmetic state that nothing in the game logic reads.
- The guided tour, its progress bar, cell highlighting and the `localStorage` flag: DOM and browser I/O.
- All JSX rendering, including the game-over banner.
- The 500 ms `setTimeout` before the computer's click, React's batched and asynchronous state updates, and re-render scheduling. Each handler call is one atomic step on the current state. The model does not capture what happens when a player clicks while the computer's delayed click is pending. In the source, the timer's handler then acts on the state captured when the effect ran.
- `console.log` calls: output only.
