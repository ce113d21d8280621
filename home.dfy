/**
 * The game session controller held by the `Home` page: the React state
 * `board`, `isXTurn`, `gameOver`, `winner`, `playerWins`, `computerWins` and
 * `ties`, the move handler `handleCellClick`, `resetGame`, and the effect that
 * asks the computer for its move. Each `setX` call is a plain assignment and
 * each handler call is one atomic step.
 *
 * `State` is the abstract value of the controller and `Click`, `Reset` and
 * `ComputerTurn` are its transitions; the class `Home` runs them in place and
 * is proved to agree with them.
 */
module HomePage {
  import opened TicTacTok

  /** The controller's state as one value. `winner` is "X", "O", "Tie" or `null`. */
  datatype State = State(
    board: seq<string>,
    isXTurn: bool,
    gameOver: bool,
    winner: Option<string>,
    playerWins: nat,
    computerWins: nat,
    ties: nat)

  /** The step of a session: a cell click (by the player or the computer's timer), the computer's turn, or Restart. */
  datatype Action = CellClick(index: int) | ComputerMove | Restart

  /** Nine empty cells: no mark, so no completed line and nothing to count. */
  function EmptyBoard(): (b: seq<string>)
    ensures |b| == 9 && "" in b && WellMarked(b)
    ensures Winner(b) == None
    ensures Count(b, "X") == 0 && Count(b, "O") == 0
  {
    var b := seq(9, _ => "");
    EmptyBoardHasNoWinner(b);
    CountAbsent(b, "X");
    CountAbsent(b, "O");
    assert b[0] == "";
    b
  }

  /** The state the page is mounted with: a consistent state with all counters at zero. */
  function Initial(): (r: State)
    ensures Consistent(r)
    ensures r.playerWins == 0 && r.computerWins == 0 && r.ties == 0
  {
    State(EmptyBoard(), true, false, None, 0, 0, 0)
  }

  /** The mark the mover writes. */
  function MarkFor(isXTurn: bool): string {
    if isXTurn then "X" else "O"
  }

  /** A click on `index` is accepted: the game is running and `board[index]` is "". */
  predicate Accepts(st: State, index: int) {
    !st.gameOver && 0 <= index < |st.board| && st.board[index] == ""
  }

  /**
   * `resetGame`: a fresh empty board, X to move, no winner. From any state,
   * even an inconsistent one, it yields a consistent state and keeps the counters.
   */
  function Reset(st: State): (r: State)
    ensures Consistent(r)
    ensures r.playerWins == st.playerWins && r.computerWins == st.computerWins && r.ties == st.ties
  {
    st.(board := EmptyBoard(), isXTurn := true, gameOver := false, winner := None)
  }

  /**
   * `handleCellClick(index, player)`. A rejected click (the game is over, or
   * the cell at `index` is not empty, which includes an index off the board,
   * where the source reads `undefined`) changes nothing. Otherwise the mover's
   * mark goes into a copy of the board and exactly one of three branches
   * follows: a win, a tie (no empty cell left), or the turn passes. `player`
   * only chooses the sound and so does not appear. The state changes exactly
   * when the click is accepted, and the board keeps its length.
   */
  function Click(st: State, index: int): (r: State)
    ensures |r.board| == |st.board|
    ensures r == st <==> !Accepts(st, index)
  {
    if !Accepts(st, index) then st
    else
      var newBoard := st.board[index := MarkFor(st.isXTurn)];
      var w := Winner(newBoard);
      if w.Some? then
        st.(board := newBoard, winner := w, gameOver := true,
            playerWins := if w.value == "X" then st.playerWins + 1 else st.playerWins,
            computerWins := if w.value == "X" then st.computerWins else st.computerWins + 1)
      else if "" !in newBoard then
        st.(board := newBoard, winner := Some("Tie"), gameOver := true, ties := st.ties + 1)
      else
        st.(board := newBoard, isXTurn := !st.isXTurn)
  }

  /**
   * The effect that runs after each change of `isXTurn`, `gameOver` or
   * `board`: on O's turn in a running game it asks the selector
   * `playComputerMove` (not part of this model, hence the parameter
   * `select`) for an index and, unless that is -1, clicks it as the computer.
   */
  function ComputerTurn(st: State, select: seq<string> -> int): (r: State)
    ensures r != st ==> && !st.isXTurn && !st.gameOver && select(st.board) != -1
                        && Accepts(st, select(st.board))
                        && r.board == st.board[select(st.board) := "O"]
  {
    if !st.isXTurn && !st.gameOver then
      var computerIndex := select(st.board);
      if computerIndex != -1 then Click(st, computerIndex) else st
    else st
  }

  /** One step of a session. */
  function Step(st: State, act: Action, select: seq<string> -> int): State {
    match act
    case CellClick(index) => Click(st, index)
    case ComputerMove => ComputerTurn(st, select)
    case Restart => Reset(st)
  }

  /** A session: the steps `acts` applied in order. */
  function Run(st: State, acts: seq<Action>, select: seq<string> -> int): State
    decreases |acts|
  {
    if acts == [] then st else Run(Step(st, acts[0], select), acts[1..], select)
  }

  /** How many cells of `board` hold `m`. */
  function Count(board: seq<string>, m: string): nat {
    if board == [] then 0 else (if board[0] == m then 1 else 0) + Count(board[1..], m)
  }

  /**
   * What holds of every state a session reaches: nine well-marked cells;
   * `winner` is set exactly when the game is over; a running game has an
   * empty cell, no completed line, and as many X as O when X is to move, one
   * X more otherwise; a finished game is either a tie on a full board without
   * a completed line, or a win of the mover whose turn flag was left standing,
   * with that player's mark one ahead of the other's, as before that move.
   */
  predicate Consistent(st: State) {
    && |st.board| == 9
    && WellMarked(st.board)
    && (st.gameOver <==> st.winner.Some?)
    && (!st.gameOver ==>
          && Winner(st.board) == None
          && "" in st.board
          && Count(st.board, "X") == Count(st.board, "O") + (if st.isXTurn then 0 else 1))
    && (st.gameOver ==>
          && Count(st.board, "X") == Count(st.board, "O") + (if st.isXTurn then 1 else 0)
          && (st.winner == Some("Tie") ==> Winner(st.board) == None && "" !in st.board)
          && (st.winner != Some("Tie") ==> st.winner == Winner(st.board) == Some(MarkFor(st.isXTurn))))
  }

  /** Writing mark `m` over an empty cell adds one `m` and leaves the count of every other non-empty mark alone. */
  lemma {:induction false} CountAfterWrite(board: seq<string>, i: nat, m: string, other: string)
    requires i < |board| && board[i] == "" && m != ""
    requires other != m && other != ""
    ensures Count(board[i := m], m) == Count(board, m) + 1
    ensures Count(board[i := m], other) == Count(board, other)
  {
    if i > 0 {
      CountAfterWrite(board[1..], i - 1, m, other);
      assert board[i := m][1..] == board[1..][i - 1 := m];
    }
  }

  /** A board without `m` counts no `m`. */
  lemma {:induction false} CountAbsent(board: seq<string>, m: string)
    requires m !in board
    ensures Count(board, m) == 0
  {
    if board != [] {
      CountAbsent(board[1..], m);
    }
  }

  /** A rejected click changes nothing. */
  lemma ClickRejected(st: State, index: int)
    requires st.gameOver || index < 0 || index >= |st.board| || st.board[index] != ""
    ensures Click(st, index) == st
  {
  }

  /** An accepted click writes the mover's mark into cell `index` and nowhere else. */
  lemma ClickWritesOneCell(st: State, index: int)
    requires Accepts(st, index)
    ensures |Click(st, index).board| == |st.board|
    ensures Click(st, index).board[index] == (if st.isXTurn then "X" else "O")
    ensures forall j :: 0 <= j < |st.board| && j != index ==> Click(st, index).board[j] == st.board[j]
  {
  }

  /** An accepted click either wins, ties, or passes the turn, and nothing else happens. */
  lemma ClickBranches(st: State, index: int)
    requires Accepts(st, index)
    ensures var r := Click(st, index);
            var w := Winner(r.board);
            && (w.Some? ==>
                  && r.winner == w && r.gameOver && r.isXTurn == st.isXTurn && r.ties == st.ties
                  && (w.value == "X" ==> r.playerWins == st.playerWins + 1 && r.computerWins == st.computerWins)
                  && (w.value != "X" ==> r.computerWins == st.computerWins + 1 && r.playerWins == st.playerWins))
            && (w.None? && "" !in r.board ==>
                  && r.winner == Some("Tie") && r.gameOver && r.isXTurn == st.isXTurn
                  && r.ties == st.ties + 1 && r.playerWins == st.playerWins && r.computerWins == st.computerWins)
            && (w.None? && "" in r.board ==>
                  && r.isXTurn == !st.isXTurn && r.gameOver == st.gameOver && r.winner == st.winner
                  && r.ties == st.ties && r.playerWins == st.playerWins && r.computerWins == st.computerWins)
  {
  }

  /**
   * A click raises at most one of the three counters, by one, lowers none,
   * and raises one exactly when it ends the game.
   */
  lemma ClickCounters(st: State, index: int)
    ensures var r := Click(st, index);
            && r.playerWins >= st.playerWins && r.computerWins >= st.computerWins && r.ties >= st.ties
            && r.playerWins + r.computerWins + r.ties <= st.playerWins + st.computerWins + st.ties + 1
            && (r.playerWins + r.computerWins + r.ties == st.playerWins + st.computerWins + st.ties + 1
                <==> !st.gameOver && r.gameOver)
  {
  }

  /** `resetGame` clears the board, gives X the move, reopens the game and keeps the counters. */
  lemma ResetState(st: State)
    ensures var r := Reset(st);
            && |r.board| == 9 && (forall i :: 0 <= i < 9 ==> r.board[i] == "")
            && r.isXTurn && !r.gameOver && r.winner == None
            && r.playerWins == st.playerWins && r.computerWins == st.computerWins && r.ties == st.ties
  {
  }

  /** A click keeps a consistent state consistent. */
  lemma ClickConsistent(st: State, index: int)
    requires Consistent(st)
    ensures Consistent(Click(st, index))
  {
    if Accepts(st, index) {
      var m := MarkFor(st.isXTurn);
      var other := MarkFor(!st.isXTurn);
      var newBoard := st.board[index := m];
      CountAfterWrite(st.board, index, m, other);
      if Winner(newBoard).Some? {
        NewWinnerIsLastMark(st.board, index, m);
      }
    }
  }

  /**
   * When no line was completed before it (as in every consistent running
   * state), a winning click credits the mover: X's win raises `playerWins`,
   * O's raises `computerWins`, and the winner is the mark just written.
   */
  lemma WinCreditsMover(st: State, index: int)
    requires Accepts(st, index) && Winner(st.board) == None
    requires Winner(st.board[index := MarkFor(st.isXTurn)]).Some?
    ensures Click(st, index).winner == Some(MarkFor(st.isXTurn))
    ensures st.isXTurn ==> Click(st, index).playerWins == st.playerWins + 1
    ensures !st.isXTurn ==> Click(st, index).computerWins == st.computerWins + 1
  {
    NewWinnerIsLastMark(st.board, index, MarkFor(st.isXTurn));
  }

  /**
   * The computer is asked only on O's turn in a running game and its index is
   * used only when it is not -1; an accepted computer move writes "O".
   */
  lemma ComputerTurnCases(st: State, select: seq<string> -> int)
    ensures st.isXTurn || st.gameOver ==> ComputerTurn(st, select) == st
    ensures !st.isXTurn && !st.gameOver && select(st.board) == -1 ==> ComputerTurn(st, select) == st
    ensures !st.isXTurn && !st.gameOver && select(st.board) != -1 ==>
              ComputerTurn(st, select) == Click(st, select(st.board))
    ensures !st.isXTurn && Accepts(st, select(st.board)) ==>
              ComputerTurn(st, select).board == st.board[select(st.board) := "O"]
  {
  }

  /** In a consistent state the computer, when asked, always has an empty cell to play. */
  lemma ComputerHasAMove(st: State)
    requires Consistent(st) && !st.isXTurn && !st.gameOver
    ensures exists i :: 0 <= i < |st.board| && st.board[i] == ""
  {
    var i :| 0 <= i < |st.board| && st.board[i] == "";
  }

  /** Each step keeps a consistent state consistent. */
  lemma StepConsistent(st: State, act: Action, select: seq<string> -> int)
    requires Consistent(st)
    ensures Consistent(Step(st, act, select))
  {
    match act
    case CellClick(index) => ClickConsistent(st, index);
    case ComputerMove =>
      if !st.isXTurn && !st.gameOver && select(st.board) != -1 {
        ClickConsistent(st, select(st.board));
      }
    case Restart =>
  }

  /**
   * Every session from the mounted page or from a reset stays consistent; in
   * particular, while a game runs, count(X) - count(O) is 0 on X's turn and 1 on O's.
   */
  lemma {:induction false} RunConsistent(st: State, acts: seq<Action>, select: seq<string> -> int)
    requires Consistent(st)
    ensures Consistent(Run(st, acts, select))
    ensures var r := Run(st, acts, select);
            !r.gameOver ==> Count(r.board, "X") - Count(r.board, "O") == (if r.isXTurn then 0 else 1)
    decreases |acts|
  {
    if acts != [] {
      StepConsistent(st, acts[0], select);
      RunConsistent(Step(st, acts[0], select), acts[1..], select);
    }
  }

  /** No session lowers a counter, resets included. */
  lemma {:induction false} RunCountersMonotone(st: State, acts: seq<Action>, select: seq<string> -> int)
    ensures var r := Run(st, acts, select);
            r.playerWins >= st.playerWins && r.computerWins >= st.computerWins && r.ties >= st.ties
    decreases |acts|
  {
    if acts != [] {
      var next := Step(st, acts[0], select);
      match acts[0] {
        case CellClick(index) => ClickCounters(st, index);
        case ComputerMove =>
          if !st.isXTurn && !st.gameOver && select(st.board) != -1 {
            ClickCounters(st, select(st.board));
          }
        case Restart =>
      }
      RunCountersMonotone(next, acts[1..], select);
    }
  }

  /** The `Home` page's game state, updated in place by its handlers. */
  class Home {
    var board: array<string>
    var isXTurn: bool
    var gameOver: bool
    var winner: Option<string>
    var playerWins: nat
    var computerWins: nat
    var ties: nat

    /** The state as a value. */
    function Snapshot(): State
      reads this, board
    {
      State(board[..], isXTurn, gameOver, winner, playerWins, computerWins, ties)
    }

    /** The object invariant: the state is one a session can reach. */
    ghost predicate Valid()
      reads this, board
    {
      Consistent(Snapshot())
    }

    /** The `useState` initial values. */
    constructor ()
      ensures Valid() && fresh(board)
      ensures Snapshot() == Initial()
    {
      board := new string[9](_ => "");
      isXTurn := true;
      gameOver := false;
      winner := None;
      playerWins := 0;
      computerWins := 0;
      ties := 0;
      new;
      assert board[..] == EmptyBoard();
    }

    /** `resetGame` */
    method ResetGame()
      requires Valid()
      modifies this
      ensures Valid() && fresh(board)
      ensures Snapshot() == Reset(old(Snapshot()))
    {
      board := new string[9](_ => "");
      isXTurn := true;
      gameOver := false;
      winner := None;
      assert board[..] == EmptyBoard();
    }

    /** `handleCellClick(index, player)`; `player` only chooses which note is played. */
    method HandleCellClick(index: int, player: bool)
      requires Valid()
      modifies this
      ensures Valid()
      ensures board == old(board) || fresh(board)
      ensures Snapshot() == Click(old(Snapshot()), index)
    {
      ghost var before := Snapshot();
      if gameOver || index < 0 || index >= board.Length || board[index] != "" {
        return;
      }
      ghost var after := Click(before, index);
      var newBoard := new string[board.Length];
      forall i | 0 <= i < board.Length {
        newBoard[i] := board[i];
      }
      newBoard[index] := if isXTurn then "X" else "O";
      assert newBoard[..] == after.board;
      board := newBoard;
      var w := CheckForWinner(newBoard);
      if w.Some? {
        winner := w;
        gameOver := true;
        if w.value == "X" {
          playerWins := playerWins + 1;
        } else {
          computerWins := computerWins + 1;
        }
      } else if "" !in newBoard[..] {
        winner := Some("Tie");
        gameOver := true;
        ties := ties + 1;
      } else {
        isXTurn := !isXTurn;
      }
      assert Snapshot() == after;
      ClickConsistent(before, index);
    }

    /** The computer-turn effect, with `select` standing for `playComputerMove`. */
    method ComputerMove(select: seq<string> -> int)
      requires Valid()
      modifies this
      ensures Valid()
      ensures board == old(board) || fresh(board)
      ensures Snapshot() == ComputerTurn(old(Snapshot()), select)
    {
      if !isXTurn && !gameOver {
        var computerIndex := select(board[..]);
        if computerIndex != -1 {
          HandleCellClick(computerIndex, false);
        }
      }
    }
  }
}
