/**
 * The outcome evaluator of the Tic-Tac-Toe game: `checkForWinner` scans a
 * fixed table of the eight winning index triples and returns the mark of the
 * first line whose three cells hold the same non-empty string, or `null`.
 *
 * A board is the game's `string[]`: cells are "" (empty), "X" or "O", but the
 * evaluator accepts any strings and any length.
 */
module TicTacTok {

  /** `string | null` of the source: `None` is `null`. */
  datatype Option<T> = None | Some(value: T)

  /** One winning line: the three board indices `[a, b, c]`. */
  datatype Line = Line(a: nat, b: nat, c: nat)

  /** The source's `lines` table: three rows, three columns, two diagonals. */
  const Lines: seq<Line> := [
    Line(0, 1, 2), Line(3, 4, 5), Line(6, 7, 8),  // rows
    Line(0, 3, 6), Line(1, 4, 7), Line(2, 5, 8),  // columns
    Line(0, 4, 8), Line(2, 4, 6)                  // diagonals
  ]

  /** Row `r` of the 3 x 3 grid, cells numbered row by row. */
  function Row(r: nat): Line
    requires r < 3
  {
    Line(3 * r, 3 * r + 1, 3 * r + 2)
  }

  /** Column `c` of the 3 x 3 grid. */
  function Column(c: nat): Line
    requires c < 3
  {
    Line(c, c + 3, c + 6)
  }

  /** A line passes through cell `i`. */
  predicate OnLine(l: Line, i: int) {
    i == l.a || i == l.b || i == l.c
  }

  /**
   * The cell `squares[i]` as the evaluator's test sees it. An index past the
   * end reads as `undefined`, which is falsy like "" and equal to no
   * non-empty string, so reading it as "" leaves every test unchanged.
   */
  function Cell(squares: seq<string>, i: nat): string {
    if i < |squares| then squares[i] else ""
  }

  /** The three cells of the line hold the same non-empty mark. */
  predicate Completes(squares: seq<string>, l: Line) {
    Cell(squares, l.a) != "" && Cell(squares, l.a) == Cell(squares, l.b) && Cell(squares, l.a) == Cell(squares, l.c)
  }

  /** The cells of a board of the game: "", "X" or "O". */
  predicate WellMarked(squares: seq<string>) {
    forall i :: 0 <= i < |squares| ==> squares[i] == "" || squares[i] == "X" || squares[i] == "O"
  }

  /** The scan of the table from entry `i` on, returning at the first completed line. */
  function WinnerFrom(squares: seq<string>, i: nat): (r: Option<string>)
    requires i <= |Lines|
    ensures r.Some? ==> r.value != ""
    ensures r.Some? && WellMarked(squares) ==> r.value == "X" || r.value == "O"
    decreases |Lines| - i
  {
    if i == |Lines| then None
    else if Completes(squares, Lines[i]) then Some(Cell(squares, Lines[i].a))
    else WinnerFrom(squares, i + 1)
  }

  /**
   * What `checkForWinner(squares)` returns: never "", and "X" or "O" on a
   * board whose cells are "", "X" or "O".
   */
  function Winner(squares: seq<string>): (r: Option<string>)
    ensures r.Some? ==> r.value != ""
    ensures r.Some? && WellMarked(squares) ==> r.value == "X" || r.value == "O"
  {
    WinnerFrom(squares, 0)
  }

  /** The loop of `checkForWinner`: walks the table with index `i`, returning early on a match. */
  method CheckForWinner(squares: array<string>) returns (r: Option<string>)
    ensures r == Winner(squares[..])
  {
    var i := 0;
    while i < |Lines|
      invariant 0 <= i <= |Lines|
      invariant WinnerFrom(squares[..], i) == Winner(squares[..])
    {
      var line := Lines[i];
      var a := if line.a < squares.Length then squares[line.a] else "";
      var b := if line.b < squares.Length then squares[line.b] else "";
      var c := if line.c < squares.Length then squares[line.c] else "";
      if a != "" && a == b && a == c {
        return Some(a);
      }
      i := i + 1;
    }
    return None;
  }

  /** The table has eight triples over indices 0..8: rows, then columns, then diagonals. */
  lemma LinesTable()
    ensures |Lines| == 8
    ensures forall k :: 0 <= k < |Lines| ==> Lines[k].a < 9 && Lines[k].b < 9 && Lines[k].c < 9
    ensures forall k :: 0 <= k < |Lines| ==> Lines[k].a < Lines[k].b < Lines[k].c
    ensures forall k :: 0 <= k < 3 ==> Lines[k] == Row(k)
    ensures forall k :: 3 <= k < 6 ==> Lines[k] == Column(k - 3)
    ensures Lines[6] == Line(0, 4, 8) && Lines[7] == Line(2, 4, 6)
    ensures forall j, k :: 0 <= j < k < |Lines| ==> Lines[j] != Lines[k]
  {
  }

  /** The scan from `i` finds nothing exactly when no line from `i` on is completed. */
  lemma {:induction false} WinnerFromNone(squares: seq<string>, i: nat)
    requires i <= |Lines|
    ensures WinnerFrom(squares, i) == None <==> forall k :: i <= k < |Lines| ==> !Completes(squares, Lines[k])
    decreases |Lines| - i
  {
    if i < |Lines| && !Completes(squares, Lines[i]) {
      WinnerFromNone(squares, i + 1);
    }
  }

  /** A hit of the scan from `i` is the mark of the earliest completed line from `i` on. */
  lemma {:induction false} WinnerFromSome(squares: seq<string>, i: nat)
    requires i <= |Lines|
    requires WinnerFrom(squares, i).Some?
    ensures exists k :: i <= k < |Lines| && Completes(squares, Lines[k])
                        && WinnerFrom(squares, i).value == Cell(squares, Lines[k].a)
                        && forall j :: i <= j < k ==> !Completes(squares, Lines[j])
    decreases |Lines| - i
  {
    if !Completes(squares, Lines[i]) {
      WinnerFromSome(squares, i + 1);
    }
  }

  /** The earliest completed line from `i` on decides the scan from `i`. */
  lemma {:induction false} WinnerFromFirst(squares: seq<string>, i: nat, k: nat)
    requires i <= k < |Lines|
    requires Completes(squares, Lines[k])
    requires forall j :: i <= j < k ==> !Completes(squares, Lines[j])
    ensures WinnerFrom(squares, i) == Some(Cell(squares, Lines[k].a))
    decreases k - i
  {
    if i < k {
      WinnerFromFirst(squares, i + 1, k);
    }
  }

  /** `null` is returned exactly when no line of the table is completed. */
  lemma NoWinnerIffNoCompletedLine(squares: seq<string>)
    ensures Winner(squares) == None <==> forall k :: 0 <= k < |Lines| ==> !Completes(squares, Lines[k])
  {
    WinnerFromNone(squares, 0);
  }

  /** A non-null result is `squares[a]` of a completed line `[a, b, c]`, the earliest one in table order. */
  lemma WinnerIsEarliestCompletedLine(squares: seq<string>)
    requires Winner(squares).Some?
    ensures exists k :: 0 <= k < |Lines| && Completes(squares, Lines[k])
                        && Winner(squares).value == Cell(squares, Lines[k].a)
                        && forall j :: 0 <= j < k ==> !Completes(squares, Lines[j])
  {
    WinnerFromSome(squares, 0);
  }

  /** Conversely, the earliest completed line gives the result. */
  lemma EarliestCompletedLineIsWinner(squares: seq<string>, k: nat)
    requires k < |Lines| && Completes(squares, Lines[k])
    requires forall j :: 0 <= j < k ==> !Completes(squares, Lines[j])
    ensures Winner(squares) == Some(Cell(squares, Lines[k].a))
  {
    WinnerFromFirst(squares, 0, k);
  }

  /** When every completed line holds mark `m` and one exists, the result is `m`, whatever the table order. */
  lemma SingleMarkWins(squares: seq<string>, m: string, k: nat)
    requires k < |Lines| && Completes(squares, Lines[k]) && Cell(squares, Lines[k].a) == m
    requires forall j :: 0 <= j < |Lines| && Completes(squares, Lines[j]) ==> Cell(squares, Lines[j].a) == m
    ensures Winner(squares) == Some(m)
  {
    NoWinnerIffNoCompletedLine(squares);
    WinnerIsEarliestCompletedLine(squares);
  }

  /** A board with no non-empty cell has no winner. */
  lemma EmptyBoardHasNoWinner(squares: seq<string>)
    requires forall i :: 0 <= i < |squares| ==> squares[i] == ""
    ensures Winner(squares) == None
  {
    NoWinnerIffNoCompletedLine(squares);
  }

  /**
   * Writing mark `m` into one cell of a board without a winner can complete
   * only lines through that cell, and they then hold `m`: the winner, if any,
   * is the mark just played.
   */
  lemma NewWinnerIsLastMark(squares: seq<string>, i: nat, m: string)
    requires i < |squares| && Winner(squares) == None
    requires Winner(squares[i := m]).Some?
    ensures Winner(squares[i := m]) == Some(m)
  {
    var after := squares[i := m];
    NoWinnerIffNoCompletedLine(squares);
    WinnerIsEarliestCompletedLine(after);
    var k :| 0 <= k < |Lines| && Completes(after, Lines[k]) && Winner(after).value == Cell(after, Lines[k].a);
    forall j | 0 <= j < |Lines| && !OnLine(Lines[j], i)
      ensures !Completes(after, Lines[j])
    {
      var l := Lines[j];
      assert Cell(after, l.a) == Cell(squares, l.a);
      assert Cell(after, l.b) == Cell(squares, l.b);
      assert Cell(after, l.c) == Cell(squares, l.c);
    }
    assert OnLine(Lines[k], i);
  }

  /** The board `X O X / O X O / X O X` is a win for "X" (on the diagonal 0-4-8), not a tie. */
  lemma AlternatingFullBoardIsWinForX()
    ensures Winner(["X", "O", "X", "O", "X", "O", "X", "O", "X"]) == Some("X")
  {
    var s := ["X", "O", "X", "O", "X", "O", "X", "O", "X"];
    assert !Completes(s, Lines[0]) && !Completes(s, Lines[1]) && !Completes(s, Lines[2]);
    assert !Completes(s, Lines[3]) && !Completes(s, Lines[4]) && !Completes(s, Lines[5]);
  }
}
