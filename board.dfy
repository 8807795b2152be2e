/** The 3x3 board the server keeps: what a cell may hold, the eight winning
    lines, and the verdict the server reaches on a board. Cells are numbered
    0..8 in row-major order. */
module Board {
  const PLAYER_X: int := 0
  const PLAYER_O: int := 1
  const X_MARK: char := 'X'
  const O_MARK: char := 'O'
  /** A cell nobody has marked holds Java's default char, '\u0000'. */
  const EMPTY: char := '\0'
  const SIZE: nat := 9

  /** The board of a fresh game: nine empty cells. */
  const EmptyBoard: seq<char> := [EMPTY, EMPTY, EMPTY, EMPTY, EMPTY, EMPTY, EMPTY, EMPTY, EMPTY]

  datatype Outcome = InProgress | XWins | OWins | Draw

  predicate IsPlayer(p: int) {
    p == PLAYER_X || p == PLAYER_O
  }

  /** Nine cells, each empty or holding one of the two marks. */
  predicate WellFormed(b: seq<char>) {
    |b| == SIZE && forall i :: 0 <= i < |b| ==> b[i] in {EMPTY, X_MARK, O_MARK}
  }

  /** The mark a player number plays with: X for player 0, O otherwise. */
  function MarkFor(player: int): (m: char)
    ensures m == X_MARK || m == O_MARK
    ensures m == X_MARK <==> player == PLAYER_X
  {
    if player == PLAYER_X then X_MARK else O_MARK
  }

  // ---------------------------------------------------------------------
  // The checks as the server spells them out, line by line.

  /** Some row, column or diagonal holds three `m` marks. */
  predicate HasLine(b: seq<char>, m: char)
    requires |b| == SIZE
  {
    (b[0] == m && b[1] == m && b[2] == m) ||
    (b[3] == m && b[4] == m && b[5] == m) ||
    (b[6] == m && b[7] == m && b[8] == m) ||
    (b[0] == m && b[3] == m && b[6] == m) ||
    (b[1] == m && b[4] == m && b[7] == m) ||
    (b[2] == m && b[5] == m && b[8] == m) ||
    (b[0] == m && b[4] == m && b[8] == m) ||
    (b[2] == m && b[4] == m && b[6] == m)
  }

  /** The draw test: every cell of every line differs from '\u0000'. */
  predicate AllNonZero(b: seq<char>)
    requires |b| == SIZE
  {
    (b[0] != EMPTY && b[1] != EMPTY && b[2] != EMPTY) &&
    (b[3] != EMPTY && b[4] != EMPTY && b[5] != EMPTY) &&
    (b[6] != EMPTY && b[7] != EMPTY && b[8] != EMPTY) &&
    (b[0] != EMPTY && b[3] != EMPTY && b[6] != EMPTY) &&
    (b[1] != EMPTY && b[4] != EMPTY && b[7] != EMPTY) &&
    (b[2] != EMPTY && b[5] != EMPTY && b[8] != EMPTY) &&
    (b[0] != EMPTY && b[4] != EMPTY && b[8] != EMPTY) &&
    (b[2] != EMPTY && b[4] != EMPTY && b[6] != EMPTY)
  }

  /** The game-over verdict: X lines first, then O lines, then the draw test. */
  function Evaluate(b: seq<char>): (verdict: Outcome)
    requires |b| == SIZE
  {
    if HasLine(b, X_MARK) then XWins
    else if HasLine(b, O_MARK) then OWins
    else if AllNonZero(b) then Draw
    else InProgress
  }

  // ---------------------------------------------------------------------
  // Reference definitions, stated from the geometry of the grid.

  function CellAt(row: int, col: int): (cell: int) {
    3 * row + col
  }

  /** The cell of the anti-diagonal in row k. */
  function AntiDiagonalCell(k: int): (cell: int) {
    CellAt(k, 2 - k)
  }

  ghost predicate RowFilled(b: seq<char>, m: char, row: int)
    requires |b| == SIZE && 0 <= row < 3
  {
    forall col :: 0 <= col < 3 ==> b[CellAt(row, col)] == m
  }

  ghost predicate ColumnFilled(b: seq<char>, m: char, col: int)
    requires |b| == SIZE && 0 <= col < 3
  {
    forall row :: 0 <= row < 3 ==> b[CellAt(row, col)] == m
  }

  /** The diagonal from the top-left corner. */
  ghost predicate DiagonalFilled(b: seq<char>, m: char)
    requires |b| == SIZE
  {
    forall k :: 0 <= k < 3 ==> b[CellAt(k, k)] == m
  }

  /** The diagonal from the top-right corner. */
  ghost predicate AntiDiagonalFilled(b: seq<char>, m: char)
    requires |b| == SIZE
  {
    forall k :: 0 <= k < 3 ==> b[AntiDiagonalCell(k)] == m
  }

  ghost predicate ThreeInARow(b: seq<char>, m: char)
    requires |b| == SIZE
  {
    (exists row :: 0 <= row < 3 && RowFilled(b, m, row)) ||
    (exists col :: 0 <= col < 3 && ColumnFilled(b, m, col)) ||
    DiagonalFilled(b, m) ||
    AntiDiagonalFilled(b, m)
  }

  ghost predicate Full(b: seq<char>) {
    forall i :: 0 <= i < |b| ==> b[i] != EMPTY
  }

  // ---------------------------------------------------------------------
  // The spelled-out checks agree with the reference definitions.

  /** A row is filled exactly when its three cells hold `m`. */
  lemma RowCells(b: seq<char>, m: char, row: int)
    requires |b| == SIZE && 0 <= row < 3
    ensures RowFilled(b, m, row) <==>
            b[CellAt(row, 0)] == m && b[CellAt(row, 1)] == m && b[CellAt(row, 2)] == m
  {
  }

  /** A column is filled exactly when its three cells hold `m`. */
  lemma ColumnCells(b: seq<char>, m: char, col: int)
    requires |b| == SIZE && 0 <= col < 3
    ensures ColumnFilled(b, m, col) <==>
            b[CellAt(0, col)] == m && b[CellAt(1, col)] == m && b[CellAt(2, col)] == m
  {
  }

  /** The top-left diagonal is filled exactly when its three cells hold `m`. */
  lemma DiagonalCells(b: seq<char>, m: char)
    requires |b| == SIZE
    ensures DiagonalFilled(b, m) <==>
            b[CellAt(0, 0)] == m && b[CellAt(1, 1)] == m && b[CellAt(2, 2)] == m
  {
  }

  /** The top-right diagonal is filled exactly when its three cells hold `m`. */
  lemma AntiDiagonalCells(b: seq<char>, m: char)
    requires |b| == SIZE
    ensures AntiDiagonalFilled(b, m) <==>
            b[AntiDiagonalCell(0)] == m && b[AntiDiagonalCell(1)] == m && b[AntiDiagonalCell(2)] == m
  {
  }

  lemma HasLineImpliesThreeInARow(b: seq<char>, m: char)
    requires |b| == SIZE && HasLine(b, m)
    ensures ThreeInARow(b, m)
  {
    if b[0] == m && b[1] == m && b[2] == m {
      RowCells(b, m, 0);
      assert RowFilled(b, m, 0);
    } else if b[3] == m && b[4] == m && b[5] == m {
      RowCells(b, m, 1);
      assert RowFilled(b, m, 1);
    } else if b[6] == m && b[7] == m && b[8] == m {
      RowCells(b, m, 2);
      assert RowFilled(b, m, 2);
    } else if b[0] == m && b[3] == m && b[6] == m {
      ColumnCells(b, m, 0);
      assert ColumnFilled(b, m, 0);
    } else if b[1] == m && b[4] == m && b[7] == m {
      ColumnCells(b, m, 1);
      assert ColumnFilled(b, m, 1);
    } else if b[2] == m && b[5] == m && b[8] == m {
      ColumnCells(b, m, 2);
      assert ColumnFilled(b, m, 2);
    } else if b[0] == m && b[4] == m && b[8] == m {
      DiagonalCells(b, m);
    } else {
      AntiDiagonalCells(b, m);
    }
  }

  lemma ThreeInARowImpliesHasLine(b: seq<char>, m: char)
    requires |b| == SIZE && ThreeInARow(b, m)
    ensures HasLine(b, m)
  {
    if row :| 0 <= row < 3 && RowFilled(b, m, row) {
      RowCells(b, m, row);
      assert row == 0 || row == 1 || row == 2;
    } else if col :| 0 <= col < 3 && ColumnFilled(b, m, col) {
      ColumnCells(b, m, col);
      assert col == 0 || col == 1 || col == 2;
    } else if DiagonalFilled(b, m) {
      DiagonalCells(b, m);
    } else {
      AntiDiagonalCells(b, m);
    }
  }

  /** The eight spelled-out line checks find exactly the three-in-a-rows of the grid. */
  lemma HasLineIsThreeInARow(b: seq<char>, m: char)
    requires |b| == SIZE
    ensures HasLine(b, m) <==> ThreeInARow(b, m)
  {
    if HasLine(b, m) {
      HasLineImpliesThreeInARow(b, m);
    }
    if ThreeInARow(b, m) {
      ThreeInARowImpliesHasLine(b, m);
    }
  }

  lemma AllNonZeroIsFull(b: seq<char>)
    requires |b| == SIZE
    ensures AllNonZero(b) <==> Full(b)
  {
  }

  /** What the verdict means: X wins on any X line; O wins on an O line only
      when X has none; a draw is a full board with no line at all; otherwise
      the game goes on. */
  lemma EvaluateMeaning(b: seq<char>)
    requires |b| == SIZE
    ensures Evaluate(b) == XWins <==> ThreeInARow(b, X_MARK)
    ensures Evaluate(b) == OWins <==> !ThreeInARow(b, X_MARK) && ThreeInARow(b, O_MARK)
    ensures Evaluate(b) == Draw <==> !ThreeInARow(b, X_MARK) && !ThreeInARow(b, O_MARK) && Full(b)
    ensures Evaluate(b) == InProgress <==> !ThreeInARow(b, X_MARK) && !ThreeInARow(b, O_MARK) && !Full(b)
  {
    HasLineIsThreeInARow(b, X_MARK);
    HasLineIsThreeInARow(b, O_MARK);
    AllNonZeroIsFull(b);
  }

  /** Win detection comes before draw detection: a full board that completes
      a line is reported as that line's win, never as a draw. */
  lemma WinBeforeDraw(b: seq<char>, m: char)
    requires |b| == SIZE && Full(b)
    requires m == X_MARK || m == O_MARK
    requires ThreeInARow(b, m)
    ensures Evaluate(b) != Draw
    ensures Evaluate(b) == XWins || Evaluate(b) == OWins
    ensures m == X_MARK ==> Evaluate(b) == XWins
  {
    EvaluateMeaning(b);
  }

  /** A draw leaves no empty cell, so every move onto a drawn board is refused. */
  lemma DrawIsFull(b: seq<char>, i: int)
    requires |b| == SIZE && Evaluate(b) == Draw
    requires 0 <= i < SIZE
    ensures b[i] != EMPTY
  {
  }

  /** A finished game stays finished: marking an empty cell of a board with
      a line keeps that line, and a drawn board has no empty cell to mark. */
  lemma GameOverStays(b: seq<char>, location: int, m: char)
    requires WellFormed(b) && 0 <= location < SIZE && b[location] == EMPTY
    requires m == X_MARK || m == O_MARK
    requires Evaluate(b) != InProgress
    ensures Evaluate(b[location := m]) != InProgress
  {
  }

  /** The verdict itself is not stable: O holds the top row and X cells 3
      and 4 (O opened and it is X's turn), and X completing the middle row
      turns an O win into an X win, because X lines are checked first. */
  lemma WinnerCanChange()
    ensures WellFormed([O_MARK, O_MARK, O_MARK, X_MARK, X_MARK, EMPTY, EMPTY, EMPTY, EMPTY])
    ensures Evaluate([O_MARK, O_MARK, O_MARK, X_MARK, X_MARK, EMPTY, EMPTY, EMPTY, EMPTY]) == OWins
    ensures Evaluate([O_MARK, O_MARK, O_MARK, X_MARK, X_MARK, EMPTY, EMPTY, EMPTY, EMPTY][5 := X_MARK]) == XWins
  {
  }

  // ---------------------------------------------------------------------
  // Counting marks.

  /** The number of cells of `b` that hold `c`. */
  function Count(b: seq<char>, c: char): (n: nat)
    ensures n <= |b|
  {
    if b == [] then 0 else (if b[0] == c then 1 else 0) + Count(b[1..], c)
  }

  lemma {:induction false} CountUpdate(b: seq<char>, i: int, v: char, c: char)
    requires 0 <= i < |b|
    ensures Count(b[i := v], c) ==
            Count(b, c) - (if b[i] == c then 1 else 0) + (if v == c then 1 else 0)
  {
    if i == 0 {
      assert b[i := v][1..] == b[1..];
    } else {
      assert b[i := v][1..] == b[1..][i - 1 := v];
      CountUpdate(b[1..], i - 1, v, c);
    }
  }

  lemma {:induction false} CountAbsent(b: seq<char>, c: char)
    requires forall i :: 0 <= i < |b| ==> b[i] != c
    ensures Count(b, c) == 0
  {
    if b != [] {
      CountAbsent(b[1..], c);
    }
  }

  lemma {:induction false} CountEvery(b: seq<char>, c: char)
    requires forall i :: 0 <= i < |b| ==> b[i] == c
    ensures Count(b, c) == |b|
  {
    if b != [] {
      CountEvery(b[1..], c);
    }
  }

  /** On a well-formed board every cell is empty or holds one of the marks. */
  lemma {:induction false} CountPartition(b: seq<char>)
    requires forall i :: 0 <= i < |b| ==> b[i] in {EMPTY, X_MARK, O_MARK}
    ensures Count(b, EMPTY) + Count(b, X_MARK) + Count(b, O_MARK) == |b|
  {
    if b != [] {
      assert b[0] in {EMPTY, X_MARK, O_MARK};
      CountPartition(b[1..]);
    }
  }

  /** With strict alternation the opener has placed as many marks as the
      other player when it is the opener's turn and one more otherwise, so
      the number of marks on the board is odd exactly when the turn is not
      the opener's. */
  lemma TurnParity(b: seq<char>, opener: int, turn: int)
    requires WellFormed(b) && IsPlayer(opener) && IsPlayer(turn)
    requires Count(b, MarkFor(opener)) ==
             Count(b, MarkFor(1 - opener)) + (if turn == opener then 0 else 1)
    ensures (SIZE - Count(b, EMPTY)) % 2 == 1 <==> turn != opener
  {
    CountPartition(b);
  }

  /** Marking an empty cell changes that cell only: the other eight keep their
      values (so no placed mark is overwritten), one more cell is occupied,
      the mover has one more mark and the other mark's count stays put. */
  lemma PlaceMark(b: seq<char>, location: int, m: char)
    requires WellFormed(b) && 0 <= location < SIZE && b[location] == EMPTY
    requires m == X_MARK || m == O_MARK
    ensures WellFormed(b[location := m])
    ensures forall i :: 0 <= i < SIZE && i != location ==> b[location := m][i] == b[i]
    ensures Count(b[location := m], EMPTY) == Count(b, EMPTY) - 1
    ensures Count(b[location := m], m) == Count(b, m) + 1
    ensures forall c :: c != m && c != EMPTY ==> Count(b[location := m], c) == Count(b, c)
  {
    CountUpdate(b, location, m, EMPTY);
    CountUpdate(b, location, m, m);
    forall c | c != m && c != EMPTY
      ensures Count(b[location := m], c) == Count(b, c)
    {
      CountUpdate(b, location, m, c);
    }
  }

  /** A fresh board holds no mark and no line, and the game on it is in progress. */
  lemma EmptyBoardFacts()
    ensures WellFormed(EmptyBoard)
    ensures Count(EmptyBoard, X_MARK) == 0 && Count(EmptyBoard, O_MARK) == 0
    ensures Count(EmptyBoard, EMPTY) == SIZE
    ensures Evaluate(EmptyBoard) == InProgress
  {
    CountAbsent(EmptyBoard, X_MARK);
    CountAbsent(EmptyBoard, O_MARK);
    CountEvery(EmptyBoard, EMPTY);
  }

  /** The board X O X / O X O / O X O holds no line and no empty cell: a draw. */
  lemma DrawExample()
    ensures Evaluate([X_MARK, O_MARK, X_MARK, O_MARK, X_MARK, O_MARK, O_MARK, X_MARK, O_MARK]) == Draw
  {
  }
}
