# Tic-tac-toe server: the shared game state

`TicTacToeServer` referees one game of tic-tac-toe between two connected
players. Each player's session runs on its own thread. The sessions share
three pieces of state that the server owns:

- a nine-cell `board` of chars;
- the turn cursor `currentPlayer` (0 for X, 1 for O);
- the `draw` flag.

This project models that state and the operations on it:

- `validateAndMove` commits a move;
- `isOccupied` tests a cell;
- `isGameOver` gives the verdict on a board and records a draw;
- the rematch reset clears the board;
- `Player` gives each player its mark;
- the session loop reads each message as a rematch request or a move.

The model has three modules:

- `Board` (board.dfy) is pure. It holds the marks, the board invariant, and
  the eight line checks and the draw check exactly as the server writes them.
  It also gives an independent geometric definition of "three in a row" (rows,
  columns and the two diagonals, stated by coordinates), proves that the
  spelled-out checks agree with it, and proves facts about mark counts.
- `Protocol` (protocol.dfy) is pure. It models the case-insensitive
  `"new game"` test, `Integer.parseInt` on the text from index 2, and the
  classification of a message. It proves round trips from rendered numbers
  and move messages back to their values.
- `Server` (server.dfy) is imperative. The class `TicTacToeServer` holds the
  board as an `array<char>` of length 9, plus `currentPlayer`, `draw` and a
  ghost `opener`. Its methods change that state in place. `Valid()` is the
  class invariant:
  - every cell is empty, `'X'` or `'O'`;
  - the cursor is 0 or 1;
  - turns alternate: the opener has as many marks as the other player when
    it is the opener's turn, and one more otherwise;
  - a set `draw` flag means the board really is a draw.

  Short client methods play whole games through the class contracts.

An empty cell holds `'\u0000'`, which is Java's default char. Dafny's own
default char is `'D'`, so the constructor fills the array explicitly.

Three behaviours of the code are worth stating plainly:

- The rematch reset flips the turn cursor; it does not alternate the opener.
  `StartNewGame` proves that the next opener is the previous opener again
  after an odd number of marks and the other player after an even number.
  So after a win by the opener, or after a draw, the same player opens
  again. `RematchGame` shows this after a single move.
- `validateAndMove` has no game-over guard, and the other session still
  reads moves after it is told the game is over. A finished game stays
  finished (`Board.GameOverStays`), and every further accepted move is
  answered "game over". The exact verdict can still change: with O on the
  top row and X on cells 3 and 4 (reachable after a rematch that O opens),
  X completing the middle row turns an O win into an X win
  (`Board.WinnerCanChange`). The model reproduces this as the code does.
- A refused move returns plain `false`; no reason is given.

## Model

| member | source | states |
|---|---|---|
| `Board.MarkFor` | src/TicTacToeServer.java:220 | A player number gets the X mark exactly when it is PLAYER_X (0), and the O mark otherwise. |
| `Board.HasLineIsThreeInARow` | src/TicTacToeServer.java:158-177 | The eight spelled-out line checks (three rows, three columns, two diagonals) hold exactly when the grid has three of the mark in some row, column or diagonal, both directions. |
| `Board.AllNonZeroIsFull` | src/TicTacToeServer.java:182-189 | The draw test, "every cell of every line differs from 0", holds exactly when all nine cells are non-empty. |
| `Board.EvaluateMeaning` | src/TicTacToeServer.java:155-196 | The verdict is an X win exactly when X has a line; an O win exactly when O has one and X does not; a draw exactly when there is no line and no empty cell; and in progress exactly when there is no line and some empty cell. |
| `Board.WinBeforeDraw` | src/TicTacToeServer.java:158-195 | A full board that completes a line is reported as a win, never as a draw, and as X's win when the line is X's. |
| `Board.DrawIsFull` | src/TicTacToeServer.java:182-192 | A board judged a draw has no empty cell. |
| `Board.PlaceMark` | src/TicTacToeServer.java:122-125 | Marking an empty cell keeps the board well formed and leaves the other eight cells untouched. The number of empty cells drops by one, the mover's mark count rises by one, and the other mark's count stays the same. |
| `Board.TurnParity` | src/TicTacToeServer.java:125-128 | Under strict alternation, the number of marks on the board is odd exactly when the turn is not the opener's. |
| `Board.EmptyBoardFacts` | src/TicTacToeServer.java:29-31 | A fresh board is well formed, holds no mark and nine empty cells, and is in progress. |
| `Board.GameOverStays` | src/TicTacToeServer.java:121-128 | Marking an empty cell of a finished board leaves it finished: a line is kept, and a drawn board has no empty cell. |
| `Board.WinnerCanChange` | src/TicTacToeServer.java:158-177 | The well-formed board O O O / X X _ / _ _ _ is an O win, and becomes an X win when X plays cell 5, since X lines are checked first. |
| `Board.DrawExample` | src/TicTacToeServer.java:182-193 | The board X O X / O X O / O X O is a draw. |
| `Protocol.ParseInt` | src/TicTacToeServer.java:308 | Accepted text is an optional '+' or '-' followed by one or more digits and nothing else. Its value is the signed decimal value of those digits and fits in 32 bits, so any other text is refused. |
| `Protocol.ParseIntAccepts` | src/TicTacToeServer.java:308 | Conversely, an optional sign followed by one or more digits, leading zeros allowed, is accepted with its signed decimal value whenever that value fits in 32 bits. |
| `Protocol.ParseIntExamples` | src/TicTacToeServer.java:308 | "+5" and "05" read as 5; "5a" and a lone "-" are refused. |
| `Protocol.Classify` | src/TicTacToeServer.java:305-308 | A message is a rematch request exactly when it equals "new game" ignoring case. It fails on the substring exactly when it is not a rematch request and is shorter than two characters. Otherwise it is a move exactly when the text from index 2 parses, to that location, and fails on the number exactly when that text does not parse. |
| `Protocol.DecimalRoundTrip` | src/TicTacToeServer.java:308 | The decimal rendering of any natural number reads back as that number. |
| `Protocol.ParseIntRoundTrip` | src/TicTacToeServer.java:308 | Every 32-bit integer written in decimal, with a leading '-' when negative, parses back to itself. |
| `Protocol.MoveMessageRoundTrip` | src/TicTacToeServer.java:305-308 | Any two characters followed by a location in decimal are classified as a move to that location, never as a rematch request. |
| `Protocol.NewGameAnyCase` | src/TicTacToeServer.java:305 | Every upper- or lower-case spelling of "new game" is a rematch request. |
| `Server.TicTacToeServer.constructor` | src/TicTacToeServer.java:29-31 | A new server has nine empty cells, X to move and no draw, and satisfies the invariant. |
| `Server.TicTacToeServer.IsOccupied` | src/TicTacToeServer.java:146-152 | A cell is occupied exactly when it is not empty. It is a function, so it changes no state. |
| `Server.TicTacToeServer.IsGameOver` | src/TicTacToeServer.java:155-196 | The result is true exactly when the verdict is not "in progress". The draw flag afterwards is its old value or'ed with "the verdict is a draw". Nothing else changes, and the invariant is kept. |
| `Server.TicTacToeServer.ValidateAndMove` | src/TicTacToeServer.java:121-141 | A move by the current player is accepted exactly when the cell was empty. It then places the mover's mark at that location only, flips the cursor to `(old+1)%2`, runs the game-over check for the opponent's notice, and reports "opponent moved" or "game over" accordingly; a move onto a finished board is always answered "game over". A refused move changes nothing. The invariant, including strict alternation, is kept. |
| `Server.TicTacToeServer.ClearBoard` | src/TicTacToeServer.java:331 | After the fill, every cell is empty. |
| `Server.TicTacToeServer.StartNewGame` | src/TicTacToeServer.java:329-333 | The rematch reset empties all nine cells, clears the draw flag and flips the cursor. The new opener is the old opener when the old board held an odd number of marks, and the other player otherwise. |
| `Server.TicTacToeServer.HandleMessage` | src/TicTacToeServer.java:303-317 | One pass of the move loop. A rematch request, a malformed message or an off-board location changes nothing and is answered accordingly. A move is answered "valid" exactly when its cell was empty, with the effect of `ValidateAndMove`. |
| `Server.TopRowBoards` | src/TicTacToeServer.java:158-165 | The boards after moves 0, 3, 1, 4 are in progress, and after move 2 X has won. |
| `Server.TopRowGame` | src/TicTacToeServer.java:121-136 | Moves 0, 3, 1, 4, 2 are all accepted. The first four are relayed as opponent moves, the fifth as game over, and the game is over. |
| `Server.TopRowFinish` | src/TicTacToeServer.java:121-136 | From X at 0 and O at 3, moves 1, 4, 2 are accepted and the last ends the game. |
| `Server.OccupiedCellGame` | src/TicTacToeServer.java:122-141 | After X takes cell 4, O's move to cell 4 is refused, and it is still O's turn. |
| `Server.RematchGame` | src/TicTacToeServer.java:329-333 | A reset after X's first move empties the board and clears the draw flag, and X opens again. |

## Left out

- Thread coordination is not modelled: the `wait`/`notify` loop in `validateAndMove`, the suspension of player X until O connects, and `execute`'s wake-up. `ValidateAndMove` instead requires `player == currentPlayer`, which is the condition the wait loop exits on.
- Socket and stream I/O is not modelled: the server socket, `accept`, the data streams and every `writeUTF`/`writeChar`/`readUTF`. The text a player is sent after an opponent's move becomes the returned `Notice`, and the reply to a move becomes the returned `Reply`.
- The Swing window, `displayMessage`, logging, `println` and the `System.exit` error paths are not modelled. They do not affect the game state.
- The handshake messages of `playGame` (the mark, the welcome text, "Other player connected") are output only.
- The winner and draw messages after the loop are output only. As written, they name the receiving player's own mark whoever won.
- The `while (!isGameOver())` loop and the recursive re-entry of `playGame` are not modelled as such. Only one pass of the loop (`HandleMessage`) and the reset's state effect (`StartNewGame`) are. Between two passes of one session, the other session's thread moves, so a single-session loop cannot be stated without the interleaving.
- Which session performs the reset, and what happens to the other session's loop, are concurrency questions and are not modelled.
- `Server.TicTacToeServer.StartNewGame` is atomic in the model. In the code the reset runs outside any `synchronized` block, so the other session's `validateAndMove` can interleave with it, for example a move landing between the fill and the cursor flip. That lets one player move twice in a row and breaks the alternation `Valid()` states; the model does not capture that interleaving.
- What happens after a session crashes on a malformed message or an off-board location is not modelled. `HandleMessage` only reports the crash and leaves the state as it was.
- `Protocol.EqualsIgnoreCase` folds ASCII letters only. Java's `equalsIgnoreCase` also applies Unicode case mappings to non-ASCII characters.
- `Protocol.ParseInt` accepts ASCII digits only. Java's `Integer.parseInt` also accepts other Unicode decimal digits.
- `main` and `execute` (accepting the two connections and creating the `Player` threads) are process set-up and are not modelled.
- No nine-move drawn game is played through the class; the scenarios through the class cover a win, a refused move and a rematch. The draw on a full board without a line is stated at board level by `Board.DrawExample` and `Board.EvaluateMeaning`.
- `Protocol.Classify`: it indexes Unicode characters, not UTF-16 code units as `substring(2)` does, so a message whose first two characters include a supplementary character (one that takes two code units) is classified differently, and a lone surrogate, which `readUTF` can deliver, cannot be represented.
