/** The game state the server shares between its two player sessions: the
    nine-cell board, the turn cursor and the draw flag, with the operations
    the sessions call on it. */
module Server {
  import opened Board
  import opened Protocol

  /** What the player whose turn it now is gets told after an accepted move:
      the location of the opponent's move, or that the game is over. */
  datatype Notice = NoNotice | OpponentMoved(location: int) | GameOver

  /** Why handling a message ends the session: the message cannot be read as
      a location, or the location lies outside the board. */
  datatype Crash = BadMessage(fault: Fault) | IndexOutOfBounds

  /** The session's answer to one message of its participant. */
  datatype Reply = ValidMove | InvalidMove | RematchRequested | Crashed(reason: Crash)

  class TicTacToeServer {
    var board: array<char>
    /** Whose move is accepted next: PLAYER_X or PLAYER_O. */
    var currentPlayer: int
    /** Set once the game-over check has found a full board without a line. */
    var draw: bool
    /** The player who opened the current game. */
    ghost var opener: int

    /** The invariant: a well-formed board; the turn cursor names a player;
        turns alternate, so the opener has played as many marks as the other
        player when it is the opener's turn and one more otherwise; and a set
        draw flag describes the board. */
    ghost predicate Valid()
      reads this, board
    {
      board.Length == SIZE &&
      WellFormed(board[..]) &&
      IsPlayer(currentPlayer) &&
      IsPlayer(opener) &&
      Count(board[..], MarkFor(opener)) ==
        Count(board[..], MarkFor(1 - opener)) + (if currentPlayer == opener then 0 else 1) &&
      (draw ==> Evaluate(board[..]) == Draw)
    }

    /** A new server: an empty board, X to move, no draw. */
    constructor ()
      ensures Valid() && fresh(board)
      ensures board[..] == EmptyBoard
      ensures currentPlayer == PLAYER_X && !draw
    {
      board := new char[SIZE](_ => EMPTY);
      currentPlayer := PLAYER_X;
      draw := false;
      opener := PLAYER_X;
      new;
      assert board[..] == EmptyBoard;
      EmptyBoardFacts();
    }

    /** A cell is occupied exactly when it is not empty. */
    function IsOccupied(location: int): (occupied: bool)
      reads this, board
      requires Valid() && 0 <= location < SIZE
      ensures occupied <==> board[location] != EMPTY
    {
      board[location] == X_MARK || board[location] == O_MARK
    }

    /** The game-over check: true on a line of either mark or a draw. A draw
        also sets the draw flag; the flag is never cleared here. */
    method IsGameOver() returns (over: bool)
      requires Valid()
      modifies this`draw
      ensures Valid()
      ensures over <==> Evaluate(board[..]) != InProgress
      ensures draw <==> old(draw) || Evaluate(board[..]) == Draw
    {
      if HasLine(board[..], X_MARK) {
        over := true;
      } else if HasLine(board[..], O_MARK) {
        over := true;
      } else if AllNonZero(board[..]) {
        draw := true;
        over := true;
      } else {
        over := false;
      }
    }

    /** A move by the player whose turn it is. An empty cell receives the
        mover's mark, the turn passes to the other player, and the other
        player's notice is composed, which runs the game-over check. An
        occupied cell is refused and nothing changes. */
    method ValidateAndMove(location: int, player: int) returns (valid: bool, notice: Notice)
      requires Valid() && 0 <= location < SIZE && player == currentPlayer
      modifies board, this`currentPlayer, this`draw
      ensures Valid()
      ensures valid <==> old(board[location]) == EMPTY
      ensures valid ==>
        && board[..] == old(board[..])[location := MarkFor(player)]
        && currentPlayer == (old(currentPlayer) + 1) % 2
        && draw == (old(draw) || Evaluate(board[..]) == Draw)
        && notice == (if Evaluate(board[..]) == InProgress then OpponentMoved(location) else GameOver)
      ensures valid && old(Evaluate(board[..])) != InProgress ==> notice == GameOver
      ensures !valid ==>
        && board[..] == old(board[..])
        && currentPlayer == old(currentPlayer)
        && draw == old(draw)
        && notice == NoNotice
    {
      if !IsOccupied(location) {
        ghost var before := board[..];
        board[location] := MarkFor(currentPlayer);
        currentPlayer := (currentPlayer + 1) % 2;
        PlaceMark(before, location, MarkFor(player));
        assert board[..] == before[location := MarkFor(player)];
        if draw {
          DrawIsFull(before, location);
        }
        if Evaluate(before) != InProgress {
          GameOverStays(before, location, MarkFor(player));
        }
        var over := IsGameOver();
        notice := if over then GameOver else OpponentMoved(location);
        valid := true;
      } else {
        valid := false;
        notice := NoNotice;
      }
    }

    /** Arrays.fill(board, '\u0000'): every cell becomes empty. */
    method ClearBoard()
      requires board.Length == SIZE
      modifies board
      ensures board[..] == EmptyBoard
    {
      var i := 0;
      while i < board.Length
        invariant 0 <= i <= board.Length
        invariant forall k :: 0 <= k < i ==> board[k] == EMPTY
      {
        board[i] := EMPTY;
        i := i + 1;
      }
      assert board[..] == EmptyBoard;
    }

    /** The rematch reset: every cell is cleared, the draw flag is dropped and
        the turn cursor flips. The player who did not hold the turn opens the
        next game: the previous opener again when an odd number of marks had
        been placed (a win by the opener, a draw), the other player otherwise. */
    method StartNewGame()
      requires Valid()
      modifies board, this`draw, this`currentPlayer, this`opener
      ensures Valid()
      ensures board[..] == EmptyBoard
      ensures !draw
      ensures currentPlayer == (old(currentPlayer) + 1) % 2
      ensures opener == currentPlayer
      ensures currentPlayer ==
        if (SIZE - Count(old(board[..]), EMPTY)) % 2 == 1 then old(opener) else 1 - old(opener)
    {
      TurnParity(board[..], opener, currentPlayer);
      ClearBoard();
      draw := false;
      currentPlayer := (currentPlayer + 1) % 2;
      opener := currentPlayer;
      EmptyBoardFacts();
    }

    /** One pass of a session's move loop: a rematch request ends the loop; a
        move is handed to ValidateAndMove; a message that cannot be read as a
        location, or a location off the board, ends the session and leaves the
        game as it was. */
    method HandleMessage(message: string, player: int) returns (reply: Reply, notice: Notice)
      requires Valid() && IsPlayer(player)
      requires Classify(message).Move? ==> player == currentPlayer
      modifies board, this`currentPlayer, this`draw
      ensures Valid()
      ensures Classify(message) == NewGame ==> reply == RematchRequested
      ensures Classify(message).Malformed? ==> reply == Crashed(BadMessage(Classify(message).fault))
      ensures Classify(message).Move? && !(0 <= Classify(message).location < SIZE) ==>
        reply == Crashed(IndexOutOfBounds)
      ensures Classify(message).Move? && 0 <= Classify(message).location < SIZE ==>
        reply == (if old(board[Classify(message).location]) == EMPTY then ValidMove else InvalidMove)
      ensures reply == ValidMove ==>
        && Classify(message).Move?
        && board[..] == old(board[..])[Classify(message).location := MarkFor(player)]
        && currentPlayer == (old(currentPlayer) + 1) % 2
        && draw == (old(draw) || Evaluate(board[..]) == Draw)
        && notice == (if Evaluate(board[..]) == InProgress then OpponentMoved(Classify(message).location) else GameOver)
      ensures reply != ValidMove ==>
        && board[..] == old(board[..])
        && currentPlayer == old(currentPlayer)
        && draw == old(draw)
        && notice == NoNotice
    {
      match Classify(message)
      case NewGame =>
        reply, notice := RematchRequested, NoNotice;
      case Malformed(fault) =>
        reply, notice := Crashed(BadMessage(fault)), NoNotice;
      case Move(location) =>
        if 0 <= location < SIZE {
          var valid;
          valid, notice := ValidateAndMove(location, player);
          reply := if valid then ValidMove else InvalidMove;
        } else {
          reply, notice := Crashed(IndexOutOfBounds), NoNotice;
        }
    }
  }

  // -----------------------------------------------------------------------
  // Whole games played through the server's operations.

  /** The boards of TopRowGame, move by move. */
  lemma TopRowBoards()
    ensures Evaluate(EmptyBoard[0 := 'X']) == InProgress
    ensures Evaluate(EmptyBoard[0 := 'X'][3 := 'O']) == InProgress
    ensures Evaluate(EmptyBoard[0 := 'X'][3 := 'O'][1 := 'X']) == InProgress
    ensures Evaluate(EmptyBoard[0 := 'X'][3 := 'O'][1 := 'X'][4 := 'O']) == InProgress
    ensures Evaluate(EmptyBoard[0 := 'X'][3 := 'O'][1 := 'X'][4 := 'O'][2 := 'X']) == XWins
  {
  }

  /** X plays 0, 1, 2 and O plays 3, 4 in between: the first four moves are
      relayed to the opponent and the fifth ends the game with X's top row. */
  method TopRowGame() returns (accepted: seq<bool>, notices: seq<Notice>, over: bool)
    ensures accepted == [true, true, true, true, true]
    ensures notices == [OpponentMoved(0), OpponentMoved(3), OpponentMoved(1), OpponentMoved(4), GameOver]
    ensures over
  {
    TopRowBoards();
    var game := new TicTacToeServer();
    var ok1, n1 := game.ValidateAndMove(0, PLAYER_X);
    var ok2, n2 := game.ValidateAndMove(3, PLAYER_O);
    var rest, restNotices;
    rest, restNotices, over := TopRowFinish(game);
    accepted := [ok1, ok2] + rest;
    notices := [n1, n2] + restNotices;
  }

  /** The last three moves of TopRowGame. */
  method TopRowFinish(game: TicTacToeServer) returns (accepted: seq<bool>, notices: seq<Notice>, over: bool)
    requires game.Valid() && game.currentPlayer == PLAYER_X
    requires game.board[..] == EmptyBoard[0 := 'X'][3 := 'O']
    modifies game.board, game`currentPlayer, game`draw
    ensures accepted == [true, true, true]
    ensures notices == [OpponentMoved(1), OpponentMoved(4), GameOver]
    ensures over
  {
    TopRowBoards();
    var ok3, n3 := game.ValidateAndMove(1, PLAYER_X);
    var ok4, n4 := game.ValidateAndMove(4, PLAYER_O);
    var ok5, n5 := game.ValidateAndMove(2, PLAYER_X);
    accepted := [ok3, ok4, ok5];
    notices := [n3, n4, n5];
    over := game.IsGameOver();
  }

  /** X takes the centre, then O tries the same cell: the move is refused and
      it is still O's turn. */
  method OccupiedCellGame() returns (first: bool, second: bool, turn: int)
    ensures first && !second
    ensures turn == PLAYER_O
  {
    var game := new TicTacToeServer();
    var n;
    first, n := game.ValidateAndMove(4, PLAYER_X);
    second, n := game.ValidateAndMove(4, PLAYER_O);
    turn := game.currentPlayer;
  }

  /** After X's first move a rematch is requested: the board is empty again
      and the draw flag clear, and since the reset flips the cursor back, X
      opens the new game as well. */
  method RematchGame() returns (cells: seq<char>, turn: int, drawn: bool)
    ensures cells == EmptyBoard
    ensures turn == PLAYER_X && !drawn
  {
    var game := new TicTacToeServer();
    var ok, n := game.ValidateAndMove(4, PLAYER_X);
    game.StartNewGame();
    cells, turn, drawn := game.board[..], game.currentPlayer, game.draw;
  }
}
