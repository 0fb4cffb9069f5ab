/**
 * The tic-tac-toe game loop's logic: whose turn it is, whether the game is
 * over and who won, a human move per mouse click while it is X's turn, and
 * an alpha-beta move for O after the events of a frame. Pixel positions
 * arrive with the click; polling and drawing are not modelled.
 */
module TicTacToeGame {
  import opened Options
  import opened TicTacToeBoard
  import opened TicTacToeGameTree
  import opened TicTacToeAI

  const WindowSize := 600
  const CellSize := WindowSize / BoardSize

  /** The events the loop distinguishes; `MouseDown` carries the mouse position at that moment. */
  datatype Event = Quit | MouseDown(x: int, y: int) | Ignored

  /** The game's fields as a value. */
  datatype State = State(board: Rows, current: Player, over: bool, winner: Cell)

  function InitialState(): State {
    State(EmptyBoard(), X, false, None)
  }

  /** `check_game_over`: once over, a game stays over. */
  function GameOverChecked(s: State): (r: State)
    requires Shaped(s.board)
    ensures r.board == s.board && r.current == s.current && r.winner == Winner(s.board)
    ensures r.over <==> s.over || Winner(s.board).Some? || IsFull(s.board)
  {
    var w := Winner(s.board);
    State(s.board, s.current, if w.Some? || IsFull(s.board) then true else s.over, w)
  }

  /**
   * `make_move` for the player to move; on success `check_game_over` and then
   * `switch_player` (`PLAYER_O if current == PLAYER_X else PLAYER_X`, which is
   * `Other`) run, on failure nothing changes.
   */
  function Played(s: State, row: int, col: int): (r: State)
    requires Shaped(s.board)
    ensures Shaped(r.board)
  {
    if InRange(row, col) && s.board[row][col] == None then
      var checked := GameOverChecked(s.(board := Put(s.board, row, col, Some(s.current))));
      checked.(current := Other(checked.current))
    else s
  }

  /** `switch_player` toggles: switching twice gives the player back. */
  lemma SwitchTwiceIsIdentity(p: Player)
    ensures Other(p) != p && Other(Other(p)) == p
  {
  }

  /** The result of the event loop: `exit` is the value returned early, if any. */
  datatype Outcome = Outcome(exit: Option<bool>, state: State)

  /** The `for event in events` loop of `handle_events`. */
  function Events(s: State, events: seq<Event>): (r: Outcome)
    requires Shaped(s.board)
    ensures Shaped(r.state.board)
    decreases |events|
  {
    if |events| == 0 then Outcome(None, s)
    else match events[0]
      case Quit => Outcome(Some(false), s)
      case MouseDown(x, y) =>
        if s.over then Outcome(Some(true), InitialState())
        else if s.current == X then Events(Played(s, y / CellSize, x / CellSize), events[1..])
        else Events(s, events[1..])
      case Ignored => Events(s, events[1..])
  }

  /** After the events: the AI (O) moves with alpha-beta if the game goes on and it is O's turn. */
  function AITurn(s: State): State
    requires Shaped(s.board)
  {
    if !s.over && s.current == O then
      match BestMove(s.board, O)
      case Some(m) => Played(s, m.row, m.col)
      case None => s
    else s
  }

  /** `handle_events`: whether the game keeps running, and the state after the frame. */
  function HandleEventsResult(s: State, events: seq<Event>): Outcome
    requires Shaped(s.board)
  {
    var o := Events(s, events);
    if o.exit.Some? then o else Outcome(Some(true), AITurn(o.state))
  }

  // ----- the invariant of a game -----

  function MarksInRow(row: seq<Cell>, p: Player): nat
    requires |row| == BoardSize
  {
    (if row[0] == Some(p) then 1 else 0) + (if row[1] == Some(p) then 1 else 0) + (if row[2] == Some(p) then 1 else 0)
  }

  /** The number of cells holding `p`. */
  function Marks(b: Rows, p: Player): nat
    requires Shaped(b)
  {
    MarksInRow(b[0], p) + MarksInRow(b[1], p) + MarksInRow(b[2], p)
  }

  lemma PlaceMarks(b: Rows, row: int, col: int, p: Player)
    requires Shaped(b) && InRange(row, col) && b[row][col] == None
    ensures Marks(Put(b, row, col, Some(p)), p) == Marks(b, p) + 1
    ensures Marks(Put(b, row, col, Some(p)), Other(p)) == Marks(b, Other(p))
  {
    var r := Put(b, row, col, Some(p));
    if row == 0 {
      assert r[1] == b[1] && r[2] == b[2];
    } else if row == 1 {
      assert r[0] == b[0] && r[2] == b[2];
    } else {
      assert r[0] == b[0] && r[1] == b[1];
    }
  }

  /**
   * What holds between frames: the winner field is the board's winner, the
   * game is over exactly when someone has won or the board is full, and X
   * (who starts) has made exactly as many moves as O, plus one while O is to
   * move.
   */
  predicate Consistent(s: State) {
    Shaped(s.board) &&
    s.winner == Winner(s.board) &&
    (s.over <==> s.winner.Some? || IsFull(s.board)) &&
    Marks(s.board, X) == Marks(s.board, O) + (if s.current == O then 1 else 0)
  }

  lemma InitialConsistent()
    ensures Consistent(InitialState())
  {
    var b := EmptyBoard();
    assert !IsFull(b) by {
      assert b[0][0] == None;
    }
  }

  /** A move made while the game goes on keeps the state consistent. */
  lemma PlayedConsistent(s: State, row: int, col: int)
    requires Consistent(s) && !s.over
    ensures Consistent(Played(s, row, col))
  {
    if InRange(row, col) && s.board[row][col] == None {
      PlaceMarks(s.board, row, col, s.current);
    }
  }

  /** A click outside the board or on an occupied cell changes nothing, turn included. */
  lemma FailedMoveChangesNothing(s: State, row: int, col: int)
    requires Shaped(s.board) && !(InRange(row, col) && s.board[row][col] == None)
    ensures Played(s, row, col) == s
  {
  }

  /** A successful move places the mover's symbol and then hands the turn over. */
  lemma SuccessfulMoveSwitches(s: State, row: int, col: int)
    requires Shaped(s.board) && InRange(row, col) && s.board[row][col] == None
    ensures Played(s, row, col).board == Put(s.board, row, col, Some(s.current))
    ensures Played(s, row, col).current == Other(s.current)
    ensures Played(s, row, col).winner == Winner(Played(s, row, col).board)
  {
  }

  lemma {:induction false} EventsConsistent(s: State, events: seq<Event>)
    requires Consistent(s)
    ensures Consistent(Events(s, events).state)
    decreases |events|
  {
    if |events| > 0 {
      match events[0]
      case Quit =>
      case MouseDown(x, y) =>
        if s.over {
          InitialConsistent();
        } else if s.current == X {
          PlayedConsistent(s, y / CellSize, x / CellSize);
          EventsConsistent(Played(s, y / CellSize, x / CellSize), events[1..]);
        } else {
          EventsConsistent(s, events[1..]);
        }
      case Ignored =>
        EventsConsistent(s, events[1..]);
    }
  }

  /**
   * When it is O's turn in a game that goes on, the board has an empty cell,
   * so the alpha-beta search returns a move (the source would fail to unpack
   * `None`), and that move is legal.
   */
  lemma AIAlwaysMoves(s: State)
    requires Consistent(s) && !s.over && s.current == O
    ensures BestMove(s.board, O).Some?
    ensures Open(s.board, BestMove(s.board, O).value.row, BestMove(s.board, O).value.col)
  {
    BestMoveIsFirstBest(s.board, O);
  }

  /** Every frame keeps the game consistent. */
  lemma HandleEventsConsistent(s: State, events: seq<Event>)
    requires Consistent(s)
    ensures Consistent(HandleEventsResult(s, events).state)
  {
    EventsConsistent(s, events);
    var t := Events(s, events).state;
    if !t.over && t.current == O {
      AIAlwaysMoves(t);
      var m := BestMove(t.board, O).value;
      PlayedConsistent(t, m.row, m.col);
    }
  }

  /** The AI never moves in a finished game or on X's turn. */
  lemma AIWaitsItsTurn(s: State)
    requires Shaped(s.board) && (s.over || s.current == X)
    ensures AITurn(s) == s
  {
  }

  /** A click while it is O's turn in a running game is ignored. */
  lemma ClickOutOfTurnIgnored(s: State, x: int, y: int, rest: seq<Event>)
    requires Shaped(s.board) && !s.over && s.current == O
    ensures Events(s, [MouseDown(x, y)] + rest) == Events(s, rest)
  {
    assert ([MouseDown(x, y)] + rest)[1..] == rest;
  }

  /** A click in a finished game restarts it, and the frame ends there. */
  lemma ClickAfterGameOverRestarts(s: State, x: int, y: int, rest: seq<Event>)
    requires Shaped(s.board) && s.over
    ensures HandleEventsResult(s, [MouseDown(x, y)] + rest) == Outcome(Some(true), InitialState())
  {
  }

  class Game {
    var board: Board
    var ai: AI
    var currentPlayer: Player
    var isGameOver: bool
    var winner: Cell

    ghost predicate Valid()
      reads this, board
    {
      Shaped(board.board) && ai.symbol == O && ai.Valid()
    }

    function Snapshot(): State
      reads this, board
    {
      State(board.board, currentPlayer, isGameOver, winner)
    }

    constructor ()
      ensures Valid() && Snapshot() == InitialState() && fresh(board)
      ensures Consistent(Snapshot())
    {
      InitialConsistent();
      board := new Board();
      ai := new AI(O);
      currentPlayer := X;
      isGameOver := false;
      winner := None;
    }

    /** `self.__init__()` on a running game: a fresh board, a fresh AI, X to move. */
    method Reset()
      modifies this
      ensures Valid() && Snapshot() == InitialState() && fresh(board)
      ensures Consistent(Snapshot())
    {
      InitialConsistent();
      board := new Board();
      ai := new AI(O);
      currentPlayer := X;
      isGameOver := false;
      winner := None;
    }

    method MakeMove(row: int, col: int) returns (ok: bool)
      requires Valid()
      modifies board
      ensures Valid()
      ensures ok <==> InRange(row, col) && old(board.board)[row][col] == None
      ensures board.board == if ok then Put(old(board.board), row, col, Some(currentPlayer)) else old(board.board)
    {
      ok := board.Update(row, col, currentPlayer);
    }

    method SwitchPlayer()
      modifies this
      ensures currentPlayer == Other(old(currentPlayer))
      ensures board == old(board) && ai == old(ai) && isGameOver == old(isGameOver) && winner == old(winner)
    {
      currentPlayer := if currentPlayer == X then O else X;
    }

    method CheckGameOver()
      requires Valid()
      modifies this
      ensures board == old(board) && ai == old(ai) && currentPlayer == old(currentPlayer)
      ensures Snapshot() == GameOverChecked(old(Snapshot()))
    {
      winner := Winner(board.board);
      if winner.Some? || IsFull(board.board) {
        isGameOver := true;
      }
    }

    /** A move followed, when it took, by the game-over check and the change of turn. */
    method Play(row: int, col: int)
      requires Valid()
      modifies this, board
      ensures Valid() && board == old(board) && ai == old(ai)
      ensures Snapshot() == Played(old(Snapshot()), row, col)
    {
      var ok := MakeMove(row, col);
      if ok {
        CheckGameOver();
        SwitchPlayer();
      }
    }

    /** One frame: the events in order, then possibly the AI's move. */
    method HandleEvents(events: seq<Event>) returns (running: bool)
      requires Valid()
      modifies this, board
      ensures Valid()
      ensures Outcome(Some(running), Snapshot()) == HandleEventsResult(old(Snapshot()), events)
      ensures Consistent(old(Snapshot())) ==> Consistent(Snapshot())
    {
      ghost var s0 := Snapshot();
      if Consistent(s0) {
        HandleEventsConsistent(s0, events);
      }
      for i := 0 to |events|
        invariant Valid() && board == old(board)
        invariant Events(s0, events) == Events(Snapshot(), events[i..])
      {
        assert events[i..][1..] == events[i + 1..];
        match events[i]
        case Quit =>
          return false;
        case MouseDown(x, y) =>
          if isGameOver {
            Reset();
            return true;
          }
          if currentPlayer == X {
            Play(y / CellSize, x / CellSize);
          }
        case Ignored =>
      }
      assert events[|events|..] == [];
      if !isGameOver && currentPlayer == O {
        var move := ai.UseAlphaBeta(board);
        match move
        case Some(m) =>
          Play(m.row, m.col);
        case None =>
      }
      return true;
    }
  }
}
