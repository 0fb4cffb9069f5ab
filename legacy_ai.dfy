/**
 * The module-level search functions: the same minimax as the `Minimax`
 * class with the AI's symbol passed as an argument instead of stored.
 */
module TicTacToeLegacyAI {
  import opened Options
  import opened TicTacToeBoard
  import opened TicTacToeGameTree

  /** The first empty cell in row-major order with the highest score, `None` on a full board. */
  method GetBestMove(board: Board, player: Player) returns (bestMove: Option<Coord>)
    requires Shaped(board.board)
    modifies board
    ensures board.board == old(board.board)
    ensures bestMove == BestMove(old(board.board), player)
  {
    ghost var b0 := board.board;
    var bestScore := NegInf;
    bestMove := None;
    for row := 0 to 3
      invariant board.board == b0
      invariant RootScan(b0, player, row, 0, bestScore, bestMove) == BestMove(b0, player)
    {
      for col := 0 to 3
        invariant board.board == b0
        invariant RootScan(b0, player, row, col, bestScore, bestMove) == BestMove(b0, player)
      {
        if board.board[row][col] == None {
          board.board := Put(board.board, row, col, Some(player));
          PlaceDecreases(b0, row, col, player);
          var score := Minimax(board, 0, false, player);
          board.board := Put(board.board, row, col, None);
          PutRestores(b0, row, col, Some(player));
          if score > bestScore {
            bestScore := score;
            bestMove := Some(Coord(row, col));
          }
        }
      }
    }
  }

  /** The minimax value of the board for `aiPlayer`, with the board restored. */
  method Minimax(board: Board, depth: int, isMaximizing: bool, aiPlayer: Player) returns (score: int)
    requires Shaped(board.board)
    modifies board
    ensures board.board == old(board.board)
    ensures score == Value(old(board.board), aiPlayer, isMaximizing)
    decreases EmptyCount(board.board)
  {
    var humanPlayer := Other(aiPlayer);
    var winner := Winner(board.board);
    if winner == Some(aiPlayer) {
      return 1;
    } else if winner == Some(humanPlayer) {
      return -1;
    } else if IsFull(board.board) {
      return 0;
    }
    ghost var b0 := board.board;
    if isMaximizing {
      var bestScore := NegInf;
      for row := 0 to 3
        invariant board.board == b0
        invariant Scan(b0, aiPlayer, true, row, 0, bestScore) == Value(b0, aiPlayer, true)
      {
        for col := 0 to 3
          invariant board.board == b0
          invariant Scan(b0, aiPlayer, true, row, col, bestScore) == Value(b0, aiPlayer, true)
        {
          if board.board[row][col] == None {
            board.board := Put(board.board, row, col, Some(aiPlayer));
            PlaceDecreases(b0, row, col, aiPlayer);
            var s := Minimax(board, depth + 1, false, aiPlayer);
            board.board := Put(board.board, row, col, None);
            PutRestores(b0, row, col, Some(aiPlayer));
            bestScore := Max(s, bestScore);
          }
        }
      }
      return bestScore;
    } else {
      var bestScore := PosInf;
      for row := 0 to 3
        invariant board.board == b0
        invariant Scan(b0, aiPlayer, false, row, 0, bestScore) == Value(b0, aiPlayer, false)
      {
        for col := 0 to 3
          invariant board.board == b0
          invariant Scan(b0, aiPlayer, false, row, col, bestScore) == Value(b0, aiPlayer, false)
        {
          if board.board[row][col] == None {
            board.board := Put(board.board, row, col, Some(humanPlayer));
            PlaceDecreases(b0, row, col, humanPlayer);
            var s := Minimax(board, depth + 1, true, aiPlayer);
            board.board := Put(board.board, row, col, None);
            PutRestores(b0, row, col, Some(humanPlayer));
            bestScore := Min(s, bestScore);
          }
        }
      }
      return bestScore;
    }
  }
}
