/**
 * The exhaustive minimax player: it tries every empty cell by writing a
 * symbol into the board, searching, and writing `None` back, so the board
 * is the same after every call as before it.
 */
module TicTacToeMinimax {
  import opened Options
  import opened TicTacToeBoard
  import opened TicTacToeGameTree

  class Minimax {
    const player: Player

    constructor (player: Player)
      ensures this.player == player
    {
      this.player := player;
    }

    /** The first empty cell in row-major order with the highest score, `None` on a full board. */
    method GetBestMove(board: Board) returns (bestMove: Option<Coord>)
      requires Shaped(board.board)
      modifies board
      ensures board.board == old(board.board)
      ensures bestMove == BestMove(old(board.board), player)
    {
      ghost var b0 := board.board;
      var bestScore := NegInf;
      bestMove := None;
      for row := 0 to 3
        invariant board.board == b0
        invariant RootScan(b0, player, row, 0, bestScore, bestMove) == BestMove(b0, player)
      {
        for col := 0 to 3
          invariant board.board == b0
          invariant RootScan(b0, player, row, col, bestScore, bestMove) == BestMove(b0, player)
        {
          if board.board[row][col] == None {
            board.board := Put(board.board, row, col, Some(player));
            PlaceDecreases(b0, row, col, player);
            var score := Minimax(board, 0, false);
            board.board := Put(board.board, row, col, None);
            PutRestores(b0, row, col, Some(player));
            if score > bestScore {
              bestScore := score;
              bestMove := Some(Coord(row, col));
            }
          }
        }
      }
    }

    /** The minimax value of the board for `player`, with the board restored. */
    method Minimax(board: Board, depth: int, isMaximizing: bool) returns (score: int)
      requires Shaped(board.board)
      modifies board
      ensures board.board == old(board.board)
      ensures score == Value(old(board.board), player, isMaximizing)
      decreases EmptyCount(board.board)
    {
      var humanPlayer := Other(player);
      var winner := Winner(board.board);
      if winner == Some(player) {
        return 1;
      } else if winner == Some(humanPlayer) {
        return -1;
      } else if IsFull(board.board) {
        return 0;
      }
      ghost var b0 := board.board;
      if isMaximizing {
        var bestScore := NegInf;
        for row := 0 to 3
          invariant board.board == b0
          invariant Scan(b0, player, true, row, 0, bestScore) == Value(b0, player, true)
        {
          for col := 0 to 3
            invariant board.board == b0
            invariant Scan(b0, player, true, row, col, bestScore) == Value(b0, player, true)
          {
            if board.board[row][col] == None {
              board.board := Put(board.board, row, col, Some(player));
              PlaceDecreases(b0, row, col, player);
              var s := Minimax(board, depth + 1, false);
              board.board := Put(board.board, row, col, None);
              PutRestores(b0, row, col, Some(player));
              bestScore := Max(s, bestScore);
            }
          }
        }
        return bestScore;
      } else {
        var bestScore := PosInf;
        for row := 0 to 3
          invariant board.board == b0
          invariant Scan(b0, player, false, row, 0, bestScore) == Value(b0, player, false)
        {
          for col := 0 to 3
            invariant board.board == b0
            invariant Scan(b0, player, false, row, col, bestScore) == Value(b0, player, false)
          {
            if board.board[row][col] == None {
              board.board := Put(board.board, row, col, Some(humanPlayer));
              PlaceDecreases(b0, row, col, humanPlayer);
              var s := Minimax(board, depth + 1, true);
              board.board := Put(board.board, row, col, None);
              PutRestores(b0, row, col, Some(humanPlayer));
              bestScore := Min(s, bestScore);
            }
          }
        }
        return bestScore;
      }
    }
  }
}
