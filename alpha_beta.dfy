/**
 * The alpha-beta player: the same place-search-undo walk as minimax, with a
 * window `(alpha, beta)` narrowed as scores come in and a `break` out of the
 * column loop once the window closes.
 */
module TicTacToeAlphaBeta {
  import opened Options
  import opened TicTacToeBoard
  import opened TicTacToeGameTree

  class AlphaBeta {
    const player: Player

    constructor (player: Player)
      ensures this.player == player
    {
      this.player := player;
    }

    /**
     * The root loop never narrows its window `(-inf, inf)`, so every empty
     * cell is scored exactly; the move is the one plain minimax picks.
     */
    method GetBestMove(board: Board) returns (bestMove: Option<Coord>)
      requires Shaped(board.board)
      modifies board
      ensures board.board == old(board.board)
      ensures bestMove == ABBestMove(old(board.board), player)
      ensures bestMove == BestMove(old(board.board), player)
    {
      ghost var b0 := board.board;
      var bestScore := NegInf;
      bestMove := None;
      var alpha := NegInf;
      var beta := PosInf;
      for row := 0 to 3
        invariant board.board == b0
        invariant ABRootScan(b0, player, row, 0, bestScore, bestMove) == ABBestMove(b0, player)
      {
        for col := 0 to 3
          invariant board.board == b0
          invariant ABRootScan(b0, player, row, col, bestScore, bestMove) == ABBestMove(b0, player)
        {
          if board.board[row][col] == None {
            board.board := Put(board.board, row, col, Some(player));
            PlaceDecreases(b0, row, col, player);
            var score := Minimax(board, 0, false, alpha, beta);
            board.board := Put(board.board, row, col, None);
            PutRestores(b0, row, col, Some(player));
            if score > bestScore {
              bestScore := score;
              bestMove := Some(Coord(row, col));
            }
          }
        }
      }
      ABBestMoveIsBestMove(b0, player);
    }

    /** The alpha-beta value of the board for `player` in the window `(alpha, beta)`, board restored. */
    method Minimax(board: Board, depth: int, isMaximizing: bool, alpha: int, beta: int) returns (score: int)
      requires Shaped(board.board)
      modifies board
      ensures board.board == old(board.board)
      ensures score == ABValue(old(board.board), player, isMaximizing, alpha, beta)
      ensures -1 <= score <= 1
      decreases EmptyCount(board.board)
    {
      ABValueRange(board.board, player, isMaximizing, alpha, beta);
      var humanPlayer := Other(player);
      var winner := Winner(board.board);
      if winner == Some(player) {
        return 1;
      } else if winner == Some(humanPlayer) {
        return -1;
      } else if IsFull(board.board) {
        return 0;
      }
      ghost var b0 := board.board;
      ghost var alpha0, beta0 := alpha, beta;
      var alpha, beta := alpha, beta;
      if isMaximizing {
        var bestScore := NegInf;
        for row := 0 to 3
          invariant board.board == b0
          invariant ABScan(b0, player, true, row, 0, bestScore, alpha, beta) == ABValue(b0, player, true, alpha0, beta0)
        {
          for col := 0 to 3
            invariant board.board == b0
            invariant ABScan(b0, player, true, row, col, bestScore, alpha, beta) == ABValue(b0, player, true, alpha0, beta0)
          {
            if board.board[row][col] == None {
              board.board := Put(board.board, row, col, Some(player));
              PlaceDecreases(b0, row, col, player);
              var s := Minimax(board, depth + 1, false, alpha, beta);
              board.board := Put(board.board, row, col, None);
              PutRestores(b0, row, col, Some(player));
              bestScore := Max(s, bestScore);
              alpha := Max(alpha, s);
              if beta <= alpha {
                break;
              }
            }
          }
        }
        return bestScore;
      } else {
        var bestScore := PosInf;
        for row := 0 to 3
          invariant board.board == b0
          invariant ABScan(b0, player, false, row, 0, bestScore, alpha, beta) == ABValue(b0, player, false, alpha0, beta0)
        {
          for col := 0 to 3
            invariant board.board == b0
            invariant ABScan(b0, player, false, row, col, bestScore, alpha, beta) == ABValue(b0, player, false, alpha0, beta0)
          {
            if board.board[row][col] == None {
              board.board := Put(board.board, row, col, Some(humanPlayer));
              PlaceDecreases(b0, row, col, humanPlayer);
              var s := Minimax(board, depth + 1, true, alpha, beta);
              board.board := Put(board.board, row, col, None);
              PutRestores(b0, row, col, Some(humanPlayer));
              bestScore := Min(s, bestScore);
              beta := Min(beta, s);
              if beta <= alpha {
                break;
              }
            }
          }
        }
        return bestScore;
      }
    }
  }
}
