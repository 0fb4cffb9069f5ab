/**
 * The AI facade: it holds one minimax and one alpha-beta searcher for the
 * same symbol and delegates to them.
 */
module TicTacToeAI {
  import opened Options
  import opened TicTacToeBoard
  import opened TicTacToeGameTree
  import opened TicTacToeMinimax
  import opened TicTacToeAlphaBeta

  class AI {
    const symbol: Player
    const opponent: Player
    const minimax: Minimax
    const alphaBeta: AlphaBeta

    /** Both searchers play `symbol`. */
    ghost predicate Valid() {
      minimax.player == symbol && alphaBeta.player == symbol
    }

    constructor (symbol: Player)
      ensures this.symbol == symbol && opponent == Other(symbol) && opponent != symbol
      ensures Valid()
    {
      this.symbol := symbol;
      opponent := Other(symbol);
      minimax := new Minimax(symbol);
      alphaBeta := new AlphaBeta(symbol);
    }

    /** The alpha-beta move: the same one `UseMinimax` returns, with the board restored. */
    method UseAlphaBeta(board: Board) returns (move: Option<Coord>)
      requires Valid() && Shaped(board.board)
      modifies board
      ensures board.board == old(board.board)
      ensures move == BestMove(old(board.board), symbol)
    {
      move := alphaBeta.GetBestMove(board);
    }

    method UseMinimax(board: Board) returns (move: Option<Coord>)
      requires Valid() && Shaped(board.board)
      modifies board
      ensures board.board == old(board.board)
      ensures move == BestMove(old(board.board), symbol)
    {
      move := minimax.GetBestMove(board);
    }
  }
}
