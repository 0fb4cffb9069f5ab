/**
 * The value of a tic-tac-toe position as the minimax searches compute it,
 * stated as functions that follow their loops cell by cell: exhaustive
 * minimax, alpha-beta with the source's inner-loop-only cut-off, and the
 * root loop that picks a move. Scores are 1 (the AI has won), -1 (its
 * opponent has won) and 0 (draw); the infinite sentinels of the source are
 * the integers -2 and 2, which lie below and above every score.
 */
module TicTacToeGameTree {
  import opened Options
  import opened TicTacToeBoard

  const NegInf := -2
  const PosInf := 2

  function Max(a: int, b: int): int {
    if a >= b then a else b
  }

  function Min(a: int, b: int): int {
    if a <= b then a else b
  }

  /**
   * The terminal test at the top of every `minimax`: a win for the AI, a win
   * for its opponent, a full board, in that order; `None` when play goes on.
   */
  function Terminal(b: Rows, ai: Player): (r: Option<int>)
    requires Shaped(b)
    ensures r == Some(1) <==> Winner(b) == Some(ai)
    ensures r == Some(-1) <==> Winner(b) == Some(Other(ai))
    ensures r == Some(0) <==> Winner(b) == None && IsFull(b)
    ensures r.Some? || r.None?
  {
    var w := Winner(b);
    assert w.Some? ==> w.value == ai || w.value == Other(ai);
    if w == Some(ai) then Some(1)
    else if w == Some(Other(ai)) then Some(-1)
    else if IsFull(b) then Some(0)
    else None
  }

  /** The symbol placed at a maximizing node (the AI) or a minimizing one (its opponent). */
  function Mover(ai: Player, maximizing: bool): Player {
    if maximizing then ai else Other(ai)
  }

  /** `max(score, best)` at a maximizing node, `min(score, best)` at a minimizing one. */
  function Better(maximizing: bool, score: int, best: int): int {
    if maximizing then Max(score, best) else Min(score, best)
  }

  /** `x` is at least as good as `y` for the side to move. */
  predicate Beats(maximizing: bool, x: int, y: int) {
    if maximizing then x >= y else x <= y
  }

  predicate Open(b: Rows, r: int, c: int)
    requires Shaped(b)
  {
    InRange(r, c) && b[r][c] == None
  }

  function Child(b: Rows, ai: Player, maximizing: bool, r: int, c: int): (child: Rows)
    requires Shaped(b) && Open(b, r, c)
    ensures Shaped(child) && EmptyCount(child) < EmptyCount(b)
  {
    PlaceDecreases(b, r, c, Mover(ai, maximizing));
    Put(b, r, c, Some(Mover(ai, maximizing)))
  }

  // ----- plain minimax -----

  function Value(b: Rows, ai: Player, maximizing: bool): int
    requires Shaped(b)
    decreases EmptyCount(b), 1, 0, 0
  {
    match Terminal(b, ai)
    case Some(s) => s
    case None => Scan(b, ai, maximizing, 0, 0, if maximizing then NegInf else PosInf)
  }

  /** The score of the child the loop at `(r, c)` explores. */
  function ChildValue(b: Rows, ai: Player, maximizing: bool, r: int, c: int): int
    requires Shaped(b) && Open(b, r, c)
    decreases EmptyCount(b), 0, 0, 0
  {
    Value(Child(b, ai, maximizing, r, c), ai, !maximizing)
  }

  /** The nested `for row` / `for col` loop from cell `(row, col)` on, with `best` so far. */
  function Scan(b: Rows, ai: Player, maximizing: bool, row: nat, col: nat, best: int): int
    requires Shaped(b) && row <= 3 && col <= 3
    decreases EmptyCount(b), 0, 3 - row, 3 - col
  {
    if row == 3 then best
    else if col == 3 then Scan(b, ai, maximizing, row + 1, 0, best)
    else if b[row][col] == None then
      Scan(b, ai, maximizing, row, col + 1, Better(maximizing, ChildValue(b, ai, maximizing, row, col), best))
    else Scan(b, ai, maximizing, row, col + 1, best)
  }

  /** Cell `(r, c)` is open and the loop at `(row, col)` has still to reach it. */
  predicate Ahead(b: Rows, r: int, c: int, row: int, col: int)
    requires Shaped(b)
  {
    Open(b, r, c) && 3 * r + c >= 3 * row + col
  }

  /**
   * The scan's result is at least as good as `best` and as every child still
   * ahead, and it is `best` itself or the score of one of those children.
   */
  lemma {:induction false} ScanBounds(b: Rows, ai: Player, maximizing: bool, row: nat, col: nat, best: int)
    returns (found: bool, w: Coord)
    requires Shaped(b) && row <= 3 && col <= 3
    ensures Beats(maximizing, Scan(b, ai, maximizing, row, col, best), best)
    ensures forall r, c :: Ahead(b, r, c, row, col) ==>
      Beats(maximizing, Scan(b, ai, maximizing, row, col, best), ChildValue(b, ai, maximizing, r, c))
    ensures !found ==> Scan(b, ai, maximizing, row, col, best) == best
    ensures found ==> (Ahead(b, w.row, w.col, row, col) &&
      Scan(b, ai, maximizing, row, col, best) == ChildValue(b, ai, maximizing, w.row, w.col))
    decreases 3 - row, 3 - col
  {
    if row == 3 {
      found, w := false, Coord(0, 0);
    } else if col == 3 {
      found, w := ScanBounds(b, ai, maximizing, row + 1, 0, best);
    } else if b[row][col] == None {
      var v := ChildValue(b, ai, maximizing, row, col);
      var found', w' := ScanBounds(b, ai, maximizing, row, col + 1, Better(maximizing, v, best));
      if found' {
        found, w := true, w';
      } else if Better(maximizing, v, best) == best {
        found, w := false, Coord(0, 0);
      } else {
        found, w := true, Coord(row, col);
      }
    } else {
      found, w := ScanBounds(b, ai, maximizing, row, col + 1, best);
    }
  }

  /** Every score is one of -1, 0 and 1. */
  lemma {:induction false} ValueRange(b: Rows, ai: Player, maximizing: bool)
    requires Shaped(b)
    ensures -1 <= Value(b, ai, maximizing) <= 1
    decreases EmptyCount(b)
  {
    if Terminal(b, ai).None? {
      var init := if maximizing then NegInf else PosInf;
      var found, w := ScanBounds(b, ai, maximizing, 0, 0, init);
      var r, c :| 0 <= r < BoardSize && 0 <= c < BoardSize && b[r][c] == None;
      assert Ahead(b, r, c, 0, 0);
      ValueRange(Child(b, ai, maximizing, r, c), ai, !maximizing);
      if found {
        ValueRange(Child(b, ai, maximizing, w.row, w.col), ai, !maximizing);
      }
    }
  }

  /**
   * At a position where play goes on, a maximizing node is worth the best of
   * its children for the AI and a minimizing node the worst: no child beats
   * it, and some child attains it.
   */
  lemma NodeIsBestChild(b: Rows, ai: Player, maximizing: bool) returns (w: Coord)
    requires Shaped(b) && Terminal(b, ai).None?
    ensures Open(b, w.row, w.col) && Value(b, ai, maximizing) == ChildValue(b, ai, maximizing, w.row, w.col)
    ensures forall r, c :: Open(b, r, c) ==> Beats(maximizing, Value(b, ai, maximizing), ChildValue(b, ai, maximizing, r, c))
  {
    var init := if maximizing then NegInf else PosInf;
    var found;
    found, w := ScanBounds(b, ai, maximizing, 0, 0, init);
    assert forall r, c :: Open(b, r, c) ==> Ahead(b, r, c, 0, 0);
    var r, c :| 0 <= r < BoardSize && 0 <= c < BoardSize && b[r][c] == None;
    assert Ahead(b, r, c, 0, 0);
    ValueRange(Child(b, ai, maximizing, r, c), ai, !maximizing);
  }

  // ----- alpha-beta -----

  function ABValue(b: Rows, ai: Player, maximizing: bool, alpha: int, beta: int): int
    requires Shaped(b)
    decreases EmptyCount(b), 1, 0, 0
  {
    match Terminal(b, ai)
    case Some(s) => s
    case None => ABScan(b, ai, maximizing, 0, 0, if maximizing then NegInf else PosInf, alpha, beta)
  }

  function ABChildValue(b: Rows, ai: Player, maximizing: bool, r: int, c: int, alpha: int, beta: int): int
    requires Shaped(b) && Open(b, r, c)
    decreases EmptyCount(b), 0, 0, 0
  {
    ABValue(Child(b, ai, maximizing, r, c), ai, !maximizing, alpha, beta)
  }

  /**
   * The alpha-beta loop from `(row, col)` on. A maximizing node raises
   * `alpha`, a minimizing one lowers `beta`; once `beta <= alpha` the `break`
   * leaves the column loop only, and the scan resumes at the next row with
   * the narrowed window.
   */
  function ABScan(b: Rows, ai: Player, maximizing: bool, row: nat, col: nat, best: int, alpha: int, beta: int): int
    requires Shaped(b) && row <= 3 && col <= 3
    decreases EmptyCount(b), 0, 3 - row, 3 - col
  {
    if row == 3 then best
    else if col == 3 then ABScan(b, ai, maximizing, row + 1, 0, best, alpha, beta)
    else if b[row][col] == None then
      var score := ABChildValue(b, ai, maximizing, row, col, alpha, beta);
      var best' := Better(maximizing, score, best);
      var alpha' := if maximizing then Max(alpha, score) else alpha;
      var beta' := if maximizing then beta else Min(beta, score);
      if beta' <= alpha' then ABScan(b, ai, maximizing, row + 1, 0, best', alpha', beta')
      else ABScan(b, ai, maximizing, row, col + 1, best', alpha', beta')
    else ABScan(b, ai, maximizing, row, col + 1, best, alpha, beta)
  }

  /** The alpha-beta scan never ends worse than the `best` it starts with. */
  lemma {:induction false} ABScanKeepsBest(b: Rows, ai: Player, maximizing: bool, row: nat, col: nat, best: int, alpha: int, beta: int)
    requires Shaped(b) && row <= 3 && col <= 3
    ensures Beats(maximizing, ABScan(b, ai, maximizing, row, col, best, alpha, beta), best)
    decreases 3 - row, 3 - col
  {
    if row < 3 {
      if col == 3 {
        ABScanKeepsBest(b, ai, maximizing, row + 1, 0, best, alpha, beta);
      } else if b[row][col] == None {
        var score := ABChildValue(b, ai, maximizing, row, col, alpha, beta);
        var best' := Better(maximizing, score, best);
        var alpha' := if maximizing then Max(alpha, score) else alpha;
        var beta' := if maximizing then beta else Min(beta, score);
        if beta' <= alpha' {
          ABScanKeepsBest(b, ai, maximizing, row + 1, 0, best', alpha', beta');
        } else {
          ABScanKeepsBest(b, ai, maximizing, row, col + 1, best', alpha', beta');
        }
      } else {
        ABScanKeepsBest(b, ai, maximizing, row, col + 1, best, alpha, beta);
      }
    }
  }

  /** The alpha-beta value is one of -1, 0 and 1 whatever the window. */
  lemma {:induction false} ABValueRange(b: Rows, ai: Player, maximizing: bool, alpha: int, beta: int)
    requires Shaped(b)
    ensures -1 <= ABValue(b, ai, maximizing, alpha, beta) <= 1
    decreases EmptyCount(b), 1, 0, 0
  {
    if Terminal(b, ai).None? {
      var r, c :| 0 <= r < BoardSize && 0 <= c < BoardSize && b[r][c] == None;
      ABScanRange(b, ai, maximizing, 0, 0, if maximizing then NegInf else PosInf, alpha, beta, r, c);
    }
  }

  /**
   * The alpha-beta scan ends in -1..1 when it starts there, or when it starts
   * at its sentinel with an open cell `(r, c)` still ahead.
   */
  lemma {:induction false} ABScanRange(b: Rows, ai: Player, maximizing: bool, row: nat, col: nat, best: int,
                                       alpha: int, beta: int, r: int, c: int)
    requires Shaped(b) && row <= 3 && col <= 3
    requires -1 <= best <= 1 || (best == (if maximizing then NegInf else PosInf) && Ahead(b, r, c, row, col))
    ensures -1 <= ABScan(b, ai, maximizing, row, col, best, alpha, beta) <= 1
    decreases EmptyCount(b), 0, 3 - row, 3 - col
  {
    if row == 3 {
    } else if col == 3 {
      ABScanRange(b, ai, maximizing, row + 1, 0, best, alpha, beta, r, c);
    } else if b[row][col] == None {
      var score := ABChildValue(b, ai, maximizing, row, col, alpha, beta);
      ABValueRange(Child(b, ai, maximizing, row, col), ai, !maximizing, alpha, beta);
      var best' := Better(maximizing, score, best);
      var alpha' := if maximizing then Max(alpha, score) else alpha;
      var beta' := if maximizing then beta else Min(beta, score);
      if beta' <= alpha' {
        ABScanRange(b, ai, maximizing, row + 1, 0, best', alpha', beta', r, c);
      } else {
        ABScanRange(b, ai, maximizing, row, col + 1, best', alpha', beta', r, c);
      }
    } else {
      ABScanRange(b, ai, maximizing, row, col + 1, best, alpha, beta, r, c);
    }
  }

  /**
   * What a window `(alpha, beta)` promises about a search result `r` for a
   * position of value `v`: exact inside the window, and on the same side of
   * it otherwise.
   */
  predicate WindowSound(v: int, r: int, alpha: int, beta: int) {
    (alpha < v < beta ==> r == v) && (v <= alpha ==> r <= alpha) && (v >= beta ==> r >= beta)
  }

  /**
   * Alpha-beta is sound for every window between the sentinels: its result
   * equals the minimax value whenever that value lies strictly inside the
   * window, and lies on the same side of the window otherwise.
   */
  lemma {:induction false} ABSound(b: Rows, ai: Player, maximizing: bool, alpha: int, beta: int)
    requires Shaped(b) && NegInf <= alpha < beta <= PosInf
    ensures WindowSound(Value(b, ai, maximizing), ABValue(b, ai, maximizing, alpha, beta), alpha, beta)
    decreases EmptyCount(b), 1, 0, 0
  {
    if Terminal(b, ai).None? {
      if maximizing {
        ABScanMaxSound(b, ai, 0, 0, NegInf, alpha, beta, alpha, NegInf);
      } else {
        ABScanMinSound(b, ai, 0, 0, PosInf, alpha, beta, beta, PosInf);
      }
    }
  }

  /**
   * The maximizing loop from `(row, col)` on, before any cut-off: the
   * alpha-beta state (`best`, `a`) and the minimax state `vbest` agree on
   * `max(alpha, .)`; the scans' results then satisfy the window promise for
   * the node's window `(alpha, beta)`.
   */
  lemma {:induction false} ABScanMaxSound(b: Rows, ai: Player, row: nat, col: nat, best: int, a: int, beta: int, alpha: int, vbest: int)
    requires Shaped(b) && row <= 3 && col <= 3
    requires NegInf <= alpha <= a < beta <= PosInf
    requires a == Max(alpha, best) && Max(alpha, best) == Max(alpha, vbest)
    ensures WindowSound(Scan(b, ai, true, row, col, vbest), ABScan(b, ai, true, row, col, best, a, beta), alpha, beta)
    decreases EmptyCount(b), 0, 3 - row, 3 - col
  {
    if row == 3 {
    } else if col == 3 {
      ABScanMaxSound(b, ai, row + 1, 0, best, a, beta, alpha, vbest);
    } else if b[row][col] == None {
      var s := ABChildValue(b, ai, true, row, col, a, beta);
      var w := ChildValue(b, ai, true, row, col);
      ABSound(Child(b, ai, true, row, col), ai, false, a, beta);
      var best', a' := Max(s, best), Max(a, s);
      var vbest' := Max(w, vbest);
      if beta <= a' {
        // cut-off: the child already reaches beta, so both scans end at or above it
        ABScanKeepsBest(b, ai, true, row + 1, 0, best', a', beta);
        var _, _ := ScanBounds(b, ai, true, row, col + 1, vbest');
      } else {
        ABScanMaxSound(b, ai, row, col + 1, best', a', beta, alpha, vbest');
      }
    } else {
      ABScanMaxSound(b, ai, row, col + 1, best, a, beta, alpha, vbest);
    }
  }

  /** The minimizing loop, symmetric to `ABScanMaxSound` with `beta` as the moving bound. */
  lemma {:induction false} ABScanMinSound(b: Rows, ai: Player, row: nat, col: nat, best: int, alpha: int, bb: int, beta: int, vbest: int)
    requires Shaped(b) && row <= 3 && col <= 3
    requires NegInf <= alpha < bb <= beta <= PosInf
    requires bb == Min(beta, best) && Min(beta, best) == Min(beta, vbest)
    ensures WindowSound(Scan(b, ai, false, row, col, vbest), ABScan(b, ai, false, row, col, best, alpha, bb), alpha, beta)
    decreases EmptyCount(b), 0, 3 - row, 3 - col
  {
    if row == 3 {
    } else if col == 3 {
      ABScanMinSound(b, ai, row + 1, 0, best, alpha, bb, beta, vbest);
    } else if b[row][col] == None {
      var s := ABChildValue(b, ai, false, row, col, alpha, bb);
      var w := ChildValue(b, ai, false, row, col);
      ABSound(Child(b, ai, false, row, col), ai, true, alpha, bb);
      var best', bb' := Min(s, best), Min(bb, s);
      var vbest' := Min(w, vbest);
      if bb' <= alpha {
        ABScanKeepsBest(b, ai, false, row + 1, 0, best', alpha, bb');
        var _, _ := ScanBounds(b, ai, false, row, col + 1, vbest');
      } else {
        ABScanMinSound(b, ai, row, col + 1, best', alpha, bb', beta, vbest');
      }
    } else {
      ABScanMinSound(b, ai, row, col + 1, best, alpha, bb, beta, vbest);
    }
  }

  /** With the full window every score lies strictly inside, so alpha-beta is exact. */
  lemma ABExactOnFullWindow(b: Rows, ai: Player, maximizing: bool)
    requires Shaped(b)
    ensures ABValue(b, ai, maximizing, NegInf, PosInf) == Value(b, ai, maximizing)
  {
    ValueRange(b, ai, maximizing);
    ABSound(b, ai, maximizing, NegInf, PosInf);
  }

  // ----- the root move -----

  /**
   * The root loop of `get_best_move` from `(row, col)` on: each empty cell is
   * scored by the opponent's reply search, and a strictly higher score takes
   * the move, so ties go to the first cell in row-major order.
   */
  function RootScan(b: Rows, ai: Player, row: nat, col: nat, best: int, move: Option<Coord>): Option<Coord>
    requires Shaped(b) && row <= 3 && col <= 3
    decreases 3 - row, 3 - col
  {
    if row == 3 then move
    else if col == 3 then RootScan(b, ai, row + 1, 0, best, move)
    else if b[row][col] == None then
      var score := ChildValue(b, ai, true, row, col);
      if score > best then RootScan(b, ai, row, col + 1, score, Some(Coord(row, col)))
      else RootScan(b, ai, row, col + 1, best, move)
    else RootScan(b, ai, row, col + 1, best, move)
  }

  function BestMove(b: Rows, ai: Player): Option<Coord>
    requires Shaped(b)
  {
    RootScan(b, ai, 0, 0, NegInf, None)
  }

  /** The root loop of the alpha-beta `get_best_move`: the window is always `(-inf, inf)`. */
  function ABRootScan(b: Rows, ai: Player, row: nat, col: nat, best: int, move: Option<Coord>): Option<Coord>
    requires Shaped(b) && row <= 3 && col <= 3
    decreases 3 - row, 3 - col
  {
    if row == 3 then move
    else if col == 3 then ABRootScan(b, ai, row + 1, 0, best, move)
    else if b[row][col] == None then
      var score := ABChildValue(b, ai, true, row, col, NegInf, PosInf);
      if score > best then ABRootScan(b, ai, row, col + 1, score, Some(Coord(row, col)))
      else ABRootScan(b, ai, row, col + 1, best, move)
    else ABRootScan(b, ai, row, col + 1, best, move)
  }

  function ABBestMove(b: Rows, ai: Player): Option<Coord>
    requires Shaped(b)
  {
    ABRootScan(b, ai, 0, 0, NegInf, None)
  }

  lemma {:induction false} RootScansAgree(b: Rows, ai: Player, row: nat, col: nat, best: int, move: Option<Coord>)
    requires Shaped(b) && row <= 3 && col <= 3
    ensures ABRootScan(b, ai, row, col, best, move) == RootScan(b, ai, row, col, best, move)
    decreases 3 - row, 3 - col
  {
    if row < 3 {
      if col == 3 {
        RootScansAgree(b, ai, row + 1, 0, best, move);
      } else if b[row][col] == None {
        ABExactOnFullWindow(Child(b, ai, true, row, col), ai, false);
        var score := ChildValue(b, ai, true, row, col);
        if score > best {
          RootScansAgree(b, ai, row, col + 1, score, Some(Coord(row, col)));
        } else {
          RootScansAgree(b, ai, row, col + 1, best, move);
        }
      } else {
        RootScansAgree(b, ai, row, col + 1, best, move);
      }
    }
  }

  /** Alpha-beta picks the same move as plain minimax on every board. */
  lemma ABBestMoveIsBestMove(b: Rows, ai: Player)
    requires Shaped(b)
    ensures ABBestMove(b, ai) == BestMove(b, ai)
  {
    RootScansAgree(b, ai, 0, 0, NegInf, None);
  }

  /**
   * The state of the root loop at `(row, col)`: no move yet exactly when no
   * empty cell has been passed, and otherwise the first passed cell with the
   * highest score so far.
   */
  ghost predicate RootState(b: Rows, ai: Player, row: int, col: int, best: int, move: Option<Coord>)
    requires Shaped(b)
  {
    (move == None ==> best == NegInf && forall r, c :: Open(b, r, c) ==> 3 * r + c >= 3 * row + col) &&
    (move.Some? ==>
      Open(b, move.value.row, move.value.col) && 3 * move.value.row + move.value.col < 3 * row + col &&
      best == ChildValue(b, ai, true, move.value.row, move.value.col) &&
      (forall r, c :: Open(b, r, c) && 3 * r + c < 3 * row + col ==> ChildValue(b, ai, true, r, c) <= best) &&
      (forall r, c :: Open(b, r, c) && 3 * r + c < 3 * move.value.row + move.value.col ==> ChildValue(b, ai, true, r, c) < best))
  }

  /** What `get_best_move` promises about the move it returns. */
  ghost predicate FirstBest(b: Rows, ai: Player, move: Option<Coord>)
    requires Shaped(b)
  {
    (move == None ==> forall r, c :: !Open(b, r, c)) &&
    (move.Some? ==>
      var m := move.value;
      Open(b, m.row, m.col) &&
      (forall r, c :: Open(b, r, c) ==> ChildValue(b, ai, true, r, c) <= ChildValue(b, ai, true, m.row, m.col)) &&
      (forall r, c :: Open(b, r, c) && 3 * r + c < 3 * m.row + m.col ==> ChildValue(b, ai, true, r, c) < ChildValue(b, ai, true, m.row, m.col)))
  }

  lemma RootStepOpen(b: Rows, ai: Player, row: nat, col: nat, best: int, move: Option<Coord>)
    requires Shaped(b) && row < 3 && col < 3 && Open(b, row, col)
    requires RootState(b, ai, row, col, best, move)
    ensures var score := ChildValue(b, ai, true, row, col);
      if score > best then RootState(b, ai, row, col + 1, score, Some(Coord(row, col)))
      else RootState(b, ai, row, col + 1, best, move)
  {
    ValueRange(Child(b, ai, true, row, col), ai, false);
  }

  lemma RootStepSkip(b: Rows, ai: Player, row: nat, col: nat, best: int, move: Option<Coord>)
    requires Shaped(b) && row < 3 && col < 3 && !Open(b, row, col)
    requires RootState(b, ai, row, col, best, move)
    ensures RootState(b, ai, row, col + 1, best, move)
  {
  }

  lemma RootStateFinal(b: Rows, ai: Player, best: int, move: Option<Coord>)
    requires Shaped(b) && RootState(b, ai, 3, 0, best, move)
    ensures FirstBest(b, ai, move)
  {
  }

  lemma {:induction false} RootScanFacts(b: Rows, ai: Player, row: nat, col: nat, best: int, move: Option<Coord>)
    requires Shaped(b) && row <= 3 && col <= 3
    requires RootState(b, ai, row, col, best, move)
    ensures FirstBest(b, ai, RootScan(b, ai, row, col, best, move))
    decreases 3 - row, 3 - col
  {
    if row == 3 {
      RootStateFinal(b, ai, best, move);
    } else if col == 3 {
      assert RootScan(b, ai, row, col, best, move) == RootScan(b, ai, row + 1, 0, best, move);
      RootScanFacts(b, ai, row + 1, 0, best, move);
    } else if b[row][col] == None {
      RootStepOpen(b, ai, row, col, best, move);
      var score := ChildValue(b, ai, true, row, col);
      if score > best {
        assert RootScan(b, ai, row, col, best, move) == RootScan(b, ai, row, col + 1, score, Some(Coord(row, col)));
        RootScanFacts(b, ai, row, col + 1, score, Some(Coord(row, col)));
      } else {
        assert RootScan(b, ai, row, col, best, move) == RootScan(b, ai, row, col + 1, best, move);
        RootScanFacts(b, ai, row, col + 1, best, move);
      }
    } else {
      assert RootScan(b, ai, row, col, best, move) == RootScan(b, ai, row, col + 1, best, move);
      RootStepSkip(b, ai, row, col, best, move);
      RootScanFacts(b, ai, row, col + 1, best, move);
    }
  }

  /**
   * `get_best_move` returns `None` exactly on a full board; otherwise an
   * empty cell whose score no other empty cell exceeds, and every empty cell
   * before it in row-major order scores strictly less.
   */
  lemma BestMoveIsFirstBest(b: Rows, ai: Player)
    requires Shaped(b)
    ensures BestMove(b, ai) == None <==> IsFull(b)
    ensures FirstBest(b, ai, BestMove(b, ai))
  {
    RootScanFacts(b, ai, 0, 0, NegInf, None);
    if !IsFull(b) {
      var r, c :| 0 <= r < BoardSize && 0 <= c < BoardSize && b[r][c] == None;
      assert Open(b, r, c);
    }
  }
}
