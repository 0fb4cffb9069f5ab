/**
 * The 3x3 tic-tac-toe board: a list of three rows of three cells, each the
 * symbol of a player or empty (`None`), updated in place by a move. The
 * queries (winner, full, empty cells) are pure functions of the rows.
 */
module TicTacToeBoard {
  import opened Options

  datatype Player = X | O

  type Cell = Option<Player>

  type Rows = seq<seq<Cell>>

  /** A cell position, `(row, col)` in the source. */
  datatype Coord = Coord(row: int, col: int)

  const BoardSize := 3

  /** The other symbol: `'X' if p == 'O' else 'O'`. */
  function Other(p: Player): (q: Player)
    ensures q != p
  {
    if p == O then X else O
  }

  predicate Shaped(b: Rows) {
    |b| == BoardSize && |b[0]| == BoardSize && |b[1]| == BoardSize && |b[2]| == BoardSize
  }

  predicate InRange(row: int, col: int) {
    0 <= row < BoardSize && 0 <= col < BoardSize
  }

  /** The board a new game starts from. */
  function EmptyBoard(): (b: Rows)
    ensures Shaped(b)
    ensures forall r, c :: InRange(r, c) ==> b[r][c] == None
  {
    [[None, None, None], [None, None, None], [None, None, None]]
  }

  /** `board[row][col] = v`: only that cell changes. */
  function Put(b: Rows, row: int, col: int, v: Cell): (r: Rows)
    requires Shaped(b) && InRange(row, col)
    ensures Shaped(r) && r[row][col] == v
    ensures forall i, j :: InRange(i, j) && (i != row || j != col) ==> r[i][j] == b[i][j]
  {
    b[row := b[row][col := v]]
  }

  /** Writing back the old content of a cell undoes any write to it. */
  lemma PutRestores(b: Rows, row: int, col: int, v: Cell)
    requires Shaped(b) && InRange(row, col)
    ensures Put(Put(b, row, col, v), row, col, b[row][col]) == b
  {
    var r := Put(Put(b, row, col, v), row, col, b[row][col]);
    assert r[row] == b[row];
  }

  function CountRow(row: seq<Cell>): nat
    requires |row| == BoardSize
  {
    (if row[0] == None then 1 else 0) + (if row[1] == None then 1 else 0) + (if row[2] == None then 1 else 0)
  }

  /** The number of empty cells, the measure every search recursion decreases. */
  function EmptyCount(b: Rows): nat
    requires Shaped(b)
  {
    CountRow(b[0]) + CountRow(b[1]) + CountRow(b[2])
  }

  /** Placing a symbol on an empty cell removes exactly one empty cell. */
  lemma PlaceDecreases(b: Rows, row: int, col: int, p: Player)
    requires Shaped(b) && InRange(row, col) && b[row][col] == None
    ensures EmptyCount(Put(b, row, col, Some(p))) == EmptyCount(b) - 1
  {
    var r := Put(b, row, col, Some(p));
    if row == 0 {
      assert r[1] == b[1] && r[2] == b[2];
    } else if row == 1 {
      assert r[0] == b[0] && r[2] == b[2];
    } else {
      assert r[0] == b[0] && r[1] == b[1];
    }
  }

  // ----- check_winner -----

  /** `a == b == c is not None`. */
  predicate Complete(a: Cell, b: Cell, c: Cell) {
    a == b && b == c && c.Some?
  }

  /**
   * The scan `check_winner` performs from loop index `i` on: row `i`, then
   * column `i`, for each remaining `i`; then the main diagonal and the
   * anti-diagonal.
   */
  function WinnerFrom(b: Rows, i: nat): Cell
    requires Shaped(b) && i <= 3
    decreases 3 - i
  {
    if i == 3 then
      if Complete(b[0][0], b[1][1], b[2][2]) then b[0][0]
      else if Complete(b[0][2], b[1][1], b[2][0]) then b[0][2]
      else None
    else if Complete(b[i][0], b[i][1], b[i][2]) then b[i][0]
    else if Complete(b[0][i], b[1][i], b[2][i]) then b[0][i]
    else WinnerFrom(b, i + 1)
  }

  function Winner(b: Rows): Cell
    requires Shaped(b)
  {
    WinnerFrom(b, 0)
  }

  /** Three cells in a row, column or diagonal. */
  datatype Line = Line(a: Coord, b: Coord, c: Coord)

  function RowLine(i: int): Line {
    Line(Coord(i, 0), Coord(i, 1), Coord(i, 2))
  }

  function ColumnLine(i: int): Line {
    Line(Coord(0, i), Coord(1, i), Coord(2, i))
  }

  /** The eight lines in the order `check_winner` tests them. */
  const Lines: seq<Line> := [
    RowLine(0), ColumnLine(0), RowLine(1), ColumnLine(1), RowLine(2), ColumnLine(2),
    Line(Coord(0, 0), Coord(1, 1), Coord(2, 2)),
    Line(Coord(0, 2), Coord(1, 1), Coord(2, 0))
  ]

  function At(b: Rows, p: Coord): Cell
    requires Shaped(b) && InRange(p.row, p.col)
  {
    b[p.row][p.col]
  }

  predicate OnBoard(l: Line) {
    InRange(l.a.row, l.a.col) && InRange(l.b.row, l.b.col) && InRange(l.c.row, l.c.col)
  }

  /** The player holding all three cells of `l`, if any. */
  function Owner(b: Rows, l: Line): (r: Cell)
    requires Shaped(b) && OnBoard(l)
    ensures r.Some? ==> At(b, l.a) == r && At(b, l.b) == r && At(b, l.c) == r
    ensures r.None? ==> !Complete(At(b, l.a), At(b, l.b), At(b, l.c))
  {
    if Complete(At(b, l.a), At(b, l.b), At(b, l.c)) then At(b, l.a) else None
  }

  /** The owner of the first owned line among `Lines[k..]`: a reference scan. */
  function FirstOwner(b: Rows, k: nat): Cell
    requires Shaped(b) && k <= |Lines|
    decreases |Lines| - k
  {
    if k == |Lines| then None
    else if Owner(b, Lines[k]).Some? then Owner(b, Lines[k])
    else FirstOwner(b, k + 1)
  }

  lemma {:induction false} WinnerFromIsFirstOwner(b: Rows, i: nat)
    requires Shaped(b) && i <= 3
    ensures WinnerFrom(b, i) == FirstOwner(b, 2 * i)
    decreases 3 - i
  {
    if i == 3 {
      assert FirstOwner(b, 8) == None;
    } else {
      WinnerFromIsFirstOwner(b, i + 1);
    }
  }

  /**
   * `check_winner` returns the owner of the first complete line in the order
   * row 0, column 0, row 1, column 1, row 2, column 2, main diagonal,
   * anti-diagonal; every line before it is incomplete.
   */
  lemma WinnerIsFirstLine(b: Rows) returns (k: nat)
    requires Shaped(b) && Winner(b).Some?
    ensures k < |Lines| && Owner(b, Lines[k]) == Winner(b)
    ensures forall j :: 0 <= j < k ==> Owner(b, Lines[j]) == None
  {
    WinnerFromIsFirstOwner(b, 0);
    k := FirstOwnerFound(b, 0);
  }

  lemma {:induction false} FirstOwnerFound(b: Rows, k0: nat) returns (k: nat)
    requires Shaped(b) && k0 <= |Lines| && FirstOwner(b, k0).Some?
    ensures k0 <= k < |Lines| && Owner(b, Lines[k]) == FirstOwner(b, k0)
    ensures forall j :: k0 <= j < k ==> Owner(b, Lines[j]) == None
    decreases |Lines| - k0
  {
    if Owner(b, Lines[k0]).Some? {
      k := k0;
    } else {
      k := FirstOwnerFound(b, k0 + 1);
    }
  }

  lemma {:induction false} FirstOwnerNone(b: Rows, k0: nat)
    requires Shaped(b) && k0 <= |Lines| && FirstOwner(b, k0) == None
    ensures forall j :: k0 <= j < |Lines| ==> Owner(b, Lines[j]) == None
    decreases |Lines| - k0
  {
    if k0 < |Lines| {
      FirstOwnerNone(b, k0 + 1);
    }
  }

  /** `check_winner` returns `None` exactly when no line is complete. */
  lemma NoWinnerIffNoLine(b: Rows)
    requires Shaped(b)
    ensures Winner(b) == None <==> forall j :: 0 <= j < |Lines| ==> Owner(b, Lines[j]) == None
  {
    WinnerFromIsFirstOwner(b, 0);
    if Winner(b) == None {
      FirstOwnerNone(b, 0);
    } else {
      var k := FirstOwnerFound(b, 0);
    }
  }

  // ----- is_full and get_empty_cells -----

  predicate IsFull(b: Rows)
    requires Shaped(b)
  {
    forall r, c :: 0 <= r < BoardSize && 0 <= c < BoardSize ==> b[r][c].Some?
  }

  /** Row-major position of a cell. */
  function Index(p: Coord): int {
    3 * p.row + p.col
  }

  /** The comprehension's contribution from cell `(r, c)`. */
  function Keep(b: Rows, r: int, c: int): seq<Coord>
    requires Shaped(b) && InRange(r, c)
  {
    if b[r][c] == None then [Coord(r, c)] else []
  }

  /** The empty cells of row `r`, by increasing column. */
  function EmptyInRow(b: Rows, r: int): seq<Coord>
    requires Shaped(b) && 0 <= r < BoardSize
  {
    Keep(b, r, 0) + Keep(b, r, 1) + Keep(b, r, 2)
  }

  /** `[(i, j) for i in range(3) for j in range(3) if board[i][j] == EMPTY]`. */
  function EmptyCells(b: Rows): seq<Coord>
    requires Shaped(b)
  {
    EmptyInRow(b, 0) + EmptyInRow(b, 1) + EmptyInRow(b, 2)
  }

  /** Strictly increasing row-major positions: row-major order without duplicates. */
  predicate RowMajor(cells: seq<Coord>) {
    forall i, j :: 0 <= i < j < |cells| ==> Index(cells[i]) < Index(cells[j])
  }

  lemma EmptyInRowMember(b: Rows, r: int, p: Coord)
    requires Shaped(b) && 0 <= r < BoardSize
    ensures p in EmptyInRow(b, r) <==> p.row == r && 0 <= p.col < BoardSize && At(b, p) == None
  {
  }

  /** `get_empty_cells` lists exactly the empty cells. */
  lemma EmptyCellsMember(b: Rows, p: Coord)
    requires Shaped(b)
    ensures p in EmptyCells(b) <==> InRange(p.row, p.col) && At(b, p) == None
  {
    EmptyInRowMember(b, 0, p);
    EmptyInRowMember(b, 1, p);
    EmptyInRowMember(b, 2, p);
  }

  lemma RowMajorAppend(a: seq<Coord>, c: seq<Coord>)
    requires RowMajor(a) && RowMajor(c)
    requires forall i, j :: 0 <= i < |a| && 0 <= j < |c| ==> Index(a[i]) < Index(c[j])
    ensures RowMajor(a + c)
  {
    var s := a + c;
    forall i, j | 0 <= i < j < |s| ensures Index(s[i]) < Index(s[j]) {
      if j < |a| {
        assert s[i] == a[i] && s[j] == a[j];
      } else if i >= |a| {
        assert s[i] == c[i - |a|] && s[j] == c[j - |a|];
      } else {
        assert s[i] == a[i] && s[j] == c[j - |a|];
      }
    }
  }

  /** Row `r`'s empty cells, in order, with positions `3r .. 3r + 2`. */
  lemma EmptyInRowOrdered(b: Rows, r: int)
    requires Shaped(b) && 0 <= r < BoardSize
    ensures RowMajor(EmptyInRow(b, r))
    ensures forall i :: 0 <= i < |EmptyInRow(b, r)| ==> 3 * r <= Index(EmptyInRow(b, r)[i]) < 3 * r + 3
  {
    RowMajorAppend(Keep(b, r, 0), Keep(b, r, 1));
    RowMajorAppend(Keep(b, r, 0) + Keep(b, r, 1), Keep(b, r, 2));
  }

  /** `get_empty_cells` lists the cells in row-major order, each once. */
  lemma EmptyCellsOrdered(b: Rows)
    requires Shaped(b)
    ensures RowMajor(EmptyCells(b))
  {
    var r0, r1, r2 := EmptyInRow(b, 0), EmptyInRow(b, 1), EmptyInRow(b, 2);
    EmptyInRowOrdered(b, 0);
    EmptyInRowOrdered(b, 1);
    EmptyInRowOrdered(b, 2);
    RowMajorAppend(r0, r1);
    var r01 := r0 + r1;
    assert forall i :: 0 <= i < |r01| ==> Index(r01[i]) < 6 by {
      forall i | 0 <= i < |r01| ensures Index(r01[i]) < 6 {
        if i < |r0| { assert r01[i] == r0[i]; } else { assert r01[i] == r1[i - |r0|]; }
      }
    }
    RowMajorAppend(r01, r2);
  }

  /** `is_full` holds exactly when `get_empty_cells` is empty. */
  lemma FullIffNoEmptyCells(b: Rows)
    requires Shaped(b)
    ensures IsFull(b) <==> EmptyCells(b) == []
  {
    var e := EmptyCells(b);
    if !IsFull(b) {
      var r, c :| 0 <= r < BoardSize && 0 <= c < BoardSize && b[r][c] == None;
      EmptyCellsMember(b, Coord(r, c));
    } else if |e| > 0 {
      EmptyCellsMember(b, e[0]);
    }
  }

  /** A board is full exactly when it has no empty cell left. */
  lemma FullIffNoneEmpty(b: Rows)
    requires Shaped(b)
    ensures IsFull(b) <==> EmptyCount(b) == 0
  {
  }

  class Board {
    var board: Rows

    constructor ()
      ensures board == EmptyBoard()
    {
      board := EmptyBoard();
    }

    /**
     * Places `player` on an in-range empty cell and reports success; any
     * other request leaves the board as it was.
     */
    method Update(row: int, col: int, player: Player) returns (ok: bool)
      requires Shaped(board)
      modifies this
      ensures ok <==> InRange(row, col) && old(board)[row][col] == None
      ensures board == if ok then Put(old(board), row, col, Some(player)) else old(board)
    {
      if 0 <= row < BoardSize && 0 <= col < BoardSize && board[row][col] == None {
        board := Put(board, row, col, Some(player));
        return true;
      }
      return false;
    }
  }
}
