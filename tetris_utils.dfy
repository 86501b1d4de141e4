/**
 * The board and piece library (src/utils/tetrisUtils.js): empty boards,
 * spawning a piece from the catalog, clockwise rotation, collision testing,
 * locking a piece into a copy of the board, clearing complete rows, and the
 * score, level and fall-speed formulas.
 *
 * Boards are always ROWS rows of COLS cells; a cell is 0 when empty and
 * otherwise holds the tag of the piece locked there.
 */
module TetrisUtils {
  import opened Wrappers
  import opened TetrisConstants

  type Row = seq<int>
  type Board = seq<Row>
  type Shape = seq<seq<int>>

  /** A falling piece: the top-left corner of its shape matrix on the board, and its tag. */
  datatype Piece = Piece(x: int, y: int, shape: Shape, colorIndex: int)

  /** What the library returns when the catalog cannot supply a shape. */
  const FALLBACK_PIECE: Piece := Piece(0, 0, [[1]], 1)

  /** Points for clearing 0, 1, 2, 3 or 4 rows at once, before the level multiplier. */
  const LINE_POINTS: seq<int> := [0, 40, 100, 300, 1200]

  predicate IsBoard(b: Board)
  {
    |b| == ROWS && forall r :: 0 <= r < |b| ==> |b[r]| == COLS
  }

  /** A non-empty matrix whose rows all have the length of the first. */
  predicate IsRect(m: Shape)
  {
    |m| > 0 && forall r :: 0 <= r < |m| ==> |m[r]| == |m[0]|
  }

  function Width(m: Shape): int
    requires |m| > 0
  {
    |m[0]|
  }

  /** The matrix has at least one nonzero cell. */
  ghost predicate HasBlock(m: Shape)
  {
    exists r, c :: 0 <= r < |m| && 0 <= c < |m[r]| && m[r][c] != 0
  }

  /** A piece the engine can hold: a rectangular shape with at least one block. */
  ghost predicate PieceOk(p: Piece)
  {
    IsRect(p.shape) && HasBlock(p.shape)
  }

  // ---------------------------------------------------------------------
  // Empty board
  // ---------------------------------------------------------------------

  function ZeroRow(): (row: Row)
    ensures |row| == COLS && forall c :: 0 <= c < COLS ==> row[c] == 0
  {
    seq(COLS, _ => 0)
  }

  function ZeroRows(n: nat): (rows: Board)
    ensures |rows| == n && forall r :: 0 <= r < n ==> rows[r] == ZeroRow()
  {
    seq(n, _ => ZeroRow())
  }

  /** ROWS rows of COLS empty cells. */
  function CreateEmptyBoard(): (b: Board)
    ensures IsBoard(b)
    ensures forall r, c :: 0 <= r < ROWS && 0 <= c < COLS ==> b[r][c] == 0
  {
    ZeroRows(ROWS)
  }

  // ---------------------------------------------------------------------
  // Spawning a piece
  // ---------------------------------------------------------------------

  /** The first nonzero cell of a row, or 0. */
  ghost function FirstTagInRow(row: seq<int>): int
  {
    if row == [] then 0 else if row[0] != 0 then row[0] else FirstTagInRow(row[1..])
  }

  /** The first nonzero cell of a matrix in row-major order, or 0. */
  ghost function FirstTag(m: Shape): int
  {
    if m == [] then 0 else if FirstTagInRow(m[0]) != 0 then FirstTagInRow(m[0]) else FirstTag(m[1..])
  }

  /** The piece spawned for a chosen catalog index: centred at the top, tagged with its first block. */
  ghost function SpawnPiece(catalog: seq<Shape>, index: int): Piece
  {
    if |catalog| == 0 || !(0 <= index < |catalog|) || catalog[index] == [] then FALLBACK_PIECE
    else Piece(COLS / 2 - |catalog[index][0]| / 2, 0, catalog[index], FirstTag(catalog[index]))
  }

  /**
   * Spawns the catalog shape at `index` (the source draws the index at random).
   * An empty catalog, an index with no shape or an empty shape gives the fallback piece.
   */
  method CreateRandomPiece(catalog: seq<Shape>, index: int) returns (p: Piece)
    ensures p == SpawnPiece(catalog, index)
    ensures |catalog| == 0 || !(0 <= index < |catalog|) || catalog[index] == [] ==> p == FALLBACK_PIECE
    ensures 0 <= index < |catalog| && catalog[index] != [] ==>
      p.x == COLS / 2 - |catalog[index][0]| / 2 && p.y == 0 && p.shape == catalog[index]
  {
    if |catalog| == 0 {
      return FALLBACK_PIECE;
    }
    if !(0 <= index < |catalog|) || |catalog[index]| == 0 {
      return FALLBACK_PIECE;
    }
    var shape := catalog[index];
    var colorIndex := 0;
    for row := 0 to |shape|
      invariant colorIndex == 0 && FirstTag(shape) == FirstTag(shape[row..])
    {
      ghost var rest := shape[row..];
      assert rest[0] == shape[row] && rest[1..] == shape[row + 1..];
      for col := 0 to |shape[row]|
        invariant colorIndex == 0 && FirstTagInRow(shape[row]) == FirstTagInRow(shape[row][col..])
      {
        ghost var tail := shape[row][col..];
        assert tail[0] == shape[row][col] && tail[1..] == shape[row][col + 1..];
        if shape[row][col] != 0 {
          colorIndex := shape[row][col];
          break;
        }
      }
      if colorIndex != 0 {
        break;
      }
    }
    p := Piece(COLS / 2 - |shape[0]| / 2, 0, shape, colorIndex);
  }

  lemma {:induction false} FirstTagInRowIsFirstBlock(row: seq<int>)
    ensures FirstTagInRow(row) == 0 <==> forall c :: 0 <= c < |row| ==> row[c] == 0
    ensures FirstTagInRow(row) != 0 ==>
      exists c :: 0 <= c < |row| && row[c] == FirstTagInRow(row) && forall c' :: 0 <= c' < c ==> row[c'] == 0
  {
    if row != [] {
      FirstTagInRowIsFirstBlock(row[1..]);
      if row[0] == 0 && FirstTagInRow(row) != 0 {
        var c :| 0 <= c < |row[1..]| && row[1..][c] == FirstTagInRow(row[1..]) &&
          forall c' :: 0 <= c' < c ==> row[1..][c'] == 0;
        assert row[c + 1] == FirstTagInRow(row);
        assert forall c' :: 0 <= c' < c + 1 ==> row[c'] == 0 by {
          forall c' | 0 <= c' < c + 1 ensures row[c'] == 0 {
            if c' > 0 { assert row[c'] == row[1..][c' - 1]; }
          }
        }
      }
      if row[0] == 0 && FirstTagInRow(row) == 0 {
        assert forall c :: 0 <= c < |row| ==> row[c] == 0 by {
          forall c | 0 <= c < |row| ensures row[c] == 0 {
            if c > 0 { assert row[c] == row[1..][c - 1]; }
          }
        }
      }
    }
  }

  /**
   * The colour of a spawned piece is the first block in row-major order:
   * zero exactly when the shape has no block, otherwise a cell value with
   * only empty cells before it.
   */
  lemma {:induction false} FirstTagIsFirstBlock(m: Shape)
    ensures FirstTag(m) == 0 <==> !HasBlock(m)
    ensures FirstTag(m) != 0 ==>
      exists r, c :: 0 <= r < |m| && 0 <= c < |m[r]| && m[r][c] == FirstTag(m) &&
        (forall c' :: 0 <= c' < c ==> m[r][c'] == 0) &&
        (forall r', c' :: 0 <= r' < r && 0 <= c' < |m[r']| ==> m[r'][c'] == 0)
  {
    if m != [] {
      FirstTagInRowIsFirstBlock(m[0]);
      FirstTagIsFirstBlock(m[1..]);
      if FirstTagInRow(m[0]) != 0 {
        var c :| 0 <= c < |m[0]| && m[0][c] == FirstTagInRow(m[0]) && forall c' :: 0 <= c' < c ==> m[0][c'] == 0;
        assert m[0][c] == FirstTag(m);
      } else if FirstTag(m) != 0 {
        var r, c :| 0 <= r < |m[1..]| && 0 <= c < |m[1..][r]| && m[1..][r][c] == FirstTag(m[1..]) &&
          (forall c' :: 0 <= c' < c ==> m[1..][r][c'] == 0) &&
          (forall r', c' :: 0 <= r' < r && 0 <= c' < |m[1..][r']| ==> m[1..][r'][c'] == 0);
        assert m[r + 1][c] == FirstTag(m);
        assert forall r', c' :: 0 <= r' < r + 1 && 0 <= c' < |m[r']| ==> m[r'][c'] == 0 by {
          forall r', c' | 0 <= r' < r + 1 && 0 <= c' < |m[r']| ensures m[r'][c'] == 0 {
            if r' > 0 { assert m[r'] == m[1..][r' - 1]; }
          }
        }
      }
    }
  }

  // ---------------------------------------------------------------------
  // Rotation
  // ---------------------------------------------------------------------

  /** Column c of a matrix, top to bottom (`shape.map(row => row[c])`). */
  function Column(m: Shape, c: int): (col: seq<int>)
    requires IsRect(m) && 0 <= c < Width(m)
    ensures |col| == |m|
  {
    seq(|m|, i requires 0 <= i < |m| => m[i][c])
  }

  /** The same cells in the opposite order (`.reverse()`). */
  function Reverse(s: seq<int>): (r: seq<int>)
    ensures |r| == |s|
  {
    seq(|s|, i requires 0 <= i < |s| => s[|s| - 1 - i])
  }

  /** The first n rows of the rotation: row c is column c read bottom to top. */
  function RotatedColumns(m: Shape, n: int): (r: Shape)
    requires IsRect(m) && 0 <= n <= Width(m)
    ensures |r| == n && forall i :: 0 <= i < n ==> |r[i]| == |m|
    decreases n
  {
    if n == 0 then [] else RotatedColumns(m, n - 1) + [Reverse(Column(m, n - 1))]
  }

  /**
   * Clockwise rotation: transpose, then reverse every row. The source passes
   * the whole piece and reads only its shape. An h-by-w matrix becomes a
   * w-by-h one; `RotationIsQuarterTurn` states where each cell goes.
   */
  function RotatePieceMatrix(m: Shape): (r: Shape)
    requires IsRect(m)
    ensures |r| == Width(m)
    ensures forall i :: 0 <= i < |r| ==> |r[i]| == |m|
    ensures Width(m) > 0 ==> IsRect(r) && Width(r) == |m|
  {
    RotatedColumns(m, Width(m))
  }

  lemma {:induction false} RotatedColumnsRow(m: Shape, n: int, i: int)
    requires IsRect(m) && 0 <= i < n <= Width(m)
    ensures RotatedColumns(m, n)[i] == Reverse(Column(m, i))
  {
    if i < n - 1 {
      RotatedColumnsRow(m, n - 1, i);
    }
  }

  /** Cell (i, j) of the rotation is cell (h - 1 - j, i) of the h-row original. */
  lemma RotatedCell(m: Shape, i: int, j: int)
    requires IsRect(m) && 0 <= i < Width(m) && 0 <= j < |m|
    ensures RotatePieceMatrix(m)[i][j] == m[|m| - 1 - j][i]
  {
    RotatedColumnsRow(m, Width(m), i);
  }

  /** b is a clockwise quarter turn of the h-by-w matrix a, cell by cell. */
  ghost predicate QuarterTurn(a: Shape, b: Shape, h: int, w: int)
  {
    |a| == h && (forall r :: 0 <= r < h ==> |a[r]| == w) &&
    |b| == w && (forall r :: 0 <= r < w ==> |b[r]| == h) &&
    forall i, j :: 0 <= i < w && 0 <= j < h ==> b[i][j] == a[h - 1 - j][i]
  }

  lemma RotationIsQuarterTurn(m: Shape)
    requires IsRect(m) && Width(m) > 0
    ensures QuarterTurn(m, RotatePieceMatrix(m), |m|, Width(m))
  {
    forall i, j | 0 <= i < Width(m) && 0 <= j < |m|
      ensures RotatePieceMatrix(m)[i][j] == m[|m| - 1 - j][i]
    {
      RotatedCell(m, i, j);
    }
  }

  lemma {:induction false} FourQuarterTurns(a: Shape, b: Shape, c: Shape, d: Shape, e: Shape, h: int, w: int)
    requires QuarterTurn(a, b, h, w) && QuarterTurn(b, c, w, h)
    requires QuarterTurn(c, d, h, w) && QuarterTurn(d, e, w, h)
    ensures e == a
  {
    forall i | 0 <= i < h ensures e[i] == a[i] {
      forall j | 0 <= j < w ensures e[i][j] == a[i][j] {
        assert e[i][j] == d[w - 1 - j][i];
        assert d[w - 1 - j][i] == c[h - 1 - i][w - 1 - j];
        assert c[h - 1 - i][w - 1 - j] == b[j][h - 1 - i];
      }
    }
  }

  /** Four quarter turns give back the original shape. */
  lemma RotateFourTimesIsIdentity(m: Shape)
    requires IsRect(m) && Width(m) > 0
    ensures RotatePieceMatrix(RotatePieceMatrix(RotatePieceMatrix(RotatePieceMatrix(m)))) == m
  {
    var r1 := RotatePieceMatrix(m);
    RotationIsQuarterTurn(m);
    var r2 := RotatePieceMatrix(r1);
    RotationIsQuarterTurn(r1);
    var r3 := RotatePieceMatrix(r2);
    RotationIsQuarterTurn(r2);
    var r4 := RotatePieceMatrix(r3);
    RotationIsQuarterTurn(r3);
    FourQuarterTurns(m, r1, r2, r3, r4, |m|, Width(m));
  }

  /** Rotation is injective on the shapes it can be applied to, so it is a bijection. */
  lemma RotationIsInjective(a: Shape, b: Shape)
    requires IsRect(a) && Width(a) > 0 && IsRect(b) && Width(b) > 0
    requires RotatePieceMatrix(a) == RotatePieceMatrix(b)
    ensures a == b
  {
    RotateFourTimesIsIdentity(a);
    RotateFourTimesIsIdentity(b);
  }

  /** The rotated shape keeps every block: the block at (r, c) moves to (c, h - 1 - r). */
  lemma RotationKeepsBlocks(m: Shape)
    requires IsRect(m) && HasBlock(m)
    ensures Width(m) > 0 && PieceOk(Piece(0, 0, RotatePieceMatrix(m), 0))
  {
    var r, c :| 0 <= r < |m| && 0 <= c < |m[r]| && m[r][c] != 0;
    var rot := RotatePieceMatrix(m);
    RotatedCell(m, c, |m| - 1 - r);
    assert rot[c][|m| - 1 - r] == m[r][c];
  }

  // ---------------------------------------------------------------------
  // Collision
  // ---------------------------------------------------------------------

  /** A board position a block may not take: off the sides, above the top, below the floor, or filled. */
  ghost predicate Blocked(board: Board, boardX: int, boardY: int)
    requires IsBoard(board)
  {
    boardX < 0 || boardX >= COLS || boardY < 0 || boardY >= ROWS || board[boardY][boardX] != 0
  }

  /** Some nonzero cell of `shape`, placed with its corner at (x, y), lands on a blocked position. */
  ghost predicate Collides(x: int, y: int, shape: Shape, board: Board)
    requires IsBoard(board)
  {
    exists r, c :: 0 <= r < |shape| && 0 <= c < |shape[r]| && shape[r][c] != 0 && Blocked(board, x + c, y + r)
  }

  method CheckCollision(x: int, y: int, shape: Shape, board: Board) returns (hit: bool)
    requires IsBoard(board)
    ensures hit == Collides(x, y, shape, board)
  {
    for row := 0 to |shape|
      invariant forall r, c :: 0 <= r < row && 0 <= c < |shape[r]| && shape[r][c] != 0 ==> !Blocked(board, x + c, y + r)
    {
      for col := 0 to |shape[row]|
        invariant forall c :: 0 <= c < col && shape[row][c] != 0 ==> !Blocked(board, x + c, y + row)
      {
        if shape[row][col] != 0 {
          var boardX := x + col;
          var boardY := y + row;
          if boardX < 0 || boardX >= COLS || boardY < 0 || boardY >= ROWS || (boardY >= 0 && board[boardY][boardX] != 0) {
            assert Blocked(board, x + col, y + row);
            return true;
          }
        }
      }
    }
    return false;
  }

  /** A block of the shape in row r keeps the piece above the floor when it does not collide. */
  lemma NoCollisionAboveFloor(x: int, y: int, shape: Shape, board: Board, r: int, c: int)
    requires IsBoard(board)
    requires 0 <= r < |shape| && 0 <= c < |shape[r]| && shape[r][c] != 0
    requires !Collides(x, y, shape, board)
    ensures y + r < ROWS
  {
    assert !Blocked(board, x + c, y + r);
  }

  /** At its spawn position a shape no larger than the board never collides on an empty board. */
  lemma SpawnFitsEmptyBoard(m: Shape)
    requires IsRect(m) && |m| <= ROWS && Width(m) <= COLS
    ensures !Collides(COLS / 2 - Width(m) / 2, 0, m, CreateEmptyBoard())
  {
    var board := CreateEmptyBoard();
    var x := COLS / 2 - Width(m) / 2;
    forall r, c | 0 <= r < |m| && 0 <= c < |m[r]| && m[r][c] != 0
      ensures !Blocked(board, x + c, r)
    {
      assert |m[r]| == Width(m);
    }
  }

  /**
   * Any piece spawned from the catalog, the fallback included, is a
   * rectangle with a block and does not collide on an empty board.
   */
  lemma CatalogSpawnFitsEmptyBoard(index: int)
    ensures PieceOk(SpawnPiece(SHAPES, index))
    ensures !Collides(SpawnPiece(SHAPES, index).x, SpawnPiece(SHAPES, index).y,
      SpawnPiece(SHAPES, index).shape, CreateEmptyBoard())
  {
    var p := SpawnPiece(SHAPES, index);
    var board := CreateEmptyBoard();
    if 0 <= index < |SHAPES| {
      ShapesAreSquares();
      var n :| 2 <= n <= 4 && IsSquare(SHAPES[index], n);
      assert SHAPES[index][1][1] != 0 by {
        if index == 0 {} else if index == 1 {} else if index == 2 {} else if index == 3 {}
        else if index == 4 {} else if index == 5 {} else {}
      }
      assert IsRect(SHAPES[index]);
      SpawnFitsEmptyBoard(SHAPES[index]);
    } else {
      assert p.shape[0][0] != 0;
      forall r, c | 0 <= r < |p.shape| && 0 <= c < |p.shape[r]| && p.shape[r][c] != 0
        ensures !Blocked(board, p.x + c, p.y + r)
      {
      }
    }
  }

  // ---------------------------------------------------------------------
  // Locking a piece into the board
  // ---------------------------------------------------------------------

  /** Board cell (boardX, boardY) lies under a nonzero cell of the piece's shape. */
  ghost predicate Covers(p: Piece, boardX: int, boardY: int)
  {
    0 <= boardY - p.y < |p.shape| && 0 <= boardX - p.x < |p.shape[boardY - p.y]| &&
    p.shape[boardY - p.y][boardX - p.x] != 0
  }

  /** The board with every cell under a block of `p` set to its tag. */
  ghost function Merged(p: Piece, board: Board): (merged: Board)
    requires IsBoard(board)
    ensures IsBoard(merged)
  {
    seq(ROWS, r requires 0 <= r < ROWS =>
      seq(COLS, c requires 0 <= c < COLS => if Covers(p, c, r) then p.colorIndex else board[r][c]))
  }

  /**
   * Writes the piece's tag into a copy of the board at every in-bounds cell
   * under a block; blocks outside the board are dropped. The argument is a
   * value, so the caller's board is never changed.
   */
  method MergePieceToBoard(p: Piece, board: Board) returns (newBoard: Board)
    requires IsBoard(board)
    ensures newBoard == Merged(p, board)
  {
    newBoard := board;
    for row := 0 to |p.shape|
      invariant IsBoard(newBoard)
      invariant forall r, c :: 0 <= r < ROWS && 0 <= c < COLS ==>
        newBoard[r][c] == if Covers(p, c, r) && r - p.y < row then p.colorIndex else board[r][c]
    {
      for col := 0 to |p.shape[row]|
        invariant IsBoard(newBoard)
        invariant forall r, c :: 0 <= r < ROWS && 0 <= c < COLS ==>
          newBoard[r][c] ==
            if Covers(p, c, r) && (r - p.y < row || (r - p.y == row && c - p.x < col)) then p.colorIndex
            else board[r][c]
      {
        if p.shape[row][col] != 0 {
          var boardY := p.y + row;
          var boardX := p.x + col;
          if boardY >= 0 && boardY < ROWS && boardX >= 0 && boardX < COLS {
            newBoard := newBoard[boardY := newBoard[boardY][boardX := p.colorIndex]];
          }
        }
      }
    }
    forall r | 0 <= r < ROWS ensures newBoard[r] == Merged(p, board)[r] {
    }
  }

  /** Every board cell under a block gets the piece's tag; every other cell keeps its value. */
  lemma MergedCells(p: Piece, board: Board)
    requires IsBoard(board)
    ensures forall r, c :: 0 <= r < ROWS && 0 <= c < COLS ==>
      Merged(p, board)[r][c] == if Covers(p, c, r) then p.colorIndex else board[r][c]
  {
  }

  /** Locking the same piece twice changes nothing the first lock did not. */
  lemma MergeIsIdempotent(p: Piece, board: Board)
    requires IsBoard(board)
    ensures Merged(p, Merged(p, board)) == Merged(p, board)
  {
    var once := Merged(p, board);
    forall r | 0 <= r < ROWS ensures Merged(p, once)[r] == once[r] {
    }
  }

  /**
   * A piece in a position that does not collide never overwrites a block of
   * the board: the blocks it adds land on empty cells.
   */
  lemma MergeOfFittingPieceKeepsBlocks(p: Piece, board: Board)
    requires IsBoard(board) && !Collides(p.x, p.y, p.shape, board)
    ensures forall r, c :: 0 <= r < ROWS && 0 <= c < COLS && board[r][c] != 0 ==>
      Merged(p, board)[r][c] == board[r][c]
  {
    forall r, c | 0 <= r < ROWS && 0 <= c < COLS && board[r][c] != 0
      ensures Merged(p, board)[r][c] == board[r][c]
    {
    }
  }

  // ---------------------------------------------------------------------
  // Clearing complete rows
  // ---------------------------------------------------------------------

  predicate IsComplete(row: Row)
  {
    forall c :: 0 <= c < |row| ==> row[c] != 0
  }

  /** The rows that are not complete, in their original order. */
  ghost function Incomplete(b: Board): Board
  {
    if b == [] then [] else Incomplete(b[..|b| - 1]) + (if IsComplete(b[|b| - 1]) then [] else [b[|b| - 1]])
  }

  /** The number of complete rows. */
  ghost function CountComplete(b: Board): nat
  {
    if b == [] then 0 else CountComplete(b[..|b| - 1]) + (if IsComplete(b[|b| - 1]) then 1 else 0)
  }

  /** The board after one clearing pass: one empty row on top for every complete row removed. */
  ghost function Cleared(b: Board): Board
  {
    ZeroRows(CountComplete(b)) + Incomplete(b)
  }

  method ClearLines(board: Board) returns (newBoard: Board, linesCleared: nat)
    ensures linesCleared == CountComplete(board)
    ensures newBoard == Cleared(board)
  {
    linesCleared := 0;
    var kept: Board := [];
    for i := 0 to |board|
      invariant kept == Incomplete(board[..i])
      invariant linesCleared == CountComplete(board[..i])
    {
      assert board[..i + 1][..i] == board[..i];
      if IsComplete(board[i]) {
        linesCleared := linesCleared + 1;
      } else {
        kept := kept + [board[i]];
      }
    }
    assert board[..|board|] == board;
    newBoard := kept;
    if linesCleared > 0 {
      newBoard := ZeroRows(linesCleared) + newBoard;
    }
  }

  /** Every row is either kept or counted. */
  lemma {:induction false} KeptPlusClearedIsAll(b: Board)
    ensures |Incomplete(b)| + CountComplete(b) == |b|
  {
    if b != [] {
      KeptPlusClearedIsAll(b[..|b| - 1]);
    }
  }

  /** A kept row is a row of the input that is not complete, and every such row is kept. */
  lemma {:induction false} KeptRowsAreTheIncompleteOnes(b: Board, row: Row)
    ensures row in Incomplete(b) <==> row in b && !IsComplete(row)
  {
    if b != [] {
      var front := b[..|b| - 1];
      KeptRowsAreTheIncompleteOnes(front, row);
      assert b == front + [b[|b| - 1]];
    }
  }

  /** Clearing keeps the row count and leaves no complete row behind. */
  lemma ClearedShape(b: Board)
    ensures |Cleared(b)| == |b|
    ensures forall i :: 0 <= i < |b| ==> !IsComplete(Cleared(b)[i])
    ensures IsBoard(b) ==> IsBoard(Cleared(b))
  {
    KeptPlusClearedIsAll(b);
    var n := CountComplete(b);
    forall i | 0 <= i < |b| ensures !IsComplete(Cleared(b)[i]) && (IsBoard(b) ==> |Cleared(b)[i]| == COLS) {
      if i < n {
        assert Cleared(b)[i] == ZeroRow();
        assert ZeroRow()[0] == 0;
      } else {
        var row := Cleared(b)[i];
        assert row == Incomplete(b)[i - n];
        assert row in Incomplete(b);
        KeptRowsAreTheIncompleteOnes(b, row);
      }
    }
  }

  /** Clearing a board gives a board. */
  lemma ClearedIsBoard(b: Board)
    requires IsBoard(b)
    ensures IsBoard(Cleared(b))
  {
    ClearedShape(b);
  }

  /** Without a complete row nothing is removed. */
  lemma {:induction false} NoCompleteRowIsFixpoint(b: Board)
    requires forall i :: 0 <= i < |b| ==> !IsComplete(b[i])
    ensures CountComplete(b) == 0 && Incomplete(b) == b && Cleared(b) == b
  {
    if b != [] {
      NoCompleteRowIsFixpoint(b[..|b| - 1]);
      assert b[..|b| - 1] + [b[|b| - 1]] == b;
    }
  }

  /** Nothing is cleared exactly when no row is complete. */
  lemma {:induction false} NothingClearedIffNoCompleteRow(b: Board)
    ensures CountComplete(b) == 0 <==> forall i :: 0 <= i < |b| ==> !IsComplete(b[i])
  {
    if b != [] {
      var front := b[..|b| - 1];
      NothingClearedIffNoCompleteRow(front);
      if CountComplete(b) == 0 {
        forall i | 0 <= i < |b| ensures !IsComplete(b[i]) {
          if i < |front| {
            assert b[i] == front[i];
          }
        }
      } else if CountComplete(front) == 0 {
        assert IsComplete(b[|b| - 1]);
      } else {
        var i :| 0 <= i < |front| && IsComplete(front[i]);
        assert b[i] == front[i];
      }
    }
  }

  /** A second clearing pass clears nothing and changes nothing. */
  lemma ClearLinesIsIdempotent(b: Board)
    ensures CountComplete(Cleared(b)) == 0
    ensures Cleared(Cleared(b)) == Cleared(b)
  {
    ClearedShape(b);
    NoCompleteRowIsFixpoint(Cleared(b));
  }

  // ---------------------------------------------------------------------
  // Scoring, levelling and fall speed
  // ---------------------------------------------------------------------

  /** The line-count table times the level; a count outside the table scores nothing. */
  function CalculateScore(linesCleared: int, level: int): int
  {
    var points := if 0 <= linesCleared < |LINE_POINTS| then LINE_POINTS[linesCleared] else 0;
    points * level
  }

  function CalculateLevel(totalLinesCleared: int): int
  {
    totalLinesCleared / 10 + 1
  }

  function CalculateDropInterval(level: int): int
  {
    var interval := 1000 - (level - 1) * 50;
    if interval > 100 then interval else 100
  }

  lemma ScoreTable(level: int)
    ensures CalculateScore(0, level) == 0
    ensures CalculateScore(1, level) == 40 * level
    ensures CalculateScore(2, level) == 100 * level
    ensures CalculateScore(3, level) == 300 * level
    ensures CalculateScore(4, level) == 1200 * level
    ensures forall n :: n < 0 || n > 4 ==> CalculateScore(n, level) == 0
  {
  }

  /** At a positive level a score delta lies in [0, 1200 * level] and grows with the rows cleared. */
  lemma ScoreBoundsAndOrder(n: int, m: int, level: int)
    requires level >= 1
    ensures 0 <= CalculateScore(n, level) <= 1200 * level
    ensures 0 <= n < m <= 4 ==> CalculateScore(n, level) < CalculateScore(m, level)
  {
    var p := if 0 <= n < |LINE_POINTS| then LINE_POINTS[n] else 0;
    assert 0 <= p <= 1200;
    assert p * level <= 1200 * level;
    if 0 <= n < m <= 4 {
      var q := LINE_POINTS[m];
      assert p < q;
      assert p * level < q * level;
    }
  }

  /** A higher level never pays less for the same clear. */
  lemma ScoreGrowsWithLevel(n: int, level1: int, level2: int)
    requires level1 <= level2
    ensures CalculateScore(n, level1) <= CalculateScore(n, level2)
  {
    var p := if 0 <= n < |LINE_POINTS| then LINE_POINTS[n] else 0;
    assert p >= 0;
    assert p * level1 <= p * level2 by {
      assert p * (level2 - level1) >= 0;
    }
  }

  /** The level starts at 1 and never falls as the total grows. */
  lemma LevelIsMonotone(a: int, b: int)
    requires 0 <= a <= b
    ensures 1 <= CalculateLevel(a) <= CalculateLevel(b)
    ensures CalculateLevel(a) == 1 <==> a < 10
  {
  }

  lemma LevelExamples()
    ensures CalculateLevel(0) == 1 && CalculateLevel(9) == 1 && CalculateLevel(10) == 2
    ensures CalculateLevel(19) == 2 && CalculateLevel(20) == 3
  {
  }

  /** The interval is 1000 ms at level 1, never below 100 ms and never rises with the level. */
  lemma DropIntervalBounds(level1: int, level2: int)
    requires level1 <= level2
    ensures CalculateDropInterval(1) == 1000
    ensures 100 <= CalculateDropInterval(level2) <= CalculateDropInterval(level1)
    ensures level1 >= 1 ==> CalculateDropInterval(level1) <= 1000
  {
  }

  lemma DropIntervalExamples()
    ensures CalculateDropInterval(5) == 800 && CalculateDropInterval(19) == 100 && CalculateDropInterval(21) == 100
  {
  }
}
