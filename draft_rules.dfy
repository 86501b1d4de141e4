/**
 * The rules that the two earlier, self-contained game components
 * (src/App.jsx and src/TetrisGame.jsx) each define for themselves, in the
 * same words: a block is a cell with a positive value, a block above the
 * top edge never collides, a locked board is cleared by filtering out its
 * full rows, and a hard drop locks, clears and spawns in one step, testing
 * the spawned piece against the board as it was before the lock.
 *
 * Each rule is tied to the library's (src/utils/tetrisUtils.js) by a lemma
 * that says where the two agree and where they part.
 */
module DraftRules {
  import opened Wrappers
  import opened TetrisConstants
  import opened TetrisUtils
  import TetrisEngine

  type State = TetrisEngine.State

  // ---------------------------------------------------------------------
  // Cells with a positive value
  // ---------------------------------------------------------------------

  /** No cell is negative. */
  ghost predicate NonNegative(m: seq<seq<int>>)
  {
    forall r, c :: 0 <= r < |m| && 0 <= c < |m[r]| ==> m[r][c] >= 0
  }

  /** The matrix has a cell the drafts count as a block. */
  ghost predicate HasPositive(m: Shape)
  {
    exists r, c :: 0 <= r < |m| && 0 <= c < |m[r]| && m[r][c] > 0
  }

  /** A piece the drafts can hold: a rectangle with a block, no negative cell and a non-negative tag. */
  ghost predicate DraftPieceOk(p: Piece)
  {
    IsRect(p.shape) && HasPositive(p.shape) && NonNegative(p.shape) && p.colorIndex >= 0
  }

  /** Every catalog shape, with its tag, makes a piece the drafts can hold. */
  lemma CatalogPieceOk(index: int, x: int, y: int)
    requires 0 <= index < |SHAPES|
    ensures DraftPieceOk(Piece(x, y, SHAPES[index], index + 1))
  {
    ShapesAreSquares();
    ShapeCellsCarryTheirTag();
    var n :| 2 <= n <= 4 && IsSquare(SHAPES[index], n);
    assert SHAPES[index][1][1] > 0 by {
      if index == 0 {} else if index == 1 {} else if index == 2 {} else if index == 3 {}
      else if index == 4 {} else if index == 5 {} else {}
    }
  }

  /** The first block of catalog shape `index`, in reading order, carries the tag index + 1. */
  lemma CatalogFirstTag(index: int)
    requires 0 <= index < |SHAPES|
    ensures FirstTag(SHAPES[index]) == index + 1
  {
    CatalogPieceOk(index, 0, 0);
    ShapeCellsCarryTheirTag();
    var m := SHAPES[index];
    var r0, c0 :| 0 <= r0 < |m| && 0 <= c0 < |m[r0]| && m[r0][c0] > 0;
    assert HasBlock(m);
    FirstTagIsFirstBlock(m);
    var r, c :| 0 <= r < |m| && 0 <= c < |m[r]| && m[r][c] == FirstTag(m);
    assert m[r][c] == 0 || m[r][c] == index + 1;
  }

  // ---------------------------------------------------------------------
  // Collision
  // ---------------------------------------------------------------------

  /** Out to the sides or below the floor, or on a filled cell; a row above the top is open. */
  ghost predicate DraftBlocked(board: Board, boardX: int, boardY: int)
    requires IsBoard(board)
  {
    boardX < 0 || boardX >= COLS || boardY >= ROWS || (boardY >= 0 && board[boardY][boardX] > 0)
  }

  /** Some block of the shape, placed with its top-left corner at (x, y), is blocked. */
  ghost predicate DraftCollides(x: int, y: int, shape: Shape, board: Board)
    requires IsBoard(board)
  {
    exists r, c :: 0 <= r < |shape| && 0 <= c < |shape[r]| && shape[r][c] > 0 && DraftBlocked(board, x + c, y + r)
  }

  /** `checkCollision`: scan the shape row by row and stop at the first blocked block. */
  method CheckCollision(x: int, y: int, shape: Shape, board: Board) returns (hit: bool)
    requires IsBoard(board)
    ensures hit == DraftCollides(x, y, shape, board)
  {
    for row := 0 to |shape|
      invariant forall r, c :: 0 <= r < row && 0 <= c < |shape[r]| && shape[r][c] > 0 ==> !DraftBlocked(board, x + c, y + r)
    {
      for col := 0 to |shape[row]|
        invariant forall c :: 0 <= c < col && shape[row][c] > 0 ==> !DraftBlocked(board, x + c, y + row)
      {
        if shape[row][col] > 0 {
          var boardX := x + col;
          var boardY := y + row;
          if boardX < 0 || boardX >= COLS || boardY >= ROWS || (boardY >= 0 && board[boardY][boardX] > 0) {
            assert DraftBlocked(board, x + col, y + row);
            return true;
          }
        }
      }
    }
    return false;
  }

  /**
   * On non-negative matrices a draft collision is a library collision, and
   * at or below the top row the two tests agree.
   */
  lemma DraftCollisionAgreesBelowTop(x: int, y: int, shape: Shape, board: Board)
    requires IsBoard(board) && NonNegative(shape) && NonNegative(board)
    ensures DraftCollides(x, y, shape, board) ==> Collides(x, y, shape, board)
    ensures y >= 0 ==> (Collides(x, y, shape, board) ==> DraftCollides(x, y, shape, board))
  {
    if DraftCollides(x, y, shape, board) {
      var r, c :| 0 <= r < |shape| && 0 <= c < |shape[r]| && shape[r][c] > 0 && DraftBlocked(board, x + c, y + r);
      assert Blocked(board, x + c, y + r);
    }
    if y >= 0 && Collides(x, y, shape, board) {
      var r, c :| 0 <= r < |shape| && 0 <= c < |shape[r]| && shape[r][c] != 0 && Blocked(board, x + c, y + r);
      assert DraftBlocked(board, x + c, y + r);
    }
  }

  /** Where they part: a block above the top edge collides for the library and not for the drafts. */
  lemma CeilingIsOpen()
    ensures Collides(0, -1, [[1]], CreateEmptyBoard())
    ensures !DraftCollides(0, -1, [[1]], CreateEmptyBoard())
  {
    var shape: Shape := [[1]];
    assert shape[0][0] != 0 && Blocked(CreateEmptyBoard(), 0 + 0, -1 + 0);
  }

  // ---------------------------------------------------------------------
  // Rotation
  // ---------------------------------------------------------------------

  /**
   * `rotateMatrix`: a zero matrix with the sides swapped, and every nonzero
   * cell (y, x) copied to (x, rows - 1 - y). It is the library's clockwise
   * quarter turn.
   */
  method RotateMatrix(matrix: Shape) returns (newMatrix: Shape)
    requires IsRect(matrix)
    ensures newMatrix == RotatePieceMatrix(matrix)
  {
    var rows := |matrix|;
    var cols := |matrix[0]|;
    newMatrix := seq(cols, _ => seq(rows, _ => 0));
    for y := 0 to rows
      invariant |newMatrix| == cols && forall i :: 0 <= i < cols ==> |newMatrix[i]| == rows
      invariant forall i, j :: 0 <= i < cols && 0 <= j < rows ==>
        newMatrix[i][j] == if rows - 1 - j < y then matrix[rows - 1 - j][i] else 0
    {
      for x := 0 to cols
        invariant |newMatrix| == cols && forall i :: 0 <= i < cols ==> |newMatrix[i]| == rows
        invariant forall i, j :: 0 <= i < cols && 0 <= j < rows ==>
          newMatrix[i][j] == if rows - 1 - j < y || (rows - 1 - j == y && i < x) then matrix[rows - 1 - j][i] else 0
      {
        if matrix[y][x] != 0 {
          newMatrix := newMatrix[x := newMatrix[x][rows - 1 - y := matrix[y][x]]];
        }
      }
    }
    var turned := RotatePieceMatrix(matrix);
    forall i | 0 <= i < cols ensures newMatrix[i] == turned[i] {
      forall j | 0 <= j < rows ensures newMatrix[i][j] == turned[i][j] {
        RotatedCell(matrix, i, j);
      }
    }
  }

  // ---------------------------------------------------------------------
  // Locking
  // ---------------------------------------------------------------------

  /** Board cell (boardX, boardY) lies under a positive cell of the piece. */
  ghost predicate CoversPositive(p: Piece, boardX: int, boardY: int)
  {
    0 <= boardY - p.y < |p.shape| && 0 <= boardX - p.x < |p.shape[boardY - p.y]| &&
    p.shape[boardY - p.y][boardX - p.x] > 0
  }

  /** The board with the piece's tag in every in-bounds cell under a positive cell. */
  ghost function LockedBoard(p: Piece, board: Board): (locked: Board)
    requires IsBoard(board)
    ensures IsBoard(locked)
  {
    seq(ROWS, r requires 0 <= r < ROWS =>
      seq(COLS, c requires 0 <= c < COLS => if CoversPositive(p, c, r) then p.colorIndex else board[r][c]))
  }

  /** `lockPiece`: copy the board and write the tag under every positive cell that is on the board. */
  method LockPiece(p: Piece, board: Board) returns (newBoard: Board)
    requires IsBoard(board)
    ensures newBoard == LockedBoard(p, board)
  {
    newBoard := board;
    for row := 0 to |p.shape|
      invariant IsBoard(newBoard)
      invariant forall r, c :: 0 <= r < ROWS && 0 <= c < COLS ==>
        newBoard[r][c] == if CoversPositive(p, c, r) && r - p.y < row then p.colorIndex else board[r][c]
    {
      for col := 0 to |p.shape[row]|
        invariant IsBoard(newBoard)
        invariant forall r, c :: 0 <= r < ROWS && 0 <= c < COLS ==>
          newBoard[r][c] ==
            if CoversPositive(p, c, r) && (r - p.y < row || (r - p.y == row && c - p.x < col)) then p.colorIndex
            else board[r][c]
      {
        if p.shape[row][col] > 0 {
          var boardX := p.x + col;
          var boardY := p.y + row;
          if boardY >= 0 && boardY < ROWS && boardX >= 0 && boardX < COLS {
            newBoard := newBoard[boardY := newBoard[boardY][boardX := p.colorIndex]];
          }
        }
      }
    }
    forall r | 0 <= r < ROWS ensures newBoard[r] == LockedBoard(p, board)[r] {
    }
  }

  /** For a shape with no negative cell, locking is the library's merge. */
  lemma LockAgreesWithMerge(p: Piece, board: Board)
    requires IsBoard(board) && NonNegative(p.shape)
    ensures LockedBoard(p, board) == Merged(p, board)
  {
    forall r | 0 <= r < ROWS ensures LockedBoard(p, board)[r] == Merged(p, board)[r] {
    }
  }

  /** Locking a piece with a non-negative tag keeps the board free of negative cells. */
  lemma LockKeepsNonNegative(p: Piece, board: Board)
    requires IsBoard(board) && NonNegative(board) && p.colorIndex >= 0
    ensures NonNegative(LockedBoard(p, board))
  {
  }

  // ---------------------------------------------------------------------
  // Clearing full rows
  // ---------------------------------------------------------------------

  /** Every cell of the row is positive (`row.every(cell => cell > 0)`). */
  predicate IsFull(row: Row)
  {
    forall c :: 0 <= c < |row| ==> row[c] > 0
  }

  /** The rows that are not full, in their original order (`board.filter(...)`). */
  function Unfilled(b: Board): (kept: Board)
    ensures |kept| <= |b|
  {
    if b == [] then [] else Unfilled(b[..|b| - 1]) + (if IsFull(b[|b| - 1]) then [] else [b[|b| - 1]])
  }

  /**
   * `clearLines` and the hard drop's inline clear: the count is ROWS minus
   * the rows kept; when it is positive the kept rows get that many empty
   * rows on top, otherwise the board is left as it was.
   */
  function ClearFullRows(b: Board): (result: (Board, int))
    requires |b| == ROWS
    ensures 0 <= result.1 <= ROWS
  {
    var kept := Unfilled(b);
    var n := ROWS - |kept|;
    if n > 0 then (ZeroRows(n) + kept, n) else (b, n)
  }

  /** On a board with no negative cell, "full" and "complete" mean the same and the filters agree. */
  lemma {:induction false} UnfilledIsIncomplete(b: Board)
    requires NonNegative(b)
    ensures Unfilled(b) == Incomplete(b)
  {
    if b != [] {
      var front := b[..|b| - 1];
      assert forall r :: 0 <= r < |front| ==> front[r] == b[r];
      UnfilledIsIncomplete(front);
      assert IsFull(b[|b| - 1]) == IsComplete(b[|b| - 1]);
    }
  }

  /** The drafts' clear is the library's clear, and its count the library's count. */
  lemma ClearFullRowsAgreesWithLibrary(b: Board)
    requires IsBoard(b) && NonNegative(b)
    ensures ClearFullRows(b) == (Cleared(b), CountComplete(b))
  {
    UnfilledIsIncomplete(b);
    KeptPlusClearedIsAll(b);
    if CountComplete(b) == 0 {
      NothingClearedIffNoCompleteRow(b);
      NoCompleteRowIsFixpoint(b);
    }
  }

  /** Clearing gives a board with no negative cell, and counts rows that were full. */
  lemma ClearFullRowsGivesBoard(b: Board)
    requires IsBoard(b) && NonNegative(b)
    ensures IsBoard(ClearFullRows(b).0) && NonNegative(ClearFullRows(b).0)
    ensures ClearFullRows(b).1 == CountComplete(b)
  {
    ClearFullRowsAgreesWithLibrary(b);
    ClearedShape(b);
    var cleared := Cleared(b);
    var n := CountComplete(b);
    forall i, c | 0 <= i < |cleared| && 0 <= c < |cleared[i]| ensures cleared[i][c] >= 0 {
      if i >= n {
        assert cleared[i] == Incomplete(b)[i - n];
        assert cleared[i] in Incomplete(b);
        KeptRowsAreTheIncompleteOnes(b, cleared[i]);
      }
    }
  }

  // ---------------------------------------------------------------------
  // Descent
  // ---------------------------------------------------------------------

  /** A placement that fits keeps the shape's top row above the floor. */
  lemma DraftFitIsAboveFloor(x: int, y: int, shape: Shape, board: Board)
    requires IsBoard(board) && HasPositive(shape) && !DraftCollides(x, y, shape, board)
    ensures y < ROWS
  {
    var r, c :| 0 <= r < |shape| && 0 <= c < |shape[r]| && shape[r][c] > 0;
    assert !DraftBlocked(board, x + c, y + r);
  }

  /** The lowest row the piece reaches by moving down one row at a time while the next row is free. */
  ghost function DraftLandingY(x: int, y: int, shape: Shape, board: Board): (landing: int)
    requires IsBoard(board) && HasPositive(shape)
    ensures landing >= y
    decreases ROWS - y
  {
    if DraftCollides(x, y + 1, shape, board) then y
    else
      DraftFitIsAboveFloor(x, y + 1, shape, board);
      DraftLandingY(x, y + 1, shape, board)
  }

  /** The landing row is free all the way down from the start, and the row below it is blocked. */
  lemma {:induction false} DraftLandingYSpec(x: int, y: int, shape: Shape, board: Board)
    requires IsBoard(board) && HasPositive(shape)
    ensures DraftCollides(x, DraftLandingY(x, y, shape, board) + 1, shape, board)
    ensures forall y' :: y < y' <= DraftLandingY(x, y, shape, board) ==> !DraftCollides(x, y', shape, board)
    decreases ROWS - y
  {
    if !DraftCollides(x, y + 1, shape, board) {
      DraftFitIsAboveFloor(x, y + 1, shape, board);
      DraftLandingYSpec(x, y + 1, shape, board);
    }
  }

  /** From the top row down, the drafts' piece lands where the library's lands. */
  lemma {:induction false} DraftLandingAgreesWithLibrary(x: int, y: int, shape: Shape, board: Board)
    requires IsBoard(board) && IsRect(shape) && HasPositive(shape) && NonNegative(shape) && NonNegative(board)
    requires y >= 0
    ensures HasBlock(shape)
    ensures DraftLandingY(x, y, shape, board) == TetrisEngine.LandingY(x, y, shape, board)
    decreases ROWS - y
  {
    var r, c :| 0 <= r < |shape| && 0 <= c < |shape[r]| && shape[r][c] > 0;
    assert shape[r][c] != 0;
    DraftCollisionAgreesBelowTop(x, y + 1, shape, board);
    if !DraftCollides(x, y + 1, shape, board) {
      DraftFitIsAboveFloor(x, y + 1, shape, board);
      DraftLandingAgreesWithLibrary(x, y + 1, shape, board);
    }
  }

  /** The hard drop's `while (!checkCollision(x, newY + 1, shape)) newY++`. */
  method DescendToRest(x: int, y: int, shape: Shape, board: Board) returns (landing: int)
    requires IsBoard(board) && HasPositive(shape)
    ensures landing == DraftLandingY(x, y, shape, board)
  {
    landing := y;
    var hit := CheckCollision(x, landing + 1, shape, board);
    while !hit
      invariant y <= landing
      invariant hit == DraftCollides(x, landing + 1, shape, board)
      invariant DraftLandingY(x, landing, shape, board) == DraftLandingY(x, y, shape, board)
      decreases ROWS - landing
    {
      DraftFitIsAboveFloor(x, landing + 1, shape, board);
      landing := landing + 1;
      hit := CheckCollision(x, landing + 1, shape, board);
    }
  }

  /**
   * The board half of the drafts' hard drop: descend to the landing row,
   * lock there, then clear the full rows.
   */
  method DropLockAndClear(p: Piece, board: Board) returns (finalBoard: Board, linesToClear: int)
    requires IsBoard(board) && HasPositive(p.shape)
    ensures (finalBoard, linesToClear) == ClearFullRows(LockedBoard(p.(y := DraftLandingY(p.x, p.y, p.shape, board)), board))
  {
    var newY := DescendToRest(p.x, p.y, p.shape, board);
    var newBoard := LockPiece(p.(y := newY), board);
    var cleared := ClearFullRows(newBoard);
    finalBoard, linesToClear := cleared.0, cleared.1;
  }

  // ---------------------------------------------------------------------
  // Rotation with sideways offsets
  // ---------------------------------------------------------------------

  /** The index of the first offset at which the shape fits, when one does. */
  ghost function FirstFree(x: int, y: int, shape: Shape, board: Board, offsets: seq<int>): (k: Option<nat>)
    requires IsBoard(board)
    ensures k.Some? ==> k.value < |offsets|
  {
    if offsets == [] then None
    else if !DraftCollides(x + offsets[0], y, shape, board) then Some(0)
    else match FirstFree(x, y, shape, board, offsets[1..])
      case None => None
      case Some(j) => Some(j + 1)
  }

  /** The offset found fits and every earlier one collides; with none found every offset collides. */
  lemma {:induction false} FirstFreeSpec(x: int, y: int, shape: Shape, board: Board, offsets: seq<int>)
    requires IsBoard(board)
    ensures var k := FirstFree(x, y, shape, board, offsets);
      (k.Some? ==> !DraftCollides(x + offsets[k.value], y, shape, board) &&
                   forall j :: 0 <= j < k.value ==> DraftCollides(x + offsets[j], y, shape, board)) &&
      (k.None? ==> forall j :: 0 <= j < |offsets| ==> DraftCollides(x + offsets[j], y, shape, board))
  {
    if offsets != [] && DraftCollides(x + offsets[0], y, shape, board) {
      var rest := offsets[1..];
      FirstFreeSpec(x, y, shape, board, rest);
      assert forall j :: 0 < j < |offsets| ==> offsets[j] == rest[j - 1];
    }
  }

  /** An offset that fits after all earlier ones collided is the one found. */
  lemma {:induction false} FirstFreeIsFirst(x: int, y: int, shape: Shape, board: Board, offsets: seq<int>, k: int)
    requires IsBoard(board) && 0 <= k < |offsets|
    requires forall j :: 0 <= j < k ==> DraftCollides(x + offsets[j], y, shape, board)
    requires !DraftCollides(x + offsets[k], y, shape, board)
    ensures FirstFree(x, y, shape, board, offsets) == Some(k)
  {
    if k > 0 {
      var rest := offsets[1..];
      assert forall j :: 0 <= j < k - 1 ==> rest[j] == offsets[j + 1];
      FirstFreeIsFirst(x, y, shape, board, rest, k - 1);
    }
  }

  // ---------------------------------------------------------------------
  // Component state
  // ---------------------------------------------------------------------

  /**
   * What the drafts' actions keep: a full-size board with no negative cell,
   * pieces they can hold, a current piece exactly while started (game over
   * clears it), never over and started at once, paused only while started,
   * and level and speed that follow from the line count. Unlike the
   * library hook's state, the current piece may overlap the stack.
   */
  ghost predicate DraftInv(s: State)
  {
    IsBoard(s.board) && NonNegative(s.board) &&
    DraftPieceOk(s.nextPiece) &&
    (s.currentPiece.Some? ==> DraftPieceOk(s.currentPiece.value)) &&
    (s.currentPiece.Some? <==> s.gameStarted) &&
    !(s.gameOver && s.gameStarted) &&
    (s.isPaused ==> s.gameStarted) &&
    s.score >= 0 && s.linesCleared >= 0 &&
    s.level == CalculateLevel(s.linesCleared) &&
    s.dropInterval == CalculateDropInterval(s.level)
  }

  /** The guard of the drafts' rotate and hard drop. */
  ghost predicate Acts(s: State)
  {
    s.currentPiece.Some? && !s.gameOver && !s.isPaused && s.gameStarted
  }

  /** The state before any game and after `handleRestartGame`: an empty board, nothing falling, not started. */
  ghost function NotStarted(next: Piece): State
  {
    TetrisEngine.State(CreateEmptyBoard(), None, next, 0, 1, 0, false, false, false, 0, 0,
                       TetrisEngine.START_DROP_INTERVAL)
  }

  lemma NotStartedIsValid(next: Piece)
    requires DraftPieceOk(next)
    ensures DraftInv(NotStarted(next))
  {
  }

  /** Rotation: the rotated shape at the first offset that fits, or no change. */
  ghost function RotatedWith(s: State, offsets: seq<int>): State
    requires DraftInv(s)
  {
    if !Acts(s) then s
    else
      var p := s.currentPiece.value;
      var rotated := RotatePieceMatrix(p.shape);
      match FirstFree(p.x, p.y, rotated, s.board, offsets)
      case None => s
      case Some(k) => s.(currentPiece := Some(p.(x := p.x + offsets[k], shape := rotated)))
  }

  lemma RotatedWithPreservesInv(s: State, offsets: seq<int>)
    requires DraftInv(s)
    ensures DraftInv(RotatedWith(s, offsets))
  {
    if Acts(s) {
      var p := s.currentPiece.value;
      RotationKeepsBlocks(p.shape);
      RotationIsQuarterTurn(p.shape);
      var rotated := RotatePieceMatrix(p.shape);
      assert IsRect(rotated);
      var r, c :| 0 <= r < |p.shape| && 0 <= c < |p.shape[r]| && p.shape[r][c] > 0;
      assert rotated[c][|p.shape| - 1 - r] == p.shape[r][c];
      assert NonNegative(rotated);
    }
  }

  /** A rotation blocked at every offset leaves the state unchanged. */
  lemma RotatedWithBlockedChangesNothing(s: State, offsets: seq<int>)
    requires DraftInv(s) && Acts(s)
    requires var p := s.currentPiece.value;
      forall j :: 0 <= j < |offsets| ==> DraftCollides(p.x + offsets[j], p.y, RotatePieceMatrix(p.shape), s.board)
    ensures RotatedWith(s, offsets) == s
  {
    var p := s.currentPiece.value;
    FirstFreeSpec(p.x, p.y, RotatePieceMatrix(p.shape), s.board, offsets);
  }

  /** Otherwise the piece turns and moves by the first offset at which it fits. */
  lemma RotatedWithUsesFirstFreeOffset(s: State, offsets: seq<int>, k: int)
    requires DraftInv(s) && Acts(s) && 0 <= k < |offsets|
    requires var p := s.currentPiece.value;
      (forall j :: 0 <= j < k ==> DraftCollides(p.x + offsets[j], p.y, RotatePieceMatrix(p.shape), s.board)) &&
      !DraftCollides(p.x + offsets[k], p.y, RotatePieceMatrix(p.shape), s.board)
    ensures var p := s.currentPiece.value;
      RotatedWith(s, offsets) ==
        s.(currentPiece := Some(Piece(p.x + offsets[k], p.y, RotatePieceMatrix(p.shape), p.colorIndex)))
  {
    var p := s.currentPiece.value;
    FirstFreeIsFirst(p.x, p.y, RotatePieceMatrix(p.shape), s.board, offsets, k);
  }

  /**
   * The hard drop both drafts inline: drop to the landing row, lock, clear,
   * score the rows cleared with the given multiplier, raise the level only
   * when the new one is higher, then promote the next piece unless it
   * collides with the board as it was BEFORE the lock, in which case the
   * game ends with nothing falling.
   */
  ghost function CommonHardDrop(s: State, multiplier: int, spawn: Piece): State
    requires DraftInv(s)
  {
    if !Acts(s) then s
    else
      var p := s.currentPiece.value;
      var landed := p.(y := DraftLandingY(p.x, p.y, p.shape, s.board));
      var cleared := ClearFullRows(LockedBoard(landed, s.board));
      var n := cleared.1;
      var newTotal := s.linesCleared + n;
      var newLevel := CalculateLevel(newTotal);
      var raise := n > 0 && newLevel > s.level;
      var over := DraftCollides(s.nextPiece.x, s.nextPiece.y, s.nextPiece.shape, s.board);
      s.(board := cleared.0,
         score := if n > 0 then s.score + CalculateScore(n, multiplier) else s.score,
         linesCleared := if n > 0 then newTotal else s.linesCleared,
         level := if raise then newLevel else s.level,
         dropInterval := if raise then CalculateDropInterval(newLevel) else s.dropInterval,
         nextPiece := spawn,
         currentPiece := if over then None else Some(s.nextPiece),
         gameOver := over,
         gameStarted := !over,
         dropCounter := 0)
  }

  /**
   * The hard drop as the drafts' callback computes it from the state it
   * was rendered with; the component then hands each new value to its setter.
   */
  method HardDropUpdate(s: State, multiplier: int, spawn: Piece) returns (t: State)
    requires DraftInv(s)
    ensures t == CommonHardDrop(s, multiplier, spawn)
  {
    t := s;
    if s.currentPiece.Some? && !s.gameOver && !s.isPaused && s.gameStarted {
      var p := s.currentPiece.value;
      var finalBoard, linesToClear := DropLockAndClear(p, s.board);
      var score, linesCleared, level, dropInterval := s.score, s.linesCleared, s.level, s.dropInterval;
      if linesToClear > 0 {
        score := score + CalculateScore(linesToClear, multiplier);
        var newTotalLines := linesCleared + linesToClear;
        var newLevel := CalculateLevel(newTotalLines);
        if newLevel > s.level {
          level := newLevel;
          dropInterval := CalculateDropInterval(newLevel);
        }
        linesCleared := newTotalLines;
      }
      var next := s.nextPiece;
      var over := CheckCollision(next.x, next.y, next.shape, s.board);
      t := s.(board := finalBoard, score := score, linesCleared := linesCleared, level := level,
              dropInterval := dropInterval, nextPiece := spawn,
              currentPiece := if over then None else Some(next),
              gameOver := over, gameStarted := !over, dropCounter := 0);
    }
  }

  lemma CommonHardDropPreservesInv(s: State, multiplier: int, spawn: Piece)
    requires DraftInv(s) && DraftPieceOk(spawn) && multiplier >= 1
    ensures DraftInv(CommonHardDrop(s, multiplier, spawn))
  {
    if Acts(s) {
      var p := s.currentPiece.value;
      var landed := p.(y := DraftLandingY(p.x, p.y, p.shape, s.board));
      var locked := LockedBoard(landed, s.board);
      LockKeepsNonNegative(landed, s.board);
      ClearFullRowsGivesBoard(locked);
      var n := ClearFullRows(locked).1;
      LevelIsMonotone(s.linesCleared, s.linesCleared + n);
      ScoreBoundsAndOrder(n, n, multiplier);
    }
  }

  /**
   * What a hard drop does, in the library's terms: the board is the
   * library's clear of the library's merge at the landing row, and score
   * and line count grow by what that clear counts. The game ends exactly
   * when the next piece collides with the board as it was before the lock.
   */
  lemma HardDropInLibraryTerms(s: State, multiplier: int, spawn: Piece)
    requires DraftInv(s) && Acts(s)
    ensures var p := s.currentPiece.value;
      var landed := p.(y := DraftLandingY(p.x, p.y, p.shape, s.board));
      var merged := Merged(landed, s.board);
      var t := CommonHardDrop(s, multiplier, spawn);
      t.board == Cleared(merged) &&
      t.score == s.score + CalculateScore(CountComplete(merged), multiplier) &&
      t.linesCleared == s.linesCleared + CountComplete(merged) &&
      (t.gameOver <==> DraftCollides(s.nextPiece.x, s.nextPiece.y, s.nextPiece.shape, s.board)) &&
      t.nextPiece == spawn && t.dropCounter == 0
  {
    var p := s.currentPiece.value;
    var landed := p.(y := DraftLandingY(p.x, p.y, p.shape, s.board));
    LockAgreesWithMerge(landed, s.board);
    var merged := Merged(landed, s.board);
    LockKeepsNonNegative(landed, s.board);
    ClearFullRowsAgreesWithLibrary(merged);
    ScoreTable(multiplier);
  }

  /** The piece comes to rest: it fits on its landing row and is blocked one row lower. */
  lemma HardDropLandsOnTheStack(s: State)
    requires DraftInv(s) && Acts(s)
    ensures var p := s.currentPiece.value;
      var landing := DraftLandingY(p.x, p.y, p.shape, s.board);
      landing >= p.y &&
      DraftCollides(p.x, landing + 1, p.shape, s.board) &&
      forall y' :: p.y < y' <= landing ==> !DraftCollides(p.x, y', p.shape, s.board)
  {
    var p := s.currentPiece.value;
    DraftLandingYSpec(p.x, p.y, p.shape, s.board);
  }

  lemma TogglePreservesInv(s: State)
    requires DraftInv(s)
    ensures DraftInv(TetrisEngine.TogglePaused(s))
  {
  }
}
