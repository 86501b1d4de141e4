/**
 * The second, self-contained game component (src/TetrisGame.jsx). It shares
 * the drafts' rules (see DraftRules) and differs from the first component
 * in three places: a drawn index always names a catalog shape (there is no
 * fallback piece), the rotation's sideways search is a loop whose reach
 * grows with the shape, and starting is refused only once the game is over.
 */
module TetrisGameDraft {
  import opened Wrappers
  import opened TetrisConstants
  import opened TetrisUtils
  import opened DraftRules
  import TetrisEngine
  import AppDraft

  /** `createRandomPiece` for the drawn index: the catalog shape centred at the top, tagged index + 1. */
  function CreateRandomPieceAt(index: int): Piece
    requires 0 <= index < |SHAPES|
  {
    Piece(COLS / 2 - |SHAPES[index][0]| / 2, 0, SHAPES[index], index + 1)
  }

  /** It spawns the library's piece, and the first component's, and one the drafts can hold. */
  lemma CreateRandomPieceAtIsLibrarySpawn(index: int)
    requires 0 <= index < |SHAPES|
    ensures CreateRandomPieceAt(index) == SpawnPiece(SHAPES, index)
    ensures CreateRandomPieceAt(index) == AppDraft.CreateRandomPieceAt(SHAPES, index)
    ensures DraftPieceOk(CreateRandomPieceAt(index))
  {
    CatalogFirstTag(index);
    CatalogPieceOk(index, COLS / 2 - |SHAPES[index][0]| / 2, 0);
  }

  // ---------------------------------------------------------------------
  // The rotation's sideways search
  // ---------------------------------------------------------------------

  /** `Math.abs`. */
  function Abs(n: int): nat
  {
    if n < 0 then -n else n
  }

  /**
   * The k-th step of the search, for k >= 1: it starts at 1 and each step is
   * the previous one pushed one further from zero and turned around, as
   * `offsetX = -(offsetX + (offsetX > 0 ? 1 : -1))` does.
   */
  function KickStep(k: nat): int
  {
    if k <= 1 then 1 else -(KickStep(k - 1) + (if KickStep(k - 1) > 0 then 1 else -1))
  }

  /** The k-th position the search tests, as an offset from the piece: 0, 1, -1, 2, -2, ... */
  function KickPos(k: nat): int
  {
    if k == 0 then 0 else KickPos(k - 1) + KickStep(k)
  }

  /** The offsets tested for a rotated shape `width` cells wide: positions 0 to width. */
  function LoopKicks(width: nat): seq<int>
  {
    seq(width + 1, k requires 0 <= k <= width => KickPos(k))
  }

  /** The search moves right and left in turn, one cell further each time it goes right. */
  lemma {:induction false} KickPosAlternates(k: nat)
    ensures KickPos(k) == if k % 2 == 1 then (k + 1) / 2 else -(k / 2)
  {
    if k > 0 {
      KickPosAlternates(k - 1);
      KickStepClosedForm(k);
    }
  }

  /** The steps are 1, -2, 3, -4, ...: step k has magnitude k and is positive exactly for odd k. */
  lemma {:induction false} KickStepClosedForm(k: nat)
    requires k >= 1
    ensures KickStep(k) == if k % 2 == 1 then k else -(k as int)
    ensures Abs(KickStep(k)) == k
  {
    if k > 1 {
      KickStepClosedForm(k - 1);
    }
  }

  /** Step k has magnitude k. */
  lemma KickStepSize(k: nat)
    requires k >= 1
    ensures Abs(KickStep(k)) == k
  {
    KickStepClosedForm(k);
  }

  /**
   * For the catalog's widths the offsets tested are the first ones of the
   * first component's list: a 2-wide shape tries 0, 1, -1, a 3-wide one
   * adds 2, a 4-wide one adds -2.
   */
  lemma LoopKicksArePrefixesOfAppKicks(width: nat)
    requires 2 <= width <= 4
    ensures LoopKicks(width) == AppDraft.APP_KICKS[..width + 1]
  {
    var kicks := LoopKicks(width);
    forall k | 0 <= k <= width ensures kicks[k] == AppDraft.APP_KICKS[k] {
      KickPosAlternates(k);
    }
  }

  /** Every position the search tests before the k-th collides. */
  ghost predicate CollidesBefore(x: int, y: int, shape: Shape, board: Board, k: nat)
    requires IsBoard(board)
  {
    forall j :: 0 <= j < k ==> DraftCollides(x + KickPos(j), y, shape, board)
  }

  /** The x the search settles on: the first of the positions 0 to the shape's width that fits, or none. */
  ghost function KickedX(x: int, y: int, shape: Shape, board: Board): Option<int>
    requires IsBoard(board) && IsRect(shape)
  {
    var k := FirstFree(x, y, shape, board, LoopKicks(Width(shape)));
    if k.None? then None else Some(x + KickPos(k.value))
  }

  /** A colliding k-th position extends the run of colliding positions by one. */
  lemma CollidesBeforeNext(x: int, y: int, shape: Shape, board: Board, k: nat)
    requires IsBoard(board) && CollidesBefore(x, y, shape, board, k)
    requires DraftCollides(x + KickPos(k), y, shape, board)
    ensures CollidesBefore(x, y, shape, board, k + 1)
  {
  }

  /**
   * The loop of `rotatePiece`'s search: while the current position
   * collides, step by 1, -2, 3, ... and give up on a step longer than
   * `width` (the position it reaches is never tested). Either x + KickPos(k)
   * fits (`found`) or every position up to x + KickPos(width) collides.
   */
  method KickSearch(x: int, y: int, shape: Shape, board: Board, width: nat) returns (found: bool, candidate: int, ghost k: nat)
    requires IsBoard(board)
    ensures found ==> k <= width && CollidesBefore(x, y, shape, board, k) &&
                      candidate == x + KickPos(k) && !DraftCollides(candidate, y, shape, board)
    ensures !found ==> CollidesBefore(x, y, shape, board, width + 1)
  {
    candidate := x;
    var offsetX := 1;
    k := 0;
    found := true;
    var hit := DraftRules.CheckCollision(candidate, y, shape, board);
    while hit
      invariant 0 <= k <= width
      invariant candidate == x + KickPos(k) && offsetX == KickStep(k + 1)
      invariant CollidesBefore(x, y, shape, board, k)
      invariant hit == DraftCollides(candidate, y, shape, board)
      decreases width - k
    {
      KickStepSize(k + 1);
      CollidesBeforeNext(x, y, shape, board, k);
      if Abs(offsetX) > width {
        found := false;
        break;
      }
      candidate := candidate + offsetX;
      k := k + 1;
      offsetX := -(offsetX + (if offsetX > 0 then 1 else -1));
      hit := DraftRules.CheckCollision(candidate, y, shape, board);
    }
  }

  /** `rotatePiece`'s search for the rotated shape: the new x, or none when every position collides. */
  method WallKick(x: int, y: int, shape: Shape, board: Board) returns (newX: Option<int>)
    requires IsBoard(board) && IsRect(shape)
    ensures newX == KickedX(x, y, shape, board)
  {
    var found, candidate, k := KickSearch(x, y, shape, board, |shape[0]|);
    if found {
      KickSearchFinds(x, y, shape, board, k);
      newX := Some(candidate);
    } else {
      KickSearchGivesUp(x, y, shape, board);
      newX := None;
    }
  }

  /** A position that fits after all earlier ones collided is the one the search settles on. */
  lemma KickSearchFinds(x: int, y: int, shape: Shape, board: Board, k: nat)
    requires IsBoard(board) && IsRect(shape) && k <= |shape[0]|
    requires CollidesBefore(x, y, shape, board, k)
    requires !DraftCollides(x + KickPos(k), y, shape, board)
    ensures KickedX(x, y, shape, board) == Some(x + KickPos(k))
  {
    var kicks := LoopKicks(Width(shape));
    assert forall j :: 0 <= j < k ==> DraftCollides(x + kicks[j], y, shape, board);
    FirstFreeIsFirst(x, y, shape, board, kicks, k);
  }

  /** When every position up to the width collides, the search settles on none. */
  lemma KickSearchGivesUp(x: int, y: int, shape: Shape, board: Board)
    requires IsBoard(board) && IsRect(shape)
    requires CollidesBefore(x, y, shape, board, |shape[0]| + 1)
    ensures KickedX(x, y, shape, board) == None
  {
    var kicks := LoopKicks(Width(shape));
    assert forall j :: 0 <= j < |kicks| ==> DraftCollides(x + kicks[j], y, shape, board);
    FirstFreeSpec(x, y, shape, board, kicks);
  }

  // ---------------------------------------------------------------------
  // Actions
  // ---------------------------------------------------------------------

  /** `rotatePiece`: the first of the loop's offsets, for a shape as wide as the piece is tall. */
  ghost function Rotated(s: State): State
    requires DraftInv(s)
  {
    if Acts(s) then RotatedWith(s, LoopKicks(|s.currentPiece.value.shape|)) else s
  }

  /** For a piece four rows tall (the I piece) the rotation is the first component's. */
  lemma RotationMatchesAppForFourRows(s: State)
    requires DraftInv(s) && Acts(s) && |s.currentPiece.value.shape| == 4
    ensures Rotated(s) == AppDraft.Rotated(s)
  {
    LoopKicksArePrefixesOfAppKicks(4);
    assert AppDraft.APP_KICKS[..5] == AppDraft.APP_KICKS;
  }

  /** `hardDrop`: the common hard drop with the multiplier `level` and a freshly drawn next piece. */
  ghost function HardDropped(s: State, nextIndex: int): State
    requires DraftInv(s) && 0 <= nextIndex < |SHAPES|
  {
    CommonHardDrop(s, s.level, CreateRandomPieceAt(nextIndex))
  }

  /** The multiplier `level` and `level || 1` never differ in play, so both components hard-drop alike. */
  lemma HardDropMatchesApp(s: State, nextIndex: int)
    requires DraftInv(s) && 0 <= nextIndex < |SHAPES|
    ensures HardDropped(s, nextIndex) == AppDraft.HardDropped(s, nextIndex)
  {
    AppDraft.MultiplierIsTheLevel(s);
    CreateRandomPieceAtIsLibrarySpawn(nextIndex);
  }

  /**
   * `handleStartGame`: refused once over; otherwise, even in mid-game, a
   * new empty board, two drawn pieces, 0/1/0 and the initial interval.
   * The drop counter and the last frame time are kept.
   */
  ghost function Started(s: State, first: Piece, next: Piece): State
  {
    if s.gameOver then s
    else s.(board := CreateEmptyBoard(), currentPiece := Some(first), nextPiece := next,
            score := 0, level := 1, linesCleared := 0, gameOver := false, isPaused := false,
            dropInterval := TetrisEngine.START_DROP_INTERVAL, gameStarted := true)
  }

  lemma StartPreservesInv(s: State, first: Piece, next: Piece)
    requires DraftInv(s) && DraftPieceOk(first) && DraftPieceOk(next)
    ensures DraftInv(Started(s, first, next))
  {
  }

  /**
   * Compared with the library hook's start: from a game not yet started it
   * is the hook's fresh game except that the drop counter and last frame
   * time are kept; in a running game the hook does nothing while this
   * start begins a new game.
   */
  lemma StartComparedWithHook(s: State, first: Piece, next: Piece)
    ensures !s.gameOver && !s.gameStarted ==>
      Started(s, first, next) == TetrisEngine.Fresh(first, next).(dropCounter := s.dropCounter, lastTime := s.lastTime)
    ensures !s.gameOver && s.gameStarted ==>
      TetrisEngine.Started(s, first, next) == s &&
      Started(s, first, next).board == CreateEmptyBoard() && Started(s, first, next).score == 0 &&
      Started(s, first, next).currentPiece == Some(first)
  {
  }

  class Game {
    var board: Board
    var currentPiece: Option<Piece>
    var nextPiece: Piece
    var score: int
    var level: int
    var linesCleared: int
    var gameOver: bool
    var isPaused: bool
    var gameStarted: bool
    var dropCounter: int
    var lastTime: int
    var dropInterval: int

    function Snapshot(): State
      reads this
    {
      TetrisEngine.State(board, currentPiece, nextPiece, score, level, linesCleared, gameOver, isPaused,
                         gameStarted, dropCounter, lastTime, dropInterval)
    }

    ghost predicate Valid()
      reads this
    {
      DraftInv(Snapshot())
    }

    /** The component's initial state: an empty board, nothing falling, a drawn next piece, not started. */
    constructor(nextIndex: int)
      requires 0 <= nextIndex < |SHAPES|
      ensures Valid()
      ensures Snapshot() == NotStarted(CreateRandomPieceAt(nextIndex))
    {
      board := CreateEmptyBoard();
      currentPiece := None;
      nextPiece := CreateRandomPieceAt(nextIndex);
      score := 0;
      level := 1;
      linesCleared := 0;
      gameOver := false;
      isPaused := false;
      gameStarted := false;
      dropCounter := 0;
      lastTime := 0;
      dropInterval := TetrisEngine.START_DROP_INTERVAL;
      new;
      CreateRandomPieceAtIsLibrarySpawn(nextIndex);
      NotStartedIsValid(nextPiece);
    }

    /** The component's setters: every piece of state takes its value from `t`. */
    method Commit(t: State)
      modifies this
      ensures Snapshot() == t
    {
      board, currentPiece, nextPiece, score, level, linesCleared :=
        t.board, t.currentPiece, t.nextPiece, t.score, t.level, t.linesCleared;
      gameOver, isPaused, gameStarted, dropCounter, lastTime, dropInterval :=
        t.gameOver, t.isPaused, t.gameStarted, t.dropCounter, t.lastTime, t.dropInterval;
    }

    /** Rotate; try x, then the loop's offsets; leave the piece alone when none fits. */
    method RotatePiece()
      requires Valid()
      modifies this
      ensures Valid()
      ensures Snapshot() == Rotated(old(Snapshot()))
    {
      ghost var s := Snapshot();
      if currentPiece.Some? && !gameOver && !isPaused && gameStarted {
        var p := currentPiece.value;
        RotatedWithPreservesInv(s, LoopKicks(|p.shape|));
        ghost var r, c :| 0 <= r < |p.shape| && 0 <= c < |p.shape[r]| && p.shape[r][c] > 0;
        var rotatedShape := RotateMatrix(p.shape);
        assert IsRect(rotatedShape) && Width(rotatedShape) == |p.shape|;
        var newX := WallKick(p.x, p.y, rotatedShape, board);
        if newX.Some? {
          currentPiece := Some(p.(x := newX.value, shape := rotatedShape));
        }
      }
      assert Snapshot() == Rotated(s);
    }

    /**
     * Drop to the landing row, lock, clear and score with `level`, then
     * promote the next piece unless it collides with the board this render
     * holds (the board before the lock).
     */
    method HardDrop(nextIndex: int)
      requires Valid() && 0 <= nextIndex < |SHAPES|
      modifies this
      ensures Valid()
      ensures Snapshot() == HardDropped(old(Snapshot()), nextIndex)
    {
      var s := Snapshot();
      var spawn := CreateRandomPieceAt(nextIndex);
      CreateRandomPieceAtIsLibrarySpawn(nextIndex);
      CommonHardDropPreservesInv(s, level, spawn);
      var t := HardDropUpdate(s, level, spawn);
      Commit(t);
    }

    /** `handleTogglePause`: flips the pause only while a game runs. */
    method HandleTogglePause()
      requires Valid()
      modifies this
      ensures Valid()
      ensures Snapshot() == TetrisEngine.TogglePaused(old(Snapshot()))
    {
      ghost var s := Snapshot();
      TogglePreservesInv(s);
      if gameStarted && !gameOver {
        isPaused := !isPaused;
      }
      assert Snapshot() == TetrisEngine.TogglePaused(s);
    }

    /** `handleStartGame`: refused once over; otherwise a new game, the timing refs untouched. */
    method HandleStartGame(firstIndex: int, nextIndex: int)
      requires Valid() && 0 <= firstIndex < |SHAPES| && 0 <= nextIndex < |SHAPES|
      modifies this
      ensures Valid()
      ensures Snapshot() == Started(old(Snapshot()), CreateRandomPieceAt(firstIndex), CreateRandomPieceAt(nextIndex))
    {
      ghost var s := Snapshot();
      var first := CreateRandomPieceAt(firstIndex);
      var next := CreateRandomPieceAt(nextIndex);
      CreateRandomPieceAtIsLibrarySpawn(firstIndex);
      CreateRandomPieceAtIsLibrarySpawn(nextIndex);
      StartPreservesInv(s, first, next);
      if !gameOver {
        Commit(TetrisEngine.State(CreateEmptyBoard(), Some(first), next, 0, 1, 0, false, false, true,
                                  dropCounter, lastTime, TetrisEngine.START_DROP_INTERVAL));
      }
      assert Snapshot() == Started(s, first, next);
    }

    /** `handleRestartGame`: back to the not-started state with a newly drawn next piece. */
    method HandleRestartGame(nextIndex: int)
      requires 0 <= nextIndex < |SHAPES|
      modifies this
      ensures Valid()
      ensures Snapshot() == NotStarted(CreateRandomPieceAt(nextIndex))
    {
      var next := CreateRandomPieceAt(nextIndex);
      CreateRandomPieceAtIsLibrarySpawn(nextIndex);
      NotStartedIsValid(next);
      Commit(TetrisEngine.State(CreateEmptyBoard(), None, next, 0, 1, 0, false, false, false, 0, 0,
                                TetrisEngine.START_DROP_INTERVAL));
    }
  }
}
