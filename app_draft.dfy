/**
 * The first, self-contained game component (src/App.jsx): it keeps its own
 * copy of the shape catalog and of the game rules (see DraftRules), spawns
 * the catalog shape at the drawn index with the tag index + 1, tries the
 * sideways offsets 0, 1, -1, 2, -2 when rotating, and multiplies line
 * points by `level || 1`.
 */
module AppDraft {
  import opened Wrappers
  import opened TetrisConstants
  import opened TetrisUtils
  import opened DraftRules
  import TetrisEngine

  /** The sideways offsets the rotation tries, in order. */
  const APP_KICKS: seq<int> := [0, 1, -1, 2, -2]

  /**
   * `createRandomPiece` for the drawn index: the fallback piece when the
   * catalog is empty or has no shape (or an empty one) at the index,
   * otherwise the shape centred at the top with the tag index + 1.
   */
  function CreateRandomPieceAt(catalog: seq<Shape>, index: int): Piece
  {
    if |catalog| == 0 || !(0 <= index < |catalog|) || catalog[index] == [] then FALLBACK_PIECE
    else Piece(COLS / 2 - |catalog[index][0]| / 2, 0, catalog[index], index + 1)
  }

  /** On the game's catalog the component spawns exactly the library's piece, and one it can hold. */
  lemma CreateRandomPieceAtIsLibrarySpawn(index: int)
    ensures CreateRandomPieceAt(SHAPES, index) == SpawnPiece(SHAPES, index)
    ensures DraftPieceOk(CreateRandomPieceAt(SHAPES, index))
  {
    if 0 <= index < |SHAPES| {
      CatalogFirstTag(index);
      CatalogPieceOk(index, COLS / 2 - |SHAPES[index][0]| / 2, 0);
    } else {
      var shape: Shape := [[1]];
      assert shape[0][0] > 0;
    }
  }

  /** The multiplier `level || 1`: a level of 0 counts as 1. */
  function Multiplier(level: int): (m: int)
    ensures level != 0 ==> m == level
    ensures level == 0 ==> m == 1
  {
    if level != 0 then level else 1
  }

  /** In any reachable state the level is at least 1, so the multiplier is the level itself. */
  lemma MultiplierIsTheLevel(s: State)
    requires DraftInv(s)
    ensures s.level >= 1 && Multiplier(s.level) == s.level
  {
  }

  /** `rotatePiece`: the first of the offsets 0, 1, -1, 2, -2 at which the rotated shape fits. */
  ghost function Rotated(s: State): State
    requires DraftInv(s)
  {
    RotatedWith(s, APP_KICKS)
  }

  /** `hardDrop`: the common hard drop with the multiplier `level || 1` and a freshly drawn next piece. */
  ghost function HardDropped(s: State, nextIndex: int): State
    requires DraftInv(s)
  {
    CommonHardDrop(s, Multiplier(s.level), CreateRandomPieceAt(SHAPES, nextIndex))
  }

  /** Starting, pausing and restarting keep the component's invariant. */
  lemma StartPreservesInv(s: State, firstIndex: int, nextIndex: int)
    requires DraftInv(s)
    ensures DraftInv(TetrisEngine.Started(s, CreateRandomPieceAt(SHAPES, firstIndex), CreateRandomPieceAt(SHAPES, nextIndex)))
  {
    CreateRandomPieceAtIsLibrarySpawn(firstIndex);
    CreateRandomPieceAtIsLibrarySpawn(nextIndex);
  }

  /**
   * Starting is the library hook's start: ignored while over or running,
   * otherwise the hook's fresh game with the same two spawned pieces.
   */
  lemma StartIsTheHookStart(s: State, firstIndex: int, nextIndex: int)
    ensures TetrisEngine.Started(s, CreateRandomPieceAt(SHAPES, firstIndex), CreateRandomPieceAt(SHAPES, nextIndex)) ==
      (if s.gameOver || s.gameStarted then s
       else TetrisEngine.Fresh(SpawnPiece(SHAPES, firstIndex), SpawnPiece(SHAPES, nextIndex)))
  {
    CreateRandomPieceAtIsLibrarySpawn(firstIndex);
    CreateRandomPieceAtIsLibrarySpawn(nextIndex);
  }

  /**
   * The nested tries of `rotatePiece`: the index in APP_KICKS of the first
   * offset at which the shape fits, or none when all five collide.
   */
  method TryKicks(x: int, y: int, shape: Shape, board: Board) returns (k: Option<nat>)
    requires IsBoard(board)
    ensures k == FirstFree(x, y, shape, board, APP_KICKS)
  {
    var offsetX := 0;
    var i := 0;
    var hit := DraftRules.CheckCollision(x, y, shape, board);
    if hit {
      offsetX := 1;
      i := 1;
      hit := DraftRules.CheckCollision(x + offsetX, y, shape, board);
      if hit {
        offsetX := -1;
        i := 2;
        hit := DraftRules.CheckCollision(x + offsetX, y, shape, board);
        if hit {
          offsetX := 2;
          i := 3;
          hit := DraftRules.CheckCollision(x + offsetX, y, shape, board);
          if hit {
            offsetX := -2;
            i := 4;
            hit := DraftRules.CheckCollision(x + offsetX, y, shape, board);
          }
        }
      }
    }
    assert offsetX == APP_KICKS[i];
    assert forall j :: 0 <= j < i ==> DraftCollides(x + APP_KICKS[j], y, shape, board);
    if hit {
      FirstFreeSpec(x, y, shape, board, APP_KICKS);
      k := None;
    } else {
      FirstFreeIsFirst(x, y, shape, board, APP_KICKS, i);
      k := Some(i);
    }
  }

  class Game {
    var board: Board
    var currentPiece: Option<Piece>
    var nextPiece: Piece
    var score: int
    var level: int
    var linesCleared: int
    var gameOver: bool
    var isPaused: bool
    var gameStarted: bool
    var dropCounter: int
    var lastTime: int
    var dropInterval: int

    function Snapshot(): State
      reads this
    {
      TetrisEngine.State(board, currentPiece, nextPiece, score, level, linesCleared, gameOver, isPaused,
                         gameStarted, dropCounter, lastTime, dropInterval)
    }

    ghost predicate Valid()
      reads this
    {
      DraftInv(Snapshot())
    }

    /** The component's initial state: an empty board, nothing falling, a drawn next piece, not started. */
    constructor(nextIndex: int)
      ensures Valid()
      ensures Snapshot() == NotStarted(CreateRandomPieceAt(SHAPES, nextIndex))
    {
      board := CreateEmptyBoard();
      currentPiece := None;
      nextPiece := CreateRandomPieceAt(SHAPES, nextIndex);
      score := 0;
      level := 1;
      linesCleared := 0;
      gameOver := false;
      isPaused := false;
      gameStarted := false;
      dropCounter := 0;
      lastTime := 0;
      dropInterval := TetrisEngine.START_DROP_INTERVAL;
      new;
      CreateRandomPieceAtIsLibrarySpawn(nextIndex);
      NotStartedIsValid(nextPiece);
    }

    /** Rotate with the nested tries at offsets 0, 1, -1, 2 and -2; give up when all collide. */
    method RotatePiece()
      requires Valid()
      modifies this
      ensures Valid()
      ensures Snapshot() == Rotated(old(Snapshot()))
    {
      ghost var s := Snapshot();
      RotatedWithPreservesInv(s, APP_KICKS);
      if currentPiece.Some? && !gameOver && !isPaused && gameStarted {
        var p := currentPiece.value;
        var rotatedShape := RotateMatrix(p.shape);
        var k := TryKicks(p.x, p.y, rotatedShape, board);
        if k.Some? {
          currentPiece := Some(p.(x := p.x + APP_KICKS[k.value], shape := rotatedShape));
        }
      }
      assert Snapshot() == Rotated(s);
    }

    /**
     * Drop to the landing row, lock, clear and score in one step, then
     * promote the next piece, testing it against the board this render
     * holds (the board before the lock).
     */
    method HardDrop(nextIndex: int)
      requires Valid()
      modifies this
      ensures Valid()
      ensures Snapshot() == HardDropped(old(Snapshot()), nextIndex)
    {
      var s := Snapshot();
      var spawn := CreateRandomPieceAt(SHAPES, nextIndex);
      CreateRandomPieceAtIsLibrarySpawn(nextIndex);
      MultiplierIsTheLevel(s);
      CommonHardDropPreservesInv(s, Multiplier(level), spawn);
      var t := HardDropUpdate(s, Multiplier(level), spawn);
      Commit(t);
    }

    /** The component's setters: every piece of state takes its value from `t`. */
    method Commit(t: State)
      modifies this
      ensures Snapshot() == t
    {
      board, currentPiece, nextPiece, score, level, linesCleared :=
        t.board, t.currentPiece, t.nextPiece, t.score, t.level, t.linesCleared;
      gameOver, isPaused, gameStarted, dropCounter, lastTime, dropInterval :=
        t.gameOver, t.isPaused, t.gameStarted, t.dropCounter, t.lastTime, t.dropInterval;
    }

    /** `handleTogglePause`: flips the pause only while a game runs. */
    method HandleTogglePause()
      requires Valid()
      modifies this
      ensures Valid()
      ensures Snapshot() == TetrisEngine.TogglePaused(old(Snapshot()))
    {
      ghost var s := Snapshot();
      TogglePreservesInv(s);
      if gameStarted && !gameOver {
        isPaused := !isPaused;
      }
      assert Snapshot() == TetrisEngine.TogglePaused(s);
    }

    /** `handleStartGame`: ignored while over or running, otherwise a fresh game with two drawn pieces. */
    method HandleStartGame(firstIndex: int, nextIndex: int)
      requires Valid()
      modifies this
      ensures Valid()
      ensures Snapshot() == TetrisEngine.Started(old(Snapshot()), CreateRandomPieceAt(SHAPES, firstIndex),
                                                 CreateRandomPieceAt(SHAPES, nextIndex))
    {
      ghost var s := Snapshot();
      var first := CreateRandomPieceAt(SHAPES, firstIndex);
      var next := CreateRandomPieceAt(SHAPES, nextIndex);
      StartPreservesInv(s, firstIndex, nextIndex);
      if !gameOver && !gameStarted {
        Commit(TetrisEngine.State(CreateEmptyBoard(), Some(first), next, 0, 1, 0, false, false, true, 0, 0,
                                  TetrisEngine.START_DROP_INTERVAL));
      }
      assert Snapshot() == TetrisEngine.Started(s, first, next);
    }

    /** `handleRestartGame`: back to the not-started state with a newly drawn next piece. */
    method HandleRestartGame(nextIndex: int)
      modifies this
      ensures Valid()
      ensures Snapshot() == NotStarted(CreateRandomPieceAt(SHAPES, nextIndex))
    {
      var next := CreateRandomPieceAt(SHAPES, nextIndex);
      CreateRandomPieceAtIsLibrarySpawn(nextIndex);
      NotStartedIsValid(next);
      Commit(TetrisEngine.State(CreateEmptyBoard(), None, next, 0, 1, 0, false, false, false, 0, 0,
                                TetrisEngine.START_DROP_INTERVAL));
    }
  }
}
