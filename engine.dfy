/**
 * The game engine hook (src/hooks/useTetrisGame.js). Its React state values
 * and refs become the fields of the class `Game`; every action is a method
 * that applies the source's state updates in source order.
 *
 * Each method is specified by a function on the `State` value that
 * `Snapshot()` reads off the fields, and the lemmas below prove what those
 * functions keep: the invariant `Inv`, monotone score, lines and level, and
 * game over exactly when the next piece cannot enter.
 *
 * The random shape index and the wall-clock timestamp are parameters, and so
 * is the date string stored with a high score.
 */
module TetrisEngine {
  import opened Wrappers
  import opened TetrisConstants
  import opened TetrisUtils
  import opened HighScores

  /** The horizontal offsets tried, in order, when the rotated shape does not fit where it is. */
  const WALL_KICKS: seq<int> := [-1, 1, -2, 2]

  /** The position itself, then the wall kicks. */
  const ROTATION_OFFSETS: seq<int> := [0] + WALL_KICKS

  const START_DROP_INTERVAL: int := 1000

  /** The engine's whole state: the nine React state values and the three refs. */
  datatype State = State(
    board: Board,
    currentPiece: Option<Piece>,
    nextPiece: Piece,
    score: int,
    level: int,
    linesCleared: int,
    gameOver: bool,
    isPaused: bool,
    gameStarted: bool,
    dropCounter: int,
    lastTime: int,
    dropInterval: int)

  /**
   * What every action keeps: a full-size board, well-formed pieces, a current
   * piece exactly once the game has been started, never over and started at
   * once, paused only while started, level and speed that follow from the
   * line count, and a current piece that fits while the game runs.
   */
  ghost predicate Inv(s: State)
  {
    IsBoard(s.board) &&
    PieceOk(s.nextPiece) &&
    (s.currentPiece.Some? ==> PieceOk(s.currentPiece.value)) &&
    (s.currentPiece.Some? <==> s.gameStarted || s.gameOver) &&
    !(s.gameOver && s.gameStarted) &&
    (s.isPaused ==> s.gameStarted) &&
    s.score >= 0 &&
    s.linesCleared >= 0 &&
    s.level == CalculateLevel(s.linesCleared) &&
    s.dropInterval == CalculateDropInterval(s.level) &&
    (s.gameStarted ==> !Collides(s.currentPiece.value.x, s.currentPiece.value.y, s.currentPiece.value.shape, s.board))
  }

  /** The guard shared by move, rotate, drop and hard drop. */
  ghost predicate CanAct(s: State)
  {
    s.currentPiece.Some? && !s.isPaused && !s.gameOver
  }

  /** The state a new or restarted game begins in. */
  ghost function Fresh(first: Piece, next: Piece): State
  {
    State(CreateEmptyBoard(), Some(first), next, 0, 1, 0, false, false, true, 0, 0, START_DROP_INTERVAL)
  }

  // ---------------------------------------------------------------------
  // Specification of the actions
  // ---------------------------------------------------------------------

  /** `movePiece`: shift by `direction` columns when the guard passes and the target is free. */
  ghost function Moved(s: State, direction: int): State
    requires Inv(s)
  {
    if !CanAct(s) then s
    else
      var p := s.currentPiece.value;
      if Collides(p.x + direction, p.y, p.shape, s.board) then s
      else s.(currentPiece := Some(p.(x := p.x + direction)))
  }

  /** The index of the first offset at which the shape, shifted by it, does not collide. */
  ghost function FirstFreeKick(x: int, y: int, shape: Shape, board: Board, offsets: seq<int>): (k: Option<nat>)
    requires IsBoard(board)
    ensures k.Some? ==> k.value < |offsets|
  {
    if offsets == [] then None
    else if !Collides(x + offsets[0], y, shape, board) then Some(0)
    else match FirstFreeKick(x, y, shape, board, offsets[1..])
      case None => None
      case Some(j) => Some(j + 1)
  }

  /**
   * The offset found fits and every earlier one collides; when none is
   * found, every offset collides.
   */
  lemma {:induction false} FirstFreeKickSpec(x: int, y: int, shape: Shape, board: Board, offsets: seq<int>)
    requires IsBoard(board)
    ensures var k := FirstFreeKick(x, y, shape, board, offsets);
      (k.Some? ==> !Collides(x + offsets[k.value], y, shape, board) &&
                   forall j :: 0 <= j < k.value ==> Collides(x + offsets[j], y, shape, board)) &&
      (k.None? ==> forall j :: 0 <= j < |offsets| ==> Collides(x + offsets[j], y, shape, board))
  {
    if offsets != [] && Collides(x + offsets[0], y, shape, board) {
      var rest := offsets[1..];
      FirstFreeKickSpec(x, y, shape, board, rest);
      assert forall j :: 0 < j < |offsets| ==> offsets[j] == rest[j - 1];
    }
  }

  /** The first free offset's index is the one found by trying them in order. */
  lemma {:induction false} FirstFreeKickIsFirst(x: int, y: int, shape: Shape, board: Board, offsets: seq<int>, k: int)
    requires IsBoard(board) && 0 <= k < |offsets|
    requires forall j :: 0 <= j < k ==> Collides(x + offsets[j], y, shape, board)
    requires !Collides(x + offsets[k], y, shape, board)
    ensures FirstFreeKick(x, y, shape, board, offsets) == Some(k)
  {
    if k > 0 {
      var rest := offsets[1..];
      assert forall j :: 0 <= j < k - 1 ==> rest[j] == offsets[j + 1];
      FirstFreeKickIsFirst(x, y, shape, board, rest, k - 1);
    }
  }

  /** `rotatePiece`: the rotated shape at the first free offset, or no change. */
  ghost function Rotated(s: State): State
    requires Inv(s)
  {
    if !CanAct(s) then s
    else
      var p := s.currentPiece.value;
      var rotated := RotatePieceMatrix(p.shape);
      match FirstFreeKick(p.x, p.y, rotated, s.board, ROTATION_OFFSETS)
      case None => s
      case Some(k) => s.(currentPiece := Some(p.(x := p.x + ROTATION_OFFSETS[k], shape := rotated)))
  }

  /**
   * The search of `rotatePiece`: the rotated shape is tried in place, then
   * shifted by each wall kick in turn; the index of the first offset that
   * fits, or None when every one collides.
   */
  method FindKick(x: int, y: int, shape: Shape, board: Board) returns (k: Option<nat>)
    requires IsBoard(board)
    ensures k == FirstFreeKick(x, y, shape, board, ROTATION_OFFSETS)
  {
    var hit := CheckCollision(x, y, shape, board);
    if !hit {
      FirstFreeKickIsFirst(x, y, shape, board, ROTATION_OFFSETS, 0);
      return Some(0);
    }
    for i := 0 to |WALL_KICKS|
      invariant forall j :: 0 <= j <= i ==> Collides(x + ROTATION_OFFSETS[j], y, shape, board)
    {
      var kick := WALL_KICKS[i];
      assert ROTATION_OFFSETS[i + 1] == kick;
      hit := CheckCollision(x + kick, y, shape, board);
      if !hit {
        FirstFreeKickIsFirst(x, y, shape, board, ROTATION_OFFSETS, i + 1);
        return Some(i + 1);
      }
    }
    FirstFreeKickSpec(x, y, shape, board, ROTATION_OFFSETS);
    return None;
  }

  /**
   * The descent of `hardDrop`: move down one row at a time while the row
   * below is free; the row where the shape comes to rest.
   */
  method FindLanding(x: int, y: int, shape: Shape, board: Board) returns (landing: int)
    requires IsBoard(board) && HasBlock(shape)
    ensures landing == LandingY(x, y, shape, board)
  {
    landing := y;
    var hit := CheckCollision(x, landing + 1, shape, board);
    while !hit
      invariant y <= landing
      invariant hit == Collides(x, landing + 1, shape, board)
      invariant LandingY(x, landing, shape, board) == LandingY(x, y, shape, board)
      decreases ROWS - landing
    {
      FitIsAboveFloor(x, landing + 1, shape, board);
      landing := landing + 1;
      hit := CheckCollision(x, landing + 1, shape, board);
    }
  }

  /** Whether the next piece cannot enter once p is locked into s's board. */
  ghost predicate LockEndsGame(s: State, p: Piece)
    requires Inv(s)
  {
    ClearedIsBoard(Merged(p, s.board));
    Collides(s.nextPiece.x, s.nextPiece.y, s.nextPiece.shape, Cleared(Merged(p, s.board)))
  }

  /**
   * The first half of the lock shared by `dropPiece` and `hardDrop`: merge
   * p, clear rows, score them with the level before the lock, and raise the
   * level (and the speed) only when the new one is strictly higher.
   */
  ghost function Scored(s: State, p: Piece): (t: State)
    requires IsBoard(s.board)
    ensures IsBoard(t.board)
  {
    var merged := Merged(p, s.board);
    ClearedIsBoard(merged);
    var n := CountComplete(merged);
    var newTotal := s.linesCleared + n;
    var newLevel := CalculateLevel(newTotal);
    var raise := n > 0 && newLevel > s.level;
    s.(board := if n > 0 then Cleared(merged) else merged,
       score := if n > 0 then s.score + CalculateScore(n, s.level) else s.score,
       linesCleared := if n > 0 then newTotal else s.linesCleared,
       level := if raise then newLevel else s.level,
       dropInterval := if raise then CalculateDropInterval(newLevel) else s.dropInterval)
  }

  /**
   * The second half: promote the next piece, draw `spawn`, and end the game
   * when the promoted piece collides with the board.
   */
  ghost function Promoted(s: State, spawn: Piece): State
    requires IsBoard(s.board)
  {
    var over := Collides(s.nextPiece.x, s.nextPiece.y, s.nextPiece.shape, s.board);
    s.(currentPiece := Some(s.nextPiece),
       nextPiece := spawn,
       gameOver := if over then true else s.gameOver,
       gameStarted := if over then false else s.gameStarted)
  }

  /** The whole lock sequence. */
  ghost function Locked(s: State, p: Piece, spawn: Piece): State
    requires Inv(s)
  {
    Promoted(Scored(s, p), spawn)
  }

  /** The piece a drop locks, if the drop locks one. */
  ghost function DropLocks(s: State): Option<Piece>
    requires Inv(s)
  {
    if !CanAct(s) then None
    else
      var p := s.currentPiece.value;
      if Collides(p.x, p.y + 1, p.shape, s.board) then Some(p) else None
  }

  /** `dropPiece`: one row down when free, otherwise lock. */
  ghost function Dropped(s: State, spawn: Piece): State
    requires Inv(s)
  {
    if !CanAct(s) then s
    else
      var p := s.currentPiece.value;
      if !Collides(p.x, p.y + 1, p.shape, s.board) then s.(currentPiece := Some(p.(y := p.y + 1)))
      else Locked(s, p, spawn)
  }

  /**
   * The first row at or below y where the shape rests; `LandingYSpec`
   * states that every row from y + 1 down to it is free and the next is not.
   */
  ghost function LandingY(x: int, y: int, shape: Shape, board: Board): (landing: int)
    requires IsBoard(board) && HasBlock(shape)
    ensures landing >= y
    decreases ROWS - y
  {
    if Collides(x, y + 1, shape, board) then y
    else
      FitIsAboveFloor(x, y + 1, shape, board);
      LandingY(x, y + 1, shape, board)
  }

  /** A shape with a block that does not collide at row y lies above the floor there. */
  lemma FitIsAboveFloor(x: int, y: int, shape: Shape, board: Board)
    requires IsBoard(board) && HasBlock(shape) && !Collides(x, y, shape, board)
    ensures y < ROWS
  {
    var r, c :| 0 <= r < |shape| && 0 <= c < |shape[r]| && shape[r][c] != 0;
    NoCollisionAboveFloor(x, y, shape, board, r, c);
  }

  /** The landing row is where the piece rests: free all the way down, blocked one row below. */
  lemma {:induction false} LandingYSpec(x: int, y: int, shape: Shape, board: Board)
    requires IsBoard(board) && HasBlock(shape)
    ensures Collides(x, LandingY(x, y, shape, board) + 1, shape, board)
    ensures forall y' :: y < y' <= LandingY(x, y, shape, board) ==> !Collides(x, y', shape, board)
    decreases ROWS - y
  {
    if !Collides(x, y + 1, shape, board) {
      FitIsAboveFloor(x, y + 1, shape, board);
      LandingYSpec(x, y + 1, shape, board);
    }
  }

  /** The piece a hard drop locks: the current one at its landing row. */
  ghost function HardDropLocks(s: State): Option<Piece>
    requires Inv(s)
  {
    if !CanAct(s) then None
    else
      var p := s.currentPiece.value;
      Some(p.(y := LandingY(p.x, p.y, p.shape, s.board)))
  }

  /** `hardDrop`: lock at the landing row and reset the drop counter. */
  ghost function HardDropped(s: State, spawn: Piece): State
    requires Inv(s)
  {
    match HardDropLocks(s)
    case None => s
    case Some(p) => Locked(s, p, spawn).(dropCounter := 0)
  }

  /** Whether the game loop advances at all. */
  ghost predicate Running(s: State)
  {
    s.gameStarted && !s.isPaused && !s.gameOver
  }

  /** The frame's bookkeeping: remember the timestamp and accumulate the elapsed time. */
  ghost function Ticked(s: State, time: int): State
  {
    s.(lastTime := time, dropCounter := s.dropCounter + (time - s.lastTime))
  }

  /** Whether this frame drops the piece: the counter strictly exceeds the interval. */
  ghost predicate LoopDrops(s: State, time: int)
  {
    Running(s) && Ticked(s, time).dropCounter > s.dropInterval
  }

  /** One `gameLoop` frame at timestamp `time`. */
  ghost function Looped(s: State, time: int, spawn: Piece): State
    requires Inv(s)
  {
    if !Running(s) then s
    else if LoopDrops(s, time) then Dropped(Ticked(s, time), spawn).(dropCounter := 0)
    else Ticked(s, time)
  }

  /** `handleTogglePause`. */
  ghost function TogglePaused(s: State): State
  {
    if !s.gameStarted || s.gameOver then s else s.(isPaused := !s.isPaused)
  }

  /** `handleStartGame`: ignored when over or already started. */
  ghost function Started(s: State, first: Piece, next: Piece): State
  {
    if s.gameOver || s.gameStarted then s else Fresh(first, next)
  }

  /** The stored high-score item after a lock: a save happens only on game over with a positive, qualifying score. */
  ghost function ItemAfterLock(s: State, p: Piece, item: StoredItem, readFails: bool, writeFails: bool,
                               name: string, date: string): StoredItem
    requires Inv(s)
  {
    if LockEndsGame(s, p) && s.score > 0 && Qualifies(ReadEntries(item, readFails), s.score)
    then ItemAfterSave(item, readFails, writeFails, ScoreEntry(name, s.score, date))
    else item
  }

  /** The stored item after an action that may lock a piece. */
  ghost function ItemAfter(s: State, locks: Option<Piece>, item: StoredItem, readFails: bool, writeFails: bool,
                           name: string, date: string): StoredItem
    requires Inv(s)
  {
    match locks
    case None => item
    case Some(p) => ItemAfterLock(s, p, item, readFails, writeFails, name, date)
  }

  // ---------------------------------------------------------------------
  // Properties of the specification
  // ---------------------------------------------------------------------

  /** The board a lock leaves is always the cleared merge, whether or not a row was cleared. */
  lemma LockedBoardIsCleared(s: State, p: Piece, spawn: Piece)
    requires Inv(s)
    ensures Locked(s, p, spawn).board == Cleared(Merged(p, s.board))
    ensures IsBoard(Locked(s, p, spawn).board)
  {
    var merged := Merged(p, s.board);
    if CountComplete(merged) == 0 {
      NothingClearedIffNoCompleteRow(merged);
      NoCompleteRowIsFixpoint(merged);
    }
    ClearedShape(merged);
  }

  /**
   * A lock adds the score of the rows it clears at the old level, adds the
   * rows to the total, never lowers score, lines or level, and keeps the
   * level and the drop interval in step with the total.
   */
  lemma LockScoresAndLevels(s: State, p: Piece, spawn: Piece)
    requires Inv(s)
    ensures Locked(s, p, spawn).score == s.score + CalculateScore(CountComplete(Merged(p, s.board)), s.level)
    ensures Locked(s, p, spawn).linesCleared == s.linesCleared + CountComplete(Merged(p, s.board))
    ensures Locked(s, p, spawn).score >= s.score
    ensures Locked(s, p, spawn).level >= s.level
    ensures Locked(s, p, spawn).level == CalculateLevel(Locked(s, p, spawn).linesCleared)
    ensures Locked(s, p, spawn).dropInterval == CalculateDropInterval(Locked(s, p, spawn).level)
  {
    var n := CountComplete(Merged(p, s.board));
    LevelIsMonotone(s.linesCleared, s.linesCleared + n);
    ScoreBoundsAndOrder(n, n, s.level);
    ScoreTable(s.level);
  }

  /**
   * After a lock from a playable state the next piece is current and a new
   * one is drawn; the game is over, and no longer started, exactly when the
   * promoted piece collides with the board left by the lock.
   */
  lemma LockEndsGameIffSpawnCollides(s: State, p: Piece, spawn: Piece)
    requires Inv(s) && CanAct(s)
    ensures IsBoard(Locked(s, p, spawn).board)
    ensures Locked(s, p, spawn).currentPiece == Some(s.nextPiece)
    ensures Locked(s, p, spawn).nextPiece == spawn
    ensures Locked(s, p, spawn).gameOver <==>
      Collides(s.nextPiece.x, s.nextPiece.y, s.nextPiece.shape, Locked(s, p, spawn).board)
    ensures Locked(s, p, spawn).gameStarted == !Locked(s, p, spawn).gameOver
  {
    LockedBoardIsCleared(s, p, spawn);
  }

  lemma LockPreservesInv(s: State, p: Piece, spawn: Piece)
    requires Inv(s) && CanAct(s) && PieceOk(spawn)
    ensures Inv(Locked(s, p, spawn))
  {
    LockedBoardIsCleared(s, p, spawn);
    LockScoresAndLevels(s, p, spawn);
  }

  lemma MovePreservesInv(s: State, direction: int)
    requires Inv(s)
    ensures Inv(Moved(s, direction))
  {
  }

  /**
   * A move changes nothing but the current piece's column. It changes the
   * state exactly when the guard passes, the direction is not zero and the
   * target does not collide, and then the column moves by `direction`.
   */
  lemma MoveChangesOnlyX(s: State, direction: int)
    requires Inv(s)
    ensures Moved(s, direction).(currentPiece := s.currentPiece) == s
    ensures Moved(s, direction) != s <==>
      CanAct(s) && direction != 0 &&
      !Collides(s.currentPiece.value.x + direction, s.currentPiece.value.y, s.currentPiece.value.shape, s.board)
    ensures Moved(s, direction) != s ==>
      Moved(s, direction).currentPiece == Some(s.currentPiece.value.(x := s.currentPiece.value.x + direction))
  {
  }

  /**
   * A rotation either changes nothing, when every offset collides, or puts
   * the rotated shape at the first free offset; the row, the tag and the
   * board stay. This one: when the rotated shape collides at every offset,
   * rotating changes nothing.
   */
  lemma RotateBlockedChangesNothing(s: State)
    requires Inv(s) && CanAct(s)
    requires var p := s.currentPiece.value;
      forall j :: 0 <= j < |ROTATION_OFFSETS| ==>
        Collides(p.x + ROTATION_OFFSETS[j], p.y, RotatePieceMatrix(p.shape), s.board)
    ensures Rotated(s) == s
  {
    var p := s.currentPiece.value;
    FirstFreeKickSpec(p.x, p.y, RotatePieceMatrix(p.shape), s.board, ROTATION_OFFSETS);
  }

  /**
   * When offset k is the first at which the rotated shape fits, rotating
   * moves the piece by that offset, turns it, and changes nothing else.
   */
  lemma RotateUsesFirstFreeOffset(s: State, k: int)
    requires Inv(s) && CanAct(s) && 0 <= k < |ROTATION_OFFSETS|
    requires var p := s.currentPiece.value;
      !Collides(p.x + ROTATION_OFFSETS[k], p.y, RotatePieceMatrix(p.shape), s.board)
    requires var p := s.currentPiece.value;
      forall j :: 0 <= j < k ==> Collides(p.x + ROTATION_OFFSETS[j], p.y, RotatePieceMatrix(p.shape), s.board)
    ensures var p := s.currentPiece.value;
      Rotated(s) == s.(currentPiece := Some(Piece(p.x + ROTATION_OFFSETS[k], p.y, RotatePieceMatrix(p.shape), p.colorIndex)))
  {
    var p := s.currentPiece.value;
    FirstFreeKickIsFirst(p.x, p.y, RotatePieceMatrix(p.shape), s.board, ROTATION_OFFSETS, k);
  }

  lemma RotatePreservesInv(s: State)
    requires Inv(s)
    ensures Inv(Rotated(s))
  {
    if CanAct(s) {
      var p := s.currentPiece.value;
      RotationKeepsBlocks(p.shape);
      FirstFreeKickSpec(p.x, p.y, RotatePieceMatrix(p.shape), s.board, ROTATION_OFFSETS);
    }
  }

  /** A drop into a free row moves the piece one row down and changes nothing else. */
  lemma DropIntoFreeRowMovesDown(s: State, spawn: Piece)
    requires Inv(s) && CanAct(s)
    requires !Collides(s.currentPiece.value.x, s.currentPiece.value.y + 1, s.currentPiece.value.shape, s.board)
    ensures Dropped(s, spawn).currentPiece == Some(s.currentPiece.value.(y := s.currentPiece.value.y + 1))
    ensures Dropped(s, spawn).(currentPiece := s.currentPiece) == s
  {
  }

  lemma DropPreservesInv(s: State, spawn: Piece)
    requires Inv(s) && PieceOk(spawn)
    ensures Inv(Dropped(s, spawn))
  {
    if CanAct(s) {
      var p := s.currentPiece.value;
      if Collides(p.x, p.y + 1, p.shape, s.board) {
        LockPreservesInv(s, p, spawn);
      }
    }
  }

  /**
   * A hard drop locks the piece at the first row below which it cannot go,
   * every row on the way being free, and resets the drop counter.
   */
  lemma HardDropLandsWherePieceRests(s: State, spawn: Piece)
    requires Inv(s) && CanAct(s)
    ensures var p := s.currentPiece.value;
      var landing := HardDropLocks(s).value.y;
      HardDropLocks(s).value == p.(y := landing) &&
      landing >= p.y &&
      Collides(p.x, landing + 1, p.shape, s.board) &&
      (forall y' :: p.y < y' <= landing ==> !Collides(p.x, y', p.shape, s.board)) &&
      HardDropped(s, spawn) == Locked(s, p.(y := landing), spawn).(dropCounter := 0)
  {
    var p := s.currentPiece.value;
    LandingYSpec(p.x, p.y, p.shape, s.board);
  }

  lemma HardDropPreservesInv(s: State, spawn: Piece)
    requires Inv(s) && PieceOk(spawn)
    ensures Inv(HardDropped(s, spawn))
  {
    if CanAct(s) {
      LockPreservesInv(s, HardDropLocks(s).value, spawn);
    }
  }

  /** A drop neither reads nor writes the frame counters. */
  lemma DropIgnoresTiming(s: State, spawn: Piece, lastTime: int, dropCounter: int)
    requires Inv(s)
    ensures Inv(s.(lastTime := lastTime, dropCounter := dropCounter))
    ensures Dropped(s.(lastTime := lastTime, dropCounter := dropCounter), spawn) ==
            Dropped(s, spawn).(lastTime := lastTime, dropCounter := dropCounter)
  {
    var u := s.(lastTime := lastTime, dropCounter := dropCounter);
    if CanAct(s) {
      var p := s.currentPiece.value;
      if Collides(p.x, p.y + 1, p.shape, s.board) {
        assert Scored(u, p) == Scored(s, p).(lastTime := lastTime, dropCounter := dropCounter);
      }
    }
  }

  /**
   * A frame that does not drop touches only the frame counters (and none of
   * them unless the game runs); a frame that drops is exactly one
   * `dropPiece` followed by the counter reset, whatever the counters held.
   */
  lemma LoopStepCases(s: State, time: int, spawn: Piece)
    requires Inv(s)
    ensures !Running(s) ==> Looped(s, time, spawn) == s
    ensures Running(s) ==> Looped(s, time, spawn).lastTime == time
    ensures !LoopDrops(s, time) ==>
      Looped(s, time, spawn).(lastTime := s.lastTime, dropCounter := s.dropCounter) == s
    ensures LoopDrops(s, time) ==>
      Looped(s, time, spawn) == Dropped(s, spawn).(lastTime := time, dropCounter := 0)
  {
    if LoopDrops(s, time) {
      var t := Ticked(s, time);
      DropIgnoresTiming(s, spawn, time, t.dropCounter);
      DropIgnoresTiming(s, spawn, time, 0);
      assert Dropped(t, spawn).(dropCounter := 0) == Dropped(s, spawn).(lastTime := time, dropCounter := 0);
    }
  }

  /**
   * The effect that (re)starts the animation loop, in its running branch:
   * it runs after every render in which the game is running and the loop's
   * dependencies changed, and restarts gravity's clock at `now`.
   */
  ghost function LoopRestarted(s: State, now: int): State
  {
    if Running(s) then s.(lastTime := now, dropCounter := 0) else s
  }

  /** Restarting the clock keeps the invariant. */
  lemma LoopRestartPreservesInv(s: State, now: int)
    requires Inv(s)
    ensures Inv(LoopRestarted(s, now))
  {
  }

  /**
   * After the clock restarts at `now`, the first frame at `time` counts only
   * `time - now`, so it drops exactly when more than one interval has passed
   * since the restart, whatever the counters held before.
   */
  lemma FirstFrameAfterRestart(s: State, now: int, time: int, spawn: Piece)
    requires Inv(s) && Running(s)
    ensures LoopDrops(LoopRestarted(s, now), time) <==> time - now > s.dropInterval
    ensures !LoopDrops(LoopRestarted(s, now), time) ==>
      Looped(LoopRestarted(s, now), time, spawn).dropCounter == time - now
  {
  }

  lemma LoopPreservesInv(s: State, time: int, spawn: Piece)
    requires Inv(s) && PieceOk(spawn)
    ensures Inv(Looped(s, time, spawn))
  {
    if Running(s) {
      var t := Ticked(s, time);
      assert Inv(t);
      DropPreservesInv(t, spawn);
    }
  }

  /** Pausing flips only the pause flag, and only while started and not over. */
  lemma TogglePreservesInv(s: State)
    requires Inv(s)
    ensures Inv(TogglePaused(s))
    ensures s.gameStarted && !s.gameOver ==> TogglePaused(s) == s.(isPaused := !s.isPaused)
    ensures !s.gameStarted || s.gameOver ==> TogglePaused(s) == s
  {
  }

  /** A fresh game built from two catalog pieces satisfies the invariant, from any state. */
  lemma FreshIsValid(firstIndex: int, nextIndex: int)
    ensures Inv(Fresh(SpawnPiece(SHAPES, firstIndex), SpawnPiece(SHAPES, nextIndex)))
  {
    CatalogSpawnFitsEmptyBoard(firstIndex);
    CatalogSpawnFitsEmptyBoard(nextIndex);
    LevelExamples();
  }

  lemma StartPreservesInv(s: State, firstIndex: int, nextIndex: int)
    requires Inv(s)
    ensures Inv(Started(s, SpawnPiece(SHAPES, firstIndex), SpawnPiece(SHAPES, nextIndex)))
  {
    FreshIsValid(firstIndex, nextIndex);
  }

  /** Once over, the game ignores every action except restart; with no current piece nothing moves. */
  lemma OverIgnoresPlay(s: State, direction: int, spawn: Piece, time: int, first: Piece, next: Piece)
    requires Inv(s) && s.gameOver
    ensures Moved(s, direction) == s && Rotated(s) == s && Dropped(s, spawn) == s
    ensures HardDropped(s, spawn) == s && Looped(s, time, spawn) == s
    ensures TogglePaused(s) == s && Started(s, first, next) == s
  {
  }

  // ---------------------------------------------------------------------
  // The engine
  // ---------------------------------------------------------------------

  class Game {
    var board: Board
    var currentPiece: Option<Piece>
    var nextPiece: Piece
    var score: int
    var level: int
    var linesCleared: int
    var gameOver: bool
    var isPaused: bool
    var gameStarted: bool
    var playerName: string
    var dropCounter: int
    var lastTime: int
    var dropInterval: int
    /** The high-score storage the hook saves into on game over. */
    const store: HighScoreStore

    ghost function Snapshot(): State
      reads this
    {
      State(board, currentPiece, nextPiece, score, level, linesCleared, gameOver, isPaused, gameStarted,
            dropCounter, lastTime, dropInterval)
    }

    ghost predicate Valid()
      reads this
    {
      Inv(Snapshot())
    }

    /** The hook's initial state: an empty board, no current piece, a drawn next piece, not started. */
    constructor(nextIndex: int, store: HighScoreStore)
      ensures Valid()
      ensures Snapshot() == State(CreateEmptyBoard(), None, SpawnPiece(SHAPES, nextIndex), 0, 1, 0,
                                  false, false, false, 0, 0, START_DROP_INTERVAL)
      ensures playerName == "Player1" && this.store == store
    {
      var piece := CreateRandomPiece(SHAPES, nextIndex);
      board := CreateEmptyBoard();
      currentPiece := None;
      nextPiece := piece;
      score := 0;
      level := 1;
      linesCleared := 0;
      gameOver := false;
      isPaused := false;
      gameStarted := false;
      playerName := "Player1";
      lastTime := 0;
      dropCounter := 0;
      dropInterval := START_DROP_INTERVAL;
      this.store := store;
      new;
      CatalogSpawnFitsEmptyBoard(nextIndex);
      LevelExamples();
    }

    method MovePiece(direction: int)
      requires Valid()
      modifies this
      ensures Valid()
      ensures Snapshot() == Moved(old(Snapshot()), direction)
      ensures playerName == old(playerName)
    {
      ghost var s := Snapshot();
      MovePreservesInv(s, direction);
      if currentPiece.Some? && !isPaused && !gameOver {
        var p := currentPiece.value;
        var newX := p.x + direction;
        var hit := CheckCollision(newX, p.y, p.shape, board);
        if !hit {
          currentPiece := Some(p.(x := newX));
        }
      }
      assert Snapshot() == Moved(s, direction);
    }

    method RotatePiece()
      requires Valid()
      modifies this
      ensures Valid()
      ensures Snapshot() == Rotated(old(Snapshot()))
      ensures playerName == old(playerName)
    {
      ghost var s := Snapshot();
      RotatePreservesInv(s);
      if currentPiece.Some? && !isPaused && !gameOver {
        var p := currentPiece.value;
        var rotatedShape := RotatePieceMatrix(p.shape);
        var kick := FindKick(p.x, p.y, rotatedShape, board);
        if kick.Some? {
          currentPiece := Some(p.(x := p.x + ROTATION_OFFSETS[kick.value], shape := rotatedShape));
        }
      }
      assert Snapshot() == Rotated(s);
    }

    /**
     * The lock sequence of `dropPiece` and `hardDrop` for the piece p. The
     * high score saved on game over is the score read before this lock's
     * points were added, as in the source.
     */
    method LockAndSpawn(p: Piece, nextIndex: int, date: string)
      requires Valid() && CanAct(Snapshot())
      modifies this, store
      ensures Valid()
      ensures Snapshot() == Locked(old(Snapshot()), p, SpawnPiece(SHAPES, nextIndex))
      ensures store.readFails == old(store.readFails) && store.writeFails == old(store.writeFails)
      ensures store.item == ItemAfterLock(old(Snapshot()), p, old(store.item), store.readFails, store.writeFails,
                                          playerName, date)
      ensures playerName == old(playerName)
    {
      ghost var s0 := Snapshot();
      CatalogSpawnFitsEmptyBoard(nextIndex);
      LockPreservesInv(s0, p, SpawnPiece(SHAPES, nextIndex));
      LockedBoardIsCleared(s0, p, SpawnPiece(SHAPES, nextIndex));
      var closureScore := score;
      MergeAndScore(p);
      var over := PromoteNext(nextIndex);
      assert over == LockEndsGame(s0, p);
      if over && closureScore > 0 {
        var qualifies := store.IsHighScore(closureScore);
        if qualifies {
          var saved := store.SaveHighScore(playerName, closureScore, date);
        }
      }
    }

    /** Merge p, clear the complete rows and score them: the state `Scored` describes. */
    method MergeAndScore(p: Piece)
      requires IsBoard(board)
      modifies this
      ensures Snapshot() == Scored(old(Snapshot()), p)
      ensures playerName == old(playerName)
    {
      ghost var s0 := Snapshot();
      var newBoard := MergePieceToBoard(p, board);
      board := newBoard;
      var boardAfterClear, newLinesCleared := ClearLines(newBoard);
      ghost var t := Scored(s0, p);
      if newLinesCleared > 0 {
        board := boardAfterClear;
        score := score + CalculateScore(newLinesCleared, level);
        var newTotal := linesCleared + newLinesCleared;
        var newLevel := CalculateLevel(newTotal);
        if newLevel > level {
          level := newLevel;
          dropInterval := CalculateDropInterval(newLevel);
        }
        linesCleared := newTotal;
        assert board == t.board && score == t.score && linesCleared == t.linesCleared;
        assert level == t.level && dropInterval == t.dropInterval;
      } else {
        assert board == t.board && score == t.score && level == t.level;
      }
    }

    /**
     * Promote the next piece, draw the one at `nextIndex`, and end the game
     * when the promoted piece collides; `over` says whether it did.
     */
    method PromoteNext(nextIndex: int) returns (over: bool)
      requires IsBoard(board)
      modifies this
      ensures board == old(board)
      ensures over == Collides(old(nextPiece).x, old(nextPiece).y, old(nextPiece).shape, board)
      ensures Snapshot() == Promoted(old(Snapshot()), SpawnPiece(SHAPES, nextIndex))
      ensures playerName == old(playerName)
    {
      var promoted := nextPiece;
      currentPiece := Some(promoted);
      nextPiece := CreateRandomPiece(SHAPES, nextIndex);
      over := CheckCollision(promoted.x, promoted.y, promoted.shape, board);
      if over {
        gameOver := true;
        gameStarted := false;
      }
    }

    method DropPiece(nextIndex: int, date: string)
      requires Valid()
      modifies this, store
      ensures Valid()
      ensures Snapshot() == Dropped(old(Snapshot()), SpawnPiece(SHAPES, nextIndex))
      ensures store.readFails == old(store.readFails) && store.writeFails == old(store.writeFails)
      ensures store.item == ItemAfter(old(Snapshot()), DropLocks(old(Snapshot())), old(store.item),
                                      store.readFails, store.writeFails, playerName, date)
      ensures playerName == old(playerName)
    {
      ghost var s := Snapshot();
      ghost var spawn := SpawnPiece(SHAPES, nextIndex);
      CatalogSpawnFitsEmptyBoard(nextIndex);
      DropPreservesInv(s, spawn);
      if currentPiece.Some? && !isPaused && !gameOver {
        var p := currentPiece.value;
        var newY := p.y + 1;
        var hit := CheckCollision(p.x, newY, p.shape, board);
        if !hit {
          currentPiece := Some(p.(y := newY));
        } else {
          LockAndSpawn(p, nextIndex, date);
        }
      }
      assert Snapshot() == Dropped(s, spawn);
    }

    method HardDrop(nextIndex: int, date: string)
      requires Valid()
      modifies this, store
      ensures Valid()
      ensures Snapshot() == HardDropped(old(Snapshot()), SpawnPiece(SHAPES, nextIndex))
      ensures store.readFails == old(store.readFails) && store.writeFails == old(store.writeFails)
      ensures store.item == ItemAfter(old(Snapshot()), HardDropLocks(old(Snapshot())), old(store.item),
                                      store.readFails, store.writeFails, playerName, date)
      ensures playerName == old(playerName)
    {
      ghost var s := Snapshot();
      ghost var spawn := SpawnPiece(SHAPES, nextIndex);
      CatalogSpawnFitsEmptyBoard(nextIndex);
      HardDropPreservesInv(s, spawn);
      if currentPiece.Some? && !isPaused && !gameOver {
        var p := currentPiece.value;
        var newY := FindLanding(p.x, p.y, p.shape, board);
        var pieceAtBottom := p.(y := newY);
        assert HardDropLocks(s) == Some(pieceAtBottom);
        LockAndSpawn(pieceAtBottom, nextIndex, date);
        dropCounter := 0;
      }
      assert Snapshot() == HardDropped(s, spawn);
    }

    /** One animation frame at timestamp `time`. */
    method GameLoop(time: int, nextIndex: int, date: string)
      requires Valid()
      modifies this, store
      ensures Valid()
      ensures Snapshot() == Looped(old(Snapshot()), time, SpawnPiece(SHAPES, nextIndex))
      ensures store.readFails == old(store.readFails) && store.writeFails == old(store.writeFails)
      ensures store.item == if LoopDrops(old(Snapshot()), time)
        then ItemAfter(Ticked(old(Snapshot()), time), DropLocks(Ticked(old(Snapshot()), time)), old(store.item),
                       store.readFails, store.writeFails, playerName, date)
        else old(store.item)
      ensures playerName == old(playerName)
    {
      ghost var s := Snapshot();
      ghost var spawn := SpawnPiece(SHAPES, nextIndex);
      CatalogSpawnFitsEmptyBoard(nextIndex);
      LoopPreservesInv(s, time, spawn);
      if !isPaused && !gameOver && gameStarted {
        var deltaTime := time - lastTime;
        lastTime := time;
        dropCounter := dropCounter + deltaTime;
        assert Snapshot() == Ticked(s, time);
        if dropCounter > dropInterval {
          DropPiece(nextIndex, date);
          dropCounter := 0;
        }
      }
      assert Snapshot() == Looped(s, time, spawn);
    }

    method HandleTogglePause()
      requires Valid()
      modifies this
      ensures Valid()
      ensures Snapshot() == TogglePaused(old(Snapshot()))
      ensures playerName == old(playerName)
    {
      ghost var s := Snapshot();
      TogglePreservesInv(s);
      if gameStarted && !gameOver {
        isPaused := !isPaused;
      }
      assert Snapshot() == TogglePaused(s);
    }

    /**
     * The running branch of the effect that (re)starts the animation loop,
     * at timestamp `now`; nothing happens unless the game runs.
     */
    method RestartLoopClock(now: int)
      requires Valid()
      modifies this
      ensures Valid()
      ensures Snapshot() == LoopRestarted(old(Snapshot()), now)
      ensures playerName == old(playerName)
    {
      ghost var s := Snapshot();
      LoopRestartPreservesInv(s, now);
      if gameStarted && !isPaused && !gameOver {
        lastTime := now;
        dropCounter := 0;
      }
      assert Snapshot() == LoopRestarted(s, now);
    }

    /** Resets every value and draws the first and the next piece. */
    method ResetAll(firstIndex: int, nextIndex: int)
      modifies this
      ensures Valid()
      ensures Snapshot() == Fresh(SpawnPiece(SHAPES, firstIndex), SpawnPiece(SHAPES, nextIndex))
      ensures playerName == old(playerName)
    {
      board := CreateEmptyBoard();
      var firstPiece := CreateRandomPiece(SHAPES, firstIndex);
      currentPiece := Some(firstPiece);
      nextPiece := CreateRandomPiece(SHAPES, nextIndex);
      score := 0;
      level := 1;
      linesCleared := 0;
      gameOver := false;
      isPaused := false;
      dropInterval := START_DROP_INTERVAL;
      dropCounter := 0;
      lastTime := 0;
      gameStarted := true;
      FreshIsValid(firstIndex, nextIndex);
      assert Snapshot() == Fresh(SpawnPiece(SHAPES, firstIndex), SpawnPiece(SHAPES, nextIndex));
    }

    method HandleStartGame(firstIndex: int, nextIndex: int)
      requires Valid()
      modifies this
      ensures Valid()
      ensures Snapshot() == Started(old(Snapshot()), SpawnPiece(SHAPES, firstIndex), SpawnPiece(SHAPES, nextIndex))
      ensures playerName == old(playerName)
    {
      if gameOver || gameStarted {
        return;
      }
      ResetAll(firstIndex, nextIndex);
    }

    /** Starts over from any state. */
    method HandleRestartGame(firstIndex: int, nextIndex: int)
      modifies this
      ensures Valid()
      ensures Snapshot() == Fresh(SpawnPiece(SHAPES, firstIndex), SpawnPiece(SHAPES, nextIndex))
      ensures playerName == old(playerName)
    {
      ResetAll(firstIndex, nextIndex);
    }
  }
}
