# tetris-retro, modelled in Dafny

This project models the game logic of tetris-retro, a small Tetris written for
React, and proves properties of that model. It has eight modules:

- `TetrisConstants` (`constants.dfy`) holds the 10 × 20 board size, the seven
  shapes and the colour table. Lemmas prove the facts the rest of the program
  relies on.
- `TetrisUtils` (`tetris_utils.dfy`) is the board and piece library:
  - empty board, spawn placement and colour tag;
  - clockwise rotation;
  - collision, merging and line clearing;
  - the score, level and drop-interval formulas.

  The loops of the source are methods, each proved equal to a specification
  function. The properties are lemmas over those functions.
- `HighScores` (`high_scores.dfy`) is the top-ten table kept in the browser's
  storage:
  - a `HighScoreStore` class holds the stored item and whether reading or
    writing fails;
  - saving is a stable sort of the old list plus the new entry, cut to ten
    entries.
- `TetrisEngine` (`engine.dfy`) is the game hook:
  - the nine React state values and three refs are fields of the class
    `Game`;
  - each action is a method, specified by a function on the `State` value
    that `Snapshot()` reads off the fields;
  - lemmas prove that each action keeps the invariant `Inv`;
  - they also prove that score, lines and level never decrease, and that the
    game ends exactly when the next piece cannot enter the cleared board.
- `DraftRules` (`draft_rules.dfy`) holds the rules that the two earlier,
  self-contained components each define for themselves:
  - collision with the ceiling left open;
  - rotation and locking by nested loops;
  - clearing by filtering out full rows;
  - a one-step hard drop.

  Each rule is tied to the library's by an agreement lemma when the two
  agree, and by a lemma stating the difference when they do not.
- `AppDraft` (`app_draft.dfy`) and `TetrisGameDraft` (`tetris_game_draft.dfy`)
  are the two components as classes. Their differences from each other and
  from the hook are stated as lemmas:
  - how a piece is drawn;
  - the sideways offsets tried on rotation;
  - the score multiplier;
  - when a start is refused.
- `Wrappers` (`wrappers.dfy`) is the `Option` type used for values the source
  holds as `null`.

What the source draws by `Math.random()` is a shape index parameter. The
frame timestamp, the date stored with a high score and the player name are
parameters too.

A group of React state setters called in one handler is applied as one
update, as React does. In the components this is the method `Commit`. In the
hook the fields are assigned in source order.

The components' hard drop tests the next piece against the board before the
lock. The model follows the code here. `DraftRules.HardDropInLibraryTerms`
states this, and it is the reason the components' invariant `DraftInv` has no
"the current piece fits" conjunct, unlike the hook's `Inv`.

## Model

| member | source | states |
|---|---|---|
| `TetrisConstants.ShapesAreSquares` | src/constants/tetrisConstants.js:8-44 | there are seven shapes and each is a square of side 2, 3 or 4 |
| `TetrisConstants.ShapeCellsCarryTheirTag` | src/constants/tetrisConstants.js:8-44 | every cell of the shape at index i is 0 or i + 1 |
| `TetrisConstants.ShapesHaveFourBlocks` | src/constants/tetrisConstants.js:8-44 | every shape has exactly four blocks |
| `TetrisConstants.EveryTagHasAColour` | src/constants/tetrisConstants.js:47-56 | eight colours, none for the empty tag 0 and one for each tag 1..7, so every shape cell indexes a colour |
| `TetrisUtils.ZeroRow` | src/utils/tetrisUtils.js:5 | a row of COLS zeros |
| `TetrisUtils.ZeroRows` | src/utils/tetrisUtils.js:124 | n rows, each a row of zeros |
| `TetrisUtils.CreateEmptyBoard` | src/utils/tetrisUtils.js:4-5 | exactly ROWS rows of COLS cells, every cell 0 |
| `TetrisUtils.CreateRandomPiece` | src/utils/tetrisUtils.js:8-47 | the fallback `[[1]]` piece for an empty catalog or a missing or empty shape; otherwise the chosen shape at x = COLS/2 − width/2, y = 0, tagged with its first block in row-major order |
| `TetrisUtils.FirstTagInRowIsFirstBlock` | src/utils/tetrisUtils.js:31-39 | the inner search yields 0 exactly for an all-zero row, and otherwise the value of the row's first non-zero cell |
| `TetrisUtils.FirstTagIsFirstBlock` | src/utils/tetrisUtils.js:29-39 | the colour tag is 0 exactly when the shape has no block, and otherwise the first block in row-major order |
| `TetrisUtils.Column` | src/utils/tetrisUtils.js:53-55 | a column has one cell per row |
| `TetrisUtils.Reverse` | src/utils/tetrisUtils.js:58 | reversing keeps the length |
| `TetrisUtils.RotatedColumns` | src/utils/tetrisUtils.js:53-55 | the transpose has one row per column, each with one cell per original row |
| `TetrisUtils.RotatePieceMatrix` | src/utils/tetrisUtils.js:50-59 | an h × w shape becomes a rectangular w × h matrix |
| `TetrisUtils.RotatedColumnsRow` | src/utils/tetrisUtils.js:53-58 | row i of the result is column i read bottom to top |
| `TetrisUtils.RotatedCell` | src/utils/tetrisUtils.js:50-59 | result[i][j] == shape[h − 1 − j][i] |
| `TetrisUtils.RotationIsQuarterTurn` | src/utils/tetrisUtils.js:50-59 | the rotation is a clockwise quarter turn, cell by cell |
| `TetrisUtils.FourQuarterTurns` | src/utils/tetrisUtils.js:50-59 | four quarter turns in a row bring every cell back |
| `TetrisUtils.RotateFourTimesIsIdentity` | src/utils/tetrisUtils.js:50-59 | rotating a rectangular shape four times gives it back |
| `TetrisUtils.RotationIsInjective` | src/utils/tetrisUtils.js:50-59 | two shapes of the same size with the same rotation are equal, so rotation is a bijection |
| `TetrisUtils.RotationKeepsBlocks` | src/utils/tetrisUtils.js:50-59 | the rotation of a well-formed shape is a well-formed shape with a block |
| `TetrisUtils.CheckCollision` | src/utils/tetrisUtils.js:62-84 | true exactly when a non-zero cell falls left, right, above or below the board, or on a non-zero board cell |
| `TetrisUtils.NoCollisionAboveFloor` | src/utils/tetrisUtils.js:62-84 | a position that does not collide puts every block above the floor |
| `TetrisUtils.SpawnFitsEmptyBoard` | src/utils/tetrisUtils.js:43-84 | a square shape of side 1..4 placed at the spawn position fits the empty board |
| `TetrisUtils.CatalogSpawnFitsEmptyBoard` | src/constants/tetrisConstants.js:8-44 | every catalog piece, as spawned, is well-formed and fits the empty board |
| `TetrisUtils.Merged` | src/utils/tetrisUtils.js:87-105 | merging keeps the board ROWS × COLS |
| `TetrisUtils.MergePieceToBoard` | src/utils/tetrisUtils.js:87-105 | the nested loops over a copy produce the merged board, leaving the input unchanged |
| `TetrisUtils.MergedCells` | src/utils/tetrisUtils.js:90-102 | a cell covered by a block of the piece takes the piece's tag and every other cell keeps its value; blocks outside the board are dropped |
| `TetrisUtils.MergeIsIdempotent` | src/utils/tetrisUtils.js:87-105 | merging the same piece twice is merging it once |
| `TetrisUtils.MergeOfFittingPieceKeepsBlocks` | src/utils/tetrisUtils.js:87-105 | merging a piece that does not collide overwrites no occupied cell |
| `TetrisUtils.ClearLines` | src/utils/tetrisUtils.js:108-129 | the counter is the number of complete rows and the board is the cleared board |
| `TetrisUtils.KeptPlusClearedIsAll` | src/utils/tetrisUtils.js:113-120 | kept rows plus cleared rows make up all the rows |
| `TetrisUtils.KeptRowsAreTheIncompleteOnes` | src/utils/tetrisUtils.js:113-120 | a row is kept exactly when it is a row of the board with a zero cell |
| `TetrisUtils.ClearedShape` | src/utils/tetrisUtils.js:108-129 | clearing keeps the row count, leaves no complete row and keeps a board a board |
| `TetrisUtils.ClearedIsBoard` | src/utils/tetrisUtils.js:108-129 | a cleared board is ROWS × COLS |
| `TetrisUtils.NoCompleteRowIsFixpoint` | src/utils/tetrisUtils.js:108-129 | a board with no complete row clears 0 lines and is returned as it is |
| `TetrisUtils.NothingClearedIffNoCompleteRow` | src/utils/tetrisUtils.js:113-126 | 0 lines are cleared exactly when no row is complete |
| `TetrisUtils.ClearLinesIsIdempotent` | src/utils/tetrisUtils.js:113-126 | clearing a second time clears 0 lines and returns the same board |
| `TetrisUtils.ScoreTable` | src/utils/tetrisUtils.js:132-135 | 0, 40, 100, 300 and 1200 points times the level for 0..4 lines, and 0 for any other count |
| `TetrisUtils.ScoreBoundsAndOrder` | src/utils/tetrisUtils.js:132-135 | at a positive level the score lies in 0..1200·level and grows strictly with the line count |
| `TetrisUtils.ScoreGrowsWithLevel` | src/utils/tetrisUtils.js:132-135 | the same lines score at least as much at a higher level |
| `TetrisUtils.LevelIsMonotone` | src/utils/tetrisUtils.js:138-140 | the level is at least 1, never decreases as lines grow, and is 1 exactly below 10 lines |
| `TetrisUtils.LevelExamples` | src/utils/tetrisUtils.js:138-140 | levels 1, 1, 2, 2, 3 at 0, 9, 10, 19 and 20 lines |
| `TetrisUtils.DropIntervalBounds` | src/utils/tetrisUtils.js:143-145 | 1000 ms at level 1, never above 1000 from level 1 on, never below 100, and never increasing |
| `TetrisUtils.DropIntervalExamples` | src/utils/tetrisUtils.js:143-145 | 800 at level 5, and the floor of 100 at levels 19 and 21 |
| `HighScores.InsertDesc` | src/utils/highScoresUtils.js:26 | inserting adds one entry |
| `HighScores.InsertDescPermutes` | src/utils/highScoresUtils.js:25-26 | inserting adds exactly the new entry to the multiset of entries |
| `HighScores.InsertDescBounded` | src/utils/highScoresUtils.js:25-26 | inserting keeps every score within a bound that holds for all the old entries and for the new one |
| `HighScores.SortedCons` | src/utils/highScoresUtils.js:26 | a score at least the head of a sorted list can precede it |
| `HighScores.InsertDescKeepsOrder` | src/utils/highScoresUtils.js:26 | inserting into a sorted list keeps it sorted, highest first |
| `HighScores.SortDesc` | src/utils/highScoresUtils.js:26 | the sort is a permutation sorted highest first |
| `HighScores.Take` | src/utils/highScoresUtils.js:29 | `slice(0, n)` is the prefix of length min(n, length) |
| `HighScores.InsertPos` | src/utils/highScoresUtils.js:26 | the insertion point lies within the list |
| `HighScores.InsertDescPosition` | src/utils/highScoresUtils.js:26 | the entry goes after every entry with at least its score and before the first with a lower one, so ties keep the older entry first |
| `HighScores.InsertDescSplits` | src/utils/highScoresUtils.js:26 | inserting splits the old list at the insertion point, keeping both parts in order |
| `HighScores.InsertPosScores` | src/utils/highScoresUtils.js:26 | the entries before the insertion point score at least the new one, and the entry at it scores less |
| `HighScores.InsertDescAtEnd` | src/utils/highScoresUtils.js:26 | an entry no higher than any stored one goes at the end |
| `HighScores.SortDescOfSorted` | src/utils/highScoresUtils.js:26 | sorting a sorted list leaves it unchanged |
| `HighScores.SortAppendedIsInsert` | src/utils/highScoresUtils.js:25-26 | stably sorting the sorted list plus the new entry is inserting the entry |
| `HighScores.Saved` | src/utils/highScoresUtils.js:17-39 | the saved list holds one more entry, up to ten, sorted highest first, drawn from the old list and the new entry |
| `HighScores.SavedIsStableInsert` | src/utils/highScoresUtils.js:20-29 | the result is the stable insertion of the entry cut to ten |
| `HighScores.QualifyingScoreIsKept` | src/utils/highScoresUtils.js:20-29 | a qualifying entry is kept, at its insertion point, behind the unchanged entries of equal or higher score |
| `HighScores.NonQualifyingScoreChangesNothing` | src/utils/highScoresUtils.js:20-29 | saving a score that does not qualify into a full sorted table leaves the table unchanged |
| `HighScores.QualifiesIffSavedChanges` | src/utils/highScoresUtils.js:53-64 | on a sorted table of at most ten entries, a score qualifies exactly when saving it changes the table |
| `HighScores.ItemAfterSave` | src/utils/highScoresUtils.js:17-39 | a failing write leaves storage as it was; otherwise storage holds the saved list |
| `HighScores.HighScoreStore.constructor` | src/utils/highScoresUtils.js:6-14 | a store holding the given item and failure flags |
| `HighScores.HighScoreStore.GetHighScores` | src/utils/highScoresUtils.js:6-14 | the list read from storage, `[]` on any failure or when nothing is stored |
| `HighScores.HighScoreStore.SaveHighScore` | src/utils/highScoresUtils.js:17-39 | returns and stores the saved list, at most ten and sorted; on a failing write returns `[]` and stores nothing |
| `HighScores.HighScoreStore.ClearHighScores` | src/utils/highScoresUtils.js:42-50 | removes the item and returns true, or returns false and keeps it when the write fails; after a successful clear the list read is empty |
| `HighScores.HighScoreStore.IsHighScore` | src/utils/highScoresUtils.js:53-64 | the qualification test on the list read from storage; true whenever fewer than ten are stored |
| `TetrisEngine.FirstFreeKick` | src/hooks/useTetrisGame.js:52-83 | the offset found is one of those tried |
| `TetrisEngine.FirstFreeKickSpec` | src/hooks/useTetrisGame.js:52-83 | the offset found fits and every earlier one collides; with none found every offset collides |
| `TetrisEngine.FirstFreeKickIsFirst` | src/hooks/useTetrisGame.js:52-83 | an offset that fits after all earlier ones collided is the one found |
| `TetrisEngine.FindKick` | src/hooks/useTetrisGame.js:58-80 | the kick loop finds the first of 0, −1, 1, −2, 2 at which the rotated shape fits |
| `TetrisEngine.FindLanding` | src/hooks/useTetrisGame.js:172-179 | the descent loop stops at the landing row |
| `TetrisEngine.Scored` | src/hooks/useTetrisGame.js:97-127 | the board after the lock and clear is ROWS × COLS |
| `TetrisEngine.LandingY` | src/hooks/useTetrisGame.js:172-179 | the landing row is never above the start row |
| `TetrisEngine.FitIsAboveFloor` | src/hooks/useTetrisGame.js:172-179 | a shape with a block that fits sits above the floor, so the descent ends |
| `TetrisEngine.LandingYSpec` | src/hooks/useTetrisGame.js:172-179 | one row below the landing row collides, and every row from the start down to it is free |
| `TetrisEngine.LockedBoardIsCleared` | src/hooks/useTetrisGame.js:97-109 | the board after a lock is the cleared merge of the piece |
| `TetrisEngine.LockScoresAndLevels` | src/hooks/useTetrisGame.js:106-127 | score and lines grow by the cleared rows at the pre-lock level; score and level never decrease; level and interval follow the line count |
| `TetrisEngine.LockEndsGameIffSpawnCollides` | src/hooks/useTetrisGame.js:129-154 | the next piece becomes current and a fresh one is drawn; the game ends, and stops, exactly when the next piece collides with the cleared board |
| `TetrisEngine.LockPreservesInv` | src/hooks/useTetrisGame.js:97-154 | a lock keeps the invariant |
| `TetrisEngine.MovePreservesInv` | src/hooks/useTetrisGame.js:36-49 | a move keeps the invariant |
| `TetrisEngine.MoveChangesOnlyX` | src/hooks/useTetrisGame.js:36-49 | a move changes nothing but the current piece; it changes the state exactly when a piece can act, the direction is not zero and the shifted position is free, and then only x moves, by the direction |
| `TetrisEngine.RotateBlockedChangesNothing` | src/hooks/useTetrisGame.js:52-83 | when every offset collides nothing changes |
| `TetrisEngine.RotateUsesFirstFreeOffset` | src/hooks/useTetrisGame.js:52-83 | the piece takes the rotated shape at the first free offset, keeping y and its tag |
| `TetrisEngine.RotatePreservesInv` | src/hooks/useTetrisGame.js:52-83 | a rotation keeps the invariant |
| `TetrisEngine.DropIntoFreeRowMovesDown` | src/hooks/useTetrisGame.js:89-96 | when the row below is free only y grows, by one |
| `TetrisEngine.DropPreservesInv` | src/hooks/useTetrisGame.js:86-165 | a drop keeps the invariant |
| `TetrisEngine.HardDropLandsWherePieceRests` | src/hooks/useTetrisGame.js:168-239 | the piece locks at its landing row, where the next row collides and every row passed is free, and the drop counter is reset |
| `TetrisEngine.HardDropPreservesInv` | src/hooks/useTetrisGame.js:168-239 | a hard drop keeps the invariant |
| `TetrisEngine.DropIgnoresTiming` | src/hooks/useTetrisGame.js:86-165 | a drop neither depends on nor changes the frame time and the drop counter |
| `TetrisEngine.LoopStepCases` | src/hooks/useTetrisGame.js:260-279 | a frame does nothing unless running and then records the time; a frame that does not drop changes no more than the two counters; a frame that drops is one soft drop with the counter reset |
| `TetrisEngine.LoopRestartPreservesInv` | src/hooks/useTetrisGame.js:324-342 | restarting the loop's clock keeps the invariant |
| `TetrisEngine.FirstFrameAfterRestart` | src/hooks/useTetrisGame.js:260-342 | after the clock restarts at `now`, the next frame drops exactly when more than one interval has passed since `now`, and otherwise its counter is the time since `now` |
| `TetrisEngine.LoopPreservesInv` | src/hooks/useTetrisGame.js:260-279 | a frame keeps the invariant |
| `TetrisEngine.TogglePreservesInv` | src/hooks/useTetrisGame.js:282-285 | the pause flips only while started and not over, and the invariant holds |
| `TetrisEngine.FreshIsValid` | src/hooks/useTetrisGame.js:288-321 | a fresh game meets the invariant |
| `TetrisEngine.StartPreservesInv` | src/hooks/useTetrisGame.js:288-304 | starting keeps the invariant |
| `TetrisEngine.OverIgnoresPlay` | src/hooks/useTetrisGame.js:36-304 | once over, every action except restart leaves the state unchanged |
| `TetrisEngine.Game.constructor` | src/hooks/useTetrisGame.js:18-33 | the initial state: empty board, no current piece, a drawn next piece, score/level/lines 0/1/0, not started, interval 1000 |
| `TetrisEngine.Game.MovePiece` | src/hooks/useTetrisGame.js:36-49 | the state after a move, with the invariant kept |
| `TetrisEngine.Game.RotatePiece` | src/hooks/useTetrisGame.js:52-83 | the state after a rotation, with the invariant kept |
| `TetrisEngine.Game.LockAndSpawn` | src/hooks/useTetrisGame.js:97-154 | the locked state, and a high score saved only when the pre-lock score is positive, qualifies and the game ends |
| `TetrisEngine.Game.MergeAndScore` | src/hooks/useTetrisGame.js:97-127 | merge, clear, score and level updates applied in source order |
| `TetrisEngine.Game.PromoteNext` | src/hooks/useTetrisGame.js:129-145 | the next piece becomes current and a fresh one is drawn; returns whether the next piece collides with the current board |
| `TetrisEngine.Game.DropPiece` | src/hooks/useTetrisGame.js:86-165 | the state after a soft drop, and the stored table after it |
| `TetrisEngine.Game.HardDrop` | src/hooks/useTetrisGame.js:168-239 | the state after a hard drop, and the stored table after it |
| `TetrisEngine.Game.GameLoop` | src/hooks/useTetrisGame.js:260-279 | the state after one frame at the given time, and the stored table after it |
| `TetrisEngine.Game.RestartLoopClock` | src/hooks/useTetrisGame.js:324-342 | while the game runs, the frame time becomes `now` and the drop counter 0; otherwise nothing changes; the invariant is kept |
| `TetrisEngine.Game.HandleTogglePause` | src/hooks/useTetrisGame.js:282-285 | the state after the pause toggle |
| `TetrisEngine.Game.ResetAll` | src/hooks/useTetrisGame.js:288-321 | a fresh, running game with the two drawn pieces |
| `TetrisEngine.Game.HandleStartGame` | src/hooks/useTetrisGame.js:288-304 | a fresh game unless over or already started, in which case nothing changes |
| `TetrisEngine.Game.HandleRestartGame` | src/hooks/useTetrisGame.js:307-321 | from any state, a fresh running game: empty board, both pieces drawn, 0/1/0, interval 1000 |
| `DraftRules.CatalogPieceOk` | src/App.jsx:11-45 | every catalog shape is a rectangle of non-negative cells with a block |
| `DraftRules.CatalogFirstTag` | src/App.jsx:65-95 | the first block of the shape at index i is i + 1, so the components' tag index + 1 is the library's colour tag |
| `DraftRules.CheckCollision` | src/App.jsx:218-239 | true exactly when a positive cell falls left, right or below the board, or on an occupied cell inside it; cells above the top never collide |
| `DraftRules.DraftCollisionAgreesBelowTop` | src/TetrisGame.jsx:193-216 | a draft collision is a library collision, and at y ≥ 0 the two agree |
| `DraftRules.CeilingIsOpen` | src/App.jsx:218-239 | a block one row above the top collides for the library but not for the drafts |
| `DraftRules.RotateMatrix` | src/App.jsx:244-257 | the nested loops writing newMatrix[x][rows − 1 − y] give the library's rotation |
| `DraftRules.LockedBoard` | src/App.jsx:259-274 | locking keeps the board ROWS × COLS |
| `DraftRules.LockPiece` | src/TetrisGame.jsx:233-248 | the nested loops over a copy produce the locked board |
| `DraftRules.LockAgreesWithMerge` | src/App.jsx:259-274 | for a shape without negative cells, locking is the library's merge |
| `DraftRules.LockKeepsNonNegative` | src/App.jsx:259-274 | locking a non-negative piece keeps every cell non-negative |
| `DraftRules.Unfilled` | src/App.jsx:276-301 | filtering keeps no more rows than the board has |
| `DraftRules.ClearFullRows` | src/TetrisGame.jsx:250-278 | the count of cleared rows lies in 0..ROWS |
| `DraftRules.UnfilledIsIncomplete` | src/App.jsx:276-301 | filtering out full rows keeps the library's incomplete rows |
| `DraftRules.ClearFullRowsAgreesWithLibrary` | src/App.jsx:276-301 | on a non-negative board, the drafts' clear is the library's cleared board and count |
| `DraftRules.ClearFullRowsGivesBoard` | src/TetrisGame.jsx:250-278 | the drafts' clear gives a non-negative ROWS × COLS board and counts the complete rows |
| `DraftRules.DraftFitIsAboveFloor` | src/App.jsx:394-397 | a shape with a block that fits sits above the floor, so the descent ends |
| `DraftRules.DraftLandingY` | src/App.jsx:394-397 | the landing row is never above the start row |
| `DraftRules.DraftLandingYSpec` | src/App.jsx:394-397 | one row below the landing row collides, and every row passed is free |
| `DraftRules.DraftLandingAgreesWithLibrary` | src/TetrisGame.jsx:359-444 | from a row at or below the top, the drafts land a piece where the hook does |
| `DraftRules.DescendToRest` | src/TetrisGame.jsx:359-444 | the descent loop stops at the landing row |
| `DraftRules.DropLockAndClear` | src/App.jsx:392-465 | the landed piece locked and the full rows cleared, with their count |
| `DraftRules.FirstFree` | src/App.jsx:359-389 | the offset found is one of those tried |
| `DraftRules.FirstFreeSpec` | src/App.jsx:359-389 | the offset found fits and every earlier one collides; with none found every offset collides |
| `DraftRules.FirstFreeIsFirst` | src/TetrisGame.jsx:333-357 | an offset that fits after all earlier ones collided is the one found |
| `DraftRules.NotStartedIsValid` | src/App.jsx:631-648 | the not-started state meets the components' invariant |
| `DraftRules.RotatedWithPreservesInv` | src/App.jsx:359-389 | a rotation keeps the components' invariant |
| `DraftRules.RotatedWithBlockedChangesNothing` | src/App.jsx:359-389 | when every offset collides nothing changes |
| `DraftRules.RotatedWithUsesFirstFreeOffset` | src/TetrisGame.jsx:333-357 | the piece takes the rotated shape at the first free offset, keeping y and its tag |
| `DraftRules.HardDropUpdate` | src/App.jsx:392-465 | the hard drop's new state computed step by step is the one-step hard drop |
| `DraftRules.CommonHardDropPreservesInv` | src/TetrisGame.jsx:359-444 | a hard drop keeps the components' invariant |
| `DraftRules.HardDropInLibraryTerms` | src/App.jsx:392-465 | the board is the library's cleared merge; score and lines grow by the complete rows; the game ends exactly when the next piece collides with the board before the lock; the counter is reset |
| `DraftRules.HardDropLandsOnTheStack` | src/TetrisGame.jsx:359-444 | the piece locks at its landing row, where the next row collides and every row passed is free |
| `DraftRules.TogglePreservesInv` | src/App.jsx:542-545 | the pause toggle keeps the components' invariant |
| `AppDraft.CreateRandomPieceAtIsLibrarySpawn` | src/App.jsx:65-95 | on the catalog the component spawns exactly the library's piece, fallback included, and a piece it can hold |
| `AppDraft.MultiplierIsTheLevel` | src/App.jsx:434-436 | in every reachable state the level is at least 1, so the multiplier is the level |
| `AppDraft.StartPreservesInv` | src/App.jsx:614-629 | starting keeps the components' invariant |
| `AppDraft.StartIsTheHookStart` | src/App.jsx:614-629 | starting is ignored when over or started, and otherwise is the hook's fresh game |
| `AppDraft.TryKicks` | src/App.jsx:359-389 | the nested tries find the first of 0, 1, −1, 2, −2 at which the shape fits |
| `AppDraft.Game.constructor` | src/App.jsx:101-118 | the not-started state with a drawn next piece |
| `AppDraft.Game.RotatePiece` | src/App.jsx:359-389 | the state after the rotation with offsets 0, 1, −1, 2, −2 |
| `AppDraft.Game.HardDrop` | src/App.jsx:392-465 | the one-step hard drop with multiplier `level \|\| 1` and a drawn next piece |
| `AppDraft.Game.Commit` | src/App.jsx:392-465 | the setters of one handler give every field its new value |
| `AppDraft.Game.HandleTogglePause` | src/App.jsx:542-545 | the pause flips only while started and not over |
| `AppDraft.Game.HandleStartGame` | src/App.jsx:614-629 | the hook's start with the component's pieces |
| `AppDraft.Game.HandleRestartGame` | src/App.jsx:631-648 | from any state, not started and not over, empty board, no current piece, 0/1/0 and a new next piece |
| `TetrisGameDraft.CreateRandomPieceAtIsLibrarySpawn` | src/TetrisGame.jsx:62-72 | for an index in range, the library's piece and the first component's |
| `TetrisGameDraft.KickPosAlternates` | src/TetrisGame.jsx:346-354 | the positions tried are 0, 1, −1, 2, −2, 3, …: (k+1)/2 for odd k and −k/2 for even k |
| `TetrisGameDraft.KickStepClosedForm` | src/TetrisGame.jsx:338-353 | the steps `offsetX` takes are 1, −2, 3, −4, …: step k has magnitude k and is positive exactly for odd k |
| `TetrisGameDraft.KickStepSize` | src/TetrisGame.jsx:350 | step k has magnitude k, which is what the cutoff compares with the width |
| `TetrisGameDraft.CollidesBeforeNext` | src/TetrisGame.jsx:347 | a colliding position extends the run of colliding positions tried |
| `TetrisGameDraft.LoopKicksArePrefixesOfAppKicks` | src/TetrisGame.jsx:333-357 | a 2-wide shape tries 0, 1, −1, a 3-wide adds 2, a 4-wide adds −2: prefixes of the first component's offsets |
| `TetrisGameDraft.KickSearch` | src/TetrisGame.jsx:346-354 | the loop stops at a position that fits, after every earlier one collided, or every position up to the width collides |
| `TetrisGameDraft.WallKick` | src/TetrisGame.jsx:333-357 | the search settles on the first of the positions 0 to the width that fits, or none |
| `TetrisGameDraft.KickSearchFinds` | src/TetrisGame.jsx:346-356 | a position that fits after all earlier ones collided is the one settled on |
| `TetrisGameDraft.KickSearchGivesUp` | src/TetrisGame.jsx:346-351 | when every position up to the width collides, no position is settled on |
| `TetrisGameDraft.RotationMatchesAppForFourRows` | src/TetrisGame.jsx:333-357 | for a piece four rows tall the loop's rotation is the first component's |
| `TetrisGameDraft.HardDropMatchesApp` | src/TetrisGame.jsx:359-444 | the hard drop with multiplier `level` is the first component's with `level \|\| 1` |
| `TetrisGameDraft.StartPreservesInv` | src/TetrisGame.jsx:567-579 | starting keeps the components' invariant |
| `TetrisGameDraft.StartComparedWithHook` | src/TetrisGame.jsx:567-579 | before a game it starts the hook's fresh game, keeping the frame counters; in mid-game it resets the game where the hook does nothing |
| `TetrisGameDraft.Game.constructor` | src/TetrisGame.jsx:76-92 | the not-started state with a drawn next piece |
| `TetrisGameDraft.Game.Commit` | src/TetrisGame.jsx:359-444 | the setters of one handler give every field its new value |
| `TetrisGameDraft.Game.RotatePiece` | src/TetrisGame.jsx:333-357 | the state after the rotation with the loop's offsets |
| `TetrisGameDraft.Game.HardDrop` | src/TetrisGame.jsx:359-444 | the one-step hard drop with multiplier `level` and a drawn next piece |
| `TetrisGameDraft.Game.HandleTogglePause` | src/TetrisGame.jsx:581-584 | the pause flips only while started and not over |
| `TetrisGameDraft.Game.HandleStartGame` | src/TetrisGame.jsx:567-579 | refused only when over; otherwise board, pieces, score, level, lines and interval are reset |
| `TetrisGameDraft.Game.HandleRestartGame` | src/TetrisGame.jsx:586-604 | from any state, not started and not over, empty board, no current piece, 0/1/0 and a new next piece |

## Left out

- Rendering: the canvas drawing, the JSX overlays and the components under `src/components/`. They hold no game logic.
- Keyboard input: the `keydown` listeners of the hook and of both components. The methods they dispatch to are modelled.
- Scheduling: `requestAnimationFrame`, `cancelAnimationFrame` and `performance.now()`. One frame of the hook is the method `GameLoop`, with the timestamp as a parameter.
- The loop effect (src/hooks/useTetrisGame.js:324-342) is the method `RestartLoopClock`, with `performance.now()` as a parameter. React runs it whenever the game is running and `gameStarted`, `isPaused`, `gameOver` or the loop's identity changed: on start, on resume and after every action that changes the piece, the board or the score. The model does not call it after those actions itself; a caller that wants the browser's timing calls it after each of them. Its cancelling branch only stops the scheduling.
- Stored items are only an array of entries with integer scores, unparsable text, or nothing. Text that parses to something else is not represented: for `null`, `isHighScore` throws at `.length` (src/utils/highScoresUtils.js:57), and `saveHighScore` throws, catches, returns `[]` and writes nothing (src/utils/highScoresUtils.js:23, 35-38). Entries without a numeric score are not represented either: the sort's comparator gives `NaN` for them, and `isHighScore` falls back to 0 with `?.score || 0` (src/utils/highScoresUtils.js:26, 62).
- Frame times are integers. The browser gives fractional milliseconds.
- `Math.random()`: the shape index is a parameter of every member that draws a piece.
- Storage: `localStorage`, `JSON.parse`/`JSON.stringify` and `new Date().toISOString()`. They are the stored item and the failure flags of `HighScoreStore`, and a date parameter.
- `console.error` logging.
- React's asynchronous state: the chains of setters in the components' `dropPiece` (src/App.jsx:322-344, src/TetrisGame.jsx:297-320) read stale closures. Their pure helpers are modelled: `DraftRules.LockPiece`, `DraftRules.ClearFullRows`, `AppDraft.CreateRandomPieceAt`. The chains themselves, and the components' `movePiece`, `dropPiece`, `spawnNewPiece` and `gameLoop`, are not.
- The score, line and level updates inside the components' `clearLines` (src/App.jsx:288-300, src/TetrisGame.jsx:264-277) are those of the hard drop, and are modelled there in `DraftRules.CommonHardDrop`. `DraftRules.ClearFullRows` is the board part.
- Double-invoked state updaters (React `StrictMode`) are not modelled. Each updater is applied once.
- The `TetrisGame.jsx` mount effect that seeds the first piece (src/TetrisGame.jsx:607-624) is not modelled. It is UI lifecycle.
- `setPlayerName` is not modelled. The player name is a field set by the constructor.
- The first component's own shape and colour literals (src/App.jsx:11-63) are taken to be the catalog of `TetrisConstants`.
- `TetrisGameDraft.CreateRandomPieceAt` requires the index to be in range. That component has no fallback, and its caller draws the index from the catalog's length.
