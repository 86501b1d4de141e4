/**
 * The game's fixed dimensions, the catalog of the seven tetrominoes and
 * the colour table indexed by cell tag (src/constants/tetrisConstants.js).
 */
module TetrisConstants {
  import opened Wrappers

  const COLS: int := 10
  const ROWS: int := 20

  /** The seven tetrominoes I, J, L, O, S, T, Z; the tag of shape i is i + 1. */
  const SHAPES: seq<seq<seq<int>>> := [
    [[0, 0, 0, 0],
     [1, 1, 1, 1],
     [0, 0, 0, 0],
     [0, 0, 0, 0]],
    [[2, 0, 0],
     [2, 2, 2],
     [0, 0, 0]],
    [[0, 0, 3],
     [3, 3, 3],
     [0, 0, 0]],
    [[4, 4],
     [4, 4]],
    [[0, 5, 5],
     [5, 5, 0],
     [0, 0, 0]],
    [[0, 6, 0],
     [6, 6, 6],
     [0, 0, 0]],
    [[7, 7, 0],
     [0, 7, 7],
     [0, 0, 0]]
  ]

  /** Colour per cell tag; tag 0 (an empty cell) has none. */
  const COLORS: seq<Option<string>> := [
    None,
    Some("#00f0f0"),
    Some("#0000f0"),
    Some("#f0a000"),
    Some("#f0f000"),
    Some("#00f000"),
    Some("#a000f0"),
    Some("#f00000")
  ]

  /** A matrix with n rows of n cells each. */
  predicate IsSquare(m: seq<seq<int>>, n: int)
  {
    |m| == n && forall r :: 0 <= r < |m| ==> |m[r]| == n
  }

  /** Number of nonzero cells of one row. */
  function RowBlocks(row: seq<int>): (n: nat)
    ensures n <= |row|
  {
    if row == [] then 0 else (if row[0] != 0 then 1 else 0) + RowBlocks(row[1..])
  }

  /** Number of nonzero cells of a matrix. */
  function Blocks(m: seq<seq<int>>): nat
  {
    if m == [] then 0 else RowBlocks(m[0]) + Blocks(m[1..])
  }

  lemma DimensionsAreTenByTwenty()
    ensures COLS == 10 && ROWS == 20
  {
  }

  /** Seven shapes, each a square of side 2, 3 or 4. */
  lemma ShapesAreSquares()
    ensures |SHAPES| == 7
    ensures forall i :: 0 <= i < |SHAPES| ==>
      exists n :: 2 <= n <= 4 && IsSquare(SHAPES[i], n)
  {
    assert IsSquare(SHAPES[0], 4);
    assert IsSquare(SHAPES[1], 3);
    assert IsSquare(SHAPES[2], 3);
    assert IsSquare(SHAPES[3], 2);
    assert IsSquare(SHAPES[4], 3);
    assert IsSquare(SHAPES[5], 3);
    assert IsSquare(SHAPES[6], 3);
  }

  /** Every cell of shape i is either empty or carries the tag i + 1. */
  lemma ShapeCellsCarryTheirTag()
    ensures forall i, r, c :: 0 <= i < |SHAPES| && 0 <= r < |SHAPES[i]| && 0 <= c < |SHAPES[i][r]| ==>
      SHAPES[i][r][c] == 0 || SHAPES[i][r][c] == i + 1
  {
  }

  /** Every shape is a tetromino: exactly four nonzero cells. */
  lemma ShapesHaveFourBlocks()
    ensures forall i :: 0 <= i < |SHAPES| ==> Blocks(SHAPES[i]) == 4
  {
    FourBlocks0(); FourBlocks1(); FourBlocks2(); FourBlocks3(); FourBlocks4(); FourBlocks5(); FourBlocks6();
    forall i | 0 <= i < |SHAPES| ensures Blocks(SHAPES[i]) == 4 {
      if i == 0 {} else if i == 1 {} else if i == 2 {} else if i == 3 {} else if i == 4 {} else if i == 5 {} else {}
    }
  }

  /** Block counts of the seven shapes, one at a time so each proof stays small. */
  lemma FourBlocks0()
    ensures Blocks(SHAPES[0]) == 4
  {
  }

  lemma FourBlocks1()
    ensures Blocks(SHAPES[1]) == 4
  {
  }

  lemma FourBlocks2()
    ensures Blocks(SHAPES[2]) == 4
  {
  }

  lemma FourBlocks3()
    ensures Blocks(SHAPES[3]) == 4
  {
  }

  lemma FourBlocks4()
    ensures Blocks(SHAPES[4]) == 4
  {
  }

  lemma FourBlocks5()
    ensures Blocks(SHAPES[5]) == 4
  {
  }

  lemma FourBlocks6()
    ensures Blocks(SHAPES[6]) == 4
  {
  }

  /** The empty tag has no colour; every shape tag 1..7 has one. */
  lemma EveryTagHasAColour()
    ensures |COLORS| == 8
    ensures COLORS[0].None?
    ensures forall t :: 1 <= t < |COLORS| ==> COLORS[t].Some?
    ensures forall i, r, c :: 0 <= i < |SHAPES| && 0 <= r < |SHAPES[i]| && 0 <= c < |SHAPES[i][r]| ==>
      0 <= SHAPES[i][r][c] < |COLORS|
  {
    ShapeCellsCarryTheirTag();
  }
}
