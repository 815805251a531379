/**
 * The five piece shapes, their fixed 4x4 masks and the quarter-turn
 * rotation of a mask (src/block.rs).
 */
module Blocks {
  import opened Grids

  datatype BlockType = Square | L | I | Z | T

  /** Direction of a quarter turn (called `Dir` in block.rs and `RotDir` in board.rs). */
  datatype RotDir = Clockwise | CounterClockwise

  /** A 4x4 occupancy mask, indexed `[row][column]`. */
  type Mask = m: Grid | WellFormed(m, 4, 4)
    witness [[false, false, false, false], [false, false, false, false],
             [false, false, false, false], [false, false, false, false]]

  /** A piece: its mask in the current rotation. */
  datatype Block = Block(cells: Mask)

  /** The canonical mask of each shape (`Block::new`). */
  function New(variant: BlockType): Block
  {
    match variant
    case Square => Block([[false, false, false, false],
                          [false, true, true, false],
                          [false, true, true, false],
                          [false, false, false, false]])
    case L => Block([[false, true, false, false],
                     [false, true, false, false],
                     [false, true, false, false],
                     [false, true, true, false]])
    case I => Block([[false, true, false, false],
                     [false, true, false, false],
                     [false, true, false, false],
                     [false, true, false, false]])
    case Z => Block([[false, false, false, false],
                     [true, true, false, false],
                     [false, true, true, false],
                     [false, false, false, false]])
    case T => Block([[false, false, false, false],
                     [true, true, true, false],
                     [false, true, false, false],
                     [false, false, false, false]])
  }

  /** The cell of `m` that a quarter turn in direction `dir` moves to `[x][y]`. */
  function Source(m: Mask, dir: RotDir, x: int, y: int): bool
    requires 0 <= x < 4 && 0 <= y < 4
  {
    match dir
    case Clockwise => m[3 - y][x]
    case CounterClockwise => m[y][3 - x]
  }

  /** The block turned a quarter in direction `dir`. */
  function Rotated(b: Block, dir: RotDir): Block
  {
    Block(seq(4, x requires 0 <= x < 4 => seq(4, y requires 0 <= y < 4 => Source(b.cells, dir, x, y))))
  }

  /**
   * `Block::rotate`: fills a fresh mask cell by cell, column-major as the
   * source's two loops do, and returns it as the new block.
   */
  method Rotate(b: Block, dir: RotDir) returns (r: Block)
    ensures dir == Clockwise ==>
      forall x, y :: 0 <= x < 4 && 0 <= y < 4 ==> r.cells[x][y] == b.cells[3 - y][x]
    ensures dir == CounterClockwise ==>
      forall x, y :: 0 <= x < 4 && 0 <= y < 4 ==> r.cells[x][y] == b.cells[y][3 - x]
    ensures r == Rotated(b, dir)
  {
    var rotated: Grid := [[false, false, false, false], [false, false, false, false],
                          [false, false, false, false], [false, false, false, false]];
    for y := 0 to 4
      invariant WellFormed(rotated, 4, 4)
      invariant forall x, y' :: 0 <= x < 4 && 0 <= y' < y ==> rotated[x][y'] == Source(b.cells, dir, x, y')
    {
      for x := 0 to 4
        invariant WellFormed(rotated, 4, 4)
        invariant forall x', y' :: 0 <= x' < 4 && 0 <= y' < y ==> rotated[x'][y'] == Source(b.cells, dir, x', y')
        invariant forall x' :: 0 <= x' < x ==> rotated[x'][y] == Source(b.cells, dir, x', y)
      {
        match dir {
          case Clockwise =>
            rotated := rotated[x := rotated[x][y := b.cells[3 - y][x]]];
          case CounterClockwise =>
            rotated := rotated[x := rotated[x][y := b.cells[y][3 - x]]];
        }
      }
    }
    r := Block(rotated);
    assert forall x :: 0 <= x < 4 ==> r.cells[x] == Rotated(b, dir).cells[x];
  }

  /** A clockwise quarter turn is undone by a counter-clockwise one, and vice versa. */
  lemma RotateInverse(b: Block)
    ensures Rotated(Rotated(b, Clockwise), CounterClockwise) == b
    ensures Rotated(Rotated(b, CounterClockwise), Clockwise) == b
  {
    var cw := Rotated(Rotated(b, Clockwise), CounterClockwise);
    var ccw := Rotated(Rotated(b, CounterClockwise), Clockwise);
    assert forall x :: 0 <= x < 4 ==> cw.cells[x] == b.cells[x];
    assert forall x :: 0 <= x < 4 ==> ccw.cells[x] == b.cells[x];
  }

  /** Four clockwise quarter turns give back the block. */
  lemma FourClockwise(b: Block)
    ensures Rotated(Rotated(Rotated(Rotated(b, Clockwise), Clockwise), Clockwise), Clockwise) == b
  {
    var r := Rotated(Rotated(Rotated(Rotated(b, Clockwise), Clockwise), Clockwise), Clockwise);
    assert forall x :: 0 <= x < 4 ==> r.cells[x] == b.cells[x];
  }

  /** Occupied cells of column `x` of a mask. */
  function ColumnCount(m: Mask, x: int): nat
    requires 0 <= x < 4
  {
    B2N(m[0][x]) + B2N(m[1][x]) + B2N(m[2][x]) + B2N(m[3][x])
  }

  /** Row `x` of a turned mask is a column of the original, read in some order. */
  lemma RotatedRowCount(b: Block, dir: RotDir, x: int)
    requires 0 <= x < 4
    ensures RowCount(Rotated(b, dir).cells[x]) ==
      if dir == Clockwise then ColumnCount(b.cells, x) else ColumnCount(b.cells, 3 - x)
  {
    RowCount4(Rotated(b, dir).cells[x]);
  }

  /** Summing the four columns counts the whole mask. */
  lemma ColumnsCount(m: Mask)
    ensures ColumnCount(m, 0) + ColumnCount(m, 1) + ColumnCount(m, 2) + ColumnCount(m, 3) == GridCount(m)
  {
    GridCount4(m);
    RowCount4(m[0]); RowCount4(m[1]); RowCount4(m[2]); RowCount4(m[3]);
  }

  /** Rotation permutes the 16 cells, so the number of occupied cells is kept. */
  lemma RotatedCellCount(b: Block, dir: RotDir)
    ensures GridCount(Rotated(b, dir).cells) == GridCount(b.cells)
  {
    var r := Rotated(b, dir).cells;
    GridCount4(r);
    RotatedRowCount(b, dir, 0); RotatedRowCount(b, dir, 1);
    RotatedRowCount(b, dir, 2); RotatedRowCount(b, dir, 3);
    ColumnsCount(b.cells);
  }

  /** Square, I, Z and T occupy four cells; the L mask occupies five. */
  lemma NewCellCount(variant: BlockType)
    ensures GridCount(New(variant).cells) == if variant == L then 5 else 4
  {
    ColumnsCount(New(variant).cells);
    match variant {
      case Square =>
      case L =>
      case I =>
      case Z =>
      case T =>
    }
  }

  /**
   * Every fresh mask keeps to columns 0 to 2, and has an occupied cell in
   * row 1 among those columns.
   */
  lemma NewShape(variant: BlockType)
    ensures forall y, x :: 0 <= y < 4 && 0 <= x < 4 && New(variant).cells[y][x] ==> x <= 2
    ensures exists x :: 0 <= x <= 2 && New(variant).cells[1][x]
  {
    assert New(variant).cells[1][1];
  }

  /** The case the source's `rotate_block` test states: the L mask turned clockwise. */
  lemma RotateLClockwise()
    ensures Rotated(New(L), Clockwise).cells ==
      [[false, false, false, false],
       [true, true, true, true],
       [true, false, false, false],
       [false, false, false, false]]
  {
    var r := Rotated(New(L), Clockwise).cells;
    assert r[0] == [false, false, false, false];
    assert r[1] == [true, true, true, true];
    assert r[2] == [true, false, false, false];
    assert r[3] == [false, false, false, false];
  }

  /** The Square mask is unchanged by a clockwise quarter turn. */
  lemma SquareClockwise()
    ensures Rotated(New(Square), Clockwise) == New(Square)
  {
    var r := Rotated(New(Square), Clockwise);
    assert forall x :: 0 <= x < 4 ==> r.cells[x] == New(Square).cells[x];
  }
}
