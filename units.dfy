/**
 * The 27 constraint units of the grid (9 rows, 9 columns, 9 blocks) and the
 * block arithmetic the solver uses to enumerate them.
 */
module Units {
  import opened Coordinates

  predicate InGrid(c: Coordinate) {
    0 <= c.x < 9 && 0 <= c.y < 9
  }

  /** Blocks are numbered 0..8 left to right, top to bottom. */
  function CoordsToBlock(row: int, col: int): (b: int)
    requires 0 <= row < 9 && 0 <= col < 9
    ensures 0 <= b < 9
    ensures BlockRowStart(b) <= row < BlockRowStart(b) + 3
    ensures BlockColStart(b) <= col < BlockColStart(b) + 3
  {
    3 * (row / 3) + col / 3
  }

  function BlockRowStart(block: int): (s: int)
    ensures 0 <= block < 9 ==> 0 <= s <= 6
  {
    (block / 3) * 3
  }

  function BlockColStart(block: int): (s: int)
    ensures 0 <= block < 9 ==> 0 <= s <= 6
  {
    (block % 3) * 3
  }

  /** The cell lies in the 3x3 ranges the solver scans for `block`. */
  predicate InBlockRange(c: Coordinate, block: int) {
    BlockRowStart(block) <= c.x < BlockRowStart(block) + 3 && BlockColStart(block) <= c.y < BlockColStart(block) + 3
  }

  /** The block ranges and CoordsToBlock describe the same nine blocks. */
  lemma InBlockRangeIffSameBlock(c: Coordinate, block: int)
    requires InGrid(c) && 0 <= block < 9
    ensures InBlockRange(c, block) <==> CoordsToBlock(c.x, c.y) == block
  {
    var b := CoordsToBlock(c.x, c.y);
    if InBlockRange(c, block) {
      assert block / 3 == c.x / 3 && block % 3 == c.y / 3;
      assert block == 3 * (block / 3) + block % 3;
    }
  }

  /** Cell k of a block: block index k maps to (rowStart + k / 3, colStart + k % 3). */
  function BlockCell(block: int, k: int): (c: Coordinate)
    requires 0 <= block < 9 && 0 <= k < 9
    ensures InGrid(c) && InBlockRange(c, block) && CoordsToBlock(c.x, c.y) == block
  {
    var c := Coordinate(BlockRowStart(block) + k / 3, BlockColStart(block) + k % 3);
    InBlockRangeIffSameBlock(c, block);
    c
  }

  /** The position of an in-grid cell inside its own block. */
  function PosInBlock(c: Coordinate): (k: int)
    requires InGrid(c)
    ensures 0 <= k < 9 && BlockCell(CoordsToBlock(c.x, c.y), k) == c
  {
    (c.x % 3) * 3 + c.y % 3
  }

  /** Inside its block, a cell's position counts row-major from the block's top-left corner. */
  lemma PosInBlockOffset(c: Coordinate, block: int)
    requires InGrid(c) && 0 <= block < 9 && InBlockRange(c, block)
    ensures CoordsToBlock(c.x, c.y) == block
    ensures PosInBlock(c) == 3 * (c.x - BlockRowStart(block)) + (c.y - BlockColStart(block))
  {
    InBlockRangeIffSameBlock(c, block);
    assert c.x / 3 == block / 3 && c.y / 3 == block % 3;
  }

  /** The cell numbered n when the grid is read row by row (n = 9 * row + col). */
  function RowMajor(n: nat): (c: Coordinate)
    ensures 0 <= c.x && 0 <= c.y < 9 && 9 * c.x + c.y == n
    ensures n < 81 ==> InGrid(c)
    decreases n
  {
    if n < 9 then Coordinate(0, n) else var c := RowMajor(n - 9); Coordinate(c.x + 1, c.y)
  }

  /** RowMajor numbers each grid cell by 9 * row + col, and every grid cell gets one number. */
  lemma {:induction false} RowMajorOf(c: Coordinate)
    requires InGrid(c)
    ensures RowMajor(9 * c.x + c.y) == c
    decreases c.x
  {
    if c.x > 0 {
      var d := Coordinate(c.x - 1, c.y);
      RowMajorOf(d);
      assert 9 * c.x + c.y - 9 == 9 * d.x + d.y;
    }
  }

  /**
   * Units in the order the solver visits them: 0..8 are the rows,
   * 9..17 the columns and 18..26 the blocks; k is the position in the unit.
   */
  function UnitCell(u: int, k: int): (c: Coordinate)
    requires 0 <= u < 27 && 0 <= k < 9
    ensures InGrid(c) && InUnit(c, u) && PosInUnit(c, u) == k
  {
    if u < 9 then Coordinate(u, k)
    else if u < 18 then Coordinate(k, u - 9)
    else BlockCell(u - 18, k)
  }

  predicate InUnit(c: Coordinate, u: int) {
    && InGrid(c)
    && if u < 9 then c.x == u
       else if u < 18 then c.y == u - 9
       else CoordsToBlock(c.x, c.y) == u - 18
  }

  function PosInUnit(c: Coordinate, u: int): (k: int)
    requires InUnit(c, u)
    ensures 0 <= k < 9
  {
    if u < 9 then c.y
    else if u < 18 then c.x
    else PosInBlock(c)
  }

  /** Every cell of a unit is reached from exactly one position. */
  lemma UnitCellOfPos(c: Coordinate, u: int)
    requires 0 <= u < 27 && InUnit(c, u)
    ensures UnitCell(u, PosInUnit(c, u)) == c
  {
  }

  /** Each cell lies in exactly one row unit, one column unit and one block unit. */
  lemma UnitsPartitionCells(c: Coordinate)
    requires InGrid(c)
    ensures forall u :: 0 <= u < 9 ==> (InUnit(c, u) <==> u == c.x)
    ensures forall u :: 9 <= u < 18 ==> (InUnit(c, u) <==> u == 9 + c.y)
    ensures forall u :: 18 <= u < 27 ==> (InUnit(c, u) <==> u == 18 + CoordsToBlock(c.x, c.y))
  {
  }

  /** Same row, same column or same block (a cell shares a unit with itself). */
  predicate SharesUnit(a: Coordinate, b: Coordinate)
    requires InGrid(a) && InGrid(b)
  {
    a.x == b.x || a.y == b.y || CoordsToBlock(a.x, a.y) == CoordsToBlock(b.x, b.y)
  }

  predicate Peer(a: Coordinate, b: Coordinate)
    requires InGrid(a) && InGrid(b)
  {
    a != b && SharesUnit(a, b)
  }
}
