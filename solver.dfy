/**
 * The deduction-only solver. It keeps the grid being solved, the grid it
 * started from, whether the grid is full, and one candidate set per cell.
 * setValue is its one assignment primitive; singlePossibility and the three
 * group techniques run round by round, at most 81 rounds.
 */
module Solver {
  import opened Coordinates
  import opened Units
  import opened Grids
  import opened Occurrences
  import opened SinglesTechnique
  import opened TwinsTechnique
  import opened SlingsTechnique
  import opened Candidates
  import opened Solving

  /** The function handed to attemptOnAllGroups, run on one group. */
  method ApplyTechnique(t: Technique, p: Group) returns (r: Group)
    requires InRange(p)
    ensures r == Apply(t, p)
  {
    match t
    case SinglesRule => r := Singles(p);
    case TwinsRule => r := Twins(p);
    case SlingsRule => r := Slings(p);
  }

  class SudokuSolver {
    var sudoku: Sudoku
    var startSudoku: Sudoku
    var solved: bool
    var fieldPossible: Store

    /** Both grids are well formed and share no storage. */
    ghost predicate Valid()
      reads this`sudoku, this`startSudoku, sudoku, sudoku.values, startSudoku, startSudoku.values
    {
      && sudoku.Valid() && startSudoku.Valid()
      && sudoku != startSudoku && sudoku.values != startSudoku.values
    }

    /** Candidates are kept only for grid cells (the constructors start with none). */
    ghost predicate KeysInGrid()
      reads this
    {
      forall c :: c in fieldPossible ==> InGrid(c)
    }

    /** Solves a copy of s; s itself is kept as the start grid. */
    constructor (s: Sudoku)
      requires s.Valid()
      ensures Valid() && startSudoku == s && fresh(sudoku) && fresh(sudoku.values)
      ensures sudoku.cells == s.cells && fieldPossible == map[]
      ensures solved == Filled(sudoku.cells)
    {
      var copy := s.Clone();
      sudoku := copy;
      startSudoku := s;
      solved := false;
      fieldPossible := map[];
      new;
      CheckSolved();
    }

    /** Builds the start grid over the given array (row-major, 0 for empty) and solves a copy of it. */
    constructor FromArray(s: array2<int>)
      requires s.Length0 == 9 && s.Length1 == 9
      requires forall r, c :: 0 <= r < 9 && 0 <= c < 9 ==> 0 <= s[r, c] <= 9
      ensures Valid() && fresh(startSudoku) && startSudoku.values == s && fresh(sudoku) && fresh(sudoku.values)
      ensures forall r, c :: 0 <= r < 9 && 0 <= c < 9 ==> sudoku.cells[r][c] == s[r, c]
      ensures sudoku.cells == startSudoku.cells && fieldPossible == map[]
      ensures solved == Filled(sudoku.cells)
    {
      var start := new Sudoku(s);
      var copy := start.Clone();
      sudoku := copy;
      startSudoku := start;
      solved := false;
      fieldPossible := map[];
      new;
      CheckSolved();
    }

    /** The recorded flag; while it is kept as CheckSolved sets it, it says that every cell holds a value. */
    function IsSolved(): (b: bool)
      reads this, sudoku
      ensures IsGrid(sudoku.cells) && solved == Filled(sudoku.cells) ==>
                (b <==> forall r, c :: 0 <= r < 9 && 0 <= c < 9 ==> sudoku.cells[r][c] != 0)
    {
      solved
    }

    /** Records whether every cell of the grid holds a value. */
    method CheckSolved()
      requires Valid()
      modifies this
      ensures Valid() && solved == Filled(sudoku.cells)
      ensures sudoku == old(sudoku) && startSudoku == old(startSudoku) && fieldPossible == old(fieldPossible)
    {
      var result := true;
      var row := 0;
      while row < 9 && result
        invariant 0 <= row <= 9
        invariant result <==> forall r, c :: 0 <= r < row && 0 <= c < 9 ==> sudoku.cells[r][c] != 0
      {
        var col := 0;
        while col < 9 && result
          invariant 0 <= col <= 9
          invariant result <==> (forall r, c :: 0 <= r < row && 0 <= c < 9 ==> sudoku.cells[r][c] != 0)
                                && forall c :: 0 <= c < col ==> sudoku.cells[row][c] != 0
        {
          if sudoku.GetVal(row, col) == 0 {
            result := false;
          }
          col := col + 1;
        }
        row := row + 1;
      }
      solved := result;
    }

    /**
     * Puts val in cell (row, col) of the grid, clears that cell's candidates
     * and removes val from the candidates of its row, column and block.
     */
    method SetValue(row: int, col: int, val: int)
      requires Valid() && Full(fieldPossible)
      requires 0 <= row < 9 && 0 <= col < 9 && 1 <= val <= 9
      modifies this, sudoku, sudoku.values
      ensures Valid() && sudoku == old(sudoku) && sudoku.values == old(sudoku.values)
      ensures startSudoku == old(startSudoku) && solved == old(solved)
      ensures sudoku.cells == Place(old(sudoku.cells), Coordinate(row, col), val)
      ensures fieldPossible == Assign(old(fieldPossible), Coordinate(row, col), val)
    {
      fieldPossible := SetValueStore(fieldPossible, row, col, val);
      sudoku.SetVal(row, col, val);
    }

    /** Gives every cell all nine candidates, then sets every filled cell of the grid through setValue. */
    method PrepareSolve()
      requires Valid() && KeysInGrid()
      modifies this, sudoku, sudoku.values
      ensures Valid() && sudoku == old(sudoku) && sudoku.values == old(sudoku.values)
      ensures startSudoku == old(startSudoku) && solved == old(solved)
      ensures sudoku.cells == old(sudoku.cells)
      ensures fieldPossible == Initial(sudoku.cells)
    {
      var emptyList := DigitSet();
      var possible := FillAll(fieldPossible, emptyList);
      ghost var g := sudoku.cells;
      PreparedStart(g, possible);
      fieldPossible := possible;
      PrepareRows(g);
    }

    /** The second double loop of prepareSolve: every filled cell, in row-major order, is set again through setValue. */
    method PrepareRows(ghost g: seq<seq<int>>)
      requires Valid() && sudoku.cells == g && fieldPossible == Prepared(g, 0)
      modifies this, sudoku, sudoku.values
      ensures Valid() && sudoku == old(sudoku) && sudoku.values == old(sudoku.values)
      ensures startSudoku == old(startSudoku) && solved == old(solved)
      ensures sudoku.cells == g && fieldPossible == Prepared(g, 81)
    {
      ghost var k := 0;
      var row := 0;
      while row < 9
        invariant 0 <= row <= 9 && k == 9 * row
        invariant Valid() && sudoku == old(sudoku) && sudoku.values == old(sudoku.values)
        invariant startSudoku == old(startSudoku) && solved == old(solved)
        invariant sudoku.cells == g && fieldPossible == Prepared(g, k)
      {
        PrepareRow(g, k, row);
        k := k + 9;
        row := row + 1;
      }
    }

    /** The inner loop of that double loop, over the columns of one row; k counts the cells visited before the row. */
    method PrepareRow(ghost g: seq<seq<int>>, ghost k: int, row: int)
      requires Valid() && 0 <= row < 9 && k == 9 * row
      requires sudoku.cells == g && fieldPossible == Prepared(g, k)
      modifies this, sudoku, sudoku.values
      ensures Valid() && sudoku == old(sudoku) && sudoku.values == old(sudoku.values)
      ensures startSudoku == old(startSudoku) && solved == old(solved)
      ensures sudoku.cells == g && fieldPossible == Prepared(g, k + 9)
    {
      ghost var j := k;
      var col := 0;
      while col < 9
        invariant 0 <= col <= 9 && j == k + col
        invariant Valid() && sudoku == old(sudoku) && sudoku.values == old(sudoku.values)
        invariant startSudoku == old(startSudoku) && solved == old(solved)
        invariant sudoku.cells == g && fieldPossible == Prepared(g, j)
      {
        PrepareAt(g, j, row, col);
        j := j + 1;
        col := col + 1;
      }
    }

    /** The body of that loop: a filled cell is set again through setValue, which leaves the grid as it was. */
    method PrepareAt(ghost g: seq<seq<int>>, ghost k: int, row: int, col: int)
      requires Valid() && 0 <= row < 9 && 0 <= col < 9 && k == 9 * row + col
      requires sudoku.cells == g && fieldPossible == Prepared(g, k)
      modifies this, sudoku, sudoku.values
      ensures Valid() && sudoku == old(sudoku) && sudoku.values == old(sudoku.values)
      ensures startSudoku == old(startSudoku) && solved == old(solved)
      ensures sudoku.cells == g && fieldPossible == Prepared(g, k + 1)
    {
      var val := sudoku.GetVal(row, col);
      PreparedStep(g, k, Coordinate(row, col));
      if val != 0 {
        SetValue(row, col, val);
        assert g[row][col := val] == g[row];
      }
    }

    /** Sets every cell that has exactly one candidate when it is visited, in row-major order. */
    method SinglePossibility()
      requires Valid() && Full(fieldPossible) && WithinDigits(fieldPossible)
      modifies this, sudoku, sudoku.values
      ensures Valid() && sudoku == old(sudoku) && sudoku.values == old(sudoku.values)
      ensures startSudoku == old(startSudoku) && solved == old(solved)
      ensures Board(sudoku.cells, fieldPossible) == PassUpTo(old(sudoku.cells), old(fieldPossible), 81)
    {
      ghost var g0, m0 := sudoku.cells, fieldPossible;
      ghost var k := 0;
      var row := 0;
      while row < 9
        invariant 0 <= row <= 9 && k == 9 * row
        invariant Valid() && sudoku == old(sudoku) && sudoku.values == old(sudoku.values)
        invariant startSudoku == old(startSudoku) && solved == old(solved)
        invariant Board(sudoku.cells, fieldPossible) == PassUpTo(g0, m0, k)
      {
        SinglePossibilityInRow(g0, m0, k, row);
        k := k + 9;
        row := row + 1;
      }
    }

    /** The inner loop of singlePossibility, over the columns of one row; k counts the cells visited before the row. */
    method SinglePossibilityInRow(ghost g0: seq<seq<int>>, ghost m0: Store, ghost k: int, row: int)
      requires Valid() && IsGrid(g0) && Full(m0) && WithinDigits(m0) && 0 <= row < 9 && k == 9 * row
      requires Board(sudoku.cells, fieldPossible) == PassUpTo(g0, m0, k)
      modifies this, sudoku, sudoku.values
      ensures Valid() && sudoku == old(sudoku) && sudoku.values == old(sudoku.values)
      ensures startSudoku == old(startSudoku) && solved == old(solved)
      ensures Board(sudoku.cells, fieldPossible) == PassUpTo(g0, m0, k + 9)
    {
      ghost var j := k;
      var col := 0;
      while col < 9
        invariant 0 <= col <= 9 && j == k + col
        invariant Valid() && sudoku == old(sudoku) && sudoku.values == old(sudoku.values)
        invariant startSudoku == old(startSudoku) && solved == old(solved)
        invariant Board(sudoku.cells, fieldPossible) == PassUpTo(g0, m0, j)
      {
        SinglePossibilityAt(g0, m0, j, row, col);
        j := j + 1;
        col := col + 1;
      }
    }

    /** The body of singlePossibility's inner loop: cell (row, col) is set when it has exactly one candidate. */
    method SinglePossibilityAt(ghost g0: seq<seq<int>>, ghost m0: Store, ghost k: int, row: int, col: int)
      requires Valid() && IsGrid(g0) && Full(m0) && WithinDigits(m0)
      requires 0 <= row < 9 && 0 <= col < 9 && k == 9 * row + col
      requires Board(sudoku.cells, fieldPossible) == PassUpTo(g0, m0, k)
      modifies this, sudoku, sudoku.values
      ensures Valid() && sudoku == old(sudoku) && sudoku.values == old(sudoku.values)
      ensures startSudoku == old(startSudoku) && solved == old(solved)
      ensures Board(sudoku.cells, fieldPossible) == PassUpTo(g0, m0, k + 1)
    {
      var tmp := fieldPossible[Coordinate(row, col)];
      if |tmp| == 1 {
        NonEmptyHasMember(tmp);
        var v :| v in tmp;
        SingletonOf(tmp, v);
        PassUpToSet(g0, m0, k, Coordinate(row, col), v);
        SetValue(row, col, v);
      } else {
        PassUpToSkip(g0, m0, k, Coordinate(row, col));
      }
    }

    method GetRowPossibilities(row: int) returns (result: Group)
      requires Full(fieldPossible) && 0 <= row < 9
      ensures result == ReadUnit(fieldPossible, row)
    {
      result := [];
      for col := 0 to 9
        invariant result == ReadUnit(fieldPossible, row)[..col]
      {
        result := result + [fieldPossible[Coordinate(row, col)]];
      }
    }

    method SetRowPossibilities(row: int, poss: Group)
      requires Full(fieldPossible) && 0 <= row < 9 && |poss| == 9
      modifies this
      ensures sudoku == old(sudoku) && startSudoku == old(startSudoku) && solved == old(solved)
      ensures fieldPossible == WriteUnit(old(fieldPossible), row, poss)
    {
      var possible := fieldPossible;
      for col := 0 to 9
        invariant Full(possible)
        invariant forall c | InGrid(c) :: possible[c] == (if c.x == row && c.y < col then poss[c.y] else fieldPossible[c])
      {
        possible := possible[Coordinate(row, col) := poss[col]];
      }
      SameStore(possible, WriteUnit(fieldPossible, row, poss));
      fieldPossible := possible;
    }

    method GetColPossibilities(col: int) returns (result: Group)
      requires Full(fieldPossible) && 0 <= col < 9
      ensures result == ReadUnit(fieldPossible, 9 + col)
    {
      result := [];
      for row := 0 to 9
        invariant result == ReadUnit(fieldPossible, 9 + col)[..row]
      {
        result := result + [fieldPossible[Coordinate(row, col)]];
      }
    }

    method SetColPossibilities(col: int, poss: Group)
      requires Full(fieldPossible) && 0 <= col < 9 && |poss| == 9
      modifies this
      ensures sudoku == old(sudoku) && startSudoku == old(startSudoku) && solved == old(solved)
      ensures fieldPossible == WriteUnit(old(fieldPossible), 9 + col, poss)
    {
      var possible := fieldPossible;
      for row := 0 to 9
        invariant Full(possible)
        invariant forall c | InGrid(c) :: possible[c] == (if c.y == col && c.x < row then poss[c.x] else fieldPossible[c])
      {
        possible := possible[Coordinate(row, col) := poss[row]];
      }
      SameStore(possible, WriteUnit(fieldPossible, 9 + col, poss));
      fieldPossible := possible;
    }

    method GetBlockPossibilities(block: int) returns (result: Group)
      requires Full(fieldPossible) && 0 <= block < 9
      ensures result == ReadUnit(fieldPossible, 18 + block)
    {
      result := [];
      var i := 0;
      for row := BlockRowStart(block) to BlockRowStart(block) + 3
        invariant i == 3 * (row - BlockRowStart(block))
        invariant result == ReadUnit(fieldPossible, 18 + block)[..i]
      {
        for col := BlockColStart(block) to BlockColStart(block) + 3
          invariant i == 3 * (row - BlockRowStart(block)) + (col - BlockColStart(block))
          invariant result == ReadUnit(fieldPossible, 18 + block)[..i]
        {
          assert UnitCell(18 + block, i) == Coordinate(row, col);
          result := result + [fieldPossible[Coordinate(row, col)]];
          i := i + 1;
        }
      }
    }

    method SetBlockPossibilities(block: int, poss: Group)
      requires Full(fieldPossible) && 0 <= block < 9 && |poss| == 9
      modifies this
      ensures sudoku == old(sudoku) && startSudoku == old(startSudoku) && solved == old(solved)
      ensures fieldPossible == WriteUnit(old(fieldPossible), 18 + block, poss)
    {
      var rowStart, colStart := BlockRowStart(block), BlockColStart(block);
      var possible := WriteBlock(fieldPossible, rowStart, colStart, poss);
      forall c | InGrid(c) ensures possible[c] == WriteUnit(fieldPossible, 18 + block, poss)[c] {
        InBlockRangeIffSameBlock(c, block);
        if InBlockRange(c, block) {
          PosInBlockOffset(c, block);
          assert InUnit(c, 18 + block) && PosInUnit(c, 18 + block) == 3 * (c.x - rowStart) + (c.y - colStart);
        } else {
          assert !InUnit(c, 18 + block);
        }
      }
      SameStore(possible, WriteUnit(fieldPossible, 18 + block, poss));
      fieldPossible := possible;
    }

    /**
     * Runs the technique on every row, then every column, then every block.
     * The loops count units (0..8 rows, 9..17 columns, 18..26 blocks); the
     * row, column or block index is the unit number less 0, 9 or 18.
     */
    method AttemptOnAllGroups(t: Technique)
      requires Full(fieldPossible) && WithinDigits(fieldPossible)
      modifies this
      ensures sudoku == old(sudoku) && startSudoku == old(startSudoku) && solved == old(solved)
      ensures fieldPossible == AllGroups(old(fieldPossible), t, 27)
    {
      ghost var m := fieldPossible;
      for u := 0 to 9
        invariant sudoku == old(sudoku) && startSudoku == old(startSudoku) && solved == old(solved)
        invariant fieldPossible == AllGroups(m, t, u)
      {
        AttemptOnRow(t, u, m);
      }
      for u := 9 to 18
        invariant sudoku == old(sudoku) && startSudoku == old(startSudoku) && solved == old(solved)
        invariant fieldPossible == AllGroups(m, t, u)
      {
        AttemptOnCol(t, u - 9, m);
      }
      for u := 18 to 27
        invariant sudoku == old(sudoku) && startSudoku == old(startSudoku) && solved == old(solved)
        invariant fieldPossible == AllGroups(m, t, u)
      {
        AttemptOnBlock(t, u - 18, m);
      }
    }

    /** One row step of attemptOnAllGroups: read the row, run the technique, write it back. */
    method AttemptOnRow(t: Technique, i: int, ghost m: Store)
      requires Full(m) && WithinDigits(m) && 0 <= i < 9 && fieldPossible == AllGroups(m, t, i)
      modifies this
      ensures sudoku == old(sudoku) && startSudoku == old(startSudoku) && solved == old(solved)
      ensures fieldPossible == AllGroups(m, t, i + 1)
    {
      AllGroupsStep(m, t, i);
      var possibilities := GetRowPossibilities(i);
      possibilities := ApplyTechnique(t, possibilities);
      SetRowPossibilities(i, possibilities);
    }

    /** One column step of attemptOnAllGroups. */
    method AttemptOnCol(t: Technique, i: int, ghost m: Store)
      requires Full(m) && WithinDigits(m) && 0 <= i < 9 && fieldPossible == AllGroups(m, t, 9 + i)
      modifies this
      ensures sudoku == old(sudoku) && startSudoku == old(startSudoku) && solved == old(solved)
      ensures fieldPossible == AllGroups(m, t, 9 + i + 1)
    {
      AllGroupsStep(m, t, 9 + i);
      var possibilities := GetColPossibilities(i);
      possibilities := ApplyTechnique(t, possibilities);
      SetColPossibilities(i, possibilities);
    }

    /** One block step of attemptOnAllGroups. */
    method AttemptOnBlock(t: Technique, i: int, ghost m: Store)
      requires Full(m) && WithinDigits(m) && 0 <= i < 9 && fieldPossible == AllGroups(m, t, 18 + i)
      modifies this
      ensures sudoku == old(sudoku) && startSudoku == old(startSudoku) && solved == old(solved)
      ensures fieldPossible == AllGroups(m, t, 18 + i + 1)
    {
      AllGroupsStep(m, t, 18 + i);
      var possibilities := GetBlockPossibilities(i);
      possibilities := ApplyTechnique(t, possibilities);
      SetBlockPossibilities(i, possibilities);
    }

    /**
     * One round of solve: singlePossibility and singles always run; twins
     * runs only when they left the grid as it was, and slings only when
     * twins did too.
     */
    method Orbit()
      requires Valid() && Full(fieldPossible) && WithinDigits(fieldPossible)
      modifies this, sudoku, sudoku.values
      ensures Valid() && sudoku == old(sudoku) && sudoku.values == old(sudoku.values) && startSudoku == old(startSudoku)
      ensures sudoku.cells == Round(old(sudoku.cells), old(fieldPossible)).grid
      ensures fieldPossible == Round(old(sudoku.cells), old(fieldPossible)).store
      ensures solved == Filled(sudoku.cells)
    {
      var oldSudoku := sudoku.Clone();
      SinglePossibility();
      AttemptOnAllGroups(SinglesRule);
      ExpensiveTechniques(oldSudoku);
      CheckSolved();
    }

    /**
     * The second half of a round: twins runs on all groups only when the grid
     * still equals oldSudoku, and slings only when it still does after twins.
     * Neither touches the grid, so slings runs exactly when twins does.
     */
    method ExpensiveTechniques(oldSudoku: Sudoku)
      requires Valid() && oldSudoku.Valid() && oldSudoku != sudoku && oldSudoku.values != sudoku.values
      requires Full(fieldPossible) && WithinDigits(fieldPossible)
      modifies this
      ensures sudoku == old(sudoku) && startSudoku == old(startSudoku) && solved == old(solved)
      ensures Valid()
      ensures fieldPossible == if sudoku.cells == oldSudoku.cells
                               then AllGroups(AllGroups(old(fieldPossible), TwinsRule, 27), SlingsRule, 27)
                               else old(fieldPossible)
    {
      var same := sudoku.Equals(oldSudoku);
      if same {
        AttemptOnAllGroups(TwinsRule);
        var still := sudoku.Equals(oldSudoku);
        if still {
          AttemptOnAllGroups(SlingsRule);
        }
      }
    }

    /**
     * prepareSolve, then at most 81 rounds, stopping once the grid is full.
     * Returns whether the grid is solved.
     */
    method Solve() returns (result: bool)
      requires Valid() && KeysInGrid() && solved == Filled(sudoku.cells)
      modifies this, sudoku, sudoku.values
      ensures Valid() && sudoku == old(sudoku) && startSudoku == old(startSudoku)
      ensures startSudoku.cells == old(startSudoku.cells)
      ensures Board(sudoku.cells, fieldPossible) == Solution(old(sudoku.cells))
      ensures result == solved && (result <==> Filled(sudoku.cells))
    {
      PrepareSolve();
      RunRounds();
      result := IsSolved();
    }

    /** One pass of the loop of solve: one round runs, so one fewer is left to reach the same end. */
    method NextRound(ghost r: nat, ghost target: Board)
      requires Valid() && Full(fieldPossible) && WithinDigits(fieldPossible) && 0 < r && !Filled(sudoku.cells)
      requires Reaches(sudoku.cells, fieldPossible, r, target)
      modifies this, sudoku, sudoku.values
      ensures Valid() && sudoku == old(sudoku) && sudoku.values == old(sudoku.values) && startSudoku == old(startSudoku)
      ensures Full(fieldPossible) && WithinDigits(fieldPossible)
      ensures Reaches(sudoku.cells, fieldPossible, r - 1, target)
      ensures solved == Filled(sudoku.cells)
    {
      ghost var g, m := sudoku.cells, fieldPossible;
      Orbit();
      RoundsNext(g, m, sudoku.cells, fieldPossible, r, target);
    }

    /** The loop of solve: rounds run while fewer than 81 have run and the grid is not full. */
    method RunRounds()
      requires Valid() && Full(fieldPossible) && WithinDigits(fieldPossible) && solved == Filled(sudoku.cells)
      modifies this, sudoku, sudoku.values
      ensures Valid() && sudoku == old(sudoku) && sudoku.values == old(sudoku.values)
      ensures startSudoku == old(startSudoku) && startSudoku.cells == old(startSudoku.cells)
      ensures Board(sudoku.cells, fieldPossible) == Rounds(old(sudoku.cells), old(fieldPossible), 81)
      ensures solved == Filled(sudoku.cells)
    {
      ghost var target := Rounds(sudoku.cells, fieldPossible, 81);
      ReachesOf(sudoku.cells, fieldPossible, 81, target);
      ghost var r: nat := 81;
      var i := 0;
      while i < 81 && !solved
        invariant 0 <= i <= 81 && r == 81 - i
        invariant Valid() && sudoku == old(sudoku) && sudoku.values == old(sudoku.values)
        invariant startSudoku == old(startSudoku) && startSudoku.cells == old(startSudoku.cells)
        invariant solved == Filled(sudoku.cells)
        invariant Full(fieldPossible) && WithinDigits(fieldPossible)
        invariant Reaches(sudoku.cells, fieldPossible, r, target)
      {
        NextRound(r, target);
        i := i + 1;
        r := r - 1;
      }
      if !solved {
        assert r == 0;
      }
      RoundsDone(sudoku.cells, fieldPossible, r, target);
    }
  }

  /** The first loop of setValue: val leaves every cell of the row and of the column. */
  method RemoveFromRowAndCol(m: Store, row: int, col: int, val: int) returns (m': Store)
    requires Full(m) && 0 <= row < 9 && 0 <= col < 9
    ensures Full(m')
    ensures forall c | InGrid(c) :: m'[c] == (if c.x == row || c.y == col then m[c] - {val} else m[c])
  {
    m' := m;
    for i := 0 to 9
      invariant Full(m')
      invariant forall c | InGrid(c) :: m'[c] == (if (c.x == row && c.y < i) || (c.y == col && c.x < i) then m[c] - {val} else m[c])
    {
      m' := m'[Coordinate(row, i) := m'[Coordinate(row, i)] - {val}];
      m' := m'[Coordinate(i, col) := m'[Coordinate(i, col)] - {val}];
    }
  }

  /** The second loop of setValue: val leaves every cell of the block starting at (rowStart, colStart). */
  method RemoveFromBlock(m: Store, rowStart: int, colStart: int, val: int) returns (m': Store)
    requires Full(m) && 0 <= rowStart <= 6 && 0 <= colStart <= 6
    ensures Full(m')
    ensures forall c | InGrid(c) :: m'[c] ==
              (if rowStart <= c.x < rowStart + 3 && colStart <= c.y < colStart + 3 then m[c] - {val} else m[c])
  {
    m' := m;
    for r := rowStart to rowStart + 3
      invariant Full(m')
      invariant forall c | InGrid(c) :: m'[c] ==
                  (if rowStart <= c.x < r && colStart <= c.y < colStart + 3 then m[c] - {val} else m[c])
    {
      for cc := colStart to colStart + 3
        invariant Full(m')
        invariant forall c | InGrid(c) :: m'[c] ==
                    (if colStart <= c.y < colStart + 3 && (rowStart <= c.x < r || (c.x == r && c.y < cc)) then m[c] - {val} else m[c])
      {
        m' := m'[Coordinate(r, cc) := m'[Coordinate(r, cc)] - {val}];
      }
    }
  }

  /** The loops of setBlockPossibilities: the block starting at (rowStart, colStart) takes poss, row by row. */
  method WriteBlock(m: Store, rowStart: int, colStart: int, poss: Group) returns (m': Store)
    requires Full(m) && 0 <= rowStart <= 6 && 0 <= colStart <= 6 && |poss| == 9
    ensures Full(m')
    ensures forall c | InGrid(c) :: m'[c] ==
              (if rowStart <= c.x < rowStart + 3 && colStart <= c.y < colStart + 3
               then poss[3 * (c.x - rowStart) + (c.y - colStart)] else m[c])
  {
    m' := m;
    var i := 0;
    for row := rowStart to rowStart + 3
      invariant i == 3 * (row - rowStart)
      invariant Full(m')
      invariant forall c | InGrid(c) :: m'[c] ==
                  (if rowStart <= c.x < row && colStart <= c.y < colStart + 3
                   then poss[3 * (c.x - rowStart) + (c.y - colStart)] else m[c])
    {
      m' := WriteBlockRow(m', row, colStart, poss[i..i + 3]);
      i := i + 3;
    }
  }

  /** The inner loop of setBlockPossibilities: three cells of row, from colStart on, take part. */
  method WriteBlockRow(m: Store, row: int, colStart: int, part: seq<set<int>>) returns (m': Store)
    requires Full(m) && 0 <= row < 9 && 0 <= colStart <= 6 && |part| == 3
    ensures Full(m')
    ensures forall c | InGrid(c) :: m'[c] ==
              (if c.x == row && colStart <= c.y < colStart + 3 then part[c.y - colStart] else m[c])
  {
    m' := m;
    for col := colStart to colStart + 3
      invariant Full(m')
      invariant forall c | InGrid(c) :: m'[c] ==
                  (if c.x == row && colStart <= c.y < col then part[c.y - colStart] else m[c])
    {
      m' := m'[Coordinate(row, col) := part[col - colStart]];
    }
  }

  /** The first loop of prepareSolve: the digits 1 to 9. */
  method DigitSet() returns (s: set<int>)
    ensures s == Digits
  {
    s := {};
    var i := 1;
    while i < 10
      invariant 1 <= i <= 10
      invariant forall v :: v in s <==> 1 <= v < i
    {
      s := s + {i};
      i := i + 1;
    }
  }

  /** The first double loop of prepareSolve: every grid cell gets the candidates s. */
  method FillAll(m: Store, s: set<int>) returns (m': Store)
    requires forall c :: c in m ==> InGrid(c)
    ensures Full(m') && forall c | InGrid(c) :: m'[c] == s
  {
    m' := m;
    var row := 0;
    while row < 9
      invariant 0 <= row <= 9
      invariant forall c :: c in m' ==> InGrid(c)
      invariant forall c :: InGrid(c) && c.x < row ==> c in m' && m'[c] == s
    {
      var col := 0;
      while col < 9
        invariant 0 <= col <= 9
        invariant forall c :: c in m' ==> InGrid(c)
        invariant forall c :: InGrid(c) && (c.x < row || (c.x == row && c.y < col)) ==> c in m' && m'[c] == s
      {
        m' := m'[Coordinate(row, col) := s];
        col := col + 1;
      }
      row := row + 1;
    }
  }

  /** The candidate updates of setValue: cell (row, col) loses all candidates and val leaves its row, column and block. */
  method SetValueStore(m: Store, row: int, col: int, val: int) returns (m': Store)
    requires Full(m) && 0 <= row < 9 && 0 <= col < 9
    ensures m' == Assign(m, Coordinate(row, col), val)
  {
    var c0 := Coordinate(row, col);
    var possible := m[c0 := {}];
    possible := RemoveFromRowAndCol(possible, row, col, val);
    var block := CoordsToBlock(row, col);
    var colStart := BlockColStart(block);
    var rowStart := BlockRowStart(block);
    possible := RemoveFromBlock(possible, rowStart, colStart, val);
    forall c | InGrid(c) ensures possible[c] == Assign(m, c0, val)[c] {
      InBlockRangeIffSameBlock(c, block);
    }
    SameStore(possible, Assign(m, c0, val));
    m' := possible;
  }

  /**
   * The use in main: build a solver for a grid and solve it. The given grid
   * is left as it was; the solver's grid ends as solve computes it.
   */
  method SolveGrid(g: Sudoku) returns (solver: SudokuSolver, result: bool)
    requires g.Valid()
    ensures solver.Valid() && solver.startSudoku == g && g.Valid()
    ensures Board(solver.sudoku.cells, solver.fieldPossible) == Solution(g.cells)
    ensures result <==> Filled(solver.sudoku.cells)
  {
    solver := new SudokuSolver(g);
    result := solver.Solve();
  }
}
