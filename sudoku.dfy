/**
 * The 9x9 grid store. Cells hold 0 (empty) or 1..9 and are addressed
 * values[row, col]. The ghost field `cells` is the grid as a value; Valid()
 * ties it to the array, so specifications can speak about whole grids.
 */
module Grids {

  /** A 9x9 grid value with every entry in 0..9. */
  predicate IsGrid(g: seq<seq<int>>) {
    |g| == 9 && forall r :: 0 <= r < 9 ==> |g[r]| == 9 && forall c :: 0 <= c < 9 ==> 0 <= g[r][c] <= 9
  }

  /** The grid with every cell empty. */
  function EmptyGrid(): (g: seq<seq<int>>)
    ensures IsGrid(g)
    ensures forall r, c :: 0 <= r < 9 && 0 <= c < 9 ==> g[r][c] == 0
  {
    seq(9, r => seq(9, c => 0))
  }

  class Sudoku {
    var values: array2<int>
    ghost var cells: seq<seq<int>>

    ghost predicate Valid()
      reads this, values
    {
      && values.Length0 == 9 && values.Length1 == 9
      && IsGrid(cells)
      && forall r, c :: 0 <= r < 9 && 0 <= c < 9 ==> values[r, c] == cells[r][c]
    }

    /** Keeps the caller's array as its storage (no copy). */
    constructor (cols: array2<int>)
      requires cols.Length0 == 9 && cols.Length1 == 9
      requires forall r, c :: 0 <= r < 9 && 0 <= c < 9 ==> 0 <= cols[r, c] <= 9
      ensures Valid() && values == cols
      ensures forall r, c :: 0 <= r < 9 && 0 <= c < 9 ==> cells[r][c] == cols[r, c]
    {
      values := cols;
      cells := seq(9, r requires 0 <= r < 9 reads cols =>
                 seq(9, c requires 0 <= c < 9 reads cols => cols[r, c]));
    }

    /** The no-argument constructor: an empty grid. */
    constructor Blank()
      ensures Valid() && fresh(values) && cells == EmptyGrid()
    {
      values := new int[9, 9]((r, c) => 0);
      cells := EmptyGrid();
    }

    method SetVal(row: int, col: int, val: int)
      requires Valid()
      requires 0 <= row < 9 && 0 <= col < 9 && 0 <= val <= 9
      modifies this, values
      ensures Valid() && values == old(values)
      ensures cells == old(cells)[row := old(cells)[row][col := val]]
    {
      values[row, col] := val;
      cells := cells[row := cells[row][col := val]];
    }

    method Empty()
      requires Valid()
      modifies this
      ensures Valid() && fresh(values) && cells == EmptyGrid()
    {
      values := new int[9, 9]((r, c) => 0);
      cells := EmptyGrid();
    }

    /** empty as written: the grid takes the shared blank array itself as its storage. */
    method EmptyOnto(shared: array2<int>)
      requires shared.Length0 == 9 && shared.Length1 == 9
      requires forall r, c :: 0 <= r < 9 && 0 <= c < 9 ==> 0 <= shared[r, c] <= 9
      modifies this
      ensures Valid() && values == shared
      ensures forall r, c :: 0 <= r < 9 && 0 <= c < 9 ==> cells[r][c] == shared[r, c]
    {
      values := shared;
      cells := seq(9, r requires 0 <= r < 9 reads shared =>
                 seq(9, c requires 0 <= c < 9 reads shared => shared[r, c]));
    }

    function GetVal(row: int, col: int): (v: int)
      reads this, values
      requires Valid()
      requires 0 <= row < 9 && 0 <= col < 9
      ensures v == cells[row][col] && 0 <= v <= 9
    {
      values[row, col]
    }

    /** Value equality with another Sudoku; false for any other object. */
    method Equals(o: object?) returns (b: bool)
      requires Valid()
      requires o is Sudoku ==> (o as Sudoku).Valid()
      ensures b <==> o is Sudoku && (o as Sudoku).cells == cells
    {
      if o is Sudoku {
        var s := o as Sudoku;
        var result := true;
        for i := 0 to 9
          invariant result <==> forall r, c :: 0 <= r < i && 0 <= c < 9 ==> cells[r][c] == s.cells[r][c]
        {
          for j := 0 to 9
            invariant result <==> (forall r, c :: 0 <= r < i && 0 <= c < 9 ==> cells[r][c] == s.cells[r][c])
                                  && forall c :: 0 <= c < j ==> cells[i][c] == s.cells[i][c]
          {
            if values[i, j] != s.GetVal(i, j) {
              result := false;
            }
          }
        }
        SameCellsIffEqual(cells, s.cells);
        return result;
      } else {
        return false;
      }
    }

    /** A deep copy: a new Sudoku over a new array holding the same values. */
    method Clone() returns (s: Sudoku)
      requires Valid()
      ensures fresh(s) && fresh(s.values) && s.Valid() && s.cells == cells
    {
      var copy := new int[9, 9];
      for i := 0 to 9
        invariant forall r, c :: 0 <= r < i && 0 <= c < 9 ==> copy[r, c] == cells[r][c]
      {
        for j := 0 to 9
          invariant forall r, c :: 0 <= r < i && 0 <= c < 9 ==> copy[r, c] == cells[r][c]
          invariant forall c :: 0 <= c < j ==> copy[i, c] == cells[i][c]
        {
          copy[i, j] := GetVal(i, j);
        }
      }
      s := new Sudoku(copy);
      SameCellsIffEqual(cells, s.cells);
    }
  }

  lemma SameCellsIffEqual(g: seq<seq<int>>, h: seq<seq<int>>)
    requires IsGrid(g) && IsGrid(h)
    ensures g == h <==> forall r, c :: 0 <= r < 9 && 0 <= c < 9 ==> g[r][c] == h[r][c]
  {
    if forall r, c :: 0 <= r < 9 && 0 <= c < 9 ==> g[r][c] == h[r][c] {
      forall r | 0 <= r < 9 ensures g[r] == h[r] {
      }
    }
  }

  /** Equals is reflexive and symmetric on valid grids. */
  method EqualsIsReflexiveAndSymmetric(a: Sudoku, b: Sudoku) returns (aa: bool, ab: bool, ba: bool)
    requires a.Valid() && b.Valid()
    ensures aa && ab == ba
  {
    aa := a.Equals(a);
    ab := a.Equals(b);
    ba := b.Equals(a);
  }

  /**
   * A clone does not share storage: a write to the clone leaves the original
   * as it was, and a later write to the original leaves the clone as it was.
   */
  method CloneIsIndependent(s: Sudoku, row: int, col: int, v: int, w: int) returns (c: Sudoku, untouched: int)
    requires s.Valid() && 0 <= row < 9 && 0 <= col < 9 && 0 <= v <= 9 && 0 <= w <= 9
    modifies s, s.values
    ensures untouched == old(s.cells[row][col])
    ensures fresh(c) && c.Valid() && s.Valid()
    ensures c.cells == old(s.cells)[row := old(s.cells)[row][col := v]]
    ensures s.cells == old(s.cells)[row := old(s.cells)[row][col := w]]
  {
    c := s.Clone();
    c.SetVal(row, col, v);
    untouched := s.GetVal(row, col);
    s.SetVal(row, col, w);
  }

  /**
   * The no-argument constructor and empty as written both use one static
   * blank array: a value set in one blank grid is read back from a grid built
   * blank afterwards, and from a grid emptied afterwards.
   */
  method SharedBlankLeaks(shared: array2<int>) returns (second: int, emptied: int)
    requires shared.Length0 == 9 && shared.Length1 == 9
    requires forall r, c :: 0 <= r < 9 && 0 <= c < 9 ==> shared[r, c] == 0
    modifies shared
    ensures second == 5 && emptied == 5
  {
    var first := new Sudoku(shared);
    first.SetVal(0, 0, 5);
    var other := new Sudoku(shared);
    second := other.GetVal(0, 0);
    var third := new Sudoku.Blank();
    third.EmptyOnto(shared);
    emptied := third.GetVal(0, 0);
  }

  /**
   * With a fresh blank array per grid, as Blank and Empty use, a value set in
   * one blank grid is seen neither by a grid made blank before or after it,
   * nor once that grid is emptied.
   */
  method FreshBlankIsIndependent(row: int, col: int, v: int) returns (earlier: Sudoku, later: Sudoku, emptied: Sudoku)
    requires 0 <= row < 9 && 0 <= col < 9 && 0 <= v <= 9
    ensures earlier.Valid() && later.Valid() && emptied.Valid()
    ensures earlier.cells == EmptyGrid() && later.cells == EmptyGrid() && emptied.cells == EmptyGrid()
  {
    emptied := new Sudoku.Blank();
    earlier := new Sudoku.Blank();
    emptied.SetVal(row, col, v);
    later := new Sudoku.Blank();
    emptied.Empty();
  }
}
