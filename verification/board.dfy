/**
 * The game board (model/GameBoard.java): a rectangle of Cells built from a
 * boolean solution, with run-length clues derived once for every row and column.
 */
module Board {
  import opened Wrappers
  import opened Cells
  import opened Clues

  /** The players' marks on a whole board, row by row. */
  type Grid = seq<seq<CellState>>

  /** A `rows` x `cols` grid value. */
  predicate IsGrid<T>(g: seq<seq<T>>, rows: int, cols: int)
  {
    |g| == rows && forall r :: 0 <= r < |g| ==> |g[r]| == cols
  }

  /** Two grids of the same shape that agree cell by cell are equal. */
  lemma GridsEqual(g: Grid, h: Grid, rows: nat, cols: nat)
    requires IsGrid(g, rows, cols) && IsGrid(h, rows, cols)
    requires forall r, c :: 0 <= r < rows && 0 <= c < cols ==> g[r][c] == h[r][c]
    ensures g == h
  {
    forall r | 0 <= r < rows ensures g[r] == h[r] {
      assert forall c :: 0 <= c < cols ==> g[r][c] == h[r][c];
    }
  }

  /** Every cell Unknown. */
  function Blank(rows: nat, cols: nat): (g: Grid)
    ensures IsGrid(g, rows, cols)
    ensures forall r, c :: 0 <= r < rows && 0 <= c < cols ==> g[r][c] == Unknown
  {
    seq(rows, _ => seq(cols, _ => Unknown))
  }

  /** The win condition of isPuzzleComplete: every cell correct for its solution bit. */
  predicate Solved(g: Grid, solution: seq<seq<bool>>)
    requires IsGrid(solution, |g|, if |g| == 0 then 0 else |g[0]|) && IsGrid(g, |g|, if |g| == 0 then 0 else |g[0]|)
  {
    forall r, c :: 0 <= r < |g| && 0 <= c < |g[r]| ==> Correct(g[r][c], solution[r][c])
  }

  /** A freshly built (or reset) board with at least one cell is never solved. */
  lemma BlankNotSolved(solution: seq<seq<bool>>, rows: nat, cols: nat)
    requires rows > 0 && cols > 0 && IsGrid(solution, rows, cols)
    ensures !Solved(Blank(rows, cols), solution)
  {
    assert !Correct(Blank(rows, cols)[0][0], solution[0][0]);
  }

  /**
   * The grids the Java constructor accepts without throwing: at least one row,
   * and no row shorter than the first (only the first `solution[0].length`
   * entries of each row are read).
   */
  predicate Buildable(solution: seq<seq<bool>>)
  {
    |solution| >= 1 && forall r :: 0 <= r < |solution| ==> |solution[r]| >= |solution[0]|
  }

  /** The part of a buildable grid that the board reads. */
  function Trim(solution: seq<seq<bool>>): (t: seq<seq<bool>>)
    requires Buildable(solution)
    ensures IsGrid(t, |solution|, |solution[0]|)
    ensures forall r, c :: 0 <= r < |solution| && 0 <= c < |solution[0]| ==> t[r][c] == solution[r][c]
  {
    seq(|solution|, r requires 0 <= r < |solution| => solution[r][..|solution[0]|])
  }

  /** The clue lists of every row and every column of a rectangular solution. */
  ghost predicate CluesOf(solution: seq<seq<bool>>, rows: nat, cols: nat, rowClues: seq<seq<int>>, columnClues: seq<seq<int>>)
    requires IsGrid(solution, rows, cols)
  {
    && |rowClues| == rows && |columnClues| == cols
    && (forall r {:trigger Clue(solution[r])} :: 0 <= r < rows ==> rowClues[r] == Clue(solution[r]))
    && (forall c {:trigger Column(solution, c)} :: 0 <= c < cols ==> columnClues[c] == Clue(Column(solution, c)))
  }

  /** Every entry of every clue list lies in [0, length]. */
  predicate ClueBounds(clues: seq<seq<int>>, length: int)
  {
    forall i, j :: 0 <= i < |clues| && 0 <= j < |clues[i]| ==> 0 <= clues[i][j] <= length
  }

  /** Derived clues never exceed their line's length. */
  lemma CluesOfBounded(solution: seq<seq<bool>>, rows: nat, cols: nat, rowClues: seq<seq<int>>, columnClues: seq<seq<int>>)
    requires IsGrid(solution, rows, cols) && CluesOf(solution, rows, cols, rowClues, columnClues)
    ensures ClueBounds(rowClues, cols) && ClueBounds(columnClues, rows)
  {
    forall i | 0 <= i < rows ensures forall j :: 0 <= j < |rowClues[i]| ==> 0 <= rowClues[i][j] <= cols {
      assert rowClues[i] == Clue(solution[i]);
    }
    forall i | 0 <= i < cols ensures forall j :: 0 <= j < |columnClues[i]| ==> 0 <= columnClues[i][j] <= rows {
      assert columnClues[i] == Clue(Column(solution, i));
    }
  }

  /**
   * GameBoard.generateCluesFromSolution: one counter scan per row, left to
   * right, then one per column, top to bottom.
   */
  method GenerateClues(solution: seq<seq<bool>>, rows: nat, cols: nat) returns (rowClues: seq<seq<int>>, columnClues: seq<seq<int>>)
    requires IsGrid(solution, rows, cols)
    ensures CluesOf(solution, rows, cols, rowClues, columnClues)
  {
    rowClues := [];
    for r := 0 to rows
      invariant |rowClues| == r
      invariant forall i :: 0 <= i < r ==> rowClues[i] == Clue(solution[i])
    {
      var clues := LineClue(solution[r]);
      rowClues := rowClues + [clues];
    }
    columnClues := [];
    for c := 0 to cols
      invariant |columnClues| == c
      invariant forall i :: 0 <= i < c ==> columnClues[i] == Clue(Column(solution, i))
    {
      var clues := LineClue(Column(solution, c));
      columnClues := columnClues + [clues];
    }
  }

  class GameBoard {
    const rows: nat
    const cols: nat
    /** Cell[][]: never rewritten after construction, so a sequence; the Cells themselves change. */
    const cells: seq<seq<Cell>>
    const rowClues: seq<seq<int>>
    const columnClues: seq<seq<int>>
    /** The solution the board was built from (the cells' actual values). */
    ghost const solution: seq<seq<bool>>
    /** The Cell objects of the board. */
    ghost const Repr: set<Cell>

    /** Shape, cell identities and derived clues. Everything it mentions is immutable. */
    ghost predicate Valid()
    {
      && IsGrid(cells, rows, cols)
      && IsGrid(solution, rows, cols)
      && (forall r, c :: 0 <= r < rows && 0 <= c < cols ==>
            && cells[r][c] in Repr
            && cells[r][c].row == r && cells[r][c].col == c
            && cells[r][c].actualValue == solution[r][c])
      && CluesOf(solution, rows, cols, rowClues, columnClues)
      && ClueBounds(rowClues, cols) && ClueBounds(columnClues, rows)
    }

    /** Every cell's current state. */
    ghost function States(): (g: Grid)
      requires Valid()
      reads Repr
      ensures IsGrid(g, rows, cols)
      ensures forall r, c {:trigger cells[r][c]} :: 0 <= r < rows && 0 <= c < cols ==> g[r][c] == cells[r][c].state
    {
      seq(rows, r requires 0 <= r < rows reads Repr =>
        seq(cols, c requires 0 <= c < cols reads Repr => cells[r][c].state))
    }

    /** A board whose cells are all Unknown shows the blank grid. */
    lemma AllUnknownIsBlank()
      requires Valid()
      requires forall r, c :: 0 <= r < rows && 0 <= c < cols ==> cells[r][c].state == Unknown
      ensures States() == Blank(rows, cols)
    {
      GridsEqual(States(), Blank(rows, cols), rows, cols);
    }

    /** Cell.setCurrentState on the cell at (r, c): exactly that entry of States() changes. */
    method SetCellState(r: int, c: int, s: CellState)
      requires Valid() && 0 <= r < rows && 0 <= c < cols
      modifies cells[r][c]
      ensures States() == old(States())[r := old(States())[r][c := s]]
    {
      cells[r][c].SetState(s);
      GridsEqual(States(), old(States())[r := old(States())[r][c := s]], rows, cols);
    }

    constructor (sol: seq<seq<bool>>)
      requires Buildable(sol)
      ensures Valid() && fresh(Repr)
      ensures rows == |sol| && cols == |sol[0]|
      ensures solution == Trim(sol)
      ensures States() == Blank(rows, cols)
    {
      var rows: nat := |sol|;
      var cols: nat := |sol[0]|;
      var grid: seq<seq<Cell>> := [];
      ghost var made: set<Cell> := {};
      for r := 0 to rows
        invariant IsGrid(grid, r, cols)
        invariant forall x :: x in made ==> fresh(x)
        invariant forall i, j :: 0 <= i < r && 0 <= j < cols ==>
          && grid[i][j] in made && grid[i][j].row == i && grid[i][j].col == j
          && grid[i][j].actualValue == sol[i][j] && grid[i][j].state == Unknown
      {
        var line: seq<Cell> := [];
        for c := 0 to cols
          invariant |line| == c
          invariant forall x :: x in made ==> fresh(x)
          invariant forall i, j :: 0 <= i < r && 0 <= j < cols ==>
            && grid[i][j] in made && grid[i][j].state == Unknown
          invariant forall j :: 0 <= j < c ==>
            && line[j] in made && line[j].row == r && line[j].col == j
            && line[j].actualValue == sol[r][j] && line[j].state == Unknown
        {
          var cell := new Cell(r, c, sol[r][c]);
          line := line + [cell];
          made := made + {cell};
        }
        grid := grid + [line];
      }
      var trimmed := Trim(sol);
      var rc, cc := GenerateClues(trimmed, rows, cols);
      CluesOfBounded(trimmed, rows, cols, rc, cc);
      this.rows := rows;
      this.cols := cols;
      cells := grid;
      rowClues := rc;
      columnClues := cc;
      solution := trimmed;
      Repr := made;
      new;
      AllUnknownIsBlank();
    }

    /** GameBoard.getCell: the cell at (row, col), or IndexOutOfBounds. */
    function GetCell(row: int, col: int): (res: Result<Cell>)
      requires Valid()
      ensures res.Ok? <==> 0 <= row < rows && 0 <= col < cols
      ensures res.Err? ==> res.error == IndexOutOfBounds
      ensures res.Ok? ==> res.value == cells[row][col] && res.value in Repr && res.value.row == row && res.value.col == col
      ensures res.Ok? ==> res.value.actualValue == solution[row][col]
    {
      if row < 0 || row >= rows || col < 0 || col >= cols then Err(IndexOutOfBounds)
      else Ok(cells[row][col])
    }

    /** GameBoard.getRowClues: the derived clue list of a row (the linked list's get throws outside). */
    function GetRowClues(rowIndex: int): (res: Result<seq<int>>)
      requires Valid()
      ensures res.Ok? <==> 0 <= rowIndex < rows
      ensures res.Err? ==> res.error == IndexOutOfBounds
      ensures res.Ok? ==> res.value == rowClues[rowIndex]
    {
      if 0 <= rowIndex < rows then Ok(rowClues[rowIndex]) else Err(IndexOutOfBounds)
    }

    /** GameBoard.getColumnClues: the derived clue list of a column. */
    function GetColumnClues(colIndex: int): (res: Result<seq<int>>)
      requires Valid()
      ensures res.Ok? <==> 0 <= colIndex < cols
      ensures res.Err? ==> res.error == IndexOutOfBounds
      ensures res.Ok? ==> res.value == columnClues[colIndex]
    {
      if 0 <= colIndex < cols then Ok(columnClues[colIndex]) else Err(IndexOutOfBounds)
    }

    /** GameBoard.isPuzzleComplete: scan every cell, stop at the first incorrect one. */
    method IsPuzzleComplete() returns (complete: bool)
      requires Valid()
      ensures complete == Solved(States(), solution)
    {
      for r := 0 to rows
        invariant forall i, j :: 0 <= i < r && 0 <= j < cols ==> cells[i][j].IsCorrect()
      {
        for c := 0 to cols
          invariant forall j :: 0 <= j < c ==> cells[r][j].IsCorrect()
        {
          if !cells[r][c].IsCorrect() {
            return false;
          }
        }
      }
      return true;
    }

    /** GameBoard.isSolved: the same answer as isPuzzleComplete. */
    method IsSolved() returns (solved: bool)
      requires Valid()
      ensures solved == Solved(States(), solution)
    {
      solved := IsPuzzleComplete();
    }

    /** GameBoard.reset: every cell back to Unknown; clues and solution are constants. */
    method Reset()
      requires Valid()
      modifies Repr
      ensures States() == Blank(rows, cols)
    {
      for r := 0 to rows
        invariant forall i, j :: 0 <= i < r && 0 <= j < cols ==> cells[i][j].state == Unknown
      {
        for c := 0 to cols
          invariant forall i, j :: 0 <= i < r && 0 <= j < cols ==> cells[i][j].state == Unknown
          invariant forall j :: 0 <= j < c ==> cells[r][j].state == Unknown
        {
          cells[r][c].Reset();
        }
      }
      AllUnknownIsBlank();
    }
  }
}
