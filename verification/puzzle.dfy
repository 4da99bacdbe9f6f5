/**
 * A puzzle definition (model/Puzzle.java): an id, a name and a solution
 * grid that the puzzle keeps as its own copy, so that neither the caller's
 * array nor any array handed out later shares storage with it.
 */
module Puzzles {
  import opened Wrappers

  /** The rows of a two-level array as values. */
  ghost function Cells(a: array<array<bool>>): (g: seq<seq<bool>>)
    reads a, set i | 0 <= i < a.Length :: a[i]
    ensures |g| == a.Length
    ensures forall i :: 0 <= i < a.Length ==> g[i] == a[i][..]
  {
    seq(a.Length, i requires 0 <= i < a.Length reads a, set k | 0 <= k < a.Length :: a[k] => a[i][..])
  }

  /** One row copied into `width` cells: its own cells, then false. */
  function PaddedRow(row: seq<bool>, width: nat): (p: seq<bool>)
    ensures |p| == width
    ensures forall j :: 0 <= j < width ==> p[j] == (j < |row| && row[j])
  {
    seq(width, j requires 0 <= j < width => j < |row| && row[j])
  }

  /** A copy into an |g| x width block: each row keeps its own cells and is filled up with false. */
  function Padded(g: seq<seq<bool>>, width: nat): (p: seq<seq<bool>>)
    ensures |p| == |g|
    ensures forall i :: 0 <= i < |g| ==> p[i] == PaddedRow(g[i], width)
  {
    seq(|g|, i requires 0 <= i < |g| => PaddedRow(g[i], width))
  }

  /** Some row is longer than the first one, so the copy would write past the end of a row. */
  predicate Overlong(g: seq<seq<bool>>)
    requires g != []
  {
    exists i :: 0 <= i < |g| && |g[i]| > |g[0]|
  }

  /** Every row as long as the first. */
  predicate Rectangular(g: seq<seq<bool>>)
  {
    forall i :: 0 <= i < |g| ==> |g[i]| == |g[0]|
  }

  /** Copying a rectangular grid to its own width changes nothing. */
  lemma PaddedRectangular(g: seq<seq<bool>>)
    requires g != [] && Rectangular(g)
    ensures Padded(g, |g[0]|) == g
  {
    var p := Padded(g, |g[0]|);
    forall i | 0 <= i < |g| ensures p[i] == g[i] {
      assert |p[i]| == |g[i]|;
    }
  }

  /** A rectangular grid has no overlong row. */
  lemma RectangularNotOverlong(g: seq<seq<bool>>)
    requires g != [] && Rectangular(g)
    ensures !Overlong(g)
  {
  }

  /** The rows of `a` are pairwise different arrays. */
  ghost predicate DistinctRows(a: array<array<bool>>)
    reads a
  {
    forall i, k :: 0 <= i < a.Length && 0 <= k < a.Length && i != k ==> a[i] != a[k]
  }

  /** The allocation `new boolean[rows][width]`: distinct fresh rows, all false. */
  method NewBlock(rows: nat, width: nat) returns (block: array<array<bool>>)
    ensures fresh(block) && block.Length == rows && DistinctRows(block)
    ensures forall k :: 0 <= k < rows ==> fresh(block[k]) && block[k][..] == PaddedRow([], width)
  {
    var made: seq<array<bool>> := [];
    for i := 0 to rows
      invariant |made| == i
      invariant forall k :: 0 <= k < i ==> fresh(made[k]) && made[k][..] == PaddedRow([], width)
      invariant forall k, l :: 0 <= k < l < i ==> made[k] != made[l]
    {
      var row := new bool[width](_ => false);
      made := made + [row];
    }
    block := new array<bool>[rows](i requires 0 <= i < |made| => made[i]);
    forall i, k | 0 <= i < rows && 0 <= k < rows && i != k ensures block[i] != block[k] {
      assert block[i] == made[i] && block[k] == made[k];
    }
  }

  /**
   * The inner loop of copyArray: copies `src` cell by cell into the
   * all-false `dst`; a source longer than `dst` fails at index dst.Length.
   */
  method CopyRow(src: array<bool>, dst: array<bool>) returns (ok: bool)
    requires src != dst && dst[..] == PaddedRow([], dst.Length)
    modifies dst
    ensures ok <==> src.Length <= dst.Length
    ensures ok ==> dst[..] == PaddedRow(src[..], dst.Length)
  {
    var j := 0;
    while j < src.Length
      invariant 0 <= j <= src.Length && j <= dst.Length
      invariant forall l :: 0 <= l < j ==> dst[l] == src[l]
      invariant forall l :: j <= l < dst.Length ==> !dst[l]
    {
      if j >= dst.Length {
        return false;
      }
      dst[j] := src[j];
      j := j + 1;
    }
    return true;
  }

  /**
   * Puzzle.copyArray: a new original.length x original[0].length block, row
   * i receiving original[i]. An empty grid, or a row longer than the first,
   * throws ArrayIndexOutOfBoundsException.
   */
  method CopyArray(original: array<array<bool>>) returns (r: Result<array<array<bool>>>)
    ensures r.Err? <==> original.Length == 0 || Overlong(Cells(original))
    ensures r.Err? ==> r.error == IndexOutOfBounds
    ensures r.Ok? ==>
      && fresh(r.value) && DistinctRows(r.value)
      && (forall i :: 0 <= i < r.value.Length ==> fresh(r.value[i]))
      && Cells(r.value) == Padded(Cells(original), original[0].Length)
  {
    if original.Length == 0 {
      return Err(IndexOutOfBounds);
    }
    ghost var g := Cells(original);
    var rows := original.Length;
    var width := original[0].Length;
    var copy := NewBlock(rows, width);
    for i := 0 to rows
      modifies set k | 0 <= k < rows :: copy[k]
      invariant forall k :: 0 <= k < rows ==> fresh(copy[k])
      invariant Cells(original) == g
      invariant forall k :: 0 <= k < i ==> |g[k]| <= width && copy[k][..] == PaddedRow(g[k], width)
      invariant forall k :: i <= k < rows ==> copy[k][..] == PaddedRow([], width)
    {
      var ok := CopyRow(original[i], copy[i]);
      if !ok {
        assert |g[i]| > |g[0]|;
        return Err(IndexOutOfBounds);
      }
    }
    assert !Overlong(g) by {
      forall k | 0 <= k < rows ensures |g[k]| <= |g[0]| {
      }
    }
    assert Cells(copy) == Padded(g, width);
    return Ok(copy);
  }

  class Puzzle {
    const puzzleId: string
    const name: string
    /** The puzzle's own copy of the solution, one array per row. */
    const solution: array<array<bool>>
    /** The outer array and every row. */
    ghost const Repr: set<object>

    /** A non-empty rectangular grid whose rows are distinct arrays, all in Repr. */
    ghost predicate Valid()
      reads Repr
    {
      && solution in Repr
      && solution.Length > 0
      && DistinctRows(solution)
      && (forall i :: 0 <= i < solution.Length ==> solution[i] in Repr)
      && (forall i :: 0 <= i < solution.Length ==> solution[i].Length == solution[0].Length)
    }

    /** The solution as a value. */
    ghost function Grid(): (g: seq<seq<bool>>)
      requires Valid()
      reads Repr
      ensures g != [] && Rectangular(g)
    {
      Cells(solution)
    }

    /** Takes ownership of a copy made by CopyArray. */
    constructor Own(puzzleId: string, name: string, copy: array<array<bool>>)
      requires copy.Length > 0 && DistinctRows(copy)
      requires forall i :: 0 <= i < copy.Length ==> copy[i].Length == copy[0].Length
      ensures Valid() && this.puzzleId == puzzleId && this.name == name
      ensures solution == copy && Repr == {copy} + set i | 0 <= i < copy.Length :: copy[i]
    {
      this.puzzleId := puzzleId;
      this.name := name;
      solution := copy;
      Repr := {copy} + set i | 0 <= i < copy.Length :: copy[i];
    }

    /** GetSize: the number of rows. */
    function GetSize(): (n: int)
      requires Valid()
      reads Repr
      ensures n == |Grid()| && n > 0
    {
      solution.Length
    }

    /** Puzzle.getSolution: a fresh copy, equal cell for cell to the stored grid. */
    method GetSolution() returns (copy: array<array<bool>>)
      requires Valid()
      ensures fresh(copy) && DistinctRows(copy)
      ensures forall i :: 0 <= i < copy.Length ==> fresh(copy[i])
      ensures Cells(copy) == Grid()
    {
      RectangularNotOverlong(Grid());
      var r := CopyArray(solution);
      PaddedRectangular(Grid());
      copy := r.value;
    }
  }

  /**
   * The Puzzle constructor: copies the caller's grid. The copy fails like
   * copyArray does.
   */
  method NewPuzzle(puzzleId: string, name: string, original: array<array<bool>>) returns (r: Result<Puzzle>)
    ensures r.Err? <==> original.Length == 0 || Overlong(Cells(original))
    ensures r.Err? ==> r.error == IndexOutOfBounds
    ensures r.Ok? ==>
      && fresh(r.value) && fresh(r.value.Repr) && r.value.Valid()
      && r.value.puzzleId == puzzleId && r.value.name == name
      && r.value.Grid() == Padded(Cells(original), original[0].Length)
  {
    var copied := CopyArray(original);
    if copied.Err? {
      return Err(copied.error);
    }
    var copy := copied.value;
    var p := new Puzzle.Own(puzzleId, name, copy);
    return Ok(p);
  }

  /** A write to the caller's grid after construction leaves the puzzle as it was. */
  method CallerWriteAfterCopy(original: array<array<bool>>, i: int, j: int, v: bool) returns (r: Result<Puzzle>)
    requires 0 <= i < original.Length && 0 <= j < original[i].Length
    modifies original[i]
    ensures r.Ok? ==> r.value.Valid() && r.value.Grid() == Padded(old(Cells(original)), original[0].Length)
  {
    r := NewPuzzle("", "", original);
    original[i][j] := v;
  }
}
