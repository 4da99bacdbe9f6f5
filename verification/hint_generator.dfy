/**
 * The hint search of controller/HintGenerator.java. `HintRules` gives each
 * strategy as a pure function of the board's cell states and its row and
 * column clue lists, and proves that, when the clues are those of the
 * solution, every hint names cells the solution fills; `HintGenerator` holds
 * the loops of the original, proved to return what those functions say.
 */
module HintRules {
  import opened Wrappers
  import opened Cells
  import opened Positions
  import opened Clues
  import opened Board
  import opened Hints

  /** A rows x cols grid with one clue list per row and per column, every clue at most its line's length. */
  predicate Shaped(g: Grid, rowClues: seq<seq<int>>, columnClues: seq<seq<int>>, rows: nat, cols: nat)
  {
    && IsGrid(g, rows, cols)
    && |rowClues| == rows && |columnClues| == cols
    && ClueBounds(rowClues, cols) && ClueBounds(columnClues, rows)
  }

  const ROW_FILL_MESSAGE: string := "This entire row should be filled based on the clue."
  const COLUMN_FILL_MESSAGE: string := "This entire column should be filled based on the clue."

  function EdgeMessage(clue: int): string
  {
    "The clue " + IntToString(clue) + " forces some cells to be filled."
  }

  function OverlapMessage(clue: int): string
  {
    "All possible arrangements of clue " + IntToString(clue) + " overlap here."
  }

  /** HintGenerator.isCompleteLinePattern: a single clue as long as the line. */
  predicate IsCompleteLinePattern(clues: seq<int>, lineLength: int): (r: bool)
    ensures r <==> clues == [lineLength]
  {
    |clues| == 1 && clues[0] == lineLength
  }

  /** A line's derived clue has the complete-line pattern exactly when every cell of the line is true. */
  lemma CompleteLinePatternMeansFullLine(line: seq<bool>)
    requires |line| > 0
    ensures IsCompleteLinePattern(Clue(line), |line|) <==> forall j :: 0 <= j < |line| ==> line[j]
  {
    if forall j :: 0 <= j < |line| ==> line[j] {
      assert line == Trues(|line|);
      RunsOfTrues(|line|);
    } else if IsCompleteLinePattern(Clue(line), |line|) {
      FullClueMeansAllTrue(line);
    }
  }

  /** Some cell in [lo, hi) of the line is still Unknown. */
  predicate HasUnknownIn(line: seq<CellState>, lo: int, hi: int)
  {
    exists j :: lo <= j < hi && 0 <= j < |line| && line[j] == Unknown
  }

  /** The first Unknown cell in [lo, hi), scanning upwards. */
  function FirstUnknown(line: seq<CellState>, lo: int, hi: int): (k: Option<int>)
    requires 0 <= lo && hi <= |line|
    decreases hi - lo
    ensures k.Some? <==> HasUnknownIn(line, lo, hi)
    ensures k.Some? ==> lo <= k.value < hi && line[k.value] == Unknown
    ensures k.Some? ==> forall j :: lo <= j < k.value ==> line[j] != Unknown
  {
    if lo >= hi then None
    else if line[lo] == Unknown then Some(lo)
    else FirstUnknown(line, lo + 1, hi)
  }

  /** The cells of one whole line, in index order. */
  function LineCells(isRow: bool, index: int, length: nat): seq<CellPosition>
  {
    seq(length, i => if isRow then CellPosition(index, i) else CellPosition(i, index))
  }

  // ---------------------------------------------------------------------------
  // Which lines each strategy fires on
  // ---------------------------------------------------------------------------

  predicate CompleteRow(g: Grid, rowClues: seq<seq<int>>, columnClues: seq<seq<int>>, rows: nat, cols: nat, r: int)
    requires Shaped(g, rowClues, columnClues, rows, cols) && 0 <= r < rows
  {
    IsCompleteLinePattern(rowClues[r], cols) && HasUnknownIn(g[r], 0, cols)
  }

  predicate CompleteColumn(g: Grid, rowClues: seq<seq<int>>, columnClues: seq<seq<int>>, rows: nat, cols: nat, c: int)
    requires Shaped(g, rowClues, columnClues, rows, cols) && 0 <= c < cols
  {
    IsCompleteLinePattern(columnClues[c], rows) && HasUnknownIn(Column(g, c), 0, rows)
  }

  /** The first clue exceeds half the line, and [length - clue, clue) still has an Unknown cell. */
  predicate EdgeLine(line: seq<CellState>, clues: seq<int>)
  {
    |clues| > 0 && clues[0] > |line| / 2 && HasUnknownIn(line, |line| - clues[0], clues[0])
  }

  predicate EdgeRow(g: Grid, rowClues: seq<seq<int>>, columnClues: seq<seq<int>>, rows: nat, cols: nat, r: int)
    requires Shaped(g, rowClues, columnClues, rows, cols) && 0 <= r < rows
  {
    EdgeLine(g[r], rowClues[r])
  }

  predicate EdgeColumn(g: Grid, rowClues: seq<seq<int>>, columnClues: seq<seq<int>>, rows: nat, cols: nat, c: int)
    requires Shaped(g, rowClues, columnClues, rows, cols) && 0 <= c < cols
  {
    EdgeLine(Column(g, c), columnClues[c])
  }

  /** A single positive clue c with length - c < c, and [length - c, c) still has an Unknown cell. */
  predicate OverlapLine(line: seq<CellState>, clues: seq<int>)
  {
    |clues| == 1 && clues[0] > 0 && |line| - clues[0] < clues[0] && HasUnknownIn(line, |line| - clues[0], clues[0])
  }

  // ---------------------------------------------------------------------------
  // The strategies
  // ---------------------------------------------------------------------------

  /** Every cell a hint names lies on the board, on the hint's line. */
  predicate OnItsLine(h: HintValue, rows: nat, cols: nat)
  {
    forall i :: 0 <= i < |h.affectedCells| ==>
      && IsValid(h.affectedCells[i], rows, cols)
      && (if h.isRowHint then h.affectedCells[i].row else h.affectedCells[i].col) == h.lineIndex
  }

  /** A one-cell hint naming an Unknown cell. */
  predicate SingleUnknown(h: HintValue, g: Grid, rows: nat, cols: nat)
    requires IsGrid(g, rows, cols)
  {
    && |h.affectedCells| == 1 && OnItsLine(h, rows, cols)
    && g[h.affectedCells[0].row][h.affectedCells[0].col] == Unknown
  }

  /** findCompleteLineHint, from row `r` on, then over all columns. */
  function CompleteFromRow(g: Grid, rowClues: seq<seq<int>>, columnClues: seq<seq<int>>, rows: nat, cols: nat, r: nat): Option<HintValue>
    requires Shaped(g, rowClues, columnClues, rows, cols) && r <= rows
    decreases rows - r
  {
    if r == rows then CompleteFromColumn(g, rowClues, columnClues, rows, cols, 0)
    else if IsCompleteLinePattern(rowClues[r], cols) && FirstUnknown(g[r], 0, cols).Some? then
      Some(HintValue(CompleteLine, ROW_FILL_MESSAGE, r, true, LineCells(true, r, cols)))
    else CompleteFromRow(g, rowClues, columnClues, rows, cols, r + 1)
  }

  /** The column half of findCompleteLineHint, from column `c` on. */
  function CompleteFromColumn(g: Grid, rowClues: seq<seq<int>>, columnClues: seq<seq<int>>, rows: nat, cols: nat, c: nat): Option<HintValue>
    requires Shaped(g, rowClues, columnClues, rows, cols) && c <= cols
    decreases cols - c
  {
    if c == cols then None
    else if IsCompleteLinePattern(columnClues[c], rows) && FirstUnknown(Column(g, c), 0, rows).Some? then
      Some(HintValue(CompleteLine, COLUMN_FILL_MESSAGE, c, false, LineCells(false, c, rows)))
    else CompleteFromColumn(g, rowClues, columnClues, rows, cols, c + 1)
  }

  /**
   * The cell findEdgeDeductionHint picks on one line: when the first clue
   * exceeds half the line, the first Unknown cell in [length - clue, clue).
   */
  function EdgeCell(line: seq<CellState>, clues: seq<int>): (k: Option<int>)
    requires |clues| > 0 ==> 0 <= clues[0] <= |line|
    ensures k.Some? <==> EdgeLine(line, clues)
    ensures k.Some? ==> k == FirstUnknown(line, |line| - clues[0], clues[0])
  {
    if |clues| > 0 && clues[0] > |line| / 2 then FirstUnknown(line, |line| - clues[0], clues[0])
    else None
  }

  /**
   * The cell findOverlapHint picks on one line: for a single positive clue c
   * with length - c < c, the first Unknown cell in [length - c, c).
   */
  function OverlapCell(line: seq<CellState>, clues: seq<int>): (k: Option<int>)
    requires |clues| > 0 ==> 0 <= clues[0] <= |line|
    ensures k.Some? <==> OverlapLine(line, clues)
    ensures k.Some? ==> k == FirstUnknown(line, |line| - clues[0], clues[0])
  {
    if |clues| == 1 && clues[0] > 0 then
      var maxStart := |line| - clues[0];
      if maxStart < clues[0] then FirstUnknown(line, maxStart, clues[0]) else None
    else None
  }

  /** findEdgeDeductionHint, from row `r` on, then over all columns. */
  function EdgeFromRow(g: Grid, rowClues: seq<seq<int>>, columnClues: seq<seq<int>>, rows: nat, cols: nat, r: nat): Option<HintValue>
    requires Shaped(g, rowClues, columnClues, rows, cols) && r <= rows
    decreases rows - r
  {
    if r == rows then EdgeFromColumn(g, rowClues, columnClues, rows, cols, 0)
    else
      var clues := rowClues[r];
      match EdgeCell(g[r], clues)
      case Some(col) => Some(HintValue(EdgeDeduction, EdgeMessage(clues[0]), r, true, [CellPosition(r, col)]))
      case None => EdgeFromRow(g, rowClues, columnClues, rows, cols, r + 1)
  }

  /** The column half of findEdgeDeductionHint, from column `c` on. */
  function EdgeFromColumn(g: Grid, rowClues: seq<seq<int>>, columnClues: seq<seq<int>>, rows: nat, cols: nat, c: nat): Option<HintValue>
    requires Shaped(g, rowClues, columnClues, rows, cols) && c <= cols
    decreases cols - c
  {
    if c == cols then None
    else
      var clues := columnClues[c];
      match EdgeCell(Column(g, c), clues)
      case Some(row) => Some(HintValue(EdgeDeduction, EdgeMessage(clues[0]), c, false, [CellPosition(row, c)]))
      case None => EdgeFromColumn(g, rowClues, columnClues, rows, cols, c + 1)
  }

  /** findOverlapHint, from row `r` on; columns are not examined. */
  function OverlapFromRow(g: Grid, rowClues: seq<seq<int>>, columnClues: seq<seq<int>>, rows: nat, cols: nat, r: nat): Option<HintValue>
    requires Shaped(g, rowClues, columnClues, rows, cols) && r <= rows
    decreases rows - r
  {
    if r == rows then None
    else
      var clues := rowClues[r];
      match OverlapCell(g[r], clues)
      case Some(col) => Some(HintValue(OverlapAnalysis, OverlapMessage(clues[0]), r, true, [CellPosition(r, col)]))
      case None => OverlapFromRow(g, rowClues, columnClues, rows, cols, r + 1)
  }

  /** When row r's scan finds an Unknown cell in the forced range, the edge rule stops at row r. */
  lemma EdgeRowFound(g: Grid, rowClues: seq<seq<int>>, columnClues: seq<seq<int>>, rows: nat, cols: nat, r: nat, k: Option<int>)
    requires Shaped(g, rowClues, columnClues, rows, cols) && r < rows
    requires |rowClues[r]| > 0 && rowClues[r][0] > cols / 2
    requires k == FirstUnknown(g[r], cols - rowClues[r][0], rowClues[r][0]) && k.Some?
    ensures EdgeFromRow(g, rowClues, columnClues, rows, cols, r)
      == Some(HintValue(EdgeDeduction, EdgeMessage(rowClues[r][0]), r, true, [CellPosition(r, k.value)]))
  {
    assert EdgeCell(g[r], rowClues[r]) == k;
  }

  /** When column c's scan finds an Unknown cell in the forced range, the edge rule stops at column c. */
  lemma EdgeColumnFound(g: Grid, rowClues: seq<seq<int>>, columnClues: seq<seq<int>>, rows: nat, cols: nat, c: nat, k: Option<int>)
    requires Shaped(g, rowClues, columnClues, rows, cols) && c < cols
    requires |columnClues[c]| > 0 && columnClues[c][0] > rows / 2
    requires k == FirstUnknown(Column(g, c), rows - columnClues[c][0], columnClues[c][0]) && k.Some?
    ensures EdgeFromColumn(g, rowClues, columnClues, rows, cols, c)
      == Some(HintValue(EdgeDeduction, EdgeMessage(columnClues[c][0]), c, false, [CellPosition(k.value, c)]))
  {
    assert EdgeCell(Column(g, c), columnClues[c]) == k;
  }

  /** When row r's scan finds an Unknown cell in the overlap, the overlap rule stops at row r. */
  lemma OverlapRowFound(g: Grid, rowClues: seq<seq<int>>, columnClues: seq<seq<int>>, rows: nat, cols: nat, r: nat, k: Option<int>)
    requires Shaped(g, rowClues, columnClues, rows, cols) && r < rows
    requires |rowClues[r]| == 1 && 0 < rowClues[r][0] && cols - rowClues[r][0] < rowClues[r][0]
    requires k == FirstUnknown(g[r], cols - rowClues[r][0], rowClues[r][0]) && k.Some?
    ensures OverlapFromRow(g, rowClues, columnClues, rows, cols, r)
      == Some(HintValue(OverlapAnalysis, OverlapMessage(rowClues[r][0]), r, true, [CellPosition(r, k.value)]))
  {
    assert OverlapCell(g[r], rowClues[r]) == k;
  }

  function CompleteLineHint(g: Grid, rowClues: seq<seq<int>>, columnClues: seq<seq<int>>, rows: nat, cols: nat): Option<HintValue>
    requires Shaped(g, rowClues, columnClues, rows, cols)
  {
    CompleteFromRow(g, rowClues, columnClues, rows, cols, 0)
  }

  function EdgeHint(g: Grid, rowClues: seq<seq<int>>, columnClues: seq<seq<int>>, rows: nat, cols: nat): Option<HintValue>
    requires Shaped(g, rowClues, columnClues, rows, cols)
  {
    EdgeFromRow(g, rowClues, columnClues, rows, cols, 0)
  }

  function OverlapHint(g: Grid, rowClues: seq<seq<int>>, columnClues: seq<seq<int>>, rows: nat, cols: nat): Option<HintValue>
    requires Shaped(g, rowClues, columnClues, rows, cols)
  {
    OverlapFromRow(g, rowClues, columnClues, rows, cols, 0)
  }

  /** HintGenerator.generateHint: the first strategy, in priority order, that finds something. */
  function GenerateHint(g: Grid, rowClues: seq<seq<int>>, columnClues: seq<seq<int>>, rows: nat, cols: nat): (h: Option<HintValue>)
    requires Shaped(g, rowClues, columnClues, rows, cols)
    ensures h.None? <==>
      && CompleteLineHint(g, rowClues, columnClues, rows, cols).None?
      && EdgeHint(g, rowClues, columnClues, rows, cols).None?
      && OverlapHint(g, rowClues, columnClues, rows, cols).None?
    ensures CompleteLineHint(g, rowClues, columnClues, rows, cols).Some? ==> h == CompleteLineHint(g, rowClues, columnClues, rows, cols)
    ensures CompleteLineHint(g, rowClues, columnClues, rows, cols).None? && EdgeHint(g, rowClues, columnClues, rows, cols).Some? ==>
      h == EdgeHint(g, rowClues, columnClues, rows, cols)
  {
    var complete := CompleteLineHint(g, rowClues, columnClues, rows, cols);
    if complete.Some? then complete
    else
      var edge := EdgeHint(g, rowClues, columnClues, rows, cols);
      if edge.Some? then edge
      else OverlapHint(g, rowClues, columnClues, rows, cols)
  }

  // ---------------------------------------------------------------------------
  // What the search guarantees
  // ---------------------------------------------------------------------------

  /**
   * The complete-line pass from row `r` on picks the first qualifying row,
   * else defers to the column pass; a row hint covers the whole row.
   */
  lemma {:induction false} CompleteFromRowFacts(g: Grid, rowClues: seq<seq<int>>, columnClues: seq<seq<int>>, rows: nat, cols: nat, r: nat)
    requires Shaped(g, rowClues, columnClues, rows, cols) && r <= rows
    ensures var h := CompleteFromRow(g, rowClues, columnClues, rows, cols, r);
      h.Some? ==> h.value.kind == CompleteLine && OnItsLine(h.value, rows, cols)
    ensures var h := CompleteFromRow(g, rowClues, columnClues, rows, cols, r);
      h.Some? && h.value.isRowHint ==>
      && r <= h.value.lineIndex < rows && CompleteRow(g, rowClues, columnClues, rows, cols, h.value.lineIndex)
      && h.value.affectedCells == LineCells(true, h.value.lineIndex, cols)
      && forall i :: r <= i < h.value.lineIndex ==> !CompleteRow(g, rowClues, columnClues, rows, cols, i)
    ensures var h := CompleteFromRow(g, rowClues, columnClues, rows, cols, r);
      (h.None? || !h.value.isRowHint) ==> forall i :: r <= i < rows ==> !CompleteRow(g, rowClues, columnClues, rows, cols, i)
    ensures var h := CompleteFromRow(g, rowClues, columnClues, rows, cols, r);
      h == (if h.Some? && h.value.isRowHint then h else CompleteFromColumn(g, rowClues, columnClues, rows, cols, 0))
    decreases rows - r
  {
    if r < rows {
      CompleteFromRowFacts(g, rowClues, columnClues, rows, cols, r + 1);
    } else {
      CompleteFromColumnFacts(g, rowClues, columnClues, rows, cols, 0);
    }
  }

  /**
   * The column half of the complete-line pass picks the first qualifying
   * column and covers the whole column.
   */
  lemma {:induction false} CompleteFromColumnFacts(g: Grid, rowClues: seq<seq<int>>, columnClues: seq<seq<int>>, rows: nat, cols: nat, c: nat)
    requires Shaped(g, rowClues, columnClues, rows, cols) && c <= cols
    ensures var h := CompleteFromColumn(g, rowClues, columnClues, rows, cols, c);
      h.Some? ==>
      && h.value.kind == CompleteLine && !h.value.isRowHint && OnItsLine(h.value, rows, cols)
      && c <= h.value.lineIndex < cols && CompleteColumn(g, rowClues, columnClues, rows, cols, h.value.lineIndex)
      && h.value.affectedCells == LineCells(false, h.value.lineIndex, rows)
      && forall i :: c <= i < h.value.lineIndex ==> !CompleteColumn(g, rowClues, columnClues, rows, cols, i)
    ensures var h := CompleteFromColumn(g, rowClues, columnClues, rows, cols, c);
      h.None? ==> forall i :: c <= i < cols ==> !CompleteColumn(g, rowClues, columnClues, rows, cols, i)
    decreases cols - c
  {
    if c < cols {
      CompleteFromColumnFacts(g, rowClues, columnClues, rows, cols, c + 1);
    }
  }

  /**
   * The edge pass from row `r` on gives a one-cell hint on an Unknown cell;
   * a row hint names the first Unknown cell of its row's forced range.
   */
  lemma {:induction false} EdgeFromRowFacts(g: Grid, rowClues: seq<seq<int>>, columnClues: seq<seq<int>>, rows: nat, cols: nat, r: nat)
    requires Shaped(g, rowClues, columnClues, rows, cols) && r <= rows
    ensures var h := EdgeFromRow(g, rowClues, columnClues, rows, cols, r);
      h.Some? ==> h.value.kind == EdgeDeduction && SingleUnknown(h.value, g, rows, cols)
    ensures var h := EdgeFromRow(g, rowClues, columnClues, rows, cols, r);
      h.Some? && h.value.isRowHint ==>
      && r <= h.value.lineIndex < rows
      && Some(h.value.affectedCells[0].col) == EdgeCell(g[h.value.lineIndex], rowClues[h.value.lineIndex])
    decreases rows - r
  {
    if r < rows {
      EdgeFromRowFacts(g, rowClues, columnClues, rows, cols, r + 1);
    } else {
      EdgeFromColumnFacts(g, rowClues, columnClues, rows, cols, 0);
    }
  }

  /**
   * The edge pass from row `r` on picks the first row where the edge rule
   * fires, and falls through to the column pass only when no row does.
   */
  lemma {:induction false} EdgeFromRowFirst(g: Grid, rowClues: seq<seq<int>>, columnClues: seq<seq<int>>, rows: nat, cols: nat, r: nat)
    requires Shaped(g, rowClues, columnClues, rows, cols) && r <= rows
    ensures var h := EdgeFromRow(g, rowClues, columnClues, rows, cols, r);
      h.Some? && h.value.isRowHint ==>
      && r <= h.value.lineIndex < rows && EdgeRow(g, rowClues, columnClues, rows, cols, h.value.lineIndex)
      && forall i :: r <= i < h.value.lineIndex ==> !EdgeRow(g, rowClues, columnClues, rows, cols, i)
    ensures var h := EdgeFromRow(g, rowClues, columnClues, rows, cols, r);
      (h.None? || !h.value.isRowHint) ==> forall i :: r <= i < rows ==> !EdgeRow(g, rowClues, columnClues, rows, cols, i)
    ensures var h := EdgeFromRow(g, rowClues, columnClues, rows, cols, r);
      h == (if h.Some? && h.value.isRowHint then h else EdgeFromColumn(g, rowClues, columnClues, rows, cols, 0))
    decreases rows - r
  {
    if r < rows {
      EdgeFromRowFirst(g, rowClues, columnClues, rows, cols, r + 1);
    } else {
      EdgeFromColumnFacts(g, rowClues, columnClues, rows, cols, 0);
    }
  }

  /**
   * The column half of the edge pass gives a one-cell hint on an Unknown
   * cell: the first Unknown cell of the forced range of its column.
   */
  lemma {:induction false} EdgeFromColumnFacts(g: Grid, rowClues: seq<seq<int>>, columnClues: seq<seq<int>>, rows: nat, cols: nat, c: nat)
    requires Shaped(g, rowClues, columnClues, rows, cols) && c <= cols
    ensures var h := EdgeFromColumn(g, rowClues, columnClues, rows, cols, c);
      h.Some? ==>
      && h.value.kind == EdgeDeduction && !h.value.isRowHint && SingleUnknown(h.value, g, rows, cols)
      && c <= h.value.lineIndex < cols
      && Some(h.value.affectedCells[0].row) == EdgeCell(Column(g, h.value.lineIndex), columnClues[h.value.lineIndex])
    decreases cols - c
  {
    if c < cols {
      EdgeFromColumnFacts(g, rowClues, columnClues, rows, cols, c + 1);
      var line := Column(g, c);
      var k := EdgeCell(line, columnClues[c]);
      if k.Some? {
        assert line[k.value] == g[k.value][c] == Unknown;
      }
    }
  }

  /** The column half of the edge pass picks the first column where the edge rule fires. */
  lemma {:induction false} EdgeFromColumnFirst(g: Grid, rowClues: seq<seq<int>>, columnClues: seq<seq<int>>, rows: nat, cols: nat, c: nat)
    requires Shaped(g, rowClues, columnClues, rows, cols) && c <= cols
    ensures var h := EdgeFromColumn(g, rowClues, columnClues, rows, cols, c);
      h.Some? ==>
      && c <= h.value.lineIndex < cols && EdgeColumn(g, rowClues, columnClues, rows, cols, h.value.lineIndex)
      && forall i :: c <= i < h.value.lineIndex ==> !EdgeColumn(g, rowClues, columnClues, rows, cols, i)
    ensures var h := EdgeFromColumn(g, rowClues, columnClues, rows, cols, c);
      h.None? ==> forall i :: c <= i < cols ==> !EdgeColumn(g, rowClues, columnClues, rows, cols, i)
    decreases cols - c
  {
    if c < cols {
      EdgeFromColumnFirst(g, rowClues, columnClues, rows, cols, c + 1);
      var k := EdgeCell(Column(g, c), columnClues[c]);
      assert k.Some? <==> EdgeColumn(g, rowClues, columnClues, rows, cols, c);
      if k.None? {
        assert EdgeFromColumn(g, rowClues, columnClues, rows, cols, c) == EdgeFromColumn(g, rowClues, columnClues, rows, cols, c + 1);
      } else {
        assert EdgeFromColumn(g, rowClues, columnClues, rows, cols, c).value.lineIndex == c;
      }
    }
  }

  /**
   * The overlap pass picks the first row where the overlap rule fires and
   * names the first Unknown cell of its overlap range.
   */
  lemma {:induction false} OverlapFromRowFacts(g: Grid, rowClues: seq<seq<int>>, columnClues: seq<seq<int>>, rows: nat, cols: nat, r: nat)
    requires Shaped(g, rowClues, columnClues, rows, cols) && r <= rows
    ensures var h := OverlapFromRow(g, rowClues, columnClues, rows, cols, r);
      h.Some? ==>
      && h.value.kind == OverlapAnalysis && h.value.isRowHint && SingleUnknown(h.value, g, rows, cols)
      && r <= h.value.lineIndex < rows
      && Some(h.value.affectedCells[0].col) == OverlapCell(g[h.value.lineIndex], rowClues[h.value.lineIndex])
      && forall i :: r <= i < h.value.lineIndex ==> !OverlapLine(g[i], rowClues[i])
    ensures var h := OverlapFromRow(g, rowClues, columnClues, rows, cols, r);
      h.None? ==> forall i :: r <= i < rows ==> !OverlapLine(g[i], rowClues[i])
    decreases rows - r
  {
    if r < rows {
      OverlapFromRowFacts(g, rowClues, columnClues, rows, cols, r + 1);
    }
  }

  /** On any line where the overlap pass fires, the edge pass fires too. */
  lemma OverlapLineIsEdgeLine(line: seq<CellState>, clues: seq<int>)
    requires OverlapLine(line, clues)
    ensures EdgeLine(line, clues)
  {
  }

  /** Whenever the overlap pass finds a row, the (earlier) edge pass finds one too. */
  lemma EdgeCoversOverlap(g: Grid, rowClues: seq<seq<int>>, columnClues: seq<seq<int>>, rows: nat, cols: nat, r: nat)
    requires Shaped(g, rowClues, columnClues, rows, cols) && r <= rows
    requires OverlapFromRow(g, rowClues, columnClues, rows, cols, r).Some?
    ensures EdgeFromRow(g, rowClues, columnClues, rows, cols, r).Some?
  {
    OverlapFromRowFacts(g, rowClues, columnClues, rows, cols, r);
    EdgeFromRowFirst(g, rowClues, columnClues, rows, cols, r);
    var h := OverlapFromRow(g, rowClues, columnClues, rows, cols, r).value;
    OverlapLineIsEdgeLine(g[h.lineIndex], rowClues[h.lineIndex]);
    assert EdgeRow(g, rowClues, columnClues, rows, cols, h.lineIndex);
  }

  /** generateHint never returns an overlap hint: the edge pass always gets there first. */
  lemma NeverOverlap(g: Grid, rowClues: seq<seq<int>>, columnClues: seq<seq<int>>, rows: nat, cols: nat)
    requires Shaped(g, rowClues, columnClues, rows, cols)
    ensures var h := GenerateHint(g, rowClues, columnClues, rows, cols);
      h.Some? ==> h.value.kind != OverlapAnalysis
    ensures GenerateHint(g, rowClues, columnClues, rows, cols).Some? <==>
      (CompleteLineHint(g, rowClues, columnClues, rows, cols).Some? || EdgeHint(g, rowClues, columnClues, rows, cols).Some?)
  {
    CompleteFromRowFacts(g, rowClues, columnClues, rows, cols, 0);
    EdgeFromRowFacts(g, rowClues, columnClues, rows, cols, 0);
    if OverlapHint(g, rowClues, columnClues, rows, cols).Some? {
      EdgeCoversOverlap(g, rowClues, columnClues, rows, cols, 0);
    }
  }

  /** Every cell a hint names is on the board, and the hint points at an Unknown cell. */
  lemma HintPointsAtUnknown(g: Grid, rowClues: seq<seq<int>>, columnClues: seq<seq<int>>, rows: nat, cols: nat)
    requires Shaped(g, rowClues, columnClues, rows, cols)
    ensures var h := GenerateHint(g, rowClues, columnClues, rows, cols);
      h.Some? ==>
        && OnItsLine(h.value, rows, cols)
        && (h.value.kind == CompleteLine ==>
              exists i :: 0 <= i < |h.value.affectedCells| && g[h.value.affectedCells[i].row][h.value.affectedCells[i].col] == Unknown)
        && (h.value.kind != CompleteLine ==> SingleUnknown(h.value, g, rows, cols))
  {
    CompleteFromRowFacts(g, rowClues, columnClues, rows, cols, 0);
    CompleteFromColumnFacts(g, rowClues, columnClues, rows, cols, 0);
    EdgeFromRowFacts(g, rowClues, columnClues, rows, cols, 0);
    EdgeFromColumnFacts(g, rowClues, columnClues, rows, cols, 0);
    OverlapFromRowFacts(g, rowClues, columnClues, rows, cols, 0);
    var h := GenerateHint(g, rowClues, columnClues, rows, cols);
    if h.Some? && h.value.kind == CompleteLine {
      var v := h.value;
      var k: int;
      if v.isRowHint {
        k := FirstUnknown(g[v.lineIndex], 0, cols).value;
      } else {
        k := FirstUnknown(Column(g, v.lineIndex), 0, rows).value;
      }
      assert g[v.affectedCells[k].row][v.affectedCells[k].col] == Unknown;
    }
  }

  /** Every cell a hint names is filled in the solution, so following the hint is never wrong. */
  predicate Sound(h: HintValue, solution: seq<seq<bool>>)
  {
    forall i :: 0 <= i < |h.affectedCells| ==>
      var p := h.affectedCells[i];
      0 <= p.row < |solution| && 0 <= p.col < |solution[p.row]| && solution[p.row][p.col]
  }

  /** The clue lists are the ones the board derives from `solution`. */
  ghost predicate FromSolution(g: Grid, rowClues: seq<seq<int>>, columnClues: seq<seq<int>>, rows: nat, cols: nat, solution: seq<seq<bool>>)
  {
    && Shaped(g, rowClues, columnClues, rows, cols) && IsGrid(solution, rows, cols)
    && CluesOf(solution, rows, cols, rowClues, columnClues)
  }

  lemma CompleteLineSound(g: Grid, rowClues: seq<seq<int>>, columnClues: seq<seq<int>>, rows: nat, cols: nat, solution: seq<seq<bool>>)
    requires FromSolution(g, rowClues, columnClues, rows, cols, solution)
    ensures var h := CompleteLineHint(g, rowClues, columnClues, rows, cols);
      h.Some? ==> Sound(h.value, solution)
  {
    CompleteFromRowFacts(g, rowClues, columnClues, rows, cols, 0);
    CompleteFromColumnFacts(g, rowClues, columnClues, rows, cols, 0);
    var h := CompleteLineHint(g, rowClues, columnClues, rows, cols);
    if h.Some? {
      var v := h.value;
      if v.isRowHint {
        assert rowClues[v.lineIndex] == Clue(solution[v.lineIndex]);
        FullClueMeansAllTrue(solution[v.lineIndex]);
      } else {
        var col := Column(solution, v.lineIndex);
        assert columnClues[v.lineIndex] == Clue(col);
        FullClueMeansAllTrue(col);
        assert forall i :: 0 <= i < rows ==> col[i] == solution[i][v.lineIndex];
      }
    }
  }

  /** The cell the edge rule picks on a line is filled in that line's solution. */
  lemma EdgeCellSound(line: seq<CellState>, solutionLine: seq<bool>, k: int)
    requires |line| == |solutionLine| && EdgeCell(line, Clue(solutionLine)) == Some(k)
    ensures 0 <= k < |solutionLine| && solutionLine[k]
  {
    FirstClueOverlap(solutionLine, k);
  }

  /** The cell the overlap rule picks on a line is filled in that line's solution. */
  lemma OverlapCellSound(line: seq<CellState>, solutionLine: seq<bool>, k: int)
    requires |line| == |solutionLine| && OverlapCell(line, Clue(solutionLine)) == Some(k)
    ensures 0 <= k < |solutionLine| && solutionLine[k]
  {
    FirstClueOverlap(solutionLine, k);
  }

  lemma EdgeSound(g: Grid, rowClues: seq<seq<int>>, columnClues: seq<seq<int>>, rows: nat, cols: nat, solution: seq<seq<bool>>)
    requires FromSolution(g, rowClues, columnClues, rows, cols, solution)
    ensures var h := EdgeHint(g, rowClues, columnClues, rows, cols);
      h.Some? ==> Sound(h.value, solution)
  {
    EdgeFromRowFacts(g, rowClues, columnClues, rows, cols, 0);
    EdgeFromRowFirst(g, rowClues, columnClues, rows, cols, 0);
    EdgeFromColumnFacts(g, rowClues, columnClues, rows, cols, 0);
    var h := EdgeHint(g, rowClues, columnClues, rows, cols);
    if h.Some? {
      var v := h.value;
      var p := v.affectedCells[0];
      if v.isRowHint {
        assert rowClues[v.lineIndex] == Clue(solution[v.lineIndex]);
        EdgeCellSound(g[v.lineIndex], solution[v.lineIndex], p.col);
      } else {
        assert columnClues[v.lineIndex] == Clue(Column(solution, v.lineIndex));
        EdgeCellSound(Column(g, v.lineIndex), Column(solution, v.lineIndex), p.row);
      }
    }
  }

  lemma OverlapSound(g: Grid, rowClues: seq<seq<int>>, columnClues: seq<seq<int>>, rows: nat, cols: nat, solution: seq<seq<bool>>)
    requires FromSolution(g, rowClues, columnClues, rows, cols, solution)
    ensures var h := OverlapHint(g, rowClues, columnClues, rows, cols);
      h.Some? ==> Sound(h.value, solution)
  {
    OverlapFromRowFacts(g, rowClues, columnClues, rows, cols, 0);
    var h := OverlapHint(g, rowClues, columnClues, rows, cols);
    if h.Some? {
      assert rowClues[h.value.lineIndex] == Clue(solution[h.value.lineIndex]);
      OverlapCellSound(g[h.value.lineIndex], solution[h.value.lineIndex], h.value.affectedCells[0].col);
    }
  }

  /** With clues derived from the solution, every hint generateHint gives is correct. */
  lemma GenerateHintSound(g: Grid, rowClues: seq<seq<int>>, columnClues: seq<seq<int>>, rows: nat, cols: nat, solution: seq<seq<bool>>)
    requires FromSolution(g, rowClues, columnClues, rows, cols, solution)
    ensures var h := GenerateHint(g, rowClues, columnClues, rows, cols);
      h.Some? ==> Sound(h.value, solution)
  {
    CompleteLineSound(g, rowClues, columnClues, rows, cols, solution);
    EdgeSound(g, rowClues, columnClues, rows, cols, solution);
    OverlapSound(g, rowClues, columnClues, rows, cols, solution);
  }
}

module HintGenerator {
  import opened Wrappers
  import opened Cells
  import opened Positions
  import opened Clues
  import opened Board
  import opened Hints
  import HintRules

  /**
   * The inner scans of the find methods: the first Unknown cell of row `row`
   * in columns [lo, hi), reading each cell's current state.
   */
  method ScanRow(board: GameBoard, row: int, lo: int, hi: int) returns (found: Option<int>)
    requires board.Valid() && 0 <= row < board.rows && 0 <= lo && hi <= board.cols
    ensures found == HintRules.FirstUnknown(board.States()[row], lo, hi)
  {
    ghost var line := board.States()[row];
    var col := lo;
    while col < hi
      invariant lo <= col && (col <= hi || lo > hi)
      invariant HintRules.FirstUnknown(line, col, hi) == HintRules.FirstUnknown(line, lo, hi)
    {
      if board.GetCell(row, col).value.state == Unknown {
        return Some(col);
      }
      col := col + 1;
    }
    return None;
  }

  /** The first Unknown cell of column `col` in rows [lo, hi). */
  method ScanColumn(board: GameBoard, col: int, lo: int, hi: int) returns (found: Option<int>)
    requires board.Valid() && 0 <= col < board.cols && 0 <= lo && hi <= board.rows
    ensures found == HintRules.FirstUnknown(Column(board.States(), col), lo, hi)
  {
    ghost var line := Column(board.States(), col);
    var row := lo;
    while row < hi
      invariant lo <= row && (row <= hi || lo > hi)
      invariant HintRules.FirstUnknown(line, row, hi) == HintRules.FirstUnknown(line, lo, hi)
    {
      if board.GetCell(row, col).value.state == Unknown {
        return Some(row);
      }
      row := row + 1;
    }
    return None;
  }

  /** One row of findCompleteLineHint: a hint when the row's clue is full and some cell is still Unknown. */
  method CompleteLineAtRow(board: GameBoard, row: int) returns (hint: Hint?)
    requires board.Valid() && 0 <= row < board.rows
    ensures hint == null ==>
      HintRules.CompleteFromRow(board.States(), board.rowClues, board.columnClues, board.rows, board.cols, row)
      == HintRules.CompleteFromRow(board.States(), board.rowClues, board.columnClues, board.rows, board.cols, row + 1)
    ensures hint != null ==>
      fresh(hint) && Some(hint.Value()) == HintRules.CompleteFromRow(board.States(), board.rowClues, board.columnClues, board.rows, board.cols, row)
  {
    var clues := board.GetRowClues(row).value;
    if HintRules.IsCompleteLinePattern(clues, board.cols) {
      var unknown := ScanRow(board, row, 0, board.cols);
      var needsFilling := unknown.Some?;
      if needsFilling {
        hint := new Hint(CompleteLine, HintRules.ROW_FILL_MESSAGE, row, true);
        for col := 0 to board.cols
          invariant hint.affectedCells == HintRules.LineCells(true, row, col)
        {
          hint.AddAffectedCell(CellPosition(row, col));
        }
        return;
      }
    }
    hint := null;
  }

  /** One column of findCompleteLineHint. */
  method CompleteLineAtColumn(board: GameBoard, col: int) returns (hint: Hint?)
    requires board.Valid() && 0 <= col < board.cols
    ensures hint == null ==>
      HintRules.CompleteFromColumn(board.States(), board.rowClues, board.columnClues, board.rows, board.cols, col)
      == HintRules.CompleteFromColumn(board.States(), board.rowClues, board.columnClues, board.rows, board.cols, col + 1)
    ensures hint != null ==>
      fresh(hint) && Some(hint.Value()) == HintRules.CompleteFromColumn(board.States(), board.rowClues, board.columnClues, board.rows, board.cols, col)
  {
    var clues := board.GetColumnClues(col).value;
    if HintRules.IsCompleteLinePattern(clues, board.rows) {
      var unknown := ScanColumn(board, col, 0, board.rows);
      var needsFilling := unknown.Some?;
      if needsFilling {
        hint := new Hint(CompleteLine, HintRules.COLUMN_FILL_MESSAGE, col, false);
        for row := 0 to board.rows
          invariant hint.affectedCells == HintRules.LineCells(false, col, row)
        {
          hint.AddAffectedCell(CellPosition(row, col));
        }
        return;
      }
    }
    hint := null;
  }

  /** The row loop of findCompleteLineHint. */
  method CompleteLineRows(board: GameBoard) returns (hint: Hint?)
    requires board.Valid()
    ensures hint == null ==>
      HintRules.CompleteLineHint(board.States(), board.rowClues, board.columnClues, board.rows, board.cols)
      == HintRules.CompleteFromColumn(board.States(), board.rowClues, board.columnClues, board.rows, board.cols, 0)
    ensures hint != null ==>
      fresh(hint) && Some(hint.Value()) == HintRules.CompleteLineHint(board.States(), board.rowClues, board.columnClues, board.rows, board.cols)
  {
    ghost var g := board.States();
    ghost var target := HintRules.CompleteLineHint(g, board.rowClues, board.columnClues, board.rows, board.cols);
    for row := 0 to board.rows
      invariant HintRules.CompleteFromRow(g, board.rowClues, board.columnClues, board.rows, board.cols, row) == target
    {
      hint := CompleteLineAtRow(board, row);
      if hint != null {
        return;
      }
    }
    hint := null;
  }

  /** The column loop of findCompleteLineHint, from column 0. */
  method CompleteLineColumns(board: GameBoard) returns (hint: Hint?)
    requires board.Valid()
    ensures hint == null <==> HintRules.CompleteFromColumn(board.States(), board.rowClues, board.columnClues, board.rows, board.cols, 0).None?
    ensures hint != null ==>
      fresh(hint) && Some(hint.Value()) == HintRules.CompleteFromColumn(board.States(), board.rowClues, board.columnClues, board.rows, board.cols, 0)
  {
    ghost var g := board.States();
    ghost var target := HintRules.CompleteFromColumn(g, board.rowClues, board.columnClues, board.rows, board.cols, 0);
    for col := 0 to board.cols
      invariant HintRules.CompleteFromColumn(g, board.rowClues, board.columnClues, board.rows, board.cols, col) == target
    {
      hint := CompleteLineAtColumn(board, col);
      if hint != null {
        return;
      }
    }
    hint := null;
  }

  /** HintGenerator.findCompleteLineHint: the first qualifying row, else the first qualifying column. */
  method FindCompleteLineHint(board: GameBoard) returns (hint: Hint?)
    requires board.Valid()
    ensures hint == null <==> HintRules.CompleteLineHint(board.States(), board.rowClues, board.columnClues, board.rows, board.cols).None?
    ensures hint != null ==> fresh(hint) && Some(hint.Value()) == HintRules.CompleteLineHint(board.States(), board.rowClues, board.columnClues, board.rows, board.cols)
  {
    hint := CompleteLineRows(board);
    if hint == null {
      hint := CompleteLineColumns(board);
    }
  }

  /** One row of findEdgeDeductionHint. */
  method EdgeDeductionAtRow(board: GameBoard, row: int) returns (hint: Hint?)
    requires board.Valid() && 0 <= row < board.rows
    ensures hint == null ==>
      HintRules.EdgeFromRow(board.States(), board.rowClues, board.columnClues, board.rows, board.cols, row)
      == HintRules.EdgeFromRow(board.States(), board.rowClues, board.columnClues, board.rows, board.cols, row + 1)
    ensures hint != null ==>
      fresh(hint) && Some(hint.Value()) == HintRules.EdgeFromRow(board.States(), board.rowClues, board.columnClues, board.rows, board.cols, row)
  {
    ghost var g := board.States();
    var clues := board.GetRowClues(row).value;
    if |clues| > 0 {
      var firstClue := clues[0];
      var lineLength := board.cols;
      if firstClue > lineLength / 2 {
        var forcedStart := lineLength - firstClue;
        var unknown := ScanRow(board, row, forcedStart, firstClue);
        if unknown.Some? {
          ghost var v := HintValue(EdgeDeduction, HintRules.EdgeMessage(firstClue), row, true, [CellPosition(row, unknown.value)]);
          HintRules.EdgeRowFound(g, board.rowClues, board.columnClues, board.rows, board.cols, row, unknown);
          hint := new Hint(EdgeDeduction, HintRules.EdgeMessage(firstClue), row, true);
          hint.AddAffectedCell(CellPosition(row, unknown.value));
          assert hint.Value() == v;
          return;
        }
      }
    }
    hint := null;
  }

  /** One column of findEdgeDeductionHint. */
  method EdgeDeductionAtColumn(board: GameBoard, col: int) returns (hint: Hint?)
    requires board.Valid() && 0 <= col < board.cols
    ensures hint == null ==>
      HintRules.EdgeFromColumn(board.States(), board.rowClues, board.columnClues, board.rows, board.cols, col)
      == HintRules.EdgeFromColumn(board.States(), board.rowClues, board.columnClues, board.rows, board.cols, col + 1)
    ensures hint != null ==>
      fresh(hint) && Some(hint.Value()) == HintRules.EdgeFromColumn(board.States(), board.rowClues, board.columnClues, board.rows, board.cols, col)
  {
    ghost var g := board.States();
    var clues := board.GetColumnClues(col).value;
    if |clues| > 0 {
      var firstClue := clues[0];
      var lineLength := board.rows;
      if firstClue > lineLength / 2 {
        var forcedStart := lineLength - firstClue;
        var unknown := ScanColumn(board, col, forcedStart, firstClue);
        if unknown.Some? {
          ghost var v := HintValue(EdgeDeduction, HintRules.EdgeMessage(firstClue), col, false, [CellPosition(unknown.value, col)]);
          HintRules.EdgeColumnFound(g, board.rowClues, board.columnClues, board.rows, board.cols, col, unknown);
          hint := new Hint(EdgeDeduction, HintRules.EdgeMessage(firstClue), col, false);
          hint.AddAffectedCell(CellPosition(unknown.value, col));
          assert hint.Value() == v;
          return;
        }
      }
    }
    hint := null;
  }

  /** The row loop of findEdgeDeductionHint. */
  method EdgeDeductionRows(board: GameBoard) returns (hint: Hint?)
    requires board.Valid()
    ensures hint == null ==>
      HintRules.EdgeHint(board.States(), board.rowClues, board.columnClues, board.rows, board.cols)
      == HintRules.EdgeFromColumn(board.States(), board.rowClues, board.columnClues, board.rows, board.cols, 0)
    ensures hint != null ==>
      fresh(hint) && Some(hint.Value()) == HintRules.EdgeHint(board.States(), board.rowClues, board.columnClues, board.rows, board.cols)
  {
    ghost var g := board.States();
    ghost var target := HintRules.EdgeHint(g, board.rowClues, board.columnClues, board.rows, board.cols);
    for row := 0 to board.rows
      invariant HintRules.EdgeFromRow(g, board.rowClues, board.columnClues, board.rows, board.cols, row) == target
    {
      hint := EdgeDeductionAtRow(board, row);
      if hint != null {
        return;
      }
    }
    hint := null;
  }

  /** The column loop of findEdgeDeductionHint, from column 0. */
  method EdgeDeductionColumns(board: GameBoard) returns (hint: Hint?)
    requires board.Valid()
    ensures hint == null <==> HintRules.EdgeFromColumn(board.States(), board.rowClues, board.columnClues, board.rows, board.cols, 0).None?
    ensures hint != null ==>
      fresh(hint) && Some(hint.Value()) == HintRules.EdgeFromColumn(board.States(), board.rowClues, board.columnClues, board.rows, board.cols, 0)
  {
    ghost var g := board.States();
    ghost var target := HintRules.EdgeFromColumn(g, board.rowClues, board.columnClues, board.rows, board.cols, 0);
    for col := 0 to board.cols
      invariant HintRules.EdgeFromColumn(g, board.rowClues, board.columnClues, board.rows, board.cols, col) == target
    {
      hint := EdgeDeductionAtColumn(board, col);
      if hint != null {
        return;
      }
    }
    hint := null;
  }

  /** HintGenerator.findEdgeDeductionHint: rows first, then columns. */
  method FindEdgeDeductionHint(board: GameBoard) returns (hint: Hint?)
    requires board.Valid()
    ensures hint == null <==> HintRules.EdgeHint(board.States(), board.rowClues, board.columnClues, board.rows, board.cols).None?
    ensures hint != null ==> fresh(hint) && Some(hint.Value()) == HintRules.EdgeHint(board.States(), board.rowClues, board.columnClues, board.rows, board.cols)
  {
    hint := EdgeDeductionRows(board);
    if hint == null {
      hint := EdgeDeductionColumns(board);
    }
  }

  /** One row of findOverlapHint. */
  method OverlapAtRow(board: GameBoard, row: int) returns (hint: Hint?)
    requires board.Valid() && 0 <= row < board.rows
    ensures hint == null ==>
      HintRules.OverlapFromRow(board.States(), board.rowClues, board.columnClues, board.rows, board.cols, row)
      == HintRules.OverlapFromRow(board.States(), board.rowClues, board.columnClues, board.rows, board.cols, row + 1)
    ensures hint != null ==>
      fresh(hint) && Some(hint.Value()) == HintRules.OverlapFromRow(board.States(), board.rowClues, board.columnClues, board.rows, board.cols, row)
  {
    ghost var g := board.States();
    var clues := board.GetRowClues(row).value;
    if |clues| == 1 && clues[0] > 0 {
      var clueValue := clues[0];
      var lineLength := board.cols;
      var maxStart := lineLength - clueValue;
      if maxStart < clueValue {
        var unknown := ScanRow(board, row, maxStart, clueValue);
        if unknown.Some? {
          ghost var v := HintValue(OverlapAnalysis, HintRules.OverlapMessage(clueValue), row, true, [CellPosition(row, unknown.value)]);
          HintRules.OverlapRowFound(g, board.rowClues, board.columnClues, board.rows, board.cols, row, unknown);
          hint := new Hint(OverlapAnalysis, HintRules.OverlapMessage(clueValue), row, true);
          hint.AddAffectedCell(CellPosition(row, unknown.value));
          assert hint.Value() == v;
          return;
        }
      }
    }
    hint := null;
  }

  /** HintGenerator.findOverlapHint: rows only. */
  method FindOverlapHint(board: GameBoard) returns (hint: Hint?)
    requires board.Valid()
    ensures hint == null <==> HintRules.OverlapHint(board.States(), board.rowClues, board.columnClues, board.rows, board.cols).None?
    ensures hint != null ==> fresh(hint) && Some(hint.Value()) == HintRules.OverlapHint(board.States(), board.rowClues, board.columnClues, board.rows, board.cols)
  {
    ghost var g := board.States();
    ghost var target := HintRules.OverlapHint(g, board.rowClues, board.columnClues, board.rows, board.cols);
    for row := 0 to board.rows
      invariant board.States() == g
      invariant HintRules.OverlapFromRow(g, board.rowClues, board.columnClues, board.rows, board.cols, row) == target
    {
      hint := OverlapAtRow(board, row);
      if hint != null {
        return;
      }
    }
    hint := null;
  }

  /**
   * HintGenerator.generateHint: complete-line, then edge, then overlap. It
   * reads the board and changes no cell (it has no modifies clause).
   */
  method GenerateHint(board: GameBoard) returns (hint: Hint?)
    requires board.Valid()
    ensures hint == null <==> HintRules.GenerateHint(board.States(), board.rowClues, board.columnClues, board.rows, board.cols).None?
    ensures hint != null ==> fresh(hint) && Some(hint.Value()) == HintRules.GenerateHint(board.States(), board.rowClues, board.columnClues, board.rows, board.cols)
  {
    hint := FindCompleteLineHint(board);
    if hint != null {
      return;
    }
    hint := FindEdgeDeductionHint(board);
    if hint != null {
      return;
    }
    hint := FindOverlapHint(board);
  }
}
