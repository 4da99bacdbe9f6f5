/**
 * The move log and game status (model/GameState.java): two stacks of moves
 * for linear undo/redo, a completion flag, timing, hint count and lives.
 * The pure functions below give the meaning of each operation on a value
 * snapshot; the GameState class is proved to follow them.
 */
module GameRules {
  import opened Wrappers
  import opened Cells
  import opened Positions
  import opened Moves
  import opened Board

  /** The number of lives a game starts with. */
  const INITIAL_LIVES: int := 3

  /** Everything GameState observes, as a value. Both stacks are listed top first. */
  datatype Snapshot = Snapshot(
    grid: Grid,
    history: seq<Move>,
    redo: seq<Move>,
    complete: bool,
    startTime: int,
    endTime: int,
    hintsUsed: int,
    lives: int)

  predicate InGrid(g: Grid, p: CellPosition)
  {
    0 <= p.row < |g| && 0 <= p.col < |g[p.row]|
  }

  /** CellPosition.isValid against the board's size is exactly being on the board's grid. */
  lemma ValidIffInGrid(g: Grid, p: CellPosition, rows: nat, cols: nat)
    requires IsGrid(g, rows, cols)
    ensures IsValid(p, rows, cols) <==> InGrid(g, p)
  {
  }

  /** The grid with one cell's state replaced. */
  function SetCell(g: Grid, p: CellPosition, s: CellState): Grid
    requires InGrid(g, p)
  {
    g[p.row := g[p.row][p.col := s]]
  }

  /** SetCell changes exactly the one named cell and keeps the shape. */
  lemma SetCellChanges(g: Grid, p: CellPosition, s: CellState)
    requires InGrid(g, p)
    ensures var h := SetCell(g, p, s);
      && |h| == |g| && (forall r :: 0 <= r < |g| ==> |h[r]| == |g[r]|)
      && h[p.row][p.col] == s
      && forall r, c :: 0 <= r < |g| && 0 <= c < |g[r]| && (r != p.row || c != p.col) ==> h[r][c] == g[r][c]
  {
  }

  /** Writing back the state a cell had restores the grid. */
  lemma SetCellRestores(g: Grid, p: CellPosition, s: CellState)
    requires InGrid(g, p)
    ensures SetCell(SetCell(g, p, s), p, g[p.row][p.col]) == g
  {
    var h := SetCell(SetCell(g, p, s), p, g[p.row][p.col]);
    forall r | 0 <= r < |g| ensures h[r] == g[r] {
      assert forall c :: 0 <= c < |g[r]| ==> h[r][c] == g[r][c];
    }
  }

  /**
   * Undoing the history one move at a time is possible and consistent: the top
   * move's cell shows its new state, and after restoring its old state the
   * rest of the history is consistent in turn.
   */
  ghost predicate UndoChain(g: Grid, history: seq<Move>)
    decreases |history|
  {
    history == [] ||
    (InGrid(g, history[0].position)
     && g[history[0].position.row][history[0].position.col] == history[0].newState
     && UndoChain(SetCell(g, history[0].position, history[0].oldState), history[1..]))
  }

  /** Redoing the redo stack one move at a time is possible and consistent. */
  ghost predicate RedoChain(g: Grid, redo: seq<Move>)
    decreases |redo|
  {
    redo == [] ||
    (InGrid(g, redo[0].position)
     && g[redo[0].position.row][redo[0].position.col] == redo[0].oldState
     && RedoChain(SetCell(g, redo[0].position, redo[0].newState), redo[1..]))
  }

  /** The invariant GameState keeps: both stacks replay consistently against the board. */
  ghost predicate Consistent(st: Snapshot)
  {
    UndoChain(st.grid, st.history) && RedoChain(st.grid, st.redo)
  }

  /** The shape of a solution that belongs to the grid. */
  predicate Fits(st: Snapshot, solution: seq<seq<bool>>)
  {
    && IsGrid(st.grid, |st.grid|, if st.grid == [] then 0 else |st.grid[0]|)
    && IsGrid(solution, |st.grid|, if st.grid == [] then 0 else |st.grid[0]|)
  }

  /** A new game: empty stacks, not complete, no hints, three lives. */
  function Initial(grid: Grid, now: int): Snapshot
  {
    Snapshot(grid, [], [], false, now, 0, 0, INITIAL_LIVES)
  }

  /** GameState.checkCompletion: set the flag and stop the clock when the board is solved; never clears. */
  function CheckCompletion(st: Snapshot, solution: seq<seq<bool>>, now: int): (r: Snapshot)
    requires Fits(st, solution)
    ensures r.complete == (st.complete || Solved(st.grid, solution))
    ensures r.(complete := st.complete, endTime := st.endTime) == st
    ensures r.endTime == (if Solved(st.grid, solution) then now else st.endTime)
  {
    if Solved(st.grid, solution) then st.(complete := true, endTime := now) else st
  }

  /** GameState.makeMove on a position inside the board. */
  function MakeMove(st: Snapshot, solution: seq<seq<bool>>, p: CellPosition, s: CellState, now: int): (r: Snapshot)
    requires Fits(st, solution) && InGrid(st.grid, p)
    ensures Fits(r, solution)
    ensures s == st.grid[p.row][p.col] ==> r == st
    ensures s != st.grid[p.row][p.col] ==>
      && r.grid == SetCell(st.grid, p, s)
      && r.history == [Move(p, st.grid[p.row][p.col], s)] + st.history
      && r.redo == []
      && r.complete == (st.complete || Solved(r.grid, solution))
      && r.endTime == (if Solved(r.grid, solution) then now else st.endTime)
      && r.(grid := st.grid, history := st.history, redo := st.redo, complete := st.complete, endTime := st.endTime) == st
  {
    var oldState := st.grid[p.row][p.col];
    if oldState == s then st
    else
      var moved := st.(grid := SetCell(st.grid, p, s), history := [Move(p, oldState, s)] + st.history, redo := []);
      CheckCompletion(moved, solution, now)
  }

  /** GameState.undo: pop the last move onto the redo stack and restore its old state; clears completion. */
  function Undo(st: Snapshot): (r: Snapshot)
    requires st.history != [] ==> InGrid(st.grid, st.history[0].position)
    ensures st.history == [] ==> r == st
    ensures st.history != [] ==>
      var m := st.history[0];
      && r.grid == SetCell(st.grid, m.position, m.oldState)
      && r.history == st.history[1..]
      && r.redo == [m] + st.redo
      && !r.complete
      && r.endTime == (if st.complete then 0 else st.endTime)
      && r.(grid := st.grid, history := st.history, redo := st.redo, complete := st.complete, endTime := st.endTime) == st
  {
    if st.history == [] then st
    else
      var m := st.history[0];
      var popped := st.(grid := SetCell(st.grid, m.position, m.oldState), history := st.history[1..], redo := [m] + st.redo);
      Reopen(popped)
  }

  /** The tail of GameState.undo: a complete game becomes incomplete again, with its end time cleared. */
  function Reopen(st: Snapshot): (r: Snapshot)
    ensures !r.complete && r.endTime == (if st.complete then 0 else st.endTime)
    ensures r.(complete := st.complete, endTime := st.endTime) == st
  {
    if st.complete then st.(complete := false, endTime := 0) else st
  }

  /** GameState.redo: move the top redo entry back to the history and re-apply its new state. */
  function Redo(st: Snapshot, solution: seq<seq<bool>>, now: int): (r: Snapshot)
    requires Fits(st, solution)
    requires st.redo != [] ==> InGrid(st.grid, st.redo[0].position)
    ensures Fits(r, solution)
    ensures st.redo == [] ==> r == st
    ensures st.redo != [] ==>
      var m := st.redo[0];
      && r.grid == SetCell(st.grid, m.position, m.newState)
      && r.history == [m] + st.history
      && r.redo == st.redo[1..]
      && r.complete == (st.complete || Solved(r.grid, solution))
      && r.endTime == (if Solved(r.grid, solution) then now else st.endTime)
      && r.(grid := st.grid, history := st.history, redo := st.redo, complete := st.complete, endTime := st.endTime) == st
  {
    if st.redo == [] then st
    else
      var m := st.redo[0];
      var moved := st.(grid := SetCell(st.grid, m.position, m.newState), history := [m] + st.history, redo := st.redo[1..]);
      CheckCompletion(moved, solution, now)
  }

  /** GameState.loseLife: one life fewer, never below zero. */
  function LoseLife(st: Snapshot): (r: Snapshot)
    ensures st.lives > 0 ==> r.lives == st.lives - 1
    ensures st.lives <= 0 ==> r.lives == st.lives
    ensures st.lives >= 0 ==> r.lives >= 0
    ensures r.(lives := st.lives) == st
  {
    if st.lives > 0 then st.(lives := st.lives - 1) else st
  }

  /** GameState.hasLives. */
  predicate HasLives(st: Snapshot)
  {
    st.lives > 0
  }

  /** GameState.reset: the initial status again, with a blank board of the same size. */
  function Reset(st: Snapshot, rows: nat, cols: nat, now: int): (r: Snapshot)
    ensures r == Initial(Blank(rows, cols), now)
    ensures r.history == [] && r.redo == [] && !r.complete && r.hintsUsed == 0 && r.lives == INITIAL_LIVES
  {
    Snapshot(Blank(rows, cols), [], [], false, now, 0, 0, INITIAL_LIVES)
  }

  // ---------------------------------------------------------------------------
  // Laws of the move log
  // ---------------------------------------------------------------------------

  /** A move that changed a cell, followed by undo, restores the board and the move count. */
  lemma MoveThenUndo(st: Snapshot, solution: seq<seq<bool>>, p: CellPosition, s: CellState, now: int)
    requires Fits(st, solution) && InGrid(st.grid, p) && s != st.grid[p.row][p.col]
    ensures var r := Undo(MakeMove(st, solution, p, s, now));
      r.grid == st.grid && r.history == st.history && r.redo == [Move(p, st.grid[p.row][p.col], s)]
  {
    SetCellRestores(st.grid, p, s);
  }

  /** Undo followed by redo restores the board, both stacks and the move count. */
  lemma UndoThenRedo(st: Snapshot, solution: seq<seq<bool>>, now: int)
    requires Fits(st, solution) && Consistent(st) && st.history != []
    ensures InGrid(st.grid, st.history[0].position)
    ensures var u := Undo(st);
      Fits(u, solution) && u.redo != [] && InGrid(u.grid, u.redo[0].position)
    ensures var r := Redo(Undo(st), solution, now);
      r.grid == st.grid && r.history == st.history && r.redo == st.redo
  {
    var m := st.history[0];
    assert st.grid[m.position.row][m.position.col] == m.newState;
    SetCellRestores(st.grid, m.position, m.oldState);
    assert ([m] + st.redo)[1..] == st.redo;
    assert [m] + st.history[1..] == st.history;
  }

  /** Every operation keeps both stacks replayable against the board. */
  lemma MakeMoveKeepsConsistent(st: Snapshot, solution: seq<seq<bool>>, p: CellPosition, s: CellState, now: int)
    requires Fits(st, solution) && InGrid(st.grid, p) && Consistent(st)
    ensures Consistent(MakeMove(st, solution, p, s, now))
  {
    var old_ := st.grid[p.row][p.col];
    if s != old_ {
      var r := MakeMove(st, solution, p, s, now);
      SetCellRestores(st.grid, p, s);
      assert r.history[1..] == st.history;
      assert UndoChain(r.grid, r.history);
    }
  }

  lemma UndoKeepsConsistent(st: Snapshot)
    requires Consistent(st)
    ensures st.history != [] ==> InGrid(st.grid, st.history[0].position)
    ensures Consistent(Undo(st))
  {
    if st.history != [] {
      var m := st.history[0];
      var r := Undo(st);
      SetCellRestores(st.grid, m.position, m.oldState);
      assert r.redo[1..] == st.redo;
      assert RedoChain(r.grid, r.redo);
    }
  }

  lemma RedoKeepsConsistent(st: Snapshot, solution: seq<seq<bool>>, now: int)
    requires Fits(st, solution) && Consistent(st)
    ensures st.redo != [] ==> InGrid(st.grid, st.redo[0].position)
    ensures Consistent(Redo(st, solution, now))
  {
    if st.redo != [] {
      var m := st.redo[0];
      var r := Redo(st, solution, now);
      SetCellRestores(st.grid, m.position, m.newState);
      assert r.history[1..] == st.history;
      assert UndoChain(r.grid, r.history);
    }
  }

  /** A move made after an undo empties the redo stack, so a following redo does nothing. */
  lemma NewMoveDisablesRedo(st: Snapshot, solution: seq<seq<bool>>, p: CellPosition, s: CellState, now: int)
    requires Fits(st, solution) && InGrid(st.grid, p) && s != st.grid[p.row][p.col]
    ensures var r := MakeMove(st, solution, p, s, now);
      r.redo == [] && Redo(r, solution, now) == r
  {
  }

  /** The completion flag is only ever cleared by undo (and reset). */
  lemma CompletionOnlyClearedByUndo(st: Snapshot, solution: seq<seq<bool>>, p: CellPosition, s: CellState, now: int)
    requires Fits(st, solution) && InGrid(st.grid, p)
    requires st.redo != [] ==> InGrid(st.grid, st.redo[0].position)
    ensures st.complete ==> MakeMove(st, solution, p, s, now).complete && Redo(st, solution, now).complete
    ensures MakeMove(st, solution, p, s, now).complete ==> st.complete || Solved(MakeMove(st, solution, p, s, now).grid, solution)
    ensures Redo(st, solution, now).complete ==> st.complete || Solved(Redo(st, solution, now).grid, solution)
  {
  }

  /** Three lost lives from a new game leave none, and a fourth loss changes nothing. */
  lemma {:induction false} LivesRunOut(grid: Grid, now: int)
    ensures var st := LoseLife(LoseLife(LoseLife(Initial(grid, now))));
      !HasLives(st) && st.lives == 0 && LoseLife(st) == st
  {
  }

  /** hasLives holds exactly while the counter, which never goes negative, is positive. */
  lemma HasLivesIff(st: Snapshot, k: nat)
    requires 0 <= st.lives
    ensures var r := LoseLifeTimes(st, k);
      r.lives == (if k < st.lives then st.lives - k else 0) && (HasLives(r) <==> k < st.lives)
  {
    if k > 0 {
      HasLivesIff(st, k - 1);
    }
  }

  function LoseLifeTimes(st: Snapshot, k: nat): Snapshot
  {
    if k == 0 then st else LoseLife(LoseLifeTimes(st, k - 1))
  }
}

module Game {
  import opened Wrappers
  import opened Cells
  import opened Positions
  import opened Moves
  import opened Board
  import opened Stacks
  import opened GameRules

  // ---------------------------------------------------------------------------
  // The stateful GameState
  // ---------------------------------------------------------------------------

  class GameState {
    const board: GameBoard
    const moveHistory: MyStack<Move>
    const redoStack: MyStack<Move>
    var isComplete: bool
    var startTime: int
    var endTime: int
    var hintsUsed: int
    var lives: int

    ghost predicate Valid()
      reads this, board.Repr, moveHistory, redoStack
    {
      && board.Valid()
      && moveHistory.Valid() && redoStack.Valid() && moveHistory != redoStack
      && Consistent(Abstract())
    }

    /** The game as a value. */
    ghost function Abstract(): (st: Snapshot)
      requires board.Valid()
      reads this, board.Repr, moveHistory, redoStack
      ensures IsGrid(st.grid, board.rows, board.cols)
    {
      Snapshot(board.States(), moveHistory.Contents, redoStack.Contents, isComplete, startTime, endTime, hintsUsed, lives)
    }

    constructor (board: GameBoard, now: int)
      requires board.Valid()
      ensures Valid() && this.board == board
      ensures Abstract() == Initial(old(board.States()), now)
      ensures fresh(moveHistory) && fresh(redoStack)
    {
      this.board := board;
      moveHistory := new MyStack<Move>();
      redoStack := new MyStack<Move>();
      isComplete := false;
      startTime := now;
      endTime := 0;
      hintsUsed := 0;
      lives := INITIAL_LIVES;
    }

    /** GameState.makeMove; an out-of-range position throws from getCell before anything changes. */
    method MakeMove(position: CellPosition, newState: CellState, now: int) returns (res: Result<()>)
      requires Valid()
      modifies this, board.Repr, moveHistory, redoStack
      ensures Valid()
      ensures !InGrid(old(Abstract()).grid, position) ==> res == Err(IndexOutOfBounds) && Abstract() == old(Abstract())
      ensures InGrid(old(Abstract()).grid, position) ==>
        res == Ok(()) && Abstract() == GameRules.MakeMove(old(Abstract()), board.solution, position, newState, now)
    {
      var found := board.GetCell(position.row, position.col);
      if found.Err? {
        return Err(found.error);
      }
      ghost var before := Abstract();
      var cell := found.value;
      var oldState := cell.state;
      if oldState != newState {
        moveHistory.Push(Move(position, oldState, newState));
        redoStack.Clear();
        assert board.States() == before.grid;
        board.SetCellState(position.row, position.col, newState);
        ghost var moved := before.(grid := SetCell(before.grid, position, newState),
                                   history := [Move(position, oldState, newState)] + before.history, redo := []);
        assert Abstract() == moved;
        CheckCompletion(now);
        MakeMoveKeepsConsistent(before, board.solution, position, newState, now);
      }
      assert Abstract() == GameRules.MakeMove(before, board.solution, position, newState, now);
      return Ok(());
    }

    /** GameState.checkCompletion. */
    method CheckCompletion(now: int)
      requires board.Valid()
      modifies this
      ensures Abstract() == GameRules.CheckCompletion(old(Abstract()), board.solution, now)
    {
      var solved := board.IsSolved();
      if solved {
        isComplete := true;
        endTime := now;
      }
    }

    function CanUndo(): (can: bool)
      requires Valid()
      reads this, board.Repr, moveHistory, redoStack
      ensures can <==> Abstract().history != []
    {
      !moveHistory.IsEmpty()
    }

    function CanRedo(): (can: bool)
      requires Valid()
      reads this, board.Repr, moveHistory, redoStack
      ensures can <==> Abstract().redo != []
    {
      !redoStack.IsEmpty()
    }

    /** GameState.getMoveCount: the height of the history stack. */
    function GetMoveCount(): (n: int)
      requires Valid()
      reads this, board.Repr, moveHistory, redoStack
      ensures n == |Abstract().history|
    {
      moveHistory.Size()
    }

    /** GameState.undo. */
    method Undo()
      requires Valid()
      modifies this, board.Repr, moveHistory, redoStack
      ensures Valid()
      ensures Abstract() == GameRules.Undo(old(Abstract()))
    {
      ghost var before := Abstract();
      UndoKeepsConsistent(before);
      if CanUndo() {
        var popped := moveHistory.Pop();
        var move := popped.value;
        redoStack.Push(move);
        assert board.States() == before.grid;
        board.SetCellState(move.position.row, move.position.col, move.oldState);
        ghost var undone := before.(grid := SetCell(before.grid, move.position, move.oldState),
                                    history := before.history[1..], redo := [move] + before.redo);
        assert Abstract() == undone;
        Reopen();
      }
    }

    /** The completion reset at the end of GameState.undo. */
    method Reopen()
      requires board.Valid()
      modifies this
      ensures Abstract() == GameRules.Reopen(old(Abstract()))
    {
      if isComplete {
        isComplete := false;
        endTime := 0;
      }
    }

    /** GameState.redo. */
    method Redo(now: int)
      requires Valid()
      modifies this, board.Repr, moveHistory, redoStack
      ensures Valid()
      ensures Abstract() == GameRules.Redo(old(Abstract()), board.solution, now)
    {
      ghost var before := Abstract();
      RedoKeepsConsistent(before, board.solution, now);
      if CanRedo() {
        var popped := redoStack.Pop();
        var move := popped.value;
        moveHistory.Push(move);
        assert board.States() == before.grid;
        board.SetCellState(move.position.row, move.position.col, move.newState);
        ghost var moved := before.(grid := SetCell(before.grid, move.position, move.newState),
                                   history := [move] + before.history, redo := before.redo[1..]);
        assert Abstract() == moved;
        CheckCompletion(now);
      }
      assert Abstract() == GameRules.Redo(before, board.solution, now);
    }

    method IncrementHintsUsed()
      requires Valid()
      modifies this
      ensures Valid()
      ensures Abstract() == old(Abstract()).(hintsUsed := old(hintsUsed) + 1)
    {
      hintsUsed := hintsUsed + 1;
    }

    /** GameState.loseLife. */
    method LoseLife()
      requires Valid()
      modifies this
      ensures Valid()
      ensures Abstract() == GameRules.LoseLife(old(Abstract()))
    {
      if lives > 0 {
        lives := lives - 1;
      }
    }

    function HasLives(): (has: bool)
      requires Valid()
      reads this, board.Repr, moveHistory, redoStack
      ensures has <==> GameRules.HasLives(Abstract())
    {
      lives > 0
    }

    /** Milliseconds played: frozen at endTime once complete, otherwise measured against `now`. */
    function ElapsedTime(now: int): int
      reads this
    {
      if endTime > 0 then endTime - startTime else now - startTime
    }

    /** The loop in GameState.reset that sets every cell of the board to Unknown. */
    method SetAllUnknown()
      requires board.Valid()
      modifies board.Repr
      ensures board.States() == Blank(board.rows, board.cols)
      ensures unchanged(this, moveHistory, redoStack)
    {
      for row := 0 to board.rows
        modifies board.Repr
        invariant forall i, j :: 0 <= i < row && 0 <= j < board.cols ==> board.cells[i][j].state == Unknown
      {
        for col := 0 to board.cols
          modifies board.Repr
          invariant forall i, j :: 0 <= i < row && 0 <= j < board.cols ==> board.cells[i][j].state == Unknown
          invariant forall j :: 0 <= j < col ==> board.cells[row][j].state == Unknown
        {
          var cell := board.GetCell(row, col).value;
          cell.SetState(Unknown);
        }
      }
      board.AllUnknownIsBlank();
    }

    /** GameState.reset: both stacks emptied, status fields re-initialised, every cell Unknown. */
    method Reset(now: int)
      requires Valid()
      modifies this, board.Repr, moveHistory, redoStack
      ensures Valid()
      ensures Abstract() == GameRules.Reset(old(Abstract()), board.rows, board.cols, now)
    {
      moveHistory.Clear();
      redoStack.Clear();
      isComplete := false;
      startTime := now;
      endTime := 0;
      hintsUsed := 0;
      lives := INITIAL_LIVES;
      SetAllUnknown();
    }
  }
}
