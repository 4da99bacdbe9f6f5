/**
 * Run-length clues of one line of a solution (the inner scan of
 * GameBoard.generateCluesFromSolution). `Runs` is a reference definition
 * written independently of the counter loop: skip a leading false cell, or
 * peel off a whole leading block of true cells.
 */
module Clues {

  /** The length of the block of true cells that `s` starts with. */
  function LeadingTrue(s: seq<bool>): (k: nat)
    ensures k <= |s|
    ensures forall j :: 0 <= j < k ==> s[j]
    ensures k < |s| ==> !s[k]
  {
    if s == [] || !s[0] then 0 else 1 + LeadingTrue(s[1..])
  }

  /** The lengths of the maximal blocks of true cells in `s`, left to right. */
  function Runs(s: seq<bool>): seq<int>
    decreases |s|
  {
    if s == [] then []
    else if !s[0] then Runs(s[1..])
    else
      var k := LeadingTrue(s);
      [k] + Runs(s[k..])
  }

  /** The clue list of a line: its runs, or the single clue 0 for a line with no true cell. */
  function Clue(line: seq<bool>): (c: seq<int>)
    ensures |c| > 0 && forall i :: 0 <= i < |c| ==> 0 <= c[i] <= |line|
  {
    RunsBounded(line);
    var runs := Runs(line);
    if runs == [] then [0] else runs
  }

  /** `k` true cells in a row. */
  function Trues(k: nat): (s: seq<bool>)
    ensures |s| == k && forall j :: 0 <= j < k ==> s[j]
  {
    seq(k, _ => true)
  }

  function CountTrue(s: seq<bool>): (n: nat)
    ensures n <= |s|
  {
    if s == [] then 0 else (if s[0] then 1 else 0) + CountTrue(s[1..])
  }

  function Sum(xs: seq<int>): int
  {
    if xs == [] then 0 else xs[0] + Sum(xs[1..])
  }

  /** Number of maximal blocks of true cells, counted at the cell where each block ends. */
  function RunStarts(s: seq<bool>): nat
  {
    if s == [] then 0
    else (if s[0] && (|s| == 1 || !s[1]) then 1 else 0) + RunStarts(s[1..])
  }

  /** Cells of column `c` of a grid, top to bottom. */
  function Column<T>(grid: seq<seq<T>>, c: nat): (col: seq<T>)
    requires forall r :: 0 <= r < |grid| ==> c < |grid[r]|
    ensures |col| == |grid| && forall r :: 0 <= r < |grid| ==> col[r] == grid[r][c]
  {
    seq(|grid|, r requires 0 <= r < |grid| => grid[r][c])
  }

  // ---------------------------------------------------------------------------
  // What a clue list says about its line
  // ---------------------------------------------------------------------------

  /** Every run is a positive length, and the runs are exactly the maximal blocks counted by RunStarts. */
  lemma {:induction false} RunsPositive(s: seq<bool>)
    ensures forall i :: 0 <= i < |Runs(s)| ==> Runs(s)[i] > 0
    decreases |s|
  {
    if s == [] {
    } else if !s[0] {
      RunsPositive(s[1..]);
    } else {
      RunsPositive(s[LeadingTrue(s)..]);
    }
  }

  lemma {:induction false} CountTrueAppend(a: seq<bool>, b: seq<bool>)
    ensures CountTrue(a + b) == CountTrue(a) + CountTrue(b)
    decreases |a|
  {
    if a == [] {
      assert a + b == b;
    } else {
      assert (a + b)[1..] == a[1..] + b;
      CountTrueAppend(a[1..], b);
    }
  }

  lemma {:induction false} CountTrues(k: nat)
    ensures CountTrue(Trues(k)) == k
  {
    if k > 0 {
      assert Trues(k)[1..] == Trues(k - 1);
      CountTrues(k - 1);
    }
  }

  /** The runs add up to the number of true cells in the line. */
  lemma {:induction false} RunsSum(s: seq<bool>)
    ensures Sum(Runs(s)) == CountTrue(s)
    decreases |s|
  {
    if s == [] {
    } else if !s[0] {
      RunsSum(s[1..]);
    } else {
      var k := LeadingTrue(s);
      assert s == s[..k] + s[k..];
      assert s[..k] == Trues(k);
      CountTrueAppend(s[..k], s[k..]);
      CountTrues(k);
      RunsSum(s[k..]);
      assert ([k] + Runs(s[k..]))[1..] == Runs(s[k..]);
    }
  }

  /** There are no runs exactly when the line has no true cell. */
  lemma {:induction false} RunsEmptyIff(s: seq<bool>)
    ensures Runs(s) == [] <==> forall j :: 0 <= j < |s| ==> !s[j]
    decreases |s|
  {
    if s == [] {
    } else if !s[0] {
      RunsEmptyIff(s[1..]);
      assert forall j :: 1 <= j < |s| ==> s[j] == s[1..][j - 1];
    } else {
      RunsEmptyIff(s[LeadingTrue(s)..]);
    }
  }

  /** The number of runs is the number of maximal blocks of true cells. */
  lemma {:induction false} RunsCount(s: seq<bool>)
    ensures |Runs(s)| == RunStarts(s)
    decreases |s|
  {
    if s == [] {
    } else if !s[0] {
      RunsCount(s[1..]);
    } else {
      var k := LeadingTrue(s);
      RunsCount(s[k..]);
      TrueBlockStarts(s, k);
    }
  }

  /** Inside a leading block of k true cells exactly one block begins. */
  lemma {:induction false} TrueBlockStarts(s: seq<bool>, k: nat)
    requires 0 < k <= |s| && forall j :: 0 <= j < k ==> s[j]
    requires k < |s| ==> !s[k]
    ensures RunStarts(s) == 1 + RunStarts(s[k..])
    decreases k
  {
    if k == 1 {
    } else {
      TrueBlockStarts(s[1..], k - 1);
      assert s[1..][k - 1..] == s[k..];
    }
  }

  /** The blocks and the single gaps between them fit in the line. */
  lemma {:induction false} RunsFit(s: seq<bool>)
    ensures Sum(Runs(s)) + |Runs(s)| <= |s| + 1
    decreases |s|
  {
    if s == [] {
    } else if !s[0] {
      RunsFit(s[1..]);
    } else {
      var k := LeadingTrue(s);
      RunsFit(s[k..]);
      assert ([k] + Runs(s[k..]))[1..] == Runs(s[k..]);
      if k < |s| {
        assert Runs(s[k..]) == Runs(s[k..][1..]);
        assert s[k..][1..] == s[k + 1..];
        RunsFit(s[k + 1..]);
      }
    }
  }

  /** No run is longer than the line. */
  lemma RunsBounded(s: seq<bool>)
    ensures forall i :: 0 <= i < |Runs(s)| ==> 0 < Runs(s)[i] <= |s|
  {
    RunsPositive(s);
    RunsFit(s);
    forall i | 0 <= i < |Runs(s)| ensures Runs(s)[i] <= Sum(Runs(s)) {
      SumBoundsEntry(Runs(s), i);
    }
  }

  lemma {:induction false} SumBoundsEntry(xs: seq<int>, i: nat)
    requires i < |xs| && forall j :: 0 <= j < |xs| ==> xs[j] > 0
    ensures xs[i] <= Sum(xs)
  {
    if i > 0 {
      SumBoundsEntry(xs[1..], i - 1);
    } else if |xs| > 1 {
      SumBoundsEntry(xs[1..], 0);
    }
  }

  /** Where the first run lies: a block of Runs(s)[0] true cells that ends inside the line. */
  lemma {:induction false} FirstRunAt(s: seq<bool>) returns (start: nat)
    requires Runs(s) != []
    ensures start + Runs(s)[0] <= |s|
    ensures forall j :: start <= j < start + Runs(s)[0] ==> s[j]
    decreases |s|
  {
    if !s[0] {
      var st := FirstRunAt(s[1..]);
      start := st + 1;
    } else {
      start := 0;
    }
  }

  /** The properties a derived clue list has, collected. */
  lemma ClueFacts(line: seq<bool>)
    ensures Clue(line) != []
    ensures Clue(line) == [0] <==> forall j :: 0 <= j < |line| ==> !line[j]
    ensures Clue(line) != [0] ==> Clue(line) == Runs(line) && Sum(Clue(line)) == CountTrue(line)
    ensures Clue(line) != [0] ==> forall i :: 0 <= i < |Clue(line)| ==> 0 < Clue(line)[i] <= |line|
    ensures 0 <= Clue(line)[0] <= |line|
  {
    RunsEmptyIff(line);
    RunsSum(line);
    RunsBounded(line);
    if Runs(line) != [] {
      assert Runs(line)[0] > 0;
    }
  }

  /** A line whose clue list is [length of the line] is entirely true. */
  lemma FullClueMeansAllTrue(line: seq<bool>)
    requires Clue(line) == [|line|]
    ensures forall j :: 0 <= j < |line| ==> line[j]
  {
    if Runs(line) != [] {
      var start := FirstRunAt(line);
    }
  }

  /**
   * The classic overlap deduction: when the first clue c exceeds half the line,
   * the cells in [|line| - c, c) are true.
   */
  lemma FirstClueOverlap(line: seq<bool>, j: int)
    requires Clue(line)[0] > 0
    requires |line| - Clue(line)[0] <= j < Clue(line)[0]
    ensures 0 <= j < |line| && line[j]
  {
    var start := FirstRunAt(line);
  }

  // ---------------------------------------------------------------------------
  // Lemmas for the counter loop
  // ---------------------------------------------------------------------------

  lemma {:induction false} LeadingTrueAppend(a: seq<bool>, b: seq<bool>)
    requires LeadingTrue(a) < |a| || b == [] || !b[0]
    ensures LeadingTrue(a + b) == LeadingTrue(a)
    decreases |a|
  {
    if a == [] {
      assert a + b == b;
    } else if a[0] {
      assert (a + b)[1..] == a[1..] + b;
      LeadingTrueAppend(a[1..], b);
    }
  }

  /** Runs of a concatenation split when the cut does not fall inside a block. */
  lemma {:induction false} RunsAppend(a: seq<bool>, b: seq<bool>)
    requires a == [] || b == [] || !a[|a| - 1] || !b[0]
    ensures Runs(a + b) == Runs(a) + Runs(b)
    decreases |a|
  {
    if a == [] {
      assert a + b == b;
    } else if !a[0] {
      assert (a + b)[1..] == a[1..] + b;
      RunsAppend(a[1..], b);
    } else {
      var k := LeadingTrue(a);
      LeadingTrueAppend(a, b);
      assert (a + b)[k..] == a[k..] + b;
      RunsAppend(a[k..], b);
    }
  }

  lemma RunsOfTrues(k: nat)
    ensures Runs(Trues(k)) == if k == 0 then [] else [k]
  {
    if k > 0 {
      LeadingTrueAppend(Trues(k), []);
      assert LeadingTrue(Trues(k)) == k by {
        assert Trues(k) + [] == Trues(k);
      }
      assert Trues(k)[k..] == [];
    }
  }

  /** The effect of one false cell on the scan: the pending block (if any) becomes a run. */
  lemma CloseBlock(p: seq<bool>, count: nat)
    requires p == [] || !p[|p| - 1]
    ensures Runs(p + Trues(count) + [false]) == Runs(p) + (if count > 0 then [count] else [])
  {
    var q := Trues(count) + [false];
    assert p + Trues(count) + [false] == p + q;
    RunsAppend(p, q);
    RunsAppend(Trues(count), [false]);
    RunsOfTrues(count);
    assert [false][1..] == [];
    assert Runs([false]) == [];
  }

  /** The block still pending at the end of the line. */
  lemma FinishBlock(p: seq<bool>, count: nat)
    requires p == [] || !p[|p| - 1]
    ensures Runs(p + Trues(count)) == Runs(p) + (if count > 0 then [count] else [])
  {
    RunsAppend(p, Trues(count));
    RunsOfTrues(count);
  }

  /**
   * The counter loop of generateCluesFromSolution on one line: count the
   * current block, emit it at each false cell and at the end, and fall back
   * to [0] when nothing was emitted.
   */
  method LineClue(line: seq<bool>) returns (clues: seq<int>)
    ensures clues == Clue(line)
  {
    clues := [];
    var count: nat := 0;
    var i := 0;
    while i < |line|
      invariant 0 <= count <= i <= |line|
      invariant forall j :: i - count <= j < i ==> line[j]
      invariant i - count == 0 || !line[i - count - 1]
      invariant clues == Runs(line[..i - count])
    {
      ghost var p := line[..i - count];
      assert line[i - count..i] == Trues(count);
      assert line[..i] == p + Trues(count);
      if line[i] {
        count := count + 1;
      } else {
        CloseBlock(p, count);
        assert line[..i + 1] == p + Trues(count) + [false];
        if count > 0 {
          clues := clues + [count];
          count := 0;
        }
      }
      i := i + 1;
    }
    ghost var p := line[..i - count];
    assert line[i - count..i] == Trues(count);
    assert line == p + Trues(count);
    FinishBlock(p, count);
    if count > 0 {
      clues := clues + [count];
    }
    if clues == [] {
      clues := [0];
    }
  }
}
