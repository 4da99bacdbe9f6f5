/** The four puzzle sizes (model/Difficulty.java). */
module Difficulties {

  datatype Difficulty = Easy | Medium | Hard | Expert

  function Rows(d: Difficulty): (r: int)
    ensures r in {5, 10, 15, 20}
  {
    match d
    case Easy => 5
    case Medium => 10
    case Hard => 15
    case Expert => 20
  }

  function Cols(d: Difficulty): (c: int)
    ensures c == Rows(d)
  {
    match d
    case Easy => 5
    case Medium => 10
    case Hard => 15
    case Expert => 20
  }

  /** Difficulty.getDisplayName: a non-empty, capitalised name. */
  function DisplayName(d: Difficulty): (name: string)
    ensures |name| > 0 && 'A' <= name[0] <= 'Z'
  {
    match d
    case Easy => "Easy"
    case Medium => "Medium"
    case Hard => "Hard"
    case Expert => "Expert"
  }

  /** No two difficulties share a display name. */
  lemma DisplayNamesDistinct(d: Difficulty, e: Difficulty)
    ensures DisplayName(d) == DisplayName(e) ==> d == e
  {
  }

  /** Difficulty.getTotalCells: rows times columns. */
  function TotalCells(d: Difficulty): (n: int)
    ensures n == Rows(d) * Rows(d)
    ensures n in {25, 100, 225, 400}
  {
    Rows(d) * Cols(d)
  }

  /** The table, one difficulty at a time. */
  lemma DifficultyTable()
    ensures Rows(Easy) == 5 && TotalCells(Easy) == 25
    ensures Rows(Medium) == 10 && TotalCells(Medium) == 100
    ensures Rows(Hard) == 15 && TotalCells(Hard) == 225
    ensures Rows(Expert) == 20 && TotalCells(Expert) == 400
  {
  }
}
