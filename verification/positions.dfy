/** Grid coordinates as a value type (model/CellPosition.java). */
module Positions {

  /** A (row, col) pair compared by value. */
  datatype CellPosition = CellPosition(row: int, col: int)

  const TWO_TO_32: int := 0x1_0000_0000
  const TWO_TO_31: int := 0x8000_0000

  /** Java's 32-bit `int`. */
  predicate IsInt32(x: int)
  {
    -TWO_TO_31 <= x < TWO_TO_31
  }

  /** Java's wrap-around of an int expression into 32 bits. */
  function Wrap32(x: int): (r: int)
    ensures IsInt32(r)
    ensures (r - x) % TWO_TO_32 == 0
    ensures IsInt32(x) ==> r == x
  {
    (x + TWO_TO_31) % TWO_TO_32 - TWO_TO_31
  }

  /** CellPosition.equals for two positions. */
  predicate Equals(p: CellPosition, q: CellPosition): (r: bool)
    ensures r <==> p == q
  {
    p.row == q.row && p.col == q.col
  }

  /** `equals` is value equality, hence reflexive and symmetric. */
  lemma EqualsIsValueEquality(p: CellPosition, q: CellPosition)
    ensures Equals(p, q) <==> p == q
    ensures Equals(p, p)
    ensures Equals(p, q) == Equals(q, p)
  {
  }

  /** CellPosition.hashCode: `row * 31 + col` in 32-bit arithmetic. */
  function HashCode(p: CellPosition): (h: int)
    requires IsInt32(p.row) && IsInt32(p.col)
    ensures IsInt32(h)
    ensures (h - (p.row * 31 + p.col)) % TWO_TO_32 == 0
    ensures IsInt32(p.row * 31 + p.col) ==> h == p.row * 31 + p.col
  {
    Wrap32(p.row * 31 + p.col)
  }

  /** Equal positions have equal hashes. */
  lemma EqualsImpliesSameHash(p: CellPosition, q: CellPosition)
    requires IsInt32(p.row) && IsInt32(p.col) && IsInt32(q.row) && IsInt32(q.col)
    requires Equals(p, q)
    ensures HashCode(p) == HashCode(q)
  {
  }

  /** On a board at most 31 columns wide (every difficulty is) distinct in-bounds positions hash apart. */
  lemma {:induction false} HashInjectiveOnNarrowBoards(p: CellPosition, q: CellPosition, rows: int, cols: int)
    requires cols <= 31 && rows <= 1000
    requires IsValid(p, rows, cols) && IsValid(q, rows, cols)
    requires HashCode(p) == HashCode(q)
    ensures p == q
  {
    assert HashCode(p) == p.row * 31 + p.col;
    assert HashCode(q) == q.row * 31 + q.col;
  }

  /** CellPosition.isValid: inside a `maxRows` x `maxCols` grid. */
  predicate IsValid(p: CellPosition, maxRows: int, maxCols: int): (r: bool)
    ensures r ==> maxRows > 0 && maxCols > 0
  {
    0 <= p.row < maxRows && 0 <= p.col < maxCols
  }
}
