/**
 * A hint shown to the player (model/Hint.java, with the kinds of
 * model/HintType.java): its kind, a message, the line it refers to and the
 * cells it points at.
 */
module Hints {
  import opened Positions

  datatype HintType = CompleteLine | EdgeDeduction | OverlapAnalysis | SimplePattern | ErrorDetection
  {
    /** HintType.getName. */
    function Name(): string
    {
      match this
      case CompleteLine => "Complete Line"
      case EdgeDeduction => "Edge Deduction"
      case OverlapAnalysis => "Overlap Analysis"
      case SimplePattern => "Simple Pattern"
      case ErrorDetection => "Error Detection"
    }
  }

  /** Everything a Hint holds, as a value. */
  datatype HintValue = HintValue(
    kind: HintType,
    message: string,
    lineIndex: int,
    isRowHint: bool,
    affectedCells: seq<CellPosition>)

  // ---------------------------------------------------------------------------
  // Decimal rendering of an int, as Java's string concatenation writes it
  // ---------------------------------------------------------------------------

  predicate IsDigit(ch: char)
  {
    '0' <= ch <= '9'
  }

  function DigitChar(d: int): (ch: char)
    requires 0 <= d < 10
    ensures IsDigit(ch) && ch as int - '0' as int == d
  {
    ('0' as int + d) as char
  }

  /** Decimal digits of `n`, most significant first, without leading zeros. */
  function NatToString(n: nat): (s: string)
    ensures |s| > 0 && forall i :: 0 <= i < |s| ==> IsDigit(s[i])
    ensures s[0] == '0' ==> n == 0
  {
    if n < 10 then [DigitChar(n)] else NatToString(n / 10) + [DigitChar(n % 10)]
  }

  /** A minus sign in front of negative numbers. */
  function IntToString(n: int): (s: string)
    ensures |s| > 0
    ensures n < 0 <==> s[0] == '-'
    ensures forall i :: 0 < i < |s| ==> IsDigit(s[i])
  {
    if n < 0 then "-" + NatToString(-n) else NatToString(n)
  }

  /** The value of a string of decimal digits. */
  function ParseDigits(s: string): nat
    requires forall i :: 0 <= i < |s| ==> IsDigit(s[i])
  {
    if s == [] then 0
    else
      var last := s[|s| - 1];
      assert IsDigit(last);
      ParseDigits(s[..|s| - 1]) * 10 + (last as int - '0' as int)
  }

  /** The inverse of IntToString. */
  function ParseInt(s: string): int
    requires |s| > 0 && forall i :: 0 < i < |s| ==> IsDigit(s[i])
    requires s[0] != '-' ==> IsDigit(s[0])
  {
    if s[0] == '-' then 0 - ParseDigits(s[1..]) as int else ParseDigits(s)
  }

  lemma {:induction false} NatToStringRoundTrip(n: nat)
    ensures ParseDigits(NatToString(n)) == n
  {
    if n >= 10 {
      NatToStringRoundTrip(n / 10);
      var s := NatToString(n);
      assert s[..|s| - 1] == NatToString(n / 10);
    }
  }

  /** Reading back the text of a number gives the number. */
  lemma IntToStringRoundTrip(n: int)
    ensures ParseInt(IntToString(n)) == n
  {
    if n < 0 {
      NatToStringRoundTrip(-n);
      assert IntToString(n)[1..] == NatToString(-n);
    } else {
      NatToStringRoundTrip(n);
    }
  }

  // ---------------------------------------------------------------------------
  // The Hint object
  // ---------------------------------------------------------------------------

  /** The word getFullMessage uses for the line. */
  function LineWord(isRowHint: bool): string
  {
    if isRowHint then "Row" else "Column"
  }

  class Hint {
    const kind: HintType
    const message: string
    const lineIndex: int
    const isRowHint: bool
    /** The MyArrayList of affected cells, appended to in place. */
    var affectedCells: seq<CellPosition>

    /** The constructor stores its arguments and starts with no affected cells. */
    constructor (kind: HintType, message: string, lineIndex: int, isRowHint: bool)
      ensures this.kind == kind && this.message == message
      ensures this.lineIndex == lineIndex && this.isRowHint == isRowHint
      ensures affectedCells == []
    {
      this.kind := kind;
      this.message := message;
      this.lineIndex := lineIndex;
      this.isRowHint := isRowHint;
      affectedCells := [];
    }

    function Value(): HintValue
      reads this
    {
      HintValue(kind, message, lineIndex, isRowHint, affectedCells)
    }

    /** Hint.addAffectedCell: append at the end, earlier entries kept. */
    method AddAffectedCell(position: CellPosition)
      modifies this
      ensures affectedCells == old(affectedCells) + [position]
    {
      affectedCells := affectedCells + [position];
    }

    /**
     * Hint.getFullMessage: the kind's name, then the line ("Row" or "Column")
     * numbered from 1, then the message.
     */
    function FullMessage(): (m: string)
      ensures kind.Name() + " - " <= m
      ensures |message| <= |m| && m[|m| - |message|..] == message
    {
      LayoutParts(kind.Name(), isRowHint, lineIndex + 1, message);
      Layout(kind.Name(), isRowHint, lineIndex + 1, message)
    }
  }

  /** The layout of "<name> - <word> <number>: <message>". */
  function Layout(name: string, isRowHint: bool, number: int, message: string): string
  {
    name + " - " + LineWord(isRowHint) + " " + IntToString(number) + ": " + message
  }

  lemma LayoutParts(name: string, isRowHint: bool, number: int, message: string)
    ensures var m := Layout(name, isRowHint, number, message);
      && name + " - " <= m
      && |name| + 3 < |m| && (m[|name| + 3] == 'R' <==> isRowHint)
      && m[|m| - |message|..] == message
    ensures var m := Layout(name, isRowHint, number, message);
      var w := if isRowHint then "Row" else "Column";
      |name| + 3 + |w| < |m| && m[|name| + 3..|name| + 3 + |w|] == w && m[|name| + 3 + |w|] == ' '
    ensures var m := Layout(name, isRowHint, number, message);
      var k := |name| + 3 + |LineWord(isRowHint)| + 1;
      k + |IntToString(number)| <= |m| && ParseInt(m[k..k + |IntToString(number)|]) == number
  {
    var head := name + " - ";
    var word := LineWord(isRowHint);
    var num := IntToString(number);
    var m := Layout(name, isRowHint, number, message);
    var tail := " " + (num + (": " + message));
    assert m == head + (word + tail);
    assert m[|head|..] == word + tail;
    assert m[|head|] == word[0];
    assert m[|head|..|head| + |word|] == word;
    var k := |head| + |word| + 1;
    assert m[k..] == num + (": " + message);
    assert m[k..k + |num|] == num;
    IntToStringRoundTrip(number);
  }

  /**
   * The full message starts with the kind's name and " - ", then shows "Row"
   * exactly for row hints, then the line number lineIndex + 1, and ends with
   * the message.
   */
  lemma FullMessageParts(h: Hint)
    ensures h.kind.Name() + " - " <= h.FullMessage()
    ensures var k := |h.kind.Name()| + 3;
      k < |h.FullMessage()| && (h.FullMessage()[k] == 'R' <==> h.isRowHint)
    ensures var k := |h.kind.Name()| + 3;
      var w := if h.isRowHint then "Row" else "Column";
      k + |w| <= |h.FullMessage()| && h.FullMessage()[k..k + |w|] == w
    ensures var k := |h.kind.Name()| + 3 + |LineWord(h.isRowHint)| + 1;
      var n := |IntToString(h.lineIndex + 1)|;
      k + n <= |h.FullMessage()| && ParseInt(h.FullMessage()[k..k + n]) == h.lineIndex + 1
    ensures h.FullMessage()[|h.FullMessage()| - |h.message|..] == h.message
  {
    LayoutParts(h.kind.Name(), h.isRowHint, h.lineIndex + 1, h.message);
  }
}
