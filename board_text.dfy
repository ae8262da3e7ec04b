/**
 The 81-character text form of a board: one digit per cell in row-major
 order (A1..A9, B1..B9, ..., I9), 0 for an unknown cell. The writer emits
 it; the reader builds a board from the first 81 characters of a line.
 */
module BoardText {
  import opened Grid

  /** Why a line could not be read: it ended too early, or held a non-digit. */
  datatype ParseError = IndexError(at: nat) | ValueError(at: nat)

  datatype Parsed = Ok(board: Board) | Err(error: ParseError)

  predicate IsDigitChar(ch: char) {
    '0' <= ch <= '9'
  }

  /** `str` of a board value. */
  function DigitChar(d: CellValue): (ch: char)
    ensures IsDigitChar(ch)
    ensures ch as int - '0' as int == d
  {
    (d + '0' as int) as char
  }

  /** `int` of a one-character string holding a digit. */
  function CharDigit(ch: char): (d: CellValue)
    requires IsDigitChar(ch)
    ensures DigitChar(d) == ch
  {
    ch as int - '0' as int
  }

  /** The line the writer emits for a board. */
  function Serialize(board: Board): string {
    seq(81, k requires 0 <= k < 81 => DigitChar(board[k]))
  }

  /** board_to_string: append the cells' digits row by row, column by column. */
  method BoardToString(board: Board) returns (s: string)
    ensures s == Serialize(board)
  {
    s := [];
    for r := 0 to 9
      invariant s == Serialize(board)[..9 * r]
    {
      for c := 0 to 9
        invariant s == Serialize(board)[..9 * r + c]
      {
        CellCoordinates(r, c);
        s := s + [DigitChar(board[9 * r + c])];
      }
    }
  }

  /**
   The first index from `i` on, below 81, at which reading fails: past the
   end of the line or at a non-digit; 81 when none does.
   */
  function FirstBad(s: string, i: nat): (r: nat)
    requires i <= 81
    ensures i <= r <= 81
    ensures forall j | i <= j < r :: j < |s| && IsDigitChar(s[j])
    ensures r < 81 ==> r >= |s| || !IsDigitChar(s[r])
    ensures i < 81 && r == 81 ==> |s| >= 81
    ensures i <= |s| ==> r <= |s|
    decreases 81 - i
  {
    if i == 81 then 81
    else if i >= |s| || !IsDigitChar(s[i]) then i
    else FirstBad(s, i + 1)
  }

  /**
   The board comprehension: cell 9*r+c takes `int` of character 9*r+c.
   It evaluates the cells in order, so the first bad index decides the
   error; characters after the 81st are ignored.
   */
  function Parse(s: string): Parsed {
    var k := FirstBad(s, 0);
    if k < 81 then Err(if k >= |s| then IndexError(k) else ValueError(k))
    else Ok(seq(81, i requires 0 <= i < 81 => CharDigit(s[i])))
  }

  /** Reading back what was written gives the board. */
  lemma ParseSerialize(board: Board)
    ensures Parse(Serialize(board)) == Ok(board)
  {
    var s := Serialize(board);
    var b := seq(81, i requires 0 <= i < 81 => CharDigit(s[i]));
    forall i | 0 <= i < 81 ensures b[i] == board[i] {
      assert DigitChar(b[i]) == DigitChar(board[i]);
    }
  }

  /** Writing what was read gives the first 81 characters of the line. */
  lemma SerializeParse(s: string)
    requires Parse(s).Ok?
    ensures |s| >= 81 && Serialize(Parse(s).board) == s[..81]
  {
    var b := Parse(s).board;
    forall i | 0 <= i < 81 ensures Serialize(b)[i] == s[i] {
      assert IsDigitChar(s[i]);
    }
  }

  /**
   A line is read exactly when its first 81 characters are digits; a line
   that ends early fails at its end, one with a non-digit fails at the
   first non-digit.
   */
  lemma ParseOutcome(s: string)
    ensures Parse(s).Ok? <==> |s| >= 81 && forall i | 0 <= i < 81 :: IsDigitChar(s[i])
    ensures Parse(s).Err? && Parse(s).error.IndexError? ==>
      Parse(s).error.at == |s| < 81 && forall i | 0 <= i < |s| :: IsDigitChar(s[i])
    ensures Parse(s).Err? && Parse(s).error.ValueError? ==>
      var k := Parse(s).error.at;
      k < |s| && k < 81 && !IsDigitChar(s[k]) && forall i | 0 <= i < k :: IsDigitChar(s[i])
  {
  }
}
