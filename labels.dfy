/**
 * The human-readable cell labels of the robot library: a row is shown as a
 * 1-based decimal number and a column as a capital letter, and `parse_cell`
 * reads a two-element label back into 0-based coordinates.
 */
module CellLabels {
  import opened Wrappers
  import opened RobotGrid

  /** Why a label cannot be read; each stands for the exception Python raises. */
  datatype LabelError =
    | WrongArity        // unpacking `row, col = cell` needs exactly two elements
    | NotAnInteger      // `int(row)` rejects the text
    | NotOneCharacter   // `ord(...)` needs a string of length one

  /** `_xmap`: rows are shown counting from 1. */
  function XMap(x: int): (shown: int)
    ensures shown - 1 == x
  {
    x + 1
  }

  /** `_ymap`: column y is shown as the character y places after 'A'. */
  function YMap(y: int): (ch: char)
    requires 0 <= 'A' as int + y < 0xD800
    ensures ch as int - 'A' as int == y
    ensures 0 <= y < 26 ==> 'A' <= ch <= 'Z'
  {
    ('A' as int + y) as char
  }

  predicate IsDigit(ch: char) {
    '0' <= ch <= '9'
  }

  /** The value of one decimal digit. */
  function DigitOf(ch: char): (d: nat)
    requires IsDigit(ch)
    ensures d < 10
  {
    ch as int - '0' as int
  }

  /** The number written by a sequence of decimal digits, most significant first. */
  function DigitsValue(s: string): (n: nat)
    requires forall i :: 0 <= i < |s| ==> IsDigit(s[i])
  {
    if |s| == 0 then 0 else DigitsValue(s[..|s| - 1]) * 10 + DigitOf(s[|s| - 1])
  }

  /**
   * `int(text)` for the texts this model admits: an optional sign followed
   * by at least one decimal digit; anything else is rejected.
   */
  function ParseInt(text: string): (r: Option<int>)
    ensures r.Some? ==> |text| > 0
    ensures r.Some? && |text| > 0 && text[0] == '-' ==> r.value <= 0
    ensures r.Some? && |text| > 0 && text[0] != '-' ==> r.value >= 0
  {
    var neg := |text| > 0 && text[0] == '-';
    var digits := if |text| > 0 && (text[0] == '-' || text[0] == '+') then text[1..] else text;
    if |digits| > 0 && forall i :: 0 <= i < |digits| ==> IsDigit(digits[i]) then
      var n: int := DigitsValue(digits);
      Some(if neg then -n else n)
    else
      None
  }

  /** `str(n)` for a natural number: its decimal digits, without leading zeros. */
  function ShowNat(n: nat): (s: string)
    ensures |s| > 0 && forall i :: 0 <= i < |s| ==> IsDigit(s[i])
    ensures s[0] != '-' && s[0] != '+'
    decreases n
  {
    if n < 10 then ['0' + n as char] else ShowNat(n / 10) + ['0' + (n % 10) as char]
  }

  /** Reading back the decimal text of a number gives the number. */
  lemma {:induction false} DigitsValueShowNat(n: nat)
    ensures DigitsValue(ShowNat(n)) == n
    decreases n
  {
    if n >= 10 {
      var s := ShowNat(n);
      assert s[..|s| - 1] == ShowNat(n / 10);
      DigitsValueShowNat(n / 10);
    }
  }

  lemma ParseIntShowNat(n: nat)
    ensures ParseInt(ShowNat(n)) == Some(n)
  {
    DigitsValueShowNat(n);
  }

  /** `str.lower` on one character, for the ASCII letters. */
  function Lower(ch: char): (lc: char)
    ensures 'A' <= ch <= 'Z' ==> lc as int == ch as int + 32
    ensures !('A' <= ch <= 'Z') ==> lc == ch
  {
    if 'A' <= ch <= 'Z' then (ch as int + 32) as char else ch
  }

  /**
   * `parse_cell`: a label [row, col] becomes (int(row) - 1, ord(col.lower()) - ord('a')).
   * Each way the Python code raises is a `Failure`.
   */
  function ParseCell(cell: seq<string>): (r: Result<Cell, LabelError>)
    ensures |cell| != 2 ==> r == Failure(WrongArity)
    ensures |cell| == 2 && ParseInt(cell[0]).None? ==> r == Failure(NotAnInteger)
    ensures |cell| == 2 && ParseInt(cell[0]).Some? && |cell[1]| != 1 ==> r == Failure(NotOneCharacter)
    ensures r.Success? ==>
      (ParseInt(cell[0]) == Some(r.value.0 + 1) && r.value.1 == Lower(cell[1][0]) as int - 'a' as int)
    ensures |cell| == 2 && ParseInt(cell[0]).Some? && |cell[1]| == 1 ==>
      r == Success((ParseInt(cell[0]).value - 1, Lower(cell[1][0]) as int - 'a' as int))
  {
    if |cell| != 2 then
      Failure(WrongArity)
    else
      match ParseInt(cell[0])
      case None => Failure(NotAnInteger)
      case Some(row) =>
        if |cell[1]| != 1 then Failure(NotOneCharacter)
        else Success((row - 1, Lower(cell[1][0]) as int - 'a' as int))
  }

  /** The label a cell is shown with: its row number as decimal text and its column letter. */
  function CellLabel(x: nat, y: int): (shown: seq<string>)
    requires 0 <= y < 26
    ensures |shown| == 2 && |shown[1]| == 1
  {
    [ShowNat(XMap(x)), [YMap(y)]]
  }

  /** Label round trip: parsing the label shown for (x, y) gives back (x, y). */
  lemma ParseCellLabel(x: nat, y: int)
    requires 0 <= y < 26
    ensures ParseCell(CellLabel(x, y)) == Success((x, y))
  {
    ParseIntShowNat(XMap(x));
  }
}
