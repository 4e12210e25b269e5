/**
 Cells of a loaded spreadsheet, the literals the cleaning routine looks for, and the
 three column-1 tests it applies (process.py, lines 23-25).
 */
module Cells {

  /** A cell as the loader hands it over: text, a whole number, or missing (NaN). */
  datatype Cell = Missing | Text(s: string) | Number(n: int)

  /** Column 0 and column 1 of the header row that marks where the data begins. */
  const EntryNo: string := "Entry No."
  const EntryDate: string := "Entry Date"

  /** A stray banner value that may be left in row 0 after blank rows are dropped. */
  const Banner: string := "Manuhar Amber Sadan"

  /** The prefix the loader gives to headers of unnamed columns ("Unnamed: 3"). */
  const Placeholder: string := "Unnamed"

  predicate IsDigit(c: char) {
    '0' <= c <= '9'
  }

  function DigitChar(d: nat): (c: char)
    requires d < 10
    ensures IsDigit(c)
  {
    "0123456789"[d]
  }

  /** Decimal digits of a natural number, most significant first. */
  function NatString(n: nat): (s: string)
    ensures |s| >= 1
    ensures forall k :: 0 <= k < |s| ==> IsDigit(s[k])
    decreases n
  {
    if n < 10 then [DigitChar(n)] else NatString(n / 10) + [DigitChar(n % 10)]
  }

  /** Python's str() of an int: an optional minus sign, then the digits. */
  function IntString(i: int): (s: string)
    ensures |s| >= 1
    ensures s[0] == '-' <==> i < 0
    ensures i >= 0 ==> IsDigit(s[0])
  {
    if i < 0 then "-" + NatString(-i) else NatString(i)
  }

  /** The cell rendered by `astype(str)`: a NaN becomes "nan". */
  function Str(c: Cell): (s: string)
    ensures c.Text? ==> s == c.s
    ensures c.Number? ==> |s| >= 1 && (s[0] == '-' || IsDigit(s[0]))
    ensures c.Missing? ==> s == "nan"
  {
    match c
    case Missing => "nan"
    case Text(s) => s
    case Number(n) => IntString(n)
  }

  /** What the regular expression '^Unnamed' finds with `str.contains`: a match at position 0. */
  predicate StartsWith(s: string, prefix: string) {
    |prefix| <= |s| && s[..|prefix|] == prefix
  }

  /** The test of `dropna(how='all')`: every cell of the row is missing. */
  predicate AllMissing(row: seq<Cell>) {
    forall k :: 0 <= k < |row| ==> row[k].Missing?
  }

  /** `notna()` on one cell. */
  predicate NotNa(c: Cell) {
    !c.Missing?
  }

  /** `!= ''` on one cell: only the text cell holding exactly the empty string fails. */
  predicate NotEmptyText(c: Cell) {
    c != Text("")
  }

  /** The negated '^Unnamed' match on the cell's string form. */
  predicate NotPlaceholder(c: Cell) {
    !StartsWith(Str(c), Placeholder)
  }

  /** A number's string form starts with a digit or '-', never with "Unnamed". */
  lemma NumberIsNeverPlaceholder(n: int)
    ensures NotPlaceholder(Number(n))
  {
  }

  /** The anchor's column-1 text passes the '^Unnamed' test. */
  lemma EntryDateIsNotPlaceholder()
    ensures NotPlaceholder(Text(EntryDate))
  {
    assert EntryDate[..|Placeholder|][0] == 'E';
  }

  /**
   The three column-1 tests together, stated per kind of cell: numbers always pass, text
   passes unless it is exactly "" or begins with "Unnamed" (so "  " passes), missing fails.
   */
  lemma KeyTestsByKind(c: Cell)
    ensures NotNa(c) && NotEmptyText(c) && NotPlaceholder(c)
            <==> c.Number? || (c.Text? && c.s != "" && !StartsWith(c.s, Placeholder))
  {
    if c.Number? {
      NumberIsNeverPlaceholder(c.n);
    }
  }
}
