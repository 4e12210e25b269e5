# Spreadsheet cleaning routine, modelled in Dafny

This project models `load_and_clean_data` from `process.py` and the follow-up pass the script
runs on each table it loaded. The routine takes the frame that `pd.read_excel` produced from
a retail spreadsheet (sales, purchases or stock), finds the real header row, and drops
preamble and junk rows:

1. Scan for the first row whose column 0 is `"Entry No."` and whose column 1 is
   `"Entry Date"`, and cut everything before it. If no row matches, nothing is cut.
2. Drop rows in which every cell is missing, then renumber.
3. If row 0 now has `"Manuhar Amber Sadan"` in column 0, drop that one row, then renumber.
4. Keep only rows whose column-1 cell is not missing, is not exactly `""`, and whose string
   form does not begin with `"Unnamed"`. Then renumber.
5. Any exception on the way (a missing column 0 or 1, an empty frame at step 3, or a load
   failure) is caught, and the result is `None`.

The follow-up pass (lines 38-50) renumbers the result and drops all-missing rows again.

Files:

- `cells.dfy` (module `Cells`): the cell type, the literals the routine looks for, a
  cell's string form as `astype(str)` renders it, and the three column-1 tests.
- `frames.dfy` (module `Frames`): a frame as a width plus a sequence of records, each
  record being an index label and a row. It also holds `reset_index`, `iloc[k:]`,
  boolean-mask selection, `dropna(how='all')`, and the subsequence relation used to say
  "rows are only dropped, never changed or reordered".
- `process.dfy` (module `Process`): the routine. The anchor loop is a method with a
  `while` loop, proved against a recursive specification function. The later steps are
  pure functions, as in the source, where each step builds a new frame. The whole routine
  is a method checked against the composed specification.
- `properties.dfy` (module `CleanProperties`): what the routine guarantees, as lemmas.

The model follows the code, not its comments or a looser reading of it:

- Step 2 drops only rows where every cell is missing. The comment on line 17 also
  mentions "Unnamed" rows, but that test is only applied to column 1, at step 4.
- The empty-string test on line 24 is exact equality with `''`. A cell holding only spaces
  passes it.
- The test on line 25 is `str.contains('^Unnamed')`. That is a case-sensitive match at
  position 0 of the cell's string form, not a search anywhere in the cell.
- The routine does fail. It returns `None` exactly when the frame has fewer than two
  columns, or when every row is entirely missing (`NoneExactlyWhen`).
- Without an anchor row, the banner drop and the column-1 filter still apply. The input is
  not returned "as is, minus blank rows".
- Cleaning a result again always leaves it unchanged when the input had an anchor row
  (`IdempotentWithAnchor`). Without one, a second cleaning can drop another banner row
  (`NotIdempotentWithoutAnchor`).
- The second blank-row pass is not part of `load_and_clean_data`. It is the script code at
  lines 38-50. On any result of the routine it changes nothing (`PostPassKeepsResult`).

## Model

| member | source | states |
|---|---|---|
| `Cells.IntString` | process.py:25 | `astype(str)` of a whole number is non-empty and begins with `-` exactly for negative numbers, and with a digit otherwise |
| `Cells.NumberIsNeverPlaceholder` | process.py:25 | a number's string form never matches `^Unnamed`, so the third mask keeps every numeric column-1 cell |
| `Cells.EntryDateIsNotPlaceholder` | process.py:14-25 | the anchor's column-1 text `"Entry Date"` passes the `^Unnamed` mask |
| `Cells.Str` | process.py:25 | `astype(str)` renders a text cell as its own text, a missing cell as `"nan"`, and a number as a non-empty string beginning with `-` or a digit |
| `Cells.KeyTestsByKind` | process.py:23-25 | the three column-1 tests together pass exactly the numbers and the text cells that are not `""` and do not begin with `"Unnamed"`; a missing cell fails |
| `Frames.ResetIndex` | process.py:26 | `reset_index(drop=True)` keeps the rows and their order and makes the index 0..n-1 |
| `Frames.ResetDense` | process.py:39 | renumbering a frame whose index is already 0..n-1 changes nothing |
| `Frames.Slice` | process.py:15 | `iloc[k:]` keeps exactly the rows from position k on |
| `Frames.Select` | process.py:23-25 | a boolean mask keeps, in order and with their labels, exactly the records whose row passes |
| `Frames.Filter` | process.py:18-25 | the row-level selection that the frame operations are stated against: every row it returns passes, and its result is a subsequence of its input |
| `Frames.SelectRows` | process.py:23-25 | a boolean mask keeps exactly the rows of `Filter`: every passing row, in order, each as often as it occurs, duplicates included |
| `Frames.FilterAt` | process.py:18-25 | a passing row lands at the position given by the number of passing rows before it, so no two passing rows share a place |
| `Frames.FilterEmpty` | process.py:18 | the selection is empty exactly when no row passes |
| `Frames.DropAllMissing` | process.py:40 | `dropna(how='all')` keeps exactly the rows with a value (`Filter` by `HasValue`), in order and with multiplicity, and is the identity when no row is all-missing |
| `Process.AnchorScan` | process.py:13-16 | the anchor loop stops at a row that is an anchor with no anchor before it; running off the end means no anchor; an IndexError needs fewer than two columns |
| `Process.FindAnchor` | process.py:13-16 | the index loop with `break` returns what the specification scan returns |
| `Process.DropBlankRows` | process.py:18 | the result's rows are exactly the input rows with a value, in order and each as often as it occurs; the result is renumbered and is empty exactly when every input row is all-missing |
| `Process.StripBanner` | process.py:20-21 | reading cell (0, 0) fails exactly on a frame with no rows or no columns; a banner in row 0 removes exactly that row, otherwise the frame is unchanged |
| `Process.ThreeMasks` | process.py:23-25 | applying the three column-1 masks in turn selects exactly the rows that pass all three |
| `Process.KeepKeyedRows` | process.py:23-26 | fails exactly without column 1; otherwise the result's rows are exactly the rows passing the three masks, in order and each as often as it occurs, and the index is 0..n-1 |
| `Process.DropLeadingBanner` | process.py:20-21 | on bare rows, a banner in row 0 is removed and exactly that row goes; any other row 0 leaves the rows unchanged |
| `Process.CleanedRows` | process.py:18-26 | the rows that lines 18-26 keep, without index or exceptions: all pass the masks and form a subsequence of the input |
| `Process.CleanRest` | process.py:18-26 | a result has at least two columns, the input's width and index 0..n-1, and its rows are exactly `CleanedRows` of the input |
| `Process.Clean` | process.py:13-27 | a result has at least two columns, the input's width and index 0..n-1; its rows are exactly `CleanedRows` of the rows from the first anchor on, or of all rows without an anchor |
| `Process.LoadAndClean` | process.py:9-30 | a load failure gives `None`; a result is renumbered, keeps the sheet's width (two columns at least) and has only rows passing the masks |
| `Process.LoadAndCleanData` | process.py:9-30 | the routine, with the anchor loop run as a loop, returns what its specification returns, and every row it returns passes the column-1 masks |
| `CleanProperties.FirstAnchorWins` | process.py:13-16 | the scan stops at row k if and only if row k is an anchor and no earlier row is |
| `CleanProperties.CleanRestShape` | process.py:18-26 | the steps after the loop return a rectangular, renumbered subsequence of their input whose rows all pass the masks |
| `CleanProperties.CleanShape` | process.py:13-26 | every result row has a present column-1 cell that is not `""` and does not begin with `"Unnamed"`; the result keeps the input's width (at least two columns) and has index 0..n-1; its rows are input rows, unchanged and in input order |
| `CleanProperties.NoneExactlyWhen` | process.py:13-30 | `None` comes back if and only if the frame has fewer than two columns or every row is entirely missing |
| `CleanProperties.LoadFailureIsNone` | process.py:28-30 | a failure in the loader is also reported as `None` |
| `CleanProperties.AnchorLeads` | process.py:13-26 | with an anchor row, the result is not `None`, its row 0 is the first anchor row, and it holds only rows from that anchor on |
| `CleanProperties.BannerPromoted` | process.py:18-26 | without an anchor, a banner left in row 0 after blank-row removal is the only row removed there (a lone banner leaves an empty result, not `None`); the next row, if any, leads the result when it passes the masks |
| `CleanProperties.CleanFrom` | process.py:13-27 | the result's rows are `CleanedRows` of the rows from the start row (first anchor, or row 0) on |
| `CleanProperties.CleanKeepsSome` | process.py:13-30 | a frame with a row passing the masks is not turned into `None` |
| `CleanProperties.KeyedRowsSurvive` | process.py:13-26 | from the first anchor on (or from row 0 without one), every row passing the masks, except a banner that is the first non-blank row, is in the result at the position given by how many earlier rows cleaning keeps |
| `CleanProperties.KeptRowPosition` | process.py:18-26 | on bare rows, a row passing the masks (and not a banner with only blank rows before it) sits in `CleanedRows` right after what cleaning its prefix keeps |
| `CleanProperties.KeptRowPositionFrom` | process.py:13-26 | the same for the rows from a start row on |
| `CleanProperties.KeptRowsApart` | process.py:18-26 | two kept rows land at two different positions, in input order, even when equal: cleaning never merges duplicates |
| `CleanProperties.RestKeepsKeyedRow` | process.py:18-26 | the steps after the loop keep every row that passes the masks, unless it is a banner with only blank rows before it, at the position `KeptRowPosition` gives |
| `CleanProperties.NoBlankRowsUnchanged` | process.py:18 | a renumbered frame without all-missing rows passes line 18 unchanged |
| `Process.PostPass` | process.py:39-40 | the second pass keeps exactly the rows with a value, in order and with multiplicity, and returns a renumbered frame without all-missing rows unchanged |
| `CleanProperties.PostPassKeepsResult` | process.py:37-50 | the second pass (renumber, then `dropna(how='all')`) returns the result unchanged, with index 0..n-1 |
| `CleanProperties.CleanFixesClean` | process.py:9-27 | a renumbered frame that starts with an anchor row and whose rows all pass the masks is cleaned to itself |
| `CleanProperties.IdempotentWithAnchor` | process.py:9-27 | with an anchor row in the input, cleaning the result again returns it unchanged |
| `CleanProperties.NotIdempotentWithoutAnchor` | process.py:9-27 | without an anchor row, two banner rows lose one row to the first cleaning and another to the second |
| `CleanProperties.WorkedExample` | process.py:9-27 | a store banner, the stray banner, the header, one entry, a row of `""` and an `"Unnamed: 3"` row clean to the header and the entry, numbered 0 and 1 |

## Left out

- The loader `pd.read_excel(file_path, engine='xlrd')` is file I/O. Its outcome is the
  input (`Process.Load`): either the frame it built or the failure it raised. The frame's
  rows are the spreadsheet rows after the first one, which the loader takes as column
  labels.
- The message printed on failure (line 29) and the printing of `head()` (lines 52-61) are
  console output. The model returns `None` and prints nothing.
- Cell kinds: a cell is text, a whole number (an unbounded `int`, which is what the loader
  makes of an integral number) or missing. Fractional floats, dates and booleans are not
  modelled. Their string forms never begin with "Unnamed", so at every step they behave
  like a number.
- Column labels are not modelled. The routine reads columns only by position.
- `Process.AnchorScan`: the contract says only that an IndexError in the loop needs fewer
  than two columns. It does not say at which row the error happens. `NoneExactlyWhen`
  states exactly when the whole routine returns `None`.
- All of `streamlit.py` is left out: the dashboard, remote file reads, caching, the derived
  "Month" and "Quantity In Stock" columns, the grouped sums and the text-generation calls.
  These are framework and service calls, not part of the cleaning routine.
