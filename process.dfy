/**
 `load_and_clean_data` of process.py and the second pass applied to its result. The loader
 (`pd.read_excel`) is not modelled: its outcome is the input, either the frame it produced
 (the data rows below the spreadsheet's first row, which it takes as column labels) or the
 failure it raised.
 */
module Process {
  import opened Cells
  import opened Frames

  /** What the loader produced. */
  datatype Load = Loaded(sheet: Frame) | LoadFailed(cause: string)

  /** How the header-anchor loop ends: `break` at a row, running off the end, or an IndexError. */
  datatype Scan = Found(at: nat) | NotFound | Raised

  /** Column 0 is "Entry No." and column 1 is "Entry Date". */
  predicate IsAnchor(row: Row) {
    |row| >= 2 && row[0] == Text(EntryNo) && row[1] == Text(EntryDate)
  }

  predicate IsBanner(row: Row) {
    |row| >= 1 && row[0] == Text(Banner)
  }

  /** The three masks of lines 23-25, each on column 1. */
  predicate KeyPresent(row: Row) {
    |row| >= 2 && NotNa(row[1])
  }

  predicate KeyNotEmpty(row: Row) {
    |row| >= 2 && NotEmptyText(row[1])
  }

  predicate KeyNotPlaceholder(row: Row) {
    |row| >= 2 && NotPlaceholder(row[1])
  }

  /** A row that all three masks keep. */
  predicate HasKey(row: Row) {
    KeyPresent(row) && KeyNotEmpty(row) && KeyNotPlaceholder(row)
  }

  /**
   The header-anchor loop (lines 13-16) from position `from` on. Column 0 is read first and
   column 1 only when column 0 matched, so a frame without column 0 raises at the first row
   and a frame without column 1 raises at the first "Entry No.".
   */
  function AnchorScan(f: Frame, from: nat): (r: Scan)
    requires WellFormed(f) && from <= |f.records|
    ensures r.Found? ==> from <= r.at < |f.records| && IsAnchor(f.records[r.at].cells)
    ensures r.Found? ==> forall j :: from <= j < r.at ==> !IsAnchor(f.records[j].cells)
    ensures r.NotFound? ==> forall j :: from <= j < |f.records| ==> !IsAnchor(f.records[j].cells)
    ensures r.Raised? ==> f.width < 2 && from < |f.records|
    decreases |f.records| - from
  {
    if from == |f.records| then NotFound
    else if f.width == 0 then Raised
    else if f.records[from].cells[0] != Text(EntryNo) then AnchorScan(f, from + 1)
    else if f.width < 2 then Raised
    else if f.records[from].cells[1] == Text(EntryDate) then Found(from)
    else AnchorScan(f, from + 1)
  }

  /** The loop itself, index by index, leaving at the first match. */
  method FindAnchor(f: Frame) returns (r: Scan)
    requires WellFormed(f)
    ensures r == AnchorScan(f, 0)
  {
    var index := 0;
    while index < |f.records|
      invariant index <= |f.records|
      invariant AnchorScan(f, index) == AnchorScan(f, 0)
    {
      if f.width == 0 {
        return Raised;
      }
      var row := f.records[index].cells;
      if row[0] == Text(EntryNo) {
        if f.width < 2 {
          return Raised;
        }
        if row[1] == Text(EntryDate) {
          return Found(index);
        }
      }
      index := index + 1;
    }
    return NotFound;
  }

  /** Line 18: drop the all-missing rows, then renumber. */
  function DropBlankRows(f: Frame): (g: Frame)
    requires WellFormed(f)
    ensures WellFormed(g) && g.width == f.width && Dense(g)
    ensures forall i :: 0 <= i < |g.records| ==> !AllMissing(g.records[i].cells)
    ensures IsSubseq(Rows(g), Rows(f))
    ensures |g.records| == 0 <==> forall i :: 0 <= i < |f.records| ==> AllMissing(f.records[i].cells)
    ensures forall i :: 0 <= i < |f.records| && !AllMissing(f.records[i].cells) ==> f.records[i].cells in Rows(g)
    ensures |f.records| > 0 && !AllMissing(f.records[0].cells) ==> |g.records| > 0 && Rows(g)[0] == Rows(f)[0]
    ensures Rows(g) == Filter(Rows(f), HasValue)
  {
    var d := DropAllMissing(f);
    RowsAt(f);
    FilterKeeps(Rows(f), HasValue);
    if |f.records| > 0 && !AllMissing(f.records[0].cells) then
      FilterAt(Rows(f), HasValue, 0);
      ResetIndex(d)
    else
      ResetIndex(d)
  }

  /**
   Lines 20-21: read cell (0, 0), which raises on a frame with no rows or no columns, and
   drop row 0 when it holds the banner.
   */
  function StripBanner(f: Frame): (r: Option<Frame>)
    requires WellFormed(f)
    ensures r.None? <==> |f.records| == 0 || f.width == 0
    ensures r.Some? ==> WellFormed(r.value) && r.value.width == f.width
    ensures r.Some? && IsBanner(Rows(f)[0]) ==> Rows(r.value) == Rows(f)[1..] && Dense(r.value)
    ensures r.Some? && !IsBanner(Rows(f)[0]) ==> r.value == f
  {
    if |f.records| == 0 || f.width == 0 then None
    else if f.records[0].cells[0] == Text(Banner) then Some(ResetIndex(Slice(f, 1)))
    else Some(f)
  }

  /** The three masks applied in turn select exactly the rows that pass all three. */
  lemma {:induction false} ThreeMasks(recs: seq<Record>)
    ensures Select(Select(Select(recs, KeyPresent), KeyNotEmpty), KeyNotPlaceholder)
            == Select(recs, HasKey)
    decreases |recs|
  {
    if recs != [] {
      ThreeMasks(recs[1..]);
    }
  }

  /**
   Lines 23-26: the column-1 masks (reading column 1 raises when there is none), then
   renumbering.
   */
  function KeepKeyedRows(f: Frame): (r: Option<Frame>)
    requires WellFormed(f)
    ensures r.None? <==> f.width < 2
    ensures r.Some? ==> WellFormed(r.value) && r.value.width == f.width && Dense(r.value)
    ensures r.Some? ==> forall i :: 0 <= i < |r.value.records| ==> HasKey(r.value.records[i].cells)
    ensures r.Some? ==> IsSubseq(Rows(r.value), Rows(f))
    ensures r.Some? ==> forall i :: 0 <= i < |f.records| && HasKey(f.records[i].cells) ==> f.records[i].cells in Rows(r.value)
    ensures r.Some? && |f.records| > 0 && HasKey(f.records[0].cells) ==> |r.value.records| > 0 && Rows(r.value)[0] == Rows(f)[0]
    ensures r.Some? && Dense(f) && (forall i :: 0 <= i < |f.records| ==> HasKey(f.records[i].cells)) ==> r.value == f
    ensures r.Some? ==> Rows(r.value) == Filter(Rows(f), HasKey)
  {
    if f.width < 2 then None
    else
      var kept := Select(Select(Select(f.records, KeyPresent), KeyNotEmpty), KeyNotPlaceholder);
      ThreeMasks(f.records);
      KeyedSelection(f);
      Some(ResetIndex(Frame(f.width, kept)))
  }

  /** What selecting the rows that pass all three masks, then renumbering, yields. */
  lemma KeyedSelection(f: Frame)
    requires WellFormed(f)
    ensures var g := ResetIndex(Frame(f.width, Select(f.records, HasKey)));
            && WellFormed(g) && g.width == f.width && Dense(g)
            && (forall i :: 0 <= i < |g.records| ==> HasKey(g.records[i].cells))
            && IsSubseq(Rows(g), Rows(f))
            && (forall i :: 0 <= i < |f.records| && HasKey(f.records[i].cells) ==> f.records[i].cells in Rows(g))
            && (|f.records| > 0 && HasKey(f.records[0].cells) ==> |g.records| > 0 && Rows(g)[0] == Rows(f)[0])
            && (Dense(f) && (forall i :: 0 <= i < |f.records| ==> HasKey(f.records[i].cells)) ==> g == f)
            && Rows(g) == Filter(Rows(f), HasKey)
  {
    KeyedSelectionShape(f);
    KeyedSelectionKeeps(f);
    KeepAllKeyed(f);
    SelectRows(f.records, HasKey);
  }

  lemma KeyedSelectionShape(f: Frame)
    requires WellFormed(f)
    ensures var g := ResetIndex(Frame(f.width, Select(f.records, HasKey)));
            && WellFormed(g) && g.width == f.width && Dense(g)
            && (forall i :: 0 <= i < |g.records| ==> HasKey(g.records[i].cells))
            && IsSubseq(Rows(g), Rows(f))
  {
    var kept := Select(f.records, HasKey);
    var g := ResetIndex(Frame(f.width, kept));
    assert forall i :: 0 <= i < |g.records| ==> g.records[i].cells == Rows(g)[i] == kept[i].cells;
    assert forall i :: 0 <= i < |g.records| ==> kept[i] in kept;
    SubseqRows(kept, f.records);
  }

  lemma KeyedSelectionKeeps(f: Frame)
    requires WellFormed(f)
    ensures var g := ResetIndex(Frame(f.width, Select(f.records, HasKey)));
            && (forall i :: 0 <= i < |f.records| && HasKey(f.records[i].cells) ==> f.records[i].cells in Rows(g))
            && (|f.records| > 0 && HasKey(f.records[0].cells) ==> |g.records| > 0 && Rows(g)[0] == Rows(f)[0])
  {
    SelectRows(f.records, HasKey);
    RowsAt(f);
    FilterKeeps(Rows(f), HasKey);
    if |f.records| > 0 && HasKey(f.records[0].cells) {
      FilterAt(Rows(f), HasKey, 0);
    }
  }

  /** A dense frame whose every row passes the masks comes back whole. */
  lemma KeepAllKeyed(f: Frame)
    ensures Dense(f) && (forall i :: 0 <= i < |f.records| ==> HasKey(f.records[i].cells))
            ==> ResetIndex(Frame(f.width, Select(f.records, HasKey))) == f
  {
    if Dense(f) && (forall i :: 0 <= i < |f.records| ==> HasKey(f.records[i].cells)) {
      SelectAll(f.records, HasKey);
      ResetDense(f);
    }
  }

  /** Lines 20-21 on bare rows: a banner in row 0 goes, and nothing else does. */
  function DropLeadingBanner(rows: seq<Row>): (r: seq<Row>)
    ensures IsSubseq(r, rows)
    ensures |rows| > 0 && IsBanner(rows[0]) ==> r == rows[1..]
    ensures |rows| > 0 && !IsBanner(rows[0]) ==> r == rows
  {
    if |rows| > 0 && IsBanner(rows[0]) then
      SubseqSuffix(rows, 1);
      rows[1..]
    else
      SubseqRefl(rows);
      rows
  }

  /**
   Lines 18-26 on bare rows, without the index and the exceptions: the rows that survive
   cleaning, each exactly as often as it occurs in the input.
   */
  function CleanedRows(rows: seq<Row>): (r: seq<Row>)
    ensures forall k :: 0 <= k < |r| ==> HasKey(r[k])
    ensures IsSubseq(r, rows)
  {
    var d := Filter(rows, HasValue);
    var s := DropLeadingBanner(d);
    SubseqTrans(Filter(s, HasKey), s, d);
    SubseqTrans(Filter(s, HasKey), d, rows);
    Filter(s, HasKey)
  }

  /** Lines 18-26, the steps after the anchor loop. */
  function CleanRest(f: Frame): (r: Option<Frame>)
    requires WellFormed(f)
    ensures r.Some? ==> f.width >= 2 && WellFormed(r.value) && r.value.width == f.width && Dense(r.value)
    ensures r.Some? ==> Rows(r.value) == CleanedRows(Rows(f))
  {
    match StripBanner(DropBlankRows(f))
    case None => None
    case Some(g) => KeepKeyedRows(g)
  }

  /** The body of `load_and_clean_data` on a loaded frame; any exception gives `None`. */
  function Clean(f: Frame): (r: Option<Frame>)
    requires WellFormed(f)
    ensures r.Some? ==> f.width >= 2 && WellFormed(r.value) && r.value.width == f.width && Dense(r.value)
    ensures r.Some? && AnchorScan(f, 0).Found? ==> Rows(r.value) == CleanedRows(Rows(f)[AnchorScan(f, 0).at..])
    ensures r.Some? && AnchorScan(f, 0).NotFound? ==> Rows(r.value) == CleanedRows(Rows(f))
  {
    match AnchorScan(f, 0)
    case Raised => None
    case Found(k) => CleanRest(ResetIndex(Slice(f, k)))
    case NotFound => CleanRest(f)
  }

  /** `load_and_clean_data`: a load failure is caught by the same handler. */
  function LoadAndClean(src: Load): (r: Option<Frame>)
    requires src.Loaded? ==> WellFormed(src.sheet)
    ensures src.LoadFailed? ==> r.None?
    ensures r.Some? ==> WellFormed(r.value) && r.value.width == src.sheet.width >= 2 && Dense(r.value)
    ensures r.Some? ==> forall i :: 0 <= i < |r.value.records| ==> HasKey(r.value.records[i].cells)
  {
    if src.LoadFailed? then None else Clean(src.sheet)
  }

  /** `load_and_clean_data` step by step, with the anchor loop run as a loop. */
  method LoadAndCleanData(src: Load) returns (r: Option<Frame>)
    requires src.Loaded? ==> WellFormed(src.sheet)
    ensures r == LoadAndClean(src)
    ensures r.Some? ==> forall i :: 0 <= i < |r.value.records| ==> HasKey(r.value.records[i].cells)
  {
    if src.LoadFailed? {
      return None;
    }
    var data := src.sheet;
    var scan := FindAnchor(data);
    match scan {
      case Raised =>
        return None;
      case Found(k) =>
        data := ResetIndex(Slice(data, k));
      case NotFound =>
    }
    data := DropBlankRows(data);
    var stripped := StripBanner(data);
    if stripped.None? {
      return None;
    }
    r := KeepKeyedRows(stripped.value);
  }

  /**
   Lines 39-40, run on each table that loaded: renumber, then `dropna(how='all')`. The
   drop comes second, so the index it leaves can have gaps.
   */
  function PostPass(f: Frame): (g: Frame)
    ensures g.width == f.width
    ensures forall i :: 0 <= i < |g.records| ==> !AllMissing(g.records[i].cells)
    ensures Rows(g) == Filter(Rows(f), HasValue)
    ensures Dense(f) && (forall i :: 0 <= i < |f.records| ==> !AllMissing(f.records[i].cells)) ==> g == f
  {
    var d := ResetIndex(f);
    if Dense(f) then
      ResetDense(f);
      DropAllMissing(d)
    else
      DropAllMissing(d)
  }
}
