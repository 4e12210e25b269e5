/**
 What `load_and_clean_data` guarantees about the frame it returns, proved of the model in
 module Process.
 */
module CleanProperties {
  import opened Cells
  import opened Frames
  import opened Process

  /** First match wins: the scan stops at the lowest-numbered anchor row, and only there. */
  lemma FirstAnchorWins(f: Frame, k: nat)
    requires WellFormed(f) && k < |f.records|
    ensures AnchorScan(f, 0) == Found(k)
            <==> IsAnchor(f.records[k].cells) && forall j :: 0 <= j < k ==> !IsAnchor(f.records[j].cells)
  {
  }

  /** The steps after the loop keep a subsequence of their input whose rows all pass the masks. */
  lemma CleanRestShape(g: Frame)
    requires WellFormed(g)
    ensures CleanRest(g).Some? ==>
              var h := CleanRest(g).value;
              WellFormed(h) && h.width == g.width && Dense(h)
              && (forall i :: 0 <= i < |h.records| ==> HasKey(h.records[i].cells))
              && IsSubseq(Rows(h), Rows(g))
  {
    var d := DropBlankRows(g);
    var s := StripBanner(d);
    if s.Some? {
      if IsBanner(Rows(d)[0]) {
        SubseqSuffix(Rows(d), 1);
      } else {
        SubseqRefl(Rows(d));
      }
      SubseqTrans(Rows(s.value), Rows(d), Rows(g));
      var h := KeepKeyedRows(s.value);
      if h.Some? {
        SubseqTrans(Rows(h.value), Rows(s.value), Rows(g));
      }
    }
  }

  /**
   Every row of the result has a column-1 cell that is present, is not exactly "", and does
   not begin with "Unnamed"; the result is a rectangular frame of the input's width (two
   columns at least) with index 0..n-1; and its rows are input rows, in input order, unchanged.
   */
  lemma CleanShape(f: Frame)
    requires WellFormed(f)
    ensures Clean(f).Some? ==>
              var g := Clean(f).value;
              WellFormed(g) && g.width == f.width && g.width >= 2 && Dense(g)
              && (forall i :: 0 <= i < |g.records| ==> HasKey(g.records[i].cells))
              && IsSubseq(Rows(g), Rows(f))
  {
    match AnchorScan(f, 0)
    case Raised =>
    case Found(k) =>
      var g0 := ResetIndex(Slice(f, k));
      CleanRestShape(g0);
      SubseqSuffix(Rows(f), k);
      if Clean(f).Some? {
        SubseqTrans(Rows(Clean(f).value), Rows(g0), Rows(f));
      }
    case NotFound =>
      CleanRestShape(f);
  }

  /**
   The error path: `None` comes back exactly when the frame has fewer than two columns or
   every one of its rows is entirely missing. A partial frame is never returned.
   */
  lemma NoneExactlyWhen(f: Frame)
    requires WellFormed(f)
    ensures Clean(f).None? <==> f.width < 2 || forall i :: 0 <= i < |f.records| ==> AllMissing(f.records[i].cells)
  {
    match AnchorScan(f, 0)
    case Raised =>
    case Found(k) =>
      var g0 := ResetIndex(Slice(f, k));
      assert g0.records[0].cells == f.records[k].cells;
      assert !AllMissing(f.records[k].cells);
    case NotFound =>
  }

  /** A load failure is reported as `None` as well. */
  lemma LoadFailureIsNone(cause: string)
    ensures LoadAndClean(LoadFailed(cause)).None?
  {
  }

  /**
   When an anchor row exists, the result starts with the first one and holds nothing from
   before it.
   */
  lemma AnchorLeads(f: Frame, k: nat)
    requires WellFormed(f) && k < |f.records|
    requires IsAnchor(f.records[k].cells)
    requires forall j :: 0 <= j < k ==> !IsAnchor(f.records[j].cells)
    ensures Clean(f).Some?
    ensures |Rows(Clean(f).value)| > 0 && Rows(Clean(f).value)[0] == f.records[k].cells
    ensures IsSubseq(Rows(Clean(f).value), Rows(f)[k..])
  {
    FirstAnchorWins(f, k);
    var anchor := f.records[k].cells;
    var g0 := ResetIndex(Slice(f, k));
    assert Rows(g0)[0] == anchor && !AllMissing(anchor);
    var d := DropBlankRows(g0);
    assert Rows(d)[0] == anchor;
    assert !IsBanner(anchor);
    EntryDateIsNotPlaceholder();
    assert HasKey(anchor);
    CleanRestShape(g0);
  }

  /**
   Without an anchor row, when the first row left after dropping blank rows is the banner,
   that one row goes and the row after it leads the result if it passes the column-1 masks.
   */
  lemma BannerPromoted(f: Frame)
    requires WellFormed(f) && f.width >= 2
    requires forall j :: 0 <= j < |f.records| ==> !IsAnchor(f.records[j].cells)
    requires |Rows(DropBlankRows(f))| >= 1 && IsBanner(Rows(DropBlankRows(f))[0])
    ensures Clean(f).Some?
    ensures IsSubseq(Rows(Clean(f).value), Rows(DropBlankRows(f))[1..])
    ensures |Rows(DropBlankRows(f))| >= 2 && HasKey(Rows(DropBlankRows(f))[1]) ==>
              |Rows(Clean(f).value)| > 0 && Rows(Clean(f).value)[0] == Rows(DropBlankRows(f))[1]
  {
    var r := AnchorScan(f, 0);
    assert !r.Found?;
    assert r.Raised? ==> f.width < 2;
    assert r == NotFound;
  }

  /**
   Completeness, with multiplicity: from the start row on (the first anchor, or row 0 without
   one), every row whose column-1 cell passes the masks is in the result, except the banner
   when it is the first non-blank row. It sits right after the rows that cleaning the rows
   before it would keep, so equal rows each keep their own place.
   */
  lemma KeyedRowsSurvive(f: Frame, start: nat, i: nat)
    requires WellFormed(f)
    requires AnchorScan(f, 0) == Found(start) || (AnchorScan(f, 0) == NotFound && start == 0)
    requires start <= i < |f.records| && HasKey(f.records[i].cells)
    requires !(IsBanner(f.records[i].cells) && forall j :: start <= j < i ==> AllMissing(f.records[j].cells))
    ensures Clean(f).Some?
    ensures |CleanedRows(Rows(f)[start..i])| < |Rows(Clean(f).value)|
    ensures Rows(Clean(f).value)[|CleanedRows(Rows(f)[start..i])|] == f.records[i].cells
  {
    CleanKeepsSome(f, i);
    CleanFrom(f, start);
    RowsAt(f);
    KeptRowPositionFrom(Rows(f), start, i);
  }

  /** A frame of two columns or more with a row that has a value cleans to a frame. */
  lemma CleanKeepsSome(f: Frame, i: nat)
    requires WellFormed(f) && i < |f.records| && HasKey(f.records[i].cells)
    ensures Clean(f).Some?
  {
    NoneExactlyWhen(f);
    assert !f.records[i].cells[1].Missing?;
  }

  /** `KeptRowPosition` for the rows from `start` on. */
  lemma KeptRowPositionFrom(rows: seq<Row>, start: nat, i: nat)
    requires start <= i < |rows| && HasKey(rows[i])
    requires !(IsBanner(rows[i]) && forall j :: start <= j < i ==> AllMissing(rows[j]))
    ensures |CleanedRows(rows[start..i])| < |CleanedRows(rows[start..])|
    ensures CleanedRows(rows[start..])[|CleanedRows(rows[start..i])|] == rows[i]
  {
    var tail := rows[start..];
    var j := i - start;
    assert tail[..j] == rows[start..i];
    assert forall j' :: 0 <= j' <= j ==> tail[j'] == rows[start + j'];
    KeptRowPosition(tail, j);
  }

  /** The result's rows are the cleaned rows from the start row on. */
  lemma CleanFrom(f: Frame, start: nat)
    requires WellFormed(f)
    requires AnchorScan(f, 0) == Found(start) || (AnchorScan(f, 0) == NotFound && start == 0)
    ensures start <= |f.records|
    ensures Clean(f).Some? ==> Rows(Clean(f).value) == CleanedRows(Rows(f)[start..])
  {
    if AnchorScan(f, 0).NotFound? {
      assert Rows(f)[start..] == Rows(f);
    }
  }

  /**
   On bare rows: a row that passes the masks, and is not a banner with only blank rows
   before it, is kept at the position given by how many rows before it are kept.
   */
  lemma KeptRowPosition(rows: seq<Row>, j: nat)
    requires j < |rows| && HasKey(rows[j])
    requires !(IsBanner(rows[j]) && forall j' :: 0 <= j' < j ==> AllMissing(rows[j']))
    ensures |CleanedRows(rows[..j])| < |CleanedRows(rows)|
    ensures CleanedRows(rows)[|CleanedRows(rows[..j])|] == rows[j]
  {
    var a := Filter(rows[..j], HasValue);
    var b := [rows[j]] + Filter(rows[j + 1..], HasValue);
    assert HasValue(rows[j]) by {
      assert !rows[j][1].Missing?;
    }
    FilterSplit(rows, HasValue, j);
    BannerBeforeKept(rows, j);
    FilterAppend(DropLeadingBanner(a), b, HasKey);
    assert Filter(b, HasKey)[0] == rows[j];
  }

  /**
   Dropping a leading banner from the rows with a value touches only the rows before row
   `j` when row `j` is not a banner with only blank rows before it.
   */
  lemma BannerBeforeKept(rows: seq<Row>, j: nat)
    requires j < |rows| && HasValue(rows[j])
    requires !(IsBanner(rows[j]) && forall j' :: 0 <= j' < j ==> AllMissing(rows[j']))
    ensures var a := Filter(rows[..j], HasValue);
            var b := [rows[j]] + Filter(rows[j + 1..], HasValue);
            DropLeadingBanner(a + b) == DropLeadingBanner(a) + b
  {
    var a := Filter(rows[..j], HasValue);
    var b := [rows[j]] + Filter(rows[j + 1..], HasValue);
    if a != [] {
      assert (a + b)[0] == a[0] && (a + b)[1..] == a[1..] + b;
    } else {
      FilterEmpty(rows[..j], HasValue);
      assert forall j' :: 0 <= j' < j ==> !HasValue(rows[..j][j']);
      assert a + b == b;
    }
  }

  /**
   Two kept rows never share a place in the result: the earlier one lands strictly before
   the later one, even when both rows are equal.
   */
  lemma KeptRowsApart(rows: seq<Row>, j1: nat, j2: nat)
    requires j1 < j2 <= |rows| && HasKey(rows[j1])
    requires !(IsBanner(rows[j1]) && forall j' :: 0 <= j' < j1 ==> AllMissing(rows[j']))
    ensures |CleanedRows(rows[..j1])| < |CleanedRows(rows[..j2])|
  {
    var prefix := rows[..j2];
    assert prefix[..j1] == rows[..j1];
    assert forall j' :: 0 <= j' <= j1 ==> prefix[j'] == rows[j'];
    KeptRowPosition(prefix, j1);
  }

  /**
   Frame level: the steps after the loop keep every row that passes the masks, unless it is
   a banner with only blank rows before it, at the position `KeptRowPosition` gives.
   */
  lemma RestKeepsKeyedRow(g: Frame, j: nat)
    requires WellFormed(g) && j < |g.records| && HasKey(g.records[j].cells)
    requires !(IsBanner(g.records[j].cells) && forall j' :: 0 <= j' < j ==> AllMissing(g.records[j'].cells))
    ensures CleanRest(g).Some?
    ensures |CleanedRows(Rows(g)[..j])| < |Rows(CleanRest(g).value)|
    ensures Rows(CleanRest(g).value)[|CleanedRows(Rows(g)[..j])|] == g.records[j].cells
  {
    var row := g.records[j].cells;
    assert !AllMissing(row) by {
      assert !row[1].Missing?;
    }
    assert |DropBlankRows(g).records| > 0;
    assert g.width >= 2;
    assert forall j' :: 0 <= j' <= j ==> Rows(g)[j'] == g.records[j'].cells;
    KeptRowPosition(Rows(g), j);
  }

  /** The second pass at lines 39-40 returns the result unchanged, index included. */
  lemma PostPassKeepsResult(f: Frame)
    requires WellFormed(f)
    ensures Clean(f).Some? ==> PostPass(Clean(f).value) == Clean(f).value
    ensures Clean(f).Some? ==> Dense(PostPass(Clean(f).value))
  {
    if Clean(f).Some? {
      CleanShape(f);
      var g := Clean(f).value;
      ResetDense(g);
      forall i | 0 <= i < |g.records|
        ensures !AllMissing(g.records[i].cells)
      {
        assert !g.records[i].cells[1].Missing?;
      }
    }
  }

  /** Line 18 leaves a renumbered frame without all-missing rows as it is. */
  lemma NoBlankRowsUnchanged(g: Frame)
    requires WellFormed(g) && Dense(g)
    requires forall i :: 0 <= i < |g.records| ==> !AllMissing(g.records[i].cells)
    ensures DropBlankRows(g) == g
  {
    ResetDense(g);
  }

  /**
   A frame that already has the result's shape and starts with an anchor row comes back
   unchanged from a second cleaning.
   */
  lemma CleanFixesClean(g: Frame)
    requires WellFormed(g) && g.width >= 2 && Dense(g)
    requires |g.records| > 0 && IsAnchor(g.records[0].cells)
    requires forall i :: 0 <= i < |g.records| ==> HasKey(g.records[i].cells)
    ensures Clean(g) == Some(g)
  {
    FirstAnchorWins(g, 0);
    assert Slice(g, 0) == g;
    ResetDense(g);
    forall i | 0 <= i < |g.records|
      ensures !AllMissing(g.records[i].cells)
    {
      assert !g.records[i].cells[1].Missing?;
    }
    NoBlankRowsUnchanged(g);
    assert StripBanner(g) == Some(g);
  }

  /** With an anchor row in the input, cleaning the result again changes nothing. */
  lemma IdempotentWithAnchor(f: Frame, k: nat)
    requires WellFormed(f) && k < |f.records| && IsAnchor(f.records[k].cells)
    ensures Clean(f).Some? && Clean(Clean(f).value) == Clean(f)
  {
    var first := FirstAnchorFrom(f, k);
    AnchorLeads(f, first);
    CleanShape(f);
    var g := Clean(f).value;
    assert g.records[0].cells == Rows(g)[0];
    CleanFixesClean(g);
  }

  /** Some row at or before `k` is the first anchor. */
  lemma FirstAnchorFrom(f: Frame, k: nat) returns (first: nat)
    requires WellFormed(f) && k < |f.records| && IsAnchor(f.records[k].cells)
    ensures first <= k && IsAnchor(f.records[first].cells)
    ensures forall j :: 0 <= j < first ==> !IsAnchor(f.records[j].cells)
  {
    var r := AnchorScan(f, 0);
    assert !r.NotFound?;
    assert !r.Raised?;
    first := r.at;
  }

  /**
   A worked example: a store banner, the stray banner, the header, one data row, a row of
   empty strings and a row whose column 1 is an "Unnamed" placeholder.
   */
  function ExampleSheet(): Frame {
    Frame(3, [
      Record(0, [Text("Store Banner"), Text(""), Text("")]),
      Record(1, [Text(Banner), Text(""), Text("")]),
      Record(2, ExampleHeader()),
      Record(3, ExampleEntry()),
      Record(4, [Text(""), Text(""), Text("")]),
      Record(5, [Number(2), Text("Unnamed: 3"), Number(5)])])
  }

  function ExampleHeader(): Row {
    [Text(EntryNo), Text(EntryDate), Text("Qty")]
  }

  function ExampleEntry(): Row {
    [Number(1), Text("2024-01-05"), Number(10)]
  }

  /** The example's rows from the anchor on, renumbered. */
  function ExampleTail(): Frame {
    Frame(3, [
      Record(0, ExampleHeader()),
      Record(1, ExampleEntry()),
      Record(2, [Text(""), Text(""), Text("")]),
      Record(3, [Number(2), Text("Unnamed: 3"), Number(5)])])
  }

  lemma ExampleCutsAtAnchor()
    ensures Clean(ExampleSheet()) == CleanRest(ExampleTail())
  {
    var sheet := ExampleSheet();
    assert AnchorScan(sheet, 0) == Found(2) by {
      assert Text("Store Banner") != Text(EntryNo) && Text(Banner) != Text(EntryNo);
      assert IsAnchor(sheet.records[2].cells);
      FirstAnchorWins(sheet, 2);
    }
    assert ResetIndex(Slice(sheet, 2)) == ExampleTail() by {
      var tail := ResetIndex(Slice(sheet, 2));
      assert |tail.records| == 4;
      assert forall i :: 0 <= i < 4 ==> tail.records[i] == ExampleTail().records[i];
    }
  }

  lemma ExampleKeys()
    ensures HasKey(ExampleTail().records[0].cells) && HasKey(ExampleTail().records[1].cells)
    ensures !HasKey(ExampleTail().records[2].cells) && !HasKey(ExampleTail().records[3].cells)
  {
    EntryDateIsNotPlaceholder();
    assert "2024-01-05"[..|Placeholder|][0] == '2';
    assert "Unnamed: 3"[..|Placeholder|] == Placeholder;
  }

  lemma ExampleNoBanner()
    ensures StripBanner(ExampleTail()) == Some(ExampleTail())
  {
    assert Text(EntryNo) != Text(Banner);
  }

  lemma ExampleNoBlankRows()
    ensures DropBlankRows(ExampleTail()) == ExampleTail()
  {
    var g0 := ExampleTail();
    assert forall i :: 0 <= i < 4 ==> !g0.records[i].cells[0].Missing?;
    NoBlankRowsUnchanged(g0);
  }

  lemma ExampleMasks()
    ensures KeepKeyedRows(ExampleTail()) == Some(Frame(3, [Record(0, ExampleHeader()), Record(1, ExampleEntry())]))
  {
    var recs := ExampleTail().records;
    var kept := [recs[0], recs[1]];
    assert Select(recs, HasKey) == kept by {
      ExampleKeys();
      assert Select(recs[3..], HasKey) == [];
      assert Select(recs[2..], HasKey) == [];
      assert Select(recs[1..], HasKey) == [recs[1]];
    }
    assert ResetIndex(Frame(3, kept)) == Frame(3, kept) by {
      ResetDense(Frame(3, kept));
    }
    ThreeMasks(recs);
  }

  lemma ExampleRest()
    ensures CleanRest(ExampleTail()) == Some(Frame(3, [Record(0, ExampleHeader()), Record(1, ExampleEntry())]))
  {
    ExampleNoBlankRows();
    ExampleNoBanner();
    ExampleMasks();
  }

  /** Only the header and the data row remain, renumbered 0 and 1. */
  lemma WorkedExample()
    ensures Clean(ExampleSheet()) == Some(Frame(3, [Record(0, ExampleHeader()), Record(1, ExampleEntry())]))
  {
    ExampleCutsAtAnchor();
    ExampleRest();
  }

  /** Two banner rows and no anchor row. */
  function TwoBanners(): Frame {
    Frame(2, [Record(0, [Text(Banner), Text("a")]), Record(1, [Text(Banner), Text("b")])])
  }

  function SecondBanner(): Frame {
    Frame(2, [Record(0, [Text(Banner), Text("b")])])
  }

  lemma TwoBannersOnce()
    ensures Clean(TwoBanners()) == Some(SecondBanner())
  {
    var sheet := TwoBanners();
    assert AnchorScan(sheet, 0) == NotFound by {
      assert Text(Banner) != Text(EntryNo);
    }
    assert DropBlankRows(sheet) == sheet by {
      assert forall i :: 0 <= i < 2 ==> !sheet.records[i].cells[0].Missing?;
      NoBlankRowsUnchanged(sheet);
    }
    assert StripBanner(sheet) == Some(SecondBanner()) by {
      assert Slice(sheet, 1) == Frame(2, [Record(1, [Text(Banner), Text("b")])]);
      assert |ResetIndex(Slice(sheet, 1)).records| == 1;
      assert ResetIndex(Slice(sheet, 1)).records[0] == Record(0, [Text(Banner), Text("b")]);
      assert ResetIndex(Slice(sheet, 1)) == SecondBanner();
    }
    assert KeepKeyedRows(SecondBanner()) == Some(SecondBanner()) by {
      assert "b"[..] != Placeholder;
      assert HasKey(SecondBanner().records[0].cells);
    }
  }

  lemma SecondBannerAgain()
    ensures Clean(SecondBanner()) == Some(Frame(2, []))
  {
    var once := SecondBanner();
    assert AnchorScan(once, 0) == NotFound by {
      assert Text(Banner) != Text(EntryNo);
    }
    assert DropBlankRows(once) == once by {
      assert !once.records[0].cells[0].Missing?;
      NoBlankRowsUnchanged(once);
    }
    assert StripBanner(once) == Some(Frame(2, []));
    assert KeepKeyedRows(Frame(2, [])) == Some(Frame(2, []));
  }

  /**
   Without an anchor row, cleaning a result again can remove more: a second banner row that
   survived the first cleaning is dropped by the next.
   */
  lemma NotIdempotentWithoutAnchor()
    ensures Clean(TwoBanners()) == Some(SecondBanner())
    ensures Clean(Clean(TwoBanners()).value) == Some(Frame(2, []))
  {
    TwoBannersOnce();
    SecondBannerAgain();
  }
}
