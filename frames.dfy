/**
 The slice of the data-frame library the cleaning routine uses: a frame is a width and a
 sequence of records, each a row label (the frame's index) and the row's cells. Every
 operation here returns a new frame, as the library does.
 */
module Frames {
  import opened Cells

  datatype Option<T> = None | Some(value: T)

  type Row = seq<Cell>

  /** One row of a frame together with its index label. */
  datatype Record = Record(index: int, cells: Row)

  datatype Frame = Frame(width: nat, records: seq<Record>)

  /** A frame is rectangular: every row has exactly `width` cells. */
  predicate WellFormed(f: Frame) {
    forall i :: 0 <= i < |f.records| ==> |f.records[i].cells| == f.width
  }

  function RowsOf(recs: seq<Record>): seq<Row> {
    seq(|recs|, i requires 0 <= i < |recs| => recs[i].cells)
  }

  /** The frame's contents without its index. */
  function Rows(f: Frame): seq<Row> {
    RowsOf(f.records)
  }

  lemma RowsAt(f: Frame)
    ensures |Rows(f)| == |f.records|
    ensures forall j :: 0 <= j < |f.records| ==> Rows(f)[j] == f.records[j].cells
  {
  }

  /** The index is 0, 1, ..., n-1, with no gaps. */
  predicate Dense(f: Frame) {
    forall i :: 0 <= i < |f.records| ==> f.records[i].index == i
  }

  /** `a` is `b` with some elements removed: order kept, nothing changed or added. */
  predicate IsSubseq<T(==)>(a: seq<T>, b: seq<T>)
    decreases |b|
  {
    a == [] || (b != [] && ((a[0] == b[0] && IsSubseq(a[1..], b[1..])) || IsSubseq(a, b[1..])))
  }

  lemma {:induction false} SubseqRefl<T>(s: seq<T>)
    ensures IsSubseq(s, s)
    decreases |s|
  {
    if s != [] {
      SubseqRefl(s[1..]);
    }
  }

  /** Dropping a prefix leaves a subsequence. */
  lemma {:induction false} SubseqSuffix<T>(s: seq<T>, k: nat)
    requires k <= |s|
    ensures IsSubseq(s[k..], s)
    decreases k
  {
    if k == 0 {
      SubseqRefl(s);
    } else {
      SubseqSuffix(s[1..], k - 1);
      assert s[1..][k - 1..] == s[k..];
    }
  }

  lemma {:induction false} SubseqTrans<T>(a: seq<T>, b: seq<T>, c: seq<T>)
    requires IsSubseq(a, b) && IsSubseq(b, c)
    ensures IsSubseq(a, c)
    decreases |c|
  {
    if a != [] {
      if IsSubseq(b, c[1..]) {
        SubseqTrans(a, b, c[1..]);
      } else if a[0] == b[0] && IsSubseq(a[1..], b[1..]) {
        SubseqTrans(a[1..], b[1..], c[1..]);
      } else {
        SubseqTrans(a, b[1..], c[1..]);
      }
    }
  }

  lemma RowsOfSlice(recs: seq<Record>, k: nat)
    requires k <= |recs|
    ensures RowsOf(recs[k..]) == RowsOf(recs)[k..]
  {
  }

  /** `reset_index(drop=True)`: the same rows in the same order, labelled 0..n-1. */
  function ResetIndex(f: Frame): (g: Frame)
    ensures g.width == f.width && Rows(g) == Rows(f)
    ensures Dense(g)
    ensures WellFormed(f) ==> WellFormed(g)
  {
    Frame(f.width, seq(|f.records|, i requires 0 <= i < |f.records| => Record(i, f.records[i].cells)))
  }

  /** Re-labelling a frame whose index is already dense changes nothing. */
  lemma ResetDense(f: Frame)
    requires Dense(f)
    ensures ResetIndex(f) == f
  {
    var g := ResetIndex(f);
    assert forall i :: 0 <= i < |f.records| ==> g.records[i] == f.records[i];
  }

  /** `iloc[k:]`: the rows from position k on. */
  function Slice(f: Frame, k: nat): (g: Frame)
    requires k <= |f.records|
    ensures g.width == f.width && Rows(g) == Rows(f)[k..]
    ensures WellFormed(f) ==> WellFormed(g)
  {
    RowsOfSlice(f.records, k);
    Frame(f.width, f.records[k..])
  }

  /**
   Boolean-mask selection `frame[mask]`: the records whose row passes `keep`, in their
   original order and with their original labels.
   */
  function Select(recs: seq<Record>, keep: Row -> bool): (r: seq<Record>)
    ensures forall x :: x in r ==> x in recs && keep(x.cells)
    ensures forall x :: x in recs && keep(x.cells) ==> x in r
    ensures IsSubseq(r, recs)
    decreases |recs|
  {
    if recs == [] then []
    else if keep(recs[0].cells) then [recs[0]] + Select(recs[1..], keep)
    else Select(recs[1..], keep)
  }

  /**
   The rows that pass `keep`, in order, each as often as it occurs: selection on bare rows,
   the reference against which the label-carrying selection is stated.
   */
  function Filter(rows: seq<Row>, keep: Row -> bool): (r: seq<Row>)
    ensures forall k :: 0 <= k < |r| ==> keep(r[k])
    ensures IsSubseq(r, rows)
    decreases |rows|
  {
    if rows == [] then []
    else if keep(rows[0]) then [rows[0]] + Filter(rows[1..], keep)
    else Filter(rows[1..], keep)
  }

  lemma {:induction false} FilterAppend(a: seq<Row>, b: seq<Row>, keep: Row -> bool)
    ensures Filter(a + b, keep) == Filter(a, keep) + Filter(b, keep)
    decreases |a|
  {
    if a != [] {
      assert (a + b)[0] == a[0] && (a + b)[1..] == a[1..] + b;
      FilterAppend(a[1..], b, keep);
      if keep(a[0]) {
        assert Filter(a + b, keep) == [a[0]] + (Filter(a[1..], keep) + Filter(b, keep));
      }
    } else {
      assert a + b == b;
    }
  }

  /** Around a passing row, the filter is what precedes it, the row, and what follows it. */
  lemma FilterSplit(rows: seq<Row>, keep: Row -> bool, i: nat)
    requires i < |rows| && keep(rows[i])
    ensures Filter(rows, keep) == Filter(rows[..i], keep) + ([rows[i]] + Filter(rows[i + 1..], keep))
  {
    var before, after := rows[..i], [rows[i]] + rows[i + 1..];
    assert rows == before + after;
    FilterAppend(before, after, keep);
    assert after[0] == rows[i] && after[1..] == rows[i + 1..];
    assert Filter(after, keep) == [rows[i]] + Filter(rows[i + 1..], keep);
  }

  /**
   A passing row lands at the position given by the number of passing rows before it, so
   two passing rows, even equal ones, occupy two positions.
   */
  lemma FilterAt(rows: seq<Row>, keep: Row -> bool, i: nat)
    requires i < |rows| && keep(rows[i])
    ensures |Filter(rows[..i], keep)| < |Filter(rows, keep)|
    ensures Filter(rows, keep)[|Filter(rows[..i], keep)|] == rows[i]
  {
    FilterSplit(rows, keep, i);
  }

  /** Every passing row is among the filtered rows. */
  lemma FilterKeeps(rows: seq<Row>, keep: Row -> bool)
    ensures forall i :: 0 <= i < |rows| && keep(rows[i]) ==> rows[i] in Filter(rows, keep)
  {
    forall i | 0 <= i < |rows| && keep(rows[i])
      ensures rows[i] in Filter(rows, keep)
    {
      FilterAt(rows, keep, i);
    }
  }

  /** Only rows that fail `keep` are dropped: an empty result means no row passed. */
  lemma FilterEmpty(rows: seq<Row>, keep: Row -> bool)
    ensures Filter(rows, keep) == [] <==> forall k :: 0 <= k < |rows| ==> !keep(rows[k])
  {
    if exists k :: 0 <= k < |rows| && keep(rows[k]) {
      var k :| 0 <= k < |rows| && keep(rows[k]);
      FilterAt(rows, keep, k);
    } else {
      FilterNone(rows, keep);
    }
  }

  lemma {:induction false} FilterNone(rows: seq<Row>, keep: Row -> bool)
    requires forall k :: 0 <= k < |rows| ==> !keep(rows[k])
    ensures Filter(rows, keep) == []
    decreases |rows|
  {
    if rows != [] {
      FilterNone(rows[1..], keep);
    }
  }

  /** Selecting records keeps exactly the filtered rows, duplicates included. */
  lemma {:induction false} SelectRows(recs: seq<Record>, keep: Row -> bool)
    ensures RowsOf(Select(recs, keep)) == Filter(RowsOf(recs), keep)
    decreases |recs|
  {
    if recs != [] {
      var rows := RowsOf(recs);
      var tail := Select(recs[1..], keep);
      SelectRows(recs[1..], keep);
      RowsOfTail(recs);
      assert rows[0] == recs[0].cells;
      if keep(recs[0].cells) {
        assert Select(recs, keep) == [recs[0]] + tail;
        RowsOfCons(recs[0], tail);
        assert Filter(rows, keep) == [rows[0]] + Filter(rows[1..], keep);
      } else {
        assert Select(recs, keep) == tail;
        assert Filter(rows, keep) == Filter(rows[1..], keep);
      }
    }
  }

  lemma RowsOfTail(recs: seq<Record>)
    requires recs != []
    ensures RowsOf(recs)[1..] == RowsOf(recs[1..])
  {
  }

  lemma RowsOfCons(x: Record, recs: seq<Record>)
    ensures RowsOf([x] + recs) == [x.cells] + RowsOf(recs)
  {
  }

  /** Selection keeps the row contents of a subsequence of the rows. */
  lemma {:induction false} SubseqRows(a: seq<Record>, b: seq<Record>)
    requires IsSubseq(a, b)
    ensures IsSubseq(RowsOf(a), RowsOf(b))
    decreases |b|
  {
    if a != [] {
      assert RowsOf(a)[1..] == RowsOf(a[1..]);
      assert RowsOf(b)[1..] == RowsOf(b[1..]);
      if a[0] == b[0] && IsSubseq(a[1..], b[1..]) {
        SubseqRows(a[1..], b[1..]);
      } else {
        SubseqRows(a, b[1..]);
      }
    }
  }

  /** When every record passes, selection is the identity. */
  lemma {:induction false} SelectAll(recs: seq<Record>, keep: Row -> bool)
    requires forall x :: x in recs ==> keep(x.cells)
    ensures Select(recs, keep) == recs
    decreases |recs|
  {
    if recs != [] {
      SelectAll(recs[1..], keep);
    }
  }

  predicate HasValue(row: Row) {
    !AllMissing(row)
  }

  /** `dropna(how='all')`, which keeps the labels of the rows it keeps. */
  function DropAllMissing(f: Frame): (g: Frame)
    ensures g.width == f.width
    ensures WellFormed(f) ==> WellFormed(g)
    ensures forall i :: 0 <= i < |g.records| ==> !AllMissing(g.records[i].cells)
    ensures forall x :: x in f.records && !AllMissing(x.cells) ==> x in g.records
    ensures IsSubseq(Rows(g), Rows(f))
    ensures Rows(g) == Filter(Rows(f), HasValue)
    ensures (forall i :: 0 <= i < |f.records| ==> !AllMissing(f.records[i].cells)) ==> g == f
  {
    var r := Select(f.records, HasValue);
    SubseqRows(r, f.records);
    SelectRows(f.records, HasValue);
    if forall i :: 0 <= i < |f.records| ==> !AllMissing(f.records[i].cells) then
      SelectAll(f.records, HasValue);
      Frame(f.width, r)
    else
      Frame(f.width, r)
  }
}
