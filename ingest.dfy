/**
 * The data half of `DASH._read_and_prepare`: from an already parsed table to the session's
 * dataset. Reading the file, dtype inference and the permissive timestamp parser are outside the
 * model: each cell arrives with its numeric coercion (`num`, None for NaN or non-numeric) and its
 * timestamp parse (`stamp`, UTC nanoseconds, None when unparseable), and each column with the
 * reader's verdict on whether its dtype is numeric.
 */
module Ingest {
  import opened Wrappers
  import opened Data
  import opened Normalize

  /** `TIME_COL`, the session's time column before any file is loaded. */
  const DefaultTimeColumn: string := "Date UTC"

  /** `TIME_COL_CANDIDATES`, in priority order. */
  const TimeColCandidates: seq<string> :=
    ["Date UTC", "UTC", "Timestamp", "DateTime", "Datetime", "Date_Time", "Date", "Time", "time", "date", "datetime"]

  /** The name of the parsed-time column the readers add; a file column of that name is replaced by it. */
  const TsColumn: string := "_ts_"

  datatype Cell = Cell(num: Sample, stamp: Option<int>)

  datatype Table = Table(header: seq<string>, numeric: seq<bool>, rows: seq<seq<Cell>>)

  /** Why a load fails: no column at all (`df.columns[0]`), no numeric series, or no row left for `np.nanmin`. */
  datatype IngestError = NoColumns | NoNumericSeries | NoRows

  /** A data frame: one dtype verdict per column, unique column names, rectangular rows. */
  predicate WellFormed(t: Table) {
    && |t.numeric| == |t.header|
    && Distinct(t.header)
    && forall r :: r in t.rows ==> |r| == |t.header|
  }

  // ---------------------------------------------------------------- time column

  function IndexOf(s: seq<string>, x: string): (i: nat)
    requires x in s
    ensures i < |s| && s[i] == x
    ensures forall j :: 0 <= j < i ==> s[j] != x
  {
    if s[0] == x then 0 else 1 + IndexOf(s[1..], x)
  }

  /** Candidate `k` is in the header and no higher-priority candidate is. */
  predicate FirstCandidateIs(header: seq<string>, k: nat)
    requires k < |TimeColCandidates|
  {
    TimeColCandidates[k] in header && forall i :: 0 <= i < k ==> TimeColCandidates[i] !in header
  }

  function CandidateFrom(header: seq<string>, k: nat): (r: Option<nat>)
    requires k <= |TimeColCandidates|
    ensures r.None? <==> forall j :: k <= j < |TimeColCandidates| ==> TimeColCandidates[j] !in header
    ensures r.Some? ==> k <= r.value < |TimeColCandidates| && TimeColCandidates[r.value] in header
    ensures r.Some? ==> forall i :: k <= i < r.value ==> TimeColCandidates[i] !in header
    decreases |TimeColCandidates| - k
  {
    if k == |TimeColCandidates| then None
    else if TimeColCandidates[k] in header then Some(k)
    else CandidateFrom(header, k + 1)
  }

  /**
   * `next((c for c in TIME_COL_CANDIDATES if c in df.columns), df.columns[0])`: the first candidate,
   * in priority order, that the header has, else the first column; an empty header fails.
   */
  function TimeColumn(header: seq<string>): (r: Result<nat, IngestError>)
    ensures r.Failure? <==> header == []
    ensures r.Failure? ==> r.error == NoColumns
    ensures r.Success? ==> r.value < |header|
    ensures r.Success? && (exists k :: 0 <= k < |TimeColCandidates| && TimeColCandidates[k] in header) ==>
      exists k :: 0 <= k < |TimeColCandidates| && FirstCandidateIs(header, k) && header[r.value] == TimeColCandidates[k]
    ensures r.Success? && (forall k :: 0 <= k < |TimeColCandidates| ==> TimeColCandidates[k] !in header) ==>
      r.value == 0
  {
    if header == [] then Failure(NoColumns)
    else match CandidateFrom(header, 0)
      case Some(k) => Success(IndexOf(header, TimeColCandidates[k]))
      case None => Success(0)
  }

  // ---------------------------------------------------------------- rows with a parsed time, sorted

  /** A row whose time parsed to `t`. */
  datatype Record = Record(t: int, cells: seq<Cell>)

  predicate SortedByTime(s: seq<Record>) {
    forall i, j :: 0 <= i < j < |s| ==> s[i].t <= s[j].t
  }

  function Times(s: seq<Record>): (r: seq<int>)
    ensures |r| == |s|
    ensures forall i :: 0 <= i < |s| ==> r[i] == s[i].t
  {
    seq(|s|, i requires 0 <= i < |s| => s[i].t)
  }

  /** `drop_nulls(["_ts_"])`: the rows whose time cell parsed, in file order. */
  function Stamped(rows: seq<seq<Cell>>, tc: nat): (r: seq<Record>)
    requires forall row :: row in rows ==> tc < |row|
    ensures forall x :: x in r <==> x.cells in rows && x.cells[tc].stamp == Some(x.t)
  {
    if rows == [] then []
    else
      assert forall row :: row in rows[1..] ==> row in rows;
      (if rows[0][tc].stamp.Some? then [Record(rows[0][tc].stamp.value, rows[0])] else []) + Stamped(rows[1..], tc)
  }

  function Insert(x: Record, s: seq<Record>): (r: seq<Record>)
    requires SortedByTime(s)
    ensures multiset(r) == multiset(s) + multiset{x}
    ensures SortedByTime(r)
    ensures |r| == |s| + 1
    ensures r[0] == x || (s != [] && r[0] == s[0])
  {
    if s == [] || x.t <= s[0].t then
      SortedCons(x, s);
      [x] + s
    else
      assert s == [s[0]] + s[1..];
      var rest := Insert(x, s[1..]);
      SortedCons(s[0], rest);
      [s[0]] + rest
  }

  /** A record no later than the head of a sorted list can go in front of it. */
  lemma SortedCons(x: Record, s: seq<Record>)
    requires SortedByTime(s) && (s != [] ==> x.t <= s[0].t)
    ensures SortedByTime([x] + s)
  {
    forall i, j | 0 <= i < j < |[x] + s|
      ensures ([x] + s)[i].t <= ([x] + s)[j].t
    {
      if i == 0 && j > 1 {
        assert s[0].t <= s[j - 1].t;
      }
    }
  }

  /**
   * `sort("_ts_")` / `sort_values("_ts_")`. The readers' sort is not stable; this insertion sort is
   * one of the orders they may produce, and only the two ensures below are relied upon.
   */
  function SortByTime(s: seq<Record>): (r: seq<Record>)
    ensures multiset(r) == multiset(s)
    ensures SortedByTime(r)
  {
    if s == [] then []
    else
      assert s == [s[0]] + s[1..];
      Insert(s[0], SortByTime(s[1..]))
  }

  /** The optional, inclusive start/end filter. */
  predicate InRange(t: int, start: Option<int>, end: Option<int>) {
    (start.None? || start.value <= t) && (end.None? || t <= end.value)
  }

  function FilterRange(s: seq<Record>, start: Option<int>, end: Option<int>): (r: seq<Record>)
    ensures forall x :: x in r <==> x in s && InRange(x.t, start, end)
    ensures SortedByTime(s) ==> SortedByTime(r)
  {
    if s == [] then []
    else
      var rest := FilterRange(s[1..], start, end);
      assert forall x :: x in s <==> x == s[0] || x in s[1..];
      assert forall p :: 0 <= p < |rest| ==> rest[p] in rest;
      if InRange(s[0].t, start, end) then [s[0]] + rest else rest
  }

  // ---------------------------------------------------------------- series columns

  /** Column `j` becomes a series: it is neither the time column nor `_ts_`, and its dtype is numeric. */
  predicate IsSeriesColumn(t: Table, tc: nat, j: nat)
    requires |t.numeric| == |t.header| && tc < |t.header| && j < |t.header|
  {
    t.header[j] != t.header[tc] && t.header[j] != TsColumn && t.numeric[j]
  }

  function SeriesColumnsFrom(t: Table, tc: nat, j: nat): (cols: seq<nat>)
    requires |t.numeric| == |t.header| && tc < |t.header| && j <= |t.header|
    ensures forall k :: k in cols <==> j <= k < |t.header| && IsSeriesColumn(t, tc, k)
    ensures StrictlyIncreasing(cols)
    decreases |t.header| - j
  {
    if j == |t.header| then []
    else
      var rest := SeriesColumnsFrom(t, tc, j + 1);
      assert forall p :: 0 <= p < |rest| ==> rest[p] in rest;
      (if IsSeriesColumn(t, tc, j) then [j] else []) + rest
  }

  /** `num_cols`: the series columns, in header order. */
  function SeriesColumns(t: Table, tc: nat): (cols: seq<nat>)
    requires |t.numeric| == |t.header| && tc < |t.header|
    ensures forall k :: k in cols <==> 0 <= k < |t.header| && IsSeriesColumn(t, tc, k)
    ensures forall p :: 0 <= p < |cols| ==> cols[p] < |t.header|
    ensures StrictlyIncreasing(cols)
  {
    assert forall p :: 0 <= p < |SeriesColumnsFrom(t, tc, 0)| ==> SeriesColumnsFrom(t, tc, 0)[p] in SeriesColumnsFrom(t, tc, 0);
    SeriesColumnsFrom(t, tc, 0)
  }

  function Column(recs: seq<Record>, j: nat): (c: seq<Sample>)
    requires forall x :: x in recs ==> j < |x.cells|
    ensures |c| == |recs|
    ensures forall i :: 0 <= i < |recs| ==> c[i] == recs[i].cells[j].num
  {
    seq(|recs|, i requires 0 <= i < |recs| => recs[i].cells[j].num)
  }

  /** `Y_raw` and `Y_norm` before the all-missing rows are dropped. */
  function RawSeries(header: seq<string>, recs: seq<Record>, cols: seq<nat>): (s: seq<Series>)
    requires forall p :: 0 <= p < |cols| ==> cols[p] < |header|
    requires forall x :: x in recs ==> |x.cells| == |header|
    ensures |s| == |cols|
    ensures forall k :: 0 <= k < |cols| ==>
      s[k].name == header[cols[k]] && s[k].raw == Column(recs, cols[k]) && s[k].norm == Normalized(s[k].raw)
  {
    seq(|cols|, k requires 0 <= k < |cols| =>
      var c := Column(recs, cols[k]);
      Series(header[cols[k]], c, Normalized(c)))
  }

  // ---------------------------------------------------------------- dropping all-missing rows

  function Keep<T>(s: seq<T>, idx: seq<nat>): (r: seq<T>)
    requires forall p :: 0 <= p < |idx| ==> idx[p] < |s|
    ensures |r| == |idx|
    ensures forall p :: 0 <= p < |idx| ==> r[p] == s[idx[p]]
  {
    seq(|idx|, p requires 0 <= p < |idx| => s[idx[p]])
  }

  predicate Aligned(series: seq<Series>, n: nat) {
    forall j :: 0 <= j < |series| ==> |series[j].raw| == n && |series[j].norm| == n
  }

  /** `np.where(valid_row)` from row `i` on: the rows with a present sample in some series. */
  function PresentRowsFrom(series: seq<Series>, n: nat, i: nat): (idx: seq<nat>)
    requires Aligned(series, n) && i <= n
    ensures forall k :: k in idx <==> i <= k < n && RowPresent(series, k)
    ensures StrictlyIncreasing(idx)
    decreases n - i
  {
    if i == n then []
    else
      var rest := PresentRowsFrom(series, n, i + 1);
      if RowPresent(series, i) then
        PrependIncreasing(i, rest);
        [i] + rest
      else
        rest
  }

  /** Putting a row number below every later one in front keeps the list strictly increasing. */
  lemma PrependIncreasing(i: nat, rest: seq<nat>)
    requires StrictlyIncreasing(rest) && forall k :: k in rest ==> i < k
    ensures StrictlyIncreasing([i] + rest)
    ensures forall k :: k in [i] + rest <==> k == i || k in rest
  {
    assert forall p :: 0 <= p < |rest| ==> rest[p] in rest;
  }

  function PresentRows(series: seq<Series>, n: nat): (idx: seq<nat>)
    requires Aligned(series, n)
    ensures forall k :: k in idx <==> 0 <= k < n && RowPresent(series, k)
    ensures StrictlyIncreasing(idx)
  {
    PresentRowsFrom(series, n, 0)
  }

  /** `x_ns[valid_row]`, `Y_raw[c][valid_row]`, `Y_norm[c][valid_row]`. */
  function DropEmptyRows(timeCol: string, times: seq<int>, series: seq<Series>): (d: Dataset)
    requires Aligned(series, |times|)
    ensures d.timeCol == timeCol
    ensures Names(d.series) == Names(series)
    ensures Aligned(d.series, |d.times|)
    ensures var idx := PresentRows(series, |times|);
      && |d.times| == |idx|
      && (forall p :: 0 <= p < |idx| ==> idx[p] < |times| && d.times[p] == times[idx[p]])
      && (forall j, p :: 0 <= j < |series| && 0 <= p < |idx| ==>
            d.series[j].raw[p] == series[j].raw[idx[p]] && d.series[j].norm[p] == series[j].norm[idx[p]])
  {
    var idx := PresentRows(series, |times|);
    assert forall p :: 0 <= p < |idx| ==> idx[p] in idx;
    Dataset(timeCol, Keep(times, idx),
      seq(|series|, j requires 0 <= j < |series| =>
        Series(series[j].name, Keep(series[j].raw, idx), Keep(series[j].norm, idx))))
  }

  // ---------------------------------------------------------------- the pipeline

  /** The rows that survive the time parse, the sort and the range filter. */
  function Retained(t: Table, tc: nat, start: Option<int>, end: Option<int>): (recs: seq<Record>)
    requires WellFormed(t) && tc < |t.header|
    ensures SortedByTime(recs)
    ensures forall x :: x in recs <==> x.cells in t.rows && x.cells[tc].stamp == Some(x.t) && InRange(x.t, start, end)
    ensures forall x :: x in recs ==> |x.cells| == |t.header|
  {
    var sorted := SortByTime(Stamped(t.rows, tc));
    assert forall x :: x in sorted <==> x in Stamped(t.rows, tc) by {
      forall x ensures x in sorted <==> x in Stamped(t.rows, tc) {
        assert x in sorted <==> x in multiset(sorted);
      }
    }
    FilterRange(sorted, start, end)
  }

  /** Each row whose time parsed is kept once per occurrence in the file; nothing else is kept. */
  lemma {:induction false} StampedCount(rows: seq<seq<Cell>>, tc: nat)
    requires forall row :: row in rows ==> tc < |row|
    ensures forall x: Record :: (multiset(Stamped(rows, tc))[x] ==
      if tc < |x.cells| && x.cells[tc].stamp == Some(x.t) then multiset(rows)[x.cells] else 0)
  {
    if rows != [] {
      assert forall row :: row in rows[1..] ==> row in rows;
      StampedCount(rows[1..], tc);
      assert rows == [rows[0]] + rows[1..];
      var head := if rows[0][tc].stamp.Some? then [Record(rows[0][tc].stamp.value, rows[0])] else [];
      assert Stamped(rows, tc) == head + Stamped(rows[1..], tc);
      forall x: Record
        ensures multiset(Stamped(rows, tc))[x] ==
          if tc < |x.cells| && x.cells[tc].stamp == Some(x.t) then multiset(rows)[x.cells] else 0
      {
        assert multiset(Stamped(rows, tc))[x] == multiset(head)[x] + multiset(Stamped(rows[1..], tc))[x];
        assert multiset(rows)[x.cells] == multiset([rows[0]])[x.cells] + multiset(rows[1..])[x.cells];
      }
    }
  }

  /** The range filter keeps every in-range record as often as it occurs, and no other. */
  lemma {:induction false} FilterRangeCount(s: seq<Record>, start: Option<int>, end: Option<int>)
    ensures forall x: Record :: (multiset(FilterRange(s, start, end))[x] ==
      if InRange(x.t, start, end) then multiset(s)[x] else 0)
  {
    if s != [] {
      FilterRangeCount(s[1..], start, end);
      assert s == [s[0]] + s[1..];
      var head := if InRange(s[0].t, start, end) then [s[0]] else [];
      assert FilterRange(s, start, end) == head + FilterRange(s[1..], start, end);
      forall x: Record
        ensures multiset(FilterRange(s, start, end))[x] == if InRange(x.t, start, end) then multiset(s)[x] else 0
      {
        assert multiset(FilterRange(s, start, end))[x] == multiset(head)[x] + multiset(FilterRange(s[1..], start, end))[x];
        assert multiset(s)[x] == multiset([s[0]])[x] + multiset(s[1..])[x];
      }
    }
  }

  /** A file row whose time parsed inside the range is retained once per occurrence in the file; nothing else is retained. */
  lemma RetainedCount(t: Table, tc: nat, start: Option<int>, end: Option<int>)
    requires WellFormed(t) && tc < |t.header|
    ensures forall x: Record :: (multiset(Retained(t, tc, start, end))[x] ==
      if tc < |x.cells| && x.cells[tc].stamp == Some(x.t) && InRange(x.t, start, end) then multiset(t.rows)[x.cells] else 0)
  {
    var sorted := SortByTime(Stamped(t.rows, tc));
    StampedCount(t.rows, tc);
    FilterRangeCount(sorted, start, end);
    assert Retained(t, tc, start, end) == FilterRange(sorted, start, end);
  }

  /** `_read_and_prepare` from the parsed table on, with the optional inclusive time range. */
  function Prepare(t: Table, start: Option<int>, end: Option<int>): (r: Result<Dataset, IngestError>)
    requires WellFormed(t)
    ensures r == Failure(NoColumns) <==> t.header == []
    ensures r.Success? ==> var tc := TimeColumn(t.header).value;
      && r.value.timeCol == t.header[tc]
      && |r.value.series| == |SeriesColumns(t, tc)| > 0
  {
    match TimeColumn(t.header)
    case Failure(e) => Failure(e)
    case Success(tc) =>
      var recs := Retained(t, tc, start, end);
      var cols := SeriesColumns(t, tc);
      if cols == [] then Failure(NoNumericSeries)
      else if recs == [] then Failure(NoRows)
      else Success(Assemble(t, tc, recs, cols))
  }

  /** The dataset built from the retained rows and the series columns. */
  function Assemble(t: Table, tc: nat, recs: seq<Record>, cols: seq<nat>): (d: Dataset)
    requires WellFormed(t) && tc < |t.header| && cols == SeriesColumns(t, tc)
    requires forall x :: x in recs ==> |x.cells| == |t.header|
    ensures d.timeCol == t.header[tc] && |d.series| == |cols|
  {
    assert forall p :: 0 <= p < |cols| ==> cols[p] in cols;
    var series := RawSeries(t.header, recs, cols);
    DropEmptyRows(t.header[tc], Times(recs), series)
  }

  // ---------------------------------------------------------------- what ingestion guarantees

  lemma KeepDistinct(s: seq<string>, idx: seq<nat>)
    requires Distinct(s) && StrictlyIncreasing(idx)
    requires forall p :: 0 <= p < |idx| ==> idx[p] < |s|
    ensures Distinct(Keep(s, idx))
  {
  }

  /** Keeping every present sample keeps the same present values. */
  lemma KeepSamePresent(y: seq<Sample>, idx: seq<nat>)
    requires forall p :: 0 <= p < |idx| ==> idx[p] < |y|
    requires forall i :: 0 <= i < |y| && y[i].Some? ==> i in idx
    ensures forall v :: (exists p :: 0 <= p < |idx| && Keep(y, idx)[p] == Some(v)) <==> (exists i :: 0 <= i < |y| && y[i] == Some(v))
  {
    var k := Keep(y, idx);
    forall v | exists i :: 0 <= i < |y| && y[i] == Some(v)
      ensures exists p :: 0 <= p < |idx| && k[p] == Some(v)
    {
      var i :| 0 <= i < |y| && y[i] == Some(v);
      var p :| 0 <= p < |idx| && idx[p] == i;
      assert k[p] == Some(v);
    }
  }

  /** Extremes over a selection of positions that includes every present sample are the extremes of the whole. */
  lemma ExtremesOfKeep(y: seq<Sample>, idx: seq<nat>)
    requires forall p :: 0 <= p < |idx| ==> idx[p] < |y|
    requires forall i :: 0 <= i < |y| && y[i].Some? ==> i in idx
    ensures MinPresent(Keep(y, idx)) == MinPresent(y)
    ensures MaxPresent(Keep(y, idx)) == MaxPresent(y)
  {
    KeepSamePresent(y, idx);
    var k := Keep(y, idx);
    SameValuesSameExtremes(k, y);
  }

  /** Two sample sequences with the same present values have the same extremes. */
  lemma SameValuesSameExtremes(a: seq<Sample>, b: seq<Sample>)
    requires forall v :: (exists p :: 0 <= p < |a| && a[p] == Some(v)) <==> (exists i :: 0 <= i < |b| && b[i] == Some(v))
    ensures MinPresent(a) == MinPresent(b)
    ensures MaxPresent(a) == MaxPresent(b)
  {
    ValuesWithin(a, b);
    ValuesWithin(b, a);
  }

  /** When every present value of `a` also occurs in `b`, the extremes of `b` bound those of `a`. */
  lemma ValuesWithin(a: seq<Sample>, b: seq<Sample>)
    requires forall v :: (exists p :: 0 <= p < |a| && a[p] == Some(v)) ==> (exists i :: 0 <= i < |b| && b[i] == Some(v))
    ensures MinPresent(a).Some? ==> MinPresent(b).Some? && MinPresent(b).value <= MinPresent(a).value
    ensures MaxPresent(a).Some? ==> MaxPresent(b).Some? && MaxPresent(a).value <= MaxPresent(b).value
  {
    if MinPresent(a).Some? {
      var v := MinPresent(a).value;
      var p :| 0 <= p < |a| && a[p] == Some(v);
      var i :| 0 <= i < |b| && b[i] == Some(v);
      assert b[i].Some?;
    }
    if MaxPresent(a).Some? {
      var v := MaxPresent(a).value;
      var p :| 0 <= p < |a| && a[p] == Some(v);
      var i :| 0 <= i < |b| && b[i] == Some(v);
      assert b[i].Some?;
    }
  }

  /** Dropping rows where a series is missing commutes with normalising it. */
  lemma NormalizedOfKeep(y: seq<Sample>, idx: seq<nat>)
    requires forall p :: 0 <= p < |idx| ==> idx[p] < |y|
    requires forall i :: 0 <= i < |y| && y[i].Some? ==> i in idx
    ensures Normalized(Keep(y, idx)) == Keep(Normalized(y), idx)
  {
    ExtremesOfKeep(y, idx);
    var k := Keep(y, idx);
    assert HasSpread(k) == HasSpread(y);
    forall p | 0 <= p < |idx|
      ensures Normalized(k)[p] == Normalized(y)[idx[p]]
    {
      if HasSpread(y) {
        NormalizedAt(k, p);
        NormalizedAt(y, idx[p]);
      }
    }
  }

  /** The dataset built by `DropEmptyRows` satisfies the dataset invariant. */
  lemma DropEmptyRowsValid(timeCol: string, times: seq<int>, series: seq<Series>)
    requires Aligned(series, |times|)
    requires |series| >= 1 && Distinct(Names(series)) && timeCol !in Names(series)
    requires NonDecreasing(times)
    ensures Valid(DropEmptyRows(timeCol, times, series))
  {
    var d := DropEmptyRows(timeCol, times, series);
    var idx := PresentRows(series, |times|);
    forall p | 0 <= p < |d.times|
      ensures RowPresent(d.series, p)
    {
      assert idx[p] in idx;
      var j :| 0 <= j < |series| && series[j].raw[idx[p]].Some?;
      assert d.series[j].raw[p].Some?;
    }
  }

  /** A successful load is the dataset assembled from the retained rows and the series columns. */
  lemma IngestUnfold(t: Table, start: Option<int>, end: Option<int>)
    requires WellFormed(t) && Prepare(t, start, end).Success?
    ensures TimeColumn(t.header).Success?
    ensures var tc := TimeColumn(t.header).value;
      var recs := Retained(t, tc, start, end);
      var cols := SeriesColumns(t, tc);
      && cols != [] && recs != []
      && (forall p :: 0 <= p < |cols| ==> cols[p] < |t.header|)
      && Prepare(t, start, end).value == DropEmptyRows(t.header[tc], Times(recs), RawSeries(t.header, recs, cols))
  {
    var tc := TimeColumn(t.header).value;
    var cols := SeriesColumns(t, tc);
    assert forall p :: 0 <= p < |cols| ==> cols[p] in cols;
  }

  /** The series names are distinct and none of them is the time column. */
  lemma SeriesNames(t: Table, tc: nat, recs: seq<Record>, cols: seq<nat>)
    requires WellFormed(t) && tc < |t.header|
    requires cols == SeriesColumns(t, tc)
    requires forall x :: x in recs ==> |x.cells| == |t.header|
    ensures forall p :: 0 <= p < |cols| ==> cols[p] < |t.header|
    ensures Names(RawSeries(t.header, recs, cols)) == Keep(t.header, cols)
    ensures Distinct(Names(RawSeries(t.header, recs, cols)))
    ensures t.header[tc] !in Names(RawSeries(t.header, recs, cols))
  {
    assert forall p :: 0 <= p < |cols| ==> cols[p] in cols;
    KeepDistinct(t.header, cols);
  }

  /** After a successful load the dataset invariant holds, the time column is the chosen one and the series are the numeric non-time columns in header order. */
  lemma IngestValid(t: Table, start: Option<int>, end: Option<int>)
    requires WellFormed(t) && Prepare(t, start, end).Success?
    ensures var d := Prepare(t, start, end).value;
      var tc := TimeColumn(t.header).value;
      && Valid(d)
      && d.timeCol == t.header[tc]
      && Names(d.series) == Keep(t.header, SeriesColumns(t, tc))
  {
    IngestUnfold(t, start, end);
    var tc := TimeColumn(t.header).value;
    var recs := Retained(t, tc, start, end);
    var cols := SeriesColumns(t, tc);
    SeriesNames(t, tc, recs, cols);
    var series := RawSeries(t.header, recs, cols);
    assert Aligned(series, |Times(recs)|);
    assert NonDecreasing(Times(recs));
    DropEmptyRowsValid(t.header[tc], Times(recs), series);

  }

  /** Every retained time lies in the requested range. */
  lemma IngestInRange(t: Table, start: Option<int>, end: Option<int>)
    requires WellFormed(t) && Prepare(t, start, end).Success?
    ensures var d := Prepare(t, start, end).value;
      forall i :: 0 <= i < |d.times| ==> InRange(d.times[i], start, end)
  {
    IngestUnfold(t, start, end);
    var tc := TimeColumn(t.header).value;
    var recs := Retained(t, tc, start, end);
    var cols := SeriesColumns(t, tc);
    var series := RawSeries(t.header, recs, cols);
    var d := DropEmptyRows(t.header[tc], Times(recs), series);
    var idx := PresentRows(series, |recs|);
    forall i | 0 <= i < |d.times|
      ensures InRange(d.times[i], start, end)
    {
      assert recs[idx[i]] in recs;
    }
  }

  /** The stored normalisation of every series is the normalisation of its stored raw samples. */
  lemma IngestNormalized(t: Table, start: Option<int>, end: Option<int>)
    requires WellFormed(t) && Prepare(t, start, end).Success?
    ensures var d := Prepare(t, start, end).value;
      forall j :: 0 <= j < |d.series| ==> d.series[j].norm == Normalized(d.series[j].raw)
  {
    IngestUnfold(t, start, end);
    var tc := TimeColumn(t.header).value;
    var recs := Retained(t, tc, start, end);
    var cols := SeriesColumns(t, tc);
    var series := RawSeries(t.header, recs, cols);
    var d := DropEmptyRows(t.header[tc], Times(recs), series);
    assert |d.series| == |series| by {
      assert |Names(d.series)| == |Names(series)|;
    }
    forall j | 0 <= j < |d.series|
      ensures d.series[j].norm == Normalized(d.series[j].raw)
    {
      DropKeepsNormalized(t.header[tc], Times(recs), series, j);
    }
  }

  /** Dropping the empty rows keeps a series' normalisation equal to that of its raw samples. */
  lemma DropKeepsNormalized(timeCol: string, times: seq<int>, series: seq<Series>, j: nat)
    requires Aligned(series, |times|) && j < |series|
    requires series[j].norm == Normalized(series[j].raw)
    ensures var d := DropEmptyRows(timeCol, times, series);
      j < |d.series| && d.series[j].norm == Normalized(d.series[j].raw)
  {
    var d := DropEmptyRows(timeCol, times, series);
    var idx := PresentRows(series, |times|);
    assert |d.series| == |series| by {
      assert |Names(d.series)| == |Names(series)|;
    }
    forall i | 0 <= i < |times| && series[j].raw[i].Some?
      ensures i in idx
    {
      assert RowPresent(series, i);
    }
    assert d.series[j].raw == Keep(series[j].raw, idx);
    assert d.series[j].norm == Keep(series[j].norm, idx);
    NormalizedOfKeep(series[j].raw, idx);
  }

  /** No series column is left exactly when no column passes the series test. */
  lemma NoSeriesColumns(t: Table, tc: nat)
    requires |t.numeric| == |t.header| && tc < |t.header|
    ensures SeriesColumns(t, tc) == [] <==> forall k :: 0 <= k < |t.header| ==> !IsSeriesColumn(t, tc, k)
  {
    var cols := SeriesColumns(t, tc);
    if cols != [] {
      assert cols[0] in cols;
    }
  }

  /** No row is retained exactly when no row has a parsed time inside the range. */
  lemma NoRetainedRows(t: Table, tc: nat, start: Option<int>, end: Option<int>)
    requires WellFormed(t) && tc < |t.header|
    ensures Retained(t, tc, start, end) == [] <==>
      forall row: seq<Cell> :: row in t.rows ==> row[tc].stamp.None? || !InRange(row[tc].stamp.value, start, end)
  {
    var recs := Retained(t, tc, start, end);
    if recs != [] {
      var x := recs[0];
      assert x in recs;
      assert x.cells in t.rows && x.cells[tc].stamp == Some(x.t) && InRange(x.t, start, end);
    }
    if exists row: seq<Cell> :: row in t.rows && row[tc].stamp.Some? && InRange(row[tc].stamp.value, start, end) {
      var row: seq<Cell> :| row in t.rows && row[tc].stamp.Some? && InRange(row[tc].stamp.value, start, end);
      var x := Record(row[tc].stamp.value, row);
      assert x in recs;
    }
  }

  /** Why a load fails: an empty header, no numeric non-time column, or no row with a parsed time inside the range. */
  lemma IngestFailures(t: Table, start: Option<int>, end: Option<int>)
    requires WellFormed(t)
    ensures Prepare(t, start, end) == Failure(NoColumns) <==> t.header == []
    ensures t.header != [] ==>
      var tc := TimeColumn(t.header).value;
      (Prepare(t, start, end) == Failure(NoNumericSeries) <==>
        forall k :: 0 <= k < |t.header| ==> !IsSeriesColumn(t, tc, k))
    ensures t.header != [] ==>
      var tc := TimeColumn(t.header).value;
      (Prepare(t, start, end) == Failure(NoRows) <==>
        && (exists k :: 0 <= k < |t.header| && IsSeriesColumn(t, tc, k))
        && forall row: seq<Cell> :: row in t.rows ==> row[tc].stamp.None? || !InRange(row[tc].stamp.value, start, end))
  {
    if t.header != [] {
      var tc := TimeColumn(t.header).value;
      NoSeriesColumns(t, tc);
      NoRetainedRows(t, tc, start, end);
    }
  }

  /** Every retained row comes from a row of the file whose time parsed to the retained time, with the same samples. */
  lemma IngestRowSound(t: Table, start: Option<int>, end: Option<int>, i: nat)
    requires WellFormed(t) && Prepare(t, start, end).Success?
    requires i < |Prepare(t, start, end).value.times|
    ensures TimeColumn(t.header).Success?
    ensures var d := Prepare(t, start, end).value;
      var tc := TimeColumn(t.header).value;
      var cols := SeriesColumns(t, tc);
      |d.series| == |cols| &&
      exists row: seq<Cell> :: row in t.rows && |row| == |t.header| && row[tc].stamp == Some(d.times[i]) &&
        forall k :: 0 <= k < |cols| ==> d.series[k].raw[i] == row[cols[k]].num
  {
    IngestUnfold(t, start, end);
    IngestValid(t, start, end);
    var tc := TimeColumn(t.header).value;
    var recs := Retained(t, tc, start, end);
    var cols := SeriesColumns(t, tc);
    var series := RawSeries(t.header, recs, cols);
    var d := DropEmptyRows(t.header[tc], Times(recs), series);
    var idx := PresentRows(series, |recs|);
    var x := recs[idx[i]];
    assert x in recs;
    assert d.times[i] == x.t;
    forall k | 0 <= k < |cols|
      ensures d.series[k].raw[i] == x.cells[cols[k]].num
    {
      assert d.series[k].raw[i] == series[k].raw[idx[i]];
    }
  }

  /** A row with a present sample in some series survives the drop, at the position of its time. */
  lemma DropEmptyRowsKeeps(timeCol: string, times: seq<int>, series: seq<Series>, i0: nat)
    returns (i: nat)
    requires Aligned(series, |times|) && i0 < |times| && RowPresent(series, i0)
    ensures var d := DropEmptyRows(timeCol, times, series);
      && i < |d.times| && d.times[i] == times[i0]
      && forall j :: 0 <= j < |series| ==> d.series[j].raw[i] == series[j].raw[i0]
  {
    var idx := PresentRows(series, |times|);
    assert i0 in idx;
    i :| 0 <= i < |idx| && idx[i] == i0;
  }

  /** A row of the file with a parsed in-range time and a present series sample is a retained, present row. */
  lemma RetainedPresentRow(t: Table, tc: nat, start: Option<int>, end: Option<int>, recs: seq<Record>, cols: seq<nat>, row: seq<Cell>, k0: nat)
    returns (i0: nat)
    requires WellFormed(t) && tc < |t.header| && row in t.rows
    requires recs == Retained(t, tc, start, end) && cols == SeriesColumns(t, tc)
    requires row[tc].stamp.Some? && InRange(row[tc].stamp.value, start, end)
    requires k0 < |cols| && row[cols[k0]].num.Some?
    ensures i0 < |recs| && recs[i0] == Record(row[tc].stamp.value, row)
    ensures RowPresent(RawSeries(t.header, recs, cols), i0)
  {
    var series := RawSeries(t.header, recs, cols);
    var x := Record(row[tc].stamp.value, row);
    assert x in recs;
    i0 :| 0 <= i0 < |recs| && recs[i0] == x;
    assert series[k0].raw[i0].Some?;
  }

  /**
   * The dataset holds, one per series column, the samples of a row stamped `ns`: at some position the
   * time is `ns` and every series' sample is that row's cell in the series' column.
   */
  ghost predicate RowKept(d: Dataset, ns: int, cells: seq<Cell>, cols: seq<nat>) {
    && |d.series| == |cols|
    && exists i :: 0 <= i < |d.times| && d.times[i] == ns &&
         forall k :: 0 <= k < |cols| ==> cols[k] < |cells| && i < |d.series[k].raw| && d.series[k].raw[i] == cells[cols[k]].num
  }

  /** The assembled dataset holds a retained row with a present sample, with all its samples. */
  lemma AssembledRowComplete(header: seq<string>, tc: nat, recs: seq<Record>, cols: seq<nat>, i0: nat)
    requires tc < |header| && i0 < |recs|
    requires forall p :: 0 <= p < |cols| ==> cols[p] < |header|
    requires forall x :: x in recs ==> |x.cells| == |header|
    requires RowPresent(RawSeries(header, recs, cols), i0)
    ensures RowKept(DropEmptyRows(header[tc], Times(recs), RawSeries(header, recs, cols)), recs[i0].t, recs[i0].cells, cols)
  {
    var series := RawSeries(header, recs, cols);
    assert Aligned(series, |Times(recs)|);
    var i := DropEmptyRowsKeeps(header[tc], Times(recs), series, i0);
    var d := DropEmptyRows(header[tc], Times(recs), series);
    assert |d.series| == |cols| by {
      assert |Names(d.series)| == |Names(series)|;
    }
    forall k | 0 <= k < |cols|
      ensures cols[k] < |recs[i0].cells| && i < |d.series[k].raw| && d.series[k].raw[i] == recs[i0].cells[cols[k]].num
    {
      assert recs[i0] in recs;
      assert series[k].raw[i0] == recs[i0].cells[cols[k]].num;
    }
  }

  /** With a series column and a retained row, a load succeeds with the assembled dataset. */
  lemma PrepareSucceeds(t: Table, start: Option<int>, end: Option<int>, tc: nat)
    requires WellFormed(t) && TimeColumn(t.header) == Success(tc)
    requires SeriesColumns(t, tc) != [] && Retained(t, tc, start, end) != []
    ensures Prepare(t, start, end) ==
      Success(DropEmptyRows(t.header[tc], Times(Retained(t, tc, start, end)),
                            RawSeries(t.header, Retained(t, tc, start, end), SeriesColumns(t, tc))))
  {
  }

  /**
   * Every row of the file whose time parsed inside the range and that has a present sample in some
   * series makes the load succeed and is retained, with all its samples.
   */
  lemma IngestRowComplete(t: Table, start: Option<int>, end: Option<int>, row: seq<Cell>, k0: nat)
    requires WellFormed(t) && row in t.rows
    requires TimeColumn(t.header).Success?
    requires row[TimeColumn(t.header).value].stamp.Some?
    requires InRange(row[TimeColumn(t.header).value].stamp.value, start, end)
    requires k0 < |SeriesColumns(t, TimeColumn(t.header).value)|
    requires row[SeriesColumns(t, TimeColumn(t.header).value)[k0]].num.Some?
    ensures Prepare(t, start, end).Success?
    ensures var tc := TimeColumn(t.header).value;
      RowKept(Prepare(t, start, end).value, row[tc].stamp.value, row, SeriesColumns(t, tc))
  {
    var tc := TimeColumn(t.header).value;
    var cols := SeriesColumns(t, tc);
    var recs := Retained(t, tc, start, end);
    var i0 := RetainedPresentRow(t, tc, start, end, recs, cols, row, k0);
    AssembledRowComplete(t.header, tc, recs, cols, i0);
    PrepareSucceeds(t, start, end, tc);
  }
}
