/**
 * Compare mode: `open_compare_file` reads a reference file through a laxer copy of the load
 * pipeline, and `plot_compare_overlay` overlays the primary series the reference also has.
 */
module Compare {
  import opened Wrappers
  import opened Data
  import opened Ingest

  /**
   * `compare_data`: the reference time axis and its raw series, one column per name. Nothing is
   * normalised, no time range is applied and no all-missing row is dropped.
   */
  datatype Reference = Reference(times: seq<int>, names: seq<string>, columns: seq<seq<Sample>>)

  function Columns(recs: seq<Record>, cols: seq<nat>): (cs: seq<seq<Sample>>)
    requires forall x, p :: x in recs && 0 <= p < |cols| ==> cols[p] < |x.cells|
    ensures |cs| == |cols|
    ensures forall k :: 0 <= k < |cols| ==> cs[k] == Column(recs, cols[k])
  {
    seq(|cols|, k requires 0 <= k < |cols| => Column(recs, cols[k]))
  }

  /**
   * The reference half of `open_compare_file`: the same time-column choice, time parse and sort as a
   * load, but only an empty header fails; a reference without numeric columns is accepted.
   */
  function PrepareReference(t: Table): (r: Result<Reference, IngestError>)
    requires WellFormed(t)
    ensures r.Failure? <==> t.header == []
    ensures r.Failure? ==> r.error == NoColumns
  {
    match TimeColumn(t.header)
    case Failure(e) => Failure(e)
    case Success(tc) =>
      var recs := Retained(t, tc, None, None);
      var cols := SeriesColumns(t, tc);
      Success(Reference(Times(recs), Keep(t.header, cols), Columns(recs, cols)))
  }

  /** An accepted reference is the one assembled from the sorted stamped rows and the series columns. */
  lemma ReferenceUnfold(t: Table)
    requires WellFormed(t) && t.header != []
    ensures TimeColumn(t.header).Success?
    ensures var tc := TimeColumn(t.header).value;
      var recs := Retained(t, tc, None, None);
      var cols := SeriesColumns(t, tc);
      PrepareReference(t) == Success(Reference(Times(recs), Keep(t.header, cols), Columns(recs, cols)))
  {
  }

  /**
   * An accepted reference is rectangular and ordered in time; its series are the numeric non-time
   * columns, in header order, with distinct names.
   */
  lemma ReferenceShape(t: Table)
    requires WellFormed(t) && t.header != []
    ensures TimeColumn(t.header).Success?
    ensures var r := PrepareReference(t).value;
      var tc := TimeColumn(t.header).value;
      && r.names == Keep(t.header, SeriesColumns(t, tc))
      && Distinct(r.names)
      && t.header[tc] !in r.names
      && |r.columns| == |r.names|
      && (forall k :: 0 <= k < |r.columns| ==> |r.columns[k]| == |r.times|)
      && NonDecreasing(r.times)
  {
    ReferenceUnfold(t);
    var tc := TimeColumn(t.header).value;
    var recs := Retained(t, tc, None, None);
    var cols := SeriesColumns(t, tc);
    assert forall p :: 0 <= p < |cols| ==> cols[p] < |t.header| && cols[p] != tc by {
      forall p | 0 <= p < |cols| ensures cols[p] < |t.header| && cols[p] != tc {
        assert cols[p] in cols;
      }
    }
    assert forall x :: x in recs ==> |x.cells| == |t.header|;
    assert SortedByTime(recs);
    AssembledShape(t.header, tc, recs, cols);
  }

  lemma AssembledShape(header: seq<string>, tc: nat, recs: seq<Record>, cols: seq<nat>)
    requires Distinct(header) && tc < |header|
    requires StrictlyIncreasing(cols)
    requires forall p :: 0 <= p < |cols| ==> cols[p] < |header| && cols[p] != tc
    requires forall x :: x in recs ==> |x.cells| == |header|
    requires SortedByTime(recs)
    ensures var names := Keep(header, cols);
      var cs := Columns(recs, cols);
      && Distinct(names)
      && header[tc] !in names
      && |cs| == |names|
      && (forall k :: 0 <= k < |cs| ==> |cs[k]| == |Times(recs)|)
      && NonDecreasing(Times(recs))
  {
    KeepDistinct(header, cols);
  }

  /**
   * Every row of the reference whose time parsed is kept, even one without any numeric value, and
   * every kept row comes from such a row.
   */
  lemma ReferenceRows(t: Table, row: seq<Cell>)
    requires WellFormed(t) && t.header != []
    ensures TimeColumn(t.header).Success?
    ensures var r := PrepareReference(t).value;
      var tc := TimeColumn(t.header).value;
      var cols := SeriesColumns(t, tc);
      |r.columns| == |cols| &&
      (row in t.rows && row[tc].stamp.Some? ==>
        exists i :: 0 <= i < |r.times| && r.times[i] == row[tc].stamp.value &&
          forall k :: 0 <= k < |cols| ==> r.columns[k][i] == row[cols[k]].num)
  {
    var tc := TimeColumn(t.header).value;
    var recs := Retained(t, tc, None, None);
    var cols := SeriesColumns(t, tc);
    if row in t.rows && row[tc].stamp.Some? {
      var x := Record(row[tc].stamp.value, row);
      assert x in recs;
      var i :| 0 <= i < |recs| && recs[i] == x;
      assert Times(recs)[i] == x.t;
    }
  }

  /** Every kept reference row comes from a row of the file with that time and those samples. */
  lemma ReferenceRowSound(t: Table, i: nat)
    requires WellFormed(t) && t.header != []
    ensures TimeColumn(t.header).Success?
    ensures var r := PrepareReference(t).value;
      var tc := TimeColumn(t.header).value;
      var cols := SeriesColumns(t, tc);
      i < |r.times| ==>
        exists row: seq<Cell> :: row in t.rows && row[tc].stamp == Some(r.times[i]) &&
          forall k :: 0 <= k < |cols| ==> r.columns[k][i] == row[cols[k]].num
  {
    var tc := TimeColumn(t.header).value;
    var recs := Retained(t, tc, None, None);
    if i < |recs| {
      assert recs[i] in recs;
    }
  }

  // ---------------------------------------------------------------- common series

  function CommonFrom(primary: seq<string>, names: seq<string>, j: nat): (idx: seq<nat>)
    requires j <= |primary|
    ensures forall k :: k in idx <==> j <= k < |primary| && primary[k] in names
    ensures StrictlyIncreasing(idx)
    decreases |primary| - j
  {
    if j == |primary| then []
    else
      var rest := CommonFrom(primary, names, j + 1);
      assert forall p :: 0 <= p < |rest| ==> rest[p] in rest;
      (if primary[j] in names then [j] else []) + rest
  }

  /**
   * `[c for c in self.series_cols if c in compare_data['series_cols']]`: the primary series the
   * reference also has, as a subsequence of the primary order.
   */
  function CommonSeries(primary: seq<string>, names: seq<string>): (common: seq<string>)
    ensures forall p :: 0 <= p < |common| ==> common[p] in primary && common[p] in names
  {
    var idx := CommonFrom(primary, names, 0);
    assert forall p :: 0 <= p < |idx| ==> idx[p] in idx;
    Keep(primary, idx)
  }

  /**
   * The common series are exactly the names in both lists; they keep the primary order (they are the
   * primary list at increasing positions) and are distinct when the primary names are.
   */
  lemma CommonSeriesSpec(primary: seq<string>, names: seq<string>)
    ensures var common := CommonSeries(primary, names);
      && (forall c :: c in common <==> c in primary && c in names)
      && (exists idx: seq<nat> :: StrictlyIncreasing(idx) && |idx| == |common|
            && (forall p :: 0 <= p < |idx| ==> idx[p] < |primary| && common[p] == primary[idx[p]]))
      && (Distinct(primary) ==> Distinct(common))
  {
    var idx := CommonFrom(primary, names, 0);
    assert forall p :: 0 <= p < |idx| ==> idx[p] in idx;
    var common := Keep(primary, idx);
    forall c | c in primary && c in names ensures c in common {
      var k :| 0 <= k < |primary| && primary[k] == c;
      assert k in idx;
      var p :| 0 <= p < |idx| && idx[p] == k;
      assert common[p] == c;
    }
    if Distinct(primary) {
      KeepDistinct(primary, idx);
    }
  }
}
