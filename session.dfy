/**
 * The analysis session of the `DASH` window: the loaded dataset and the per-series state, rule
 * table, annotations and compare overlay that its slots update in place. Widgets, pens and the
 * plot itself are not modelled; a dialog's answer arrives as parameters (`ok`, `text`, ...).
 */
module Dash {
  import opened Wrappers
  import opened Data
  import opened Ingest
  import opened Conditions
  import opened Ranking
  import opened Viewport
  import opened Compare

  /** One entry of `highlight_regions`: a labelled span between two clicked sample times. */
  datatype Region = Region(startNs: int, endNs: int, text: string)

  /** One entry of `bookmarks`: `(x_ns, label)`. */
  datatype Bookmark = Bookmark(ns: int, text: string)

  /** What `export_visible_csv` writes: the visible times and, per active series, its raw samples there. */
  datatype Export = Export(times: seq<int>, columns: seq<(string, seq<Sample>)>)

  /** Why `export_visible_csv` writes nothing. */
  datatype ExportError = NoData | NoPointsInRange | NoActiveSeries

  /** `d.get(k, default)`. */
  function Get<V>(m: map<string, V>, k: string, otherwise: V): V {
    if k in m then m[k] else otherwise
  }

  /** `{c: v for c in cols}`. */
  function Uniform(cols: seq<string>, v: bool): (m: map<string, bool>)
    ensures forall c :: c in m <==> c in cols
    ensures forall c :: c in m ==> m[c] == v
  {
    map c | c in cols :: v
  }

  /** The flags after `for c in cols: m[c] = v`. */
  function Assign(m: map<string, bool>, cols: seq<string>, v: bool): map<string, bool> {
    if cols == [] then m else Assign(m, cols[..|cols| - 1], v)[cols[|cols| - 1] := v]
  }

  /** The flags after `for c in cols: m[c] = not m.get(c, True)`. */
  function Inverted(m: map<string, bool>, cols: seq<string>): map<string, bool> {
    if cols == [] then m
    else
      var prev := Inverted(m, cols[..|cols| - 1]);
      prev[cols[|cols| - 1] := !Get(prev, cols[|cols| - 1], true)]
  }

  /** The flags after `for c in cols: m[c] = (c == keep)`. */
  function Only(m: map<string, bool>, cols: seq<string>, keep: string): map<string, bool> {
    if cols == [] then m else Only(m, cols[..|cols| - 1], keep)[cols[|cols| - 1] := cols[|cols| - 1] == keep]
  }

  /** The flags `_plot_all` builds, from an empty map, along the ranking `order`. */
  function Activated(order: seq<string>): map<string, bool> {
    if order == [] then map[] else Activated(order[..|order| - 1])[order[|order| - 1] := |order| - 1 < InitialShown]
  }

  /** A name is in a list exactly when it is in all but the last entry or is the last one. */
  lemma LastSplit(cols: seq<string>)
    requires cols != []
    ensures forall c :: c in cols <==> c in cols[..|cols| - 1] || c == cols[|cols| - 1]
    ensures Distinct(cols) ==> Distinct(cols[..|cols| - 1]) && cols[|cols| - 1] !in cols[..|cols| - 1]
  {
  }

  /** Every listed name is set to `v`; every other name keeps its flag. */
  lemma {:induction false} AssignSpec(m: map<string, bool>, cols: seq<string>, v: bool)
    ensures forall c :: c in Assign(m, cols, v) <==> c in m || c in cols
    ensures forall c :: c in cols ==> Assign(m, cols, v)[c] == v
    ensures forall c :: c in m && c !in cols ==> Assign(m, cols, v)[c] == m[c]
  {
    if cols != [] {
      AssignSpec(m, cols[..|cols| - 1], v);
      LastSplit(cols);
    }
  }

  /** On distinct names every listed flag reads negated; every other name keeps its flag. */
  lemma {:induction false} InvertedSpec(m: map<string, bool>, cols: seq<string>)
    ensures forall c :: c in Inverted(m, cols) <==> c in m || c in cols
    ensures Distinct(cols) ==> forall c :: c in cols ==> Inverted(m, cols)[c] == !Get(m, c, true)
    ensures forall c :: c in m && c !in cols ==> Inverted(m, cols)[c] == m[c]
  {
    if cols != [] {
      InvertedSpec(m, cols[..|cols| - 1]);
      LastSplit(cols);
    }
  }

  /** Exactly the listed names end up flagged, `keep` alone among them set; every other name keeps its flag. */
  lemma {:induction false} OnlySpec(m: map<string, bool>, cols: seq<string>, keep: string)
    ensures forall c :: c in Only(m, cols, keep) <==> c in m || c in cols
    ensures forall c :: c in cols ==> Only(m, cols, keep)[c] == (c == keep)
    ensures forall c :: c in m && c !in cols ==> Only(m, cols, keep)[c] == m[c]
  {
    if cols != [] {
      OnlySpec(m, cols[..|cols| - 1], keep);
      LastSplit(cols);
    }
  }

  /**
   * After `_plot_all` exactly the ranked names have a flag, and on a ranking without repeats the
   * name at position `p` is active exactly when `p < InitialShown`.
   */
  lemma {:induction false} ActivatedSpec(order: seq<string>)
    ensures forall c :: c in Activated(order) <==> c in order
    ensures Distinct(order) ==> forall p :: 0 <= p < |order| ==> Activated(order)[order[p]] == (p < InitialShown)
  {
    if order != [] {
      var n := |order| - 1;
      ActivatedSpec(order[..n]);
      LastSplit(order);
      assert Distinct(order) ==> forall p :: 0 <= p < n ==> order[p] != order[n];
    }
  }

  /** Inverting the same distinct names twice restores how every name reads, a missing one included. */
  lemma InvertTwice(m: map<string, bool>, cols: seq<string>, c: string)
    requires Distinct(cols)
    ensures Get(Inverted(Inverted(m, cols), cols), c, true) == Get(m, c, true)
  {
    InvertedSpec(m, cols);
    InvertedSpec(Inverted(m, cols), cols);
  }

  /** Toggling one name twice restores how every name reads. */
  lemma ToggleTwice(m: map<string, bool>, col: string, c: string)
    ensures var once := m[col := !Get(m, col, true)];
      Get(once[col := !Get(once, col, true)], c, true) == Get(m, c, true)
  {
  }

  /** `x_sec`: the time axis in seconds. */
  function Xs(times: seq<int>): (xs: seq<real>)
    ensures |xs| == |times|
    ensures forall i :: 0 <= i < |times| ==> xs[i] == Seconds(times[i])
  {
    seq(|times|, i requires 0 <= i < |times| => Seconds(times[i]))
  }

  /** Picking every position of a distinct list once, in any order, gives a distinct list of the same names. */
  lemma PickAll(names: seq<string>, idx: seq<nat>)
    requires Distinct(names) && Distinct(idx) && |idx| == |names|
    requires forall k :: k in idx <==> 0 <= k < |names|
    ensures forall p :: 0 <= p < |idx| ==> idx[p] < |names|
    ensures Distinct(Keep(names, idx))
    ensures forall c :: c in Keep(names, idx) <==> c in names
  {
    assert forall p :: 0 <= p < |idx| ==> idx[p] in idx;
    var r := Keep(names, idx);
    forall c | c in names ensures c in r {
      var j :| 0 <= j < |names| && names[j] == c;
      assert j in idx;
      var p :| 0 <= p < |idx| && idx[p] == j;
      assert r[p] == c;
    }
  }

  /** `ordered`: the series names in ranking order. */
  function RankedNames(series: seq<Series>, salience: seq<real> -> real): (order: seq<string>)
    requires Distinct(Names(series))
    ensures |order| == |series|
    ensures Distinct(order)
    ensures forall c :: c in order <==> c in Names(series)
  {
    var rank := Rank(Scores(series, salience));
    PickAll(Names(series), rank);
    Keep(Names(series), rank)
  }

  /** The names of `order` whose flag reads true, in that order. */
  function ActiveIn(order: seq<string>, active: map<string, bool>): (cs: seq<string>)
    ensures forall c :: c in cs <==> c in order && Get(active, c, true)
    ensures Distinct(order) ==> Distinct(cs)
  {
    if order == [] then []
    else
      var rest := ActiveIn(order[1..], active);
      assert forall c :: c in order[1..] ==> c in order;
      (if Get(active, order[0], true) then [order[0]] else []) + rest
  }

  /** The active series keep the plot order: they are the order list read at increasing positions. */
  lemma {:induction false} ActiveInOrder(order: seq<string>, active: map<string, bool>) returns (idx: seq<nat>)
    ensures StrictlyIncreasing(idx) && |idx| == |ActiveIn(order, active)|
    ensures forall p :: 0 <= p < |idx| ==> idx[p] < |order| && ActiveIn(order, active)[p] == order[idx[p]]
  {
    if order == [] {
      idx := [];
    } else {
      var rest := ActiveInOrder(order[1..], active);
      var shifted := ShiftPositions(order, ActiveIn(order[1..], active), rest);
      if Get(active, order[0], true) {
        idx := [0] + shifted;
        assert ActiveIn(order, active) == [order[0]] + ActiveIn(order[1..], active);
      } else {
        idx := shifted;
        assert ActiveIn(order, active) == ActiveIn(order[1..], active);
      }
    }
  }

  /** Positions in the tail of a list, moved up by one, are positions in the whole list above its head. */
  lemma ShiftPositions(order: seq<string>, sub: seq<string>, rest: seq<nat>) returns (shifted: seq<nat>)
    requires order != [] && StrictlyIncreasing(rest) && |rest| == |sub|
    requires forall p :: 0 <= p < |rest| ==> rest[p] < |order[1..]| && sub[p] == order[1..][rest[p]]
    ensures StrictlyIncreasing(shifted) && StrictlyIncreasing([0] + shifted) && |shifted| == |sub|
    ensures forall p :: 0 <= p < |shifted| ==> 0 < shifted[p] < |order| && sub[p] == order[shifted[p]]
  {
    shifted := seq(|rest|, p requires 0 <= p < |rest| => rest[p] + 1);
    forall i, j | 0 <= i < j < |[0] + shifted| ensures ([0] + shifted)[i] < ([0] + shifted)[j] {
      assert ([0] + shifted)[j] == shifted[j - 1];
      if i > 0 { assert ([0] + shifted)[i] == shifted[i - 1]; }
    }
  }

  /** `data[c] = Y_raw[c][mask]` for each active series `c`, in the given order. */
  function ExportColumns(d: Dataset, active: seq<string>, rows: seq<nat>): (cs: seq<(string, seq<Sample>)>)
    requires Data.Valid(d)
    requires forall c :: c in active ==> c in Names(d.series)
    requires forall p :: 0 <= p < |rows| ==> rows[p] < |d.times|
    ensures |cs| == |active|
    ensures forall k :: 0 <= k < |active| ==> cs[k].0 == active[k] && Find(d.series, active[k]).Some?
    ensures forall k, p :: 0 <= k < |active| && 0 <= p < |rows| ==>
      |cs[k].1| == |rows| && cs[k].1[p] == d.series[Find(d.series, active[k]).value].raw[rows[p]]
  {
    seq(|active|, k requires 0 <= k < |active| =>
      assert active[k] in active;
      (active[k], Keep(d.series[Find(d.series, active[k]).value].raw, rows)))
  }

  /**
   * The series half of the session invariant: with no data nothing is plotted; with data the series
   * are the dataset's, in header order, and the plot holds each of them exactly once.
   */
  ghost predicate SeriesState(data: Option<Dataset>, cols: seq<string>, order: seq<string>) {
    && (data.None? ==> cols == [] && order == [])
    && (data.Some? ==> Data.Valid(data.value) && cols == Names(data.value.series))
    && Distinct(cols)
    && |order| == |cols| && Distinct(order)
    && (forall c :: c in order <==> c in cols)
  }

  /** Every highlighted span is ordered and labelled. */
  ghost predicate RegionsValid(regions: seq<Region>) {
    forall k :: 0 <= k < |regions| ==> regions[k].startNs <= regions[k].endNs && regions[k].text != ""
  }

  /** A load that succeeds leaves the series state consistent. */
  lemma InstalledState(d: Dataset, salience: seq<real> -> real)
    requires Data.Valid(d)
    ensures SeriesState(Some(d), Names(d.series), RankedNames(d.series, salience))
  {
  }

  /** The keys `plot_compare_overlay` adds to `curves_ref`: the primary series the reference also has. */
  function Overlaid(cols: seq<string>, names: seq<string>): (s: set<string>)
    ensures forall c :: c in s <==> c in cols && c in names
  {
    CommonSeriesSpec(cols, names);
    set c | c in CommonSeries(cols, names)
  }

  class Session {
    /** `time_col`: the time column of the last load that got as far as choosing one. */
    var timeCol: string
    /** `x_ns` with `Y_raw` / `Y_norm`; None before the first successful load. */
    var data: Option<Dataset>
    /** `series_cols`, in header order. */
    var seriesCols: seq<string>
    /** The keys of `curves`: the series in ranking order, as plotted. */
    var plotOrder: seq<string>
    var activeFor: map<string, bool>
    var dsFor: map<string, bool>
    var dsDefault: bool
    var thresholds: map<string, seq<real>>
    var findRules: RuleTable
    var events: seq<Event>
    var regions: seq<Region>
    var highlightMode: bool
    var highlightFirst: Option<int>
    var bookmarks: seq<Bookmark>
    var compareMode: bool
    var compareData: Option<Reference>
    /** The keys of `curves_ref`: the series overlaid from the reference. */
    var refCurves: set<string>

    /**
     * The session invariant: the series are the loaded dataset's, plotted each exactly once; the rule
     * table has distinct keys and no empty rule; a highlight anchor exists only while the mode is on;
     * every region is ordered and labelled.
     */
    ghost predicate Valid()
      reads this`data, this`seriesCols, this`plotOrder, this`findRules, this`highlightMode, this`highlightFirst
      reads this`regions
    {
      && SeriesState(data, seriesCols, plotOrder)
      && TableValid(findRules)
      && (highlightFirst.Some? ==> highlightMode)
      && RegionsValid(regions)
    }

    /** `active_for.get(col, True)`. */
    function IsActive(col: string): bool
      reads this`activeFor
    {
      Get(activeFor, col, true)
    }

    /** `DASH.__init__`: nothing loaded, downsampling on, highlight and compare off. */
    constructor()
      ensures Valid()
      ensures timeCol == DefaultTimeColumn && data == None && seriesCols == [] && plotOrder == []
      ensures activeFor == map[] && dsFor == map[] && dsDefault
      ensures thresholds == map[] && findRules == [] && events == [] && regions == []
      ensures !highlightMode && highlightFirst == None && bookmarks == []
      ensures !compareMode && compareData == None && refCurves == {}
    {
      timeCol := DefaultTimeColumn;
      data := None;
      seriesCols := [];
      plotOrder := [];
      activeFor := map[];
      dsFor := map[];
      dsDefault := true;
      thresholds := map[];
      findRules := [];
      events := [];
      regions := [];
      highlightMode := false;
      highlightFirst := None;
      bookmarks := [];
      compareMode := false;
      compareData := None;
      refCurves := {};
    }

    /**
     * `load_and_plot` from the parsed table on: `_read_and_prepare` and the state half of
     * `_plot_all`. A failed load leaves the session as it was except the time column, which is set as
     * soon as it is chosen. A successful one installs the dataset, resets every per-series flag,
     * clears rules, thresholds, events, regions and the reference, and activates the first
     * `min(6, n)` series of the ranking. Bookmarks and the highlight state survive a reload.
     */
    method Load(t: Table, start: Option<int>, end: Option<int>, salience: seq<real> -> real)
      returns (err: Option<IngestError>)
      requires WellFormed(t) && Valid()
      modifies this`timeCol, this`data, this`seriesCols, this`plotOrder, this`activeFor, this`dsFor
      modifies this`thresholds, this`findRules, this`events, this`regions, this`compareData, this`refCurves
      ensures Valid()
      ensures err.Some? <==> Prepare(t, start, end).Failure?
      ensures err.Some? ==> err.value == Prepare(t, start, end).error
      ensures timeCol == (if t.header == [] then old(timeCol) else t.header[TimeColumn(t.header).value])
      ensures err.Some? ==>
        && data == old(data) && seriesCols == old(seriesCols) && plotOrder == old(plotOrder)
        && activeFor == old(activeFor) && dsFor == old(dsFor) && thresholds == old(thresholds)
        && findRules == old(findRules) && events == old(events) && regions == old(regions)
        && compareData == old(compareData) && refCurves == old(refCurves)
      ensures err.None? ==>
        var d := Prepare(t, start, end).value;
        && data == Some(d)
        && seriesCols == Names(d.series)
        && plotOrder == RankedNames(d.series, salience)
        && activeFor == Activated(plotOrder)
        && dsFor == Uniform(seriesCols, dsDefault)
        && thresholds == map[] && findRules == [] && events == [] && regions == []
        && compareData == None && refCurves == {}
    {
      var r := Prepare(t, start, end);
      if t.header != [] {
        timeCol := t.header[TimeColumn(t.header).value];
      }
      if r.Failure? {
        return Some(r.error);
      }
      IngestValid(t, start, end);
      Install(r.value, salience);
      return None;
    }

    /**
     * The rest of `_read_and_prepare` and `_plot_all` once the dataset is built: install it, reset the
     * per-series state and the overlays, and plot.
     */
    method Install(d: Dataset, salience: seq<real> -> real)
      requires Data.Valid(d)
      requires highlightFirst.Some? ==> highlightMode
      modifies this`data, this`seriesCols, this`plotOrder, this`activeFor, this`dsFor, this`thresholds
      modifies this`findRules, this`events, this`regions, this`compareData, this`refCurves
      ensures Valid()
      ensures data == Some(d)
      ensures seriesCols == Names(d.series)
      ensures plotOrder == RankedNames(d.series, salience)
      ensures activeFor == Activated(plotOrder)
      ensures dsFor == Uniform(seriesCols, dsDefault)
      ensures thresholds == map[] && findRules == [] && events == [] && regions == []
      ensures compareData == None && refCurves == {}
    {
      var order := RankedNames(d.series, salience);
      InstalledState(d, salience);
      SetSeries(d);
      ClearOverlays();
      PlotAll(order);
    }

    /** Install the dataset and its series, every downsampling flag at the default, no activation flag. */
    method SetSeries(d: Dataset)
      modifies this`data, this`seriesCols, this`dsFor, this`activeFor
      ensures data == Some(d)
      ensures seriesCols == Names(d.series)
      ensures dsFor == Uniform(seriesCols, dsDefault)
      ensures activeFor == map[]
    {
      data := Some(d);
      seriesCols := Names(d.series);
      dsFor := Uniform(seriesCols, dsDefault);
      activeFor := map[];
    }

    /** The overlays a reload clears: thresholds, rules, events, regions and the reference. */
    method ClearOverlays()
      modifies this`thresholds, this`findRules, this`events, this`regions, this`compareData, this`refCurves
      ensures thresholds == map[] && findRules == [] && events == [] && regions == []
      ensures compareData == None && refCurves == {}
    {
      thresholds := map[];
      findRules := [];
      events := [];
      regions := [];
      compareData := None;
      refCurves := {};
    }

    /**
     * The state half of `_plot_all`: plot the series in ranking order and activate the first
     * `min(6, n)` of them, every other plotted series inactive.
     */
    method PlotAll(order: seq<string>)
      requires activeFor == map[]
      modifies this`plotOrder, this`activeFor
      ensures plotOrder == order
      ensures activeFor == Activated(order)
    {
      plotOrder := order;
      var i := 0;
      while i < |order|
        invariant 0 <= i <= |order|
        invariant plotOrder == order
        invariant activeFor == Activated(order[..i])
      {
        assert order[..i + 1][..i] == order[..i];
        activeFor := activeFor[order[i] := i < InitialShown];
        i := i + 1;
      }
      assert order[..i] == order;
    }

    /** `on_item_clicked`: flip one series' flag, a missing one reading as active. */
    method ToggleActive(col: string)
      requires col in seriesCols
      modifies this`activeFor
      ensures activeFor == old(activeFor)[col := !old(IsActive(col))]
      ensures IsActive(col) == !old(IsActive(col))
      ensures forall c :: c != col ==> IsActive(c) == old(IsActive(c))
    {
      activeFor := activeFor[col := !IsActive(col)];
    }

    /** `select_all_on` (`on`) and `select_all_off` (`!on`). */
    method SelectAll(on: bool)
      modifies this`activeFor
      ensures activeFor == Assign(old(activeFor), seriesCols, on)
    {
      var i := 0;
      while i < |seriesCols|
        invariant 0 <= i <= |seriesCols|
        invariant activeFor == Assign(old(activeFor), seriesCols[..i], on)
      {
        assert seriesCols[..i + 1][..i] == seriesCols[..i];
        activeFor := activeFor[seriesCols[i] := on];
        i := i + 1;
      }
      assert seriesCols[..i] == seriesCols;
    }

    /** `select_invert`: every series' flag, as read, is negated. */
    method SelectInvert()
      modifies this`activeFor
      ensures activeFor == Inverted(old(activeFor), seriesCols)
    {
      var i := 0;
      while i < |seriesCols|
        invariant 0 <= i <= |seriesCols|
        invariant activeFor == Inverted(old(activeFor), seriesCols[..i])
      {
        assert seriesCols[..i + 1][..i] == seriesCols[..i];
        activeFor := activeFor[seriesCols[i] := !IsActive(seriesCols[i])];
        i := i + 1;
      }
      assert seriesCols[..i] == seriesCols;
    }

    /**
     * `show_first_only`: when some series has a finite sample, keep active only the first one with
     * the largest magnitude; otherwise change nothing.
     */
    method ShowFirstOnly()
      requires data.Some? ==> seriesCols == Names(data.value.series)
      modifies this`activeFor
      ensures data.None? || (forall j :: 0 <= j < |data.value.series| ==> Peaks(data.value.series)[j].None?) ==>
        activeFor == old(activeFor)
      ensures data.Some? && (exists j :: 0 <= j < |data.value.series| && Peaks(data.value.series)[j].Some?) ==>
        exists b: nat :: b < |seriesCols| && IsFirstLargest(Peaks(data.value.series), b) && activeFor == Only(old(activeFor), seriesCols, seriesCols[b])
    {
      if data.None? || seriesCols == [] {
        return;
      }
      var series := data.value.series;
      var best := FirstOnly(series);
      if best.None? {
        return;
      }
      var b := best.value;
      KeepOnly(seriesCols, seriesCols[b]);
      assert b < |seriesCols| && IsFirstLargest(Peaks(series), b);
    }

    /** The loop of `show_first_only`: every listed series inactive except `keep`. */
    method KeepOnly(cols: seq<string>, keep: string)
      modifies this`activeFor
      ensures activeFor == Only(old(activeFor), cols, keep)
    {
      var i := 0;
      while i < |cols|
        invariant 0 <= i <= |cols|
        invariant activeFor == Only(old(activeFor), cols[..i], keep)
      {
        assert cols[..i + 1][..i] == cols[..i];
        activeFor := activeFor[cols[i] := cols[i] == keep];
        i := i + 1;
      }
      assert cols[..i] == cols;
    }

    /** The "Toggle Downsampling" entry of the series menu: flip one series' flag, a missing one reading as the default. */
    method ToggleSeriesDownsampling(col: string)
      requires col in seriesCols
      modifies this`dsFor
      ensures dsFor == old(dsFor)[col := !Get(old(dsFor), col, dsDefault)]
    {
      dsFor := dsFor[col := !Get(dsFor, col, dsDefault)];
    }

    /** `toggle_ds_global`: the new default overwrites the flag of every plotted series. */
    method ToggleDsGlobal(checked: bool)
      requires Valid()
      modifies this`dsDefault, this`dsFor
      ensures dsDefault == checked
      ensures dsFor == Assign(old(dsFor), plotOrder, checked)
      ensures forall c :: c in seriesCols ==> Get(dsFor, c, dsDefault) == dsDefault
    {
      dsDefault := checked;
      var i := 0;
      while i < |plotOrder|
        invariant 0 <= i <= |plotOrder|
        invariant dsDefault == checked
        invariant dsFor == Assign(old(dsFor), plotOrder[..i], checked)
      {
        assert plotOrder[..i + 1][..i] == plotOrder[..i];
        dsFor := dsFor[plotOrder[i] := checked];
        i := i + 1;
      }
      assert plotOrder[..i] == plotOrder;
      AssignSpec(old(dsFor), plotOrder, checked);
    }

    /**
     * The "Set Conditions" entry of the series menu: an accepted dialog with some box checked sets the
     * series' rule in place (a new series goes last), an accepted empty one clears it, a cancelled one
     * changes nothing.
     */
    method SetConditions(col: string, accepted: bool, rule: Rule)
      requires Valid()
      modifies this`findRules
      ensures Valid()
      ensures !accepted ==> findRules == old(findRules)
      ensures accepted && IsEmpty(rule) ==> findRules == Remove(old(findRules), col)
      ensures accepted && !IsEmpty(rule) ==> findRules == Put(old(findRules), col, rule)
      ensures Lookup(findRules, col) == (if !accepted then Lookup(old(findRules), col) else if IsEmpty(rule) then None else Some(rule))
      ensures forall c :: c != col ==> Lookup(findRules, c) == Lookup(old(findRules), c)
    {
      if !accepted {
        return;
      }
      if IsEmpty(rule) {
        forall c ensures TableValid(Remove(findRules, col)) && Lookup(Remove(findRules, col), col).None?
          && (c != col ==> Lookup(Remove(findRules, col), c) == Lookup(findRules, c))
        {
          RemoveLookup(findRules, col, c);
        }
        RemoveLookup(findRules, col, col);
        findRules := Remove(findRules, col);
      } else {
        forall c ensures TableValid(Put(findRules, col, rule)) && Lookup(Put(findRules, col, rule), col) == Some(rule)
          && (c != col ==> Lookup(Put(findRules, col, rule), c) == Lookup(findRules, c))
        {
          PutLookup(findRules, col, rule, c);
        }
        PutLookup(findRules, col, rule, col);
        findRules := Put(findRules, col, rule);
      }
    }

    /** `add_threshold_line`: one more line for the series, equal values included. */
    method AddThresholdLine(col: string, value: real)
      modifies this`thresholds
      ensures thresholds == old(thresholds)[col := Get(old(thresholds), col, []) + [value]]
    {
      thresholds := thresholds[col := Get(thresholds, col, []) + [value]];
    }

    /** `_add_event_line`: one event at the end of the log. */
    method AddEventLine(ns: int, note: Note)
      modifies this`events
      ensures events == old(events) + [Event(ns, note)]
    {
      events := events + [Event(ns, note)];
    }

    /**
     * `add_event_at_cursor`: a note at the sample nearest the cursor line, when data is loaded and the
     * label dialog is accepted with a non-empty text.
     */
    method AddEventAtCursor(cursor: real, text: string, ok: bool)
      modifies this`events
      ensures data.None? || NearestIndex(Xs(data.value.times), cursor).None? || !ok || text == "" ==>
        events == old(events)
      ensures data.Some? && NearestIndex(Xs(data.value.times), cursor).Some? && ok && text != "" ==>
        events == old(events) + [Event(data.value.times[NearestIndex(Xs(data.value.times), cursor).value], Manual(text))]
    {
      if data.None? {
        return;
      }
      var idx := NearestIndex(Xs(data.value.times), cursor);
      if idx.None? || !ok || text == "" {
        return;
      }
      AddEventLine(data.value.times[idx.value], Manual(text));
    }

    /** `toggle_highlight_mode`: set the mode and forget any pending first click. */
    method ToggleHighlightMode(checked: bool)
      requires Valid()
      modifies this`highlightMode, this`highlightFirst
      ensures Valid()
      ensures highlightMode == checked && highlightFirst == None
    {
      highlightMode := checked;
      highlightFirst := None;
    }

    /**
     * The highlight branch of `on_plot_clicked` (a left click inside the plot at `x` seconds). With the
     * mode on, the first click stores the nearest sample time; the second commits the span between the
     * two times when the label is accepted and non-empty, and in every case forgets the first click and
     * turns the mode off.
     */
    method PlotClicked(x: real, ok: bool, text: string)
      requires Valid()
      modifies this`highlightMode, this`highlightFirst, this`regions
      ensures Valid()
      ensures data.None? || NearestIndex(Xs(data.value.times), x).None? || !old(highlightMode) ==>
        highlightMode == old(highlightMode) && highlightFirst == old(highlightFirst) && regions == old(regions)
      ensures data.Some? && NearestIndex(Xs(data.value.times), x).Some? && old(highlightMode) ==>
        var clicked := data.value.times[NearestIndex(Xs(data.value.times), x).value];
        if old(highlightFirst).None? then
          highlightMode && highlightFirst == Some(clicked) && regions == old(regions)
        else
          var a := old(highlightFirst).value;
          && !highlightMode && highlightFirst == None
          && regions == old(regions) +
               (if ok && text != "" then [Region(if a <= clicked then a else clicked, if a <= clicked then clicked else a, text)] else [])
    {
      if data.None? {
        return;
      }
      var idx := NearestIndex(Xs(data.value.times), x);
      if idx.None? || !highlightMode {
        return;
      }
      var clicked := data.value.times[idx.value];
      if highlightFirst.None? {
        highlightFirst := Some(clicked);
      } else {
        var a := highlightFirst.value;
        var s := if a <= clicked then a else clicked;
        var e := if a <= clicked then clicked else a;
        if ok && text != "" {
          regions := regions + [Region(s, e, text)];
        }
        highlightFirst := None;
        highlightMode := false;
      }
    }

    /**
     * `add_bookmark_dialog`: bookmark the sample nearest the middle of the visible x range; an empty
     * label becomes the sample's formatted time, a cancelled dialog adds nothing.
     */
    method AddBookmark(view: Range, text: string, ok: bool, format: int -> string)
      modifies this`bookmarks
      ensures data.None? || NearestIndex(Xs(data.value.times), (view.lo + view.hi) / 2.0).None? || !ok ==>
        bookmarks == old(bookmarks)
      ensures data.Some? && NearestIndex(Xs(data.value.times), (view.lo + view.hi) / 2.0).Some? && ok ==>
        var ns := data.value.times[NearestIndex(Xs(data.value.times), (view.lo + view.hi) / 2.0).value];
        bookmarks == old(bookmarks) + [Bookmark(ns, if text == "" then format(ns) else text)]
    {
      if data.None? {
        return;
      }
      var idx := NearestIndex(Xs(data.value.times), 0.5 * (view.lo + view.hi));
      assert 0.5 * (view.lo + view.hi) == (view.lo + view.hi) / 2.0;
      if idx.None? || !ok {
        return;
      }
      var ns := data.value.times[idx.value];
      var l := if text == "" then format(ns) else text;
      bookmarks := bookmarks + [Bookmark(ns, l)];
    }

    /** `del_bookmark`: remove entry `idx` when it exists; any other row number changes nothing. */
    method DeleteBookmark(idx: int)
      modifies this`bookmarks
      ensures !(0 <= idx < |old(bookmarks)|) ==> bookmarks == old(bookmarks)
      ensures 0 <= idx < |old(bookmarks)| ==>
        && |bookmarks| == |old(bookmarks)| - 1
        && (forall k :: 0 <= k < idx ==> bookmarks[k] == old(bookmarks)[k])
        && (forall k :: idx <= k < |bookmarks| ==> bookmarks[k] == old(bookmarks)[k + 1])
    {
      if idx < 0 {
        return;
      }
      if idx < |bookmarks| {
        bookmarks := bookmarks[..idx] + bookmarks[idx + 1..];
      }
    }

    /**
     * `run_event_finder`: for each rule in table order, one event per hit of its series in time
     * order, appended to the log.
     */
    method RunEventFinder()
      requires data.Some? ==> forall j :: 0 <= j < |data.value.series| ==> |data.value.series[j].raw| == |data.value.times|
      modifies this`events
      ensures data.None? ==> events == old(events)
      ensures data.Some? ==> events == old(events) + Scan(findRules, data.value)
    {
      if data.None? || findRules == [] {
        return;
      }
      ScanAll(findRules, data.value);
    }

    /** The outer loop of `run_event_finder`: the rules in table order, each one's events in time order. */
    method ScanAll(rules: RuleTable, d: Dataset)
      requires forall j :: 0 <= j < |d.series| ==> |d.series[j].raw| == |d.times|
      modifies this`events
      ensures events == old(events) + Scan(rules, d)
    {
      var k := 0;
      while k < |rules|
        invariant 0 <= k <= |rules|
        invariant events == old(events) + Scan(rules[..k], d)
      {
        ScanPrefix(rules, k, d);
        var evs := ScanRule(rules[k].0, rules[k].1, d);
        AppendAssoc(old(events), Scan(rules[..k], d), evs);
        AddEventLines(evs);
        k := k + 1;
      }
      assert rules[..k] == rules;
    }

    /** The inner loop of `run_event_finder`: one `_add_event_line` per event, in order. */
    method AddEventLines(evs: seq<Event>)
      modifies this`events
      ensures events == old(events) + evs
    {
      var p := 0;
      while p < |evs|
        invariant 0 <= p <= |evs|
        invariant events == old(events) + evs[..p]
      {
        assert evs[..p + 1] == evs[..p] + [evs[p]];
        AppendAssoc(old(events), evs[..p], [evs[p]]);
        AddEventLine(evs[p].ns, evs[p].note);
        p := p + 1;
      }
      assert evs[..p] == evs;
    }

    /** `toggle_compare_mode`: turning it off removes the overlay curves but keeps the reference data. */
    method ToggleCompareMode(checked: bool)
      modifies this`compareMode, this`refCurves
      ensures compareMode == checked
      ensures refCurves == if checked then old(refCurves) else {}
    {
      compareMode := checked;
      if !checked {
        refCurves := {};
      }
    }

    /**
     * `open_compare_file` and `plot_compare_overlay`: with compare mode on and a file chosen, an
     * accepted reference replaces the compare data and overlays every primary series it also has,
     * next to the overlays already present.
     */
    method OpenCompareFile(file: Option<Table>)
      requires file.Some? ==> WellFormed(file.value)
      modifies this`compareData, this`refCurves
      ensures !compareMode || file.None? || PrepareReference(file.value).Failure? ==>
        compareData == old(compareData) && refCurves == old(refCurves)
      ensures compareMode && file.Some? && PrepareReference(file.value).Success? ==>
        && compareData == Some(PrepareReference(file.value).value)
        && refCurves == old(refCurves) + Overlaid(seriesCols, PrepareReference(file.value).value.names)
    {
      if !compareMode || file.None? {
        return;
      }
      var r := PrepareReference(file.value);
      if r.Failure? {
        return;
      }
      compareData := Some(r.value);
      refCurves := refCurves + Overlaid(seriesCols, r.value.names);
    }
  }

  /**
   * `export_visible_csv` up to the file dialog, on the session's series state and flags: the samples
   * whose time lies in the visible x range, both ends included, with the raw values of every active
   * series in plotting order.
   */
  function ExportVisible(data: Option<Dataset>, cols: seq<string>, order: seq<string>, active: map<string, bool>, view: Range)
    : (r: Result<Export, ExportError>)
    requires SeriesState(data, cols, order)
    ensures data.None? || data.value.times == [] <==> r == Failure(NoData)
    ensures r == Failure(NoPointsInRange) <==>
      data.Some? && data.value.times != [] && VisibleRows(Xs(data.value.times), view.lo, view.hi) == []
    ensures r == Failure(NoActiveSeries) <==>
      data.Some? && VisibleRows(Xs(data.value.times), view.lo, view.hi) != [] && forall c :: c in cols ==> !Get(active, c, true)
    ensures r.Success? ==> data.Some? && VisibleRows(Xs(data.value.times), view.lo, view.hi) != []
    ensures r.Success? ==> r.value.times == Keep(data.value.times, VisibleRows(Xs(data.value.times), view.lo, view.hi))
  {
    if data.None? || data.value.times == [] then Failure(NoData)
    else
      var d := data.value;
      var rows := VisibleRows(Xs(d.times), view.lo, view.hi);
      if rows == [] then Failure(NoPointsInRange)
      else
        var names := ActiveIn(order, active);
        assert names != [] ==> names[0] in names;
        if names == [] then Failure(NoActiveSeries)
        else
          assert forall p :: 0 <= p < |rows| ==> rows[p] in rows;
          Success(Export(Keep(d.times, rows), ExportColumns(d, names, rows)))
  }

  /**
   * A successful export holds one column per active plotted series, each named once, in plotting
   * order, with that series' raw samples at the exported rows.
   */
  lemma ExportColumnsSpec(data: Option<Dataset>, cols: seq<string>, order: seq<string>, active: map<string, bool>, view: Range)
    requires SeriesState(data, cols, order)
    requires ExportVisible(data, cols, order, active, view).Success?
    ensures var r := ExportVisible(data, cols, order, active, view).value;
      && r.columns != [] && Distinct(Keys(r.columns))
      && Keys(r.columns) == ActiveIn(order, active)
      && (forall c :: c in Keys(r.columns) <==> c in cols && Get(active, c, true))
    ensures var d := data.value;
      var r := ExportVisible(data, cols, order, active, view).value;
      var rows := VisibleRows(Xs(d.times), view.lo, view.hi);
      forall k, p :: 0 <= k < |r.columns| && 0 <= p < |rows| ==>
        && Find(d.series, r.columns[k].0).Some?
        && |r.columns[k].1| == |rows|
        && r.columns[k].1[p] == d.series[Find(d.series, r.columns[k].0).value].raw[rows[p]]
  {
    var d := data.value;
    var rows := VisibleRows(Xs(d.times), view.lo, view.hi);
    var names := ActiveIn(order, active);
    var r := ExportVisible(data, cols, order, active, view).value;
    assert forall p :: 0 <= p < |rows| ==> rows[p] in rows;
    assert r.columns == ExportColumns(d, names, rows);
    assert Keys(r.columns) == names by {
      assert |Keys(r.columns)| == |names|;
    }
  }
}
