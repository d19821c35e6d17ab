/**
 * The analysis session's dataset: the time axis in integer nanoseconds and, per numeric column,
 * the raw samples and their [0,1] normalisation. A sample is None where the source holds NaN
 * or another non-finite float.
 */
module Data {
  import opened Wrappers

  type Sample = Option<real>

  datatype Series = Series(name: string, raw: seq<Sample>, norm: seq<Sample>)

  /** `time_col`, `x_ns` and the `Y_raw` / `Y_norm` dictionaries, in `series_cols` order. */
  datatype Dataset = Dataset(timeCol: string, times: seq<int>, series: seq<Series>)

  predicate NonDecreasing(s: seq<int>) {
    forall i, j :: 0 <= i < j < |s| ==> s[i] <= s[j]
  }

  predicate StrictlyIncreasing(s: seq<nat>) {
    forall i, j :: 0 <= i < j < |s| ==> s[i] < s[j]
  }

  predicate Distinct<T(==)>(s: seq<T>) {
    forall i, j :: 0 <= i < j < |s| ==> s[i] != s[j]
  }

  /** Appending in two steps is appending once. */
  lemma AppendAssoc<T>(a: seq<T>, b: seq<T>, c: seq<T>)
    ensures (a + b) + c == a + (b + c)
  {
  }

  function Names(series: seq<Series>): (r: seq<string>)
    ensures |r| == |series|
    ensures forall j :: 0 <= j < |series| ==> r[j] == series[j].name
  {
    seq(|series|, j requires 0 <= j < |series| => series[j].name)
  }

  /** Row `i` has a finite value in at least one series. */
  predicate RowPresent(series: seq<Series>, i: nat)
    requires forall j :: 0 <= j < |series| ==> i < |series[j].raw|
  {
    exists j :: 0 <= j < |series| && series[j].raw[i].Some?
  }

  /** What ingestion guarantees of every dataset it hands to the session. */
  predicate Valid(d: Dataset) {
    && |d.series| >= 1
    && Distinct(Names(d.series))
    && d.timeCol !in Names(d.series)
    && (forall j :: 0 <= j < |d.series| ==> |d.series[j].raw| == |d.times| && |d.series[j].norm| == |d.times|)
    && NonDecreasing(d.times)
    && (forall i :: 0 <= i < |d.times| ==> RowPresent(d.series, i))
  }

  /** The position of `name` among the series, as `Y_raw.get(name)` finds it. */
  function Find(series: seq<Series>, name: string): (r: Option<nat>)
    ensures r.None? <==> name !in Names(series)
    ensures r.Some? ==> r.value < |series| && series[r.value].name == name
    ensures r.Some? ==> forall j :: 0 <= j < r.value ==> series[j].name != name
  {
    if series == [] then None
    else if series[0].name == name then Some(0)
    else match Find(series[1..], name)
      case None => None
      case Some(j) => Some(j + 1)
  }

  /** `y[np.isfinite(y)]`: the present samples, in order. */
  function Present(y: seq<Sample>): (r: seq<real>)
    ensures |r| <= |y|
    ensures forall v :: v in r <==> Some(v) in y
  {
    if y == [] then []
    else (if y[0].Some? then [y[0].value] else []) + Present(y[1..])
  }

  /** `np.abs` on a finite value. */
  function Abs(x: real): (a: real)
    ensures a >= 0.0 && (a == x || a == -x)
  {
    if x < 0.0 then -x else x
  }

  /** Seconds since the epoch for a nanosecond timestamp (`x_ns / 1e9`). */
  function Seconds(ns: int): real {
    ns as real / 1000000000.0
  }
}
