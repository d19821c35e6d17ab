/**
 * Which series a load shows first and which one "show first only" keeps: the salience ranking of
 * `DASH._plot_all` (a stable descending sort of the per-series scores) and the largest-magnitude
 * search of `DASH.show_first_only`.
 */
module Ranking {
  import opened Wrappers
  import opened Data

  /** `scores[c]`: minus infinity for a series without a finite sample, else a finite salience. */
  datatype Score = NegInf | Finite(v: real)

  /** The score comparison `sorted(..., reverse=True)` orders by. */
  predicate Higher(a: Score, b: Score) {
    a.Finite? && (b.NegInf? || a.v > b.v)
  }

  /**
   * The score of one series. The salience formula (a weighted standard deviation and maximum
   * magnitude of the finite values) is a parameter of the model.
   */
  function ScoreOf(y: seq<Sample>, salience: seq<real> -> real): (s: Score)
    ensures s.NegInf? <==> forall i :: 0 <= i < |y| ==> y[i].None?
    ensures s.Finite? ==> s.v == salience(Present(y))
  {
    var fin := Present(y);
    assert forall i :: 0 <= i < |y| && y[i].Some? ==> y[i].value in fin;
    if fin == [] then NegInf
    else
      assert fin[0] in fin;
      Finite(salience(fin))
  }

  /** The scores of all series, in column order. */
  function Scores(series: seq<Series>, salience: seq<real> -> real): (keys: seq<Score>)
    ensures |keys| == |series|
    ensures forall j :: 0 <= j < |series| ==> keys[j] == ScoreOf(series[j].raw, salience)
  {
    seq(|series|, j requires 0 <= j < |series| => ScoreOf(series[j].raw, salience))
  }

  /** Column `j` comes before column `k` in the ranking: a higher score, or an equal one and an earlier column. */
  predicate Precedes(keys: seq<Score>, j: nat, k: nat)
    requires j < |keys| && k < |keys|
  {
    Higher(keys[j], keys[k]) || (keys[j] == keys[k] && j < k)
  }

  predicate Ranked(keys: seq<Score>, s: seq<nat>) {
    && (forall p :: 0 <= p < |s| ==> s[p] < |keys|)
    && forall p, q :: 0 <= p < q < |s| ==> Precedes(keys, s[p], s[q])
  }

  /** One insertion step of the stable sort: `x` goes after every column that precedes it. */
  function InsertRanked(keys: seq<Score>, s: seq<nat>, x: nat): (r: seq<nat>)
    requires x < |keys| && Ranked(keys, s)
    requires forall p :: 0 <= p < |s| ==> s[p] < x
    ensures |r| == |s| + 1
    ensures forall k :: k in r <==> k in s || k == x
    ensures Ranked(keys, r)
  {
    if s == [] then [x]
    else if Precedes(keys, s[0], x) then
      var rest := InsertRanked(keys, s[1..], x);
      assert forall p :: 0 <= p < |rest| ==> rest[p] in rest;
      assert forall p :: 0 <= p < |s| ==> s[p] in s;
      [s[0]] + rest
    else
      [x] + s
  }

  /** The ranking of the first `n` columns. */
  function RankPrefix(keys: seq<Score>, n: nat): (r: seq<nat>)
    requires n <= |keys|
    ensures |r| == n
    ensures forall k :: k in r <==> 0 <= k < n
    ensures Ranked(keys, r)
  {
    if n == 0 then []
    else
      var r := RankPrefix(keys, n - 1);
      assert forall p :: 0 <= p < |r| ==> r[p] in r;
      InsertRanked(keys, r, n - 1)
  }

  /**
   * `ordered`: every column exactly once, higher scores first and ties in column order, which is
   * what the stable `sorted(series_cols, key=scores, reverse=True)` returns.
   */
  function Rank(keys: seq<Score>): (order: seq<nat>)
    ensures |order| == |keys|
    ensures forall k :: k in order <==> 0 <= k < |keys|
    ensures Ranked(keys, order)
    ensures Distinct(order)
  {
    RankPrefix(keys, |keys|)
  }

  /** Two different columns never precede each other both ways. */
  lemma PrecedesAntisymmetric(keys: seq<Score>, j: nat, k: nat)
    requires j < |keys| && k < |keys| && j != k
    ensures !(Precedes(keys, j, k) && Precedes(keys, k, j))
  {
  }

  /**
   * A ranked permutation is unique, so `Rank` is the stable descending sort: any order of the
   * columns with the properties of `Rank` is `Rank`.
   */
  lemma RankUnique(keys: seq<Score>, s: seq<nat>)
    requires |s| == |keys| && (forall k :: k in s <==> 0 <= k < |keys|) && Ranked(keys, s)
    ensures s == Rank(keys)
  {
    RankAgree(keys, s, Rank(keys), |s|);
  }

  /** In a ranked order, a later position holds a column the earlier one precedes. */
  lemma RankedLater(keys: seq<Score>, s: seq<nat>, i: nat, q: nat)
    requires Ranked(keys, s) && i <= q < |s|
    ensures q == i || Precedes(keys, s[i], s[q])
  {
  }

  /** Two ranked permutations agree on their first `p` positions. */
  lemma {:induction false} RankAgree(keys: seq<Score>, s: seq<nat>, r: seq<nat>, p: nat)
    requires |s| == |keys| && (forall k :: k in s <==> 0 <= k < |keys|) && Ranked(keys, s)
    requires |r| == |keys| && (forall k :: k in r <==> 0 <= k < |keys|) && Ranked(keys, r)
    requires p <= |s|
    ensures s[..p] == r[..p]
  {
    if p > 0 {
      RankAgree(keys, s, r, p - 1);
      var a, b := s[p - 1], r[p - 1];
      assert b in s && a in r;
      var qa :| 0 <= qa < |r| && r[qa] == a;
      var qb :| 0 <= qb < |s| && s[qb] == b;
      // the first p-1 positions hold the same columns, none of which is a or b
      forall i | 0 <= i < p - 1 ensures s[i] != b && r[i] != a {
        assert s[..p - 1][i] == s[i] && r[..p - 1][i] == r[i];
        assert Precedes(keys, r[i], r[p - 1]) && Precedes(keys, s[i], s[p - 1]);
      }
      RankedLater(keys, s, p - 1, qb);
      RankedLater(keys, r, p - 1, qa);
      if a != b {
        PrecedesAntisymmetric(keys, a, b);
      }
      assert a == b;
      assert s[..p] == s[..p - 1] + [a];
      assert r[..p] == r[..p - 1] + [b];
    }
  }

  /** The columns a load activates: the first `min(6, n)` of the ranking. */
  const InitialShown: nat := 6

  // ---------------------------------------------------------------- show first only

  /** `np.nanmax(np.abs(y[np.isfinite(y)]))`, None when the series has no finite sample. */
  function PeakAbs(y: seq<Sample>): (m: Option<real>)
    ensures m.None? <==> forall i :: 0 <= i < |y| ==> y[i].None?
    ensures m.Some? ==> m.value >= 0.0
    ensures m.Some? ==> exists i :: 0 <= i < |y| && y[i].Some? && Abs(y[i].value) == m.value
    ensures m.Some? ==> forall i :: 0 <= i < |y| && y[i].Some? ==> Abs(y[i].value) <= m.value
  {
    if y == [] then None
    else
      var rest := PeakAbs(y[1..]);
      assert forall i :: 1 <= i < |y| ==> y[i] == y[1..][i - 1];
      if y[0].None? then rest
      else if rest.None? || Abs(y[0].value) >= rest.value then Some(Abs(y[0].value))
      else rest
  }

  /** The peak magnitude of every series, in column order. */
  function Peaks(series: seq<Series>): (peaks: seq<Option<real>>)
    ensures |peaks| == |series|
    ensures forall j :: 0 <= j < |series| ==> peaks[j] == PeakAbs(series[j].raw)
  {
    seq(|series|, j requires 0 <= j < |series| => PeakAbs(series[j].raw))
  }

  /** Position `b` holds a peak no other is above, and every earlier peak is strictly below it. */
  predicate IsFirstLargest(peaks: seq<Option<real>>, b: nat) {
    && b < |peaks|
    && peaks[b].Some?
    && (forall j :: 0 <= j < |peaks| && peaks[j].Some? ==> peaks[j].value <= peaks[b].value)
    && (forall j :: 0 <= j < b && peaks[j].Some? ==> peaks[j].value < peaks[b].value)
  }

  /** At most one position is the first largest peak. */
  lemma FirstLargestUnique(peaks: seq<Option<real>>, b1: nat, b2: nat)
    requires IsFirstLargest(peaks, b1) && IsFirstLargest(peaks, b2)
    ensures b1 == b2
  {
  }

  /**
   * The series `show_first_only` keeps: the one with the largest finite magnitude, the earliest on a
   * tie (the comparison is strict), and none when no series has a finite sample.
   */
  method FirstOnly(series: seq<Series>) returns (best: Option<nat>)
    ensures best.None? <==> forall j :: 0 <= j < |series| ==> Peaks(series)[j].None?
    ensures best.Some? ==> best.value < |series| && IsFirstLargest(Peaks(series), best.value)
  {
    ghost var peaks := Peaks(series);
    best := None;
    var bestVal := -1.0;
    var j := 0;
    while j < |series|
      invariant 0 <= j <= |series|
      invariant best.None? <==> forall i :: 0 <= i < j ==> peaks[i].None?
      invariant best.None? ==> bestVal == -1.0
      invariant best.Some? ==> best.value < j && peaks[best.value] == Some(bestVal)
      invariant forall i :: 0 <= i < j && peaks[i].Some? ==> peaks[i].value <= bestVal
      invariant best.Some? ==> forall i :: 0 <= i < best.value && peaks[i].Some? ==> peaks[i].value < bestVal
    {
      var m := PeakAbs(series[j].raw);
      assert m == peaks[j];
      if m.Some? && m.value > bestVal {
        bestVal := m.value;
        best := Some(j);
      }
      j := j + 1;
    }
  }
}
