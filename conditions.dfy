/**
 * The condition engine of `DASH.run_event_finder`: per-series rules (`gt`, `lt`, `deltapct`)
 * evaluated over the finite samples of a series, the label parts of each hit, and the ordered
 * rule table `find_rules` whose dictionary order decides the order of the scan.
 */
module Conditions {
  import opened Wrappers
  import opened Data

  /** What `ConditionDialog.result_rules` returns: each of `gt`, `lt`, `deltapct` present or not. */
  datatype Rule = Rule(gt: Option<real>, lt: Option<real>, deltapct: Option<real>)

  /** The dialog returned an empty dict: no box was checked. */
  predicate IsEmpty(r: Rule) {
    r.gt.None? && r.lt.None? && r.deltapct.None?
  }

  /** One part of a hit's label: `col>`, `col<` or `col Δp%`. */
  datatype Part = Above | Below | Delta(pct: real)

  /** What an event line carries: a note typed by the user, or the series and parts of a rule hit. */
  datatype Note = Manual(text: string) | RuleHit(series: string, parts: seq<Part>)

  /** One entry of `event_items`: its time in nanoseconds and its label. */
  datatype Event = Event(ns: int, note: Note)

  /** `|(cur - prev) / prev| * 100`; a zero predecessor is divided as NaN and never yields a number. */
  function ChangePct(prev: real, cur: real): (p: Option<real>)
    ensures p.None? <==> prev == 0.0
    ensures p.Some? ==> p.value >= 0.0
  {
    if prev == 0.0 then None else Some(Abs((cur - prev) / prev) * 100.0)
  }

  // ---------------------------------------------------------------- one finite sample

  predicate AboveAt(r: Rule, yy: seq<real>, i: nat)
    requires i < |yy|
  {
    r.gt.Some? && yy[i] > r.gt.value
  }

  predicate BelowAt(r: Rule, yy: seq<real>, i: nat)
    requires i < |yy|
  {
    r.lt.Some? && yy[i] < r.lt.value
  }

  /** The change from the previous finite sample reaches `deltapct`; never at the first sample. */
  predicate DeltaAt(r: Rule, yy: seq<real>, i: nat)
    requires i < |yy|
  {
    && r.deltapct.Some? && i > 0
    && ChangePct(yy[i - 1], yy[i]).Some?
    && ChangePct(yy[i - 1], yy[i]).value >= r.deltapct.value
  }

  /** `hits_idx[i]`: the finite sample at position `i` of the finite subsequence is a hit. */
  predicate Fires(r: Rule, yy: seq<real>, i: nat)
    requires i < |yy|
  {
    AboveAt(r, yy, i) || BelowAt(r, yy, i) || DeltaAt(r, yy, i)
  }

  /** The label parts of the sample at `i`, in the order gt, lt, Δ. */
  function Parts(r: Rule, yy: seq<real>, i: nat): (ps: seq<Part>)
    requires i < |yy|
    ensures Above in ps <==> AboveAt(r, yy, i)
    ensures Below in ps <==> BelowAt(r, yy, i)
    ensures (exists p :: Delta(p) in ps) <==> DeltaAt(r, yy, i)
    ensures ps != [] <==> Fires(r, yy, i)
    ensures |ps| == (if AboveAt(r, yy, i) then 1 else 0) + (if BelowAt(r, yy, i) then 1 else 0)
                    + (if DeltaAt(r, yy, i) then 1 else 0)
    ensures AboveAt(r, yy, i) ==> ps[0] == Above
    ensures BelowAt(r, yy, i) ==> ps[if AboveAt(r, yy, i) then 1 else 0] == Below
    ensures DeltaAt(r, yy, i) ==> ps[|ps| - 1] == Delta(ChangePct(yy[i - 1], yy[i]).value)
  {
    (if AboveAt(r, yy, i) then [Above] else [])
    + (if BelowAt(r, yy, i) then [Below] else [])
    + (if DeltaAt(r, yy, i) then [Delta(ChangePct(yy[i - 1], yy[i]).value)] else [])
  }

  // ---------------------------------------------------------------- a whole series

  /** `np.where(hits_idx)` from position `k` on. */
  function HitsFrom(r: Rule, yy: seq<real>, k: nat): (w: seq<nat>)
    requires k <= |yy|
    ensures forall i :: i in w <==> k <= i < |yy| && Fires(r, yy, i)
    ensures StrictlyIncreasing(w)
    decreases |yy| - k
  {
    if k == |yy| then []
    else
      var rest := HitsFrom(r, yy, k + 1);
      assert forall p :: 0 <= p < |rest| ==> rest[p] in rest;
      (if Fires(r, yy, k) then [k] else []) + rest
  }

  /** `np.where(hits_idx)[0]`: the firing positions of the finite subsequence, in increasing order. */
  function Hits(r: Rule, yy: seq<real>): (w: seq<nat>)
    ensures forall i :: i in w <==> 0 <= i < |yy| && Fires(r, yy, i)
    ensures StrictlyIncreasing(w)
  {
    HitsFrom(r, yy, 0)
  }

  /** `np.where(np.isfinite(y))` from row `k` on. */
  function FiniteRowsFrom(y: seq<Sample>, k: nat): (rows: seq<nat>)
    requires k <= |y|
    ensures forall i :: i in rows <==> k <= i < |y| && y[i].Some?
    ensures StrictlyIncreasing(rows)
    decreases |y| - k
  {
    if k == |y| then []
    else
      var rest := FiniteRowsFrom(y, k + 1);
      assert forall p :: 0 <= p < |rest| ==> rest[p] in rest;
      (if y[k].Some? then [k] else []) + rest
  }

  /** The finite rows from `k` on line up with the finite values of `y[k..]`. */
  lemma {:induction false} FiniteRowsAligned(y: seq<Sample>, k: nat)
    requires k <= |y|
    ensures |FiniteRowsFrom(y, k)| == |Present(y[k..])|
    ensures forall p :: 0 <= p < |FiniteRowsFrom(y, k)| ==>
      FiniteRowsFrom(y, k)[p] < |y| && y[FiniteRowsFrom(y, k)[p]] == Some(Present(y[k..])[p])
    decreases |y| - k
  {
    if k < |y| {
      FiniteRowsAligned(y, k + 1);
      assert y[k..][1..] == y[k + 1..];
      var rows := FiniteRowsFrom(y, k);
      assert forall p :: 0 <= p < |rows| ==> rows[p] in rows;
    }
  }

  /**
   * `np.where(np.isfinite(y))`: the rows holding a finite sample, in increasing order; they line
   * up with `y[valid]`, the p-th finite value sitting in the p-th finite row.
   */
  function FiniteRows(y: seq<Sample>): (rows: seq<nat>)
    ensures forall k :: k in rows <==> 0 <= k < |y| && y[k].Some?
    ensures StrictlyIncreasing(rows)
    ensures |rows| == |Present(y)|
    ensures forall p :: 0 <= p < |rows| ==> rows[p] < |y| && y[rows[p]] == Some(Present(y)[p])
  {
    FiniteRowsAligned(y, 0);
    assert y[0..] == y;
    FiniteRowsFrom(y, 0)
  }

  /** The event line one hit appends: the hit's row time and its series and parts. */
  function HitEvent(name: string, r: Rule, times: seq<int>, y: seq<Sample>, i: nat): (e: Event)
    requires |y| == |times| && i < |Present(y)|
  {
    Event(times[FiniteRows(y)[i]], RuleHit(name, Parts(r, Present(y), i)))
  }

  /**
   * The events one rule adds for one series: nothing for fewer than two rows, otherwise one event
   * per hit of the finite subsequence, in time order.
   */
  function ScanSeries(name: string, r: Rule, times: seq<int>, y: seq<Sample>): (evs: seq<Event>)
    requires |y| == |times|
    ensures |y| < 2 ==> evs == []
    ensures |y| >= 2 ==>
      var w := Hits(r, Present(y));
      && |evs| == |w|
      && forall p :: 0 <= p < |w| ==> w[p] < |Present(y)| && evs[p] == HitEvent(name, r, times, y, w[p])
    ensures forall p :: 0 <= p < |evs| ==>
      evs[p].note.RuleHit? && evs[p].note.series == name && evs[p].note.parts != []
  {
    if |y| < 2 then []
    else
      var yy := Present(y);
      var w := Hits(r, yy);
      assert forall p :: 0 <= p < |w| ==> w[p] in w;
      seq(|w|, p requires 0 <= p < |w| => HitEvent(name, r, times, y, w[p]))
  }

  /** Over a time axis in order, one rule's events for one series come in time order. */
  lemma ScanSeriesInTimeOrder(name: string, r: Rule, times: seq<int>, y: seq<Sample>)
    requires |y| == |times| && NonDecreasing(times)
    ensures var evs := ScanSeries(name, r, times, y);
      forall p, q :: 0 <= p < q < |evs| ==> evs[p].ns <= evs[q].ns
  {
    var evs := ScanSeries(name, r, times, y);
    if |y| >= 2 {
      var w := Hits(r, Present(y));
      var rows := FiniteRows(y);
      forall p, q | 0 <= p < q < |evs| ensures evs[p].ns <= evs[q].ns {
        assert w[p] < w[q];
        assert rows[w[p]] < rows[w[q]];
      }
    }
  }

  // ---------------------------------------------------------------- the rule table

  /** `find_rules`: series names to rules, in dictionary (insertion) order. */
  type RuleTable = seq<(string, Rule)>

  function Keys<K, V>(t: seq<(K, V)>): (ks: seq<K>)
    ensures |ks| == |t| && forall p :: 0 <= p < |t| ==> ks[p] == t[p].0
  {
    if t == [] then [] else [t[0].0] + Keys(t[1..])
  }

  lemma DistinctCons<K>(a: K, s: seq<K>)
    ensures Distinct([a] + s) <==> a !in s && Distinct(s)
  {
    if a !in s && Distinct(s) {
      forall i, j | 0 <= i < j < |[a] + s| ensures ([a] + s)[i] != ([a] + s)[j] {
        if i == 0 { assert ([a] + s)[j] == s[j - 1]; assert s[j - 1] in s; }
      }
    }
    if Distinct([a] + s) {
      forall k | 0 <= k < |s| ensures s[k] != a {
        assert ([a] + s)[k + 1] == s[k] && ([a] + s)[0] == a;
      }
      forall i, j | 0 <= i < j < |s| ensures s[i] != s[j] {
        assert s[i] == ([a] + s)[i + 1] && s[j] == ([a] + s)[j + 1];
      }
    }
  }

  /** What every table the session builds satisfies: one entry per series, none of them empty. */
  predicate TableValid(t: RuleTable) {
    Distinct(Keys(t)) && forall p :: 0 <= p < |t| ==> !IsEmpty(t[p].1)
  }

  /** `find_rules.get(col)`. */
  function Lookup<K(==), V>(t: seq<(K, V)>, col: K): (r: Option<V>)
    ensures r.None? <==> col !in Keys(t)
    ensures r.Some? ==> (col, r.value) in t
  {
    if t == [] then None
    else if t[0].0 == col then Some(t[0].1)
    else Lookup(t[1..], col)
  }

  /** `find_rules[col] = rules`. */
  function Put<K(==), V>(t: seq<(K, V)>, col: K, r: V): (u: seq<(K, V)>)
    ensures (col, r) in u
    ensures |u| == if col in Keys(t) then |t| else |t| + 1
  {
    if t == [] then [(col, r)]
    else if t[0].0 == col then [(col, r)] + t[1..]
    else [t[0]] + Put(t[1..], col, r)
  }

  /** `find_rules.pop(col, None)`. */
  function Remove<K(==), V>(t: seq<(K, V)>, col: K): (u: seq<(K, V)>)
    ensures |u| == if col in Keys(t) then |t| - 1 else |t|
    ensures forall e :: e in u ==> e in t
  {
    if t == [] then []
    else if t[0].0 == col then t[1..]
    else [t[0]] + Remove(t[1..], col)
  }

  /** The position of `col` among the keys. */
  function KeyIndex<K(==), V>(t: seq<(K, V)>, col: K): (p: nat)
    requires col in Keys(t)
    ensures p < |t| && t[p].0 == col && forall q :: 0 <= q < p ==> t[q].0 != col
  {
    if t[0].0 == col then 0 else KeyIndex(t[1..], col) + 1
  }

  /** Re-setting an existing key replaces its rule in place; a new key is appended at the end. */
  lemma {:induction false} PutPlace<K, V>(t: seq<(K, V)>, col: K, r: V)
    ensures col in Keys(t) ==>
      var p := KeyIndex(t, col);
      |Put(t, col, r)| == |t| && forall q :: 0 <= q < |t| ==> Put(t, col, r)[q] == (if q == p then (col, r) else t[q])
    ensures col !in Keys(t) ==> Put(t, col, r) == t + [(col, r)]
  {
    if t != [] {
      PutPlace(t[1..], col, r);
      assert Keys(t) == [t[0].0] + Keys(t[1..]);
      if t[0].0 != col {
        assert t == [t[0]] + t[1..];
        if col !in Keys(t) {
          AppendAssoc([t[0]], t[1..], [(col, r)]);
        } else {
          assert KeyIndex(t, col) == KeyIndex(t[1..], col) + 1;
        }
      }
    }
  }

  /** Clearing a key removes exactly its entry and keeps the others in order. */
  lemma {:induction false} RemovePlace<K, V>(t: seq<(K, V)>, col: K)
    requires col in Keys(t)
    ensures Remove(t, col) == t[..KeyIndex(t, col)] + t[KeyIndex(t, col) + 1..]
  {
    RemoveAt(t, col, KeyIndex(t, col));
  }

  lemma {:induction false} RemoveAt<K, V>(t: seq<(K, V)>, col: K, p: nat)
    requires p < |t| && t[p].0 == col && forall q :: 0 <= q < p ==> t[q].0 != col
    ensures Remove(t, col) == t[..p] + t[p + 1..]
  {
    if p > 0 {
      assert Remove(t, col) == [t[0]] + Remove(t[1..], col);
      RemoveAt(t[1..], col, p - 1);
      DropOneOfTail(t, p);
    } else {
      assert t[..0] + t[1..] == t[1..];
    }
  }

  /** Dropping position `p - 1` of the tail and putting the head back drops position `p`. */
  lemma DropOneOfTail<T>(t: seq<T>, p: nat)
    requires 0 < p < |t|
    ensures [t[0]] + (t[1..][..p - 1] + t[1..][p..]) == t[..p] + t[p + 1..]
  {
    assert t[1..][..p - 1] == t[1..p];
    assert t[1..][p..] == t[p + 1..];
    AppendAssoc([t[0]], t[1..p], t[p + 1..]);
    assert [t[0]] + t[1..p] == t[..p];
  }

  /** Clearing a key that is not there leaves the table as it was. */
  lemma {:induction false} RemoveAbsent<K, V>(t: seq<(K, V)>, col: K)
    requires col !in Keys(t)
    ensures Remove(t, col) == t
  {
    if t != [] {
      RemoveAbsent(t[1..], col);
      assert t == [t[0]] + t[1..];
    }
  }

  lemma {:induction false} KeysOfPut<K, V>(t: seq<(K, V)>, col: K, r: V)
    ensures forall c :: c in Keys(Put(t, col, r)) <==> c in Keys(t) || c == col
  {
    if t != [] {
      KeysOfPut(t[1..], col, r);
    }
  }

  lemma {:induction false} KeysOfRemove<K, V>(t: seq<(K, V)>, col: K)
    ensures forall c :: c in Keys(Remove(t, col)) ==> c in Keys(t)
  {
    if t != [] {
      KeysOfRemove(t[1..], col);
    }
  }

  /** After a put the key reads back the new rule, every other key reads as before, and the table stays valid. */
  lemma {:induction false} PutLookup(t: RuleTable, col: string, r: Rule, other: string)
    requires TableValid(t) && !IsEmpty(r)
    ensures TableValid(Put(t, col, r))
    ensures Lookup(Put(t, col, r), col) == Some(r)
    ensures other != col ==> Lookup(Put(t, col, r), other) == Lookup(t, other)
  {
    if t != [] {
      DistinctCons(t[0].0, Keys(t[1..]));
      PutLookup(t[1..], col, r, other);
      var u := Put(t, col, r);
      if t[0].0 != col {
        KeysOfPut(t[1..], col, r);
        DistinctCons(t[0].0, Keys(Put(t[1..], col, r)));
      } else {
        DistinctCons(col, Keys(t[1..]));
      }
    }
  }

  /** After clearing, the key reads as absent, every other key reads as before, and the table stays valid. */
  lemma {:induction false} RemoveLookup(t: RuleTable, col: string, other: string)
    requires TableValid(t)
    ensures TableValid(Remove(t, col))
    ensures Lookup(Remove(t, col), col).None?
    ensures other != col ==> Lookup(Remove(t, col), other) == Lookup(t, other)
  {
    if t != [] {
      DistinctCons(t[0].0, Keys(t[1..]));
      RemoveLookup(t[1..], col, other);
      if t[0].0 != col {
        KeysOfRemove(t[1..], col);
        DistinctCons(t[0].0, Keys(Remove(t[1..], col)));
      }
    }
  }

  // ---------------------------------------------------------------- the whole scan

  /**
   * The events a full `run_event_finder` appends: rule order first, then time order within a rule.
   * Every one of them is a rule hit on a series that has an entry in the table.
   */
  function Scan(t: RuleTable, d: Dataset): (evs: seq<Event>)
    requires forall j :: 0 <= j < |d.series| ==> |d.series[j].raw| == |d.times|
    ensures forall p :: 0 <= p < |evs| ==> evs[p].note.RuleHit? && evs[p].note.series in Keys(t)
  {
    if t == [] then []
    else
      var head, rest := ScanRule(t[0].0, t[0].1, d), Scan(t[1..], d);
      assert Keys(t) == [t[0].0] + Keys(t[1..]);
      HitsJoin(head, rest, t[0].0, Keys(t[1..]));
      head + rest
  }

  /** Joining the hits on one series to hits on a list of series gives hits on the longer list. */
  lemma HitsJoin(head: seq<Event>, rest: seq<Event>, col: string, ks: seq<string>)
    requires forall p :: 0 <= p < |head| ==> head[p].note.RuleHit? && head[p].note.series == col
    requires forall p :: 0 <= p < |rest| ==> rest[p].note.RuleHit? && rest[p].note.series in ks
    ensures forall p :: 0 <= p < |head + rest| ==> (head + rest)[p].note.RuleHit? && (head + rest)[p].note.series in [col] + ks
  {
    forall p | 0 <= p < |head + rest|
      ensures (head + rest)[p].note.RuleHit? && (head + rest)[p].note.series in [col] + ks
    {
      if p >= |head| {
        assert (head + rest)[p] == rest[p - |head|];
      }
    }
  }

  /** The events of one table entry: none when the series is unknown (`Y_raw.get(col)` is None). */
  function ScanRule(col: string, r: Rule, d: Dataset): (evs: seq<Event>)
    requires forall j :: 0 <= j < |d.series| ==> |d.series[j].raw| == |d.times|
    ensures forall p :: 0 <= p < |evs| ==> evs[p].note.RuleHit? && evs[p].note.series == col
    ensures col !in Names(d.series) ==> evs == []
  {
    match Find(d.series, col)
    case None => []
    case Some(j) => ScanSeries(col, r, d.times, d.series[j].raw)
  }

  /** Scanning a table one more entry long appends that entry's events. */
  lemma {:induction false} ScanSnoc(t: RuleTable, col: string, r: Rule, d: Dataset)
    requires forall j :: 0 <= j < |d.series| ==> |d.series[j].raw| == |d.times|
    ensures Scan(t + [(col, r)], d) == Scan(t, d) + ScanRule(col, r, d)
  {
    if t == [] {
      assert Scan([(col, r)], d) == ScanRule(col, r, d) + Scan([], d);
    } else {
      assert (t + [(col, r)])[1..] == t[1..] + [(col, r)];
      ScanSnoc(t[1..], col, r, d);
      AppendAssoc(ScanRule(t[0].0, t[0].1, d), Scan(t[1..], d), ScanRule(col, r, d));
    }
  }

  /** Scanning one more entry of a table appends that entry's events. */
  lemma ScanPrefix(t: RuleTable, k: nat, d: Dataset)
    requires k < |t|
    requires forall j :: 0 <= j < |d.series| ==> |d.series[j].raw| == |d.times|
    ensures Scan(t[..k + 1], d) == Scan(t[..k], d) + ScanRule(t[k].0, t[k].1, d)
  {
    assert t[..k + 1] == t[..k] + [(t[k].0, t[k].1)];
    ScanSnoc(t[..k], t[k].0, t[k].1, d);
  }

  /** A Δ rule of 50% on 10, 5, 0, -5 fires at 5 and 0 but not at -5, whose predecessor is zero. */
  lemma DeltaSkipsZeroPredecessor()
    ensures Hits(Rule(None, None, Some(50.0)), [10.0, 5.0, 0.0, -5.0]) == [1, 2]
  {
    var r := Rule(None, None, Some(50.0));
    var yy := [10.0, 5.0, 0.0, -5.0];
    assert HitsFrom(r, yy, 4) == [];
    assert HitsFrom(r, yy, 3) == [] by {
      assert ChangePct(0.0, -5.0).None?;
      assert !Fires(r, yy, 3);
    }
    assert HitsFrom(r, yy, 2) == [2] by {
      assert ChangePct(5.0, 0.0) == Some(100.0);
      assert Fires(r, yy, 2);
    }
    assert HitsFrom(r, yy, 1) == [1, 2] by {
      assert ChangePct(10.0, 5.0) == Some(50.0);
      assert Fires(r, yy, 1);
    }
    assert !Fires(r, yy, 0);
  }

  /** Below and Δ both hold at 5 after 10; the label lists the lt part before the Δ part. */
  lemma PartsInRuleOrder()
    ensures Parts(Rule(Some(7.0), Some(6.0), Some(50.0)), [10.0, 5.0, 0.0, -5.0], 1) == [Below, Delta(50.0)]
  {
    assert ChangePct(10.0, 5.0) == Some(50.0);
  }
}
