/** The per-series [0,1] rescaling computed at load time (`Y_norm`). */
module Normalize {
  import opened Wrappers
  import opened Data

  /** `np.nanmin(y)` as an Option: None when no sample is present. */
  function MinPresent(y: seq<Sample>): (m: Option<real>)
    ensures m.None? <==> forall i :: 0 <= i < |y| ==> y[i].None?
    ensures m.Some? ==> exists i :: 0 <= i < |y| && y[i] == Some(m.value)
    ensures m.Some? ==> forall i :: 0 <= i < |y| && y[i].Some? ==> m.value <= y[i].value
  {
    if y == [] then None
    else
      var rest := MinPresent(y[1..]);
      assert forall i :: 1 <= i < |y| ==> y[i] == y[1..][i - 1];
      if y[0].None? then rest
      else if rest.None? || y[0].value <= rest.value then Some(y[0].value)
      else rest
  }

  /** `np.nanmax(y)` as an Option: None when no sample is present. */
  function MaxPresent(y: seq<Sample>): (m: Option<real>)
    ensures m.None? <==> forall i :: 0 <= i < |y| ==> y[i].None?
    ensures m.Some? ==> exists i :: 0 <= i < |y| && y[i] == Some(m.value)
    ensures m.Some? ==> forall i :: 0 <= i < |y| && y[i].Some? ==> y[i].value <= m.value
  {
    if y == [] then None
    else
      var rest := MaxPresent(y[1..]);
      assert forall i :: 1 <= i < |y| ==> y[i] == y[1..][i - 1];
      if y[0].None? then rest
      else if rest.None? || y[0].value >= rest.value then Some(y[0].value)
      else rest
  }

  /** The series has a spread: its present samples are not all equal (and there is at least one). */
  predicate HasSpread(y: seq<Sample>) {
    MinPresent(y).Some? && MaxPresent(y).Some? && MaxPresent(y).value > MinPresent(y).value
  }

  /** One sample of `(y - ymin) / (ymax - ymin)`. */
  function Scale(v: real, lo: real, hi: real): real
    requires lo < hi
  {
    (v - lo) / (hi - lo)
  }

  /** The inverse map, `n * (ymax - ymin) + ymin`. */
  function Unscale(n: real, lo: real, hi: real): real {
    n * (hi - lo) + lo
  }

  /** `(y - ymin) / (ymax - ymin)` when the extremes are finite and differ, else `np.zeros_like(y)`. */
  function Normalized(y: seq<Sample>): (n: seq<Sample>)
    ensures |n| == |y|
    ensures HasSpread(y) ==> forall i :: 0 <= i < |y| ==> (n[i].Some? <==> y[i].Some?)
    ensures !HasSpread(y) ==> forall i :: 0 <= i < |y| ==> n[i] == Some(0.0)
  {
    if HasSpread(y) then
      var lo, hi := MinPresent(y).value, MaxPresent(y).value;
      seq(|y|, i requires 0 <= i < |y| => if y[i].Some? then Some(Scale(y[i].value, lo, hi)) else None)
    else
      seq(|y|, i => Some(0.0))
  }

  /** The normalised value of sample `i` when the series has a spread. */
  lemma NormalizedAt(y: seq<Sample>, i: nat)
    requires HasSpread(y) && i < |y|
    ensures Normalized(y)[i] == if y[i].Some?
      then Some(Scale(y[i].value, MinPresent(y).value, MaxPresent(y).value))
      else None
  {
  }

  /** The affine map onto [0,1] and its inverse, on plain reals. */
  lemma Rescale(v: real, lo: real, hi: real)
    requires lo <= v <= hi && lo < hi
    ensures 0.0 <= Scale(v, lo, hi) <= 1.0
    ensures v == lo ==> Scale(v, lo, hi) == 0.0
    ensures v == hi ==> Scale(v, lo, hi) == 1.0
    ensures Unscale(Scale(v, lo, hi), lo, hi) == v
  {
    var n := (v - lo) / (hi - lo);
    assert n * (hi - lo) == v - lo;
  }

  /** With a spread, every present sample maps into [0,1], the extremes to 0 and 1, and a missing one stays missing. */
  lemma NormalizedInUnitRange(y: seq<Sample>, i: nat)
    requires HasSpread(y) && i < |y|
    ensures Normalized(y)[i].Some? <==> y[i].Some?
    ensures y[i].Some? ==> 0.0 <= Normalized(y)[i].value <= 1.0
    ensures y[i] == MinPresent(y) ==> Normalized(y)[i] == Some(0.0)
    ensures y[i] == MaxPresent(y) ==> Normalized(y)[i] == Some(1.0)
  {
    NormalizedAt(y, i);
    if y[i].Some? {
      var lo, hi, v := MinPresent(y).value, MaxPresent(y).value, y[i].value;
      assert lo <= v <= hi;
      Rescale(v, lo, hi);
      assert Normalized(y)[i] == Some(Scale(v, lo, hi));
    }
  }

  /** Denormalising, `n * (max - min) + min`, gives back every present raw sample exactly. */
  lemma NormalizedRoundTrip(y: seq<Sample>, i: nat)
    requires HasSpread(y) && i < |y| && y[i].Some?
    ensures Unscale(Normalized(y)[i].value, MinPresent(y).value, MaxPresent(y).value) == y[i].value
  {
    NormalizedAt(y, i);
    Rescale(y[i].value, MinPresent(y).value, MaxPresent(y).value);
  }

  /** Without a spread (all samples missing, or all present ones equal), the normalised series is all zeros. */
  lemma NormalizedFlatIsZero(y: seq<Sample>)
    requires !HasSpread(y)
    ensures forall i :: 0 <= i < |y| ==> Normalized(y)[i] == Some(0.0)
    ensures (forall i :: 0 <= i < |y| ==> y[i].None?) || MinPresent(y) == MaxPresent(y)
  {
    if MinPresent(y).Some? {
      var lo, hi := MinPresent(y).value, MaxPresent(y).value;
      var i :| 0 <= i < |y| && y[i] == Some(lo);
      assert lo <= hi;
    }
  }
}
