/**
 * The view-range arithmetic of the plot: the anchored zoom of `CenteredViewBox`, the padding
 * `_fit_view` adds to the auto-range rectangle, the clamping of `go_to_range`, the nearest-sample
 * lookup (`np.abs(x_sec - x).argmin()`) and the inclusive visible-range mask of the CSV export.
 * Coordinates are reals; the x axis is in seconds.
 */
module Viewport {
  import opened Wrappers

  /** One axis of the view: `(lo, hi)` as `viewRange()` returns it. */
  datatype Range = Range(lo: real, hi: real)

  datatype View = View(x: Range, y: Range)

  function Span(r: Range): real {
    r.hi - r.lo
  }

  // ---------------------------------------------------------------- anchored zoom

  /** A non-negative length scaled by a positive factor stays non-negative. */
  lemma ScaleNonNegative(x: real, f: real)
    ensures x >= 0.0 && f > 0.0 ==> x * f >= 0.0
  {
  }

  /**
   * `_zoom_around` on one axis: both ends move towards (or away from) the anchor by the factor, so
   * the anchor keeps its place and the span is scaled by the factor.
   */
  function ZoomAxis(r: Range, a: real, f: real): (z: Range)
    ensures Span(z) == Span(r) * f
    ensures a - z.lo == (a - r.lo) * f && z.hi - a == (r.hi - a) * f
    ensures f == 1.0 ==> z == r
    ensures f > 0.0 && r.lo <= a <= r.hi ==> z.lo <= a <= z.hi
  {
    ScaleNonNegative(a - r.lo, f);
    ScaleNonNegative(r.hi - a, f);
    Range(a - (a - r.lo) * f, a + (r.hi - a) * f)
  }

  /** Zooming by `f` and then by `g` around the same anchor is one zoom by `f * g`. */
  lemma ZoomCompose(r: Range, a: real, f: real, g: real)
    ensures ZoomAxis(ZoomAxis(r, a, f), a, g) == ZoomAxis(r, a, f * g)
  {
    var z := ZoomAxis(r, a, f);
    calc {
      a - (a - z.lo) * g;
      == a - (a - r.lo) * f * g;
    }
    calc {
      a + (z.hi - a) * g;
      == a + (r.hi - a) * f * g;
    }
  }

  /** A zoom by a non-zero factor is undone by a zoom by its reciprocal around the same anchor. */
  lemma ZoomInverse(r: Range, a: real, f: real)
    requires f != 0.0
    ensures ZoomAxis(ZoomAxis(r, a, f), a, 1.0 / f) == r
  {
    ZoomCompose(r, a, f, 1.0 / f);
  }

  /**
   * `_zoom_around` on both axes: each span is scaled by its factor around the anchor `(ax, ay)`,
   * which keeps its relative place, and an axis with factor 1 is left as it was.
   */
  function Zoom(v: View, ax: real, ay: real, sx: real, sy: real): (w: View)
    ensures Span(w.x) == Span(v.x) * sx && Span(w.y) == Span(v.y) * sy
    ensures ax - w.x.lo == (ax - v.x.lo) * sx && w.x.hi - ax == (v.x.hi - ax) * sx
    ensures ay - w.y.lo == (ay - v.y.lo) * sy && w.y.hi - ay == (v.y.hi - ay) * sy
    ensures sx == 1.0 ==> w.x == v.x
    ensures sy == 1.0 ==> w.y == v.y
  {
    View(ZoomAxis(v.x, ax, sx), ZoomAxis(v.y, ay, sy))
  }

  /** The wheel step: 0.9 zooms in on a positive delta, 1.111111 zooms out otherwise. */
  const ZoomIn: real := 0.9
  const ZoomOut: real := 1.111111

  /**
   * `CenteredViewBox.wheelEvent`: a zero delta is ignored; Ctrl zooms the y axis only, else Shift
   * the x axis only, else both, around the point under the cursor.
   */
  function Wheel(v: View, ax: real, ay: real, delta: int, ctrl: bool, shift: bool): (w: View)
    ensures delta == 0 ==> w == v
    ensures ctrl ==> w.x == v.x
    ensures shift && !ctrl ==> w.y == v.y
    ensures delta != 0 && !ctrl ==> w.x == ZoomAxis(v.x, ax, if delta > 0 then ZoomIn else ZoomOut)
    ensures delta != 0 && !(shift && !ctrl) ==> w.y == ZoomAxis(v.y, ay, if delta > 0 then ZoomIn else ZoomOut)
  {
    if delta == 0 then v
    else
      var s := if delta > 0 then ZoomIn else ZoomOut;
      if ctrl then Zoom(v, ax, ay, 1.0, s)
      else if shift then Zoom(v, ax, ay, s, 1.0)
      else Zoom(v, ax, ay, s, s)
  }

  /** Wheeling up narrows every zoomed axis of a non-empty range, wheeling down widens it. */
  lemma WheelDirection(v: View, ax: real, ay: real, delta: int, ctrl: bool, shift: bool)
    requires Span(v.x) > 0.0 && Span(v.y) > 0.0
    ensures var w := Wheel(v, ax, ay, delta, ctrl, shift);
      && (delta > 0 ==> Span(w.x) <= Span(v.x) && Span(w.y) <= Span(v.y) && (Span(w.x) < Span(v.x) || Span(w.y) < Span(v.y)))
      && (delta < 0 ==> Span(w.x) >= Span(v.x) && Span(w.y) >= Span(v.y) && (Span(w.x) > Span(v.x) || Span(w.y) > Span(v.y)))
  {
  }

  /**
   * One step up and one step down do not cancel exactly: the two constants multiply to 0.9999999, so
   * the span shrinks by one part in ten million.
   */
  lemma WheelUpDownDrift(v: View, ax: real, ay: real)
    ensures var w := Wheel(Wheel(v, ax, ay, 1, false, false), ax, ay, -1, false, false);
      Span(w.x) == Span(v.x) * 0.9999999 && Span(w.y) == Span(v.y) * 0.9999999
  {
    ZoomCompose(v.x, ax, ZoomIn, ZoomOut);
    ZoomCompose(v.y, ay, ZoomIn, ZoomOut);
  }

  // ---------------------------------------------------------------- fit

  /** The smallest lower bound the log scale accepts. */
  const LogFloor: real := 0.000000000001

  /** 2% of the span on each side, nothing for an empty or inverted range. */
  function Pad(r: Range): (p: real)
    ensures p >= 0.0
    ensures Span(r) > 0.0 ==> p * 50.0 == Span(r)
    ensures Span(r) <= 0.0 ==> p == 0.0
  {
    if r.hi > r.lo then 0.02 * (r.hi - r.lo) else 0.0
  }

  function Max(a: real, b: real): real {
    if a >= b then a else b
  }

  /**
   * The padding `_fit_view` applies to the auto-ranged rectangle `v`; on the log scale the lower
   * y bound is raised to `LogFloor`.
   */
  function FitView(v: View, log: bool): (w: View)
    ensures w.x == Range(v.x.lo - Pad(v.x), v.x.hi + Pad(v.x))
    ensures w.y.hi == v.y.hi + Pad(v.y)
    ensures !log ==> w.y.lo == v.y.lo - Pad(v.y)
    ensures log ==> w.y.lo == Max(v.y.lo - Pad(v.y), LogFloor)
  {
    var px, py := Pad(v.x), Pad(v.y);
    var y0 := if log then Max(v.y.lo - py, LogFloor) else v.y.lo - py;
    View(Range(v.x.lo - px, v.x.hi + px), Range(y0, v.y.hi + py))
  }

  /**
   * Fitting keeps the auto-ranged rectangle inside the view and widens a non-empty span by 4%; on the
   * log scale the lower bound never goes below `LogFloor`, and the y range stays ordered only while
   * its padded upper end reaches `LogFloor`.
   */
  lemma FitContains(v: View, log: bool)
    requires v.x.lo <= v.x.hi && v.y.lo <= v.y.hi
    ensures var w := FitView(v, log);
      && w.x.lo <= v.x.lo && v.x.hi <= w.x.hi
      && (Span(v.x) > 0.0 ==> Span(w.x) * 100.0 == Span(v.x) * 104.0)
      && (!log ==> w.y.lo <= v.y.lo && v.y.hi <= w.y.hi && (Span(v.y) > 0.0 ==> Span(w.y) * 100.0 == Span(v.y) * 104.0))
      && (log ==> w.y.lo >= LogFloor && v.y.hi <= w.y.hi)
      && (log ==> (w.y.lo <= w.y.hi <==> LogFloor <= v.y.hi + Pad(v.y)))
      && (log && v.y.lo - Pad(v.y) >= LogFloor ==> w.y == FitView(v, false).y)
  {
  }

  // ---------------------------------------------------------------- go to range

  datatype RangeError = StartNotBeforeEnd

  function Clip(t: real, lo: real, hi: real): (c: real)
    requires lo <= hi
    ensures lo <= c <= hi
    ensures lo <= t <= hi ==> c == t
    ensures t < lo ==> c == lo
    ensures t > hi ==> c == hi
  {
    if t < lo then lo else if t > hi then hi else t
  }

  /**
   * `go_to_range`: the start must come before the end; both are clamped into the data's time span
   * `[xmin, xmax]`, and a range the clamping closed is reopened to one second, within `xmax`.
   */
  function GoToRange(s: real, e: real, xmin: real, xmax: real): (r: Result<Range, RangeError>)
    requires xmin <= xmax
    ensures r.Failure? <==> s >= e
    ensures r.Success? ==> xmin <= r.value.lo <= r.value.hi <= xmax
    ensures r.Success? && xmin <= s && e <= xmax ==> r.value == Range(s, e)
    ensures r.Success? ==> r.value.lo == Clip(s, xmin, xmax)
    ensures r.Success? && r.value.lo == r.value.hi ==> r.value.lo == xmax
    ensures r.Success? && Clip(s, xmin, xmax) < Clip(e, xmin, xmax) ==> r.value.hi == Clip(e, xmin, xmax)
    ensures r.Success? && Clip(e, xmin, xmax) <= Clip(s, xmin, xmax) ==>
      r.value.hi == (if xmax <= r.value.lo + 1.0 then xmax else r.value.lo + 1.0)
  {
    if s >= e then Failure(StartNotBeforeEnd)
    else
      var s1 := Clip(s, xmin, xmax);
      var e1 := Clip(e, xmin, xmax);
      if e1 <= s1 then
        Success(Range(s1, if xmax <= s1 + 1.0 then xmax else s1 + 1.0))
      else
        Success(Range(s1, e1))
  }

  /** A range lying wholly before the data opens one second at its start; wholly after, it collapses onto the end. */
  lemma GoToRangeOutside(s: real, e: real, xmin: real, xmax: real)
    requires xmin <= xmax && s < e
    ensures e <= xmin ==> GoToRange(s, e, xmin, xmax) == Success(Range(xmin, if xmax <= xmin + 1.0 then xmax else xmin + 1.0))
    ensures s >= xmax ==> GoToRange(s, e, xmin, xmax) == Success(Range(xmax, xmax))
  {
  }

  /** A range overlapping one edge of the data is cut at that edge and keeps its other end. */
  lemma GoToRangeOverlap(s: real, e: real, xmin: real, xmax: real)
    requires xmin <= xmax && s < e
    ensures xmin <= s < xmax < e ==> GoToRange(s, e, xmin, xmax) == Success(Range(s, xmax))
    ensures s < xmin < e <= xmax ==> GoToRange(s, e, xmin, xmax) == Success(Range(xmin, e))
    ensures s <= xmin && xmax <= e && xmin < xmax ==> GoToRange(s, e, xmin, xmax) == Success(Range(xmin, xmax))
  {
  }

  // ---------------------------------------------------------------- nearest sample

  function Dist(a: real, b: real): (d: real)
    ensures d >= 0.0
  {
    if a >= b then a - b else b - a
  }

  /** `argmin` from position `i` on, given the best position `b` among those before `i`. */
  function ArgMinFrom(xs: seq<real>, x: real, i: nat, b: nat): (k: nat)
    requires b < i <= |xs|
    ensures b <= k < |xs|
    ensures forall j :: 0 <= j < |xs| && (j < i ==> Dist(xs[j], x) >= Dist(xs[b], x)) && i <= j ==>
      Dist(xs[k], x) <= Dist(xs[j], x)
    ensures Dist(xs[k], x) <= Dist(xs[b], x)
    ensures forall j :: i <= j < k ==> Dist(xs[j], x) > Dist(xs[k], x)
    ensures k != b ==> i <= k && Dist(xs[k], x) < Dist(xs[b], x)
    decreases |xs| - i
  {
    if i == |xs| then b
    else if Dist(xs[i], x) < Dist(xs[b], x) then ArgMinFrom(xs, x, i + 1, i)
    else ArgMinFrom(xs, x, i + 1, b)
  }

  /**
   * `int(np.abs(xs - x).argmin())`: the position of a sample closest to `x`, the first one on a tie;
   * an empty array has none (`argmin` raises).
   */
  function NearestIndex(xs: seq<real>, x: real): (k: Option<nat>)
    ensures k.None? <==> xs == []
    ensures k.Some? ==> k.value < |xs|
    ensures k.Some? ==> forall j :: 0 <= j < |xs| ==> Dist(xs[k.value], x) <= Dist(xs[j], x)
    ensures k.Some? ==> forall j :: 0 <= j < k.value ==> Dist(xs[j], x) > Dist(xs[k.value], x)
  {
    if xs == [] then None else Some(ArgMinFrom(xs, x, 1, 0))
  }

  // ---------------------------------------------------------------- visible rows

  function VisibleFrom(xs: seq<real>, lo: real, hi: real, i: nat): (idx: seq<nat>)
    requires i <= |xs|
    ensures forall k :: k in idx <==> i <= k < |xs| && lo <= xs[k] <= hi
    ensures forall p, q :: 0 <= p < q < |idx| ==> idx[p] < idx[q]
    decreases |xs| - i
  {
    if i == |xs| then []
    else
      var rest := VisibleFrom(xs, lo, hi, i + 1);
      assert forall p :: 0 <= p < |rest| ==> rest[p] in rest;
      (if lo <= xs[i] <= hi then [i] else []) + rest
  }

  /** `(x_sec >= xmin) & (x_sec <= xmax)`: the samples inside the visible x range, both ends included, in order. */
  function VisibleRows(xs: seq<real>, lo: real, hi: real): (idx: seq<nat>)
    ensures forall k :: k in idx <==> 0 <= k < |xs| && lo <= xs[k] <= hi
    ensures forall p :: 0 <= p < |idx| ==> idx[p] < |xs|
    ensures forall p, q :: 0 <= p < q < |idx| ==> idx[p] < idx[q]
  {
    var idx := VisibleFrom(xs, lo, hi, 0);
    assert forall p :: 0 <= p < |idx| ==> idx[p] in idx;
    idx
  }
}
