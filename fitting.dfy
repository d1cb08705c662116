/**
 * fitting.py: the three-point derivative, the zero-crossing finder, the peak screening of
 * estimate_fit and the clone-then-set tail of optimize_fit. The Savitzky-Golay smoothing and the
 * least-squares solver are foreign: their outputs are parameters.
 */
module Fitting {
  import opened Outcomes
  import opened CurveModel
  import opened CurveOrder
  import opened Curves

  // ---------------------------------------------------------------------------------------------
  // compute_numerical_derivative

  /** One pass: (y[2:] - y[:-2]) / (2 * h), padded at each end by repeating its neighbour. */
  function CentralDifference(y: seq<real>, h: real): (d: seq<real>)
    requires |y| >= 3 && h != 0.0
    ensures |d| == |y|
    ensures forall i :: 1 <= i < |y| - 1 ==> d[i] == (y[i + 1] - y[i - 1]) / (2.0 * h)
    ensures d[0] == d[1] && d[|y| - 1] == d[|y| - 2]
  {
    var inner := seq(|y| - 2, i requires 0 <= i < |y| - 2 => (y[i + 2] - y[i]) / (2.0 * h));
    [inner[0]] + inner + [inner[|inner| - 1]]
  }

  /** The rise from sample i to sample i + 1. */
  function Rise(y: seq<real>, i: nat): real
    requires i + 1 < |y|
  {
    y[i + 1] - y[i]
  }

  /** On data rising by s*h per sample the derivative is s everywhere, edges included. */
  lemma CentralDifferenceOfLine(y: seq<real>, h: real, s: real)
    requires |y| >= 3 && h != 0.0
    requires forall i :: 0 <= i < |y| - 1 ==> Rise(y, i) == s * h
    ensures forall i :: 0 <= i < |y| ==> CentralDifference(y, h)[i] == s
  {
    var d := CentralDifference(y, h);
    forall i | 1 <= i < |y| - 1
      ensures d[i] == s
    {
      var t := 2.0 * h;
      assert y[i + 1] - y[i - 1] == s * t by {
        assert Rise(y, i) == s * h;
        assert Rise(y, i - 1) == s * h;
      }
      DivideProduct(s, t);
    }
  }

  lemma DivideProduct(s: real, t: real)
    requires t != 0.0
    ensures (s * t) / t == s
  {
  }

  /**
   * compute_numerical_derivative(y, step_size, num_iterations): every pass recomputes from the
   * original y, so any positive number of passes gives one pass; no pass leaves the result
   * unbound, and fewer than three samples make the padding index an empty array.
   */
  method ComputeNumericalDerivative(y: seq<real>, stepSize: real, numIterations: int) returns (r: Result<seq<real>>)
    requires stepSize != 0.0
    ensures numIterations < 1 ==> r == Err(UnboundLocalError)
    ensures numIterations >= 1 && |y| < 3 ==> r == Err(IndexError)
    ensures numIterations >= 1 && |y| >= 3 ==> r == Ok(CentralDifference(y, stepSize))
  {
    var derivativeValues: Option<seq<real>> := None;
    var iteration := 0;
    while iteration < numIterations
      invariant numIterations >= 0 ==> iteration <= numIterations
      invariant iteration >= 0
      invariant numIterations < 1 ==> iteration == 0
      invariant iteration == 0 ==> derivativeValues == None
      invariant iteration > 0 ==> |y| >= 3 && derivativeValues == Some(CentralDifference(y, stepSize))
    {
      if |y| < 3 {
        return Err(IndexError);
      }
      derivativeValues := Some(CentralDifference(y, stepSize));
      iteration := iteration + 1;
    }
    if derivativeValues.None? {
      return Err(UnboundLocalError);
    }
    r := Ok(derivativeValues.value);
  }

  // ---------------------------------------------------------------------------------------------
  // find_zero_crossings

  /** np.sign */
  function Sign(v: real): int
  {
    if v > 0.0 then 1 else if v < 0.0 then -1 else 0
  }

  /** The sign changes between sample i and sample i + 1. */
  predicate Crosses(y: seq<real>, i: nat)
    requires i + 1 < |y|
  {
    Sign(y[i]) != Sign(y[i + 1])
  }

  /** The indices i >= lo at which the sign changes, ascending. */
  function CrossingsFrom(y: seq<real>, lo: nat): (r: seq<nat>)
    ensures forall k :: 0 <= k < |r| ==> lo <= r[k] && r[k] + 1 < |y| && Crosses(y, r[k])
    ensures forall i :: lo <= i < |y| - 1 && Crosses(y, i) ==> i in r
    ensures forall k, l :: 0 <= k < l < |r| ==> r[k] < r[l]
    decreases |y| - lo
  {
    if lo + 1 >= |y| then []
    else
      var rest := CrossingsFrom(y, lo + 1);
      if Crosses(y, lo) then [lo] + rest else rest
  }

  /** np.where(np.diff(np.sign(y)))[0]: every i whose sign differs from that of i + 1, ascending. */
  function ZeroCrossings(y: seq<real>): (r: seq<nat>)
    ensures forall k :: 0 <= k < |r| ==> r[k] + 1 < |y| && Crosses(y, r[k])
    ensures forall i :: 0 <= i < |y| - 1 && Crosses(y, i) ==> i in r
    ensures forall k, l :: 0 <= k < l < |r| ==> r[k] < r[l]
  {
    CrossingsFrom(y, 0)
  }

  /** An exact zero between two nonzero samples is reported on both of its sides. */
  lemma ExactZeroCrossesTwice(y: seq<real>, i: nat)
    requires 0 < i < |y| - 1 && y[i] == 0.0 && y[i - 1] != 0.0 && y[i + 1] != 0.0
    ensures i - 1 in ZeroCrossings(y) && i in ZeroCrossings(y)
  {
    assert Crosses(y, i - 1) && Crosses(y, i);
  }

  // ---------------------------------------------------------------------------------------------
  // estimate_fit

  /** y.max() */
  function Max(s: seq<real>): (m: real)
    requires |s| > 0
    ensures forall i :: 0 <= i < |s| ==> s[i] <= m
    ensures exists i :: 0 <= i < |s| && s[i] == m
  {
    if |s| == 1 then s[0]
    else
      var m := Max(s[..|s| - 1]);
      assert forall i :: 0 <= i < |s| - 1 ==> s[..|s| - 1][i] == s[i];
      if s[|s| - 1] > m then s[|s| - 1] else m
  }

  /** np.sqrt(q): NaN for a negative argument. */
  function WidthEstimate(q: real, sqrt: real -> real): Sample
  {
    if q >= 0.0 then Finite(sqrt(q)) else NaN
  }

  /** acceptable_peak_height: half of the rise from ys[0] to the maximum. */
  function PeakThreshold(ys: seq<real>): real
    requires |ys| > 0
  {
    0.5 * (Max(ys) - ys[0])
  }

  /** The screening of crossing i: negative curvature, a width estimate that is a number below 3
      (NaN fails the comparison), and a height above the threshold. */
  predicate Accepts(ys: seq<real>, ddy: seq<real>, i: nat, threshold: real, sqrt: real -> real)
    requires i < |ys| && i < |ddy|
  {
    ddy[i] < 0.0 &&
    var w := WidthEstimate(-ys[i] / ddy[i], sqrt);
    w.Finite? && w.v < 3.0 && ys[i] - ys[0] > threshold
  }

  /** The candidates that pass the screening, in their order. */
  function Accepted(ys: seq<real>, ddy: seq<real>, cands: seq<nat>, threshold: real, sqrt: real -> real): (r: seq<nat>)
    requires |ddy| == |ys|
    requires forall k :: 0 <= k < |cands| ==> cands[k] < |ys|
    ensures |r| <= |cands|
    ensures forall k :: 0 <= k < |r| ==> r[k] < |ys| && ddy[r[k]] < 0.0
  {
    if |cands| == 0 then []
    else
      var front := cands[..|cands| - 1];
      var i := cands[|cands| - 1];
      Accepted(ys, ddy, front, threshold, sqrt) + (if Accepts(ys, ddy, i, threshold, sqrt) then [i] else [])
  }

  /** Only candidates that pass the screening are kept. */
  lemma {:induction false} AcceptedSound(ys: seq<real>, ddy: seq<real>, cands: seq<nat>, threshold: real, sqrt: real -> real)
    requires |ddy| == |ys|
    requires forall k :: 0 <= k < |cands| ==> cands[k] < |ys|
    ensures forall k :: 0 <= k < |Accepted(ys, ddy, cands, threshold, sqrt)| ==>
      Accepted(ys, ddy, cands, threshold, sqrt)[k] in cands &&
      Accepts(ys, ddy, Accepted(ys, ddy, cands, threshold, sqrt)[k], threshold, sqrt)
  {
    if |cands| > 0 {
      var front := cands[..|cands| - 1];
      var i := cands[|cands| - 1];
      AcceptedSound(ys, ddy, front, threshold, sqrt);
      var a := Accepted(ys, ddy, front, threshold, sqrt);
      var r := Accepted(ys, ddy, cands, threshold, sqrt);
      assert r == a + (if Accepts(ys, ddy, i, threshold, sqrt) then [i] else []);
      forall k | 0 <= k < |r|
        ensures r[k] in cands && Accepts(ys, ddy, r[k], threshold, sqrt)
      {
        if k < |a| {
          assert r[k] == a[k] && a[k] in front;
        }
      }
    }
  }

  /** Every candidate that passes the screening is kept. */
  lemma {:induction false} AcceptedComplete(ys: seq<real>, ddy: seq<real>, cands: seq<nat>, threshold: real, sqrt: real -> real)
    requires |ddy| == |ys|
    requires forall k :: 0 <= k < |cands| ==> cands[k] < |ys|
    ensures forall k :: 0 <= k < |cands| && Accepts(ys, ddy, cands[k], threshold, sqrt) ==>
      cands[k] in Accepted(ys, ddy, cands, threshold, sqrt)
  {
    if |cands| > 0 {
      var front := cands[..|cands| - 1];
      AcceptedComplete(ys, ddy, front, threshold, sqrt);
      forall k | 0 <= k < |front|
        ensures front[k] == cands[k]
      {
      }
    }
  }

  /** Ascending candidates give ascending survivors. */
  lemma {:induction false} AcceptedAscending(ys: seq<real>, ddy: seq<real>, cands: seq<nat>, threshold: real, sqrt: real -> real)
    requires |ddy| == |ys|
    requires forall k :: 0 <= k < |cands| ==> cands[k] < |ys|
    requires forall k, l :: 0 <= k < l < |cands| ==> cands[k] < cands[l]
    ensures forall k, l :: 0 <= k < l < |Accepted(ys, ddy, cands, threshold, sqrt)| ==>
      Accepted(ys, ddy, cands, threshold, sqrt)[k] < Accepted(ys, ddy, cands, threshold, sqrt)[l]
  {
    if |cands| > 0 {
      var front := cands[..|cands| - 1];
      var i := cands[|cands| - 1];
      forall k | 0 <= k < |front|
        ensures front[k] == cands[k]
      {
      }
      AcceptedAscending(ys, ddy, front, threshold, sqrt);
      AcceptedSound(ys, ddy, front, threshold, sqrt);
      var a := Accepted(ys, ddy, front, threshold, sqrt);
      var r := Accepted(ys, ddy, cands, threshold, sqrt);
      assert r == a + (if Accepts(ys, ddy, i, threshold, sqrt) then [i] else []);
      forall k | 0 <= k < |a|
        ensures a[k] < i
      {
        var j :| 0 <= j < |front| && front[j] == a[k];
        assert cands[j] == front[j];
      }
      forall k, l | 0 <= k < l < |r|
        ensures r[k] < r[l]
      {
        if l < |a| {
          assert r[k] == a[k];
          assert r[l] == a[l];
          assert a[k] < a[l];
        } else {
          assert l == |a|;
          assert r[l] == i;
          assert r[k] == a[k];
          assert a[k] < i;
        }
      }
    }
  }

  /** Screening one more candidate appends it when it passes. */
  lemma AcceptedSnoc(ys: seq<real>, ddy: seq<real>, cands: seq<nat>, i: nat, threshold: real, sqrt: real -> real)
    requires |ddy| == |ys|
    requires forall k :: 0 <= k < |cands| ==> cands[k] < |ys|
    requires i < |ys|
    ensures Accepted(ys, ddy, cands + [i], threshold, sqrt) ==
      Accepted(ys, ddy, cands, threshold, sqrt) + (if Accepts(ys, ddy, i, threshold, sqrt) then [i] else [])
  {
    assert (cands + [i])[..|cands|] == cands;
  }

  /** Gaussian(xc=x[i], A=y[i]-y[0], w=w_est) for an accepted crossing i. */
  function PeakAt(x: seq<real>, ys: seq<real>, ddy: seq<real>, i: nat, sqrt: real -> real): (g: CurveState)
    requires i < |x| && i < |ys| && i < |ddy| && ddy[i] < 0.0
    ensures Peak(g) && g.xc == Abs(x[i]) && g.a == Abs(ys[i] - ys[0])
  {
    NewGaussian(x[i], ys[i] - ys[0], sqrt(-ys[i] / ddy[i]))
  }

  /** The peaks for the accepted crossings, in their order. */
  function PeaksFor(x: seq<real>, ys: seq<real>, ddy: seq<real>, acc: seq<nat>, sqrt: real -> real): (ps: seq<CurveState>)
    requires forall k :: 0 <= k < |acc| ==> acc[k] < |x| && acc[k] < |ys| && acc[k] < |ddy| && ddy[acc[k]] < 0.0
    ensures |ps| == |acc|
    ensures forall k :: 0 <= k < |acc| ==> ps[k] == PeakAt(x, ys, ddy, acc[k], sqrt)
  {
    if |acc| == 0 then []
    else PeaksFor(x, ys, ddy, acc[..|acc| - 1], sqrt) + [PeakAt(x, ys, ddy, acc[|acc| - 1], sqrt)]
  }

  /** dy: the derivative of the smoothed series, with step x[1] - x[0]. */
  function Slope(x: seq<real>, ys: seq<real>): (dy: seq<real>)
    requires |x| == |ys| >= 3 && x[1] != x[0]
    ensures |dy| == |ys|
  {
    CentralDifference(ys, x[1] - x[0])
  }

  /** ddy: the derivative of dy. */
  function Curvature(x: seq<real>, ys: seq<real>): (ddy: seq<real>)
    requires |x| == |ys| >= 3 && x[1] != x[0]
    ensures |ddy| == |ys|
  {
    CentralDifference(Slope(x, ys), x[1] - x[0])
  }

  /** The zero crossings of dy that pass the screening. */
  function AcceptedCrossings(x: seq<real>, ys: seq<real>, sqrt: real -> real): seq<nat>
    requires |x| == |ys| >= 3 && x[1] != x[0]
  {
    Accepted(ys, Curvature(x, ys), ZeroCrossings(Slope(x, ys)), PeakThreshold(ys), sqrt)
  }

  /** The composite that estimate_fit builds from the smoothed series ys. */
  function EstimatedCurves(x: seq<real>, ys: seq<real>, sqrt: real -> real): seq<CurveState>
    requires |x| == |ys| >= 3 && x[1] != x[0]
  {
    Screened(x, ys, Curvature(x, ys), ZeroCrossings(Slope(x, ys)), PeakThreshold(ys), sqrt)
  }

  /** The estimate is the baseline Constant(ys[0]) followed by at most one peak per zero crossing
      of dy (PeakAt says where each peak sits). */
  lemma EstimateShape(x: seq<real>, ys: seq<real>, sqrt: real -> real)
    requires |x| == |ys| >= 3 && x[1] != x[0]
    ensures Shaped(EstimatedCurves(x, ys, sqrt))
    ensures EstimatedCurves(x, ys, sqrt)[0] == Constant(ys[0])
    ensures |EstimatedCurves(x, ys, sqrt)| - 1 == |AcceptedCrossings(x, ys, sqrt)| <= |ZeroCrossings(Slope(x, ys))|
  {
    var ps := PeaksFor(x, ys, Curvature(x, ys), AcceptedCrossings(x, ys, sqrt), sqrt);
    assert EstimatedCurves(x, ys, sqrt) == [Constant(ys[0])] + ps;
    assert forall k :: 0 <= k < |ps| ==> Peak(ps[k]);
    BaselineThenPeaks(ys[0], ps);
  }

  /** A zero crossing of dy becomes a peak exactly when it passes the screening. */
  lemma EstimateSelectsCrossings(x: seq<real>, ys: seq<real>, sqrt: real -> real, i: nat)
    requires |x| == |ys| >= 3 && x[1] != x[0]
    requires i < |ys|
    ensures i in AcceptedCrossings(x, ys, sqrt) <==>
      i in ZeroCrossings(Slope(x, ys)) && Accepts(ys, Curvature(x, ys), i, PeakThreshold(ys), sqrt)
  {
    var zc := ZeroCrossings(Slope(x, ys));
    var ddy := Curvature(x, ys);
    var t := PeakThreshold(ys);
    AcceptedSound(ys, ddy, zc, t, sqrt);
    if i in zc && Accepts(ys, ddy, i, t, sqrt) {
      AcceptedComplete(ys, ddy, zc, t, sqrt);
      var k :| 0 <= k < |zc| && zc[k] == i;
    }
  }

  /** The peaks follow the crossings in ascending index order. */
  lemma EstimateKeepsCrossingOrder(x: seq<real>, ys: seq<real>, sqrt: real -> real)
    requires |x| == |ys| >= 3 && x[1] != x[0]
    ensures forall k, l :: 0 <= k < l < |AcceptedCrossings(x, ys, sqrt)| ==>
      AcceptedCrossings(x, ys, sqrt)[k] < AcceptedCrossings(x, ys, sqrt)[l]
  {
    var dy := Slope(x, ys);
    var zc := ZeroCrossings(dy);
    var ddy := Curvature(x, ys);
    var t := PeakThreshold(ys);
    assert forall k :: 0 <= k < |zc| ==> zc[k] < |ys|;
    AcceptedAscending(ys, ddy, zc, t, sqrt);
    assert AcceptedCrossings(x, ys, sqrt) == Accepted(ys, ddy, zc, t, sqrt);
  }

  /** With sqrt the nonnegative square root, the width test is the radius test 0 <= q < 9. */
  lemma WidthTestIsRadiusTest(q: real, sqrt: real -> real)
    requires q >= 0.0 ==> sqrt(q) >= 0.0 && sqrt(q) * sqrt(q) == q
    ensures (WidthEstimate(q, sqrt).Finite? && WidthEstimate(q, sqrt).v < 3.0) <==> 0.0 <= q < 9.0
  {
    if q >= 0.0 {
      var s := sqrt(q);
      if s < 3.0 {
        assert s * s <= s * 3.0 < 9.0;
      } else {
        assert s * s >= 3.0 * s >= 9.0;
      }
    }
  }

  /**
   * The loop of estimate_fit: a composite holding Constant(ys[0]), then a new Gaussian for each
   * crossing that passes the screening, in crossing order.
   */
  method ScreenPeaks(x: seq<real>, ys: seq<real>, ddy: seq<real>, crossings: seq<nat>, threshold: real, sqrt: real -> real)
    returns (estimated: CompositeCurve)
    requires |x| == |ys| == |ddy| >= 1
    requires forall j :: 0 <= j < |crossings| ==> crossings[j] < |ys|
    ensures fresh(estimated) && estimated.Valid()
    ensures forall j :: 0 <= j < |estimated.curveList| ==> fresh(estimated.curveList[j])
    ensures estimated.Values() == Screened(x, ys, ddy, crossings, threshold, sqrt)
  {
    estimated := new CompositeCurve();
    var baseline := new Curve.ConstantCurve(ys[0]);
    estimated.curveList := [baseline];
    var k := 0;
    while k < |crossings|
      invariant 0 <= k <= |crossings|
      invariant fresh(estimated) && estimated.Valid()
      invariant forall c :: c in estimated.curveList ==> fresh(c)
      invariant estimated.Values() == Screened(x, ys, ddy, crossings[..k], threshold, sqrt)
    {
      var i := crossings[k];
      ScreenedSnoc(x, ys, ddy, crossings[..k], i, threshold, sqrt);
      assert crossings[..k + 1] == crossings[..k] + [i];
      var accepted := ScreenCrossing(estimated, x, ys, ddy, i, threshold, sqrt);
      k := k + 1;
    }
    assert crossings[..k] == crossings;
    assert forall j :: 0 <= j < |estimated.curveList| ==> estimated.curveList[j] in estimated.curveList;
  }

  /** The composite after screening the candidates cands: the baseline, then a peak for each that passes. */
  function Screened(x: seq<real>, ys: seq<real>, ddy: seq<real>, cands: seq<nat>, threshold: real, sqrt: real -> real)
    : seq<CurveState>
    requires |x| == |ys| == |ddy| >= 1
    requires forall j :: 0 <= j < |cands| ==> cands[j] < |ys|
  {
    [Constant(ys[0])] + PeaksFor(x, ys, ddy, Accepted(ys, ddy, cands, threshold, sqrt), sqrt)
  }

  /** Screening one more candidate appends its peak when it passes. */
  lemma ScreenedSnoc(x: seq<real>, ys: seq<real>, ddy: seq<real>, cands: seq<nat>, i: nat, threshold: real, sqrt: real -> real)
    requires |x| == |ys| == |ddy| >= 1
    requires forall j :: 0 <= j < |cands| ==> cands[j] < |ys|
    requires i < |ys|
    ensures Screened(x, ys, ddy, cands + [i], threshold, sqrt) ==
      Screened(x, ys, ddy, cands, threshold, sqrt) +
      (if Accepts(ys, ddy, i, threshold, sqrt) then [PeakAt(x, ys, ddy, i, sqrt)] else [])
  {
    var acc := Accepted(ys, ddy, cands, threshold, sqrt);
    AcceptedSnoc(ys, ddy, cands, i, threshold, sqrt);
    if Accepts(ys, ddy, i, threshold, sqrt) {
      PeaksForSnoc(x, ys, ddy, acc, i, sqrt);
      AppendAssoc([Constant(ys[0])], PeaksFor(x, ys, ddy, acc, sqrt), [PeakAt(x, ys, ddy, i, sqrt)]);
    } else {
      assert acc + [] == acc;
    }
  }

  lemma PeaksForSnoc(x: seq<real>, ys: seq<real>, ddy: seq<real>, acc: seq<nat>, i: nat, sqrt: real -> real)
    requires forall k :: 0 <= k < |acc| ==> acc[k] < |x| && acc[k] < |ys| && acc[k] < |ddy| && ddy[acc[k]] < 0.0
    requires i < |x| && i < |ys| && i < |ddy| && ddy[i] < 0.0
    ensures PeaksFor(x, ys, ddy, acc + [i], sqrt) == PeaksFor(x, ys, ddy, acc, sqrt) + [PeakAt(x, ys, ddy, i, sqrt)]
  {
    assert (acc + [i])[..|acc|] == acc;
  }

  /** One pass of the estimate_fit loop: crossing i becomes a new Gaussian when it passes the screening. */
  method ScreenCrossing(estimated: CompositeCurve, x: seq<real>, ys: seq<real>, ddy: seq<real>, i: nat,
                        threshold: real, sqrt: real -> real) returns (accepted: bool)
    requires estimated.Valid() && |x| == |ys| == |ddy| && i < |ys|
    modifies estimated
    ensures estimated.Valid()
    ensures accepted == Accepts(ys, ddy, i, threshold, sqrt)
    ensures |estimated.curveList| == |old(estimated.curveList)| + (if accepted then 1 else 0)
    ensures estimated.curveList[..|old(estimated.curveList)|] == old(estimated.curveList)
    ensures forall c :: c in estimated.curveList ==> c in old(estimated.curveList) || fresh(c)
    ensures estimated.Values() == old(estimated.Values()) + (if accepted then [PeakAt(x, ys, ddy, i, sqrt)] else [])
  {
    accepted := false;
    if ddy[i] < 0.0 {
      var wEst := WidthEstimate(-ys[i] / ddy[i], sqrt);
      var peakHeight := ys[i] - ys[0];
      if wEst.Finite? && wEst.v < 3.0 && peakHeight > threshold {
        var g := new Curve.GaussianCurve(x[i], ys[i] - ys[0], wEst.v);
        ghost var before := estimated.Values();
        estimated.Append(g);
        assert estimated.Values() == before + [g.state];
        accepted := true;
      }
    }
  }

  /** The estimate spelled out as estimate_fit computes it, step by step. */
  lemma EstimatedCurvesSteps(x: seq<real>, ys: seq<real>, sqrt: real -> real)
    requires |x| == |ys| >= 3 && x[1] != x[0]
    ensures EstimatedCurves(x, ys, sqrt) ==
      Screened(x, ys, CentralDifference(CentralDifference(ys, x[1] - x[0]), x[1] - x[0]),
               ZeroCrossings(CentralDifference(ys, x[1] - x[0])), PeakThreshold(ys), sqrt)
  {
  }

  /**
   * estimate_fit(x, y): savgol_filter (window 21) raises ValueError on fewer than 21 samples; its
   * output `smooth` is otherwise the series whose derivatives screen the zero crossings.
   */
  method EstimateFit(x: seq<real>, y: seq<real>, smooth: seq<real>, sqrt: real -> real) returns (r: Result<CompositeCurve>)
    requires |x| == |y|
    requires |y| >= 21 ==> |smooth| == |y| && x[1] != x[0]
    ensures |y| < 21 ==> r == Err(ValueError)
    ensures |y| >= 21 ==> r.Ok? && fresh(r.value) && r.value.Valid()
    ensures |y| >= 21 ==> r.Ok? && forall k :: 0 <= k < |r.value.curveList| ==> fresh(r.value.curveList[k])
    ensures |y| >= 21 ==> r.Ok? && r.value.Values() == EstimatedCurves(x, smooth, sqrt)
  {
    if |y| < 21 {
      return Err(ValueError);
    }
    var ys := smooth;
    var h := x[1] - x[0];
    var dy := CentralDifference(ys, h);
    var ddy := CentralDifference(dy, h);
    var crossings := ZeroCrossings(dy);
    var acceptablePeakHeight := PeakThreshold(ys);
    assert forall j :: 0 <= j < |crossings| ==> crossings[j] < |ys|;
    var estimated := ScreenPeaks(x, ys, ddy, crossings, acceptablePeakHeight, sqrt);
    EstimatedCurvesSteps(x, ys, sqrt);
    r := Ok(estimated);
  }

  // ---------------------------------------------------------------------------------------------
  // optimize_fit

  /**
   * optimize_fit(x, y, initial_curve): `solved` is what curve_fit returned (its parameter vector)
   * or raised. The input curve is left untouched; the result is a clone given the vector.
   */
  method OptimizeFit(initial: CompositeCurve, solved: Result<seq<real>>) returns (r: Result<CompositeCurve>)
    ensures solved.Err? ==> r == Err(solved.error)
    ensures solved.Ok? ==> r.Ok? && fresh(r.value) && r.value.Valid()
    ensures solved.Ok? ==> r.Ok? && forall k :: 0 <= k < |r.value.curveList| ==> fresh(r.value.curveList[k])
    ensures solved.Ok? ==> r.Ok? && r.value.Values() == ApplyParams(CloneStates(initial.Values()), solved.value)
  {
    match solved
    case Err(e) =>
      r := Err(e);
    case Ok(popt) =>
      var fitted := initial.Clone();
      fitted.SetParams(popt);
      r := Ok(fitted);
  }

  /**
   * The fitted composite has the members of the initial one, same kinds in the same order; a
   * vector as long as get_params() (curve_fit's popt is) leaves every Gaussian folded, and a shaped
   * composite stays shaped.
   */
  lemma FittedLayout(cs: seq<CurveState>, popt: seq<real>)
    ensures var fitted := ApplyParams(CloneStates(cs), popt);
      && |fitted| == |cs|
      && (forall k :: 0 <= k < |cs| ==> fitted[k].Constant? == cs[k].Constant?)
      && TotalArity(fitted) == TotalArity(cs)
      && (|popt| == TotalArity(cs) ==> forall k :: 0 <= k < |cs| ==> Folded(fitted[k]))
      && (Shaped(cs) ==> Shaped(fitted))
  {
    var cl := CloneStates(cs);
    var fitted := ApplyParams(cl, popt);
    CloneStatesKeepsLayout(cs);
    ApplyParamsKeepsLayout(cl, popt);
    if |popt| == TotalArity(cs) {
      FullVectorFolds(cl, popt);
    }
    if Shaped(cs) {
      ApplyParamsKeepsShape(cl, popt);
    }
  }
}
