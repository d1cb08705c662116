/**
 * analysis_manager.py: the controller's reducers. Dragging a handle edits one curve; the
 * locked-width toggle keeps every Gaussian at one width; peaks are added and deleted; fitting
 * and estimating replace the active composite. Every reducer ends by refreshing the table, which
 * sorts the composite. The active dataset is passed to each method.
 */
module Analysis {
  import opened Outcomes
  import opened CurveModel
  import opened CurveOrder
  import opened Curves
  import Fitting
  import opened Data
  import opened ParamTable
  import opened Graph

  /** The states of `objs` (whose states are `vals`) after `target` alone is given state s. */
  function Substitute(objs: seq<Curve>, vals: seq<CurveState>, target: Curve, s: CurveState): (r: seq<CurveState>)
    requires |objs| == |vals|
    ensures |r| == |vals|
    ensures forall k :: 0 <= k < |vals| && objs[k] != target ==> r[k] == vals[k]
    ensures forall k :: 0 <= k < |vals| && objs[k] == target ==> r[k] == s
  {
    seq(|vals|, k requires 0 <= k < |vals| => if objs[k] == target then s else vals[k])
  }

  /** _update_all_widths' loop: `curve.w = width` on every curve with more than one parameter. The
      field is assigned directly, so the width is not folded. */
  function WithWidth(cs: seq<CurveState>, width: real): (r: seq<CurveState>)
    ensures |r| == |cs|
    ensures forall k :: 0 <= k < |cs| && Arity(cs[k]) == 1 ==> r[k] == cs[k]
    ensures forall k :: 0 <= k < |cs| && Arity(cs[k]) > 1 ==>
      r[k].Gaussian? && r[k].xc == cs[k].xc && r[k].a == cs[k].a && r[k].w == width
  {
    seq(|cs|, k requires 0 <= k < |cs| => if Arity(cs[k]) > 1 then cs[k].(w := width) else cs[k])
  }

  /** Locking the widths keeps the layout: kinds, centres, amplitudes and the vector length; doing
      it twice is doing it once, and a shaped composite stays shaped. */
  lemma WithWidthKeepsLayout(cs: seq<CurveState>, width: real)
    ensures forall k :: 0 <= k < |cs| ==> WithWidth(cs, width)[k].Constant? == cs[k].Constant?
    ensures forall k :: 0 <= k < |cs| ==> XcKey(WithWidth(cs, width)[k]) == XcKey(cs[k])
    ensures TotalArity(WithWidth(cs, width)) == TotalArity(cs)
    ensures WithWidth(WithWidth(cs, width), width) == WithWidth(cs, width)
    ensures Shaped(cs) ==> Shaped(WithWidth(cs, width))
  {
    SameArities(WithWidth(cs, width), cs);
  }

  /** The width add_gaussian uses: the given one, else the locked one, else a twentieth of the
      data's x range (IndexError when there is no data). */
  function ChosenWidth(w: Option<real>, gaussWidth: Option<real>, x: seq<real>): (r: Result<real>)
    ensures w.Some? ==> r == Ok(w.value)
    ensures w.None? && gaussWidth.Some? ==> r == Ok(gaussWidth.value)
    ensures w.None? && gaussWidth.None? && |x| > 0 ==> r == Ok(DefaultGaussianWidth(x[0], x[|x| - 1]))
    ensures w.None? && gaussWidth.None? && |x| == 0 ==> r == Err(IndexError)
  {
    if w.Some? then Ok(w.value)
    else if gaussWidth.None? then
      if |x| == 0 then Err(IndexError) else Ok(DefaultGaussianWidth(x[0], x[|x| - 1]))
    else Ok(gaussWidth.value)
  }

  /** A new peak keeps a shaped composite shaped, after the sort of the table refresh. */
  lemma AddKeepsShape(cs: seq<CurveState>, xc: real, a: real, w: real)
    requires Shaped(cs)
    ensures Shaped(SortByXc(cs + [NewGaussian(xc, a, w)]))
  {
    var grown := cs + [NewGaussian(xc, a, w)];
    assert Shaped(grown) by {
      assert forall k :: 1 <= k < |cs| ==> grown[k] == cs[k];
    }
    SortKeepsShape(grown);
  }

  /** Removing a peak (never the baseline at position 0) keeps a shaped composite shaped. */
  lemma DeleteKeepsShape(cs: seq<CurveState>, i: nat)
    requires Shaped(cs) && 1 <= i < |cs|
    ensures Shaped(SortByXc(cs[..i] + cs[i + 1..]))
  {
    var rest := cs[..i] + cs[i + 1..];
    assert Shaped(rest) by {
      forall k | 1 <= k < |rest|
        ensures Peak(rest[k])
      {
        if k < i {
          assert rest[k] == cs[k];
        } else {
          assert rest[k] == cs[k + 1];
        }
      }
    }
    SortKeepsShape(rest);
  }

  class AnalysisManager {
    /** None, or the width every Gaussian is locked to. */
    var gaussWidth: Option<real>
    const graph: GraphManager

    /** AnalysisManager(...): widths unlocked. Its closing update() is the Update method. */
    constructor (graph: GraphManager)
      ensures this.graph == graph && gaussWidth == None
    {
      this.graph := graph;
      gaussWidth := None;
    }

    /** gauss_widths_locked() */
    predicate GaussWidthsLocked()
      reads this
    {
      gaussWidth.Some?
    }

    /** _init_composite_fit(): a composite holding only Constant(1), made only when there is none. */
    method InitCompositeFit(qd: QuantData)
      modifies qd
      ensures old(qd.compositeCurve) == null ==>
        fresh(qd.compositeCurve) && qd.compositeCurve.Valid() && qd.compositeCurve.Values() == [Constant(1.0)]
      ensures old(qd.compositeCurve) != null ==> qd.compositeCurve == old(qd.compositeCurve)
    {
      if qd.compositeCurve == null {
        var composite := new CompositeCurve();
        var baseline := new Curve.ConstantCurve(1.0);
        composite.curveList := composite.curveList + [baseline];
        qd.compositeCurve := composite;
      }
    }

    /** update(): make the composite if missing, refresh the table (a sort), then restart the plot
        and the history. */
    method Update(qd: QuantData) returns (o: Outcome)
      requires qd.compositeCurve != null ==> qd.compositeCurve.Valid()
      modifies qd, qd.compositeCurve, graph
      ensures qd.compositeCurve != null && qd.compositeCurve.Valid()
      ensures old(qd.compositeCurve) == null ==> fresh(qd.compositeCurve) && qd.compositeCurve.Values() == [Constant(1.0)]
      ensures old(qd.compositeCurve) != null ==>
        qd.compositeCurve == old(qd.compositeCurve) &&
        qd.compositeCurve.Values() == SortByXc(old(qd.compositeCurve.Values())) &&
        multiset(qd.compositeCurve.curveList) == multiset(old(qd.compositeCurve.curveList))
      ensures o == if |qd.compositeCurve.curveList| == 0 then Raised(IndexError) else Done
      ensures o.Done? ==>
        graph.Plotted() == qd.compositeCurve.curveList &&
        graph.history == Some([CloneStates(qd.compositeCurve.Values())]) && graph.redoUndoCounter == Some(0)
      ensures old(graph.Valid()) ==> graph.Valid()
    {
      InitCompositeFit(qd);
      var composite := qd.compositeCurve;
      ghost var made := composite.Values();
      UpdateGaussTable(qd);
      assert composite.Values() == SortByXc(made);
      o := graph.ActiveQdChanged(qd);
      assert composite.Values() == SortByXc(made);
    }

    /** reset_fit(): drop the composite, then update(): the fit is the single Constant(1) again. */
    method ResetFit(qd: QuantData) returns (o: Outcome)
      modifies qd, graph
      ensures fresh(qd.compositeCurve) && qd.compositeCurve.Valid() && qd.compositeCurve.Values() == [Constant(1.0)]
      ensures o == Done && graph.Plotted() == qd.compositeCurve.curveList
      ensures graph.history == Some([[Constant(1.0)]]) && graph.redoUndoCounter == Some(0)
    {
      qd.compositeCurve := null;
      o := Update(qd);
      CloneStatesKeepsLayout([Constant(1.0)]);
    }

    /**
     * handle_moved(curve, (x, y)): a curve with more than one parameter takes centre x and
     * amplitude y (both folded); the baseline takes y.
     */
    method HandleMoved(curve: Curve, x: real, y: real)
      modifies curve
      ensures old(curve.state).Gaussian? ==> curve.state == Gaussian(Abs(x), Abs(y), old(curve.state).w)
      ensures old(curve.state).Constant? ==> curve.state == Constant(y)
    {
      if |Params(curve.state)| > 1 {
        curve.SetParams([Some(x), Some(y)]);
      } else {
        curve.SetParams([Some(y)]);
      }
    }

    /** The state a shift-drag gives the dragged curve: amplitude y and width dx, folded, on a
        Gaussian; y on the baseline. */
    static function ShiftDragged(c: CurveState, y: real, dx: real): (r: CurveState)
      ensures c.Gaussian? ==> r == Gaussian(c.xc, Abs(y), Abs(dx))
      ensures c.Constant? ==> r == Constant(y)
    {
      if Arity(c) > 1 then CurveModel.SetParams(c, [None, Some(y), Some(dx)]) else CurveModel.SetParams(c, [Some(y)])
    }

    /**
     * handle_moved_shift(curve, (x, y), clickpoint): dx = clickpoint.x - x. A Gaussian takes
     * amplitude y and width dx through set_params (folded); with widths locked, gauss_width
     * becomes the signed dx and _update_all_widths assigns it to every Gaussian unfolded. The
     * baseline takes y. Without a click point the subtraction raises TypeError.
     */
    method HandleMovedShift(qd: QuantData, curve: Curve, x: real, y: real, clickpoint: Option<(real, real)>)
      returns (o: Outcome)
      requires qd.compositeCurve != null && qd.compositeCurve.Valid()
      modifies this`gaussWidth, curve, qd.compositeCurve, qd.compositeCurve.curveList
      ensures qd.compositeCurve.Valid()
      ensures clickpoint.None? ==>
        && o == Raised(TypeError) && curve.state == old(curve.state)
        && gaussWidth == old(gaussWidth) && qd.compositeCurve.curveList == old(qd.compositeCurve.curveList)
        && (forall b :: b in old(qd.compositeCurve.curveList) ==> b.state == old(b.state))
      ensures clickpoint.Some? ==> o == Done
      ensures clickpoint.Some? && (old(curve.state).Constant? || old(gaussWidth).None?) ==>
        && curve.state == ShiftDragged(old(curve.state), y, clickpoint.value.0 - x)
        && gaussWidth == old(gaussWidth)
        && qd.compositeCurve.curveList == old(qd.compositeCurve.curveList)
        && (forall b :: b in old(qd.compositeCurve.curveList) && b != curve ==> b.state == old(b.state))
      ensures clickpoint.Some? && old(curve.state).Gaussian? && old(gaussWidth).Some? &&
              |old(qd.compositeCurve.curveList)| <= 1 ==>
        && curve.state == ShiftDragged(old(curve.state), y, clickpoint.value.0 - x)
        && qd.compositeCurve.curveList == old(qd.compositeCurve.curveList)
      ensures clickpoint.Some? && old(curve.state).Gaussian? && old(gaussWidth).Some? ==>
        var dx := clickpoint.value.0 - x;
        && gaussWidth == Some(dx)
        && multiset(qd.compositeCurve.curveList) == multiset(old(qd.compositeCurve.curveList))
        && (|qd.compositeCurve.curveList| > 1 ==>
            qd.compositeCurve.Values() == SortByXc(WithWidth(
              Substitute(old(qd.compositeCurve.curveList), old(qd.compositeCurve.Values()), curve,
                ShiftDragged(old(curve.state), y, dx)), dx)))
    {
      if clickpoint.None? {
        return Raised(TypeError);
      }
      var dx := clickpoint.value.0 - x;
      ghost var list := qd.compositeCurve.curveList;
      ghost var before := qd.compositeCurve.Values();
      ghost var s0 := curve.state;
      if |Params(curve.state)| > 1 {
        var updatedWidth := dx;
        curve.SetParams([None, Some(y), Some(updatedWidth)]);
        assert curve.state == ShiftDragged(s0, y, dx);
        assert qd.compositeCurve.curveList == list;
        if GaussWidthsLocked() {
          gaussWidth := Some(updatedWidth);
          assert qd.compositeCurve.Values() == Substitute(list, before, curve, ShiftDragged(old(curve.state), y, dx));
          ghost var dragged := curve.state;
          UpdateAllWidths(qd);
          if |list| <= 1 && curve in list {
            assert curve == list[IndexOf(list, curve)];
          }
          assert |list| <= 1 ==> curve.state == dragged;
        }
      } else {
        curve.SetParams([Some(y)]);
        assert curve.state == ShiftDragged(s0, y, dx);
      }
      o := Done;
    }

    /**
     * fix_gauss_widths(): with more than the baseline present, a locked state unlocks (no width
     * changes); otherwise the widths lock to that of curve_list[1], which must be a Gaussian
     * (AttributeError on a Constant), and every Gaussian takes it.
     */
    method FixGaussWidths(qd: QuantData) returns (o: Outcome)
      requires qd.compositeCurve != null && qd.compositeCurve.Valid()
      modifies this`gaussWidth, qd.compositeCurve, qd.compositeCurve.curveList
      ensures qd.compositeCurve.Valid()
      ensures (|old(qd.compositeCurve.curveList)| <= 1 || old(gaussWidth).Some? ||
               old(qd.compositeCurve.curveList[1].state).Constant?) ==>
        qd.compositeCurve.curveList == old(qd.compositeCurve.curveList) &&
        qd.compositeCurve.Values() == old(qd.compositeCurve.Values())
      ensures |old(qd.compositeCurve.curveList)| <= 1 ==> o == Done && gaussWidth == old(gaussWidth)
      ensures |old(qd.compositeCurve.curveList)| > 1 && old(gaussWidth).Some? ==> o == Done && gaussWidth == None
      ensures |old(qd.compositeCurve.curveList)| > 1 && old(gaussWidth).None? ==>
        var first := old(qd.compositeCurve.curveList[1].state);
        && (first.Constant? ==> o == Raised(AttributeError) && gaussWidth == None)
        && (first.Gaussian? ==>
            && o == Done && gaussWidth == Some(first.w)
            && multiset(qd.compositeCurve.curveList) == multiset(old(qd.compositeCurve.curveList))
            && qd.compositeCurve.Values() == SortByXc(WithWidth(old(qd.compositeCurve.Values()), first.w)))
    {
      var curveList := qd.compositeCurve.curveList;
      if |curveList| > 1 {
        if GaussWidthsLocked() {
          gaussWidth := None;
          return Done;
        }
        var first := curveList[1].state;
        if first.Constant? {
          return Raised(AttributeError);
        }
        gaussWidth := Some(first.w);
        UpdateAllWidths(qd);
      }
      o := Done;
    }

    /**
     * _update_all_widths(): called with the widths locked; when more than the baseline is
     * present, every curve with more than one parameter gets w = gauss_width, then the table
     * refresh sorts the composite.
     */
    method UpdateAllWidths(qd: QuantData)
      requires gaussWidth.Some?
      requires qd.compositeCurve != null && qd.compositeCurve.Valid()
      modifies qd.compositeCurve, qd.compositeCurve.curveList
      ensures qd.compositeCurve.Valid()
      ensures multiset(qd.compositeCurve.curveList) == multiset(old(qd.compositeCurve.curveList))
      ensures |qd.compositeCurve.curveList| <= 1 ==>
        qd.compositeCurve.curveList == old(qd.compositeCurve.curveList) &&
        qd.compositeCurve.Values() == old(qd.compositeCurve.Values())
      ensures |qd.compositeCurve.curveList| > 1 ==>
        qd.compositeCurve.Values() == SortByXc(WithWidth(old(qd.compositeCurve.Values()), gaussWidth.value))
    {
      var composite := qd.compositeCurve;
      var curveList := composite.curveList;
      if |curveList| > 1 {
        var width := gaussWidth.value;
        ghost var before := composite.Values();
        var k := 0;
        while k < |curveList|
          invariant 0 <= k <= |curveList|
          invariant composite.curveList == curveList
          invariant forall j :: 0 <= j < k ==> curveList[j].state == WithWidth(before, width)[j]
          invariant forall j :: k <= j < |curveList| ==> curveList[j].state == before[j]
        {
          var curve := curveList[k];
          if |Params(curve.state)| > 1 {
            curve.state := curve.state.(w := width);
          }
          k := k + 1;
        }
        assert composite.Values() == WithWidth(before, width);
        UpdateGaussTable(qd);
      }
    }

    /**
     * optimize_fit(): the solver's outcome for the active composite is `solved`. A RuntimeError
     * (no convergence) is reported and changes nothing; any other error propagates, also
     * changing nothing. On success the fitted clone becomes the active composite, is pushed to
     * the history and plotted, and the table refresh sorts it.
     */
    method OptimizeFit(qd: QuantData, solved: Result<seq<real>>) returns (o: Outcome)
      requires graph.Valid()
      requires qd.compositeCurve != null && qd.compositeCurve.Valid()
      modifies qd, graph
      ensures graph.Valid()
      ensures qd.compositeCurve != null && qd.compositeCurve.Valid()
      ensures solved.Err? ==>
        && o == (if solved.error == RuntimeError then Done else Raised(solved.error))
        && qd.compositeCurve == old(qd.compositeCurve)
        && graph.history == old(graph.history) && graph.curveLines == old(graph.curveLines)
      ensures solved.Ok? ==>
        var fitted := ApplyParams(CloneStates(old(qd.compositeCurve.Values())), solved.value);
        && fresh(qd.compositeCurve)
        && (old(graph.history).None? ==> o == Raised(AttributeError))
        && (old(graph.history).Some? ==> graph.history == Some(PushFront(old(graph.history).value, CloneStates(fitted))))
        && (o.Raised? ==> qd.compositeCurve.Values() == fitted)
        && (o.Done? ==> qd.compositeCurve.Values() == SortByXc(fitted))
      ensures solved.Ok? && old(graph.history).None? ==> graph.curveLines == old(graph.curveLines)
      ensures solved.Ok? && o == Raised(IndexError) ==> graph.curveLines == []
      ensures solved.Ok? && o.Done? ==>
        var fitted := ApplyParams(CloneStates(old(qd.compositeCurve.Values())), solved.value);
        && graph.PlotsStates(fitted)
        && multiset(graph.Plotted()) == multiset(qd.compositeCurve.curveList)
      ensures graph.redoUndoCounter == old(graph.redoUndoCounter)
    {
      var result := Fitting.OptimizeFit(qd.compositeCurve, solved);
      if result.Err? {
        if result.error == RuntimeError {
          return Done;
        }
        return Raised(result.error);
      }
      qd.compositeCurve := result.value;
      ghost var fitted := result.value.Values();
      o := graph.FitChanged(qd);
      if o.Raised? {
        return;
      }
      ghost var list := result.value.curveList;
      ghost var lines := graph.curveLines;
      assert result.value.Values() == fitted;
      assert graph.PlotsStates(fitted);
      UpdateGaussTable(qd);
      assert graph.curveLines == lines && graph.Plotted() == list;
    }

    /**
     * estimate_fit(): any failure of the estimate (fewer than 21 samples for the smoothing
     * window) is reported and changes nothing, and no fit is attempted. Otherwise the estimate
     * becomes the active composite and optimize_fit runs on it.
     */
    method EstimateFit(qd: QuantData, smooth: seq<real>, sqrt: real -> real, solved: Result<seq<real>>)
      returns (o: Outcome)
      requires graph.Valid()
      requires qd.compositeCurve != null && qd.compositeCurve.Valid()
      requires |qd.x| == |qd.y|
      requires |qd.y| >= 21 ==> |smooth| == |qd.y| && qd.x[1] != qd.x[0]
      modifies qd, graph
      ensures graph.Valid()
      ensures qd.compositeCurve != null && qd.compositeCurve.Valid()
      ensures |qd.y| < 21 ==>
        && o == Done && qd.compositeCurve == old(qd.compositeCurve)
        && graph.history == old(graph.history) && graph.curveLines == old(graph.curveLines)
      ensures |qd.y| >= 21 ==>
        var estimate := Fitting.EstimatedCurves(qd.x, smooth, sqrt);
        && fresh(qd.compositeCurve)
        && (solved.Err? ==>
            && o == (if solved.error == RuntimeError then Done else Raised(solved.error))
            && qd.compositeCurve.Values() == estimate && graph.history == old(graph.history)
            && graph.curveLines == old(graph.curveLines))
        && (solved.Ok? ==>
            var fitted := ApplyParams(CloneStates(estimate), solved.value);
            && (old(graph.history).None? ==> o == Raised(AttributeError) && graph.curveLines == old(graph.curveLines))
            && (old(graph.history).Some? ==> graph.history == Some(PushFront(old(graph.history).value, CloneStates(fitted))))
            && (o == Raised(IndexError) ==> graph.curveLines == [])
            && (o.Done? ==>
                && qd.compositeCurve.Values() == SortByXc(fitted)
                && graph.PlotsStates(fitted)
                && multiset(graph.Plotted()) == multiset(qd.compositeCurve.curveList)))
      ensures graph.redoUndoCounter == old(graph.redoUndoCounter)
    {
      var estimated := Fitting.EstimateFit(qd.x, qd.y, smooth, sqrt);
      if estimated.Err? {
        return Done;
      }
      ghost var estimate := estimated.value.Values();
      assert estimate == Fitting.EstimatedCurves(qd.x, smooth, sqrt);
      qd.compositeCurve := estimated.value;
      assert qd.compositeCurve.Values() == estimate;
      ghost var lines := graph.curveLines;
      o := OptimizeFit(qd, solved);
      assert solved.Err? ==> qd.compositeCurve.Values() == estimate && graph.curveLines == lines;
    }

    /**
     * The two steps that close add_gaussian and delete_gaussian: update_gauss_table sorts the
     * composite in place, then update_plot rebuilds the lines from the sorted list.
     */
    method RefreshTableAndPlot(qd: QuantData) returns (o: Outcome)
      requires qd.compositeCurve != null && qd.compositeCurve.Valid()
      modifies qd.compositeCurve, graph`curveLines
      ensures qd.compositeCurve.Valid()
      ensures multiset(qd.compositeCurve.curveList) == multiset(old(qd.compositeCurve.curveList))
      ensures |qd.compositeCurve.curveList| == |old(qd.compositeCurve.curveList)|
      ensures qd.compositeCurve.Values() == SortByXc(old(qd.compositeCurve.Values()))
      ensures o == (if |qd.compositeCurve.curveList| == 0 then Raised(IndexError) else Done)
      ensures o.Done? ==> graph.Plotted() == qd.compositeCurve.curveList
      ensures o.Raised? ==> graph.curveLines == []
    {
      var composite := qd.compositeCurve;
      UpdateGaussTable(qd);
      ghost var sortedList := composite.curveList;
      ghost var sorted := composite.Values();
      assert |sortedList| == |multiset(sortedList)|;
      o := graph.UpdatePlot(qd);
      assert composite.curveList == sortedList && composite.Values() == sorted;
    }

    /**
     * add_gaussian(xc, A, w=None): a new Gaussian with the chosen width is appended, then the table
     * refresh sorts the composite and the plot is rebuilt. A missing centre or amplitude (None,
     * which a click outside the axes passes) makes the constructor's abs raise TypeError, after
     * the width is chosen and before anything changes.
     */
    method AddGaussian(qd: QuantData, xc: Option<real>, a: Option<real>, w: Option<real>) returns (o: Outcome)
      requires qd.compositeCurve != null && qd.compositeCurve.Valid()
      modifies qd.compositeCurve, graph`curveLines
      ensures qd.compositeCurve.Valid()
      ensures ChosenWidth(w, gaussWidth, qd.x).Err? ==>
        && o == Raised(IndexError) && qd.compositeCurve.curveList == old(qd.compositeCurve.curveList)
        && graph.curveLines == old(graph.curveLines)
      ensures ChosenWidth(w, gaussWidth, qd.x).Ok? && (xc.None? || a.None?) ==>
        && o == Raised(TypeError) && qd.compositeCurve.curveList == old(qd.compositeCurve.curveList)
        && graph.curveLines == old(graph.curveLines)
      ensures ChosenWidth(w, gaussWidth, qd.x).Ok? && xc.Some? && a.Some? ==>
        var g := NewGaussian(xc.value, a.value, ChosenWidth(w, gaussWidth, qd.x).value);
        && o == Done
        && |qd.compositeCurve.curveList| == |old(qd.compositeCurve.curveList)| + 1
        && multiset(old(qd.compositeCurve.curveList)) <= multiset(qd.compositeCurve.curveList)
        && qd.compositeCurve.Values() == SortByXc(old(qd.compositeCurve.Values()) + [g])
        && graph.Plotted() == qd.compositeCurve.curveList
    {
      var composite := qd.compositeCurve;
      ghost var before := composite.Values();
      var width := ChosenWidth(w, gaussWidth, qd.x);
      if width.Err? {
        return Raised(width.error);
      }
      if xc.None? || a.None? {
        return Raised(TypeError);
      }
      var newGaussian := new Curve.GaussianCurve(xc.value, a.value, width.value);
      assert composite.Values() == before;
      ghost var g := newGaussian.state;
      composite.Append(newGaussian);
      ghost var appended := composite.Values();
      assert appended == before + [g];
      o := RefreshTableAndPlot(qd);
    }

    /**
     * delete_gaussian(curve): list.remove takes out the first occurrence of that object
     * (ValueError when absent), keeping the others in order; then the table refresh sorts and
     * the plot is rebuilt.
     */
    method DeleteGaussian(qd: QuantData, curve: Curve) returns (o: Outcome)
      requires qd.compositeCurve != null && qd.compositeCurve.Valid()
      modifies qd.compositeCurve, graph`curveLines
      ensures qd.compositeCurve.Valid()
      ensures curve !in old(qd.compositeCurve.curveList) ==>
        && o == Raised(ValueError) && qd.compositeCurve.curveList == old(qd.compositeCurve.curveList)
        && graph.curveLines == old(graph.curveLines)
      ensures curve in old(qd.compositeCurve.curveList) ==>
        var i := IndexOf(old(qd.compositeCurve.curveList), curve);
        var vs := old(qd.compositeCurve.Values());
        && curve !in qd.compositeCurve.curveList
        && |qd.compositeCurve.curveList| == |old(qd.compositeCurve.curveList)| - 1
        && multiset(qd.compositeCurve.curveList) == multiset(old(qd.compositeCurve.curveList)) - multiset{curve}
        && qd.compositeCurve.Values() == SortByXc(vs[..i] + vs[i + 1..])
        && o == (if |qd.compositeCurve.curveList| == 0 then Raised(IndexError) else Done)
        && (o.Done? ==> graph.Plotted() == qd.compositeCurve.curveList)
        && (o.Raised? ==> graph.curveLines == [])
    {
      var composite := qd.compositeCurve;
      if curve !in composite.curveList {
        return Raised(ValueError);
      }
      ghost var vs := composite.Values();
      ghost var i := IndexOf(composite.curveList, curve);
      composite.Remove(curve);
      ghost var rest := composite.curveList;
      ghost var kept := composite.Values();
      assert kept == vs[..i] + vs[i + 1..];
      o := RefreshTableAndPlot(qd);
      assert curve !in multiset(composite.curveList);
    }
  }
}
