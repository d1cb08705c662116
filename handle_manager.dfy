/**
 * handle_manager.py: picking a curve's handle with the mouse and routing drags, clicks and the
 * delete key to the analysis. Pixel distances arrive as inputs (the display transform and
 * np.hypot are not part of this model); canvas redraws and handle colouring are left out.
 */
module Handles {
  import opened Outcomes
  import opened CurveModel
  import opened CurveOrder
  import opened Curves
  import opened Data
  import opened Graph
  import opened Analysis

  /** np.argmin: the first index holding the least value. */
  function FirstArgMin(ds: seq<real>): (k: nat)
    requires |ds| > 0
    ensures k < |ds|
    ensures forall j :: 0 <= j < |ds| ==> ds[k] <= ds[j]
    ensures forall j :: 0 <= j < k ==> ds[k] < ds[j]
  {
    if |ds| == 1 then 0
    else
      var k := FirstArgMin(ds[..|ds| - 1]);
      assert forall j :: 0 <= j < |ds| - 1 ==> ds[..|ds| - 1][j] == ds[j];
      if ds[|ds| - 1] < ds[k] then |ds| - 1 else k
  }

  /** The position of the first curve_lines entry whose handle is h, or |lines| when none is. */
  function HandleIndex(lines: seq<(Curve, Handle)>, h: Handle): (k: nat)
    ensures k <= |lines|
    ensures forall j :: 0 <= j < k ==> lines[j].1 != h
    ensures k < |lines| ==> lines[k].1 == h
  {
    if |lines| == 0 then 0
    else if lines[0].1 == h then 0
    else 1 + HandleIndex(lines[1..], h)
  }

  /** The curve the dictionary iteration of find_curve_by_handle stops at, if any. */
  function CurveOfHandle(lines: seq<(Curve, Handle)>, h: Handle): (r: Option<Curve>)
    ensures r.None? <==> forall k :: 0 <= k < |lines| ==> lines[k].1 != h
    ensures r.Some? <==> h in Handles(lines)
    ensures r.Some? ==> (r.value, h) in lines
  {
    var k := HandleIndex(lines, h);
    if k < |lines| then Some(lines[k].0) else None
  }

  /** The handles of curve_lines, in order: get_handles_with_valid_coordinates(). */
  function Handles(lines: seq<(Curve, Handle)>): (hs: seq<Handle>)
    ensures |hs| == |lines| && forall k :: 0 <= k < |hs| ==> hs[k] == lines[k].1
  {
    seq(|lines|, k requires 0 <= k < |lines| => lines[k].1)
  }

  /** The fields of a matplotlib mouse event the handlers read: the button, whether shift is
      held, and the data coordinates (xdata, ydata), which matplotlib sets exactly when the
      pointer is over an axes (inaxes) and leaves None otherwise. */
  datatype MouseEvent = MouseEvent(button: int, shift: bool, data: Option<(real, real)>)
  {
    predicate InAxes() { data.Some? }
  }

  class HandleManager {
    const graph: GraphManager
    const analysis: AnalysisManager
    /** The pick tolerance, in pixels. */
    const epsilon: real
    var selectedHandle: Option<Handle>
    var selectedCurve: Option<Curve>
    /** The click's data coordinates. None before any click, and also after a click outside the
        axes, where numpy stores [None, None]: the one reader, the subtraction in
        handle_moved_shift, raises TypeError on either. */
    var clickpoint: Option<(real, real)>

    /** HandleManager(graph_manager, analysis_manager): tolerance 7, nothing selected, no click. */
    constructor (graph: GraphManager, analysis: AnalysisManager)
      ensures this.graph == graph && this.analysis == analysis && epsilon == 7.0
      ensures selectedHandle == None && selectedCurve == None && clickpoint == None
    {
      this.graph := graph;
      this.analysis := analysis;
      epsilon := 7.0;
      selectedHandle := None;
      selectedCurve := None;
      clickpoint := None;
    }

    /**
     * find_closest_handle(handles, distances): the handle at the first least distance when that
     * distance is within the tolerance, else None; np.argmin of no distances raises ValueError.
     */
    function FindClosestHandle(handles: seq<Handle>, distances: seq<real>): (r: Result<Option<Handle>>)
      requires |handles| == |distances|
      ensures |distances| == 0 <==> r == Err(ValueError)
      ensures r.Ok? && r.value.None? <==> |distances| > 0 && forall j :: 0 <= j < |distances| ==> distances[j] > epsilon
      ensures r.Ok? && r.value.Some? ==>
        exists k :: 0 <= k < |distances| && r.value.value == handles[k] && distances[k] <= epsilon
          && (forall j :: 0 <= j < |distances| ==> distances[k] <= distances[j])
          && (forall j :: 0 <= j < k ==> distances[k] < distances[j])
    {
      if |distances| == 0 then Err(ValueError)
      else
        var k := FirstArgMin(distances);
        if distances[k] > epsilon then Ok(None) else Ok(Some(handles[k]))
    }

    /** hit_test_handles(event): None when no handle is plotted, else the closest handle within
        the tolerance, given the pixel distance to each handle in curve_lines order. */
    function HitTestHandles(distances: seq<real>): (r: Option<Handle>)
      reads graph
      requires |distances| == |graph.curveLines|
      ensures |graph.curveLines| == 0 ==> r == None
      ensures r.None? <==> forall j :: 0 <= j < |distances| ==> distances[j] > epsilon
      ensures r.Some? ==>
        exists k :: 0 <= k < |distances| && r.value == graph.curveLines[k].1 && distances[k] <= epsilon
          && forall j :: 0 <= j < |distances| ==> distances[k] <= distances[j]
    {
      var handles := Handles(graph.curveLines);
      if |handles| == 0 then None
      else FindClosestHandle(handles, distances).value
    }

    /** find_curve_by_handle(handle): the loop over curve_lines returns at the first entry whose
        handle is the given one, and None after the last. */
    method FindCurveByHandle(handle: Handle) returns (c: Option<Curve>)
      ensures c == CurveOfHandle(graph.curveLines, handle)
    {
      var lines := graph.curveLines;
      var k := 0;
      while k < |lines|
        invariant 0 <= k <= |lines|
        invariant forall j :: 0 <= j < k ==> lines[j].1 != handle
      {
        if lines[k].1 == handle {
          return Some(lines[k].0);
        }
        k := k + 1;
      }
      return None;
    }

    /** set_selected_handle(handle): select the given handle, or deselect on None. */
    method SetSelectedHandle(handle: Option<Handle>)
      modifies this`selectedHandle
      ensures selectedHandle == handle
    {
      if handle.Some? {
        selectedHandle := handle;
      } else {
        selectedHandle := None;
      }
    }

    /**
     * delete_gaussian(event): only a selected curve with other than one parameter goes to the
     * analysis' delete_gaussian and then to update(), so the baseline is never deleted. A stale
     * selection no longer in the list makes list.remove raise ValueError. After a deletion,
     * update() replots and restarts the undo history at one snapshot with the counter at 0.
     */
    method DeleteGaussian(qd: QuantData) returns (o: Outcome)
      requires qd.compositeCurve != null && qd.compositeCurve.Valid()
      modifies qd, qd.compositeCurve, analysis.graph
      ensures qd.compositeCurve == old(qd.compositeCurve) && qd.compositeCurve.Valid()
      ensures selectedCurve.None? || old(selectedCurve.value.state).Constant? ==>
        o == Done && qd.compositeCurve.curveList == old(qd.compositeCurve.curveList)
      ensures selectedCurve.Some? && old(selectedCurve.value.state).Gaussian? && selectedCurve.value !in old(qd.compositeCurve.curveList) ==>
        o == Raised(ValueError) && qd.compositeCurve.curveList == old(qd.compositeCurve.curveList)
      ensures selectedCurve.Some? && old(selectedCurve.value.state).Gaussian? && selectedCurve.value in old(qd.compositeCurve.curveList) ==>
        var c := selectedCurve.value;
        var list := old(qd.compositeCurve.curveList);
        var i := IndexOf(list, c);
        var vs := old(qd.compositeCurve.Values());
        && multiset(qd.compositeCurve.curveList) == multiset(list) - multiset{c}
        && o == (if |list| == 1 then Raised(IndexError) else Done)
        && (o.Done? ==> qd.compositeCurve.Values() == SortByXc(vs[..i] + vs[i + 1..]))
        && (o.Done? ==>
              && analysis.graph.Plotted() == qd.compositeCurve.curveList
              && analysis.graph.history == Some([CloneStates(qd.compositeCurve.Values())])
              && analysis.graph.redoUndoCounter == Some(0))
        && (o.Raised? ==>
              && analysis.graph.curveLines == []
              && analysis.graph.history == old(analysis.graph.history)
              && analysis.graph.redoUndoCounter == old(analysis.graph.redoUndoCounter))
      ensures (|| selectedCurve.None? || old(selectedCurve.value.state).Constant?
               || selectedCurve.value !in old(qd.compositeCurve.curveList)) ==>
        && analysis.graph.curveLines == old(analysis.graph.curveLines)
        && analysis.graph.history == old(analysis.graph.history)
        && analysis.graph.redoUndoCounter == old(analysis.graph.redoUndoCounter)
      ensures forall b :: b in old(qd.compositeCurve.curveList) && old(b.state).Constant? ==>
        b in qd.compositeCurve.curveList
    {
      o := Done;
      if selectedCurve.Some? {
        var curve := selectedCurve.value;
        if |Params(curve.state)| != 1 {
          ghost var list := qd.compositeCurve.curveList;
          assert curve.state.Gaussian?;
          o := DeleteAndUpdate(qd, curve);
          assert forall b :: b in list && old(b.state).Constant? ==> b != curve;
        } else {
          assert curve.state.Constant?;
        }
      }
    }

    /** Removing one occurrence of c keeps every other member. */
    static lemma OthersKept(list: seq<Curve>, left: seq<Curve>, c: Curve)
      requires multiset(left) == multiset(list) - multiset{c}
      ensures forall b :: b in list && b != c ==> b in left
    {
      forall b | b in list && b != c
        ensures b in left
      {
        assert b in multiset(list);
        assert b in multiset(left);
      }
    }

    /** The analysis' delete_gaussian(curve) and, when that returns normally, update(). */
    method DeleteAndUpdate(qd: QuantData, curve: Curve) returns (o: Outcome)
      requires qd.compositeCurve != null && qd.compositeCurve.Valid()
      modifies qd, qd.compositeCurve, analysis.graph
      ensures qd.compositeCurve == old(qd.compositeCurve) && qd.compositeCurve.Valid()
      ensures curve !in old(qd.compositeCurve.curveList) ==>
        && o == Raised(ValueError) && qd.compositeCurve.curveList == old(qd.compositeCurve.curveList)
        && analysis.graph.curveLines == old(analysis.graph.curveLines)
        && analysis.graph.history == old(analysis.graph.history)
        && analysis.graph.redoUndoCounter == old(analysis.graph.redoUndoCounter)
      ensures curve in old(qd.compositeCurve.curveList) ==>
        var list := old(qd.compositeCurve.curveList);
        var i := IndexOf(list, curve);
        var vs := old(qd.compositeCurve.Values());
        && multiset(qd.compositeCurve.curveList) == multiset(list) - multiset{curve}
        && o == (if |list| == 1 then Raised(IndexError) else Done)
        && (o.Done? ==> qd.compositeCurve.Values() == SortByXc(vs[..i] + vs[i + 1..]))
        && (o.Done? ==>
              && analysis.graph.Plotted() == qd.compositeCurve.curveList
              && analysis.graph.history == Some([CloneStates(qd.compositeCurve.Values())])
              && analysis.graph.redoUndoCounter == Some(0))
        && (o.Raised? ==>
              && analysis.graph.curveLines == []
              && analysis.graph.history == old(analysis.graph.history)
              && analysis.graph.redoUndoCounter == old(analysis.graph.redoUndoCounter))
      ensures forall b :: b in old(qd.compositeCurve.curveList) && b != curve ==> b in qd.compositeCurve.curveList
    {
      var composite := qd.compositeCurve;
      ghost var list := composite.curveList;
      ghost var vs := composite.Values();
      ghost var i := if curve in list then IndexOf(list, curve) else 0;
      ghost var g := analysis.graph;
      ghost var history := g.history;
      ghost var counter := g.redoUndoCounter;
      o := analysis.DeleteGaussian(qd, curve);
      assert g.history == history && g.redoUndoCounter == counter;
      ghost var left := composite.curveList;
      if o.Raised? {
        if curve in list {
          OthersKept(list, left, curve);
        }
        return;
      }
      ghost var kept := vs[..i] + vs[i + 1..];
      ghost var sorted := composite.Values();
      assert sorted == SortByXc(kept);
      assert |left| > 0;
      o := analysis.Update(qd);
      assert qd.compositeCurve == composite;
      assert composite.Values() == sorted by {
        SortByIdempotent(kept, XcKey);
      }
      assert multiset(composite.curveList) == multiset(left);
      assert |composite.curveList| == |left| && o == Done;
      OthersKept(list, composite.curveList, curve);
    }

    /**
     * on_motion(event): nothing happens unless a handle is selected, the pointer is over the axes
     * and button 1 is held. When no curve has the selected handle, the error message goes to the
     * graph manager's set_message, which it does not define: AttributeError. Otherwise shift
     * routes the drag to handle_moved_shift (with the stored click point) and a plain drag to
     * handle_moved; either way the list and every other member stay as they were.
     */
    method OnMotion(qd: QuantData, e: MouseEvent) returns (o: Outcome)
      requires qd.compositeCurve != null && qd.compositeCurve.Valid()
      modifies analysis`gaussWidth, graph.Plotted(), qd.compositeCurve, qd.compositeCurve.curveList
      ensures qd.compositeCurve.Valid()
      ensures (|| selectedHandle.None? || !e.InAxes() || e.button != 1
               || CurveOfHandle(graph.curveLines, selectedHandle.value).None?) ==>
        && analysis.gaussWidth == old(analysis.gaussWidth)
        && unchanged(graph.Plotted()) && unchanged(qd.compositeCurve) && unchanged(qd.compositeCurve.curveList)
      ensures (selectedHandle.None? || !e.InAxes() || e.button != 1) ==> o == Done
      ensures (&& selectedHandle.Some? && e.InAxes() && e.button == 1
               && CurveOfHandle(graph.curveLines, selectedHandle.value).None?) ==> o == Raised(AttributeError)
      ensures (&& selectedHandle.Some? && e.InAxes() && e.button == 1
               && CurveOfHandle(graph.curveLines, selectedHandle.value).Some?) ==>
        var c := CurveOfHandle(graph.curveLines, selectedHandle.value).value;
        var (x, y) := e.data.value;
        && (!e.shift ==>
              && o == Done && analysis.gaussWidth == old(analysis.gaussWidth)
              && (old(c.state).Gaussian? ==> c.state == Gaussian(Abs(x), Abs(y), old(c.state).w))
              && (old(c.state).Constant? ==> c.state == Constant(y))
              && qd.compositeCurve.curveList == old(qd.compositeCurve.curveList)
              && (forall b :: b in old(qd.compositeCurve.curveList) && b != c ==> b.state == old(b.state)))
        && (e.shift ==> o == (if clickpoint.None? then Raised(TypeError) else Done))
        && (e.shift && clickpoint.None? ==>
              && c.state == old(c.state) && analysis.gaussWidth == old(analysis.gaussWidth)
              && qd.compositeCurve.curveList == old(qd.compositeCurve.curveList)
              && (forall b :: b in old(qd.compositeCurve.curveList) ==> b.state == old(b.state)))
        && (e.shift && clickpoint.Some? && old(c.state).Gaussian? && old(analysis.gaussWidth).Some? ==>
              && analysis.gaussWidth == Some(clickpoint.value.0 - x)
              && multiset(qd.compositeCurve.curveList) == multiset(old(qd.compositeCurve.curveList)))
        && (e.shift && clickpoint.Some? && (old(c.state).Constant? || old(analysis.gaussWidth).None?) ==>
              && c.state == AnalysisManager.ShiftDragged(old(c.state), y, clickpoint.value.0 - x)
              && qd.compositeCurve.curveList == old(qd.compositeCurve.curveList)
              && (forall b :: b in old(qd.compositeCurve.curveList) && b != c ==> b.state == old(b.state)))
    {
      if selectedHandle.None? || !e.InAxes() || e.button != 1 {
        return Done;
      }
      var curve := FindCurveByHandle(selectedHandle.value);
      if curve.None? {
        return Raised(AttributeError);
      }
      var (x, y) := e.data.value;
      if e.shift {
        o := analysis.HandleMovedShift(qd, curve.value, x, y, clickpoint);
      } else {
        analysis.HandleMoved(curve.value, x, y);
        o := Done;
      }
    }

    /**
     * on_button_press(event): button 3 calls add_gaussian at the click's data coordinates (None
     * outside the axes) and returns with the click point and the selection untouched. Any other
     * button stores the click point and selects the hit handle, or deselects; the selected curve
     * is looked up only when a handle was hit, so a miss keeps the previous one, and a hit handle
     * that no curve has sets it to None and then raises AttributeError at the graph manager's
     * missing set_message.
     */
    method OnButtonPress(qd: QuantData, e: MouseEvent, distances: seq<real>) returns (o: Outcome)
      requires qd.compositeCurve != null && qd.compositeCurve.Valid()
      requires |distances| == |graph.curveLines|
      modifies this, qd.compositeCurve, analysis.graph`curveLines
      ensures qd.compositeCurve.Valid()
      ensures e.button == 3 ==>
        && clickpoint == old(clickpoint) && selectedHandle == old(selectedHandle) && selectedCurve == old(selectedCurve)
        && (ChosenWidth(None, analysis.gaussWidth, qd.x).Err? ==>
            && o == Raised(IndexError) && qd.compositeCurve.curveList == old(qd.compositeCurve.curveList)
            && analysis.graph.curveLines == old(analysis.graph.curveLines))
        && (ChosenWidth(None, analysis.gaussWidth, qd.x).Ok? && !e.InAxes() ==>
            && o == Raised(TypeError) && qd.compositeCurve.curveList == old(qd.compositeCurve.curveList)
            && analysis.graph.curveLines == old(analysis.graph.curveLines))
        && (ChosenWidth(None, analysis.gaussWidth, qd.x).Ok? && e.InAxes() ==>
            var g := NewGaussian(e.data.value.0, e.data.value.1, ChosenWidth(None, analysis.gaussWidth, qd.x).value);
            && o == Done && qd.compositeCurve.Values() == SortByXc(old(qd.compositeCurve.Values()) + [g])
            && analysis.graph.Plotted() == qd.compositeCurve.curveList)
      ensures e.button != 3 ==>
        && clickpoint == e.data
        && analysis.graph.curveLines == old(analysis.graph.curveLines)
        && selectedHandle == old(HitTestHandles(distances))
        && (selectedHandle.None? ==> o == Done && selectedCurve == old(selectedCurve))
        && (selectedHandle.Some? ==> selectedCurve == CurveOfHandle(old(graph.curveLines), selectedHandle.value))
        && (selectedHandle.Some? ==> o == (if selectedCurve.None? then Raised(AttributeError) else Done))
        && qd.compositeCurve.curveList == old(qd.compositeCurve.curveList)
    {
      if e.button == 3 {
        var xc := if e.data.Some? then Some(e.data.value.0) else None;
        var a := if e.data.Some? then Some(e.data.value.1) else None;
        o := analysis.AddGaussian(qd, xc, a, None);
        return;
      }
      clickpoint := e.data;
      var hit := HitTestHandles(distances);
      SetSelectedHandle(hit);
      o := Done;
      if selectedHandle.None? {
        return;
      }
      selectedCurve := FindCurveByHandle(selectedHandle.value);
      if selectedCurve.None? {
        o := Raised(AttributeError);
      }
    }

    /** on_button_release(event): the graph's on_key_release, which pushes a changed fit. */
    method OnButtonRelease(qd: QuantData) returns (o: Outcome)
      requires graph.Valid()
      requires qd.compositeCurve != null && qd.compositeCurve.Valid()
      modifies graph`history, qd.compositeCurve
      ensures graph.Valid() && qd.compositeCurve.Valid()
      ensures old(graph.history).None? ==> o == Raised(TypeError)
      ensures old(graph.history).Some? ==> o == Done
      ensures o.Done? && GraphManager.Changed(old(graph.history).value, old(qd.compositeCurve.Values())) ==>
        && graph.history == Some(PushFront(old(graph.history).value, CloneStates(old(qd.compositeCurve.Values()))))
        && qd.compositeCurve.Values() == SortByXc(old(qd.compositeCurve.Values()))
      ensures o.Raised? || !GraphManager.Changed(old(graph.history).value, old(qd.compositeCurve.Values())) ==>
        graph.history == old(graph.history) && qd.compositeCurve.curveList == old(qd.compositeCurve.curveList)
      ensures multiset(qd.compositeCurve.curveList) == multiset(old(qd.compositeCurve.curveList))
    {
      o := graph.OnKeyRelease(qd);
    }
  }
}
