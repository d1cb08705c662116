/**
 * graph_manager.py: the undo/redo history of the active composite curve, the curve-to-handle
 * table that update_plot rebuilds, and the handle midpoint rule. Drawing is left out; the active
 * dataset is passed to each method.
 */
module Graph {
  import opened Outcomes
  import opened CurveModel
  import opened CurveOrder
  import opened Curves
  import opened Data
  import opened ParamTable

  /** A history entry: a clone nobody mutates, so its member values are all that matter. */
  type Snapshot = seq<CurveState>

  /** collections.deque(..., 15) */
  const HistoryCapacity: nat := 15

  /** history.appendleft(s): s enters at the front; on a full deque the tail entry is dropped. */
  function PushFront(h: seq<Snapshot>, s: Snapshot): (r: seq<Snapshot>)
    requires |h| <= HistoryCapacity
    ensures |r| == if |h| < HistoryCapacity then |h| + 1 else HistoryCapacity
    ensures r[0] == s
    ensures forall i :: 0 <= i < |r| - 1 ==> r[i + 1] == h[i]
  {
    if |h| < HistoryCapacity then [s] + h else [s] + h[..|h| - 1]
  }

  /** history.rotate(-1): the front entry moves to the tail. */
  function RotateLeft(h: seq<Snapshot>): (r: seq<Snapshot>)
    ensures |r| == |h|
    ensures |h| > 0 ==> r[|h| - 1] == h[0]
    ensures forall i :: 0 <= i < |h| - 1 ==> r[i] == h[i + 1]
  {
    if |h| == 0 then [] else h[1..] + [h[0]]
  }

  /** history.rotate(1): the tail entry moves to the front. */
  function RotateRight(h: seq<Snapshot>): (r: seq<Snapshot>)
    ensures |r| == |h|
    ensures |h| > 0 ==> r[0] == h[|h| - 1]
    ensures forall i :: 1 <= i < |h| ==> r[i] == h[i - 1]
  {
    if |h| == 0 then [] else [h[|h| - 1]] + h[..|h| - 1]
  }

  /** A redo right after an undo restores the deque, and an undo right after a redo does too. */
  lemma RotationsCancel(h: seq<Snapshot>)
    ensures RotateRight(RotateLeft(h)) == h
    ensures RotateLeft(RotateRight(h)) == h
  {
    if |h| > 0 {
      assert (h[1..] + [h[0]])[..|h| - 1] == h[1..];
      assert [h[|h| - 1]] + h[..|h| - 1] == RotateRight(h);
      assert ([h[|h| - 1]] + h[..|h| - 1])[1..] == h[..|h| - 1];
    }
  }

  /** Rotations neither add nor lose snapshots. */
  lemma RotationsPermute(h: seq<Snapshot>)
    ensures multiset(RotateLeft(h)) == multiset(h)
    ensures multiset(RotateRight(h)) == multiset(h)
  {
    if |h| > 0 {
      calc {
        multiset(RotateLeft(h));
      ==
        multiset(h[1..]) + multiset{h[0]};
      == { assert h == [h[0]] + h[1..]; }
        multiset(h);
      }
      calc {
        multiset(RotateRight(h));
      ==
        multiset{h[|h| - 1]} + multiset(h[..|h| - 1]);
      == { assert h == h[..|h| - 1] + [h[|h| - 1]]; }
        multiset(h);
      }
    }
  }

  /** The deque bound and the counter range -(len(history) - 1) <= counter <= 0. */
  predicate HistoryOk(h: seq<Snapshot>, counter: int)
  {
    1 <= |h| <= HistoryCapacity && -(|h| - 1) <= counter <= 0
  }

  /** A push keeps the range: the deque only grows or stays full, and the counter is untouched. */
  lemma PushKeepsHistoryOk(h: seq<Snapshot>, s: Snapshot, counter: int)
    requires HistoryOk(h, counter)
    ensures HistoryOk(PushFront(h, s), counter)
  {
  }

  /** The undone-from snapshot sits at the tail after an undo; a push drops it when the deque is
      full, otherwise it stays reachable by rotation. */
  lemma PushAfterUndo(h: seq<Snapshot>, s: Snapshot)
    requires 1 <= |h| <= HistoryCapacity
    ensures |h| < HistoryCapacity ==> PushFront(RotateLeft(h), s)[|h|] == h[0]
    ensures |h| == HistoryCapacity ==> PushFront(RotateLeft(h), s) == [s] + h[1..]
  {
    if |h| == HistoryCapacity {
      assert RotateLeft(h)[..|h| - 1] == h[1..];
    } else {
      assert RotateLeft(h)[|h| - 1] == h[0];
    }
  }

  /** The deque after k undos in a row: rotated left k times. */
  function RotateLeftN(h: seq<Snapshot>, k: nat): (r: seq<Snapshot>)
    ensures |r| == |h|
  {
    if k == 0 then h else RotateLeft(RotateLeftN(h, k - 1))
  }

  /** Undoing k times from the head brings the k-th most recent snapshot to the front, and the
      ones walked past go to the tail in their order; so |h| - 1 undos reach the oldest one. */
  lemma {:induction false} UndoWalksBack(h: seq<Snapshot>, k: nat)
    requires k < |h|
    ensures RotateLeftN(h, k) == h[k..] + h[..k]
    ensures RotateLeftN(h, k)[0] == h[k]
  {
    if k > 0 {
      UndoWalksBack(h, k - 1);
      var prev := h[k - 1..] + h[..k - 1];
      assert prev[0] == h[k - 1];
      assert prev[1..] == h[k..] + h[..k - 1];
      assert h[..k] == h[..k - 1] + [h[k - 1]];
    }
  }

  /**
   * As written, a push after an undo neither resets the counter nor drops the undone-from
   * snapshot: with room in the deque, the next redo is admitted and brings that snapshot back
   * to the front, ahead of the one just pushed.
   */
  lemma RedoAfterPushRestoresUndone(h: seq<Snapshot>, s: Snapshot, counter: int)
    requires HistoryOk(h, counter) && |h| < HistoryCapacity && counter > -|h| + 1
    ensures HistoryOk(PushFront(RotateLeft(h), s), counter - 1) && counter - 1 < 0
    ensures RotateRight(PushFront(RotateLeft(h), s)) == [h[0], s] + h[1..]
  {
    var pushed := PushFront(RotateLeft(h), s);
    assert pushed == [s] + h[1..] + [h[0]];
    assert pushed[..|pushed| - 1] == [s] + h[1..];
  }

  /** calculate_x_midpoint(x): halfway between the first and the last grid point. */
  function XMidpoint(x: seq<real>): (m: real)
    requires |x| > 0
    ensures m - x[0] == x[|x| - 1] - m
    ensures x[0] <= x[|x| - 1] ==> x[0] <= m <= x[|x| - 1]
  {
    (x[0] + x[|x| - 1]) / 2.0
  }

  /** get_curve_midpoint(curve): the centre when it is positive, else the middle of the plot. */
  function CurveMidpoint(c: CurveState, x: seq<real>): (m: real)
    requires |x| > 0
    ensures XcKey(c) > 0.0 ==> m == c.xc
    ensures XcKey(c) <= 0.0 ==> m == XMidpoint(x)
  {
    if XcKey(c) > 0.0 then XcKey(c) else XMidpoint(x)
  }

  /** The baseline's sentinel centre -1 sends its handle to the middle of the plot; so does a peak
      centred at 0. */
  lemma BaselineHandleCentred(c: CurveState, x: seq<real>)
    requires |x| > 0
    requires c.Constant? || c.xc == 0.0
    ensures CurveMidpoint(c, x) == XMidpoint(x)
  {
  }

  /** A plotted handle marker (a matplotlib line); only its identity is modelled. */
  class Handle {
    constructor ()
    {
    }
  }

  class GraphManager {
    /** None until init_history. */
    var history: Option<seq<Snapshot>>
    /** The counter navigation reads; it exists only once init_history has run. */
    var redoUndoCounter: Option<int>
    /** The attribute __init__ sets, under a different name; nothing reads it. */
    var undoRedoCounter: int
    /** curve_lines: each plotted curve with its handle, in insertion order (the line objects are
        left out). */
    var curveLines: seq<(Curve, Handle)>

    ghost predicate Valid()
      reads this
    {
      history.Some? ==> redoUndoCounter.Some? && HistoryOk(history.value, redoUndoCounter.value)
    }

    /** The handles of curve_lines, in order. */
    function Handles(): (hs: seq<Handle>)
      reads this
      ensures |hs| == |curveLines| && forall k :: 0 <= k < |hs| ==> hs[k] == curveLines[k].1
    {
      seq(|curveLines|, k requires 0 <= k < |curveLines| reads this => curveLines[k].1)
    }

    /** The curves of curve_lines, in order. */
    function Plotted(): (cs: seq<Curve>)
      reads this
      ensures |cs| == |curveLines| && forall k :: 0 <= k < |cs| ==> cs[k] == curveLines[k].0
    {
      seq(|curveLines|, k requires 0 <= k < |curveLines| reads this => curveLines[k].0)
    }

    /** The table's curves hold `states`, entry by entry. */
    ghost predicate PlotsStates(states: seq<CurveState>)
      reads this, Plotted()
    {
      |curveLines| == |states| && forall k :: 0 <= k < |curveLines| ==> curveLines[k].0.state == states[k]
    }

    /** GraphManager(...): no history, an empty curve table, and the misnamed counter set to 0. */
    constructor ()
      ensures history == None && redoUndoCounter == None && undoRedoCounter == 0 && curveLines == []
      ensures Valid()
    {
      history := None;
      redoUndoCounter := None;
      undoRedoCounter := 0;
      curveLines := [];
    }

    /**
     * update_plot(): the table is emptied, then the baseline curve_list[0] (IndexError on an empty
     * list) and every later curve are entered with a new handle, in list order.
     */
    method UpdatePlot(qd: QuantData) returns (o: Outcome)
      requires qd.compositeCurve != null && qd.compositeCurve.Valid()
      modifies this`curveLines
      ensures |qd.compositeCurve.curveList| == 0 ==> o == Raised(IndexError) && curveLines == []
      ensures |qd.compositeCurve.curveList| > 0 ==> o == Done && Plotted() == qd.compositeCurve.curveList
      ensures forall k :: 0 <= k < |curveLines| ==> fresh(curveLines[k].1)
      ensures forall i, j :: 0 <= i < j < |curveLines| ==> curveLines[i].1 != curveLines[j].1
    {
      curveLines := [];
      var list := qd.compositeCurve.curveList;
      if |list| == 0 {
        return Raised(IndexError);
      }
      var k := 0;
      while k < |list|
        invariant 0 <= k <= |list|
        invariant |curveLines| == k
        invariant forall j :: 0 <= j < k ==> curveLines[j].0 == list[j] && fresh(curveLines[j].1)
        invariant forall i, j :: 0 <= i < j < k ==> curveLines[i].1 != curveLines[j].1
      {
        var handle := new Handle();
        curveLines := curveLines + [(list[k], handle)];
        k := k + 1;
      }
      o := Done;
    }

    /** init_history(): one snapshot of the active composite, and the live counter at 0. */
    method InitHistory(qd: QuantData)
      requires qd.compositeCurve != null
      modifies this`history, this`redoUndoCounter
      ensures history == Some([CloneStates(qd.compositeCurve.Values())])
      ensures redoUndoCounter == Some(0)
      ensures Valid()
    {
      history := Some([CloneStates(qd.compositeCurve.Values())]);
      redoUndoCounter := Some(0);
    }

    /** active_qd_changed(): the table is emptied and replotted, then the history restarts. */
    method ActiveQdChanged(qd: QuantData) returns (o: Outcome)
      requires qd.compositeCurve != null && qd.compositeCurve.Valid()
      modifies this
      ensures o == if |qd.compositeCurve.curveList| == 0 then Raised(IndexError) else Done
      ensures o.Done? ==> Plotted() == qd.compositeCurve.curveList
      ensures o.Done? ==> history == Some([CloneStates(qd.compositeCurve.Values())]) && redoUndoCounter == Some(0)
      ensures o.Raised? ==> history == old(history) && redoUndoCounter == old(redoUndoCounter)
      ensures undoRedoCounter == old(undoRedoCounter)
      ensures old(Valid()) ==> Valid()
    {
      curveLines := [];
      o := UpdatePlot(qd);
      if o.Raised? {
        return;
      }
      InitHistory(qd);
    }

    /** fit_changed(): a clone of the active composite is pushed (AttributeError before
        init_history), then the plot is rebuilt; the counter is untouched. */
    method FitChanged(qd: QuantData) returns (o: Outcome)
      requires Valid()
      requires qd.compositeCurve != null && qd.compositeCurve.Valid()
      modifies this`history, this`curveLines
      ensures Valid()
      ensures old(history).None? ==>
        o == Raised(AttributeError) && history == None && curveLines == old(curveLines)
      ensures old(history).Some? ==>
        history == Some(PushFront(old(history).value, CloneStates(qd.compositeCurve.Values())))
      ensures old(history).Some? ==> (o == Raised(IndexError) <==> |qd.compositeCurve.curveList| == 0)
      ensures o == Raised(IndexError) ==> curveLines == []
      ensures o.Done? ==> Plotted() == qd.compositeCurve.curveList
    {
      if history.None? {
        return Raised(AttributeError);
      }
      PushKeepsHistoryOk(history.value, CloneStates(qd.compositeCurve.Values()), redoUndoCounter.value);
      history := Some(PushFront(history.value, CloneStates(qd.compositeCurve.Values())));
      o := UpdatePlot(qd);
    }

    /**
     * on_key_release(): when the active parameters differ from those of history[0], a clone is
     * pushed and the table refreshed (which sorts the composite); otherwise nothing changes.
     */
    method OnKeyRelease(qd: QuantData) returns (o: Outcome)
      requires Valid()
      requires qd.compositeCurve != null && qd.compositeCurve.Valid()
      modifies this`history, qd.compositeCurve
      ensures Valid() && qd.compositeCurve.Valid()
      ensures old(history).None? ==> o == Raised(TypeError)
      ensures old(history).Some? ==> o == Done
      ensures o.Raised? || !Changed(old(history).value, old(qd.compositeCurve.Values())) ==>
        history == old(history) && qd.compositeCurve.curveList == old(qd.compositeCurve.curveList)
      ensures o.Done? && Changed(old(history).value, old(qd.compositeCurve.Values())) ==>
        && history == Some(PushFront(old(history).value, CloneStates(old(qd.compositeCurve.Values()))))
        && qd.compositeCurve.Values() == SortByXc(old(qd.compositeCurve.Values()))
      ensures multiset(qd.compositeCurve.curveList) == multiset(old(qd.compositeCurve.curveList))
    {
      if history.None? {
        return Raised(TypeError);
      }
      var h := history.value;
      var cs := qd.compositeCurve.Values();
      if FlatParams(cs) != FlatParams(h[0]) {
        PushKeepsHistoryOk(h, CloneStates(cs), redoUndoCounter.value);
        history := Some(PushFront(h, CloneStates(cs)));
        assert Valid() && qd.compositeCurve.Values() == cs;
        UpdateGaussTable(qd);
        assert qd.compositeCurve.Values() == SortByXc(cs);
      }
      o := Done;
    }

    /** The push test of on_key_release: the parameter vectors differ. */
    static predicate Changed(h: seq<Snapshot>, cs: seq<CurveState>)
    {
      |h| > 0 && FlatParams(cs) != FlatParams(h[0])
    }

    /**
     * The steps undo and redo share once the deque has rotated: a fresh clone of the new front
     * becomes the active composite, update_plot rebuilds the table from it (IndexError on an
     * empty snapshot), then update_gauss_table sorts it in place. The table keeps the clone's
     * own order, since the sort reorders the list and not the entries already plotted.
     */
    method Restore(qd: QuantData, front: Snapshot) returns (o: Outcome)
      modifies this`curveLines, qd
      ensures fresh(qd.compositeCurve) && qd.compositeCurve.Valid()
      ensures qd.compositeCurve.Values() == SortByXc(CloneStates(front))
      ensures o == if |front| == 0 then Raised(IndexError) else Done
      ensures o.Raised? ==> curveLines == []
      ensures o.Done? ==> multiset(Plotted()) == multiset(qd.compositeCurve.curveList)
      ensures |curveLines| == |front|
      ensures forall k :: 0 <= k < |curveLines| ==> curveLines[k].0.state == CloneState(front[k])
    {
      var restored := CompositeCurve.CloneOf(front);
      qd.compositeCurve := restored;
      ghost var cloned := restored.Values();
      assert cloned == CloneStates(front);
      o := UpdatePlot(qd);
      if o.Raised? {
        assert restored.Values() == cloned == [];
        return;
      }
      assert restored.Values() == cloned;
      ghost var list := restored.curveList;
      ghost var lines := curveLines;
      assert Plotted() == list;
      assert forall k :: 0 <= k < |lines| ==> lines[k].0.state == cloned[k];
      UpdateGaussTable(qd);
      assert curveLines == lines && Plotted() == list;
      assert multiset(list) == multiset(restored.curveList);
      assert restored.Values() == SortByXc(cloned);
    }

    /**
     * undo(): history[-1] is a composite object, always true, so the guard is the counter test
     * counter > -len(history) + 1; then rotate(-1), a fresh clone of the new front becomes the
     * active composite, the counter drops by one, and the plot and table are refreshed.
     * When the guard fails nothing changes.
     */
    method Undo(qd: QuantData) returns (o: Outcome)
      requires Valid()
      requires qd.compositeCurve != null
      modifies this`history, this`redoUndoCounter, this`curveLines, qd
      ensures Valid()
      ensures old(history).None? ==> o == Raised(TypeError)
      ensures !Moved(old(history), old(redoUndoCounter), -1) ==>
        && history == old(history) && redoUndoCounter == old(redoUndoCounter)
        && curveLines == old(curveLines)
        && qd.compositeCurve == old(qd.compositeCurve) && (old(history).Some? ==> o == Done)
      ensures Moved(old(history), old(redoUndoCounter), -1) ==>
        && history == Some(RotateLeft(old(history).value))
        && redoUndoCounter == Some(old(redoUndoCounter).value - 1)
        && fresh(qd.compositeCurve) && qd.compositeCurve.Valid()
        && qd.compositeCurve.Values() == SortByXc(CloneStates(history.value[0]))
        && o == (if |history.value[0]| == 0 then Raised(IndexError) else Done)
        && (o.Done? ==> multiset(Plotted()) == multiset(qd.compositeCurve.curveList))
        && |curveLines| == |history.value[0]|
        && (forall k :: 0 <= k < |curveLines| ==> curveLines[k].0.state == CloneState(history.value[0][k]))
    {
      if history.None? {
        return Raised(TypeError);
      }
      var h := history.value;
      var counter := redoUndoCounter.value;
      if counter > -|h| + 1 {
        var rotated := RotateLeft(h);
        assert HistoryOk(rotated, counter - 1);
        history := Some(rotated);
        redoUndoCounter := Some(counter - 1);
        o := Restore(qd, rotated[0]);
        return;
      }
      o := Done;
    }

    /** Whether undo (step -1) or redo (step 1) passes its guard and moves through the history. */
    static predicate Moved(history: Option<seq<Snapshot>>, counter: Option<int>, step: int)
    {
      && history.Some? && counter.Some?
      && (step < 0 ==> |history.value| >= 1 && counter.value > -|history.value| + 1)
      && (step >= 0 ==> |history.value| >= 2 && counter.value < 0)
    }

    /**
     * redo(): history[1] is read before the counter test, so a single snapshot raises IndexError;
     * otherwise, when counter < 0, rotate(1), a fresh clone of the new front becomes the active
     * composite, the counter rises by one, and the plot and table are refreshed. When the guard
     * fails nothing changes.
     */
    method Redo(qd: QuantData) returns (o: Outcome)
      requires Valid()
      requires qd.compositeCurve != null
      modifies this`history, this`redoUndoCounter, this`curveLines, qd
      ensures Valid()
      ensures old(history).None? ==> o == Raised(TypeError)
      ensures old(history).Some? && |old(history).value| < 2 ==> o == Raised(IndexError)
      ensures old(history).Some? && |old(history).value| >= 2 && !Moved(old(history), old(redoUndoCounter), 1) ==>
        o == Done
      ensures !Moved(old(history), old(redoUndoCounter), 1) ==>
        && history == old(history) && redoUndoCounter == old(redoUndoCounter)
        && curveLines == old(curveLines)
        && qd.compositeCurve == old(qd.compositeCurve)
      ensures Moved(old(history), old(redoUndoCounter), 1) ==>
        && history == Some(RotateRight(old(history).value))
        && redoUndoCounter == Some(old(redoUndoCounter).value + 1)
        && fresh(qd.compositeCurve) && qd.compositeCurve.Valid()
        && qd.compositeCurve.Values() == SortByXc(CloneStates(history.value[0]))
        && o == (if |history.value[0]| == 0 then Raised(IndexError) else Done)
        && (o.Done? ==> multiset(Plotted()) == multiset(qd.compositeCurve.curveList))
        && |curveLines| == |history.value[0]|
        && (forall k :: 0 <= k < |curveLines| ==> curveLines[k].0.state == CloneState(history.value[0][k]))
    {
      if history.None? {
        return Raised(TypeError);
      }
      var h := history.value;
      if |h| < 2 {
        return Raised(IndexError);
      }
      var counter := redoUndoCounter.value;
      if counter < 0 {
        var rotated := RotateRight(h);
        assert HistoryOk(rotated, counter + 1);
        history := Some(rotated);
        redoUndoCounter := Some(counter + 1);
        o := Restore(qd, rotated[0]);
        return;
      }
      o := Done;
    }
  }

  /** An undo that moves, followed at once by a redo, restores the deque order and the counter. */
  lemma UndoThenRedo(h: seq<Snapshot>, counter: int)
    requires HistoryOk(h, counter) && counter > -|h| + 1
    ensures HistoryOk(RotateLeft(h), counter - 1)
    ensures |h| >= 2 && counter - 1 < 0
    ensures RotateRight(RotateLeft(h)) == h
  {
    RotationsCancel(h);
  }
}
