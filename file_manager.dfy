/**
 * file_manager.py: the list of loaded data files and the cursor on the active one. Reading a
 * file is I/O: register_file receives the QuantData that quant_data.QuantData(filename) builds.
 */
module Files {
  import opened Outcomes
  import opened Data
  import opened CurveModel
  import opened CurveOrder
  import Analysis

  /** The cursor invariant the prev/next buttons keep: an index into the list. */
  predicate InBounds(index: Option<int>, count: nat)
  {
    index.Some? && 0 <= index.value < count
  }

  /** prev_file on an index: one down when above 0; comparing None with 0 raises TypeError. */
  function Prev(index: Option<int>): (r: Result<Option<int>>)
    ensures index.None? <==> r == Err(TypeError)
    ensures index.Some? && index.value > 0 ==> r == Ok(Some(index.value - 1))
    ensures index.Some? && index.value <= 0 ==> r == Ok(index)
  {
    if index.None? then Err(TypeError)
    else if index.value > 0 then Ok(Some(index.value - 1))
    else Ok(index)
  }

  /** next_file on an index: one up when below len - 1; comparing None raises TypeError. */
  function Next(index: Option<int>, count: nat): (r: Result<Option<int>>)
    ensures index.None? <==> r == Err(TypeError)
    ensures index.Some? && index.value < count - 1 ==> r == Ok(Some(index.value + 1))
    ensures index.Some? && index.value >= count - 1 ==> r == Ok(index)
  {
    if index.None? then Err(TypeError)
    else if index.value < count - 1 then Ok(Some(index.value + 1))
    else Ok(index)
  }

  /** Both moves keep an in-bounds cursor in bounds and move it by at most one. */
  lemma MovesStayInBounds(index: Option<int>, count: nat)
    requires InBounds(index, count)
    ensures Prev(index).Ok? && InBounds(Prev(index).value, count)
    ensures Next(index, count).Ok? && InBounds(Next(index, count).value, count)
    ensures -1 <= Prev(index).value.value - index.value <= 0
    ensures 0 <= Next(index, count).value.value - index.value <= 1
  {
  }

  /** Stepping back from the first entry and forward from the last are no-ops. */
  lemma EndsAreFixed(count: nat)
    requires count > 0
    ensures Prev(Some(0)) == Ok(Some(0))
    ensures Next(Some(count - 1), count) == Ok(Some(count - 1))
  {
  }

  /** From an in-bounds cursor that is not at the last entry, next then prev returns to it. */
  lemma NextThenPrev(index: Option<int>, count: nat)
    requires InBounds(index, count) && index.value < count - 1
    ensures Prev(Next(index, count).value) == Ok(index)
  {
  }

  /** get_active_qd() on a list and an index: None without an index, else qd_list[index] with
      Python's negative indexing; an index outside [-len, len) raises IndexError. */
  function ActiveOf(qdList: seq<QuantData>, index: Option<int>): (r: Result<Option<QuantData>>)
    ensures index.None? ==> r == Ok(None)
    ensures InBounds(index, |qdList|) ==> r == Ok(Some(qdList[index.value]))
    ensures index.Some? && -|qdList| <= index.value < 0 ==> r == Ok(Some(qdList[|qdList| + index.value]))
    ensures index.Some? && (index.value < -|qdList| || index.value >= |qdList|) ==> r == Err(IndexError)
  {
    if index.None? then Ok(None)
    else if 0 <= index.value < |qdList| then Ok(Some(qdList[index.value]))
    else if -|qdList| <= index.value < 0 then Ok(Some(qdList[|qdList| + index.value]))
    else Err(IndexError)
  }

  class FileManager {
    var qdList: seq<QuantData>
    var activeIndex: Option<int>

    /** FileManager(app): no files and no active index. */
    constructor ()
      ensures qdList == [] && activeIndex == None
    {
      qdList := [];
      activeIndex := None;
    }

    /**
     * set_active_index(index=None): the argument is stored as given, with no bounds check, then
     * the app's update_analysis_manager runs update() of `analysis` on the file it selects. No
     * index makes _init_composite_fit read `None.composite_curve` (AttributeError); an index
     * outside the list raises IndexError at the lookup; either way no fit changes. Only the
     * selected file's fit is touched.
     */
    method SetActiveIndex(index: Option<int>, analysis: Analysis.AnalysisManager) returns (o: Outcome)
      requires forall q :: q in qdList && q.compositeCurve != null ==> q.compositeCurve.Valid()
      modifies this`activeIndex, qdList, set q | q in qdList :: q.compositeCurve, analysis.graph
      ensures activeIndex == index
      ensures ActiveOf(qdList, index).Err? ==> o == Raised(IndexError)
      ensures ActiveOf(qdList, index) == Ok(None) ==> o == Raised(AttributeError)
      ensures ActiveOf(qdList, index).Err? || ActiveOf(qdList, index) == Ok(None) ==>
        && analysis.graph.curveLines == old(analysis.graph.curveLines)
        && analysis.graph.history == old(analysis.graph.history)
        && forall q :: q in qdList ==>
             && q.compositeCurve == old(q.compositeCurve)
             && (q.compositeCurve != null ==> q.compositeCurve.curveList == old(q.compositeCurve.curveList))
      ensures ActiveOf(qdList, index).Ok? && ActiveOf(qdList, index).value.Some? ==>
        var qd := ActiveOf(qdList, index).value.value;
        forall q :: q in qdList && q != qd ==>
          && q.compositeCurve == old(q.compositeCurve)
          && (q.compositeCurve != null && q.compositeCurve != qd.compositeCurve ==>
                q.compositeCurve.curveList == old(q.compositeCurve.curveList))
      ensures ActiveOf(qdList, index).Ok? && ActiveOf(qdList, index).value.Some? ==>
        var qd := ActiveOf(qdList, index).value.value;
        && qd.compositeCurve != null && qd.compositeCurve.Valid()
        && (old(qd.compositeCurve) == null ==> qd.compositeCurve.Values() == [Constant(1.0)])
        && (old(qd.compositeCurve) != null ==>
            && qd.compositeCurve == old(qd.compositeCurve)
            && qd.compositeCurve.Values() == SortByXc(old(qd.compositeCurve.Values())))
        && o == (if |qd.compositeCurve.curveList| == 0 then Raised(IndexError) else Done)
        && (o.Done? ==>
            && analysis.graph.Plotted() == qd.compositeCurve.curveList
            && analysis.graph.history == Some([CloneStates(qd.compositeCurve.Values())])
            && analysis.graph.redoUndoCounter == Some(0))
    {
      activeIndex := index;
      var active := GetActiveQd();
      if active.Err? {
        return Raised(active.error);
      }
      if active.value.None? {
        return Raised(AttributeError);
      }
      var qd := active.value.value;
      ghost var composite := qd.compositeCurve;
      ghost var values := if composite == null then [] else composite.Values();
      assert composite != null ==> old(composite.Values()) == values;
      o := analysis.Update(qd);
      assert composite != null ==> qd.compositeCurve.Values() == SortByXc(values);
      assert forall q :: q in qdList && q != qd ==> q.compositeCurve == old(q.compositeCurve);
      assert forall q :: q in qdList && q != qd && q.compositeCurve != null && q.compositeCurve != composite ==>
        q.compositeCurve.curveList == old(q.compositeCurve.curveList);
    }

    /** get_active_qd() */
    method GetActiveQd() returns (r: Result<Option<QuantData>>)
      ensures r == ActiveOf(qdList, activeIndex)
    {
      if activeIndex.None? {
        return Ok(None);
      }
      var i := activeIndex.value;
      if 0 <= i < |qdList| {
        return Ok(Some(qdList[i]));
      } else if -|qdList| <= i < 0 {
        return Ok(Some(qdList[|qdList| + i]));
      }
      return Err(IndexError);
    }

    /** register_file(filename): the loaded file is appended; nothing else changes. */
    method RegisterFile(qd: QuantData)
      modifies this`qdList
      ensures qdList == old(qdList) + [qd]
    {
      qdList := qdList + [qd];
    }

    /** prev_file() */
    method PrevFile() returns (o: Outcome)
      modifies this`activeIndex
      ensures Prev(old(activeIndex)).Err? ==> o == Raised(Prev(old(activeIndex)).error) && activeIndex == old(activeIndex)
      ensures Prev(old(activeIndex)).Ok? ==> o == Done && activeIndex == Prev(old(activeIndex)).value
    {
      if activeIndex.None? {
        return Raised(TypeError);
      }
      if activeIndex.value > 0 {
        activeIndex := Some(activeIndex.value - 1);
      }
      o := Done;
    }

    /** next_file() */
    method NextFile() returns (o: Outcome)
      modifies this`activeIndex
      ensures Next(old(activeIndex), |qdList|).Err? ==>
        o == Raised(Next(old(activeIndex), |qdList|).error) && activeIndex == old(activeIndex)
      ensures Next(old(activeIndex), |qdList|).Ok? ==> o == Done && activeIndex == Next(old(activeIndex), |qdList|).value
    {
      var maxIndex := |qdList| - 1;
      if activeIndex.None? {
        return Raised(TypeError);
      }
      if activeIndex.value < maxIndex {
        activeIndex := Some(activeIndex.value + 1);
      }
      o := Done;
    }
  }
}
