/**
 * The parameter table of analysis_manager.py: default_gaussian_width and get_curve_param_list,
 * the module-level helpers the reducers and the history navigation call. The table is built
 * after sorting the composite, which is the one effect update_gauss_table has on the model
 * (the text rendering is left out).
 */
module ParamTable {
  import opened Outcomes
  import opened CurveModel
  import opened CurveOrder
  import opened Curves
  import opened Data

  /** default_gaussian_width(xmin, xmax): the x range over the division factor 20. */
  const DivisionFactor: real := 20.0

  function DefaultGaussianWidth(xmin: real, xmax: real): (w: real)
    ensures xmin <= xmax ==> 0.0 <= w <= xmax - xmin
    ensures w * DivisionFactor == xmax - xmin
  {
    (xmax - xmin) / DivisionFactor
  }

  /** One row [peak, y0, area, xc, A, w]; y0 is None until a baseline has been seen. */
  datatype ParamRow = ParamRow(peak: int, y0: Option<real>, area: real, xc: real, a: real, w: real)

  /** The row of a Gaussian numbered `peak`, with baseline value y0. */
  function RowOf(peak: int, y0: Option<real>, g: CurveState): (row: ParamRow)
    requires g.Gaussian?
    ensures row.peak == peak && row.y0 == y0 && row.area == Area(g)
    ensures [row.xc, row.a, row.w] == Params(g)
  {
    ParamRow(peak, y0, Area(g), g.xc, g.a, g.w)
  }

  /** The number of curves with more than one parameter. */
  function PeakCount(cs: seq<CurveState>): (n: nat)
    ensures n <= |cs|
  {
    if |cs| == 0 then 0
    else PeakCount(cs[..|cs| - 1]) + (if Arity(cs[|cs| - 1]) == 1 then 0 else 1)
  }

  /** The value of the last one-parameter curve, as the loop's y0 holds it. */
  function LastBaseline(cs: seq<CurveState>): Option<real>
  {
    if |cs| == 0 then None
    else
      var c := cs[|cs| - 1];
      if Arity(c) == 1 then Some(c.y) else LastBaseline(cs[..|cs| - 1])
  }

  /** The rows the loop of get_curve_param_list emits for the list cs, in list order. */
  function ParamRows(cs: seq<CurveState>): (rows: seq<ParamRow>)
    ensures |rows| == PeakCount(cs)
  {
    if |cs| == 0 then []
    else
      var front := cs[..|cs| - 1];
      var c := cs[|cs| - 1];
      ParamRows(front) + (if Arity(c) == 1 then [] else [RowOf(PeakCount(front) + 1, LastBaseline(front), c)])
  }

  /** Peaks are numbered 1, 2, ... in the order the rows are emitted. */
  lemma {:induction false} RowsNumbered(cs: seq<CurveState>)
    ensures forall k :: 0 <= k < |ParamRows(cs)| ==> ParamRows(cs)[k].peak == k + 1
  {
    if |cs| > 0 {
      var front := cs[..|cs| - 1];
      RowsNumbered(front);
    }
  }

  /**
   * On a shaped list (the baseline first, then peaks) there is one row per peak, in list order,
   * each carrying the baseline's value as y0.
   */
  lemma {:induction false} ShapedRows(cs: seq<CurveState>)
    requires Shaped(cs)
    ensures |ParamRows(cs)| == |cs| - 1
    ensures forall k :: 0 <= k < |cs| - 1 ==> ParamRows(cs)[k] == RowOf(k + 1, Some(cs[0].y), cs[k + 1])
  {
    if |cs| > 1 {
      var front := cs[..|cs| - 1];
      assert Shaped(front) by {
        assert forall k :: 1 <= k < |front| ==> front[k] == cs[k];
      }
      ShapedRows(front);
      assert LastBaseline(front) == Some(cs[0].y) by {
        ShapedBaseline(front);
      }
    }
  }

  lemma {:induction false} ShapedBaseline(cs: seq<CurveState>)
    requires Shaped(cs)
    ensures LastBaseline(cs) == Some(cs[0].y)
  {
    if |cs| > 1 {
      var front := cs[..|cs| - 1];
      assert Shaped(front) by {
        assert forall k :: 1 <= k < |front| ==> front[k] == cs[k];
      }
      ShapedBaseline(front);
    }
  }

  /**
   * The table of a shaped composite after its sort: one row per peak, numbered 1..k in ascending
   * centre order, each with the baseline's value.
   */
  lemma SortedTable(cs: seq<CurveState>)
    requires Shaped(cs)
    ensures var rows := ParamRows(SortByXc(cs));
      && |rows| == |cs| - 1
      && (forall k :: 0 <= k < |rows| ==> rows[k].peak == k + 1 && rows[k].y0 == Some(cs[0].y))
      && (forall k, l :: 0 <= k < l < |rows| ==> rows[k].xc <= rows[l].xc)
  {
    var s := SortByXc(cs);
    SortKeepsShape(cs);
    ShapedRows(s);
    RowsNumbered(s);
    var rows := ParamRows(s);
    forall k, l | 0 <= k < l < |rows|
      ensures rows[k].xc <= rows[l].xc
    {
      assert rows[k].xc == s[k + 1].xc && rows[l].xc == s[l + 1].xc;
    }
  }

  /** One more member extends the table, the count and the last baseline as the loop does. */
  lemma TableStep(cs: seq<CurveState>, k: nat)
    requires k < |cs|
    ensures var pre, c := cs[..k], cs[k];
      && ParamRows(cs[..k + 1]) ==
         ParamRows(pre) + (if Arity(c) == 1 then [] else [RowOf(PeakCount(pre) + 1, LastBaseline(pre), c)])
      && PeakCount(cs[..k + 1]) == PeakCount(pre) + (if Arity(c) == 1 then 0 else 1)
      && LastBaseline(cs[..k + 1]) == (if Arity(c) == 1 then Some(c.y) else LastBaseline(pre))
  {
    assert cs[..k + 1][..k] == cs[..k];
  }

  /**
   * get_curve_param_list(qd): sorts the composite, then walks it with a running peak number and
   * the most recent baseline value.
   */
  method GetCurveParamList(qd: QuantData) returns (rows: seq<ParamRow>)
    requires qd.compositeCurve != null && qd.compositeCurve.Valid()
    modifies qd.compositeCurve
    ensures qd.compositeCurve.Valid()
    ensures multiset(qd.compositeCurve.curveList) == multiset(old(qd.compositeCurve.curveList))
    ensures qd.compositeCurve.Values() == SortByXc(old(qd.compositeCurve.Values()))
    ensures rows == ParamRows(qd.compositeCurve.Values())
  {
    var composite := qd.compositeCurve;
    composite.Sort();
    var cs := composite.Values();
    rows := [];
    var y0: Option<real> := None;
    var peak := 1;
    var k := 0;
    while k < |composite.curveList|
      invariant 0 <= k <= |cs|
      invariant rows == ParamRows(cs[..k])
      invariant y0 == LastBaseline(cs[..k])
      invariant peak == PeakCount(cs[..k]) + 1
      modifies {}
    {
      TableStep(cs, k);
      var curve := composite.curveList[k];
      assert curve.state == cs[k];
      var area := Area(curve.state);
      var params := Params(curve.state);
      if |params| == 1 {
        y0 := Some(params[0]);
      } else {
        rows := rows + [ParamRow(peak, y0, area, params[0], params[1], params[2])];
        peak := peak + 1;
      }
      k := k + 1;
    }
    assert cs[..k] == cs;
  }

  /** update_gauss_table(): its effect on the model is the sort inside get_curve_param_list. */
  method UpdateGaussTable(qd: QuantData)
    requires qd.compositeCurve != null && qd.compositeCurve.Valid()
    modifies qd.compositeCurve
    ensures qd.compositeCurve.Valid()
    ensures multiset(qd.compositeCurve.curveList) == multiset(old(qd.compositeCurve.curveList))
    ensures qd.compositeCurve.Values() == SortByXc(old(qd.compositeCurve.Values()))
  {
    var rows := GetCurveParamList(qd);
  }
}
