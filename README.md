# EasyQuant curve model, fitting helpers and edit state, in Dafny

EasyQuant decomposes a 1-D intensity profile (a gel-scan trace) into a constant baseline plus a
sum of amplitude-form Gaussian peaks, placed by hand with draggable handles and refined by
nonlinear least squares. This project models the core of that program and proves properties of
the model:

- `curve_model.dfy` (module `CurveModel`): the two curve kinds as values, `set_params` with its
  sign folding, single-curve evaluation with and without an override tuple, `area`, `clone`, and
  the flat parameter vector of a composite curve, whose member boundaries are recovered only by
  replaying each member's arity in list order.
- `curve_order.dfy` (module `CurveOrder`): `sorted(..., key=xc)` as a stable insertion sort,
  proved to be a sorted, stable, idempotent permutation; the baseline's sentinel `xc = -1` keeps
  it first.
- `curves.py` as objects (`curves.dfy`, module `Curves`): a `Curve` class whose field is updated in
  place, and `CompositeCurve`, whose `curveList` holds curve objects. Its `GetParams`, `SetParams`
  and `Evaluate` loops run with the source's running offset and are proved against the value
  model. `Sort` reassigns the list.
- `fitting.py` (module `Fitting`): the three-point derivative with edge padding, the zero-crossing
  finder, the peak screening loop of `estimate_fit`, and the clone-then-`set_params` tail of
  `optimize_fit`.
- `graph_manager.py` (module `Graph`): the 15-entry undo/redo deque, navigated by rotation and a
  signed counter, modelled as written; the curve-to-handle table rebuilt by `update_plot`; and the
  handle midpoint rule.
- `analysis_manager.py` (modules `Analysis` and `ParamTable`): drag and shift-drag reducers, the
  locked-width toggle, adding and deleting peaks, the outcome handling of fit and estimate,
  `default_gaussian_width` and `get_curve_param_list`.
- `handle_manager.py` (module `Handles`): nearest-handle picking within 7 pixels, the reverse
  lookup from handle to curve, the selection state, the baseline-deletion guard and the mouse
  dispatch.
- `file_manager.py` (module `Files`): the list of loaded files and the active-index cursor.
- `quant_data.py` (module `Data`) and `outcomes.dfy` (module `Outcomes`): a loaded dataset, and
  the `Option`, `Result` and Python-exception types the other modules use.

All numbers are Dafny `real`. `exp` and `sqrt` are function parameters about which nothing is
assumed. `np.sqrt(np.pi/2)` is the double literal `1.2533141373155001`. A float expression that
can be NaN is a `Sample` (`Finite(v)` or `NaN`). A Python exception that reaches a caller is an
`Outcomes.Error` value: methods return a `Result` or an `Outcome`. Handlers that Python wraps in
`try` turn errors into a "done" outcome with nothing changed.

## Model

| member | source | states |
|---|---|---|
| `CurveModel.Params` | src/curves.py:54-59 | `get_params` is `(y,)` for the baseline and `(xc, A, w)` for a Gaussian, so its length is the curve's arity, 1 or 3 |
| `CurveModel.NewGaussian` | src/curves.py:115-118 | the Gaussian constructor stores `abs(xc)`, `abs(A)`, `abs(w)` |
| `CurveModel.SetParams` | src/curves.py:133-143 | each field whose argument is omitted or None is kept; a given argument is stored as its absolute value on a Gaussian and verbatim on the baseline; the kind never changes |
| `CurveModel.CloneState` | src/curves.py:123-124 | a clone has the same kind, is folded, and equals the original whenever the original's Gaussian fields are nonnegative |
| `CurveModel.SetOwnParams` | src/curves.py:138-143 | `set_params(*get_params())` leaves a folded curve unchanged |
| `CurveModel.SetParamsIdempotent` | src/curves.py:133-143 | setting the same arguments twice equals setting them once |
| `CurveModel.GaussianAtWidthSign` | src/curves.py:169 | the peak shape depends on the width only through its square, so a negative width evaluates as its absolute value |
| `CurveModel.EvalMember` | src/curves.py:159-169 | an empty override tuple evaluates with the stored fields; a Gaussian given a tuple of 1 or 2 values raises IndexError, and that is the only error |
| `CurveModel.Area` | src/curves.py:173-176 | the baseline's area is 0; a Gaussian's area `2*A*w*sqrt(pi/2)` is positive exactly when `A*w > 0`, zero exactly when `A*w == 0`, and never negative for a folded curve |
| `CurveModel.AreaMonotone` | src/curves.py:173-176 | the area grows with the amplitude and with the width |
| `CurveModel.FlatParams` | src/curves.py:200-210 | the composite `get_params` has length equal to the sum of the member arities |
| `CurveModel.Slice` | src/curves.py:223 | `params[i:i+n]` has at most n entries and is the exact slice when it fits, clamped as Python clamps |
| `CurveModel.FlatParamsSlice` | src/curves.py:220-224 | member k's tuple sits in `get_params()` at the sum of the arities before k, which is exactly where `set_params` and `evaluate` slice for it |
| `CurveModel.SetGetRoundTrip` | src/curves.py:214-224 | `set_params(*get_params())` changes no member when every Gaussian field is nonnegative |
| `CurveModel.ApplyParamsKeepsLayout` | src/curves.py:214-224 | the composite `set_params` keeps every member's kind, the total arity and every member offset |
| `CurveModel.ApplyParamsIdempotent` | src/curves.py:214-224 | applying the same vector twice equals applying it once |
| `CurveModel.FullVectorFolds` | src/curves.py:220-224 | a vector as long as `get_params()` leaves every Gaussian field nonnegative |
| `CurveModel.EvalWithReadsPrefix` | src/curves.py:244-249 | the override loop reads only the first `len(get_params())` entries of the vector |
| `CurveModel.EvaluateWithOwnParams` | src/curves.py:241-256 | `evaluate(x, *get_params()) == evaluate(x)` for every composite |
| `CurveModel.OverrideAgreesWithSet` | src/curves.py:244-249 | evaluating with an override vector equals `set_params` of that vector followed by a plain evaluate, when the vector covers every member and its Gaussian centres and amplitudes are nonnegative |
| `CurveModel.NegativeAmplitudeIsFlipped` | src/curves.py:159-169 | without the sign condition the two disagree: a negative amplitude evaluates as a dip, but `set_params` stores it as a peak |
| `CurveModel.CloneStates` | src/curves.py:192-196 | the composite clone has as many members as the original, each the clone of the member at the same position |
| `CurveModel.CloneStatesKeepsLayout` | src/curves.py:192-196 | a clone has the same kinds in the same order and the same total arity; it is folded, and equal to the original when the original is folded |
| `CurveModel.CloneStatesIdempotent` | src/curves.py:192-196 | cloning a clone gives an equal composite |
| `CurveModel.EvalWithErrorPropagates` | src/curves.py:246-249 | once a member raises in the override loop, the whole evaluation raises that error |
| `CurveOrder.SortByPermutes` | src/curves.py:264 | the sort is a permutation |
| `CurveOrder.SortBySorted` | src/curves.py:264 | the sort's result is ordered by the key |
| `CurveOrder.SortByStable` | src/curves.py:264 | elements with equal keys keep their relative order |
| `CurveOrder.SortBySortedIsIdentity` | src/curves.py:264 | a list already in key order is left unchanged |
| `CurveOrder.SortByIdempotent` | src/curves.py:264 | sorting twice gives the same order as sorting once |
| `CurveOrder.SortByMap` | src/curves.py:264 | sorting (object, fields) pairs and projecting equals projecting and then sorting, which ties the object list to the value list |
| `CurveOrder.SortByXc` | src/curves.py:260-264 | `sort()` keeps the members' number and multiset |
| `CurveOrder.LeastKeyStaysFirst` | src/curves.py:47 | a member whose key is below every other key stays first |
| `CurveOrder.SortKeepsShape` | src/curves.py:264 | on a composite holding the baseline first and then peaks with nonnegative centres, the sort keeps the baseline first and puts the peaks in ascending centre order |
| `CurveOrder.SortByXcStable` | src/curves.py:264 | peaks at the same centre keep their list order |
| `CurveOrder.ApplyParamsKeepsShape` | src/curves.py:138-141 | `set_params` keeps the baseline first and every peak's centre and amplitude nonnegative |
| `CurveOrder.PermutationKeepsDistinct` | src/curves.py:264 | reordering a list of distinct curve objects keeps them distinct |
| `Curves.IndexOf` | src/analysis_manager.py:396 | `list.index` returns the first position holding the object |
| `Curves.RemoveAt` | src/analysis_manager.py:396 | removing the entry at a position drops exactly that object and keeps the list free of repeats |
| `Curves.Curve.ConstantCurve` | src/curves.py:45-47 | the baseline constructor stores y as given |
| `Curves.Curve.GaussianCurve` | src/curves.py:115-118 | the Gaussian constructor stores the absolute values |
| `Curves.Curve.OfState` | src/curves.py:49-50 | a clone is a fresh object made by the constructor of the same kind |
| `Curves.Curve.Clone` | src/curves.py:123-124 | `clone()` returns a fresh curve with the cloned fields |
| `Curves.Curve.SetParams` | src/curves.py:63-65 | in-place `set_params` leaves the fields the value model gives |
| `Curves.CompositeCurve.constructor` | src/curves.py:189-190 | a new composite has an empty list |
| `Curves.CompositeCurve.CloneOf` | src/curves.py:192-196 | the clone loop builds a fresh composite of fresh member objects whose values are the member clones |
| `Curves.CompositeCurve.Clone` | src/curves.py:192-196 | `clone()` shares no object with the original and holds the member clones in order |
| `Curves.CompositeCurve.Append` | src/fitting.py:73 | `curve_list.append` adds one object at the end |
| `Curves.CompositeCurve.Remove` | src/analysis_manager.py:396 | `curve_list.remove(c)` takes out that object and keeps the rest in order |
| `Curves.CompositeCurve.GetParams` | src/curves.py:200-210 | the extend loop returns the flat vector of the value model |
| `Curves.CompositeCurve.SetParams` | src/curves.py:214-224 | the running-offset loop gives every member its slice, as the value model's `ApplyParams` does |
| `Curves.CompositeCurve.Evaluate` | src/curves.py:228-256 | both evaluation loops return what the value model's `Evaluate` gives, including the IndexError of a short override slice |
| `Curves.CompositeCurve.Sort` | src/curves.py:260-264 | the list is a permutation of the old objects, whose values are the stable sort by `xc` |
| `Fitting.CentralDifference` | src/fitting.py:98-101 | for n >= 3 the result has length n, `out[i] = (y[i+1]-y[i-1])/(2h)` inside, `out[0] = out[1]` and `out[n-1] = out[n-2]` |
| `Fitting.CentralDifferenceOfLine` | src/fitting.py:98-101 | on data rising by `s*h` per sample the derivative is `s` everywhere, edges included |
| `Fitting.ComputeNumericalDerivative` | src/fitting.py:96-103 | any positive number of passes gives the one-pass result; zero passes raise UnboundLocalError; fewer than 3 samples raise IndexError |
| `Fitting.CrossingsFrom` | src/fitting.py:118 | from a start index on, exactly the indices where the sign changes, strictly ascending |
| `Fitting.ZeroCrossings` | src/fitting.py:118 | the result is exactly the indices i with `sign(y[i]) != sign(y[i+1])`, strictly ascending |
| `Fitting.ExactZeroCrossesTwice` | src/fitting.py:118 | an exact zero between two nonzero samples is reported on both sides |
| `Fitting.Max` | src/fitting.py:62 | `y.max()` bounds every sample and is one of them |
| `Fitting.Accepted` | src/fitting.py:65-73 | no more survivors than candidates; each survivor has negative curvature |
| `Fitting.AcceptedSound` | src/fitting.py:65-73 | every survivor is a candidate that passes all three screening tests |
| `Fitting.AcceptedComplete` | src/fitting.py:65-73 | every candidate that passes the screening survives |
| `Fitting.AcceptedAscending` | src/fitting.py:65-73 | ascending candidates give ascending survivors |
| `Fitting.PeakAt` | src/fitting.py:72 | an accepted crossing i becomes a peak at centre `abs(x[i])` with amplitude `abs(ys[i]-ys[0])` |
| `Fitting.PeaksFor` | src/fitting.py:65-73 | one peak per accepted crossing, in order |
| `Fitting.EstimateShape` | src/fitting.py:52-73 | the estimate is `Constant(ys[0])` followed only by peaks, one per accepted crossing, at most one per zero crossing of dy |
| `Fitting.EstimateSelectsCrossings` | src/fitting.py:60-73 | an index becomes a peak exactly when it is a zero crossing of dy that passes the screening |
| `Fitting.EstimateKeepsCrossingOrder` | src/fitting.py:65-73 | the peaks follow their crossings in ascending index order |
| `Fitting.WidthTestIsRadiusTest` | src/fitting.py:68-71 | with a true square root, `w_est < 3` holds exactly when `0 <= -ys[i]/ddy[i] < 9`; a NaN estimate fails the test |
| `Fitting.ScreenCrossing` | src/fitting.py:66-73 | one pass appends a fresh Gaussian exactly when the crossing passes the screening, and keeps the earlier members in place; any new member is fresh |
| `Fitting.ScreenPeaks` | src/fitting.py:52-75 | the loop builds a fresh composite of fresh members whose values are the screened estimate |
| `Fitting.EstimateFit` | src/fitting.py:33-75 | fewer than 21 samples raise ValueError (the smoothing window); otherwise the result is the estimate computed from the smoothed series |
| `Fitting.OptimizeFit` | src/fitting.py:17-31 | a solver error propagates; otherwise the result is a fresh clone of the input given the solver's vector, and the input is untouched |
| `Fitting.FittedLayout` | src/fitting.py:28-31 | the fitted composite keeps the member count, kinds and order; a full-length vector folds every Gaussian; a baseline-first composite stays baseline-first |
| `Graph.PushFront` | src/graph_manager.py:110-111 | `appendleft` puts the snapshot at the front and shifts the rest back; on a full deque of 15 the tail entry is dropped |
| `Graph.RotateLeft` | src/graph_manager.py:335 | `rotate(-1)` moves the front snapshot to the tail and shifts the rest forward |
| `Graph.RotateRight` | src/graph_manager.py:351 | `rotate(1)` moves the tail snapshot to the front and shifts the rest back |
| `Graph.RotationsCancel` | src/graph_manager.py:333-353 | a redo rotation right after an undo rotation restores the deque, and the reverse order does too |
| `Graph.RotationsPermute` | src/graph_manager.py:333-353 | rotations neither add nor lose snapshots |
| `Graph.PushKeepsHistoryOk` | src/graph_manager.py:309-311 | a push keeps at most 15 snapshots and the counter range `-(len-1) <= counter <= 0` |
| `Graph.PushAfterUndo` | src/graph_manager.py:110-111 | after an undo the undone-from snapshot sits at the tail; a push keeps it unless the deque is full |
| `Graph.UndoWalksBack` | src/graph_manager.py:333-337 | k undos bring the k-th most recent snapshot to the front, so `len-1` undos reach the oldest one |
| `Graph.RedoAfterPushRestoresUndone` | src/graph_manager.py:349-353 | as written, after an undo and a push the next redo is admitted and brings the undone-from snapshot back to the front |
| `Graph.UndoThenRedo` | src/graph_manager.py:333-353 | an admitted undo leaves a state in which redo is admitted, and the redo restores the deque order and the counter |
| `Graph.XMidpoint` | src/graph_manager.py:372-376 | the midpoint is equidistant from the first and last grid points and lies between them |
| `Graph.CurveMidpoint` | src/graph_manager.py:200-210 | the handle sits at `xc` when `xc > 0`, otherwise at the middle of the x range |
| `Graph.BaselineHandleCentred` | src/graph_manager.py:204-210 | the baseline's sentinel `xc = -1` puts its handle at the middle of the range |
| `Graph.GraphManager.constructor` | src/graph_manager.py:80-85 | no history yet; only the differently named attribute `undo_redo_counter` is set to 0 |
| `Graph.GraphManager.UpdatePlot` | src/graph_manager.py:118-144 | the handle table lists every curve of the composite in list order, each with a distinct fresh handle; an empty composite raises IndexError |
| `Graph.GraphManager.InitHistory` | src/graph_manager.py:317-323 | exactly one snapshot, a clone of the active composite, and the live counter at 0 |
| `Graph.GraphManager.ActiveQdChanged` | src/graph_manager.py:92-105 | the table is rebuilt and the history restarts with one snapshot |
| `Graph.GraphManager.FitChanged` | src/graph_manager.py:107-114 | a clone of the active composite is always pushed and the counter is untouched, then the table is rebuilt from the list (IndexError and an empty table on an empty list); before `init_history` this raises AttributeError and leaves the table as it was |
| `Graph.GraphManager.OnKeyRelease` | src/graph_manager.py:306-312 | before `init_history` it raises TypeError; otherwise it returns normally, and a clone is pushed and the composite sorted only when its parameter vector differs from that of `history[0]`; otherwise the history and the list are unchanged |
| `Graph.GraphManager.Restore` | src/graph_manager.py:336-340 | a fresh clone of the front becomes the active composite and is sorted; the handle table holds the clone's curves in their unsorted order, since the sort reorders the list and not the plotted entries; an empty snapshot raises IndexError with an empty table |
| `Graph.GraphManager.Undo` | src/graph_manager.py:326-341 | when `counter > -len+1` the deque rotates left, the counter drops by one, the active composite is a fresh clone of the new front, sorted, and the handle table holds the clone's curves in their unsorted order (IndexError on an empty snapshot); otherwise the history, counter, composite and handle table are unchanged |
| `Graph.GraphManager.Redo` | src/graph_manager.py:344-357 | a single snapshot raises IndexError (`history[1]` is read first); when `counter < 0` the deque rotates right, the counter rises by one, the active composite is a fresh clone of the new front, sorted, and the handle table holds the clone's curves in their unsorted order (IndexError on an empty snapshot); otherwise it returns normally with the history, counter, composite and handle table unchanged |
| `ParamTable.DefaultGaussianWidth` | src/analysis_manager.py:403-407 | the default width is a twentieth of the x range, so it lies between 0 and the range when `xmin <= xmax` |
| `ParamTable.RowOf` | src/analysis_manager.py:429-430 | a row `[peak, y0, area, xc, A, w]` carries the curve's area and parameters |
| `ParamTable.ParamRows` | src/analysis_manager.py:423-432 | one row per curve with more than one parameter |
| `ParamTable.RowsNumbered` | src/analysis_manager.py:421-432 | the rows are numbered 1, 2, ... in emission order |
| `ParamTable.ShapedRows` | src/analysis_manager.py:423-432 | on a baseline-first list every peak gets one row, in list order, carrying the baseline's value as y0 |
| `ParamTable.ShapedBaseline` | src/analysis_manager.py:427-428 | on a baseline-first list the running y0 is the baseline's value |
| `ParamTable.SortedTable` | src/analysis_manager.py:411-434 | after the sort, peaks are numbered 1..k in ascending-centre order, each row with the baseline's y0 |
| `ParamTable.GetCurveParamList` | src/analysis_manager.py:411-434 | the composite is sorted in place (same objects), and the loop's rows are the table of the sorted list |
| `ParamTable.UpdateGaussTable` | src/analysis_manager.py:248-255 | refreshing the table sorts the composite |
| `Analysis.WithWidth` | src/analysis_manager.py:192-197 | every curve with more than one parameter gets the width unfolded, keeping its centre and amplitude; the baseline is unchanged |
| `Analysis.WithWidthKeepsLayout` | src/analysis_manager.py:195-197 | locking the widths keeps the kinds, the centres and the vector length; it is idempotent, and a baseline-first composite stays baseline-first |
| `Analysis.ChosenWidth` | src/analysis_manager.py:376-380 | the width is the given `w`, else the locked width, else `(x[-1]-x[0])/20`; an empty x raises IndexError |
| `Analysis.AddKeepsShape` | src/analysis_manager.py:382-384 | adding a peak and sorting keeps the baseline first |
| `Analysis.DeleteKeepsShape` | src/analysis_manager.py:396-397 | deleting a peak other than the baseline and sorting keeps the baseline first |
| `Analysis.AnalysisManager.constructor` | src/analysis_manager.py:47 | widths start unlocked |
| `Analysis.AnalysisManager.InitCompositeFit` | src/analysis_manager.py:82-90 | a composite holding only `Constant(1)` is created, and only when none exists |
| `Analysis.AnalysisManager.Update` | src/analysis_manager.py:71-78 | a missing composite is created; the composite is sorted, replotted, and the history restarts |
| `Analysis.AnalysisManager.ResetFit` | src/analysis_manager.py:94-103 | the fit becomes a fresh `Constant(1)` composite and the history holds only that |
| `Analysis.AnalysisManager.HandleMoved` | src/analysis_manager.py:120-124 | a plain drag sets `xc = abs(x)` and `A = abs(y)` on a Gaussian, leaving `w`; on the baseline it sets only `y` |
| `Analysis.AnalysisManager.ShiftDragged` | src/analysis_manager.py:146-156 | a shift-drag sets `A = abs(y)` and `w = abs(dx)` on a Gaussian and `y` on the baseline |
| `Analysis.AnalysisManager.HandleMovedShift` | src/analysis_manager.py:131-159 | with widths locked, the signed `dx` becomes `gauss_width` and every Gaussian's width, unfolded, with the baseline untouched; with at most one member the dragged curve alone takes the new amplitude and width; unlocked, only the dragged curve changes and every other member keeps its state; a missing click point raises TypeError and changes nothing |
| `Analysis.AnalysisManager.FixGaussWidths` | src/analysis_manager.py:163-182 | with only the baseline present nothing happens; locked, it unlocks without touching any width; otherwise it locks to `curve_list[1].w` and sets every Gaussian to it |
| `Analysis.AnalysisManager.UpdateAllWidths` | src/analysis_manager.py:186-200 | with more than the baseline present, the loop assigns the locked width to every Gaussian and the table refresh sorts; otherwise nothing changes |
| `Analysis.AnalysisManager.OptimizeFit` | src/analysis_manager.py:204-221 | on a RuntimeError nothing changes and nothing is pushed; other errors propagate, also changing nothing; on success the fitted clone becomes active, is pushed and sorted, and the counter is untouched; the table then holds the fitted curves in their unsorted order (the same objects as the sorted list), is left as it was when there is no history yet, and is empty on IndexError |
| `Analysis.AnalysisManager.EstimateFit` | src/analysis_manager.py:225-238 | a failed estimate changes nothing and no fit is attempted; otherwise the estimate becomes active and is fitted: a solver error keeps the previous table and history, and a success pushes the fitted clone and plots it as `OptimizeFit` states |
| `Analysis.AnalysisManager.RefreshTableAndPlot` | src/analysis_manager.py:384-385 | the table refresh keeps the same curve objects and sorts their values by centre; the plot then shows exactly the sorted list, or raises IndexError when it is empty |
| `Analysis.AnalysisManager.AddGaussian` | src/analysis_manager.py:366-386 | exactly one Gaussian with the chosen width is added, the old members are kept, the composite is sorted and the plot shows the sorted list; an empty x raises IndexError and a missing centre or amplitude raises TypeError, both leaving the list and the handle table unchanged |
| `Analysis.AnalysisManager.DeleteGaussian` | src/analysis_manager.py:390-399 | that curve object is removed and the others are kept, then sorted, and the plot shows the sorted list (IndexError and an empty table once the list is empty); removing an absent curve raises ValueError and leaves the list and the handle table unchanged |
| `Handles.FirstArgMin` | src/handle_manager.py:194 | `np.argmin` returns the first index of the minimum |
| `Handles.CurveOfHandle` | src/handle_manager.py:166-169 | the curve paired with the handle, or None exactly when no entry has it |
| `Handles.Handles` | src/handle_manager.py:155-160 | the handles of the table, in order |
| `Handles.HandleManager.constructor` | src/handle_manager.py:17-35 | the tolerance is 7 pixels and there is no selection and no click point |
| `Handles.HandleManager.FindClosestHandle` | src/handle_manager.py:186-199 | the handle at the first minimum distance when that distance is at most 7, else None; no distances raise ValueError |
| `Handles.HandleManager.HitTestHandles` | src/handle_manager.py:138-153 | None when there are no handles; otherwise the handle closest to the click, if it is within the tolerance |
| `Handles.HandleManager.FindCurveByHandle` | src/handle_manager.py:162-169 | the loop returns the first curve paired with the handle, or None |
| `Handles.HandleManager.SetSelectedHandle` | src/handle_manager.py:101-135 | the selection becomes the given handle, or None |
| `Handles.HandleManager.DeleteGaussian` | src/handle_manager.py:37-42 | only a selected curve whose arity is not 1 is deleted, so the baseline is never removed; after a deletion the plot shows the sorted list and the undo history restarts at one snapshot with the counter at 0; with nothing deleted the graph's table, history and counter are unchanged |
| `Handles.HandleManager.DeleteAndUpdate` | src/handle_manager.py:41-42 | the deletion is followed by `update()`, which leaves the already sorted composite as it is, replots it and restarts the history at one clone snapshot with the counter at 0; a ValueError leaves the table, history and counter unchanged |
| `Handles.HandleManager.OnMotion` | src/handle_manager.py:45-66 | nothing happens unless a handle is selected, the pointer is in the axes and button 1 is held; a handle no curve has raises AttributeError (the graph manager has no `set_message`); shift routes to the shift reducer, otherwise to the plain reducer, and an unlocked drag leaves the list and every other member as they were; a shift-drag with no stored click point raises TypeError and changes nothing; a locked shift-drag sets the locked width to the signed `dx` and keeps the same members |
| `Handles.HandleManager.OnButtonPress` | src/handle_manager.py:69-92 | a right click adds a Gaussian at the click, or raises TypeError outside the axes, and returns before the click point or the selection change; any other click stores the click point (None outside the axes) and selects the hit handle and its curve, raising AttributeError when no curve has it; the table is rebuilt only by a right click that adds a peak, and left as it was on every other path |
| `Handles.HandleManager.OnButtonRelease` | src/handle_manager.py:95-97 | a release pushes the fit and sorts the composite only when it changed; otherwise the history and the list are unchanged |
| `Files.Prev` | src/file_manager.py:63-65 | the index goes down only when it is above 0; None raises TypeError |
| `Files.Next` | src/file_manager.py:69-72 | the index goes up only when it is below `len-1`; None raises TypeError |
| `Files.MovesStayInBounds` | src/file_manager.py:63-72 | an in-bounds index stays in bounds under both moves, and each move changes it by at most 1 |
| `Files.NextThenPrev` | src/file_manager.py:63-72 | from an index below the last, next then prev returns to it |
| `Files.ActiveOf` | src/file_manager.py:35-40 | None without an index; otherwise `qd_list[index]` with Python's negative indexing, and IndexError outside `[-len, len)` |
| `Files.FileManager.constructor` | src/file_manager.py:22-25 | no files and no active index |
| `Files.FileManager.SetActiveIndex` | src/file_manager.py:29-31 | the argument is stored verbatim, with no bounds check, then the analysis update runs on the selected file (`App.update_analysis_manager`, EasyQuant.py:69-72): no index raises AttributeError and an index outside the list IndexError, changing no fit and no table; otherwise the file's fit is created or sorted, replotted and given a fresh one-snapshot history, and no other file's fit changes |
| `Files.FileManager.GetActiveQd` | src/file_manager.py:35-40 | returns the entry `ActiveOf` describes |
| `Files.FileManager.RegisterFile` | src/file_manager.py:54-59 | exactly one entry is appended and earlier entries are unchanged |
| `Files.FileManager.PrevFile` | src/file_manager.py:63-65 | the new index is `Prev` of the old one |
| `Files.FileManager.NextFile` | src/file_manager.py:69-72 | the new index is `Next` of the old one |
| `Data.QuantData.constructor` | src/quant_data.py:29-36 | a loaded file holds its two columns and no fit yet |

## Left out

- Savitzky-Golay smoothing (`signal.savgol_filter`) and least-squares fitting (`optimize.curve_fit`) are foreign numerics. The smoothed series and the solver's vector (or its exception) are inputs.
- Floating point: `exp` and `sqrt` are unconstrained parameters and `sqrt(pi/2)` is a literal. Only two IEEE effects are modelled: the zero-width Gaussian (NaN at its centre, 0 elsewhere) and the NaN of `np.sqrt` of a negative number in the width test. Overflow, rounding and NaN propagation through comparisons are not modelled. Nothing here claims that a fit recovers the true parameters.
- Evaluation is modelled at one point `x`. numpy applies the same expression to each element of an array, and the `x is None` early return is not modelled.
- Drawing: the matplotlib lines, `plot_*`, `update_line`, `update_handle`, `update_composite_curve_line`, handle colouring, canvas redraws and `set_x_from_qd` are not modelled. The handle table keeps only the (curve, handle) pairs. The `KeyError` that `update_handle` and `update_line` raise on an unplotted curve is therefore not modelled.
- Pixel distances (`get_display_coordinates`, `calculate_distances_to_handles` with `np.hypot`) are inputs to `HitTestHandles` and `OnButtonPress`.
- Tk windows, toolbars, tooltips, the message bar and message texts, and the key-binding dispatch `on_key_press` are not modelled. Tk swallows exceptions raised inside callbacks; here those exceptions are returned as `Outcome.Raised`.
- File I/O: `read_csv`, `import_files`, the export writers, the PNG export and the text rendering of `get_gauss_table` are not modelled. `register_file` receives the already loaded `QuantData`.
- CurveModel.SetParams: requires at most as many arguments as the curve has parameters. Python raises TypeError on more; no caller in the core passes more.
- Fitting.ComputeNumericalDerivative: requires a nonzero step. numpy divides by zero to inf or NaN with a warning, and floats are not modelled.
- Fitting.EstimateFit: requires `x[1] != x[0]` once there are 21 samples, for the same reason. It also requires the smoothed series to be as long as the data, as `savgol_filter` returns.
- Analysis.AnalysisManager.EstimateFit: carries the same two requirements.
- Files.FileManager.SetActiveIndex: the app creates the analysis manager on first use (`init_analysis_manager` in EasyQuant.py, which builds the Tk window). Here the caller passes an existing `Analysis.AnalysisManager`.
- Handles.HandleManager.OnMotion: with shift held and widths locked, states the outcome, the new locked width and that the members are the same, but not their new states or order. `Analysis.AnalysisManager.HandleMovedShift` states that composite.

## Behaviour of the source worth knowing

- History pushes (`fit_changed`, `on_key_release`) neither reset the counter nor discard the entries ahead of the head. After an undo, a push leaves the undone-from snapshot at the tail, and the next redo brings it back to the front (`Graph.RedoAfterPushRestoresUndone`). The deque drops it only when it is full.
- Undo and redo are not always no-ops at a boundary. `redo` reads `history[1]` before its counter test, so with a single snapshot it raises IndexError.
- `GraphManager.__init__` sets `undo_redo_counter`. Navigation reads `redo_undo_counter`, which exists only after `init_history`. Before that, `undo` or `redo` fails on the `None` history.
- Gaussian widths are not always nonnegative. With widths locked, a shift-drag stores the signed `dx` and assigns it unfolded to every Gaussian, so a width and an area can be negative. `clone` folds them again, because it runs the constructor.
- `estimate_fit` has no precondition check of its own. `savgol_filter` raises ValueError on fewer than 21 samples, and the caller's bare `except` turns that into a message with nothing changed.
- Every table refresh (`update_gauss_table`) sorts the active composite in place. So do add, delete, undo, redo, a changed key release, locking the widths and a successful fit.
- `HandleManager` sends its "no curve associated with the selected handle" message to the graph manager, which has no `set_message`. That case raises AttributeError (`on_motion` after the table was rebuilt mid-drag, or `on_button_press` on a handle no curve has).
- matplotlib leaves `xdata` and `ydata` None outside the axes. A right click there passes None to `add_gaussian`, whose constructor raises TypeError at `abs(None)` before the append. A left click there stores `[None, None]`, and a later shift-drag raises TypeError at the subtraction.
- After undo, redo or a successful fit, `update_plot` enters the new composite's curves before `update_gauss_table` sorts the list, so the handle table keeps the unsorted order while the list is sorted.
- When `estimate_fit` succeeds but the solver then fails, the estimate stays active while the plot still shows the previous composite's curves. A drag afterwards edits curves that are no longer in the fit.
