/**
 * The value model of curves.py: the two curve kinds, their parameter tuples, set_params with its
 * sign folding, evaluation with and without an override vector, area, and the flat parameter
 * vector of a composite curve, whose member boundaries are found only by replaying each
 * member's arity in list order.
 */
module CurveModel {
  import opened Outcomes

  /** np.sqrt(np.pi / 2), as the double that numpy computes. */
  const SqrtHalfPi: real := 1.2533141373155001

  function Abs(v: real): (r: real)
    ensures r >= 0.0 && (r == v || r == -v)
  {
    if v < 0.0 then -v else v
  }

  /** The value of a float expression: a real number or NaN. */
  datatype Sample = Finite(v: real) | NaN

  /** Float addition: NaN is absorbing. */
  function Add(a: Sample, b: Sample): (r: Sample)
    ensures r.NaN? <==> a.NaN? || b.NaN?
  {
    if a.Finite? && b.Finite? then Finite(a.v + b.v) else NaN
  }

  /** Constant(y) is the baseline; Gaussian(xc, a, w) is an amplitude-form peak. */
  datatype CurveState = Constant(y: real) | Gaussian(xc: real, a: real, w: real)

  /** len(curve.get_params()) */
  function Arity(c: CurveState): nat
  {
    if c.Constant? then 1 else 3
  }

  /** curve.get_params(): (y,) for the baseline, (xc, A, w) for a Gaussian. */
  function Params(c: CurveState): (p: seq<real>)
    ensures |p| == Arity(c)
  {
    match c
    case Constant(y) => [y]
    case Gaussian(xc, a, w) => [xc, a, w]
  }

  /** The sort key curve.xc; the baseline's attribute is the sentinel -1. */
  function XcKey(c: CurveState): real
  {
    match c
    case Constant(_) => -1.0
    case Gaussian(xc, _, _) => xc
  }

  /** Gaussian(xc, A, w): the constructor stores the absolute value of each argument. */
  function NewGaussian(xc: real, a: real, w: real): (g: CurveState)
    ensures g.Gaussian? && g.xc == Abs(xc) && g.a == Abs(a) && g.w == Abs(w)
  {
    Gaussian(Abs(xc), Abs(a), Abs(w))
  }

  /** Every Gaussian field is nonnegative, as the constructor and a full set_params leave them. */
  predicate Folded(c: CurveState)
  {
    c.Gaussian? ==> c.xc >= 0.0 && c.a >= 0.0 && c.w >= 0.0
  }

  /** The j-th argument bound by a set_params call; None when it was omitted. */
  function Arg(args: seq<Option<real>>, j: nat): Option<real>
  {
    if j < |args| then args[j] else None
  }

  function FoldOr(v: Option<real>, keep: real): real
  {
    match v
    case None => keep
    case Some(u) => Abs(u)
  }

  /**
   * curve.set_params(...): positional and keyword arguments both bind by position
   * (Constant: y; Gaussian: xc, A, w). An omitted or None argument keeps the field; a Gaussian
   * stores the absolute value of every argument it is given, the baseline stores y as given.
   */
  function SetParams(c: CurveState, args: seq<Option<real>>): (r: CurveState)
    requires |args| <= Arity(c)
    ensures r.Constant? == c.Constant?
    ensures forall j :: 0 <= j < Arity(c) ==>
      Params(r)[j] == (match Arg(args, j)
                       case None => Params(c)[j]
                       case Some(v) => if c.Gaussian? then Abs(v) else v)
  {
    match c
    case Constant(y) => Constant(Arg(args, 0).GetOr(y))
    case Gaussian(xc, a, w) =>
      Gaussian(FoldOr(Arg(args, 0), xc), FoldOr(Arg(args, 1), a), FoldOr(Arg(args, 2), w))
  }

  /** The arguments of f(*p): every element given. */
  function Somes(p: seq<real>): (args: seq<Option<real>>)
    ensures |args| == |p| && forall j :: 0 <= j < |p| ==> args[j] == Some(p[j])
  {
    seq(|p|, j requires 0 <= j < |p| => Some(p[j]))
  }

  /** curve.clone(): Constant(self.y), or Gaussian(self.xc, self.A, self.w), which folds again. */
  function CloneState(c: CurveState): (r: CurveState)
    ensures r.Constant? == c.Constant? && Folded(r)
    ensures Folded(c) ==> r == c
  {
    match c
    case Constant(y) => Constant(y)
    case Gaussian(xc, a, w) => NewGaussian(xc, a, w)
  }

  /** Giving a folded curve its own tuple changes nothing. */
  lemma SetOwnParams(c: CurveState)
    requires Folded(c)
    ensures SetParams(c, Somes(Params(c))) == c
  {
  }

  /** Setting the same arguments twice is the same as setting them once. */
  lemma SetParamsIdempotent(c: CurveState, args: seq<Option<real>>)
    requires |args| <= Arity(c)
    ensures SetParams(SetParams(c, args), args) == SetParams(c, args)
  {
  }

  // ---------------------------------------------------------------------------------------------
  // Evaluation of one curve

  /** exp(-0.5 * z**2), with exp supplied by the caller. */
  function Bell(exp: real -> real, z: real): real
  {
    exp(-0.5 * (z * z))
  }

  lemma BellEven(exp: real -> real, z: real)
    ensures Bell(exp, -z) == Bell(exp, z)
  {
    assert (-z) * (-z) == z * z;
  }

  /**
   * A * exp(-0.5 * ((x - xc) / w)**2) in IEEE terms: a zero width gives 0 away from the centre
   * (exp(-inf) == 0) and NaN at the centre (0 / 0).
   */
  function GaussianAt(exp: real -> real, x: real, xc: real, a: real, w: real): Sample
  {
    if w != 0.0 then Finite(a * Bell(exp, (x - xc) / w))
    else if x == xc then NaN
    else Finite(0.0)
  }

  /** The peak shape depends on the width only through its square. */
  lemma GaussianAtWidthSign(exp: real -> real, x: real, xc: real, a: real, w: real)
    ensures GaussianAt(exp, x, xc, a, -w) == GaussianAt(exp, x, xc, a, w)
  {
    if w != 0.0 {
      var u := (x - xc) / w;
      assert (x - xc) / -w == -u;
      BellEven(exp, u);
    }
  }

  /** curve.evaluate(x) with the curve's own fields. */
  function EvalStoredMember(c: CurveState, x: real, exp: real -> real): Sample
  {
    match c
    case Constant(y) => Finite(y)
    case Gaussian(xc, a, w) => GaussianAt(exp, x, xc, a, w)
  }

  /**
   * curve.evaluate(x, *p): with p empty the fields are used; otherwise the baseline reads p[0] and a
   * Gaussian reads p[0], p[1], p[2] (IndexError when p is shorter), as given, without folding.
   */
  function EvalMember(c: CurveState, x: real, p: seq<real>, exp: real -> real): (r: Result<Sample>)
    ensures |p| == 0 ==> r == Ok(EvalStoredMember(c, x, exp))
    ensures r.Err? <==> c.Gaussian? && 0 < |p| < 3
    ensures r.Err? ==> r.error == IndexError
  {
    if |p| == 0 then Ok(EvalStoredMember(c, x, exp))
    else
      match c
      case Constant(_) => Ok(Finite(p[0]))
      case Gaussian(_, _, _) =>
        if |p| < 3 then Err(IndexError) else Ok(GaussianAt(exp, x, p[0], p[1], p[2]))
  }

  /** curve.area(): 0 for the baseline, 2 * A * w * sqrt(pi/2) for a Gaussian. */
  function Area(c: CurveState): (r: real)
    ensures c.Constant? ==> r == 0.0
    ensures c.Gaussian? ==> (r > 0.0 <==> c.a * c.w > 0.0) && (r == 0.0 <==> c.a * c.w == 0.0)
    ensures Folded(c) ==> r >= 0.0
  {
    match c
    case Constant(_) => 0.0
    case Gaussian(_, a, w) => 2.0 * a * w * SqrtHalfPi
  }

  /** The area grows with the amplitude and with the width of a peak. */
  lemma AreaMonotone(xc: real, a1: real, a2: real, w1: real, w2: real)
    requires 0.0 <= a1 <= a2 && 0.0 <= w1 <= w2
    ensures Area(Gaussian(xc, a1, w1)) <= Area(Gaussian(xc, a2, w2))
  {
    ProductMonotone(2.0 * a1, 2.0 * a2, w1, w2);
    ProductMonotone(2.0 * a1 * w1, 2.0 * a2 * w2, SqrtHalfPi, SqrtHalfPi);
  }

  lemma ProductMonotone(x1: real, x2: real, y1: real, y2: real)
    requires 0.0 <= x1 <= x2 && 0.0 <= y1 <= y2
    ensures x1 * y1 <= x2 * y2
  {
    assert x1 * y1 <= x2 * y1 by {
      assert (x2 - x1) * y1 >= 0.0;
    }
    assert x2 * y1 <= x2 * y2 by {
      assert x2 * (y2 - y1) >= 0.0;
    }
  }

  // ---------------------------------------------------------------------------------------------
  // The flat parameter vector of a composite curve

  /** len(composite.get_params()): the sum of the member arities. */
  function TotalArity(cs: seq<CurveState>): nat
  {
    if |cs| == 0 then 0 else TotalArity(cs[..|cs| - 1]) + Arity(cs[|cs| - 1])
  }

  /** composite.get_params(): the members' tuples concatenated in list order. */
  function FlatParams(cs: seq<CurveState>): (p: seq<real>)
    ensures |p| == TotalArity(cs)
  {
    if |cs| == 0 then [] else FlatParams(cs[..|cs| - 1]) + Params(cs[|cs| - 1])
  }

  /** Where member k's parameters start in the flat vector: the sum of the arities before it. */
  function Offset(cs: seq<CurveState>, k: nat): nat
    requires k <= |cs|
  {
    TotalArity(cs[..k])
  }

  /** p[lo:lo+n], clamped at the end of p as Python slicing is. */
  function Slice(p: seq<real>, lo: nat, n: nat): (s: seq<real>)
    ensures |s| <= n
    ensures lo + n <= |p| ==> s == p[lo..lo + n]
  {
    var a := if lo < |p| then lo else |p|;
    var b := if lo + n < |p| then lo + n else |p|;
    p[a..b]
  }

  /** The slice of p that member k receives from set_params and evaluate. */
  function MemberSlice(cs: seq<CurveState>, p: seq<real>, k: nat): seq<real>
    requires k < |cs|
  {
    Slice(p, Offset(cs, k), Arity(cs[k]))
  }

  /** composite.set_params(*p): each member is given its own slice of p. */
  function ApplyParams(cs: seq<CurveState>, p: seq<real>): (r: seq<CurveState>)
    ensures |r| == |cs|
  {
    seq(|cs|, k requires 0 <= k < |cs| => SetParams(cs[k], Somes(MemberSlice(cs, p, k))))
  }

  /** composite.evaluate(x): the sum, from 0, of the members evaluated with their own fields. */
  function EvalStored(cs: seq<CurveState>, x: real, exp: real -> real): Sample
  {
    if |cs| == 0 then Finite(0.0)
    else Add(EvalStored(cs[..|cs| - 1], x, exp), EvalStoredMember(cs[|cs| - 1], x, exp))
  }

  /** The override loop of composite.evaluate(x, *p): member by member, each on its slice of p. */
  function EvalWith(cs: seq<CurveState>, x: real, p: seq<real>, exp: real -> real): Result<Sample>
  {
    if |cs| == 0 then Ok(Finite(0.0))
    else
      var pre := cs[..|cs| - 1];
      var c := cs[|cs| - 1];
      match EvalWith(pre, x, p, exp)
      case Err(e) => Err(e)
      case Ok(acc) =>
        match EvalMember(c, x, Slice(p, TotalArity(pre), Arity(c)), exp)
        case Err(e) => Err(e)
        case Ok(v) => Ok(Add(acc, v))
  }

  /** composite.evaluate(x, *p): an empty p means the stored fields. */
  function Evaluate(cs: seq<CurveState>, x: real, p: seq<real>, exp: real -> real): Result<Sample>
  {
    if |p| == 0 then Ok(EvalStored(cs, x, exp)) else EvalWith(cs, x, p, exp)
  }

  // ---------------------------------------------------------------------------------------------
  // Lemmas about the packing

  lemma OffsetStep(cs: seq<CurveState>, k: nat)
    requires k < |cs|
    ensures Offset(cs, k + 1) == Offset(cs, k) + Arity(cs[k])
  {
    assert cs[..k + 1][..k] == cs[..k];
  }

  lemma {:induction false} OffsetBound(cs: seq<CurveState>, k: nat)
    requires k <= |cs|
    ensures Offset(cs, k) <= TotalArity(cs)
    decreases |cs| - k
  {
    if k < |cs| {
      OffsetStep(cs, k);
      OffsetBound(cs, k + 1);
    } else {
      assert cs[..k] == cs;
    }
  }

  /** The offset of member k depends only on the members before it. */
  lemma OffsetOfPrefix(cs: seq<CurveState>, n: nat, k: nat)
    requires k <= n <= |cs|
    ensures Offset(cs[..n], k) == Offset(cs, k)
  {
    assert cs[..n][..k] == cs[..k];
  }

  /**
   * The packing invariant: member k's tuple sits in get_params() at the sum of the arities
   * before it, which is exactly where set_params and evaluate slice for it.
   */
  lemma {:induction false} FlatParamsSlice(cs: seq<CurveState>, k: nat)
    requires k < |cs|
    ensures Offset(cs, k) + Arity(cs[k]) <= |FlatParams(cs)|
    ensures MemberSlice(cs, FlatParams(cs), k) == Params(cs[k])
    decreases |cs|
  {
    var n := |cs| - 1;
    var pre := cs[..n];
    OffsetStep(cs, k);
    OffsetBound(cs, k + 1);
    if k == n {
      assert pre == cs[..k];
      assert FlatParams(cs) == FlatParams(pre) + Params(cs[k]);
    } else {
      var lo, m := Offset(cs, k), Arity(cs[k]);
      assert lo + m <= |FlatParams(pre)| && FlatParams(pre)[lo..lo + m] == Params(cs[k]) by {
        OffsetOfPrefix(cs, n, k);
        FlatParamsSlice(pre, k);
        assert pre[k] == cs[k];
      }
      assert FlatParams(cs) == FlatParams(pre) + Params(cs[n]);
      assert FlatParams(cs)[lo..lo + m] == FlatParams(pre)[lo..lo + m];
    }
  }

  /** set_params(*get_params()) leaves every member as it was when every Gaussian is folded. */
  lemma SetGetRoundTrip(cs: seq<CurveState>)
    requires forall k :: 0 <= k < |cs| ==> Folded(cs[k])
    ensures ApplyParams(cs, FlatParams(cs)) == cs
  {
    forall k | 0 <= k < |cs|
      ensures ApplyParams(cs, FlatParams(cs))[k] == cs[k]
    {
      FlatParamsSlice(cs, k);
      SetOwnParams(cs[k]);
    }
  }

  /** set_params keeps the number, order and kinds of the members, hence the vector layout. */
  lemma {:induction false} ApplyParamsKeepsLayout(cs: seq<CurveState>, p: seq<real>)
    ensures forall k :: 0 <= k < |cs| ==> ApplyParams(cs, p)[k].Constant? == cs[k].Constant?
    ensures TotalArity(ApplyParams(cs, p)) == TotalArity(cs)
    ensures forall k :: 0 <= k <= |cs| ==> Offset(ApplyParams(cs, p), k) == Offset(cs, k)
  {
    var r := ApplyParams(cs, p);
    forall k | 0 <= k <= |cs|
      ensures TotalArity(r[..k]) == TotalArity(cs[..k])
    {
      SameArities(r[..k], cs[..k]);
    }
    assert r[..|cs|] == r && cs[..|cs|] == cs;
  }

  lemma {:induction false} SameArities(r: seq<CurveState>, cs: seq<CurveState>)
    requires |r| == |cs|
    requires forall k :: 0 <= k < |cs| ==> r[k].Constant? == cs[k].Constant?
    ensures TotalArity(r) == TotalArity(cs)
  {
    if |cs| > 0 {
      SameArities(r[..|r| - 1], cs[..|cs| - 1]);
    }
  }

  /** Applying the same vector twice is the same as applying it once. */
  lemma ApplyParamsIdempotent(cs: seq<CurveState>, p: seq<real>)
    ensures ApplyParams(ApplyParams(cs, p), p) == ApplyParams(cs, p)
  {
    var r := ApplyParams(cs, p);
    ApplyParamsKeepsLayout(cs, p);
    forall k | 0 <= k < |cs|
      ensures ApplyParams(r, p)[k] == r[k]
    {
      SetParamsIdempotent(cs[k], Somes(MemberSlice(cs, p, k)));
    }
  }

  /** A vector of full length sets every field, so every Gaussian comes out folded. */
  lemma FullVectorFolds(cs: seq<CurveState>, p: seq<real>)
    requires |p| == TotalArity(cs)
    ensures forall k :: 0 <= k < |cs| ==> Folded(ApplyParams(cs, p)[k])
  {
    forall k | 0 <= k < |cs|
      ensures Folded(ApplyParams(cs, p)[k])
    {
      OffsetStep(cs, k);
      OffsetBound(cs, k + 1);
      assert |MemberSlice(cs, p, k)| == Arity(cs[k]);
    }
  }

  /** Only the first TotalArity(cs) entries of the override vector are read. */
  lemma {:induction false} EvalWithReadsPrefix(cs: seq<CurveState>, x: real, p: seq<real>, q: seq<real>, exp: real -> real)
    requires TotalArity(cs) <= |p|
    ensures EvalWith(cs, x, p + q, exp) == EvalWith(cs, x, p, exp)
  {
    if |cs| > 0 {
      var pre := cs[..|cs| - 1];
      var c := cs[|cs| - 1];
      EvalWithReadsPrefix(pre, x, p, q, exp);
      var lo := TotalArity(pre);
      var n := Arity(c);
      assert lo + n <= |p|;
      assert (p + q)[lo..lo + n] == p[lo..lo + n];
    }
  }

  /** evaluate(x, *get_params()) == evaluate(x): the override path slices exactly as get_params packs. */
  lemma {:induction false} EvaluateWithOwnParams(cs: seq<CurveState>, x: real, exp: real -> real)
    ensures Evaluate(cs, x, FlatParams(cs), exp) == Ok(EvalStored(cs, x, exp))
  {
    OwnParamsLoop(cs, x, exp);
  }

  lemma {:induction false} OwnParamsLoop(cs: seq<CurveState>, x: real, exp: real -> real)
    ensures EvalWith(cs, x, FlatParams(cs), exp) == Ok(EvalStored(cs, x, exp))
  {
    if |cs| > 0 {
      var pre := cs[..|cs| - 1];
      var c := cs[|cs| - 1];
      OwnParamsLoop(pre, x, exp);
      EvalWithReadsPrefix(pre, x, FlatParams(pre), Params(c), exp);
      assert Slice(FlatParams(cs), TotalArity(pre), Arity(c)) == Params(c);
    }
  }

  /** The override path and set_params agree member by member on a vector whose Gaussian
      centres and amplitudes are nonnegative (the width's sign never matters). */
  predicate PeakSliceNonnegative(c: CurveState, s: seq<real>)
  {
    c.Gaussian? && |s| >= 2 ==> s[0] >= 0.0 && s[1] >= 0.0
  }

  lemma ApplyParamsOfPrefix(cs: seq<CurveState>, p: seq<real>, n: nat)
    requires n <= |cs|
    ensures ApplyParams(cs, p)[..n] == ApplyParams(cs[..n], p)
  {
    forall k | 0 <= k < n
      ensures ApplyParams(cs, p)[k] == ApplyParams(cs[..n], p)[k]
    {
      OffsetOfPrefix(cs, n, k);
    }
  }

  /** One member: the override path on slice s agrees with set_params(*s) then evaluate. */
  lemma EvalMemberAgreesWithSet(c: CurveState, x: real, s: seq<real>, exp: real -> real)
    requires |s| == Arity(c)
    requires PeakSliceNonnegative(c, s)
    ensures EvalMember(c, x, s, exp) == Ok(EvalStoredMember(SetParams(c, Somes(s)), x, exp))
  {
    if c.Gaussian? {
      GaussianAtWidthSign(exp, x, s[0], s[1], s[2]);
    }
  }

  /**
   * Evaluating with an override vector gives what set_params followed by a plain evaluate gives,
   * provided the vector covers every member and its Gaussian centres and amplitudes are nonnegative.
   */
  lemma {:induction false} OverrideAgreesWithSet(cs: seq<CurveState>, x: real, p: seq<real>, exp: real -> real)
    requires TotalArity(cs) <= |p|
    requires forall k :: 0 <= k < |cs| ==> PeakSliceNonnegative(cs[k], MemberSlice(cs, p, k))
    ensures EvalWith(cs, x, p, exp) == Ok(EvalStored(ApplyParams(cs, p), x, exp))
  {
    if |cs| > 0 {
      var n := |cs| - 1;
      var pre := cs[..n];
      var c := cs[n];
      var r := ApplyParams(cs, p);
      forall k | 0 <= k < |pre|
        ensures PeakSliceNonnegative(pre[k], MemberSlice(pre, p, k))
      {
        OffsetOfPrefix(cs, n, k);
      }
      OverrideAgreesWithSet(pre, x, p, exp);
      ApplyParamsOfPrefix(cs, p, n);
      assert r[..n] == ApplyParams(pre, p);
      var s := Slice(p, TotalArity(pre), Arity(c));
      assert s == MemberSlice(cs, p, n);
      assert |s| == Arity(c);
      EvalMemberAgreesWithSet(c, x, s, exp);
    }
  }

  /** Without the sign condition the two disagree: a negative amplitude in the solver's vector
      evaluates as a dip but is stored by set_params as a peak. */
  lemma NegativeAmplitudeIsFlipped(exp: real -> real)
    requires exp(0.0) > 0.0
    ensures Evaluate([Gaussian(0.0, 1.0, 1.0)], 0.0, [0.0, -1.0, 1.0], exp)
         != Ok(EvalStored(ApplyParams([Gaussian(0.0, 1.0, 1.0)], [0.0, -1.0, 1.0]), 0.0, exp))
  {
    var cs := [Gaussian(0.0, 1.0, 1.0)];
    var p := [0.0, -1.0, 1.0];
    assert cs[..0] == [];
    assert MemberSlice(cs, p, 0) == p;
    assert ApplyParams(cs, p) == [Gaussian(0.0, 1.0, 1.0)];
    assert ApplyParams(cs, p)[..0] == [];
    assert Bell(exp, 0.0) == exp(0.0);
    assert EvalWith(cs, 0.0, p, exp) == Ok(Add(Finite(0.0), Finite(-1.0 * Bell(exp, 0.0))));
  }

  // ---------------------------------------------------------------------------------------------
  // Copies and error propagation

  /** composite.clone(): each member cloned through its constructor, in list order. */
  function CloneStates(cs: seq<CurveState>): (r: seq<CurveState>)
    ensures |r| == |cs| && forall k :: 0 <= k < |cs| ==> r[k] == CloneState(cs[k])
  {
    seq(|cs|, k requires 0 <= k < |cs| => CloneState(cs[k]))
  }

  /** A clone has the same number of members, of the same kinds, in the same order, and equals
      the original wherever the original is folded (in particular its parameters are equal). */
  lemma CloneStatesKeepsLayout(cs: seq<CurveState>)
    ensures forall k :: 0 <= k < |cs| ==> CloneStates(cs)[k].Constant? == cs[k].Constant?
    ensures forall k :: 0 <= k < |cs| ==> Folded(CloneStates(cs)[k])
    ensures TotalArity(CloneStates(cs)) == TotalArity(cs)
    ensures (forall k :: 0 <= k < |cs| ==> Folded(cs[k])) ==> CloneStates(cs) == cs
  {
    SameArities(CloneStates(cs), cs);
  }

  /** Cloning a clone changes nothing. */
  lemma CloneStatesIdempotent(cs: seq<CurveState>)
    ensures CloneStates(CloneStates(cs)) == CloneStates(cs)
  {
    CloneStatesKeepsLayout(cs);
    CloneStatesKeepsLayout(CloneStates(cs));
  }

  /** Once a member raises, the override loop raises the same error whatever follows. */
  lemma {:induction false} EvalWithErrorPropagates(cs: seq<CurveState>, k: nat, x: real, p: seq<real>, exp: real -> real)
    requires k <= |cs| && EvalWith(cs[..k], x, p, exp).Err?
    ensures EvalWith(cs, x, p, exp) == EvalWith(cs[..k], x, p, exp)
    decreases |cs| - k
  {
    if k < |cs| {
      assert cs[..k + 1][..k] == cs[..k];
      EvalWithErrorPropagates(cs, k + 1, x, p, exp);
    } else {
      assert cs[..k] == cs;
    }
  }
}
