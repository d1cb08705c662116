/**
 * The curve objects of curves.py: a curve whose fields are updated in place, and the composite
 * curve, an ordered list of curve objects whose loops pack, unpack and evaluate the flat
 * parameter vector with a running offset.
 */
module Curves {
  import opened Outcomes
  import opened CurveModel
  import opened CurveOrder

  /** list.index(x): the first position holding x. */
  function IndexOf(s: seq<Curve>, x: Curve): (i: nat)
    requires x in s
    ensures i < |s| && s[i] == x && x !in s[..i]
  {
    if s[0] == x then 0
    else
      assert x in s[1..];
      var j := IndexOf(s[1..], x);
      assert s[..j + 1] == [s[0]] + s[1..][..j];
      j + 1
  }

  /** list.remove on a list without repeats: the entry is gone and the rest is kept. */
  lemma RemoveAt(s: seq<Curve>, i: nat)
    requires Distinct(s) && i < |s|
    ensures Distinct(s[..i] + s[i + 1..])
    ensures s[i] !in s[..i] + s[i + 1..]
    ensures multiset(s[..i] + s[i + 1..]) == multiset(s) - multiset{s[i]}
  {
    var r := s[..i] + s[i + 1..];
    assert s == s[..i] + [s[i]] + s[i + 1..];
    assert multiset(s) == multiset(s[..i]) + multiset{s[i]} + multiset(s[i + 1..]);
    forall j | 0 <= j < |r|
      ensures r[j] != s[i]
    {
      if j >= i {
        assert r[j] == s[j + 1];
      }
    }
    forall j, l | 0 <= j < l < |r|
      ensures r[j] != r[l]
    {
      var sj := if j < i then j else j + 1;
      var sl := if l < i then l else l + 1;
      assert r[j] == s[sj] && r[l] == s[sl];
    }
  }

  /** A Constant or Gaussian curve object; its fields are the state. */
  class Curve {
    var state: CurveState

    /** Constant(constant): y is stored as given (xc is the sentinel -1). */
    constructor ConstantCurve(constant: real)
      ensures state == Constant(constant)
    {
      state := Constant(constant);
    }

    /** Gaussian(xc, A, w): the absolute value of each argument is stored. */
    constructor GaussianCurve(xc: real, a: real, w: real)
      ensures state == NewGaussian(xc, a, w)
    {
      state := Gaussian(Abs(xc), Abs(a), Abs(w));
    }

    /** The clone step, which depends only on the field values: the constructor of the same kind. */
    static method OfState(s: CurveState) returns (c: Curve)
      ensures fresh(c) && c.state == CloneState(s)
    {
      if s.Constant? {
        c := new Curve.ConstantCurve(s.y);
      } else {
        c := new Curve.GaussianCurve(s.xc, s.a, s.w);
      }
    }

    /** curve.clone() */
    method Clone() returns (c: Curve)
      ensures fresh(c) && c.state == CloneState(state)
    {
      c := OfState(state);
    }

    /** curve.set_params(...): each field whose argument is given is replaced, through abs for a Gaussian. */
    method SetParams(args: seq<Option<real>>)
      requires |args| <= Arity(state)
      modifies this
      ensures state == CurveModel.SetParams(old(state), args)
    {
      match state
      case Constant(_) =>
        if Arg(args, 0).Some? {
          state := Constant(Arg(args, 0).value);
        }
      case Gaussian(_, _, _) =>
        if Arg(args, 0).Some? {
          state := state.(xc := Abs(Arg(args, 0).value));
        }
        if Arg(args, 1).Some? {
          state := state.(a := Abs(Arg(args, 1).value));
        }
        if Arg(args, 2).Some? {
          state := state.(w := Abs(Arg(args, 2).value));
        }
    }
  }

  /** The sort key of an (object, fields) pair. */
  function PairKey(pr: (Curve, CurveState)): real
  {
    XcKey(pr.1)
  }

  function PairCurve(pr: (Curve, CurveState)): Curve
  {
    pr.0
  }

  function PairState(pr: (Curve, CurveState)): CurveState
  {
    pr.1
  }

  /** CompositeCurve: an ordered list of curve objects. */
  class CompositeCurve {
    var curveList: seq<Curve>

    /** No curve object appears twice in the list. */
    ghost predicate Valid()
      reads this
    {
      Distinct(curveList)
    }

    /** The members' current field values, in list order. */
    function Values(): (vs: seq<CurveState>)
      reads this, curveList
      ensures |vs| == |curveList|
      ensures forall k :: 0 <= k < |curveList| ==> vs[k] == curveList[k].state
    {
      seq(|curveList|, k requires 0 <= k < |curveList| reads this, curveList => curveList[k].state)
    }

    /** CompositeCurve(): an empty list. */
    constructor ()
      ensures curveList == []
    {
      curveList := [];
    }

    /** The clone of a composite whose members have the given values: a new object holding new members. */
    static method CloneOf(states: seq<CurveState>) returns (c: CompositeCurve)
      ensures fresh(c) && c.Valid()
      ensures forall k :: 0 <= k < |c.curveList| ==> fresh(c.curveList[k])
      ensures c.Values() == CloneStates(states)
    {
      c := new CompositeCurve();
      var k := 0;
      while k < |states|
        invariant 0 <= k <= |states|
        invariant fresh(c) && |c.curveList| == k && Distinct(c.curveList)
        invariant forall j :: 0 <= j < k ==> fresh(c.curveList[j]) && c.curveList[j].state == CloneState(states[j])
      {
        var curve := Curve.OfState(states[k]);
        c.curveList := c.curveList + [curve];
        k := k + 1;
      }
    }

    /** composite.curve_list.append(c) for a curve not yet in the list. */
    method Append(c: Curve)
      requires Valid() && c !in curveList
      modifies this
      ensures Valid() && curveList == old(curveList) + [c]
      ensures Values() == old(Values()) + [c.state]
      ensures multiset(old(curveList)) <= multiset(curveList)
    {
      DistinctSnoc(curveList, c);
      curveList := curveList + [c];
    }

    /** composite.curve_list.remove(c): the first (here the only) entry holding c is dropped. */
    method Remove(c: Curve)
      requires Valid() && c in curveList
      modifies this
      ensures Valid() && c !in curveList
      ensures var i := IndexOf(old(curveList), c);
        && curveList == old(curveList)[..i] + old(curveList)[i + 1..]
        && Values() == old(Values())[..i] + old(Values())[i + 1..]
      ensures multiset(curveList) == multiset(old(curveList)) - multiset{c}
    {
      var list := curveList;
      ghost var vs := Values();
      var i := IndexOf(list, c);
      curveList := list[..i] + list[i + 1..];
      RemoveAt(list, i);
      forall k | 0 <= k < |curveList|
        ensures Values()[k] == (vs[..i] + vs[i + 1..])[k]
      {
        if k >= i {
          assert curveList[k] == list[k + 1];
        }
      }
    }

    /** composite.clone() */
    method Clone() returns (c: CompositeCurve)
      ensures fresh(c) && c.Valid()
      ensures forall k :: 0 <= k < |c.curveList| ==> fresh(c.curveList[k])
      ensures c.Values() == CloneStates(Values())
    {
      c := CloneOf(Values());
    }

    /** composite.get_params(): the members' tuples, extended in list order. */
    method GetParams() returns (params: seq<real>)
      ensures params == FlatParams(Values())
    {
      params := [];
      var k := 0;
      while k < |curveList|
        invariant 0 <= k <= |curveList|
        invariant params == FlatParams(Values()[..k])
      {
        assert Values()[..k + 1][..k] == Values()[..k];
        params := params + Params(curveList[k].state);
        k := k + 1;
      }
      assert Values()[..k] == Values();
    }

    /** composite.set_params(*params): member k is given params[i:i+len(its params)], i running. */
    method SetParams(params: seq<real>)
      requires Valid()
      modifies curveList
      ensures Values() == ApplyParams(old(Values()), params)
    {
      ghost var before := Values();
      var i := 0;
      var k := 0;
      while k < |curveList|
        invariant 0 <= k <= |curveList|
        invariant i == Offset(before, k)
        invariant forall j :: 0 <= j < k ==> curveList[j].state == ApplyParams(before, params)[j]
        invariant forall j :: k <= j < |curveList| ==> curveList[j].state == before[j]
      {
        var curve := curveList[k];
        var paramLength := Arity(curve.state);
        assert Slice(params, i, paramLength) == MemberSlice(before, params, k);
        curve.SetParams(Somes(Slice(params, i, paramLength)));
        assert curve.state == ApplyParams(before, params)[k];
        assert forall j :: 0 <= j < |curveList| && j != k ==> curveList[j] != curve;
        OffsetStep(before, k);
        i := i + paramLength;
        k := k + 1;
      }
    }

    /** composite.evaluate(x, *params): the sum of the members, each on its slice of params when
        params is non-empty, or on its own fields otherwise; a member's IndexError ends the loop. */
    method Evaluate(x: real, params: seq<real>, exp: real -> real) returns (r: Result<Sample>)
      ensures r == CurveModel.Evaluate(Values(), x, params, exp)
    {
      var y := Finite(0.0);
      var k := 0;
      if |params| > 0 {
        var i := 0;
        while k < |curveList|
          invariant 0 <= k <= |curveList|
          invariant i == TotalArity(Values()[..k])
          invariant EvalWith(Values()[..k], x, params, exp) == Ok(y)
        {
          var c := curveList[k].state;
          var paramLength := Arity(c);
          assert Values()[..k + 1][..k] == Values()[..k];
          var v := EvalMember(c, x, Slice(params, i, paramLength), exp);
          if v.Err? {
            EvalWithErrorPropagates(Values(), k + 1, x, params, exp);
            return Err(v.error);
          }
          y := Add(y, v.value);
          i := i + paramLength;
          k := k + 1;
        }
      } else {
        while k < |curveList|
          invariant 0 <= k <= |curveList|
          invariant EvalStored(Values()[..k], x, exp) == y
        {
          assert Values()[..k + 1][..k] == Values()[..k];
          y := Add(y, EvalStoredMember(curveList[k].state, x, exp));
          k := k + 1;
        }
      }
      assert Values()[..k] == Values();
      r := Ok(y);
    }

    /** composite.sort(): the list rearranged by xc, stably. */
    method Sort()
      requires Valid()
      modifies this
      ensures Valid()
      ensures multiset(curveList) == multiset(old(curveList))
      ensures Values() == SortByXc(old(Values()))
    {
      var pairs := seq(|curveList|, k requires 0 <= k < |curveList| reads this, curveList =>
        (curveList[k], curveList[k].state));
      var sorted := SortBy(pairs, PairKey);
      SortByPermutes(pairs, PairKey);
      ghost var before := curveList;
      assert Map(pairs, PairState) == Values();
      assert Map(pairs, PairCurve) == before;
      SortByMap(pairs, PairKey, PairState, XcKey);
      SortByMapPermutes(pairs, PairKey, PairCurve);
      curveList := Map(sorted, PairCurve);
      PermutationKeepsDistinct(before, curveList);
      forall k | 0 <= k < |sorted|
        ensures curveList[k].state == Map(sorted, PairState)[k]
      {
        assert sorted[k] in multiset(pairs);
        var j :| 0 <= j < |pairs| && pairs[j] == sorted[k];
      }
    }
  }
}
