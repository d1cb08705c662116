/**
 * The ordering of CompositeCurve.sort(): Python's list.sort(key=...) is stable, so it is
 * modelled by a stable insertion sort, with its properties proved once for any item type.
 */
module CurveOrder {
  import opened CurveModel

  predicate Sorted<T>(s: seq<T>, key: T -> real)
  {
    forall i, j :: 0 <= i < j < |s| ==> key(s[i]) <= key(s[j])
  }

  /** Places e after every element whose key is not larger than its own. */
  function Insert<T>(s: seq<T>, e: T, key: T -> real): (r: seq<T>)
    ensures |r| == |s| + 1
  {
    if |s| == 0 then [e]
    else if key(e) < key(s[0]) then [e] + s
    else [s[0]] + Insert(s[1..], e, key)
  }

  /** list.sort(key=key): each element in turn is inserted after the equal keys already placed. */
  function SortBy<T>(s: seq<T>, key: T -> real): (r: seq<T>)
    ensures |r| == |s|
  {
    if |s| == 0 then []
    else Insert(SortBy(s[..|s| - 1], key), s[|s| - 1], key)
  }

  /** Insertion adds e and loses nothing. */
  lemma {:induction false} InsertPermutes<T>(s: seq<T>, e: T, key: T -> real)
    ensures multiset(Insert(s, e, key)) == multiset(s) + multiset{e}
  {
    if |s| > 0 && key(e) >= key(s[0]) {
      InsertPermutes(s[1..], e, key);
      assert s == [s[0]] + s[1..];
    }
  }

  /** The sort is a permutation. */
  lemma {:induction false} SortByPermutes<T>(s: seq<T>, key: T -> real)
    ensures multiset(SortBy(s, key)) == multiset(s)
  {
    if |s| > 0 {
      var pre := s[..|s| - 1];
      var e := s[|s| - 1];
      calc {
        multiset(SortBy(s, key));
      == { InsertPermutes(SortBy(pre, key), e, key); }
        multiset(SortBy(pre, key)) + multiset{e};
      == { SortByPermutes(pre, key); }
        multiset(pre) + multiset{e};
      == { assert s == pre + [e]; }
        multiset(s);
      }
    }
  }

  /** The elements of s whose key is v, in their order in s. */
  function WithKey<T>(s: seq<T>, key: T -> real, v: real): seq<T>
  {
    if |s| == 0 then []
    else (if key(s[0]) == v then [s[0]] else []) + WithKey(s[1..], key, v)
  }

  lemma {:induction false} WithKeyConcat<T>(a: seq<T>, b: seq<T>, key: T -> real, v: real)
    ensures WithKey(a + b, key, v) == WithKey(a, key, v) + WithKey(b, key, v)
  {
    if |a| > 0 {
      assert (a + b)[1..] == a[1..] + b;
      WithKeyConcat(a[1..], b, key, v);
    } else {
      assert a + b == b;
    }
  }

  lemma {:induction false} WithKeyAbove<T>(s: seq<T>, key: T -> real, v: real)
    requires forall i :: 0 <= i < |s| ==> key(s[i]) > v
    ensures WithKey(s, key, v) == []
  {
    if |s| > 0 {
      WithKeyAbove(s[1..], key, v);
    }
  }

  lemma {:induction false} InsertSorted<T>(s: seq<T>, e: T, key: T -> real)
    requires Sorted(s, key)
    ensures Sorted(Insert(s, e, key), key)
  {
    if |s| > 0 && key(e) >= key(s[0]) {
      var tail := s[1..];
      InsertSorted(tail, e, key);
      var t := Insert(tail, e, key);
      InsertPermutes(tail, e, key);
      forall i | 0 <= i < |t|
        ensures key(s[0]) <= key(t[i])
      {
        assert t[i] in multiset(t);
        if t[i] != e {
          assert t[i] in multiset(tail);
          var j :| 0 <= j < |tail| && tail[j] == t[i];
          assert s[j + 1] == tail[j];
        }
      }
      ConsSorted(s[0], t, key);
    }
  }

  lemma ConsSorted<T>(x: T, t: seq<T>, key: T -> real)
    requires Sorted(t, key)
    requires forall i :: 0 <= i < |t| ==> key(x) <= key(t[i])
    ensures Sorted([x] + t, key)
  {
    var r := [x] + t;
    forall i, j | 0 <= i < j < |r|
      ensures key(r[i]) <= key(r[j])
    {
      assert r[j] == t[j - 1];
      if i > 0 {
        assert r[i] == t[i - 1];
      }
    }
  }

  /** The result of the sort is ordered by the key. */
  lemma {:induction false} SortBySorted<T>(s: seq<T>, key: T -> real)
    ensures Sorted(SortBy(s, key), key)
  {
    if |s| > 0 {
      SortBySorted(s[..|s| - 1], key);
      InsertSorted(SortBy(s[..|s| - 1], key), s[|s| - 1], key);
    }
  }

  lemma {:induction false} InsertStable<T>(s: seq<T>, e: T, key: T -> real, v: real)
    requires Sorted(s, key)
    ensures WithKey(Insert(s, e, key), key, v) == WithKey(s, key, v) + (if key(e) == v then [e] else [])
  {
    if |s| == 0 {
      WithKeySingle(e, key, v);
    } else if key(e) < key(s[0]) {
      InsertFrontStable(s, e, key, v);
    } else {
      SortedTail(s, key);
      InsertStable(s[1..], e, key, v);
      InsertLaterStable(s, e, key, v);
    }
  }

  /** e goes in front of a sorted s: only when its key is below every key of s. */
  lemma InsertFrontStable<T>(s: seq<T>, e: T, key: T -> real, v: real)
    requires |s| > 0 && Sorted(s, key) && key(e) < key(s[0])
    ensures WithKey(Insert(s, e, key), key, v) == WithKey(s, key, v) + (if key(e) == v then [e] else [])
  {
    assert Insert(s, e, key) == [e] + s;
    WithKeyCons(e, s, key, v);
    if key(e) == v {
      SortedAbove(s, key, v);
      WithKeyAbove(s, key, v);
    }
  }

  /** e goes after s[0]: the step of the induction, given its hypothesis for s[1..]. */
  lemma InsertLaterStable<T>(s: seq<T>, e: T, key: T -> real, v: real)
    requires |s| > 0 && key(s[0]) <= key(e)
    requires WithKey(Insert(s[1..], e, key), key, v) == WithKey(s[1..], key, v) + (if key(e) == v then [e] else [])
    ensures WithKey(Insert(s, e, key), key, v) == WithKey(s, key, v) + (if key(e) == v then [e] else [])
  {
    var t := s[1..];
    var head: seq<T> := if key(s[0]) == v then [s[0]] else [];
    var tail: seq<T> := if key(e) == v then [e] else [];
    calc {
      WithKey(Insert(s, e, key), key, v);
    == { assert Insert(s, e, key) == [s[0]] + Insert(t, e, key); }
      WithKey([s[0]] + Insert(t, e, key), key, v);
    == { WithKeyCons(s[0], Insert(t, e, key), key, v); }
      head + WithKey(Insert(t, e, key), key, v);
    ==
      head + (WithKey(t, key, v) + tail);
    == { AppendAssoc(head, WithKey(t, key, v), tail); }
      (head + WithKey(t, key, v)) + tail;
    == { assert s == [s[0]] + t; WithKeyCons(s[0], t, key, v); }
      WithKey(s, key, v) + tail;
    }
  }

  lemma AppendAssoc<T>(a: seq<T>, b: seq<T>, c: seq<T>)
    ensures a + (b + c) == (a + b) + c
  {
  }

  lemma WithKeyCons<T>(x: T, s: seq<T>, key: T -> real, v: real)
    ensures WithKey([x] + s, key, v) == (if key(x) == v then [x] else []) + WithKey(s, key, v)
  {
    assert ([x] + s)[0] == x && ([x] + s)[1..] == s;
  }

  lemma SortedTail<T>(s: seq<T>, key: T -> real)
    requires |s| > 0 && Sorted(s, key)
    ensures Sorted(s[1..], key)
  {
    forall i, j | 0 <= i < j < |s| - 1
      ensures key(s[1..][i]) <= key(s[1..][j])
    {
      assert s[1..][i] == s[i + 1] && s[1..][j] == s[j + 1];
    }
  }

  lemma SortedAbove<T>(s: seq<T>, key: T -> real, v: real)
    requires |s| > 0 && Sorted(s, key) && v < key(s[0])
    ensures forall i :: 0 <= i < |s| ==> key(s[i]) > v
  {
  }

  /** Stability: the elements sharing a key keep their relative order. */
  lemma {:induction false} SortByStable<T>(s: seq<T>, key: T -> real, v: real)
    ensures WithKey(SortBy(s, key), key, v) == WithKey(s, key, v)
  {
    if |s| > 0 {
      var pre := s[..|s| - 1];
      var e := s[|s| - 1];
      calc {
        WithKey(SortBy(s, key), key, v);
      == { assert SortBy(s, key) == Insert(SortBy(pre, key), e, key); }
        WithKey(Insert(SortBy(pre, key), e, key), key, v);
      == { SortBySorted(pre, key); InsertStable(SortBy(pre, key), e, key, v); }
        WithKey(SortBy(pre, key), key, v) + (if key(e) == v then [e] else []);
      == { SortByStable(pre, key, v); WithKeySingle(e, key, v); }
        WithKey(pre, key, v) + WithKey([e], key, v);
      == { assert s == pre + [e]; WithKeyConcat(pre, [e], key, v); }
        WithKey(s, key, v);
      }
    }
  }

  lemma WithKeySingle<T>(e: T, key: T -> real, v: real)
    ensures WithKey([e], key, v) == if key(e) == v then [e] else []
  {
    assert [e][1..] == [];
  }

  lemma {:induction false} InsertAtEnd<T>(s: seq<T>, e: T, key: T -> real)
    requires forall i :: 0 <= i < |s| ==> key(s[i]) <= key(e)
    ensures Insert(s, e, key) == s + [e]
  {
    if |s| > 0 {
      InsertAtEnd(s[1..], e, key);
      assert s == [s[0]] + s[1..];
    }
  }

  /** A list already in order is left as it is; hence sorting twice is sorting once. */
  lemma {:induction false} SortBySortedIsIdentity<T>(s: seq<T>, key: T -> real)
    requires Sorted(s, key)
    ensures SortBy(s, key) == s
  {
    if |s| > 0 {
      var pre := s[..|s| - 1];
      SortBySortedIsIdentity(pre, key);
      InsertAtEnd(pre, s[|s| - 1], key);
      assert pre + [s[|s| - 1]] == s;
    }
  }

  lemma SortByIdempotent<T>(s: seq<T>, key: T -> real)
    ensures SortBy(SortBy(s, key), key) == SortBy(s, key)
  {
    SortBySorted(s, key);
    SortBySortedIsIdentity(SortBy(s, key), key);
  }

  function Map<T, U>(s: seq<T>, f: T -> U): (r: seq<U>)
    ensures |r| == |s| && forall i :: 0 <= i < |s| ==> r[i] == f(s[i])
  {
    seq(|s|, i requires 0 <= i < |s| => f(s[i]))
  }

  lemma {:induction false} InsertMap<T, U>(s: seq<T>, e: T, keyT: T -> real, f: T -> U, keyU: U -> real)
    requires forall t :: keyT(t) == keyU(f(t))
    ensures Map(Insert(s, e, keyT), f) == Insert(Map(s, f), f(e), keyU)
  {
    var ms := Map(s, f);
    if |s| == 0 {
      assert Map([e], f) == [f(e)];
    } else if keyT(e) < keyT(s[0]) {
      assert keyU(f(e)) < keyU(ms[0]);
      assert Map([e] + s, f) == [f(e)] + ms;
    } else {
      var t := Insert(s[1..], e, keyT);
      calc {
        Map(Insert(s, e, keyT), f);
      == { assert Insert(s, e, keyT) == [s[0]] + t; }
        Map([s[0]] + t, f);
      == { MapConcat([s[0]], t, f); }
        [f(s[0])] + Map(t, f);
      == { InsertMap(s[1..], e, keyT, f, keyU); }
        [f(s[0])] + Insert(Map(s[1..], f), f(e), keyU);
      == { assert ms[0] == f(s[0]) && ms[1..] == Map(s[1..], f); }
        [ms[0]] + Insert(ms[1..], f(e), keyU);
      == { assert keyU(f(e)) >= keyU(ms[0]); }
        Insert(ms, f(e), keyU);
      }
    }
  }

  lemma {:induction false} SortByMap<T, U>(s: seq<T>, keyT: T -> real, f: T -> U, keyU: U -> real)
    requires forall t :: keyT(t) == keyU(f(t))
    ensures Map(SortBy(s, keyT), f) == SortBy(Map(s, f), keyU)
  {
    if |s| > 0 {
      var pre := s[..|s| - 1];
      SortByMap(pre, keyT, f, keyU);
      InsertMap(SortBy(pre, keyT), s[|s| - 1], keyT, f, keyU);
      assert Map(s, f)[..|s| - 1] == Map(pre, f);
    }
  }

  ghost predicate Distinct<T>(s: seq<T>)
  {
    forall i, j :: 0 <= i < j < |s| ==> s[i] != s[j]
  }

  lemma {:induction false} DistinctCountsAtMostOne<T>(s: seq<T>, x: T)
    requires Distinct(s)
    ensures multiset(s)[x] <= 1
  {
    if |s| > 0 {
      var pre := s[..|s| - 1];
      DistinctCountsAtMostOne(pre, x);
      assert s == pre + [s[|s| - 1]];
      if x == s[|s| - 1] {
        assert x !in pre;
      }
    }
  }

  lemma DistinctSnoc<T>(s: seq<T>, x: T)
    requires Distinct(s) && x !in s
    ensures Distinct(s + [x])
  {
  }

  /** A rearrangement of a list without repeated objects has no repeated objects. */
  lemma PermutationKeepsDistinct<T>(s: seq<T>, t: seq<T>)
    requires Distinct(s) && multiset(s) == multiset(t)
    ensures Distinct(t)
  {
    forall i, j | 0 <= i < j < |t|
      ensures t[i] != t[j]
    {
      if t[i] == t[j] {
        var x := t[i];
        assert t == t[..j] + t[j..];
        assert x in t[..j] && x in t[j..];
        assert multiset(t)[x] == multiset(t[..j])[x] + multiset(t[j..])[x];
        DistinctCountsAtMostOne(s, x);
        assert false;
      }
    }
  }

  lemma MapConcat<T, U>(a: seq<T>, b: seq<T>, f: T -> U)
    ensures Map(a + b, f) == Map(a, f) + Map(b, f)
  {
  }

  /** Mapping commutes with insertion up to order: the image gains f(e). */
  lemma {:induction false} InsertMapPermutes<T, U>(s: seq<T>, e: T, key: T -> real, f: T -> U)
    ensures multiset(Map(Insert(s, e, key), f)) == multiset(Map(s, f)) + multiset{f(e)}
  {
    if |s| == 0 {
      assert Map([e], f) == [f(e)];
    } else if key(e) < key(s[0]) {
      assert Insert(s, e, key) == [e] + s;
      MapConcat([e], s, f);
      assert Map([e], f) == [f(e)];
    } else {
      var t := Insert(s[1..], e, key);
      assert Insert(s, e, key) == [s[0]] + t;
      MapConcat([s[0]], t, f);
      InsertMapPermutes(s[1..], e, key, f);
      assert s == [s[0]] + s[1..];
      MapConcat([s[0]], s[1..], f);
    }
  }

  /** The images of the sorted list are those of the list: f(x) for each x, as often as x occurs. */
  lemma {:induction false} SortByMapPermutes<T, U>(s: seq<T>, key: T -> real, f: T -> U)
    ensures multiset(Map(SortBy(s, key), f)) == multiset(Map(s, f))
  {
    if |s| > 0 {
      var pre := s[..|s| - 1];
      var e := s[|s| - 1];
      calc {
        multiset(Map(SortBy(s, key), f));
      == { InsertMapPermutes(SortBy(pre, key), e, key, f); }
        multiset(Map(SortBy(pre, key), f)) + multiset{f(e)};
      == { SortByMapPermutes(pre, key, f); }
        multiset(Map(pre, f)) + multiset{f(e)};
      == { assert s == pre + [e]; MapConcat(pre, [e], f); assert Map([e], f) == [f(e)]; }
        multiset(Map(s, f));
      }
    }
  }

  // ---------------------------------------------------------------------------------------------
  // The composite's order

  /** composite.sort(): the members by xc, the baseline's sentinel -1 first. */
  function SortByXc(cs: seq<CurveState>): (r: seq<CurveState>)
    ensures |r| == |cs| && multiset(r) == multiset(cs)
  {
    SortByPermutes(cs, XcKey);
    SortBy(cs, XcKey)
  }

  /** A composite as the application builds it: the baseline first, then peaks whose centre and
      amplitude are nonnegative (set through abs); a width may be negative. */
  predicate Peak(c: CurveState)
  {
    c.Gaussian? && c.xc >= 0.0 && c.a >= 0.0
  }

  predicate Shaped(cs: seq<CurveState>)
  {
    |cs| >= 1 && cs[0].Constant? && forall k :: 1 <= k < |cs| ==> Peak(cs[k])
  }

  /** A baseline followed by peaks is shaped. */
  lemma BaselineThenPeaks(y0: real, ps: seq<CurveState>)
    requires forall k :: 0 <= k < |ps| ==> Peak(ps[k])
    ensures Shaped([Constant(y0)] + ps)
  {
    var cs := [Constant(y0)] + ps;
    forall k | 1 <= k < |cs|
      ensures Peak(cs[k])
    {
      assert cs[k] == ps[k - 1];
    }
  }

  /** set_params keeps a composite shaped: centres and amplitudes are either kept or folded. */
  lemma ApplyParamsKeepsShape(cs: seq<CurveState>, p: seq<real>)
    requires Shaped(cs)
    ensures Shaped(ApplyParams(cs, p))
  {
    ApplyParamsKeepsLayout(cs, p);
  }

  lemma {:induction false} LeastKeyStaysFirst(cs: seq<CurveState>)
    requires |cs| >= 1
    requires forall k :: 1 <= k < |cs| ==> XcKey(cs[0]) < XcKey(cs[k])
    ensures SortBy(cs, XcKey)[0] == cs[0]
  {
    if |cs| > 1 {
      var pre := cs[..|cs| - 1];
      LeastKeyStaysFirst(pre);
    }
  }

  /** A permutation that keeps the first element keeps the remaining elements' property. */
  lemma SameHeadKeepsPeaks(cs: seq<CurveState>, r: seq<CurveState>)
    requires |cs| >= 1 && |r| == |cs| && multiset(r) == multiset(cs) && r[0] == cs[0]
    requires forall k :: 1 <= k < |cs| ==> Peak(cs[k])
    ensures forall k :: 1 <= k < |r| ==> Peak(r[k])
  {
    assert cs == [cs[0]] + cs[1..];
    assert r == [r[0]] + r[1..];
    assert multiset(r) == multiset([r[0]]) + multiset(r[1..]);
    assert multiset(cs) == multiset([cs[0]]) + multiset(cs[1..]);
    assert multiset([r[0]]) == multiset([cs[0]]);
    forall x
      ensures multiset(r[1..])[x] == multiset(cs[1..])[x]
    {
      assert multiset(r)[x] == multiset([r[0]])[x] + multiset(r[1..])[x];
      assert multiset(cs)[x] == multiset([cs[0]])[x] + multiset(cs[1..])[x];
    }
    assert multiset(r[1..]) == multiset(cs[1..]);
    forall k | 1 <= k < |r|
      ensures Peak(r[k])
    {
      assert r[k] == r[1..][k - 1];
      assert r[k] in multiset(cs[1..]);
      var j :| 0 <= j < |cs[1..]| && cs[1..][j] == r[k];
      assert cs[j + 1] == r[k];
    }
  }

  /** Sorting keeps the baseline first and leaves peaks after it, in ascending order of centre. */
  lemma SortKeepsShape(cs: seq<CurveState>)
    requires Shaped(cs)
    ensures Shaped(SortByXc(cs)) && SortByXc(cs)[0] == cs[0]
    ensures forall i, j :: 1 <= i < j < |cs| ==> SortByXc(cs)[i].xc <= SortByXc(cs)[j].xc
  {
    var r := SortByXc(cs);
    LeastKeyStaysFirst(cs);
    SameHeadKeepsPeaks(cs, r);
    SortBySorted(cs, XcKey);
    forall i, j | 1 <= i < j < |cs|
      ensures r[i].xc <= r[j].xc
    {
      assert XcKey(r[i]) <= XcKey(r[j]);
    }
  }

  /** Peaks at the same centre stay in the order in which they were in the list. */
  lemma SortByXcStable(cs: seq<CurveState>, v: real)
    ensures WithKey(SortByXc(cs), XcKey, v) == WithKey(cs, XcKey, v)
  {
    SortByStable(cs, XcKey, v);
  }
}
