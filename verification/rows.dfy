/** Order-preserving row selection, the shape of pandas' `dropna(subset=...)`. */
module Rows {
  import opened Wrappers

  /** The elements of `s` that satisfy `keep`, in their original order. */
  function Filter<T>(s: seq<T>, keep: T -> bool): (r: seq<T>)
    ensures |r| <= |s|
    ensures forall k :: 0 <= k < |r| ==> keep(r[k])
  {
    if |s| == 0 then []
    else
      var rest := Filter(s[1..], keep);
      if keep(s[0]) then [s[0]] + rest else rest
  }

  /** `Filter` keeps exactly the elements that `keep` accepts. */
  lemma {:induction false} FilterMembers<T>(s: seq<T>, keep: T -> bool)
    ensures forall x :: x in Filter(s, keep) <==> x in s && keep(x)
  {
    if |s| > 0 {
      FilterMembers(s[1..], keep);
      assert forall x :: x in s <==> x == s[0] || x in s[1..];
    }
  }

  predicate StrictlyIncreasing(xs: seq<nat>) {
    forall a, b :: 0 <= a < b < |xs| ==> xs[a] < xs[b]
  }

  /** The positions of `s` that `keep` accepts, counted from `from`. */
  function KeptIndicesFrom<T>(s: seq<T>, keep: T -> bool, from: nat): (r: seq<nat>)
    requires from <= |s|
    ensures forall k :: 0 <= k < |r| ==> from <= r[k] < |s| && keep(s[r[k]])
    decreases |s| - from
  {
    if from == |s| then []
    else
      var rest := KeptIndicesFrom(s, keep, from + 1);
      if keep(s[from]) then [from] + rest else rest
  }

  /** The positions come in increasing order. */
  lemma {:induction false} KeptIndicesFromIncreasing<T>(s: seq<T>, keep: T -> bool, from: nat)
    requires from <= |s|
    ensures StrictlyIncreasing(KeptIndicesFrom(s, keep, from))
    decreases |s| - from
  {
    if from < |s| {
      KeptIndicesFromIncreasing(s, keep, from + 1);
      var rest := KeptIndicesFrom(s, keep, from + 1);
      if keep(s[from]) {
        var r := [from] + rest;
        forall a, b | 0 <= a < b < |r|
          ensures r[a] < r[b]
        {
          assert r[b] == rest[b - 1];
          if a > 0 {
            assert r[a] == rest[a - 1];
          }
        }
      }
    }
  }

  /** No position that `keep` accepts is missed. */
  lemma {:induction false} KeptIndicesFromComplete<T>(s: seq<T>, keep: T -> bool, from: nat)
    requires from <= |s|
    ensures forall i :: from <= i < |s| && keep(s[i]) ==> i in KeptIndicesFrom(s, keep, from)
    decreases |s| - from
  {
    if from < |s| {
      KeptIndicesFromComplete(s, keep, from + 1);
      var rest := KeptIndicesFrom(s, keep, from + 1);
      if keep(s[from]) {
        assert forall i :: i in rest ==> i in [from] + rest;
      }
    }
  }

  function KeptIndices<T>(s: seq<T>, keep: T -> bool): (r: seq<nat>)
    ensures StrictlyIncreasing(r)
    ensures forall k :: 0 <= k < |r| ==> r[k] < |s| && keep(s[r[k]])
    ensures forall i :: 0 <= i < |s| && keep(s[i]) ==> i in r
  {
    KeptIndicesFromIncreasing(s, keep, 0);
    KeptIndicesFromComplete(s, keep, 0);
    KeptIndicesFrom(s, keep, 0)
  }

  /** The accepted positions depend only on which positions are accepted: two sequences
      of the same length whose predicates agree position by position keep the same ones. */
  lemma {:induction false} KeptIndicesFromAgree<A, B>(s: seq<A>, p: A -> bool, u: seq<B>, q: B -> bool, from: nat)
    requires |s| == |u| && from <= |s|
    requires forall i :: 0 <= i < |s| ==> p(s[i]) == q(u[i])
    ensures KeptIndicesFrom(s, p, from) == KeptIndicesFrom(u, q, from)
    decreases |s| - from
  {
    if from < |s| {
      KeptIndicesFromAgree(s, p, u, q, from + 1);
    }
  }

  lemma KeptIndicesAgree<A, B>(s: seq<A>, p: A -> bool, u: seq<B>, q: B -> bool)
    requires |s| == |u|
    requires forall i :: 0 <= i < |s| ==> p(s[i]) == q(u[i])
    ensures KeptIndices(s, p) == KeptIndices(u, q)
  {
    KeptIndicesFromAgree(s, p, u, q, 0);
  }

  lemma {:induction false} FilterFromIndices<T>(s: seq<T>, keep: T -> bool, from: nat)
    requires from <= |s|
    ensures |Filter(s[from..], keep)| == |KeptIndicesFrom(s, keep, from)|
    ensures forall k :: 0 <= k < |Filter(s[from..], keep)| ==>
              Filter(s[from..], keep)[k] == s[KeptIndicesFrom(s, keep, from)[k]]
    decreases |s| - from
  {
    if from < |s| {
      FilterFromIndices(s, keep, from + 1);
      FilterStep(s, keep, from);
      var out := Filter(s[from..], keep);
      var rest := Filter(s[from + 1..], keep);
      var idx := KeptIndicesFrom(s, keep, from);
      var ixs := KeptIndicesFrom(s, keep, from + 1);
      if keep(s[from]) {
        assert out == [s[from]] + rest && idx == [from] + ixs;
        forall k | 0 <= k < |out|
          ensures out[k] == s[idx[k]]
        {
          if k > 0 {
            assert out[k] == rest[k - 1] && idx[k] == ixs[k - 1];
          }
        }
      } else {
        assert out == rest && idx == ixs;
      }
    }
  }

  /** `Filter` on a suffix decides its first element, then goes on with the rest. */
  lemma FilterStep<T>(s: seq<T>, keep: T -> bool, from: nat)
    requires from < |s|
    ensures Filter(s[from..], keep)
            == if keep(s[from]) then [s[from]] + Filter(s[from + 1..], keep) else Filter(s[from + 1..], keep)
  {
    assert s[from..][1..] == s[from + 1..];
  }

  /** `Filter` keeps exactly the rows at the accepted positions, in increasing order:
      the k-th kept row is the row at the k-th accepted position. */
  lemma FilterIsKeptIndices<T>(s: seq<T>, keep: T -> bool)
    ensures |Filter(s, keep)| == |KeptIndices(s, keep)|
    ensures forall k :: 0 <= k < |Filter(s, keep)| ==>
              Filter(s, keep)[k] == s[KeptIndices(s, keep)[k]]
  {
    FilterFromIndices(s, keep, 0);
    assert s[0..] == s;
  }

  /** `f` applied to every element in order, as `Series.apply` does: the results, or the
      exception of the first element on which `f` raises. */
  function ApplyAll<A, B, E>(xs: seq<A>, f: A -> Result<B, E>): (r: Result<seq<B>, E>)
    ensures r.Ok? <==> forall i :: 0 <= i < |xs| ==> f(xs[i]).Ok?
    ensures r.Ok? ==> |r.value| == |xs| && forall i :: 0 <= i < |xs| ==> f(xs[i]) == Ok(r.value[i])
    ensures r.Err? ==> exists i :: 0 <= i < |xs| && f(xs[i]) == Err(r.error)
                                   && forall j :: 0 <= j < i ==> f(xs[j]).Ok?
  {
    if |xs| == 0 then Ok([])
    else
      match f(xs[0])
      case Err(e) => Err(e)
      case Ok(y) =>
        var rest := ApplyAll(xs[1..], f);
        assert forall i :: 1 <= i < |xs| ==> xs[i] == xs[1..][i - 1];
        match rest
        case Err(e) =>
          assert exists i :: 1 <= i < |xs| && f(xs[i]) == Err(e) && forall j :: 0 <= j < i ==> f(xs[j]).Ok? by {
            var i :| 0 <= i < |xs| - 1 && f(xs[1..][i]) == Err(e) && forall j :: 0 <= j < i ==> f(xs[1..][j]).Ok?;
            assert f(xs[i + 1]) == Err(e);
          }
          Err(e)
        case Ok(ys) => Ok([y] + ys)
  }
}
