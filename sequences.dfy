/** `Array.prototype.filter`, which the table component uses twice: to derive
    the rows the grid shows and to pick the rows an export writes. */
module Sequences {

  /** `s.filter(p)`: the elements of `s` that satisfy `p`, in the order of `s`.
      Defined on the last element so that a prefix of `s` keeps its indices. */
  function Filter<T>(s: seq<T>, p: T -> bool): (r: seq<T>)
    ensures |r| <= |s|
    ensures forall x :: x in r ==> x in s && p(x)
    ensures forall x :: x in s && p(x) ==> x in r
    decreases |s|
  {
    if |s| == 0 then []
    else Filter(s[..|s| - 1], p) + (if p(s[|s| - 1]) then [s[|s| - 1]] else [])
  }

  /** The indices of the elements of `s` that satisfy `p`, in increasing order. */
  function KeptIndices<T>(s: seq<T>, p: T -> bool): seq<nat>
    decreases |s|
  {
    if |s| == 0 then []
    else KeptIndices(s[..|s| - 1], p) + (if p(s[|s| - 1]) then [|s| - 1] else [])
  }

  /** The k-th element of `r` is the element of `s` at `idx[k]`, the indices
      strictly increase, and an index is listed exactly when its element
      satisfies `p`: `r` keeps those elements in their order, each once,
      and holds nothing else. */
  ghost predicate IsOrderedSelection<T>(r: seq<T>, s: seq<T>, p: T -> bool, idx: seq<nat>)
  {
    && |idx| == |r|
    && (forall k :: 0 <= k < |idx| ==> idx[k] < |s| && r[k] == s[idx[k]])
    && (forall k, l :: 0 <= k < l < |idx| ==> idx[k] < idx[l])
    && (forall i :: 0 <= i < |s| ==> (i in idx <==> p(s[i])))
  }

  /** Extending `s` by one element `x` extends an ordered selection from `s`
      by `x` and its index when `x` satisfies `p`, and by nothing otherwise. */
  lemma OrderedSelectionSnoc<T>(r: seq<T>, s: seq<T>, x: T, p: T -> bool, idx: seq<nat>)
    requires IsOrderedSelection(r, s, p, idx)
    ensures p(x) ==> IsOrderedSelection(r + [x], s + [x], p, idx + [|s|])
    ensures !p(x) ==> IsOrderedSelection(r, s + [x], p, idx)
  {
    var s', n := s + [x], |s|;
    assert forall i :: 0 <= i < n ==> s'[i] == s[i];
    assert forall k :: 0 <= k < |idx| ==> idx[k] < n;
    if p(x) {
      var r', idx' := r + [x], idx + [n];
      forall k | 0 <= k < |idx'| ensures idx'[k] < |s'| && r'[k] == s'[idx'[k]] {
        if k < |idx| {
          assert idx'[k] == idx[k] && r'[k] == r[k];
        }
      }
      forall i | 0 <= i < |s'| ensures i in idx' <==> p(s'[i]) {
        assert i in idx' <==> i in idx || i == n;
      }
    } else {
      forall i | 0 <= i < |s'| ensures i in idx <==> p(s'[i]) {
        if i == n {
          assert i !in idx;
        }
      }
    }
  }

  /** The filter result is the order-preserving selection of the elements
      that satisfy the predicate: no element reordered, repeated or invented. */
  lemma {:induction false} FilterIsOrderedSelection<T>(s: seq<T>, p: T -> bool)
    ensures IsOrderedSelection(Filter(s, p), s, p, KeptIndices(s, p))
    decreases |s|
  {
    if |s| > 0 {
      var n := |s| - 1;
      FilterIsOrderedSelection(s[..n], p);
      OrderedSelectionSnoc(Filter(s[..n], p), s[..n], s[n], p, KeptIndices(s[..n], p));
      assert s[..n] + [s[n]] == s;
    }
  }

  /** Filtering returns the whole sequence exactly when every element
      satisfies the predicate. */
  lemma {:induction false} FilterKeepsAll<T>(s: seq<T>, p: T -> bool)
    ensures Filter(s, p) == s <==> forall i :: 0 <= i < |s| ==> p(s[i])
    decreases |s|
  {
    if |s| > 0 && forall i :: 0 <= i < |s| ==> p(s[i]) {
      var n := |s| - 1;
      FilterKeepsAll(s[..n], p);
      assert s[..n] + [s[n]] == s;
    }
    if Filter(s, p) == s {
      forall i | 0 <= i < |s| ensures p(s[i]) {
        assert s[i] in Filter(s, p);
      }
    }
  }

  /** Two predicates that agree on every element of `s` filter it alike. */
  lemma {:induction false} FilterAgreeing<T>(s: seq<T>, p: T -> bool, q: T -> bool)
    requires forall x :: x in s ==> p(x) == q(x)
    ensures Filter(s, p) == Filter(s, q)
    decreases |s|
  {
    if |s| > 0 {
      var n := |s| - 1;
      assert forall x :: x in s[..n] ==> x in s;
      FilterAgreeing(s[..n], p, q);
    }
  }
}
