/** Order-preserving selection from a sequence: the model of `Array.prototype.filter`,
    which both the book search and the order list use. */
module Sequences {

  /** The elements of `s` that satisfy `p`, in their original order. */
  function Filter<T>(s: seq<T>, p: T -> bool): (r: seq<T>)
    ensures |r| <= |s|
    decreases |s|
  {
    if s == [] then []
    else Filter(s[..|s| - 1], p) + (if p(s[|s| - 1]) then [s[|s| - 1]] else [])
  }

  /** `idx` lists, strictly increasing, the positions of `s` that `r` was taken from:
      `r` is an order-preserving subsequence of `s`. */
  ghost predicate Embedding<T>(idx: seq<nat>, r: seq<T>, s: seq<T>)
  {
    && |idx| == |r|
    && (forall k :: 0 <= k < |idx| ==> idx[k] < |s| && r[k] == s[idx[k]])
    && (forall k, l :: 0 <= k < l < |idx| ==> idx[k] < idx[l])
  }

  /** `Filter` keeps exactly the positions whose element satisfies `p`, in order. */
  lemma {:induction false} FilterEmbedding<T>(s: seq<T>, p: T -> bool) returns (idx: seq<nat>)
    ensures Embedding(idx, Filter(s, p), s)
    ensures forall i :: 0 <= i < |s| ==> (i in idx <==> p(s[i]))
    decreases |s|
  {
    if s == [] {
      idx := [];
    } else {
      var n := |s| - 1;
      var init := s[..n];
      var idx0 := FilterEmbedding(init, p);
      assert forall k :: 0 <= k < |idx0| ==> idx0[k] < n;
      if p(s[n]) {
        idx := idx0 + [n];
      } else {
        idx := idx0;
      }
      assert forall i :: 0 <= i < n ==> init[i] == s[i];
      forall i | 0 <= i < |s|
        ensures i in idx <==> p(s[i])
      {
        if i < n {
          assert i in idx <==> i in idx0;
        }
      }
    }
  }

  /** An element occurs in the filtered sequence iff it occurs in `s` and satisfies `p`. */
  lemma {:induction false} FilterMembership<T>(s: seq<T>, p: T -> bool)
    ensures forall x :: x in Filter(s, p) <==> x in s && p(x)
    decreases |s|
  {
    if s != [] {
      var n := |s| - 1;
      FilterMembership(s[..n], p);
      assert s == s[..n] + [s[n]];
    }
  }

  /** When every element satisfies `p`, filtering changes nothing. */
  lemma {:induction false} FilterKeepsAll<T>(s: seq<T>, p: T -> bool)
    requires forall i :: 0 <= i < |s| ==> p(s[i])
    ensures Filter(s, p) == s
    decreases |s|
  {
    if s != [] {
      var n := |s| - 1;
      FilterKeepsAll(s[..n], p);
      assert s == s[..n] + [s[n]];
    }
  }

  /** Filters by two predicates that agree on the elements of `s` give the same result. */
  lemma {:induction false} FilterCongruence<T>(s: seq<T>, p: T -> bool, q: T -> bool)
    requires forall i :: 0 <= i < |s| ==> p(s[i]) == q(s[i])
    ensures Filter(s, p) == Filter(s, q)
    decreases |s|
  {
    if s != [] {
      FilterCongruence(s[..|s| - 1], p, q);
    }
  }
}
