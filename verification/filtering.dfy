/** `Array.prototype.filter` on sequences: keep, in order, the elements a
    predicate accepts. Both the client-side search and the client-side delete
    are instances. */
module Filtering {

  /** Keeps the elements of `s` that `p` accepts, in their original order.
      The result holds each accepted value exactly as often as `s` does, and
      no rejected value. */
  function Filter<T(!new)>(s: seq<T>, p: T -> bool): (r: seq<T>)
    ensures |r| <= |s|
    ensures forall x :: multiset(r)[x] == if p(x) then multiset(s)[x] else 0
    ensures forall i :: 0 <= i < |r| ==> p(r[i])
    ensures forall i :: 0 <= i < |s| && p(s[i]) ==> s[i] in r
  {
    if |s| == 0 then []
    else
      var rest := Filter(s[1..], p);
      assert s == [s[0]] + s[1..];
      assert multiset(s) == multiset{s[0]} + multiset(s[1..]);
      assert forall i :: 1 <= i < |s| ==> s[i] == s[1..][i - 1];
      if p(s[0]) then [s[0]] + rest else rest
  }

  /** `idx` picks out the elements of `r` from `s` at strictly increasing
      positions: `r` is a subsequence of `s` in the same relative order. */
  ghost predicate Embedding<T>(r: seq<T>, s: seq<T>, idx: seq<int>)
  {
    && |idx| == |r|
    && (forall k :: 0 <= k < |idx| ==> 0 <= idx[k] < |s| && r[k] == s[idx[k]])
    && (forall k, l :: 0 <= k < l < |idx| ==> idx[k] < idx[l])
  }

  /** Every position moved one place to the right. */
  function Shift(idx: seq<int>): seq<int>
  {
    seq(|idx|, k requires 0 <= k < |idx| => idx[k] + 1)
  }

  /** An embedding into the tail of `s` is an embedding into `s`, shifted. */
  lemma EmbeddingInTail<T>(r: seq<T>, s: seq<T>, idx: seq<int>)
    requires |s| > 0 && Embedding(r, s[1..], idx)
    ensures Embedding(r, s, Shift(idx))
    ensures forall k :: 0 <= k < |idx| ==> Shift(idx)[k] >= 1
  {
    forall k | 0 <= k < |idx| ensures r[k] == s[Shift(idx)[k]] {
      assert s[1..][idx[k]] == s[idx[k] + 1];
    }
  }

  /** The head of `s` can be put in front of an embedding that avoids it. */
  lemma EmbeddingCons<T>(r: seq<T>, s: seq<T>, idx: seq<int>)
    requires |s| > 0 && Embedding(r, s, idx)
    requires forall k :: 0 <= k < |idx| ==> idx[k] >= 1
    ensures Embedding([s[0]] + r, s, [0] + idx)
  {
    var full := [0] + idx;
    var rr := [s[0]] + r;
    forall k | 1 <= k < |full| ensures full[k] == idx[k - 1] && rr[k] == r[k - 1] {
    }
  }

  /** The kept elements appear in `s` in the order in which they are kept. */
  lemma {:induction false} FilterIsSubsequence<T(!new)>(s: seq<T>, p: T -> bool)
    ensures exists idx :: Embedding(Filter(s, p), s, idx)
  {
    if |s| == 0 {
      assert Embedding(Filter(s, p), s, []);
    } else {
      FilterIsSubsequence(s[1..], p);
      var rest := Filter(s[1..], p);
      var idx :| Embedding(rest, s[1..], idx);
      EmbeddingInTail(rest, s, idx);
      if p(s[0]) {
        EmbeddingCons(rest, s, Shift(idx));
        assert Embedding(Filter(s, p), s, [0] + Shift(idx));
      } else {
        assert Embedding(Filter(s, p), s, Shift(idx));
      }
    }
  }

  /** Filtering a second time with the same predicate changes nothing. */
  lemma {:induction false} FilterIdempotent<T(!new)>(s: seq<T>, p: T -> bool)
    ensures Filter(Filter(s, p), p) == Filter(s, p)
  {
    if |s| != 0 {
      FilterIdempotent(s[1..], p);
    }
  }

  /** When the predicate accepts every element, the filter is the identity. */
  lemma {:induction false} FilterKeepsAll<T(!new)>(s: seq<T>, p: T -> bool)
    requires forall i :: 0 <= i < |s| ==> p(s[i])
    ensures Filter(s, p) == s
  {
    if |s| != 0 {
      FilterKeepsAll(s[1..], p);
    }
  }
}
