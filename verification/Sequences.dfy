/** Sequences with members left out. */
module Sequences {

  /** `a` is `b` with some members left out, in the same order. */
  ghost predicate Subsequence<T>(a: seq<T>, b: seq<T>) {
    exists ix: seq<nat> :: Picks(ix, a, b)
  }

  ghost predicate Picks<T>(ix: seq<nat>, a: seq<T>, b: seq<T>) {
    && |ix| == |a|
    && (forall k :: 0 <= k < |ix| ==> ix[k] < |b| && a[k] == b[ix[k]])
    && (forall j, k :: 0 <= j < k < |ix| ==> ix[j] < ix[k])
  }

  lemma SubsequenceSelf<T>(a: seq<T>)
    ensures Subsequence(a, a)
  {
    var ix: seq<nat> := seq(|a|, i => i);
    assert Picks(ix, a, a);
  }

  lemma SubsequenceTrans<T>(a: seq<T>, b: seq<T>, c: seq<T>)
    requires Subsequence(a, b) && Subsequence(b, c)
    ensures Subsequence(a, c)
  {
    var ix: seq<nat> :| Picks(ix, a, b);
    var jx: seq<nat> :| Picks(jx, b, c);
    var kx: seq<nat> := seq(|ix|, k requires 0 <= k < |ix| => jx[ix[k]]);
    assert Picks(kx, a, c);
  }

  /** One more member, left out or kept. */
  lemma SubsequenceSnoc<T>(a: seq<T>, b: seq<T>, x: T)
    requires Subsequence(a, b)
    ensures Subsequence(a, b + [x]) && Subsequence(a + [x], b + [x])
  {
    var ix: seq<nat> :| Picks(ix, a, b);
    assert Picks(ix, a, b + [x]);
    assert Picks(ix + [|b|], a + [x], b + [x]);
  }
}
