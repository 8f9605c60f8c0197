/** Reachability in finite directed graphs. */
module Graphs {

  ghost predicate IsPath<N>(edges: set<(N, N)>, p: seq<N>) {
    |p| > 0 && forall i, j :: 0 <= i < j < |p| && j == i + 1 ==> (p[i], p[j]) in edges
  }

  ghost predicate PathFromTo<N>(edges: set<(N, N)>, p: seq<N>, x: N, y: N) {
    IsPath(edges, p) && p[0] == x && p[|p| - 1] == y
  }

  /** A path of any length, the empty one included. */
  ghost predicate Reaches<N(!new)>(edges: set<(N, N)>, x: N, y: N) {
    exists p :: PathFromTo(edges, p, x, y)
  }

  /** A path of at least one edge. */
  ghost predicate ReachesPlus<N(!new)>(edges: set<(N, N)>, x: N, y: N) {
    exists z :: (x, z) in edges && Reaches(edges, z, y)
  }

  lemma ReachesSelf<N(!new)>(edges: set<(N, N)>, x: N)
    ensures Reaches(edges, x, x)
  {
    assert PathFromTo(edges, [x], x, x);
  }

  lemma ReachesTrans<N(!new)>(edges: set<(N, N)>, x: N, y: N, z: N)
    requires Reaches(edges, x, y) && Reaches(edges, y, z)
    ensures Reaches(edges, x, z)
  {
    var p :| PathFromTo(edges, p, x, y);
    var q :| PathFromTo(edges, q, y, z);
    assert PathFromTo(edges, p + q[1..], x, z);
  }

  lemma ReachesEdge<N(!new)>(edges: set<(N, N)>, x: N, y: N)
    requires (x, y) in edges
    ensures Reaches(edges, x, y)
  {
    assert PathFromTo(edges, [x, y], x, y);
  }

  lemma ReachesStep<N(!new)>(edges: set<(N, N)>, x: N, y: N, z: N)
    requires Reaches(edges, x, y) && (y, z) in edges
    ensures Reaches(edges, x, z)
  {
    ReachesEdge(edges, y, z);
    ReachesTrans(edges, x, y, z);
  }

  lemma PlusStep<N(!new)>(edges: set<(N, N)>, x: N, y: N, z: N)
    requires ReachesPlus(edges, x, y) && (y, z) in edges
    ensures ReachesPlus(edges, x, z)
  {
    var w :| (x, w) in edges && Reaches(edges, w, y);
    ReachesStep(edges, w, y, z);
  }

  /** A path of any length is empty or has a first edge. */
  lemma ReachesSplit<N(!new)>(edges: set<(N, N)>, x: N, y: N)
    ensures Reaches(edges, x, y) <==> x == y || ReachesPlus(edges, x, y)
  {
    if Reaches(edges, x, y) && x != y {
      var p :| PathFromTo(edges, p, x, y);
      assert (p[0], p[1]) in edges;
      assert PathFromTo(edges, p[1..], p[1], y);
    }
    if x == y { ReachesSelf(edges, x); }
    if ReachesPlus(edges, x, y) {
      var w :| (x, w) in edges && Reaches(edges, w, y);
      ReachesEdge(edges, x, w);
      ReachesTrans(edges, x, w, y);
    }
  }

  lemma PlusTrans<N(!new)>(edges: set<(N, N)>, x: N, y: N, z: N)
    requires ReachesPlus(edges, x, y) && ReachesPlus(edges, y, z)
    ensures ReachesPlus(edges, x, z)
  {
    var w :| (x, w) in edges && Reaches(edges, w, y);
    ReachesSplit(edges, y, z);
    ReachesTrans(edges, w, y, z);
  }

  ghost predicate ClosedUnder<N(!new)>(edges: set<(N, N)>, s: set<N>) {
    forall x, y :: x in s && (x, y) in edges ==> y in s
  }

  /** A closed set holds everything its members reach. */
  lemma {:induction false} ClosedReaches<N(!new)>(edges: set<(N, N)>, s: set<N>, x: N, y: N)
    requires ClosedUnder(edges, s) && x in s && Reaches(edges, x, y)
    ensures y in s
  {
    var p :| PathFromTo(edges, p, x, y);
    PathStays(edges, s, p, |p| - 1);
  }

  lemma {:induction false} PathStays<N(!new)>(edges: set<(N, N)>, s: set<N>, p: seq<N>, k: nat)
    requires ClosedUnder(edges, s) && IsPath(edges, p) && p[0] in s && k < |p|
    ensures p[k] in s
  {
    if k > 0 {
      PathStays(edges, s, p, k - 1);
      assert (p[k - 1], p[k]) in edges;
    }
  }

  /** More edges, more paths. */
  lemma ReachesMono<N(!new)>(edges: set<(N, N)>, more: set<(N, N)>, x: N, y: N)
    requires edges <= more && Reaches(edges, x, y)
    ensures Reaches(more, x, y)
  {
    var p :| PathFromTo(edges, p, x, y);
    assert PathFromTo(more, p, x, y);
  }

  /** A path of at least one edge has a last one. */
  lemma PlusLast<N(!new)>(edges: set<(N, N)>, a: N, b: N) returns (z: N)
    requires ReachesPlus(edges, a, b)
    ensures Reaches(edges, a, z) && (z, b) in edges
  {
    var w :| (a, w) in edges && Reaches(edges, w, b);
    var p :| PathFromTo(edges, p, w, b);
    var q := [a] + p;
    assert IsPath(edges, q);
    z := q[|q| - 2];
    assert PathFromTo(edges, q[..|q| - 1], a, z);
    assert (q[|q| - 2], q[|q| - 1]) in edges;
  }

  lemma PlusFrom<N(!new)>(edges: set<(N, N)>, a: N, n: N, b: N)
    requires Reaches(edges, a, n) && (n, b) in edges
    ensures ReachesPlus(edges, a, b)
  {
    ReachesSplit(edges, a, n);
    if a == n { ReachesSelf(edges, b); } else { PlusStep(edges, a, n, b); }
  }

  // ----- walking a graph with a stack -----

  ghost predicate Within<N(!new)>(edges: set<(N, N)>, nodes: set<N>) {
    forall a, b :: (a, b) in edges ==> a in nodes && b in nodes
  }

  ghost predicate IsReach<N(!new)>(edges: set<(N, N)>, n: N, seen: set<N>) {
    forall y :: y in seen <==> Reaches(edges, n, y)
  }

  function Successors<N(!new)>(edges: set<(N, N)>, x: N): (r: set<N>)
    ensures forall y :: y in r <==> (x, y) in edges
  {
    set e | e in edges && e.0 == x :: e.1
  }

  ghost predicate Stacked<N(!new)>(edges: set<(N, N)>, n: N, seen: set<N>, st: seq<N>) {
    && n in seen
    && (forall y :: y in st ==> y in seen)
    && (forall y :: y in seen ==> Reaches(edges, n, y))
    && (forall a, b :: a in seen && (a, b) in edges && a !in st ==> b in seen)
  }

  ghost predicate Expanding<N(!new)>(edges: set<(N, N)>, n: N, x: N, todo: set<N>, seen: set<N>, st: seq<N>) {
    && n in seen && x in seen
    && (forall y :: y in st ==> y in seen)
    && (forall y :: y in seen ==> Reaches(edges, n, y))
    && (forall a, b :: a in seen && (a, b) in edges && a !in st && a != x ==> b in seen)
    && (forall b :: (x, b) in edges ==> b in seen || b in todo)
    && (forall b :: b in todo ==> (x, b) in edges)
  }

  lemma StackDone<N(!new)>(edges: set<(N, N)>, n: N, seen: set<N>)
    requires Stacked(edges, n, seen, [])
    ensures forall y :: y in seen <==> Reaches(edges, n, y)
  {
    forall y | Reaches(edges, n, y) ensures y in seen { ClosedReaches(edges, seen, n, y); }
  }

  lemma ExpandStep<N(!new)>(edges: set<(N, N)>, n: N, x: N, todo: set<N>, seen: set<N>, st: seq<N>, y: N)
    requires Expanding(edges, n, x, todo, seen, st) && y in todo
    ensures y in seen ==> Expanding(edges, n, x, todo - {y}, seen, st)
    ensures y !in seen ==> Expanding(edges, n, x, todo - {y}, seen + {y}, st + [y])
  {
    ReachesStep(edges, n, x, y);
  }

  lemma PopStack<N(!new)>(edges: set<(N, N)>, n: N, seen: set<N>, st: seq<N>)
    requires st != [] && Stacked(edges, n, seen, st)
    ensures Expanding(edges, n, st[|st| - 1], Successors(edges, st[|st| - 1]), seen, st[..|st| - 1])
  {
    var k := |st| - 1;
    assert st == st[..k] + [st[k]];
  }

  lemma FewerLeft<N>(nodes: set<N>, seen: set<N>, y: N)
    requires y in nodes && y !in seen
    ensures |nodes - (seen + {y})| < |nodes - seen|
  {
    assert nodes - (seen + {y}) == (nodes - seen) - {y};
  }
}
