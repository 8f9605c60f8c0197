/** Transitive closures of class hierarchies: the readers' closure, the differ's, and the memoised
    one the differ keeps as a warning. */
module Closures {
  import opened Graphs

  type Iri = string
  type Pair = (Iri, Iri)

  const THING: Iri := "http://www.w3.org/2002/07/owl#Thing"
  const NOTHING: Iri := "http://www.w3.org/2002/07/owl#Nothing"
  const THINGS: set<Iri> := {THING, "Thing", "owl:Thing"}
  const NOTHINGS: set<Iri> := {NOTHING, "Nothing", "owl:Nothing"}

  // ----- what the closures are about -----

  /** The stated edges, and a clique for each equivalence group. */
  function GraphOf(edges: seq<Pair>, groups: seq<seq<Iri>>): (g: set<Pair>)
    ensures forall e :: e in g <==> e in edges || InClique(groups, e)
  {
    (set e | e in edges) + set grp, a, b | grp in groups && a in grp && b in grp && a != b :: (a, b)
  }

  predicate InClique(groups: seq<seq<Iri>>, e: Pair) {
    e.0 != e.1 && exists grp :: grp in groups && e.0 in grp && e.1 in grp
  }

  /** Joined by a path of at least one edge, both ends kept. */
  ghost predicate ClosurePair(edges: seq<Pair>, groups: seq<seq<Iri>>, drop: set<Iri>, p: Pair) {
    && p.0 != p.1 && ReachesPlus(GraphOf(edges, groups), p.0, p.1)
    && p.0 !in drop + THINGS + NOTHINGS && p.1 !in drop + THINGS + NOTHINGS
  }

  // ----- the readers' closure -----

  method BuildGraph(edges: seq<Pair>, groups: seq<seq<Iri>>) returns (g: set<Pair>)
    ensures g == GraphOf(edges, groups)
  {
    g := {};
    for k := 0 to |edges|
      invariant g == set e | e in edges[..k]
    {
      assert edges[..k + 1] == edges[..k] + [edges[k]];
      g := g + {edges[k]};
    }
    assert edges[..|edges|] == edges;
    ghost var base := g;
    for k := 0 to |groups|
      invariant g == base + set grp, a, b | grp in groups[..k] && a in grp && b in grp && a != b :: (a, b)
    {
      assert groups[..k + 1] == groups[..k] + [groups[k]];
      g := g + set a, b | a in groups[k] && b in groups[k] && a != b :: (a, b);
    }
    assert groups[..|groups|] == groups;
  }

  /** The members of a set, in some order. */
  method Listed<T(==)>(s: set<T>) returns (v: seq<T>)
    ensures forall x :: x in v <==> x in s
  {
    v := [];
    var left := s;
    while left != {}
      invariant left <= s && forall x :: x in v <==> x in s && x !in left
      decreases |left|
    {
      var x :| x in left;
      left := left - {x};
      v := v + [x];
    }
  }

  /** A walk that may stack a node more than once. */
  ghost predicate Walking<N(!new)>(g: set<(N, N)>, s: N, seen: set<N>, st: seq<N>) {
    && (forall x :: x in seen || x in st ==> ReachesPlus(g, s, x))
    && (forall y :: (s, y) in g ==> y in seen || y in st)
    && (forall x, y :: x in seen && (x, y) in g ==> y in seen || y in st)
  }

  lemma WalkStart<N(!new)>(g: set<(N, N)>, s: N, st: seq<N>)
    requires forall y :: y in st <==> (s, y) in g
    ensures Walking(g, s, {}, st)
  {
    forall y | y in st ensures ReachesPlus(g, s, y) { ReachesSelf(g, y); }
  }

  lemma WalkStep<N(!new)>(g: set<(N, N)>, s: N, seen: set<N>, st: seq<N>, next: seq<N>)
    requires st != [] && Walking(g, s, seen, st) && forall y :: y in next <==> (st[|st| - 1], y) in g
    ensures st[|st| - 1] in seen ==> Walking(g, s, seen, st[..|st| - 1])
    ensures Walking(g, s, seen + {st[|st| - 1]}, st[..|st| - 1] + next)
  {
    var k := |st| - 1;
    assert st == st[..k] + [st[k]];
    forall y | y in next ensures ReachesPlus(g, s, y) { PlusStep(g, s, st[k], y); }
    if st[k] in seen { WalkSkip(g, s, seen, st); }
  }

  lemma WalkSkip<N(!new)>(g: set<(N, N)>, s: N, seen: set<N>, st: seq<N>)
    requires st != [] && Walking(g, s, seen, st) && st[|st| - 1] in seen
    ensures Walking(g, s, seen, st[..|st| - 1])
  {
    var k := |st| - 1;
    assert st == st[..k] + [st[k]];
  }

  lemma WalkDone<N(!new)>(g: set<(N, N)>, s: N, seen: set<N>)
    requires Walking(g, s, seen, [])
    ensures forall x :: x in seen <==> ReachesPlus(g, s, x)
  {
    forall x | ReachesPlus(g, s, x) ensures x in seen {
      var z :| (s, z) in g && Reaches(g, z, x);
      ClosedReaches(g, seen, z, x);
    }
  }

  ghost function Ends(g: set<Pair>): (r: set<Iri>)
    ensures Within(g, r)
  {
    var r := (set e | e in g :: e.0) + set e | e in g :: e.1;
    assert Within(g, r) by {
      forall a, b | (a, b) in g ensures a in r && b in r { assert (a, b).0 in r && (a, b).1 in r; }
    }
    r
  }

  ghost predicate AllIn<T>(v: seq<T>, s: set<T>) {
    forall x :: x in v ==> x in s
  }

  lemma AllInStep<T>(v: seq<T>, s: set<T>, next: seq<T>)
    requires v != [] && AllIn(v, s) && AllIn(next, s)
    ensures v[|v| - 1] in s && AllIn(v[..|v| - 1], s) && AllIn(v[..|v| - 1] + next, s)
  {
    assert v == v[..|v| - 1] + [v[|v| - 1]];
  }

  /** Everything a non-empty path leads to from `s`. */
  method Walk(g: set<Pair>, s: Iri) returns (seen: set<Iri>)
    ensures forall x :: x in seen <==> ReachesPlus(g, s, x)
  {
    ghost var nodes := Ends(g);
    seen := {};
    var st := Listed(Successors(g, s));
    WalkStart(g, s, st);
    assert AllIn(st, nodes) by { forall y | y in st ensures y in nodes { assert (s, y) in g; } }
    while st != []
      invariant Walking(g, s, seen, st) && seen <= nodes && AllIn(st, nodes)
      decreases |nodes - seen|, |st|
    {
      var x := st[|st| - 1];
      var next := Listed(Successors(g, x));
      assert AllIn(next, nodes) by { forall y | y in next ensures y in nodes { assert (x, y) in g; } }
      AllInStep(st, nodes, next);
      WalkStep(g, s, seen, st, next);
      st := st[..|st| - 1];
      if x in seen {
        continue;
      }
      FewerLeft(nodes, seen, x);
      seen := seen + {x};
      st := st + next;
    }
    WalkDone(g, s, seen);
  }

  /** The pairs joined by a non-empty path, without the diagonal and the dropped ends. */
  method Closure(edges: seq<Pair>, groups: seq<seq<Iri>>, drop: set<Iri>) returns (r: set<Pair>)
    ensures forall p :: p in r <==> ClosurePair(edges, groups, drop, p)
  {
    var g := BuildGraph(edges, groups);
    var out := OffDiagonal(g);
    var bad := drop + THINGS + NOTHINGS;
    r := set p | p in out && p.0 !in bad && p.1 !in bad;
  }

  method OffDiagonal(g: set<Pair>) returns (out: set<Pair>)
    ensures forall p :: p in out <==> p.0 != p.1 && ReachesPlus(g, p.0, p.1)
  {
    var todo := set e | e in g :: e.0;
    ghost var sources := todo;
    out := {};
    while todo != {}
      invariant todo <= sources
      invariant forall p :: p in out <==> p.0 in sources - todo && p.0 != p.1 && ReachesPlus(g, p.0, p.1)
      decreases |todo|
    {
      var s :| s in todo;
      todo := todo - {s};
      var seen := Walk(g, s);
      out := out + set t | t in seen && t != s :: (s, t);
    }
    forall p: Pair | ReachesPlus(g, p.0, p.1) ensures p.0 in sources {
      var z :| (p.0, z) in g && Reaches(g, z, p.1);
      assert (p.0, z).0 in sources;
    }
  }

  // ----- a peer's answer -----

  function Norm(i: Iri): Iri {
    if i in THINGS then THING else if i in NOTHINGS then NOTHING else i
  }

  function NormEdges(edges: seq<Pair>): seq<Pair> {
    seq(|edges|, k requires 0 <= k < |edges| => (Norm(edges[k].0), Norm(edges[k].1)))
  }

  function NormAll(v: seq<Iri>): (r: seq<Iri>)
    ensures |r| == |v| && forall k :: 0 <= k < |v| ==> r[k] == Norm(v[k])
  {
    seq(|v|, k requires 0 <= k < |v| => Norm(v[k]))
  }

  function NormGroups(groups: seq<seq<Iri>>): seq<seq<Iri>> {
    seq(|groups|, k requires 0 <= k < |groups| => NormAll(groups[k]))
  }

  /** Stated equivalent to ⊤: in a group with it, or above it and not ⊥. */
  ghost predicate ThingEquivalent(edges: seq<Pair>, groups: seq<seq<Iri>>, c: Iri) {
    || (c != THING && exists grp :: grp in groups && THING in grp && c in grp)
    || (c != NOTHING && (THING, c) in edges)
  }

  class Hierarchy {
    const edges: seq<Pair>
    const groups: seq<seq<Iri>>
    const consistent: bool
    const unsat: set<Iri>
    const thingEquiv: set<Iri>
    const full: set<Pair>

    ghost predicate Valid() {
      && (forall c :: c in thingEquiv <==> ThingEquivalent(edges, groups, c) && c != NOTHING && c !in unsat)
      && (forall p :: p in full <==> ClosurePair(edges, groups, {}, p))
      && THING !in unsat && NOTHING !in unsat
    }

    constructor (edges: seq<Pair>, groups: seq<seq<Iri>>, unsat: set<Iri>)
      ensures Valid() && this.edges == NormEdges(edges) && this.groups == NormGroups(groups)
      ensures consistent <==> !exists u :: u in unsat && u in THINGS
      ensures forall c :: c in this.unsat <==> c in unsat && c !in THINGS + NOTHINGS
    {
      var es, gs := NormEdges(edges), NormGroups(groups);
      var us := set u | u in unsat :: Norm(u);
      var te := (set g, c | g in gs && THING in g && c in g && c != THING :: c) + (set e | e in es && e.0 == THING && e.1 != NOTHING :: e.1);
      var f := Closure(es, gs, {});
      this.edges, this.groups := es, gs;
      this.consistent := THING !in us;
      this.unsat := us - {THING, NOTHING};
      this.thingEquiv := te - {NOTHING} - (us - {THING, NOTHING});
      this.full := f;
      new;
      forall c ensures c in te <==> ThingEquivalent(es, gs, c) {
        if c != NOTHING && (THING, c) in es { assert (THING, c).1 in te; }
      }
      forall c ensures c in this.unsat <==> c in unsat && c !in THINGS + NOTHINGS {
        if c in unsat { assert Norm(c) in us; }
      }
      if u :| u in unsat && u in THINGS { assert Norm(u) in us; }
    }

    function PairsWithout(exclude: set<Iri>): (r: set<Pair>)
      ensures forall p :: p in r <==> p in full && p.0 !in exclude && p.1 !in exclude
    {
      set p | p in full && p.0 !in exclude && p.1 !in exclude
    }

    /** This answer's closure: between classes it holds satisfiable and below ⊤ properly. */
    function OwnClosure(): (r: set<Pair>)
      requires Valid()
      ensures forall p :: p in r <==> ClosurePair(edges, groups, unsat + thingEquiv, p)
    {
      PairsWithout(unsat + thingEquiv)
    }
  }

  function KeptEdges(edges: seq<Pair>): (r: seq<Pair>)
    ensures forall e :: e in r <==> e in edges && (e.1 !in NOTHINGS || e.0 in NOTHINGS)
    decreases |edges|
  {
    if edges == [] then []
    else
      var n := |edges| - 1;
      assert edges == edges[..n] + [edges[n]];
      KeptEdges(edges[..n]) + if edges[n].1 in NOTHINGS && edges[n].0 !in NOTHINGS then [] else [edges[n]]
  }

  function KeptGroups(groups: seq<seq<Iri>>): (r: seq<seq<Iri>>)
    ensures forall g :: g in r <==> g in groups && !HasNothing(g)
    decreases |groups|
  {
    if groups == [] then []
    else
      var n := |groups| - 1;
      assert groups == groups[..n] + [groups[n]];
      KeptGroups(groups[..n]) + if HasNothing(groups[n]) then [] else [groups[n]]
  }

  /** Routes what is stated below ⊥ to the unsatisfiable classes, and keeps the rest in order. */
  method SplitUnsat(edges: seq<Pair>, groups: seq<seq<Iri>>) returns (keepE: seq<Pair>, keepG: seq<seq<Iri>>, unsat: set<Iri>)
    ensures keepE == KeptEdges(edges) && keepG == KeptGroups(groups)
    ensures forall u :: u in unsat <==> StatedUnsat(edges, groups, u)
  {
    var unsatE, unsatG;
    keepE, unsatE := SplitEdges(edges);
    keepG, unsatG := SplitGroups(groups);
    unsat := unsatE + unsatG;
  }

  method SplitEdges(edges: seq<Pair>) returns (keepE: seq<Pair>, unsat: set<Iri>)
    ensures keepE == KeptEdges(edges) && forall u :: u in unsat <==> UnsatEdge(edges, u)
  {
    keepE, unsat := [], {};
    for k := 0 to |edges|
      invariant keepE == KeptEdges(edges[..k]) && forall u :: u in unsat <==> UnsatEdge(edges[..k], u)
    {
      assert edges[..k + 1][..k] == edges[..k];
      UnsatEdgeStep(edges, k);
      var (s, t) := edges[k];
      if t in NOTHINGS && s !in NOTHINGS {
        unsat := unsat + {Norm(s)};
      } else {
        keepE := keepE + [(s, t)];
      }
    }
    assert edges[..|edges|] == edges;
  }

  method SplitGroups(groups: seq<seq<Iri>>) returns (keepG: seq<seq<Iri>>, unsat: set<Iri>)
    ensures keepG == KeptGroups(groups) && forall u :: u in unsat <==> UnsatMember(groups, u)
  {
    keepG, unsat := [], {};
    for k := 0 to |groups|
      invariant keepG == KeptGroups(groups[..k]) && forall u :: u in unsat <==> UnsatMember(groups[..k], u)
    {
      assert groups[..k + 1][..k] == groups[..k];
      UnsatMemberStep(groups, k);
      var g := groups[k];
      if HasNothing(g) {
        unsat := unsat + set m | m in g && m !in NOTHINGS :: Norm(m);
      } else {
        keepG := keepG + [g];
      }
    }
    assert groups[..|groups|] == groups;
  }

  predicate HasNothing(g: seq<Iri>) {
    exists m :: m in g && m in NOTHINGS
  }

  ghost predicate UnsatEdge(edges: seq<Pair>, u: Iri) {
    exists e :: e in edges && e.1 in NOTHINGS && e.0 !in NOTHINGS && u == Norm(e.0)
  }

  ghost predicate UnsatMember(groups: seq<seq<Iri>>, u: Iri) {
    exists g :: g in groups && UnsatIn(g, u)
  }

  ghost predicate UnsatIn(g: seq<Iri>, u: Iri) {
    exists m :: InNothingGroup(g, m) && u == Norm(m)
  }

  ghost predicate InNothingGroup(g: seq<Iri>, m: Iri) {
    HasNothing(g) && m in g && m !in NOTHINGS
  }

  ghost predicate StatedUnsat(edges: seq<Pair>, groups: seq<seq<Iri>>, u: Iri) {
    UnsatEdge(edges, u) || UnsatMember(groups, u)
  }

  lemma UnsatEdgeStep(edges: seq<Pair>, k: nat)
    requires k < |edges|
    ensures forall u :: UnsatEdge(edges[..k + 1], u) <==>
      UnsatEdge(edges[..k], u) || (edges[k].1 in NOTHINGS && edges[k].0 !in NOTHINGS && u == Norm(edges[k].0))
  {
    assert edges[..k + 1] == edges[..k] + [edges[k]];
    assert edges[k] in edges[..k + 1];
  }

  lemma UnsatMemberStep(groups: seq<seq<Iri>>, k: nat)
    requires k < |groups|
    ensures forall u :: UnsatMember(groups[..k + 1], u) <==> UnsatMember(groups[..k], u) || UnsatIn(groups[k], u)
  {
    assert groups[..k + 1] == groups[..k] + [groups[k]];
    forall u | UnsatMember(groups[..k], u) ensures UnsatMember(groups[..k + 1], u) {
      var g :| g in groups[..k] && UnsatIn(g, u);
      assert g in groups[..k + 1];
    }
    forall u | UnsatIn(groups[k], u) ensures UnsatMember(groups[..k + 1], u) { assert groups[k] in groups[..k + 1]; }
    forall u | UnsatMember(groups[..k + 1], u) ensures UnsatMember(groups[..k], u) || UnsatIn(groups[k], u) {
      var g :| g in groups[..k + 1] && UnsatIn(g, u);
      if g in groups[..k] { assert UnsatMember(groups[..k], u); }
    }
  }

  // ----- the differ's closure -----

  type Adjacency = map<Iri, set<Iri>>

  function AdjacentTo(adj: Adjacency, x: Iri): set<Iri> {
    if x in adj then adj[x] else {}
  }

  function EdgesIn(adj: Adjacency): (g: set<Pair>)
    ensures forall a, b :: (a, b) in g <==> b in AdjacentTo(adj, a)
  {
    set a, b | a in adj && b in adj[a] :: (a, b)
  }

  /** The graph without its self-loops. */
  function Proper(g: set<Pair>): (r: set<Pair>)
    ensures forall e :: e in r <==> e in g && e.0 != e.1
  {
    set e | e in g && e.0 != e.1
  }

  /** Every end of an edge is a key. */
  ghost predicate Complete(adj: Adjacency) {
    forall a, b :: a in adj && b in adj[a] ==> b in adj
  }

  function WithEdge(adj: Adjacency, a: Iri, b: Iri): (r: Adjacency)
    requires a != b
    ensures EdgesIn(r) == EdgesIn(adj) + {(a, b)} && (Complete(adj) ==> Complete(r))
  {
    var adj1 := adj[a := AdjacentTo(adj, a) + {b}];
    adj1[b := AdjacentTo(adj1, b)]
  }

  method BuildAdjacency(edges: seq<Pair>, groups: seq<seq<Iri>>) returns (adj: Adjacency)
    ensures Complete(adj) && EdgesIn(adj) == Proper(GraphOf(edges, groups))
  {
    adj := AddEdges(edges);
    ghost var base := EdgesIn(adj);
    for k := 0 to |groups|
      invariant Complete(adj) && EdgesIn(adj) == base + Cliques(groups[..k])
    {
      CliquesStep(groups, k);
      adj := AddClique(adj, groups[k]);
    }
    assert groups[..|groups|] == groups;
    CliquesAre(edges, groups, base);
  }

  lemma CliquesAre(edges: seq<Pair>, groups: seq<seq<Iri>>, base: set<Pair>)
    requires forall e :: e in base <==> e in edges && e.0 != e.1
    ensures base + Cliques(groups) == Proper(GraphOf(edges, groups))
  {
    forall e ensures e in Cliques(groups) <==> InClique(groups, e) {
      if InClique(groups, e) {
        var grp :| grp in groups && e.0 in grp && e.1 in grp;
        assert e == (e.0, e.1) && e in Clique(grp);
      }
    }
  }

  method AddEdges(edges: seq<Pair>) returns (adj: Adjacency)
    ensures Complete(adj) && forall e :: e in EdgesIn(adj) <==> e in edges && e.0 != e.1
  {
    adj := map[];
    for k := 0 to |edges|
      invariant Complete(adj) && forall e :: e in EdgesIn(adj) <==> e in edges[..k] && e.0 != e.1
    {
      assert edges[..k + 1] == edges[..k] + [edges[k]];
      if edges[k].0 != edges[k].1 {
        adj := WithEdge(adj, edges[k].0, edges[k].1);
      }
    }
    assert edges[..|edges|] == edges;
  }

  ghost function Clique(grp: seq<Iri>): set<Pair> {
    set a, b | a in grp && b in grp && a != b :: (a, b)
  }

  ghost function Cliques(groups: seq<seq<Iri>>): set<Pair> {
    set grp, e | grp in groups && e in Clique(grp) :: e
  }

  lemma CliquesStep(groups: seq<seq<Iri>>, k: nat)
    requires k < |groups|
    ensures Cliques(groups[..k + 1]) == Cliques(groups[..k]) + Clique(groups[k])
  {
    assert groups[..k + 1] == groups[..k] + [groups[k]];
  }

  /** Both directions between every two members. */
  method AddClique(adj: Adjacency, members: seq<Iri>) returns (r: Adjacency)
    requires Complete(adj)
    ensures Complete(r) && EdgesIn(r) == EdgesIn(adj) + Clique(members)
  {
    r := adj;
    for i := 0 to |members|
      invariant Complete(r)
      invariant forall e :: e in EdgesIn(r) <==> e in EdgesIn(adj) || (e.0 in members[..i] && e.1 in members && e.0 != e.1)
    {
      for j := 0 to |members|
        invariant Complete(r)
        invariant forall e :: e in EdgesIn(r) <==> (e in EdgesIn(adj) ||
          (e.0 != e.1 && ((e.0 in members[..i] && e.1 in members) || (e.0 == members[i] && e.1 in members[..j]))))
      {
        assert members[..j + 1] == members[..j] + [members[j]];
        if members[i] != members[j] {
          r := WithEdge(r, members[i], members[j]);
        }
      }
      assert members[..|members|] == members;
      assert members[..i + 1] == members[..i] + [members[i]];
    }
    assert members[..|members|] == members;
  }

  ghost function HeadsAnd(g: set<Pair>, start: Iri): (r: set<Iri>)
    ensures start in r && forall e :: e in g ==> e.1 in r
  {
    {start} + set e | e in g :: e.1
  }

  /** One popped node: its successors not yet visited are visited and queued. */
  method Visit(ghost g: set<Pair>, ghost nodes: set<Iri>, ghost start: Iri, node: Iri, next: set<Iri>, visited: set<Iri>, queue: seq<Iri>, out: set<Iri>)
    returns (visited': set<Iri>, queue': seq<Iri>, out': set<Iri>)
    requires Expanding(g, start, node, next, visited, queue) && visited <= nodes && out == visited - {start}
    requires start in visited && next <= nodes && forall y :: y in next ==> (node, y) in g
    ensures Expanding(g, start, node, {}, visited', queue') && visited <= visited' <= nodes && out' == visited' - {start}
    ensures |nodes - visited'| < |nodes - visited| || (visited' == visited && |queue'| == |queue|)
  {
    var todo := next;
    visited', queue', out' := visited, queue, out;
    while todo != {}
      invariant todo <= next && Expanding(g, start, node, todo, visited', queue') && visited <= visited' <= nodes && out' == visited' - {start}
      invariant |nodes - visited'| < |nodes - visited| || (visited' == visited && |queue'| == |queue|)
      decreases |todo|
    {
      var y :| y in todo;
      ExpandStep(g, start, node, todo, visited', queue', y);
      todo := todo - {y};
      if y !in visited' {
        FewerLeft(nodes, visited', y);
        visited', queue', out' := visited' + {y}, queue' + [y], out' + {y};
      }
    }
  }

  /** Everything reachable from `start` but `start` itself. */
  method AncestorsBfs(start: Iri, adj: Adjacency) returns (out: set<Iri>)
    ensures forall x :: x in out <==> x != start && Reaches(EdgesIn(adj), start, x)
  {
    ghost var g := EdgesIn(adj);
    ghost var nodes := HeadsAnd(g, start);
    var visited := {start};
    var queue := [start];
    out := {};
    ReachesSelf(g, start);
    while queue != []
      invariant Stacked(g, start, visited, queue) && start in visited && visited <= nodes && out == visited - {start}
      decreases |nodes - visited|, |queue|
    {
      var node := queue[|queue| - 1];
      PopStack(g, start, visited, queue);
      var next := AdjacentTo(adj, node);
      assert next == Successors(g, node);
      forall y | y in next ensures y in nodes { assert (node, y) in g && (node, y).1 in nodes; }
      visited, queue, out := Visit(g, nodes, start, node, next, visited, queue[..|queue| - 1], out);
    }
    StackDone(g, start, visited);
  }

  method TransitiveClosure(adj: Adjacency) returns (out: set<Pair>)
    ensures forall p :: p in out <==> p.0 != p.1 && ReachesPlus(EdgesIn(adj), p.0, p.1)
  {
    var todo := adj.Keys;
    out := {};
    while todo != {}
      invariant todo <= adj.Keys
      invariant forall p :: p in out <==> p.0 in adj.Keys - todo && p.0 != p.1 && Reaches(EdgesIn(adj), p.0, p.1)
      decreases |todo|
    {
      var node :| node in todo;
      todo := todo - {node};
      var above := AncestorsBfs(node, adj);
      out := out + set x | x in above :: (node, x);
    }
    forall p ensures p in out <==> p.0 != p.1 && ReachesPlus(EdgesIn(adj), p.0, p.1) {
      ReachesSplit(EdgesIn(adj), p.0, p.1);
      if ReachesPlus(EdgesIn(adj), p.0, p.1) {
        var z :| (p.0, z) in EdgesIn(adj) && Reaches(EdgesIn(adj), z, p.1);
      }
    }
  }

  /** Self-loops join no two different nodes. */
  lemma ProperReaches(g: set<Pair>, x: Iri, y: Iri)
    ensures Reaches(Proper(g), x, y) <==> Reaches(g, x, y)
  {
    if Reaches(Proper(g), x, y) { ReachesMono(Proper(g), g, x, y); }
    if Reaches(g, x, y) {
      var p :| PathFromTo(g, p, x, y);
      ProperPath(g, p, |p| - 1);
    }
  }

  lemma {:induction false} ProperPath(g: set<Pair>, p: seq<Iri>, k: nat)
    requires IsPath(g, p) && k < |p|
    ensures Reaches(Proper(g), p[0], p[k])
  {
    if k == 0 {
      ReachesSelf(Proper(g), p[0]);
    } else {
      ProperPath(g, p, k - 1);
      assert (p[k - 1], p[k]) in g;
      if p[k - 1] != p[k] { ReachesStep(Proper(g), p[0], p[k - 1], p[k]); }
    }
  }

  /** The two closures agree when nothing is dropped and no node is ⊤ or ⊥. */
  lemma ClosuresAgree(edges: seq<Pair>, groups: seq<seq<Iri>>, p: Pair)
    requires forall a, b :: (a, b) in GraphOf(edges, groups) ==> a !in THINGS + NOTHINGS && b !in THINGS + NOTHINGS
    ensures ClosurePair(edges, groups, {}, p) <==> p.0 != p.1 && ReachesPlus(Proper(GraphOf(edges, groups)), p.0, p.1)
  {
    var g := GraphOf(edges, groups);
    ProperReaches(g, p.0, p.1);
    ReachesSplit(g, p.0, p.1);
    ReachesSplit(Proper(g), p.0, p.1);
    if p.0 != p.1 && ReachesPlus(g, p.0, p.1) {
      var w :| (p.0, w) in g && Reaches(g, w, p.1);
      var z := PlusLast(g, p.0, p.1);
    }
  }

  /** Both ways of closing the same input, compared. */
  method CompareClosures(edges: seq<Pair>, groups: seq<seq<Iri>>) returns (same: bool)
    requires forall a, b :: (a, b) in GraphOf(edges, groups) ==> a !in THINGS + NOTHINGS && b !in THINGS + NOTHINGS
    ensures same
  {
    var left := Closure(edges, groups, {});
    var adj := BuildAdjacency(edges, groups);
    var right := TransitiveClosure(adj);
    forall p ensures p in left <==> p in right { ClosuresAgree(edges, groups, p); }
    same := left == right;
  }

  // ----- the memoised closure -----

  type Memo<!N> = map<N, set<N>>

  function NextOf<N>(adj: map<N, seq<N>>, x: N): seq<N> {
    if x in adj then adj[x] else []
  }

  function EdgesOf<N(!new)>(adj: map<N, seq<N>>): (g: set<(N, N)>)
    ensures forall a, b :: (a, b) in g <==> b in NextOf(adj, a)
  {
    set a, b | a in adj && b in adj[a] :: (a, b)
  }

  /** The ancestors of `node` as the shared memo has them: nothing at all on revisiting the call stack. */
  function Ancestors<N(!new)>(adj: map<N, seq<N>>, node: N, stack: set<N>, memo: Memo<N>): (set<N>, Memo<N>)
    decreases |adj.Keys - stack|, 1, 0
  {
    if node in memo then (memo[node], memo)
    else if node in stack then ({}, memo)
    else if node !in adj then ({}, memo[node := {}])
    else
      FewerLeft(adj.Keys, stack, node);
      var (r, m) := AncestorsOfAll(adj, adj[node], stack + {node}, {}, memo);
      (r, m[node := r])
  }

  function AncestorsOfAll<N(!new)>(adj: map<N, seq<N>>, nexts: seq<N>, stack: set<N>, result: set<N>, memo: Memo<N>): (set<N>, Memo<N>)
    decreases |adj.Keys - stack|, 2, |nexts|
  {
    if nexts == [] then (result, memo)
    else
      var (r, m) := Ancestors(adj, nexts[0], stack, memo);
      AncestorsOfAll(adj, nexts[1..], stack, result + {nexts[0]} + r, m)
  }

  function AllAncestors<N(!new)>(adj: map<N, seq<N>>, order: seq<N>, memo: Memo<N>): Memo<N>
    decreases |order|
  {
    if order == [] then memo else AllAncestors(adj, order[1..], Ancestors(adj, order[0], {}, memo).1)
  }

  /** The memo and the recursion that fills it. */
  class MemoisedAncestors {
    const adj: map<nat, seq<nat>>
    var memo: Memo<nat>

    constructor (adj: map<nat, seq<nat>>)
      ensures this.adj == adj && memo == map[]
    {
      this.adj, this.memo := adj, map[];
    }

    method Anc(node: nat, stack: set<nat>) returns (r: set<nat>)
      modifies this
      ensures (r, memo) == Ancestors(adj, node, stack, old(memo))
      decreases |adj.Keys - stack|
    {
      if node in memo {
        return memo[node];
      }
      if node in stack {
        return {};
      }
      if node in adj { FewerLeft(adj.Keys, stack, node); }
      r := {};
      var nexts := NextOf(adj, node);
      for k := 0 to |nexts|
        invariant node in adj ==> AncestorsOfAll(adj, nexts, stack + {node}, {}, old(memo)) == AncestorsOfAll(adj, nexts[k..], stack + {node}, r, memo)
        invariant node !in adj ==> r == {} && memo == old(memo)
      {
        assert nexts[k..][1..] == nexts[k + 1..];
        var more := Anc(nexts[k], stack + {node});
        r := r + {nexts[k]} + more;
      }
      memo := memo[node := r];
    }

    method AncestorsOfEvery(order: seq<nat>)
      modifies this
      ensures memo == AllAncestors(adj, order, old(memo))
    {
      for k := 0 to |order|
        invariant AllAncestors(adj, order, old(memo)) == AllAncestors(adj, order[k..], memo)
      {
        assert order[k..][1..] == order[k + 1..];
        var r := Anc(order[k], {});
      }
    }
  }

  /** What the memo says of each node is reachable from it. */
  ghost predicate Reachable<N(!new)>(g: set<(N, N)>, memo: Memo<N>) {
    forall n, x :: n in memo && x in memo[n] ==> ReachesPlus(g, n, x)
  }

  ghost predicate Exact<N(!new)>(g: set<(N, N)>, memo: Memo<N>) {
    forall n, x :: n in memo ==> (x in memo[n] <==> ReachesPlus(g, n, x))
  }

  ghost predicate AllFrom<N(!new)>(g: set<(N, N)>, n: N, xs: set<N>) {
    forall x :: x in xs ==> ReachesPlus(g, n, x)
  }

  /** On any graph the memo holds reachable nodes only. */
  lemma {:induction false} AncestorsSound<N(!new)>(adj: map<N, seq<N>>, node: N, stack: set<N>, memo: Memo<N>)
    requires Reachable(EdgesOf(adj), memo)
    ensures var (r, m) := Ancestors(adj, node, stack, memo);
      AllFrom(EdgesOf(adj), node, r) && Reachable(EdgesOf(adj), m)
    decreases |adj.Keys - stack|, 1, 0
  {
    if node !in memo && node !in stack && node in adj {
      FewerLeft(adj.Keys, stack, node);
      AncestorsOfAllSound(adj, node, adj[node], stack + {node}, {}, memo);
    }
  }

  lemma {:induction false} AncestorsOfAllSound<N(!new)>(adj: map<N, seq<N>>, node: N, nexts: seq<N>, stack: set<N>, result: set<N>, memo: Memo<N>)
    requires Reachable(EdgesOf(adj), memo) && AllFrom(EdgesOf(adj), node, result)
    requires forall y :: y in nexts ==> (node, y) in EdgesOf(adj)
    ensures var (r, m) := AncestorsOfAll(adj, nexts, stack, result, memo);
      AllFrom(EdgesOf(adj), node, r) && Reachable(EdgesOf(adj), m)
    decreases |adj.Keys - stack|, 2, |nexts|
  {
    if nexts != [] {
      var g := EdgesOf(adj);
      var (r, m) := Ancestors(adj, nexts[0], stack, memo);
      AncestorsSound(adj, nexts[0], stack, memo);
      assert (node, nexts[0]) in g;
      FromNext(g, node, nexts[0], r);
      AncestorsOfAllSound(adj, node, nexts[1..], stack, result + {nexts[0]} + r, m);
    }
  }

  /** What is reachable from a successor is reachable from the node. */
  lemma FromNext<N(!new)>(g: set<(N, N)>, node: N, next: N, r: set<N>)
    requires (node, next) in g && AllFrom(g, next, r)
    ensures AllFrom(g, node, {next} + r)
  {
    ReachesSelf(g, next);
    assert ReachesPlus(g, node, next);
    forall x | x in r ensures ReachesPlus(g, node, x) { PlusTrans(g, node, next, x); }
  }

  lemma {:induction false} MemoSound<N(!new)>(adj: map<N, seq<N>>, order: seq<N>, memo: Memo<N>)
    requires Reachable(EdgesOf(adj), memo)
    ensures Reachable(EdgesOf(adj), AllAncestors(adj, order, memo))
    decreases |order|
  {
    if order != [] {
      AncestorsSound(adj, order[0], {}, memo);
      MemoSound(adj, order[1..], Ancestors(adj, order[0], {}, memo).1);
    }
  }

  ghost predicate Acyclic<N(!new)>(g: set<(N, N)>) {
    forall x :: !ReachesPlus(g, x, x)
  }

  /** Every node on the call stack leads here. */
  ghost predicate LeadsTo<N(!new)>(g: set<(N, N)>, stack: set<N>, node: N) {
    forall s :: s in stack ==> ReachesPlus(g, s, node)
  }

  /** Reachable through one of `nexts`. */
  ghost predicate Through<N(!new)>(g: set<(N, N)>, nexts: seq<N>, x: N) {
    exists y :: y in nexts && Reaches(g, y, x)
  }

  /** Without cycles the call stack is never met again, and the memo is exact. */
  lemma {:induction false} AncestorsExact<N(!new)>(adj: map<N, seq<N>>, node: N, stack: set<N>, memo: Memo<N>)
    requires Acyclic(EdgesOf(adj)) && Exact(EdgesOf(adj), memo) && LeadsTo(EdgesOf(adj), stack, node)
    ensures var (r, m) := Ancestors(adj, node, stack, memo);
      (forall x :: x in r <==> ReachesPlus(EdgesOf(adj), node, x)) && Exact(EdgesOf(adj), m) && node in m
    ensures SubKeys(memo, Ancestors(adj, node, stack, memo).1)
    decreases |adj.Keys - stack|, 1, 0
  {
    var g := EdgesOf(adj);
    if node in memo {
    } else {
      assert node !in stack;
      if node !in adj {
        forall x ensures !ReachesPlus(g, node, x) {}
      } else {
        FewerLeft(adj.Keys, stack, node);
        AncestorsOfAllExact(adj, node, adj[node], stack, {}, memo);
        var (r, m) := AncestorsOfAll(adj, adj[node], stack + {node}, {}, memo);
        forall x ensures x in r <==> ReachesPlus(g, node, x) {
          assert x in r <==> Through(g, adj[node], x);
          if ReachesPlus(g, node, x) {
            var z :| (node, z) in g && Reaches(g, z, x);
          }
        }
      }
    }
  }

  lemma {:induction false} AncestorsOfAllExact<N(!new)>(adj: map<N, seq<N>>, node: N, nexts: seq<N>, stack: set<N>, result: set<N>, memo: Memo<N>)
    requires Acyclic(EdgesOf(adj)) && Exact(EdgesOf(adj), memo) && LeadsTo(EdgesOf(adj), stack, node)
    requires forall y :: y in nexts ==> (node, y) in EdgesOf(adj)
    ensures var (r, m) := AncestorsOfAll(adj, nexts, stack + {node}, result, memo);
      Adds(EdgesOf(adj), nexts, result, r) && Exact(EdgesOf(adj), m) && SubKeys(memo, m)
    decreases |adj.Keys - (stack + {node})|, 2, |nexts|
  {
    var g := EdgesOf(adj);
    if nexts != [] {
      var next := nexts[0];
      var (r, m) := Ancestors(adj, next, stack + {node}, memo);
      NextLeads(g, stack, node, next);
      AncestorsExact(adj, next, stack + {node}, memo);
      AncestorsOfAllExact(adj, node, nexts[1..], stack, result + {next} + r, m);
      AddsNext(g, nexts, result, r, AncestorsOfAll(adj, nexts[1..], stack + {node}, result + {next} + r, m).0);
    }
  }

  ghost predicate SubKeys<N(!new)>(memo: Memo<N>, m: Memo<N>) {
    forall n :: n in memo ==> n in m
  }

  /** `r` is `result` and what is reachable through `nexts`. */
  ghost predicate Adds<N(!new)>(g: set<(N, N)>, nexts: seq<N>, result: set<N>, r: set<N>) {
    forall x {:trigger x in r} :: x in r <==> x in result || Through(g, nexts, x)
  }

  lemma AddsNext<N(!new)>(g: set<(N, N)>, nexts: seq<N>, result: set<N>, r: set<N>, all: set<N>)
    requires nexts != [] && Adds(g, nexts[1..], result + {nexts[0]} + r, all)
    requires forall x :: x in r <==> ReachesPlus(g, nexts[0], x)
    ensures Adds(g, nexts, result, all)
  {
    forall x ensures x in all <==> x in result || Through(g, nexts, x) { ThroughSplit(g, nexts, x); }
  }

  lemma ThroughSplit<N(!new)>(g: set<(N, N)>, nexts: seq<N>, x: N)
    requires nexts != []
    ensures Through(g, nexts, x) <==> x == nexts[0] || ReachesPlus(g, nexts[0], x) || Through(g, nexts[1..], x)
  {
    ReachesSplit(g, nexts[0], x);
    assert nexts == [nexts[0]] + nexts[1..];
    if Through(g, nexts[1..], x) {
      var y :| y in nexts[1..] && Reaches(g, y, x);
      assert y in nexts;
    }
  }

  lemma NextLeads<N(!new)>(g: set<(N, N)>, stack: set<N>, node: N, next: N)
    requires LeadsTo(g, stack, node) && (node, next) in g
    ensures LeadsTo(g, stack + {node}, next)
  {
    ReachesSelf(g, next);
    assert ReachesPlus(g, node, next);
    forall s | s in stack ensures ReachesPlus(g, s, next) { PlusStep(g, s, node, next); }
  }

  /** On a graph without cycles the memoised closure is exact for every node asked about. */
  lemma {:induction false} MemoExact<N(!new)>(adj: map<N, seq<N>>, order: seq<N>, memo: Memo<N>)
    requires Acyclic(EdgesOf(adj)) && Exact(EdgesOf(adj), memo)
    ensures var m := AllAncestors(adj, order, memo);
      Exact(EdgesOf(adj), m) && (forall n :: n in order || n in memo ==> n in m)
    decreases |order|
  {
    if order != [] {
      AncestorsExact(adj, order[0], {}, memo);
      MemoExact(adj, order[1..], Ancestors(adj, order[0], {}, memo).1);
      assert order == [order[0]] + order[1..];
    }
  }

  // ----- and only then -----

  ghost predicate NoSelfLoop<N(!new)>(g: set<(N, N)>) {
    forall x :: (x, x) !in g
  }

  ghost predicate OnCycle<N(!new)>(g: set<(N, N)>, x: N) {
    ReachesPlus(g, x, x)
  }

  ghost predicate NoCyclicKey<N(!new)>(g: set<(N, N)>, memo: Memo<N>) {
    forall n :: n in memo ==> !OnCycle(g, n)
  }

  /** Some node on a cycle is remembered as not reaching itself. */
  ghost predicate Spoiled<N(!new)>(g: set<(N, N)>, memo: Memo<N>) {
    exists v :: v in memo && OnCycle(g, v) && v !in memo[v]
  }

  ghost predicate Keeps<N(!new)>(stack: set<N>, memo: Memo<N>, m: Memo<N>) {
    && (forall n :: n in memo ==> n in m && m[n] == memo[n])
    && (forall n :: n in stack && n !in memo ==> n !in m)
  }

  lemma SpoiledKept<N(!new)>(g: set<(N, N)>, stack: set<N>, memo: Memo<N>, m: Memo<N>)
    requires Keeps(stack, memo, m) && Spoiled(g, memo)
    ensures Spoiled(g, m)
  {
  }

  /** Entries are never changed, and nothing on the call stack gets one meanwhile. */
  lemma {:induction false} AncestorsKeep<N(!new)>(adj: map<N, seq<N>>, node: N, stack: set<N>, memo: Memo<N>)
    ensures Keeps(stack, memo, Ancestors(adj, node, stack, memo).1)
    decreases |adj.Keys - stack|, 1, 0
  {
    if node !in memo && node !in stack && node in adj {
      FewerLeft(adj.Keys, stack, node);
      AncestorsOfAllKeep(adj, adj[node], stack + {node}, {}, memo);
    }
  }

  lemma {:induction false} AncestorsOfAllKeep<N(!new)>(adj: map<N, seq<N>>, nexts: seq<N>, stack: set<N>, result: set<N>, memo: Memo<N>)
    ensures Keeps(stack, memo, AncestorsOfAll(adj, nexts, stack, result, memo).1)
    decreases |adj.Keys - stack|, 2, |nexts|
  {
    if nexts != [] {
      var (r, m) := Ancestors(adj, nexts[0], stack, memo);
      AncestorsKeep(adj, nexts[0], stack, memo);
      AncestorsOfAllKeep(adj, nexts[1..], stack, result + {nexts[0]} + r, m);
    }
  }

  /** The first node on a cycle to be remembered is remembered wrongly: all its successors on the
      cycle are on the call stack, and give nothing. */
  lemma {:induction false} FirstSpoils<N(!new)>(adj: map<N, seq<N>>, node: N, stack: set<N>, memo: Memo<N>)
    requires NoSelfLoop(EdgesOf(adj)) && Reachable(EdgesOf(adj), memo) && NoCyclicKey(EdgesOf(adj), memo)
    ensures var m := Ancestors(adj, node, stack, memo).1;
      Spoiled(EdgesOf(adj), m) || (NoCyclicKey(EdgesOf(adj), m) && (OnCycle(EdgesOf(adj), node) ==> node in stack))
    decreases |adj.Keys - stack|, 1, 0
  {
    var g := EdgesOf(adj);
    if node in memo || node in stack {
    } else if node !in adj {
      forall y ensures (node, y) !in g {}
    } else {
      FewerLeft(adj.Keys, stack, node);
      var (r, m) := AncestorsOfAll(adj, adj[node], stack + {node}, {}, memo);
      FirstOfAllSpoils(adj, node, adj[node], stack + {node}, {}, memo);
      AncestorsOfAllKeep(adj, adj[node], stack + {node}, {}, memo);
      SpoilOrNot(g, m, node, r);
    }
  }

  lemma SpoilOrNot<N(!new)>(g: set<(N, N)>, m: Memo<N>, node: N, r: set<N>)
    requires node !in m && (Spoiled(g, m) || (NoCyclicKey(g, m) && node !in r))
    ensures Spoiled(g, m[node := r]) || (NoCyclicKey(g, m[node := r]) && !OnCycle(g, node))
  {
    var after := m[node := r];
    if Spoiled(g, m) {
      var v :| v in m && OnCycle(g, v) && v !in m[v];
      assert v in after && after[v] == m[v];
    } else if OnCycle(g, node) {
      assert node in after && node !in after[node];
    }
  }

  lemma {:induction false} FirstOfAllSpoils<N(!new)>(adj: map<N, seq<N>>, node: N, nexts: seq<N>, stack: set<N>, result: set<N>, memo: Memo<N>)
    requires NoSelfLoop(EdgesOf(adj)) && Reachable(EdgesOf(adj), memo) && NoCyclicKey(EdgesOf(adj), memo)
    requires (forall y :: y in nexts ==> (node, y) in EdgesOf(adj)) && node !in result
    ensures var (r, m) := AncestorsOfAll(adj, nexts, stack, result, memo);
      Spoiled(EdgesOf(adj), m) || (NoCyclicKey(EdgesOf(adj), m) && node !in r)
    decreases |adj.Keys - stack|, 2, |nexts|
  {
    if nexts != [] {
      var g, next := EdgesOf(adj), nexts[0];
      var (r, m) := Ancestors(adj, next, stack, memo);
      assert (node, next) in g;
      FirstSpoils(adj, next, stack, memo);
      AncestorsSound(adj, next, stack, memo);
      AncestorsOfAllKeep(adj, nexts[1..], stack, result + {next} + r, m);
      if Spoiled(g, m) {
        SpoiledKept(g, stack, m, AncestorsOfAll(adj, nexts[1..], stack, result + {next} + r, m).1);
      } else {
        NotBack(adj, node, next, stack, memo);
        FirstOfAllSpoils(adj, node, nexts[1..], stack, result + {next} + r, m);
      }
    }
  }

  /** A successor that spoils nothing does not lead back either. */
  lemma NotBack<N(!new)>(adj: map<N, seq<N>>, node: N, next: N, stack: set<N>, memo: Memo<N>)
    requires NoSelfLoop(EdgesOf(adj)) && NoCyclicKey(EdgesOf(adj), memo) && (node, next) in EdgesOf(adj)
    requires AllFrom(EdgesOf(adj), next, Ancestors(adj, next, stack, memo).0)
    requires OnCycle(EdgesOf(adj), next) ==> next in stack
    ensures node != next && node !in Ancestors(adj, next, stack, memo).0
  {
    var g := EdgesOf(adj);
    if !OnCycle(g, next) && ReachesPlus(g, next, node) { PlusStep(g, next, node, next); }
  }

  lemma {:induction false} OrderSpoils<N(!new)>(adj: map<N, seq<N>>, order: seq<N>, memo: Memo<N>, v: N)
    requires NoSelfLoop(EdgesOf(adj)) && Reachable(EdgesOf(adj), memo)
    requires Spoiled(EdgesOf(adj), memo) || (NoCyclicKey(EdgesOf(adj), memo) && v in order && OnCycle(EdgesOf(adj), v))
    ensures Spoiled(EdgesOf(adj), AllAncestors(adj, order, memo))
    decreases |order|
  {
    if order != [] {
      var m := Ancestors(adj, order[0], {}, memo).1;
      AncestorsSound(adj, order[0], {}, memo);
      AncestorsKeep(adj, order[0], {}, memo);
      if Spoiled(EdgesOf(adj), memo) {
        SpoiledKept(EdgesOf(adj), {}, memo, m);
      } else {
        FirstSpoils(adj, order[0], {}, memo);
      }
      assert order == [order[0]] + order[1..];
      OrderSpoils(adj, order[1..], m, v);
    }
  }

  /** Asked about every node of a graph without self-loops, the memo is exact iff there is no cycle. */
  lemma MemoExactIff<N(!new)>(adj: map<N, seq<N>>, order: seq<N>)
    requires NoSelfLoop(EdgesOf(adj)) && forall n :: n in adj ==> n in order
    ensures Exact(EdgesOf(adj), AllAncestors(adj, order, map[])) <==> Acyclic(EdgesOf(adj))
  {
    var g := EdgesOf(adj);
    if Acyclic(g) {
      MemoExact(adj, order, map[]);
    } else {
      var v :| ReachesPlus(g, v, v);
      var z :| (v, z) in g && Reaches(g, z, v);
      OrderSpoils(adj, order, map[], v);
      var w :| w in AllAncestors(adj, order, map[]) && OnCycle(g, w) && w !in AllAncestors(adj, order, map[])[w];
    }
  }

  // ----- off the diagonal -----

  /** The same successors, each node counted as its own. */
  ghost predicate Twins<N(!new)>(g: set<(N, N)>, a: N, b: N) {
    forall z :: z == a || (a, z) in g <==> z == b || (b, z) in g
  }

  /** Nodes that reach each other are twins, as the members of equivalence groups are whose other
      superclasses are shared. */
  ghost predicate OnlyTwins<N(!new)>(g: set<(N, N)>) {
    forall a, b {:trigger Twins(g, a, b)} :: ReachesPlus(g, a, b) && ReachesPlus(g, b, a) ==> Twins(g, a, b)
  }

  /** Everything reachable but perhaps the node itself, and nothing else. */
  ghost predicate RightOff<N(!new)>(g: set<(N, N)>, node: N, r: set<N>) {
    forall x :: x != node ==> (x in r <==> ReachesPlus(g, node, x))
  }

  ghost predicate AllRightOff<N(!new)>(g: set<(N, N)>, memo: Memo<N>) {
    forall n :: n in memo ==> RightOff(g, n, memo[n])
  }

  /** `r` has each of `nexts` and, but for those on the call stack, what they reach. */
  ghost predicate Gathers<N(!new)>(g: set<(N, N)>, nexts: seq<N>, stack: set<N>, r: set<N>) {
    forall y :: y in nexts ==> y in r && (y in stack || forall x :: ReachesPlus(g, y, x) && x != y ==> x in r)
  }

  lemma {:induction false} AncestorsOff<N(!new)>(adj: map<N, seq<N>>, node: N, stack: set<N>, memo: Memo<N>)
    requires OnlyTwins(EdgesOf(adj)) && AllRightOff(EdgesOf(adj), memo) && Reachable(EdgesOf(adj), memo)
    requires LeadsTo(EdgesOf(adj), stack, node)
    ensures var (r, m) := Ancestors(adj, node, stack, memo);
      AllRightOff(EdgesOf(adj), m) && (node in stack || (node in m && RightOff(EdgesOf(adj), node, r)))
    ensures SubKeys(memo, Ancestors(adj, node, stack, memo).1)
    decreases |adj.Keys - stack|, 1, 0
  {
    var g := EdgesOf(adj);
    if node !in memo && node !in stack {
      if node !in adj {
        forall x ensures !ReachesPlus(g, node, x) {}
      } else {
        FewerLeft(adj.Keys, stack, node);
        AncestorsOfAllOff(adj, node, adj[node], stack, {}, memo);
        AncestorsSound(adj, node, stack, memo);
        var (r, m) := AncestorsOfAll(adj, adj[node], stack + {node}, {}, memo);
        assert Ancestors(adj, node, stack, memo) == (r, m[node := r]);
        GatheredRight(g, node, adj[node], stack, r);
        EntryRight(g, m, node, r);
      }
    }
  }

  lemma EntryRight<N(!new)>(g: set<(N, N)>, m: Memo<N>, node: N, r: set<N>)
    requires AllRightOff(g, m) && RightOff(g, node, r)
    ensures AllRightOff(g, m[node := r])
  {
  }

  lemma GatheredRight<N(!new)>(g: set<(N, N)>, node: N, nexts: seq<N>, stack: set<N>, r: set<N>)
    requires OnlyTwins(g) && LeadsTo(g, stack, node) && Gathers(g, nexts, stack + {node}, r) && AllFrom(g, node, r)
    requires forall y :: y in nexts <==> (node, y) in g
    ensures RightOff(g, node, r)
  {
    forall x | x != node && ReachesPlus(g, node, x) ensures x in r {
      ReachesSplit(g, node, x);
      var p :| PathFromTo(g, p, node, x);
      GathersAll(g, node, nexts, stack, r, p, x);
    }
  }

  lemma {:induction false} AncestorsOfAllOff<N(!new)>(adj: map<N, seq<N>>, node: N, nexts: seq<N>, stack: set<N>, result: set<N>, memo: Memo<N>)
    requires OnlyTwins(EdgesOf(adj)) && AllRightOff(EdgesOf(adj), memo) && Reachable(EdgesOf(adj), memo)
    requires LeadsTo(EdgesOf(adj), stack, node) && forall y :: y in nexts ==> (node, y) in EdgesOf(adj)
    ensures var (r, m) := AncestorsOfAll(adj, nexts, stack + {node}, result, memo);
      AllRightOff(EdgesOf(adj), m) && result <= r && Gathers(EdgesOf(adj), nexts, stack + {node}, r) && SubKeys(memo, m)
    decreases |adj.Keys - (stack + {node})|, 2, |nexts|
  {
    if nexts != [] {
      var g, next := EdgesOf(adj), nexts[0];
      var (r, m) := Ancestors(adj, next, stack + {node}, memo);
      NextLeads(g, stack, node, next);
      AncestorsOff(adj, next, stack + {node}, memo);
      AncestorsSound(adj, next, stack + {node}, memo);
      AncestorsOfAllOff(adj, node, nexts[1..], stack, result + {next} + r, m);
      assert nexts == [next] + nexts[1..];
    }
  }

  /** What the successors reach is gathered in full: a twin on the call stack adds nothing new. */
  lemma {:induction false} GathersAll<N(!new)>(g: set<(N, N)>, node: N, nexts: seq<N>, stack: set<N>, r: set<N>, p: seq<N>, x: N)
    requires OnlyTwins(g) && LeadsTo(g, stack, node) && Gathers(g, nexts, stack + {node}, r)
    requires (forall y :: y in nexts <==> (node, y) in g) && PathFromTo(g, p, node, x) && x != node
    ensures x in r
    decreases |p|
  {
    var y := p[1];
    assert (node, y) in g;
    if y != x {
      var rest := p[1..];
      assert PathFromTo(g, rest, y, x);
      if y == node {
        GathersAll(g, node, nexts, stack, r, rest, x);
      } else if y in stack {
        ReachesEdge(g, node, y);
        ReachesSplit(g, node, y);
        assert Twins(g, node, y);
        var z := p[2];
        assert (y, z) in g;
        var tail := p[2..];
        assert PathFromTo(g, tail, z, x);
        if z == node {
          GathersAll(g, node, nexts, stack, r, tail, x);
        } else {
          assert PathFromTo(g, [node] + tail, node, x);
          GathersAll(g, node, nexts, stack, r, [node] + tail, x);
        }
      } else {
        ReachesSplit(g, y, x);
      }
    }
  }

  /** Where nodes that reach each other are twins, cycles or not, the memo is right for every node
      asked about, in any order, but for the node itself. */
  lemma {:induction false} MemoRightOff<N(!new)>(adj: map<N, seq<N>>, order: seq<N>, memo: Memo<N>)
    requires OnlyTwins(EdgesOf(adj)) && AllRightOff(EdgesOf(adj), memo) && Reachable(EdgesOf(adj), memo)
    ensures var m := AllAncestors(adj, order, memo);
      AllRightOff(EdgesOf(adj), m) && (forall n :: n in order || n in memo ==> n in m)
    decreases |order|
  {
    if order != [] {
      AncestorsOff(adj, order[0], {}, memo);
      AncestorsSound(adj, order[0], {}, memo);
      MemoRightOff(adj, order[1..], Ancestors(adj, order[0], {}, memo).1);
      assert order == [order[0]] + order[1..];
    }
  }

  /** On the cycle 0 → 1 → 2 → 0 the memo holds 0 alone above 2, and misses 1. */
  lemma MemoMisses()
    ensures var adj: map<nat, seq<nat>> := map[0 := [1], 1 := [2], 2 := [0]];
      var m := AllAncestors(adj, [0, 1, 2], map[]);
      2 in m && m[2] == {0} && ReachesPlus(EdgesOf(adj), 2, 1)
  {
    var adj: map<nat, seq<nat>> := map[0 := [1], 1 := [2], 2 := [0]];
    var none: Memo<nat> := map[];
    var m2: Memo<nat> := map[2 := {0}];
    assert Ancestors(adj, 0, {0, 1, 2}, none) == ({}, none);
    assert AncestorsOfAll(adj, [0], {0, 1, 2}, {}, none) == ({0}, none) by { assert [0][1..] == []; assert {} + {0} + {} == {0}; }
    assert {0, 1} + {2} == {0, 1, 2};
    assert Ancestors(adj, 2, {0, 1}, none) == ({0}, m2);
    MemoKeeps(adj, m2);
    var g := EdgesOf(adj);
    assert (2, 0) in g && (0, 1) in g;
    ReachesEdge(g, 0, 1);
  }

  lemma MemoKeeps(adj: map<nat, seq<nat>>, m2: Memo<nat>)
    requires adj == map[0 := [1], 1 := [2], 2 := [0]] && m2 == map[2 := {0}]
    requires Ancestors(adj, 2, {0, 1}, map[]) == ({0}, m2)
    ensures var m := AllAncestors(adj, [0, 1, 2], map[]); 2 in m && m[2] == {0}
  {
    var none: Memo<nat> := map[];
    var m1: Memo<nat> := m2[1 := {2, 0}];
    var m0: Memo<nat> := m1[0 := {1, 2, 0}];
    assert AncestorsOfAll(adj, [2], {0, 1}, {}, none) == ({2, 0}, m2) by { assert [2][1..] == []; assert {} + {2} + {0} == {2, 0}; }
    assert {0} + {1} == {0, 1};
    assert Ancestors(adj, 1, {0}, none) == ({2, 0}, m1);
    assert AncestorsOfAll(adj, [1], {0}, {}, none) == ({1, 2, 0}, m1) by { assert [1][1..] == []; assert {} + {1} + {2, 0} == {1, 2, 0}; }
    assert {} + {0} == {0};
    assert Ancestors(adj, 0, {}, none) == ({1, 2, 0}, m0);
    assert [0, 1, 2][1..] == [1, 2] && [1, 2][1..] == [2] && [2][1..] == [];
    assert Ancestors(adj, 1, {}, m0).1 == m0 && Ancestors(adj, 2, {}, m0).1 == m0;
    assert AllAncestors(adj, [1, 2], m0) == AllAncestors(adj, [2], m0);
  }
}
