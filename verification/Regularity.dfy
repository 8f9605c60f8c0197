/** The regularity test decides exactly whether a legal order on ranks exists. */
module Regularity {
  import opened Dl
  import opened Graphs
  import opened RoleLegality
  import opened UnionFinds
  import opened Sequences

  // ----- merging -----

  /** `repr` tells exactly the equivalent expressions to be one. */
  ghost predicate TellsEquivalent(axioms: seq<RoleAxiom>, repr: map<Role, Role>) {
    forall x, y {:trigger Equivalent(axioms, x, y)} :: x in repr && y in repr ==> (repr[x] == repr[y] <==> Equivalent(axioms, x, y))
  }

  ghost predicate TellsRank(axioms: seq<RoleAxiom>, repr: map<Role, Role>) {
    forall x, y {:trigger SameRank(axioms, x, y)} :: x in repr && y in repr ==> (repr[x] == repr[y] <==> SameRank(axioms, x, y))
  }

  ghost predicate OnlyEquivalent(axioms: seq<RoleAxiom>, repr: map<Role, Role>) {
    forall x, y {:trigger Equivalent(axioms, x, y)} :: x in repr && y in repr && repr[x] == repr[y] ==> Equivalent(axioms, x, y)
  }

  ghost predicate OnlyRank(axioms: seq<RoleAxiom>, repr: map<Role, Role>) {
    forall x, y {:trigger SameRank(axioms, x, y)} :: x in repr && y in repr && repr[x] == repr[y] ==> SameRank(axioms, x, y)
  }

  lemma MergeEquivalentStep(axioms: seq<RoleAxiom>, repr: map<Role, Role>, a: Role, b: Role)
    requires OnlyEquivalent(axioms, repr) && a in repr && b in repr && Equivalent(axioms, a, b)
    ensures OnlyEquivalent(axioms, Merged(repr, a, b))
  {
    var r := Merged(repr, a, b);
    forall x, y | x in r && y in r && r[x] == r[y] ensures Equivalent(axioms, x, y) {
      if repr[x] != repr[y] {
        var u, v := if repr[x] == repr[a] then a else b, if repr[x] == repr[a] then b else a;
        assert Equivalent(axioms, x, u) && Equivalent(axioms, v, y);
        EquivalentTrans(axioms, x, u, v);
        EquivalentTrans(axioms, x, v, y);
      } else {
        assert Equivalent(axioms, x, y);
      }
    }
  }

  lemma MergeRankStep(axioms: seq<RoleAxiom>, repr: map<Role, Role>, a: Role)
    requires OnlyRank(axioms, repr) && a in repr && a.Flip() in repr
    ensures OnlyRank(axioms, Merged(repr, a, a.Flip()))
  {
    var b := a.Flip();
    var r := Merged(repr, a, b);
    RankSelf(axioms, a);
    RankSym(axioms, a, b);
    forall x, y | x in r && y in r && r[x] == r[y] ensures SameRank(axioms, x, y) {
      if repr[x] != repr[y] {
        var u, v := if repr[x] == repr[a] then a else b, if repr[x] == repr[a] then b else a;
        assert SameRank(axioms, x, u) && SameRank(axioms, v, y);
        RankTrans(axioms, x, u, v);
        RankTrans(axioms, x, v, y);
      } else {
        assert SameRank(axioms, x, y);
      }
    }
  }

  ghost predicate KeysAre(repr: map<Role, Role>, nodes: seq<Role>) {
    forall x :: x in repr <==> x in nodes
  }

  /** The pairs of positions before `(i, j)` are merged where they are equivalent. */
  ghost predicate MergedTo(axioms: seq<RoleAxiom>, nodes: seq<Role>, repr: map<Role, Role>, i: nat, j: nat) {
    forall p, q {:trigger Equivalent(axioms, nodes[p], nodes[q])} ::
      0 <= p < |nodes| && 0 <= q < |nodes| && (p < i || (p == i && q < j)) && Equivalent(axioms, nodes[p], nodes[q]) ==>
      nodes[p] in repr && nodes[q] in repr && repr[nodes[p]] == repr[nodes[q]]
  }

  ghost predicate Merging(axioms: seq<RoleAxiom>, nodes: seq<Role>, repr: map<Role, Role>, i: nat, j: nat) {
    KeysAre(repr, nodes) && OnlyEquivalent(axioms, repr) && MergedTo(axioms, nodes, repr, i, j)
  }

  lemma MergingStart(axioms: seq<RoleAxiom>, nodes: seq<Role>)
    ensures Merging(axioms, nodes, map n | n in nodes :: n, 0, 0)
  {
    forall x | x in nodes ensures Equivalent(axioms, x, x) { EquivalentSelf(axioms, x); }
  }

  lemma MergingStep(axioms: seq<RoleAxiom>, nodes: seq<Role>, repr: map<Role, Role>, i: nat, j: nat)
    requires i < |nodes| && j < |nodes| && Merging(axioms, nodes, repr, i, j)
    ensures nodes[i] in repr && nodes[j] in repr
    ensures Equivalent(axioms, nodes[i], nodes[j]) ==> Merging(axioms, nodes, Merged(repr, nodes[i], nodes[j]), i, j + 1)
    ensures !Equivalent(axioms, nodes[i], nodes[j]) ==> Merging(axioms, nodes, repr, i, j + 1)
  {
    assert nodes[i] in nodes && nodes[j] in nodes;
    if Equivalent(axioms, nodes[i], nodes[j]) { MergeEquivalentStep(axioms, repr, nodes[i], nodes[j]); }
  }

  lemma MergingDone(axioms: seq<RoleAxiom>, nodes: seq<Role>, repr: map<Role, Role>)
    requires Merging(axioms, nodes, repr, |nodes|, 0)
    ensures TellsEquivalent(axioms, repr)
  {
    forall x, y | x in repr && y in repr ensures repr[x] == repr[y] <==> Equivalent(axioms, x, y) {
      var p :| 0 <= p < |nodes| && nodes[p] == x;
      var q :| 0 <= q < |nodes| && nodes[q] == y;
      assert Equivalent(axioms, nodes[p], nodes[q]) <==> Equivalent(axioms, x, y);
    }
  }

  lemma MutualReach(axioms: seq<RoleAxiom>, nodes: set<Role>, reach: map<Role, set<Role>>, a: Role, b: Role)
    requires ReachTable(Edges(axioms), nodes, reach) && a in nodes && b in nodes
    ensures a in reach && b in reach && (b in reach[a] && a in reach[b] <==> Equivalent(axioms, a, b))
  {
    assert IsReach(Edges(axioms), a, reach[a]) && IsReach(Edges(axioms), b, reach[b]);
  }

  /** Every pair of mutually reachable expressions is merged, and nothing else. */
  method MergeEquivalent(uf: UnionFind, nodes: seq<Role>, reach: map<Role, set<Role>>, ghost axioms: seq<RoleAxiom>)
    requires uf.Valid() && uf.repr == (map n | n in nodes :: n) && ReachTable(Edges(axioms), AsSet(nodes), reach)
    modifies uf
    ensures uf.Valid() && KeysAre(uf.repr, nodes) && TellsEquivalent(axioms, uf.repr)
  {
    MergingStart(axioms, nodes);
    for i := 0 to |nodes|
      invariant uf.Valid() && Merging(axioms, nodes, uf.repr, i, 0)
    {
      for j := 0 to |nodes|
        invariant uf.Valid() && Merging(axioms, nodes, uf.repr, i, j)
      {
        MergingStep(axioms, nodes, uf.repr, i, j);
        MutualReach(axioms, AsSet(nodes), reach, nodes[i], nodes[j]);
        if nodes[j] in reach[nodes[i]] && nodes[i] in reach[nodes[j]] {
          uf.Union(nodes[i], nodes[j]);
        }
      }
    }
    MergingDone(axioms, nodes, uf.repr);
  }

  ghost predicate FlippedTo(nodes: seq<Role>, repr: map<Role, Role>, i: nat) {
    forall p :: 0 <= p < i && p < |nodes| ==> Together(repr, nodes[p], nodes[p].Flip())
  }

  ghost predicate Together(repr: map<Role, Role>, x: Role, y: Role) {
    x in repr && y in repr && repr[x] == repr[y]
  }

  ghost predicate Coarser(repr: map<Role, Role>, repr': map<Role, Role>) {
    forall x, y {:trigger Together(repr, x, y)} {:trigger Together(repr', x, y)} :: Together(repr, x, y) ==> Together(repr', x, y)
  }

  ghost predicate Flipping(axioms: seq<RoleAxiom>, nodes: seq<Role>, start: map<Role, Role>, repr: map<Role, Role>, i: nat) {
    KeysAre(repr, nodes) && OnlyRank(axioms, repr) && FlippedTo(nodes, repr, i) && Coarser(start, repr)
  }

  lemma FlippingStart(axioms: seq<RoleAxiom>, nodes: seq<Role>, start: map<Role, Role>)
    requires KeysAre(start, nodes) && TellsEquivalent(axioms, start)
    ensures Flipping(axioms, nodes, start, start, 0)
  {
    forall x, y | x in start && y in start && start[x] == start[y] ensures SameRank(axioms, x, y) { assert Equivalent(axioms, x, y); }
  }

  lemma FlippingStep(axioms: seq<RoleAxiom>, nodes: seq<Role>, start: map<Role, Role>, repr: map<Role, Role>, i: nat)
    requires i < |nodes| && Flipping(axioms, nodes, start, repr, i) && nodes[i].Flip() in nodes
    ensures nodes[i] in repr && nodes[i].Flip() in repr
    ensures Flipping(axioms, nodes, start, Merged(repr, nodes[i], nodes[i].Flip()), i + 1)
  {
    assert nodes[i] in nodes;
    MergeRankStep(axioms, repr, nodes[i]);
    var r := Merged(repr, nodes[i], nodes[i].Flip());
    forall x, y | Together(repr, x, y) ensures Together(r, x, y) {}
    forall x, y | Together(start, x, y) ensures Together(r, x, y) { assert Together(repr, x, y); }
    forall p | 0 <= p < i + 1 && p < |nodes| ensures Together(r, nodes[p], nodes[p].Flip()) {
      if p < i { assert Together(repr, nodes[p], nodes[p].Flip()); }
    }
  }

  /** Every expression is merged with its inverse, and nothing else. */
  method MergeInverses(uf: UnionFind, nodes: seq<Role>, ghost axioms: seq<RoleAxiom>)
    requires uf.Valid() && KeysAre(uf.repr, nodes) && TellsEquivalent(axioms, uf.repr)
    requires forall x {:trigger x.Flip()} :: x in nodes ==> x.Flip() in nodes
    modifies uf
    ensures uf.Valid() && KeysAre(uf.repr, nodes) && TellsRank(axioms, uf.repr)
  {
    ghost var start := uf.repr;
    FlippingStart(axioms, nodes, start);
    for i := 0 to |nodes|
      invariant uf.Valid() && Flipping(axioms, nodes, start, uf.repr, i)
    {
      FlippingStep(axioms, nodes, start, uf.repr, i);
      uf.Union(nodes[i], nodes[i].Flip());
    }
    RankTold(axioms, nodes, start, uf.repr);
  }

  lemma RankTold(axioms: seq<RoleAxiom>, nodes: seq<Role>, start: map<Role, Role>, repr: map<Role, Role>)
    requires KeysAre(start, nodes) && TellsEquivalent(axioms, start) && Flipping(axioms, nodes, start, repr, |nodes|)
    requires forall x {:trigger x.Flip()} :: x in nodes ==> x.Flip() in nodes
    ensures TellsRank(axioms, repr)
  {
    forall x, y | x in repr && y in repr ensures repr[x] == repr[y] <==> SameRank(axioms, x, y) {
      assert repr[x] == repr[y] ==> SameRank(axioms, x, y);
      if SameRank(axioms, x, y) { RankTogether(axioms, nodes, start, repr, x, y); }
    }
  }

  lemma RankTogether(axioms: seq<RoleAxiom>, nodes: seq<Role>, start: map<Role, Role>, repr: map<Role, Role>, x: Role, y: Role)
    requires KeysAre(start, nodes) && TellsEquivalent(axioms, start) && Coarser(start, repr) && FlippedTo(nodes, repr, |nodes|)
    requires x in nodes && y in nodes && y.Flip() in nodes && SameRank(axioms, x, y)
    ensures Together(repr, x, y)
  {
    if Equivalent(axioms, x, y) {
      assert Together(start, x, y);
    } else {
      assert Together(start, x, y.Flip());
      var p :| 0 <= p < |nodes| && nodes[p] == y;
      assert Together(repr, nodes[p], nodes[p].Flip());
    }
  }

  /** The root of every node, as a table. */
  method Roots(uf: UnionFind, nodes: seq<Role>) returns (table: map<Role, Role>)
    requires uf.Valid() && KeysAre(uf.repr, nodes)
    modifies uf`parent
    ensures uf.Valid() && table == uf.repr
  {
    table := map[];
    for k := 0 to |nodes|
      invariant uf.Valid() && PartOf(table, uf.repr, nodes[..k])
    {
      assert nodes[k] in nodes && nodes[..k + 1] == nodes[..k] + [nodes[k]];
      var r := uf.Find(nodes[k]);
      table := table[nodes[k] := r];
    }
    assert nodes[..|nodes|] == nodes;
    assert table.Keys == uf.repr.Keys;
  }

  ghost predicate PartOf(table: map<Role, Role>, repr: map<Role, Role>, nodes: seq<Role>) {
    (forall x :: x in table <==> x in nodes) && forall x :: x in table ==> x in repr && table[x] == repr[x]
  }

  // ----- chain constraints -----

  /** The legs a chain forces strictly below its head. */
  function Legs(ax: RoleAxiom): seq<RoleId>
    requires ax.Chain?
  {
    if ax.first == ax.top && ax.second == ax.top then []
    else if ax.first == ax.top then [ax.second]
    else if ax.second == ax.top then [ax.first]
    else [ax.first, ax.second]
  }

  lemma LegsBelow(ax: RoleAxiom, lt: RoleOrder)
    requires ax.Chain? && StrictPartialOrder(lt)
    ensures ChainAllowed(ax, lt) <==> forall leg :: leg in Legs(ax) ==> lt(Named(leg), Named(ax.top))
  {
    var all := forall leg :: leg in Legs(ax) ==> lt(Named(leg), Named(ax.top));
    if all { forall k | 0 <= k < |Legs(ax)| ensures lt(Named(Legs(ax)[k]), Named(ax.top)) { assert Legs(ax)[k] in Legs(ax); } }
    assert !lt(Named(ax.top), Named(ax.top));
  }

  /** Some chain puts the rank class `e.0` below `e.1`. */
  ghost predicate Forces(axioms: seq<RoleAxiom>, rank: map<Role, Role>, e: (Role, Role)) {
    exists ax, leg :: ax in axioms && IsLeg(ax, leg) && e == LegEdge(rank, ax, leg)
  }

  ghost predicate IsLeg(ax: RoleAxiom, leg: RoleId) {
    ax.Chain? && leg in Legs(ax)
  }

  function LegEdge(rank: map<Role, Role>, ax: RoleAxiom, leg: RoleId): (Role, Role)
    requires ax.Chain?
  {
    (RankOf(rank, Named(leg)), RankOf(rank, Named(ax.top)))
  }

  function LegPairs(rank: map<Role, Role>, ax: RoleAxiom, legs: seq<RoleId>): set<(Role, Role)>
    requires ax.Chain?
  {
    set leg | leg in legs :: LegEdge(rank, ax, leg)
  }

  lemma LegPairsStep(rank: map<Role, Role>, ax: RoleAxiom, legs: seq<RoleId>, i: nat)
    requires ax.Chain? && i < |legs|
    ensures LegPairs(rank, ax, legs[..i + 1]) == LegPairs(rank, ax, legs[..i]) + {LegEdge(rank, ax, legs[i])}
  {
    assert legs[..i + 1] == legs[..i] + [legs[i]];
  }

  function RankOf(rank: map<Role, Role>, x: Role): Role {
    if x in rank then rank[x] else x
  }

  ghost predicate LessIs(axioms: seq<RoleAxiom>, rank: map<Role, Role>, less: set<(Role, Role)>) {
    forall e :: e in less <==> Forces(axioms, rank, e)
  }

  lemma LessStep(axioms: seq<RoleAxiom>, k: nat, rank: map<Role, Role>, less: set<(Role, Role)>)
    requires k < |axioms| && LessIs(axioms[..k], rank, less)
    ensures axioms[k].Chain? ==>
      LessIs(axioms[..k + 1], rank, less + LegPairs(rank, axioms[k], Legs(axioms[k])))
    ensures !axioms[k].Chain? ==> LessIs(axioms[..k + 1], rank, less)
  {
    assert axioms[..k + 1] == axioms[..k] + [axioms[k]];
    var ax := axioms[k];
    var more := if ax.Chain? then less + LegPairs(rank, ax, Legs(ax)) else less;
    forall e ensures e in more <==> Forces(axioms[..k + 1], rank, e) {
      if e in less {
        var a, leg :| a in axioms[..k] && IsLeg(a, leg) && e == LegEdge(rank, a, leg);
        assert a in axioms[..k + 1];
      } else if e in more {
        var leg :| leg in Legs(ax) && e == LegEdge(rank, ax, leg);
        assert ax in axioms[..k + 1] && IsLeg(ax, leg);
      }
      if Forces(axioms[..k + 1], rank, e) {
        var a, leg :| a in axioms[..k + 1] && IsLeg(a, leg) && e == LegEdge(rank, a, leg);
        if a in axioms[..k] { assert Forces(axioms[..k], rank, e); }
      }
    }
  }

  /** A leg of the same rank as its head, which no order allows. */
  ghost predicate Clash(axioms: seq<RoleAxiom>, rank: map<Role, Role>) {
    exists ax, leg :: ax in axioms && IsLeg(ax, leg) && LegEdge(rank, ax, leg).0 == LegEdge(rank, ax, leg).1
  }

  /** The strict pairs of rank classes the chains force, or a clash. */
  method ChainConstraints(roles: seq<RoleId>, axioms: seq<RoleAxiom>, equiv: map<Role, Role>, rank: map<Role, Role>)
    returns (ok: bool, less: set<(Role, Role)>)
    requires AllOver(roles, axioms) && KeysAre(equiv, Nodes(roles)) && KeysAre(rank, Nodes(roles)) && Coarser(equiv, rank)
    ensures !ok ==> Clash(axioms, rank)
    ensures ok ==> LessIs(axioms, rank, less)
  {
    less := {};
    for k := 0 to |axioms|
      invariant LessIs(axioms[..k], rank, less)
    {
      LessStep(axioms, k, rank, less);
      if axioms[k].Chain? {
        ok, less := AddLegs(roles, axioms[k], equiv, rank, less);
        if !ok {
          return;
        }
      }
    }
    assert axioms[..|axioms|] == axioms;
    ok := true;
  }

  /** The pairs of one chain, or a leg that clashes. */
  method AddLegs(roles: seq<RoleId>, ax: RoleAxiom, equiv: map<Role, Role>, rank: map<Role, Role>, less: set<(Role, Role)>)
    returns (ok: bool, more: set<(Role, Role)>)
    requires ax.Chain? && Over(roles, ax) && KeysAre(equiv, Nodes(roles)) && KeysAre(rank, Nodes(roles)) && Coarser(equiv, rank)
    ensures !ok ==> exists leg :: IsLeg(ax, leg) && LegEdge(rank, ax, leg).0 == LegEdge(rank, ax, leg).1
    ensures ok ==> more == less + LegPairs(rank, ax, Legs(ax))
  {
    more := less;
    var legs, t := Legs(ax), Named(ax.top);
    for i := 0 to |legs|
      invariant more == less + LegPairs(rank, ax, legs[..i])
    {
      var leg := Named(legs[i]);
      assert legs[i] in legs && leg.id in roles && leg in equiv && leg in rank && t in equiv && t in rank;
      if equiv[leg] == equiv[t] || rank[leg] == rank[t] {
        assert Together(equiv, leg, t) || Together(rank, leg, t);
        assert IsLeg(ax, legs[i]);
        return false, more;
      }
      LegPairsStep(rank, ax, legs, i);
      more := more + {(rank[leg], rank[t])};
    }
    assert legs[..|legs|] == legs;
    ok := true;
  }

  // ----- cycles, by depth-first search -----

  ghost predicate HasCycle(edges: set<(Role, Role)>) {
    exists v :: ReachesPlus(edges, v, v)
  }

  /** Every successor of a finished node was finished before it. */
  ghost predicate Topological(edges: set<(Role, Role)>, done: seq<Role>) {
    forall k, y :: 0 <= k < |done| && (done[k], y) in edges ==> y in done[..k]
  }

  lemma {:induction false} FinishedAbove(edges: set<(Role, Role)>, done: seq<Role>, k: nat, p: seq<Role>, i: nat)
    requires Topological(edges, done) && k < |done| && IsPath(edges, p) && p[0] == done[k] && 0 < i < |p|
    ensures p[i] in done[..k]
    decreases i
  {
    assert (p[i - 1], p[i]) in edges;
    if i > 1 {
      FinishedAbove(edges, done, k, p, i - 1);
      var j :| 0 <= j < k && done[j] == p[i - 1];
      assert p[i] in done[..j];
    }
  }

  /** A finished node is on no cycle. */
  lemma {:induction false} FinishedAcyclic(edges: set<(Role, Role)>, done: seq<Role>, k: nat)
    requires Topological(edges, done) && k < |done|
    ensures !ReachesPlus(edges, done[k], done[k])
    decreases k
  {
    if ReachesPlus(edges, done[k], done[k]) {
      var z :| (done[k], z) in edges && Reaches(edges, z, done[k]);
      var p :| PathFromTo(edges, p, z, done[k]);
      var q := [done[k]] + p;
      assert IsPath(edges, q);
      FinishedAbove(edges, done, k, q, |q| - 1);
      var j :| 0 <= j < k && done[j] == done[k];
      FinishedAcyclic(edges, done, j);
    }
  }

  lemma TopologicalPush(edges: set<(Role, Role)>, done: seq<Role>, n: Role)
    requires Topological(edges, done) && forall y :: (n, y) in edges ==> y in done
    ensures Topological(edges, done + [n])
  {
    var more := done + [n];
    forall k, y | 0 <= k < |more| && (more[k], y) in edges ensures y in more[..k] {
      if k < |done| { assert more[..k] == done[..k]; } else { assert more[..k] == done; }
    }
  }

  /** The marks of a search: 1 while a node is open, 2 once it is finished. */
  ghost predicate Marks(nodes: set<Role>, state: map<Role, nat>, done: seq<Role>) {
    && (forall x :: x in state ==> x in nodes && (state[x] == 1 || state[x] == 2))
    && (forall x :: x in done <==> x in state && state[x] == 2)
  }

  ghost function OpenIn(state: map<Role, nat>): set<Role> {
    set x | x in state && state[x] == 1
  }

  lemma OpenMark(nodes: set<Role>, state: map<Role, nat>, done: seq<Role>, n: Role)
    requires Marks(nodes, state, done) && n in nodes && n !in state
    ensures Marks(nodes, state[n := 1], done) && OpenIn(state[n := 1]) == OpenIn(state) + {n}
  {
  }

  lemma FinishMark(nodes: set<Role>, state: map<Role, nat>, done: seq<Role>, n: Role, pending: set<Role>)
    requires Marks(nodes, state, done) && n in nodes && n in state && state[n] == 1 && OpenIn(state) == pending + {n} && n !in pending
    ensures Marks(nodes, state[n := 2], done + [n]) && OpenIn(state[n := 2]) == pending
  {
    var after := state[n := 2];
    forall x ensures x in OpenIn(after) <==> x in pending { assert x in OpenIn(state) <==> x in state && state[x] == 1; }
  }

  class CycleSearch {
    const edges: set<(Role, Role)>
    var state: map<Role, nat>
    ghost var done: seq<Role>
    ghost const nodes: set<Role>

    ghost predicate Valid()
      reads this
    {
      Within(edges, nodes) && Topological(edges, done) && Marks(nodes, state, done)
    }

    constructor (edges: set<(Role, Role)>, ghost nodes: set<Role>)
      requires Within(edges, nodes)
      ensures Valid() && this.edges == edges && this.nodes == nodes && state == map[]
    {
      this.edges, this.nodes, this.state, this.done := edges, nodes, map[], [];
    }

    /** Whether a cycle is reachable from `n` through nodes not seen before. */
    method Cyclic(n: Role) returns (c: bool)
      requires Valid() && n in nodes && n !in state && AllReach(edges, OpenIn(state), n)
      modifies this
      ensures c ==> HasCycle(edges)
      ensures !c ==> Valid() && OpenIn(state) == OpenIn(old(state)) && n in done
      ensures !c ==> old(state.Keys) + {n} <= state.Keys && forall x :: x in old(done) ==> x in done
      decreases |nodes - state.Keys|
    {
      ghost var pending, before := OpenIn(state), state.Keys;
      OpenMark(nodes, state, done, n);
      state := state[n := 1];
      var todo := Successors(edges, n);
      while todo != {}
        invariant Valid() && OpenIn(state) == pending + {n} && before + {n} <= state.Keys
        invariant todo <= Successors(edges, n)
        invariant forall y :: (n, y) in edges ==> y in todo || y in done
        invariant forall x :: x in old(done) ==> x in done
        decreases |todo|
      {
        var m :| m in todo;
        todo := todo - {m};
        assert (n, m) in edges && m in nodes;
        if m in state && state[m] == 1 {
          OpenCycle(edges, OpenIn(state), pending, n, m);
          return true;
        }
        if m !in state {
          OpenReach(edges, OpenIn(state), pending, n, m);
          FewerNodes(nodes, before, state.Keys, n);
          var found := Cyclic(m);
          if found {
            return true;
          }
        }
      }
      assert n in OpenIn(state);
      assert n !in pending;
      FinishMark(nodes, state, done, n, pending);
      TopologicalPush(edges, done, n);
      state := state[n := 2];
      done := done + [n];
      c := false;
    }
  }

  ghost predicate AllReach(edges: set<(Role, Role)>, from: set<Role>, n: Role) {
    forall g :: g in from ==> Reaches(edges, g, n)
  }

  /** An edge back to an open node closes a cycle. */
  lemma OpenCycle(edges: set<(Role, Role)>, now: set<Role>, pending: set<Role>, n: Role, m: Role)
    requires now == pending + {n} && AllReach(edges, pending, n) && (n, m) in edges && m in now
    ensures HasCycle(edges)
  {
    if m == n { ReachesSelf(edges, n); }
    assert ReachesPlus(edges, n, n);
  }

  lemma OpenReach(edges: set<(Role, Role)>, now: set<Role>, pending: set<Role>, n: Role, m: Role)
    requires now == pending + {n} && AllReach(edges, pending, n) && (n, m) in edges
    ensures AllReach(edges, now, m)
  {
    ReachesEdge(edges, n, m);
    forall g | g in pending ensures Reaches(edges, g, m) { ReachesStep(edges, g, n, m); }
  }

  lemma FewerNodes(nodes: set<Role>, before: set<Role>, now: set<Role>, n: Role)
    requires n in nodes && n !in before && before + {n} <= now
    ensures |nodes - now| < |nodes - before|
  {
    var rest := nodes - before - {n};
    assert nodes - now <= rest;
    assert rest == (nodes - now) + (rest - (nodes - now));
  }

  method AnyCycle(edges: set<(Role, Role)>, ghost nodes: set<Role>) returns (c: bool)
    requires Within(edges, nodes)
    ensures c <==> HasCycle(edges)
  {
    var search := new CycleSearch(edges, nodes);
    var sources := set e | e in edges :: e.0;
    var todo := sources;
    while todo != {}
      invariant search.Valid() && search.edges == edges && search.nodes == nodes && OpenIn(search.state) == {} && todo <= sources
      invariant forall x :: x in sources ==> x in todo || x in search.done
      invariant fresh(search)
      decreases |todo|
    {
      var n :| n in todo;
      todo := todo - {n};
      if n !in search.state {
        var e :| e in edges && e.0 == n;
        assert e == (e.0, e.1);
        var found := search.Cyclic(n);
        if found {
          return true;
        }
      } else {
        assert n !in OpenIn(search.state);
      }
    }
    forall v ensures !ReachesPlus(edges, v, v) {
      if ReachesPlus(edges, v, v) {
        var z :| (v, z) in edges && Reaches(edges, z, v);
        assert (v, z).0 in sources;
        var k :| 0 <= k < |search.done| && search.done[k] == v;
        FinishedAcyclic(edges, search.done, k);
      }
    }
    c := false;
  }

  // ----- forced below -----

  /** Whether `a` is forced strictly below `b`. */
  method Below(a: Role, b: Role, edges: set<(Role, Role)>, ghost nodes: set<Role>) returns (r: bool)
    requires a in nodes && Within(edges, nodes)
    ensures r <==> ReachesPlus(edges, a, b)
  {
    var seen := {a};
    var st := [a];
    ReachesSelf(edges, a);
    while st != []
      invariant Stacked(edges, a, seen, st) && seen <= nodes
      invariant forall z :: z in seen && z !in st ==> (z, b) !in edges
      decreases |nodes - seen|, |st|
    {
      var n := st[|st| - 1];
      PopStack(edges, a, seen, st);
      assert st == st[..|st| - 1] + [n];
      st := st[..|st| - 1];
      var todo := Successors(edges, n);
      ghost var before, height := seen, |st|;
      while todo != {}
        invariant Expanding(edges, a, n, todo, seen, st) && before <= seen <= nodes
        invariant forall z :: z in seen && z !in st && z != n ==> (z, b) !in edges
        invariant (n, b) in edges ==> b in todo
        invariant |nodes - seen| <= |nodes - before|
        invariant |nodes - seen| == |nodes - before| ==> |st| == height
        decreases |todo|
      {
        var m :| m in todo;
        ExpandStep(edges, a, n, todo, seen, st, m);
        todo := todo - {m};
        if m == b {
          PlusFrom(edges, a, n, b);
          return true;
        }
        if m !in seen {
          FewerLeft(nodes, seen, m);
          seen := seen + {m};
          st := st + [m];
        }
      }
    }
    StackDone(edges, a, seen);
    if ReachesPlus(edges, a, b) {
      var z := PlusLast(edges, a, b);
    }
    r := false;
  }

  // ----- soundness -----

  /** No sub-role pair of different classes is forced the other way round. */
  ghost predicate NoneForcedBack(axioms: seq<RoleAxiom>, rank: map<Role, Role>, less: set<(Role, Role)>) {
    forall x, y {:trigger BackPair(axioms, rank, less, x, y)} :: !BackPair(axioms, rank, less, x, y)
  }

  /** `x` is a sub-role of `y` and of another class, yet `y` is forced below `x`. */
  ghost predicate BackPair(axioms: seq<RoleAxiom>, rank: map<Role, Role>, less: set<(Role, Role)>, x: Role, y: Role) {
    && x in rank && y in rank && Reaches(Edges(axioms), x, y) && !Equivalent(axioms, x, y)
    && ReachesPlus(less, rank[y], rank[x])
  }

  /** What the regularity test has established when it accepts. */
  ghost predicate Accepted(roles: seq<RoleId>, axioms: seq<RoleAxiom>, rank: map<Role, Role>, less: set<(Role, Role)>) {
    && AllOver(roles, axioms) && KeysAre(rank, Nodes(roles)) && TellsRank(axioms, rank)
    && LessIs(axioms, rank, less) && !HasCycle(less) && NoneForcedBack(axioms, rank, less)
  }

  ghost function ForcedOrder(rank: map<Role, Role>, less: set<(Role, Role)>): RoleOrder {
    (x: Role, y: Role) => x in rank && y in rank && ReachesPlus(less, rank[x], rank[y])
  }

  lemma NodeFlips(roles: seq<RoleId>, rank: map<Role, Role>, x: Role)
    requires KeysAre(rank, Nodes(roles))
    ensures x.Flip() in rank <==> x in rank
  {
  }

  lemma SameRankWithin(roles: seq<RoleId>, axioms: seq<RoleAxiom>, x: Role, y: Role)
    requires AllOver(roles, axioms) && x.id in roles && SameRank(axioms, x, y)
    ensures y.id in roles
  {
    EdgesWithin(roles, axioms);
    if Equivalent(axioms, x, y) {
      ClosedReaches(Edges(axioms), NodeSet(roles), x, y);
    } else {
      ClosedReaches(Edges(axioms), NodeSet(roles), x, y.Flip());
    }
  }

  lemma ForcedStrict(rank: map<Role, Role>, less: set<(Role, Role)>)
    requires !HasCycle(less)
    ensures StrictPartialOrder(ForcedOrder(rank, less))
  {
    var lt := ForcedOrder(rank, less);
    forall x, y, z | lt(x, y) && lt(y, z) ensures lt(x, z) { PlusTrans(less, rank[x], rank[y], rank[z]); }
  }

  lemma ForcedRank(roles: seq<RoleId>, axioms: seq<RoleAxiom>, rank: map<Role, Role>, less: set<(Role, Role)>)
    requires AllOver(roles, axioms) && KeysAre(rank, Nodes(roles)) && TellsRank(axioms, rank)
    ensures RankOrder(axioms, ForcedOrder(rank, less)) && InverseLeft(ForcedOrder(rank, less))
  {
    var lt := ForcedOrder(rank, less);
    forall x, x', y, y' | SameRank(axioms, x, x') && SameRank(axioms, y, y') && lt(x, y) ensures lt(x', y') {
      SameRankWithin(roles, axioms, x, x');
      SameRankWithin(roles, axioms, y, y');
    }
    forall x, y ensures lt(x, y) <==> lt(x.Flip(), y) {
      NodeFlips(roles, rank, x);
      RankSelf(axioms, x);
      assert SameRank(axioms, x, x.Flip());
    }
  }

  lemma EquivalentRank(axioms: seq<RoleAxiom>, rank: map<Role, Role>, x: Role, y: Role)
    requires TellsRank(axioms, rank) && x in rank && y in rank
    ensures Equivalent(axioms, x, y) ==> rank[x] == rank[y]
  {
    assert Equivalent(axioms, x, y) ==> SameRank(axioms, x, y);
  }

  lemma ForcedLegal(roles: seq<RoleId>, axioms: seq<RoleAxiom>, rank: map<Role, Role>, less: set<(Role, Role)>)
    requires Accepted(roles, axioms, rank, less)
    ensures LegalOrder(axioms, ForcedOrder(rank, less))
  {
    var lt := ForcedOrder(rank, less);
    ForcedStrict(rank, less);
    ForcedRank(roles, axioms, rank, less);
    forall x, y | lt(x, y) ensures !Reaches(Edges(axioms), y, x) {
      EquivalentRank(axioms, rank, y, x);
      assert !BackPair(axioms, rank, less, y, x);
    }
    forall ax | ax in axioms && ax.Chain? ensures ChainAllowed(ax, lt) {
      forall leg | leg in Legs(ax) ensures lt(Named(leg), Named(ax.top)) {
        assert Over(roles, ax);
        assert IsLeg(ax, leg) && Forces(axioms, rank, LegEdge(rank, ax, leg));
        ReachesSelf(less, rank[Named(ax.top)]);
        assert (rank[Named(leg)], rank[Named(ax.top)]) in less;
      }
      LegsBelow(ax, lt);
    }
  }

  lemma AcceptedRanked(roles: seq<RoleId>, axioms: seq<RoleAxiom>, rank: map<Role, Role>, less: set<(Role, Role)>)
    requires Accepted(roles, axioms, rank, less)
    ensures Ranked(axioms)
  {
    ForcedLegal(roles, axioms, rank, less);
    ForcedRank(roles, axioms, rank, less);
  }

  // ----- completeness -----

  /** The tables and an order they are held against. */
  ghost predicate Ordered(roles: seq<RoleId>, axioms: seq<RoleAxiom>, rank: map<Role, Role>, lt: RoleOrder) {
    && AllOver(roles, axioms) && KeysAre(rank, Nodes(roles)) && TellsRank(axioms, rank)
    && LegalOrder(axioms, lt) && RankOrder(axioms, lt)
  }

  lemma LegOrdered(axioms: seq<RoleAxiom>, lt: RoleOrder, ax: RoleAxiom, leg: RoleId)
    requires LegalOrder(axioms, lt) && ax in axioms && IsLeg(ax, leg)
    ensures lt(Named(leg), Named(ax.top))
  {
    assert ChainAllowed(ax, lt);
    LegsBelow(ax, lt);
  }

  lemma NoClash(roles: seq<RoleId>, axioms: seq<RoleAxiom>, rank: map<Role, Role>, lt: RoleOrder)
    requires Ordered(roles, axioms, rank, lt)
    ensures !Clash(axioms, rank)
  {
    forall ax, leg | ax in axioms && IsLeg(ax, leg) ensures LegEdge(rank, ax, leg).0 != LegEdge(rank, ax, leg).1 {
      var l, t := Named(leg), Named(ax.top);
      assert Over(roles, ax);
      LegOrdered(axioms, lt, ax, leg);
      RankSelf(axioms, t);
      assert SameRank(axioms, l, t) <==> rank[l] == rank[t];
    }
  }

  /** The leg and the head behind a forced pair. */
  lemma LessSource(roles: seq<RoleId>, axioms: seq<RoleAxiom>, rank: map<Role, Role>, less: set<(Role, Role)>, e: (Role, Role))
    returns (ax: RoleAxiom, leg: RoleId)
    requires AllOver(roles, axioms) && KeysAre(rank, Nodes(roles)) && LessIs(axioms, rank, less) && e in less
    ensures ax in axioms && IsLeg(ax, leg) && Named(leg) in rank && Named(ax.top) in rank
    ensures e == (rank[Named(leg)], rank[Named(ax.top)])
  {
    assert Forces(axioms, rank, e);
    ax, leg :| ax in axioms && IsLeg(ax, leg) && e == LegEdge(rank, ax, leg);
    assert Over(roles, ax);
  }

  lemma OrderTrans(axioms: seq<RoleAxiom>, lt: RoleOrder, x: Role, y: Role, z: Role)
    requires LegalOrder(axioms, lt) && lt(x, y) && lt(y, z)
    ensures lt(x, z)
  {
  }

  /** A forced pair of rank classes is ordered, whatever stands for them. */
  lemma EdgeOrdered(roles: seq<RoleId>, axioms: seq<RoleAxiom>, rank: map<Role, Role>, lt: RoleOrder, less: set<(Role, Role)>, x: Role, y: Role)
    requires Ordered(roles, axioms, rank, lt) && LessIs(axioms, rank, less)
    requires x in rank && y in rank && (rank[x], rank[y]) in less
    ensures lt(x, y)
  {
    var ax, leg := LessSource(roles, axioms, rank, less, (rank[x], rank[y]));
    LegOrdered(axioms, lt, ax, leg);
    assert SameRank(axioms, Named(leg), x) && SameRank(axioms, Named(ax.top), y);
  }

  lemma {:induction false} PathOrdered(roles: seq<RoleId>, axioms: seq<RoleAxiom>, rank: map<Role, Role>, lt: RoleOrder, less: set<(Role, Role)>,
      p: seq<Role>, i: nat, x: Role, y: Role)
    requires Ordered(roles, axioms, rank, lt) && LessIs(axioms, rank, less)
    requires IsPath(less, p) && 0 < i < |p| && x in rank && y in rank && rank[x] == p[0] && rank[y] == p[i]
    ensures lt(x, y)
    decreases i
  {
    assert (p[i - 1], p[i]) in less;
    if i == 1 {
      EdgeOrdered(roles, axioms, rank, lt, less, x, y);
    } else {
      var ax, leg := LessSource(roles, axioms, rank, less, (p[i - 1], p[i]));
      PathOrdered(roles, axioms, rank, lt, less, p, i - 1, x, Named(leg));
      EdgeOrdered(roles, axioms, rank, lt, less, Named(leg), y);
      OrderTrans(axioms, lt, x, Named(leg), y);
    }
  }

  lemma PlusOrdered(roles: seq<RoleId>, axioms: seq<RoleAxiom>, rank: map<Role, Role>, lt: RoleOrder, less: set<(Role, Role)>, x: Role, y: Role)
    requires Ordered(roles, axioms, rank, lt) && LessIs(axioms, rank, less)
    requires x in rank && y in rank && ReachesPlus(less, rank[x], rank[y])
    ensures lt(x, y)
  {
    var w :| (rank[x], w) in less && Reaches(less, w, rank[y]);
    var p :| PathFromTo(less, p, w, rank[y]);
    var q := [rank[x]] + p;
    assert IsPath(less, q);
    PathOrdered(roles, axioms, rank, lt, less, q, |q| - 1, x, y);
  }

  lemma NoForcedCycle(roles: seq<RoleId>, axioms: seq<RoleAxiom>, rank: map<Role, Role>, lt: RoleOrder, less: set<(Role, Role)>)
    requires Ordered(roles, axioms, rank, lt) && LessIs(axioms, rank, less)
    ensures !HasCycle(less)
  {
    forall v ensures !ReachesPlus(less, v, v) {
      if ReachesPlus(less, v, v) {
        var z :| (v, z) in less && Reaches(less, z, v);
        var ax, leg := LessSource(roles, axioms, rank, less, (v, z));
        PlusOrdered(roles, axioms, rank, lt, less, Named(leg), Named(leg));
      }
    }
  }

  lemma OrderKeepsForward(roles: seq<RoleId>, axioms: seq<RoleAxiom>, rank: map<Role, Role>, lt: RoleOrder, less: set<(Role, Role)>, x: Role, y: Role)
    requires Ordered(roles, axioms, rank, lt) && LessIs(axioms, rank, less)
    requires x in rank && y in rank && Reaches(Edges(axioms), x, y)
    ensures !ReachesPlus(less, rank[y], rank[x])
  {
    if ReachesPlus(less, rank[y], rank[x]) {
      PlusOrdered(roles, axioms, rank, lt, less, y, x);
    }
  }

  // ----- the whole test -----

  /** Whether some pair is forced back. */
  method ForcedBack(roles: seq<RoleId>, ghost axioms: seq<RoleAxiom>, reach: map<Role, set<Role>>, equiv: map<Role, Role>,
      rank: map<Role, Role>, less: set<(Role, Role)>)
    returns (bad: bool)
    requires AllOver(roles, axioms) && ReachTable(Edges(axioms), AsSet(Nodes(roles)), reach)
    requires KeysAre(equiv, Nodes(roles)) && TellsEquivalent(axioms, equiv)
    requires KeysAre(rank, Nodes(roles)) && LessIs(axioms, rank, less)
    ensures bad <==> !NoneForcedBack(axioms, rank, less)
  {
    var nodes := Nodes(roles);
    ghost var classes := AsSet(nodes) + (set z | z in rank :: rank[z]);
    LessWithin(roles, axioms, rank, less);
    for k := 0 to |nodes|
      invariant NoneBackFrom(axioms, rank, less, nodes[..k])
    {
      BackStep(roles, axioms, rank, reach, less, k);
      bad := ForcedBackFrom(axioms, nodes[k], reach[nodes[k]], equiv, rank, less, classes);
      if bad {
        return;
      }
    }
    assert nodes[..|nodes|] == nodes;
    bad := false;
  }

  ghost predicate NoneBackFrom(axioms: seq<RoleAxiom>, rank: map<Role, Role>, less: set<(Role, Role)>, nodes: seq<Role>) {
    forall x, y {:trigger BackPair(axioms, rank, less, x, y)} :: x in nodes ==> !BackPair(axioms, rank, less, x, y)
  }

  lemma BackStep(roles: seq<RoleId>, axioms: seq<RoleAxiom>, rank: map<Role, Role>, reach: map<Role, set<Role>>, less: set<(Role, Role)>, k: nat)
    requires AllOver(roles, axioms) && ReachTable(Edges(axioms), AsSet(Nodes(roles)), reach) && k < |Nodes(roles)|
    requires NoneBackFrom(axioms, rank, less, Nodes(roles)[..k])
    ensures var x := Nodes(roles)[k];
      && x in Nodes(roles) && x in reach && IsReach(Edges(axioms), x, reach[x]) && (forall y :: y in reach[x] ==> y in Nodes(roles))
      && ((forall y :: !BackPair(axioms, rank, less, x, y)) ==> NoneBackFrom(axioms, rank, less, Nodes(roles)[..k + 1]))
  {
    var nodes := Nodes(roles);
    var x := nodes[k];
    assert x in AsSet(nodes);
    ReachWithin(roles, axioms, x, reach[x]);
    assert nodes[..k + 1] == nodes[..k] + [x];
  }

  method ForcedBackFrom(ghost axioms: seq<RoleAxiom>, x: Role, above: set<Role>, equiv: map<Role, Role>, rank: map<Role, Role>,
      less: set<(Role, Role)>, ghost classes: set<Role>)
    returns (bad: bool)
    requires x in equiv && x in rank && above <= equiv.Keys && above <= rank.Keys && TellsEquivalent(axioms, equiv)
    requires IsReach(Edges(axioms), x, above) && Within(less, classes) && forall z :: z in rank ==> rank[z] in classes
    ensures bad <==> exists y :: BackPair(axioms, rank, less, x, y)
  {
    var todo := above;
    while todo != {}
      invariant todo <= above
      invariant forall y {:trigger BackPair(axioms, rank, less, x, y)} :: BackPair(axioms, rank, less, x, y) ==> y in todo
      decreases |todo|
    {
      var y :| y in todo;
      todo := todo - {y};
      assert equiv[x] == equiv[y] <==> Equivalent(axioms, x, y);
      if equiv[x] != equiv[y] {
        bad := Below(rank[y], rank[x], less, classes);
        if bad {
          assert BackPair(axioms, rank, less, x, y);
          return;
        }
      }
    }
    bad := false;
  }

  lemma ReachWithin(roles: seq<RoleId>, axioms: seq<RoleAxiom>, x: Role, seen: set<Role>)
    requires AllOver(roles, axioms) && x.id in roles && IsReach(Edges(axioms), x, seen)
    ensures forall y :: y in seen ==> y in Nodes(roles)
  {
    EdgesWithin(roles, axioms);
    forall y | y in seen ensures y in Nodes(roles) { ClosedReaches(Edges(axioms), NodeSet(roles), x, y); }
  }

  lemma LessWithin(roles: seq<RoleId>, axioms: seq<RoleAxiom>, rank: map<Role, Role>, less: set<(Role, Role)>)
    requires AllOver(roles, axioms) && KeysAre(rank, Nodes(roles)) && LessIs(axioms, rank, less)
    ensures Within(less, AsSet(Nodes(roles)) + (set x | x in rank :: rank[x]))
  {
    forall a, b | (a, b) in less ensures a in (set x | x in rank :: rank[x]) && b in (set x | x in rank :: rank[x]) {
      var ax, leg :| ax in axioms && IsLeg(ax, leg) && (a, b) == LegEdge(rank, ax, leg);
      assert Over(roles, ax);
      assert Named(leg) in rank && Named(ax.top) in rank;
    }
  }

  /** The test accepts exactly the axiom sets for which some strict partial order on ranks meets
      every condition of section 11.2. */
  method Regular(roles: seq<RoleId>, axioms: seq<RoleAxiom>) returns (ok: bool)
    requires AllOver(roles, axioms)
    ensures ok <==> Ranked(axioms)
  {
    var nodes := Nodes(roles);
    EdgesWithin(roles, axioms);
    assert AsSet(nodes) == NodeSet(roles);
    var reach := Reach(Edges(axioms), nodes);
    var equiv, rank := MergeClasses(roles, axioms, reach);
    ok := Fits(roles, axioms, reach, equiv, rank);
  }

  /** The tables of equivalence classes and of rank classes. */
  method MergeClasses(roles: seq<RoleId>, ghost axioms: seq<RoleAxiom>, reach: map<Role, set<Role>>)
    returns (equiv: map<Role, Role>, rank: map<Role, Role>)
    requires ReachTable(Edges(axioms), AsSet(Nodes(roles)), reach)
    ensures KeysAre(equiv, Nodes(roles)) && TellsEquivalent(axioms, equiv)
    ensures KeysAre(rank, Nodes(roles)) && TellsRank(axioms, rank)
  {
    var nodes := Nodes(roles);
    var uf := new UnionFind(nodes);
    MergeEquivalent(uf, nodes, reach, axioms);
    equiv := Roots(uf, nodes);
    MergeInverses(uf, nodes, axioms);
    rank := Roots(uf, nodes);
  }

  /** The chain constraints, the cycle test and the last test, in this order. */
  method Fits(roles: seq<RoleId>, axioms: seq<RoleAxiom>, reach: map<Role, set<Role>>, equiv: map<Role, Role>, rank: map<Role, Role>)
    returns (ok: bool)
    requires AllOver(roles, axioms) && ReachTable(Edges(axioms), AsSet(Nodes(roles)), reach)
    requires KeysAre(equiv, Nodes(roles)) && TellsEquivalent(axioms, equiv)
    requires KeysAre(rank, Nodes(roles)) && TellsRank(axioms, rank)
    ensures ok <==> Ranked(axioms)
  {
    EquivFiner(axioms, equiv, rank);
    var fits, less := ChainConstraints(roles, axioms, equiv, rank);
    if !fits {
      RejectClash(roles, axioms, rank);
      return false;
    }
    LessWithin(roles, axioms, rank, less);
    var cyclic := AnyCycle(less, AsSet(Nodes(roles)) + (set x | x in rank :: rank[x]));
    if cyclic {
      RejectCycle(roles, axioms, rank, less);
      return false;
    }
    var back := ForcedBack(roles, axioms, reach, equiv, rank, less);
    if back {
      RejectBack(roles, axioms, rank, less);
      return false;
    }
    AcceptedRanked(roles, axioms, rank, less);
    ok := true;
  }

  lemma EquivFiner(axioms: seq<RoleAxiom>, equiv: map<Role, Role>, rank: map<Role, Role>)
    requires TellsEquivalent(axioms, equiv) && TellsRank(axioms, rank) && equiv.Keys == rank.Keys
    ensures Coarser(equiv, rank)
  {
    forall x, y | Together(equiv, x, y) ensures Together(rank, x, y) { assert Equivalent(axioms, x, y) && SameRank(axioms, x, y); }
  }

  lemma RejectClash(roles: seq<RoleId>, axioms: seq<RoleAxiom>, rank: map<Role, Role>)
    requires AllOver(roles, axioms) && KeysAre(rank, Nodes(roles)) && TellsRank(axioms, rank) && Clash(axioms, rank)
    ensures !Ranked(axioms)
  {
    if Ranked(axioms) {
      var lt: RoleOrder :| LegalOrder(axioms, lt) && RankOrder(axioms, lt);
      NoClash(roles, axioms, rank, lt);
    }
  }

  lemma RejectCycle(roles: seq<RoleId>, axioms: seq<RoleAxiom>, rank: map<Role, Role>, less: set<(Role, Role)>)
    requires AllOver(roles, axioms) && KeysAre(rank, Nodes(roles)) && TellsRank(axioms, rank)
    requires LessIs(axioms, rank, less) && HasCycle(less)
    ensures !Ranked(axioms)
  {
    if Ranked(axioms) {
      var lt: RoleOrder :| LegalOrder(axioms, lt) && RankOrder(axioms, lt);
      NoForcedCycle(roles, axioms, rank, lt, less);
    }
  }

  lemma RejectBack(roles: seq<RoleId>, axioms: seq<RoleAxiom>, rank: map<Role, Role>, less: set<(Role, Role)>)
    requires AllOver(roles, axioms) && KeysAre(rank, Nodes(roles)) && TellsRank(axioms, rank)
    requires LessIs(axioms, rank, less) && !NoneForcedBack(axioms, rank, less)
    ensures !Ranked(axioms)
  {
    var x, y :| BackPair(axioms, rank, less, x, y);
    if Ranked(axioms) {
      var lt: RoleOrder :| LegalOrder(axioms, lt) && RankOrder(axioms, lt);
      OrderKeepsForward(roles, axioms, rank, lt, less, x, y);
    }
  }

  // ----- against the standard -----

  /** What the test accepts is legal. */
  lemma RankedLegal(axioms: seq<RoleAxiom>)
    requires Ranked(axioms)
    ensures Legal(axioms)
  {
  }

  /** Expressions of one rank are a role and its inverse. */
  ghost predicate SingleRanks(axioms: seq<RoleAxiom>) {
    forall x, y {:trigger SameRank(axioms, x, y)} :: SameRank(axioms, x, y) ==> x.id == y.id
  }

  /** Where no two roles share a rank the test agrees with the standard: an order may as well not
      tell an expression from its inverse on the right. */
  lemma StandardMet(axioms: seq<RoleAxiom>)
    requires SingleRanks(axioms)
    ensures Ranked(axioms) <==> Legal(axioms)
  {
    if Legal(axioms) {
      var lt: RoleOrder :| LegalOrder(axioms, lt);
      var both: RoleOrder := (x: Role, y: Role) => lt(x, y) || lt(x, y.Flip());
      BothSides(axioms, lt, both);
    }
  }

  lemma BothSides(axioms: seq<RoleAxiom>, lt: RoleOrder, both: RoleOrder)
    requires SingleRanks(axioms) && LegalOrder(axioms, lt)
    requires forall x, y :: both(x, y) <==> lt(x, y) || lt(x, y.Flip())
    ensures LegalOrder(axioms, both) && RankOrder(axioms, both)
  {
    forall x: Role, y: Role ensures lt(x, y) <==> lt(x.Flip(), y) {}
    forall x: Role ensures !both(x, x) { assert lt(x, x.Flip()) <==> lt(x.Flip(), x.Flip()); }
    forall x: Role, y: Role, z: Role | both(x, y) && both(y, z) ensures both(x, z) {
      assert lt(y, z) <==> lt(y.Flip(), z);
      assert lt(y, z.Flip()) <==> lt(y.Flip(), z.Flip());
    }
    forall x: Role, y: Role ensures both(x, y) <==> both(x.Flip(), y) {
      assert lt(x, y.Flip()) <==> lt(x.Flip(), y.Flip());
    }
    forall x: Role, y: Role | both(x, y) ensures !Reaches(Edges(axioms), y, x) {
      assert lt(x, y.Flip()) <==> lt(x.Flip(), y.Flip());
      if Reaches(Edges(axioms), y, x) { ReachesFlip(axioms, y, x); }
    }
    forall x: Role, x': Role, y: Role, y': Role | SameRank(axioms, x, x') && SameRank(axioms, y, y') && both(x, y) ensures both(x', y') {
      assert x' == x || x' == x.Flip();
      assert y' == y || y' == y.Flip();
      assert both(x, y') && (both(x, y') <==> both(x.Flip(), y'));
    }
  }

  /** The test is stricter than the standard: with `l ≡ l'`, `t ≡ t'`, `l ∘ l ⊑ t` and
      `t' ∘ t' ⊑ l'` the standard's order `l < t`, `t' < l'` exists, but on ranks it is a cycle. */
  lemma StricterThanStandard(l: RoleId, l': RoleId, t: RoleId, t': RoleId)
    requires l != l' && l != t && l != t' && l' != t && l' != t' && t != t'
    ensures var axioms := [EquivRole(l, l'), EquivRole(t, t'), Chain(l, l, t), Chain(t', t', l')];
      Legal(axioms) && !Ranked(axioms)
  {
    var axioms := [EquivRole(l, l'), EquivRole(t, t'), Chain(l, l, t), Chain(t', t', l')];
    SplitLegal(l, l', t, t');
    if Ranked(axioms) {
      var lt: RoleOrder :| LegalOrder(axioms, lt) && RankOrder(axioms, lt);
      assert axioms[0] in axioms && axioms[1] in axioms && axioms[2] in axioms && axioms[3] in axioms;
      EquivRoleRank(axioms, l, l');
      EquivRoleRank(axioms, t, t');
      LegOrdered(axioms, lt, axioms[2], l);
      LegOrdered(axioms, lt, axioms[3], t');
    }
  }

  lemma EquivRoleRank(axioms: seq<RoleAxiom>, r: RoleId, s: RoleId)
    requires EquivRole(r, s) in axioms
    ensures SameRank(axioms, Named(r), Named(s))
  {
    EdgesExact(axioms, Named(r), Named(s));
    EdgesExact(axioms, Named(s), Named(r));
    assert Arrow(EquivRole(r, s), Named(r), Named(s)) && Arrow(EquivRole(r, s), Named(s), Named(r));
    ReachesEdge(Edges(axioms), Named(r), Named(s));
    ReachesEdge(Edges(axioms), Named(s), Named(r));
  }

  lemma SplitLegal(l: RoleId, l': RoleId, t: RoleId, t': RoleId)
    requires l != l' && l != t && l != t' && l' != t && l' != t' && t != t'
    ensures Legal([EquivRole(l, l'), EquivRole(t, t'), Chain(l, l, t), Chain(t', t', l')])
  {
    var axioms := [EquivRole(l, l'), EquivRole(t, t'), Chain(l, l, t), Chain(t', t', l')];
    var lt: RoleOrder := (x: Role, y: Role) => (x.id == l && y == Named(t)) || (x.id == t' && y == Named(l'));
    var low := set x | x in [Named(l), Inverse(l), Named(l'), Inverse(l')];
    var high := set x | x in [Named(t), Inverse(t), Named(t'), Inverse(t')];
    forall x, y | (x, y) in Edges(axioms) ensures (x in low <==> y in low) && (x in high <==> y in high) { EdgesExact(axioms, x, y); }
    forall x, y | lt(x, y) ensures !Reaches(Edges(axioms), y, x) {
      if Reaches(Edges(axioms), y, x) {
        if x.id == l { ClosedReaches(Edges(axioms), high, y, x); } else { ClosedReaches(Edges(axioms), low, y, x); }
      }
    }
    assert ChainAllowed(axioms[2], lt) && ChainAllowed(axioms[3], lt);
    assert LegalOrder(axioms, lt);
  }

  // ----- drawing -----

  lemma EmptyRanked()
    ensures Ranked([])
  {
    var lt: RoleOrder := (x: Role, y: Role) => false;
    assert LegalOrder([], lt) && RankOrder([], lt);
  }

  /** Each axiom in turn is added when the result still has a legal order on ranks; with `once`, not
      when it is there already. */
  ghost function Greedily(start: seq<RoleAxiom>, drawn: seq<RoleAxiom>, once: bool): seq<RoleAxiom>
    decreases |drawn|
  {
    if drawn == [] then start
    else
      var n := |drawn| - 1;
      var all := Greedily(start, drawn[..n], once);
      if (once && drawn[n] in all) || !Ranked(all + [drawn[n]]) then all else all + [drawn[n]]
  }

  lemma GreedilySnoc(start: seq<RoleAxiom>, drawn: seq<RoleAxiom>, ax: RoleAxiom, once: bool)
    ensures var all := Greedily(start, drawn, once);
      Greedily(start, drawn + [ax], once) == if (once && ax in all) || !Ranked(all + [ax]) then all else all + [ax]
  {
    assert (drawn + [ax])[..|drawn|] == drawn;
  }

  /** Some prefix of `all`, no shorter than `n`, has no legal order once `ax` is added to it. */
  ghost predicate Refused(all: seq<RoleAxiom>, n: nat, ax: RoleAxiom) {
    exists k :: n <= k <= |all| && !Ranked(all[..k] + [ax])
  }

  /** What the greedy loops come to: the start, then a subsequence of what was drawn, in order; the
      result stays legal, and each axiom left out was refused by what was there at the time. */
  lemma {:induction false} GreedyResult(start: seq<RoleAxiom>, drawn: seq<RoleAxiom>, once: bool)
    requires Ranked(start)
    ensures var all := Greedily(start, drawn, once);
      && start <= all && Subsequence(all[|start|..], drawn) && Ranked(all) && Legal(all)
      && forall ax :: ax in drawn && ax !in all ==> Refused(all, |start|, ax)
    decreases |drawn|
  {
    if drawn == [] {
      SubsequenceSelf<RoleAxiom>([]);
    } else {
      var n := |drawn| - 1;
      var before, all := Greedily(start, drawn[..n], once), Greedily(start, drawn, once);
      GreedyResult(start, drawn[..n], once);
      assert drawn == drawn[..n] + [drawn[n]];
      SubsequenceSnoc(before[|start|..], drawn[..n], drawn[n]);
      if all != before { assert all[|start|..] == before[|start|..] + [drawn[n]]; }
      forall ax | ax in drawn && ax !in all ensures Refused(all, |start|, ax) {
        if ax in drawn[..n] {
          var k :| |start| <= k <= |before| && !Ranked(before[..k] + [ax]);
          assert all[..k] == before[..k];
        } else {
          assert all[..|all|] == all;
        }
      }
    }
    RankedLegal(Greedily(start, drawn, once));
  }

  /** The keep loop that drops by redrawing. */
  method KeepRegular(roles: seq<RoleId>, drawn: seq<RoleAxiom>) returns (kept: seq<RoleAxiom>)
    requires AllOver(roles, drawn)
    ensures kept == Greedily([], drawn, false)
    ensures Ranked(kept) && Legal(kept) && Subsequence(kept, drawn)
    ensures forall ax :: ax in drawn && ax !in kept ==> Refused(kept, 0, ax)
  {
    kept := [];
    for i := 0 to |drawn|
      invariant AllOver(roles, kept) && kept == Greedily([], drawn[..i], false)
    {
      var fits := Regular(roles, kept + [drawn[i]]);
      assert drawn[..i + 1] == drawn[..i] + [drawn[i]];
      GreedilySnoc([], drawn[..i], drawn[i], false);
      if fits {
        kept := kept + [drawn[i]];
      }
    }
    assert drawn[..|drawn|] == drawn;
    EmptyRanked();
    GreedyResult([], drawn, false);
    assert kept[0..] == kept;
  }

  /** The loop that adds to axioms already there. */
  method AddRegular(roles: seq<RoleId>, existing: seq<RoleAxiom>, drawn: seq<RoleAxiom>) returns (all: seq<RoleAxiom>)
    requires AllOver(roles, existing) && AllOver(roles, drawn) && Ranked(existing)
    ensures all == Greedily(existing, drawn, true)
    ensures existing <= all && Ranked(all) && Legal(all) && Subsequence(all[|existing|..], drawn)
    ensures forall ax :: ax in drawn && ax !in all ==> Refused(all, |existing|, ax)
  {
    all := existing;
    for i := 0 to |drawn|
      invariant AllOver(roles, all) && all == Greedily(existing, drawn[..i], true)
    {
      assert drawn[..i + 1] == drawn[..i] + [drawn[i]];
      GreedilySnoc(existing, drawn[..i], drawn[i], true);
      if drawn[i] !in all {
        var fits := Regular(roles, all + [drawn[i]]);
        if fits {
          all := all + [drawn[i]];
        }
      }
    }
    assert drawn[..|drawn|] == drawn;
    GreedyResult(existing, drawn, true);
  }
}
