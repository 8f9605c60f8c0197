/** The role restrictions of OWL 2: which roles are simple, and which hierarchies are regular. */
module RoleLegality {
  import opened Dl
  import opened Graphs

  /** Role axioms of the generator. Role names are the ids of named roles. */
  datatype RoleAxiom =
    | Sub(r: RoleId, s: RoleId)
    | SubInverse(r: RoleId, s: RoleId)
    | InverseOf(r: RoleId, s: RoleId)
    | EquivRole(r: RoleId, s: RoleId)
    | Symmetric(r: RoleId)
    | Transitive(r: RoleId)
    | Chain(first: RoleId, second: RoleId, top: RoleId)

  // ----- sections 11.1 and 11.2 of the OWL 2 Structural Specification -----

  /** One step of the object property hierarchy. */
  ghost predicate Arrow(ax: RoleAxiom, x: Role, y: Role) {
    match ax
    case Sub(r, s) => x.id == r && y.id == s && x.Named? == y.Named?
    case SubInverse(r, s) => x.id == r && y.id == s && x.Named? == y.Named?
    case InverseOf(r, s) => x.Named? != y.Named? && ((x.id == r && y.id == s) || (x.id == s && y.id == r))
    case EquivRole(r, s) => x.Named? == y.Named? && ((x.id == r && y.id == s) || (x.id == s && y.id == r))
    case Symmetric(r) => x.id == r && y.id == r && x.Named? != y.Named?
    case _ => false
  }

  /** Has a composite definition: it or its inverse is transitive or heads a chain. */
  ghost predicate Composite(axioms: seq<RoleAxiom>, x: Role) {
    exists ax :: ax in axioms && ((ax.Transitive? && x.id == ax.r) || (ax.Chain? && x.id == ax.top))
  }

  /** Not above a composite role expression. */
  ghost predicate Simple(axioms: seq<RoleAxiom>, x: Role) {
    forall y :: Composite(axioms, y) ==> !Reaches(Edges(axioms), y, x)
  }

  type RoleOrder = (Role, Role) -> bool

  ghost predicate StrictPartialOrder(lt: RoleOrder) {
    && (forall x :: !lt(x, x))
    && (forall x, y, z :: lt(x, y) && lt(y, z) ==> lt(x, z))
  }

  /** The order does not tell an expression from its inverse on the left. */
  ghost predicate InverseLeft(lt: RoleOrder) {
    forall x, y {:trigger lt(x.Flip(), y)} :: lt(x, y) <==> lt(x.Flip(), y)
  }

  /** Nothing is above what it is a sub-role of. */
  ghost predicate RespectsHierarchy(axioms: seq<RoleAxiom>, lt: RoleOrder) {
    forall x, y :: lt(x, y) ==> !Reaches(Edges(axioms), y, x)
  }

  /** The forms a chain of two may take. */
  ghost predicate ChainAllowed(ax: RoleAxiom, lt: RoleOrder)
    requires ax.Chain?
  {
    var a, b, t := Named(ax.first), Named(ax.second), Named(ax.top);
    || (a == t && b == t)
    || (lt(a, t) && lt(b, t))
    || (a == t && lt(b, t))
    || (b == t && lt(a, t))
  }

  ghost predicate ChainsAllowed(axioms: seq<RoleAxiom>, lt: RoleOrder) {
    forall ax :: ax in axioms && ax.Chain? ==> ChainAllowed(ax, lt)
  }

  /** `lt` meets every condition on a regular hierarchy. */
  ghost predicate LegalOrder(axioms: seq<RoleAxiom>, lt: RoleOrder) {
    StrictPartialOrder(lt) && InverseLeft(lt) && RespectsHierarchy(axioms, lt) && ChainsAllowed(axioms, lt)
  }

  ghost predicate Legal(axioms: seq<RoleAxiom>) {
    exists lt: RoleOrder :: LegalOrder(axioms, lt)
  }

  // ----- what the regularity test decides -----

  ghost predicate Equivalent(axioms: seq<RoleAxiom>, x: Role, y: Role) {
    Reaches(Edges(axioms), x, y) && Reaches(Edges(axioms), y, x)
  }

  /** Same rank: equivalent up to inverse. */
  ghost predicate SameRank(axioms: seq<RoleAxiom>, x: Role, y: Role) {
    Equivalent(axioms, x, y) || Equivalent(axioms, x, y.Flip())
  }

  /** The order does not tell expressions of one rank apart, on either side. */
  ghost predicate RankOrder(axioms: seq<RoleAxiom>, lt: RoleOrder) {
    forall x, x', y, y' {:trigger SameRank(axioms, x, x'), SameRank(axioms, y, y')} ::
      SameRank(axioms, x, x') && SameRank(axioms, y, y') && lt(x, y) ==> lt(x', y')
  }

  /** A legal order on ranks. */
  ghost predicate Ranked(axioms: seq<RoleAxiom>) {
    exists lt: RoleOrder :: LegalOrder(axioms, lt) && RankOrder(axioms, lt)
  }

  // ----- sub-role edges -----

  function AxiomEdges(ax: RoleAxiom): set<(Role, Role)> {
    match ax
    case Sub(r, s) => {(Named(r), Named(s))}
    case SubInverse(r, s) => {(Inverse(r), Inverse(s))}
    case InverseOf(r, s) => {(Named(r), Inverse(s)), (Inverse(s), Named(r))}
    case EquivRole(r, s) => {(Named(r), Named(s)), (Named(s), Named(r))}
    case Symmetric(r) => {(Named(r), Inverse(r)), (Inverse(r), Named(r))}
    case _ => {}
  }

  /** Edges before and after closing under inverse. */
  function OpenEdges(axioms: seq<RoleAxiom>): set<(Role, Role)> {
    set ax, e | ax in axioms && e in AxiomEdges(ax) :: e
  }

  function FlipEdge(e: (Role, Role)): (Role, Role) {
    (e.0.Flip(), e.1.Flip())
  }

  function Edges(axioms: seq<RoleAxiom>): set<(Role, Role)> {
    OpenEdges(axioms) + set e | e in OpenEdges(axioms) :: FlipEdge(e)
  }

  lemma ArrowEdge(ax: RoleAxiom, x: Role, y: Role)
    ensures Arrow(ax, x, y) <==> (x, y) in AxiomEdges(ax) || (x.Flip(), y.Flip()) in AxiomEdges(ax)
  {
  }

  /** The edges are exactly the steps of the object property hierarchy. */
  lemma EdgesExact(axioms: seq<RoleAxiom>, x: Role, y: Role)
    ensures (x, y) in Edges(axioms) <==> exists ax :: ax in axioms && Arrow(ax, x, y)
  {
    if (x, y) in Edges(axioms) {
      if (x, y) in OpenEdges(axioms) {
        var ax :| ax in axioms && (x, y) in AxiomEdges(ax);
        ArrowEdge(ax, x, y);
      } else {
        var e :| e in OpenEdges(axioms) && FlipEdge(e) == (x, y);
        var ax :| ax in axioms && e in AxiomEdges(ax);
        assert e == (x.Flip(), y.Flip());
        ArrowEdge(ax, x, y);
      }
    }
    if ax :| ax in axioms && Arrow(ax, x, y) {
      ArrowEdge(ax, x, y);
      if (x, y) !in AxiomEdges(ax) {
        assert (x.Flip(), y.Flip()) in OpenEdges(axioms);
        assert FlipEdge((x.Flip(), y.Flip())) == (x, y);
      }
    }
  }

  lemma EdgeFlips(axioms: seq<RoleAxiom>, x: Role, y: Role)
    requires (x, y) in Edges(axioms)
    ensures (x.Flip(), y.Flip()) in Edges(axioms)
  {
    if (x, y) in OpenEdges(axioms) {
      assert FlipEdge((x, y)) == (x.Flip(), y.Flip());
    } else {
      var e :| e in OpenEdges(axioms) && FlipEdge(e) == (x, y);
      assert e == (x.Flip(), y.Flip());
    }
  }

  function FlipAll(p: seq<Role>): (r: seq<Role>)
    ensures |r| == |p| && forall k :: 0 <= k < |p| ==> r[k] == p[k].Flip()
  {
    if p == [] then [] else [p[0].Flip()] + FlipAll(p[1..])
  }

  /** Reachability is closed under inverse. */
  lemma ReachesFlip(axioms: seq<RoleAxiom>, x: Role, y: Role)
    requires Reaches(Edges(axioms), x, y)
    ensures Reaches(Edges(axioms), x.Flip(), y.Flip())
  {
    var p :| PathFromTo(Edges(axioms), p, x, y);
    var q := FlipAll(p);
    forall i, j | 0 <= i < j < |q| && j == i + 1 ensures (q[i], q[j]) in Edges(axioms) { EdgeFlips(axioms, p[i], p[j]); }
    assert PathFromTo(Edges(axioms), q, x.Flip(), y.Flip());
  }

  lemma EquivalentFlip(axioms: seq<RoleAxiom>, x: Role, y: Role)
    requires Equivalent(axioms, x, y)
    ensures Equivalent(axioms, x.Flip(), y.Flip())
  {
    ReachesFlip(axioms, x, y);
    ReachesFlip(axioms, y, x);
  }

  lemma EquivalentTrans(axioms: seq<RoleAxiom>, x: Role, y: Role, z: Role)
    requires Equivalent(axioms, x, y) && Equivalent(axioms, y, z)
    ensures Equivalent(axioms, x, z)
  {
    ReachesTrans(Edges(axioms), x, y, z);
    ReachesTrans(Edges(axioms), z, y, x);
  }

  lemma EquivalentSelf(axioms: seq<RoleAxiom>, x: Role)
    ensures Equivalent(axioms, x, x)
  {
    ReachesSelf(Edges(axioms), x);
  }

  /** Rank is an equivalence that merges each expression with its inverse. */
  lemma RankSelf(axioms: seq<RoleAxiom>, x: Role)
    ensures SameRank(axioms, x, x) && SameRank(axioms, x, x.Flip())
  {
    EquivalentSelf(axioms, x);
  }

  lemma RankSym(axioms: seq<RoleAxiom>, x: Role, y: Role)
    requires SameRank(axioms, x, y)
    ensures SameRank(axioms, y, x)
  {
    if !Equivalent(axioms, x, y) { EquivalentFlip(axioms, x, y.Flip()); }
  }

  lemma RankTrans(axioms: seq<RoleAxiom>, x: Role, y: Role, z: Role)
    requires SameRank(axioms, x, y) && SameRank(axioms, y, z)
    ensures SameRank(axioms, x, z)
  {
    if Equivalent(axioms, x, y) {
      if Equivalent(axioms, y, z) { EquivalentTrans(axioms, x, y, z); } else { EquivalentTrans(axioms, x, y, z.Flip()); }
    } else if Equivalent(axioms, y, z) {
      EquivalentFlip(axioms, y, z);
      EquivalentTrans(axioms, x, y.Flip(), z.Flip());
    } else {
      EquivalentFlip(axioms, y, z.Flip());
      EquivalentTrans(axioms, x, y.Flip(), z);
    }
  }

  // ----- nodes -----

  /** Both expressions of every role. */
  function Nodes(roles: seq<RoleId>): (r: seq<Role>)
    ensures forall x :: x in r <==> x.id in roles
  {
    if roles == [] then [] else [Named(roles[0]), Inverse(roles[0])] + Nodes(roles[1..])
  }

  predicate Over(roles: seq<RoleId>, ax: RoleAxiom) {
    match ax
    case Symmetric(r) => r in roles
    case Transitive(r) => r in roles
    case Chain(a, b, t) => a in roles && b in roles && t in roles
    case _ => ax.r in roles && ax.s in roles
  }

  predicate AllOver(roles: seq<RoleId>, axioms: seq<RoleAxiom>) {
    forall ax :: ax in axioms ==> Over(roles, ax)
  }

  function AsSet(v: seq<Role>): (r: set<Role>)
    ensures forall x :: x in r <==> x in v
  {
    set x | x in v
  }

  function NodeSet(roles: seq<RoleId>): (r: set<Role>)
    ensures forall x :: x in r <==> x.id in roles
  {
    AsSet(Nodes(roles))
  }

  lemma EdgesWithin(roles: seq<RoleId>, axioms: seq<RoleAxiom>)
    requires AllOver(roles, axioms)
    ensures Within(Edges(axioms), NodeSet(roles))
  {
    forall a, b | (a, b) in Edges(axioms) ensures a in NodeSet(roles) && b in NodeSet(roles) {
      EdgesExact(axioms, a, b);
      var ax :| ax in axioms && Arrow(ax, a, b);
      assert Over(roles, ax);
    }
  }

  // ----- reachability, by a stack -----

  /** Everything reachable from `n`, itself included. */
  method ReachFrom<N(==, !new)>(edges: set<(N, N)>, n: N, ghost nodes: set<N>) returns (seen: set<N>)
    requires n in nodes && Within(edges, nodes)
    ensures IsReach(edges, n, seen)
  {
    seen := {n};
    var st := [n];
    ReachesSelf(edges, n);
    while st != []
      invariant Stacked(edges, n, seen, st) && seen <= nodes
      decreases |nodes - seen|, |st|
    {
      var x := st[|st| - 1];
      PopStack(edges, n, seen, st);
      st := st[..|st| - 1];
      var todo := Successors(edges, x);
      ghost var before, height := seen, |st|;
      while todo != {}
        invariant Expanding(edges, n, x, todo, seen, st) && before <= seen <= nodes
        invariant |nodes - seen| <= |nodes - before|
        invariant |nodes - seen| == |nodes - before| ==> |st| == height
        decreases |todo|
      {
        var y :| y in todo;
        ExpandStep(edges, n, x, todo, seen, st, y);
        todo := todo - {y};
        if y !in seen {
          FewerLeft(nodes, seen, y);
          seen := seen + {y};
          st := st + [y];
        }
      }
    }
    StackDone(edges, n, seen);
  }

  ghost predicate ReachTable(edges: set<(Role, Role)>, nodes: set<Role>, reach: map<Role, set<Role>>) {
    forall n :: n in nodes ==> n in reach && IsReach(edges, n, reach[n])
  }

  method Reach(edges: set<(Role, Role)>, nodes: seq<Role>) returns (reach: map<Role, set<Role>>)
    requires Within(edges, AsSet(nodes))
    ensures ReachTable(edges, AsSet(nodes), reach)
  {
    reach := map[];
    for k := 0 to |nodes|
      invariant ReachTable(edges, AsSet(nodes[..k]), reach)
    {
      var seen := ReachFrom(edges, nodes[k], AsSet(nodes));
      assert AsSet(nodes[..k + 1]) == AsSet(nodes[..k]) + {nodes[k]};
      reach := reach[nodes[k] := seen];
    }
    assert nodes[..|nodes|] == nodes;
  }

  // ----- simple roles -----

  function CompositeIds(axioms: seq<RoleAxiom>): (r: set<RoleId>)
    ensures forall x: Role :: x.id in r <==> Composite(axioms, x)
  {
    (set ax | ax in axioms && ax.Transitive? :: ax.r) + (set ax | ax in axioms && ax.Chain? :: ax.top)
  }

  /** Exactly the names neither of whose expressions is above a composite one. */
  method SimpleRoles(roles: seq<RoleId>, axioms: seq<RoleAxiom>) returns (simple: set<RoleId>)
    requires AllOver(roles, axioms)
    ensures forall x :: x in simple <==> x in roles && Simple(axioms, Named(x)) && Simple(axioms, Inverse(x))
  {
    var nodes := Nodes(roles);
    EdgesWithin(roles, axioms);
    var reach := Reach(Edges(axioms), nodes);
    var composite := CompositeIds(axioms);
    var bad := set n, m | m in nodes && m.id in composite && n in nodes && m in reach && n in reach[m] :: n;
    forall n | n in nodes ensures n in bad <==> !Simple(axioms, n) {
      if n in bad {
        var m :| m in nodes && m.id in composite && m in reach && n in reach[m];
        assert m in AsSet(nodes) && IsReach(Edges(axioms), m, reach[m]);
      }
      if !Simple(axioms, n) {
        var m :| Composite(axioms, m) && Reaches(Edges(axioms), m, n);
        CompositeOver(roles, axioms, m);
        assert m in AsSet(nodes) && n in reach[m];
      }
    }
    simple := set x | x in roles && Named(x) !in bad && Inverse(x) !in bad;
  }

  lemma CompositeOver(roles: seq<RoleId>, axioms: seq<RoleAxiom>, m: Role)
    requires AllOver(roles, axioms) && Composite(axioms, m)
    ensures m.id in roles
  {
    var ax :| ax in axioms && ((ax.Transitive? && m.id == ax.r) || (ax.Chain? && m.id == ax.top));
    assert Over(roles, ax);
  }
}
