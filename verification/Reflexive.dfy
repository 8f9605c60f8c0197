/** Contraction of reflexive roles: what it derives, that it ends, and that it loses nothing. */
module Reflexive {
  import opened Dl
  import opened Clauses
  import opened Clausify
  import opened Consequents
  import opened InverseCanon
  import opened Graphs

  /** Cap on derived clauses. */
  const REFLEXIVE_DERIVED_CAP: nat := 4096

  // ----- reflexive roles -----

  function DeclaredReflexive(canon: map<RoleId, Role>, axioms: seq<Axiom>): set<RoleId> {
    set ax | ax in axioms && ax.ReflexiveRole? :: Canon(canon, ax.role).id
  }

  /** Ordered pairs of distinct members. */
  function PairsWith(a: RoleId, ids: seq<RoleId>): (r: seq<(RoleId, RoleId)>)
    ensures forall e :: e in r ==> e.0 == a && e.1 in ids && e.0 != e.1
    ensures forall b :: b in ids && a != b ==> (a, b) in r
  {
    if ids == [] then [] else (if a != ids[0] then [(a, ids[0])] else []) + PairsWith(a, ids[1..])
  }

  function AllPairs(left: seq<RoleId>, ids: seq<RoleId>): (r: seq<(RoleId, RoleId)>)
    ensures forall e :: e in r ==> e.0 in left && e.1 in ids && e.0 != e.1
    ensures forall a, b :: a in left && b in ids && a != b ==> (a, b) in r
  {
    if left == [] then [] else PairsWith(left[0], ids) + AllPairs(left[1..], ids)
  }

  function CanonIds(canon: map<RoleId, Role>, roles: seq<Role>): (r: seq<RoleId>)
    ensures forall id :: id in r <==> exists x :: x in roles && id == Canon(canon, x).id
  {
    if roles == [] then [] else [Canon(canon, roles[0]).id] + CanonIds(canon, roles[1..])
  }

  function AxiomEdges(canon: map<RoleId, Role>, ax: Axiom): seq<(RoleId, RoleId)> {
    match ax
    case SubProperty(r, s) => [(Canon(canon, r).id, Canon(canon, s).id)]
    case EquivalentProperties(roles) => AllPairs(CanonIds(canon, roles), CanonIds(canon, roles))
    case _ => []
  }

  /** Sub-role edges between canonical role ids. */
  function RoleEdges(canon: map<RoleId, Role>, axioms: seq<Axiom>): (r: seq<(RoleId, RoleId)>)
    ensures forall e :: e in r <==> exists ax :: ax in axioms && e in AxiomEdges(canon, ax)
  {
    if axioms == [] then []
    else
      assert axioms == [axioms[0]] + axioms[1..];
      AxiomEdges(canon, axioms[0]) + RoleEdges(canon, axioms[1..])
  }

  /** `s` holds wherever `r` does, as an axiom states it. */
  ghost predicate StatesSubRole(ax: Axiom, r: Role, s: Role) {
    match ax
    case SubProperty(p, q) => r == p && s == q
    case EquivalentProperties(roles) => r in roles && s in roles
    case _ => false
  }

  /** The edges are exactly the stated inclusions, read through the rewriting; equivalent roles with the
      same id add none. */
  lemma RoleEdgesExact(canon: map<RoleId, Role>, axioms: seq<Axiom>, a: RoleId, b: RoleId)
    ensures (a, b) in RoleEdges(canon, axioms) <==>
      exists ax, r, s :: ax in axioms && StatesSubRole(ax, r, s) && a == Canon(canon, r).id && b == Canon(canon, s).id && (ax.SubProperty? || a != b)
  {
    if ax, r, s :| ax in axioms && StatesSubRole(ax, r, s) && a == Canon(canon, r).id && b == Canon(canon, s).id && (ax.SubProperty? || a != b) {
      if ax.EquivalentProperties? { assert a in CanonIds(canon, ax.roles) && b in CanonIds(canon, ax.roles); }
      assert (a, b) in AxiomEdges(canon, ax);
    }
    if (a, b) in RoleEdges(canon, axioms) {
      var ax :| ax in axioms && (a, b) in AxiomEdges(canon, ax);
      if ax.SubProperty? {
        assert StatesSubRole(ax, ax.subRole, ax.supRole);
      } else {
        assert a in CanonIds(canon, ax.roles) && b in CanonIds(canon, ax.roles);
        var r, s :| r in ax.roles && s in ax.roles && a == Canon(canon, r).id && b == Canon(canon, s).id;
        assert StatesSubRole(ax, r, s);
      }
    }
  }

  function EdgeSet(edges: seq<(RoleId, RoleId)>): set<(RoleId, RoleId)> {
    set e | e in edges
  }

  /** Some member of `start` reaches `id`. */
  ghost predicate Above(start: set<RoleId>, edges: set<(RoleId, RoleId)>, id: RoleId) {
    exists s :: s in start && Reaches(edges, s, id)
  }

  lemma AboveStep(start: set<RoleId>, edges: set<(RoleId, RoleId)>, id: RoleId, next: RoleId)
    requires Above(start, edges, id) && (id, next) in edges
    ensures Above(start, edges, next)
  {
    var s :| s in start && Reaches(edges, s, id);
    ReachesStep(edges, s, id, next);
  }

  ghost predicate AllAbove(start: set<RoleId>, edges: set<(RoleId, RoleId)>, r: set<RoleId>) {
    forall id {:trigger Above(start, edges, id)} :: id in r ==> Above(start, edges, id)
  }

  lemma AddAbove(start: set<RoleId>, edges: set<(RoleId, RoleId)>, r: set<RoleId>, e: (RoleId, RoleId))
    requires AllAbove(start, edges, r) && e in edges && e.0 in r
    ensures AllAbove(start, edges, r + {e.1})
  {
    assert e == (e.0, e.1);
    assert Above(start, edges, e.0);
    AboveStep(start, edges, e.0, e.1);
  }

  lemma StartAbove(start: set<RoleId>, edges: set<(RoleId, RoleId)>)
    ensures AllAbove(start, edges, start)
  {
    forall id | id in start ensures Above(start, edges, id) { ReachesSelf(edges, id); }
  }

  /** The least superset of `start` closed under the edges. */
  method CloseUpward(edges: seq<(RoleId, RoleId)>, start: set<RoleId>) returns (r: set<RoleId>)
    ensures start <= r && ClosedUnder(EdgeSet(edges), r)
    ensures AllAbove(start, EdgeSet(edges), r)
  {
    r := start;
    ghost var all := start + set e | e in edges :: e.1;
    StartAbove(start, EdgeSet(edges));
    while true
      invariant start <= r <= all && AllAbove(start, EdgeSet(edges), r)
      decreases |all - r|
    {
      var before := r;
      for k := 0 to |edges|
        invariant before <= r <= all && AllAbove(start, EdgeSet(edges), r)
        invariant forall j :: 0 <= j < k && edges[j].0 in before ==> edges[j].1 in r
      {
        if edges[k].0 in r {
          assert edges[k] in edges;
          AddAbove(start, EdgeSet(edges), r, edges[k]);
          r := r + {edges[k].1};
        }
      }
      if |r| == |before| {
        SameSize(before, r);
        return;
      }
      Shrinks(all, before, r);
    }
  }

  lemma SameSize<T>(a: set<T>, b: set<T>)
    requires a <= b && |a| == |b|
    ensures a == b
  {
    assert |b - a| == 0 by { assert b == a + (b - a); }
  }

  lemma Shrinks<T>(all: set<T>, before: set<T>, after: set<T>)
    requires before <= after <= all && |before| != |after|
    ensures |all - after| < |all - before|
  {
    if after == before {}
    var x :| x in after && x !in before;
    assert all - after <= all - before - {x};
    assert all - before - {x} == (all - after) + ((all - before - {x}) - (all - after));
  }

  /** The declared reflexive roles closed upward: exactly the roles some declared one reaches. */
  method ReflexiveRoleIds(canon: map<RoleId, Role>, axioms: seq<Axiom>) returns (r: set<RoleId>)
    ensures forall id :: id in r <==> Above(DeclaredReflexive(canon, axioms), EdgeSet(RoleEdges(canon, axioms)), id)
  {
    r := DeclaredReflexive(canon, axioms);
    StartAbove(r, EdgeSet(RoleEdges(canon, axioms)));
    if r != {} {
      r := CloseUpward(RoleEdges(canon, axioms), r);
    }
    AboveClosed(DeclaredReflexive(canon, axioms), EdgeSet(RoleEdges(canon, axioms)), r);
  }

  lemma AboveClosed(start: set<RoleId>, edges: set<(RoleId, RoleId)>, r: set<RoleId>)
    requires start <= r && (r == {} || ClosedUnder(edges, r)) && AllAbove(start, edges, r)
    ensures forall id :: id in r <==> Above(start, edges, id)
  {
    forall id | Above(start, edges, id) ensures id in r {
      var s :| s in start && Reaches(edges, s, id);
      ClosedReaches(edges, r, s, id);
    }
  }

  ghost predicate AllReflexive<E(!new)>(I: Interp<E>, refl: set<RoleId>) {
    forall id, x :: id in refl ==> I.rol(id, x, x)
  }

  /** In every model the upward-closed reflexive ids are reflexive. */
  lemma ReflexiveIdsHold<E(!new)>(I: Interp<E>, axioms: seq<Axiom>, refl: set<RoleId>)
    requires Models(I, axioms)
    requires var canon := CanonFrom(map[], axioms);
      forall id :: id in refl ==> Above(DeclaredReflexive(canon, axioms), EdgeSet(RoleEdges(canon, axioms)), id)
    ensures AllReflexive(I, refl)
  {
    forall id, x | id in refl ensures I.rol(id, x, x) { ReflexiveIdHolds(I, axioms, id, x); }
  }

  lemma ReflexiveIdHolds<E(!new)>(I: Interp<E>, axioms: seq<Axiom>, id: RoleId, x: E)
    requires Models(I, axioms)
    requires var canon := CanonFrom(map[], axioms); Above(DeclaredReflexive(canon, axioms), EdgeSet(RoleEdges(canon, axioms)), id)
    ensures I.rol(id, x, x)
  {
    var canon := CanonFrom(map[], axioms);
    var s :| s in DeclaredReflexive(canon, axioms) && Reaches(EdgeSet(RoleEdges(canon, axioms)), s, id);
    var ax :| ax in axioms && ax.ReflexiveRole? && Canon(canon, ax.role).id == s;
    CanonDenotes(I, axioms, ax.role, x, x);
    ReflexiveAxiom(I, axioms, ax.role, x);
    var p :| PathFromTo(EdgeSet(RoleEdges(canon, axioms)), p, s, id);
    AlongEdges(I, axioms, p, |p| - 1, x);
  }

  lemma ReflexiveAxiom<E(!new)>(I: Interp<E>, axioms: seq<Axiom>, r: Role, x: E)
    requires Models(I, axioms) && ReflexiveRole(r) in axioms
    ensures Rel(I, r, x, x)
  {
    assert Holds(I, ReflexiveRole(r));
  }

  lemma {:induction false} AlongEdges<E(!new)>(I: Interp<E>, axioms: seq<Axiom>, p: seq<RoleId>, k: nat, x: E)
    requires Models(I, axioms) && IsPath(EdgeSet(RoleEdges(CanonFrom(map[], axioms), axioms)), p) && k < |p|
    requires I.rol(p[0], x, x)
    ensures I.rol(p[k], x, x)
  {
    if k > 0 {
      AlongEdges(I, axioms, p, k - 1, x);
      assert (p[k - 1], p[k]) in EdgeSet(RoleEdges(CanonFrom(map[], axioms), axioms));
      EdgeReflexive(I, axioms, p[k - 1], p[k], x);
    }
  }

  lemma EdgeReflexive<E(!new)>(I: Interp<E>, axioms: seq<Axiom>, a: RoleId, b: RoleId, x: E)
    requires Models(I, axioms) && (a, b) in RoleEdges(CanonFrom(map[], axioms), axioms) && I.rol(a, x, x)
    ensures I.rol(b, x, x)
  {
    var canon := CanonFrom(map[], axioms);
    var ax :| ax in axioms && (a, b) in AxiomEdges(canon, ax);
    assert Holds(I, ax);
    if ax.SubProperty? {
      CanonDenotes(I, axioms, ax.subRole, x, x);
      CanonDenotes(I, axioms, ax.supRole, x, x);
    } else {
      var r :| r in ax.roles && a == Canon(canon, r).id;
      var s :| s in ax.roles && b == Canon(canon, s).id;
      CanonDenotes(I, axioms, r, x, x);
      CanonDenotes(I, axioms, s, x, x);
      var i :| 0 <= i < |ax.roles| && ax.roles[i] == r;
      var j :| 0 <= j < |ax.roles| && ax.roles[j] == s;
      assert SubRole(I, ax.roles[i], ax.roles[j]);
    }
  }

  // ----- contraction -----

  predicate IsReflexiveEdge(refl: set<RoleId>, a: Atom) {
    a.Edge? && a.role.id in refl
  }

  function Kept(a: Atom): Var
    requires a.Edge?
  {
    if a.w == X then a.w else a.u
  }

  function Dropped(a: Atom): Var
    requires a.Edge?
  {
    if a.w == X then a.u else a.w
  }

  function Sub(keep: Var, drop: Var, v: Var): Var {
    if v == drop then keep else v
  }

  function SubAtom(keep: Var, drop: Var, a: Atom): Atom {
    match a
    case Class(c, v) => Class(c, Sub(keep, drop, v))
    case Edge(r, u, w) => Edge(r, Sub(keep, drop, u), Sub(keep, drop, w))
    case Exists(r, c, v) => Exists(r, c, Sub(keep, drop, v))
    case AtMost(r, q, n, v) => AtMost(r, q, n, Sub(keep, drop, v))
    case AtLeast(r, q, n, v) => AtLeast(r, q, n, Sub(keep, drop, v))
    case Equal(u, w) => Equal(Sub(keep, drop, u), Sub(keep, drop, w))
  }

  function SubAtoms(keep: Var, drop: Var, atoms: seq<Atom>): (r: seq<Atom>)
    ensures |r| == |atoms| && forall k :: 0 <= k < |atoms| ==> r[k] == SubAtom(keep, drop, atoms[k])
  {
    if atoms == [] then []
    else [SubAtom(keep, drop, atoms[0])] + SubAtoms(keep, drop, atoms[1..])
  }

  /** The clause with its edge `idx` read as a loop: one end replaced by the other, the edge dropped. */
  function Contract(cl: DlClause, idx: nat): (r: DlClause)
    requires idx < |cl.body| && cl.body[idx].Edge?
    ensures |r.body| == |cl.body| - 1
  {
    var keep, drop := Kept(cl.body[idx]), Dropped(cl.body[idx]);
    DlClause(SubAtoms(keep, drop, cl.body[..idx] + cl.body[idx + 1..]), SubAtoms(keep, drop, cl.head))
  }

  lemma SubShape(keep: Var, drop: Var, a: Atom)
    ensures keep != drop ==> drop !in AtomVars(SubAtom(keep, drop, a))
    ensures drop !in AtomVars(a) ==> SubAtom(keep, drop, a) == a
  {
  }

  /** `r` is `a` rid of `gone`, and is `a` itself when `gone` is not in it. */
  ghost predicate RidOf(gone: Var, a: Atom, r: Atom) {
    gone !in AtomVars(r) && (gone !in AtomVars(a) ==> r == a)
  }

  /** Contraction of an edge keeps `X` and the source end: the target gives way, unless it is `X`. Every
      other atom stays in place without the end that goes. */
  lemma ContractShape(cl: DlClause, idx: nat, gone: Var)
    requires idx < |cl.body| && cl.body[idx].Edge? && cl.body[idx].u != cl.body[idx].w
    requires gone == if cl.body[idx].w == X then cl.body[idx].u else cl.body[idx].w
    ensures gone != X
    ensures var r := Contract(cl, idx);
      && |r.body| == |cl.body| - 1 && |r.head| == |cl.head|
      && (forall k :: 0 <= k < idx ==> RidOf(gone, cl.body[k], r.body[k]))
      && (forall k :: idx <= k < |r.body| ==> RidOf(gone, cl.body[k + 1], r.body[k]))
      && forall k :: 0 <= k < |r.head| ==> RidOf(gone, cl.head[k], r.head[k])
  {
    var keep, r := Kept(cl.body[idx]), Contract(cl, idx);
    var rest := cl.body[..idx] + cl.body[idx + 1..];
    forall k | 0 <= k < |r.body| ensures RidOf(gone, rest[k], r.body[k]) { SubShape(keep, gone, rest[k]); }
    forall k | 0 <= k < |r.head| ensures RidOf(gone, cl.head[k], r.head[k]) { SubShape(keep, gone, cl.head[k]); }
    forall k | 0 <= k < idx ensures RidOf(gone, cl.body[k], r.body[k]) { assert rest[k] == cl.body[k]; }
    forall k | idx <= k < |r.body| ensures RidOf(gone, cl.body[k + 1], r.body[k]) { assert rest[k] == cl.body[k + 1]; }
  }

  /** A clause that always holds: a head atom is in the body, or is a reflexive self-loop. */
  predicate Redundant(refl: set<RoleId>, cl: DlClause) {
    exists a :: a in cl.head && (a in cl.body || (IsReflexiveEdge(refl, a) && a.u == a.w))
  }

  predicate HasReflexiveEdge(refl: set<RoleId>, cl: DlClause) {
    exists a :: a in cl.body && IsReflexiveEdge(refl, a)
  }

  /** Contraction of `cl` at `idx` is in `out`, or adds nothing. */
  ghost predicate Covered(refl: set<RoleId>, out: seq<DlClause>, cl: DlClause, idx: nat) {
    idx < |cl.body| && IsReflexiveEdge(refl, cl.body[idx]) ==> Contract(cl, idx) in out || Redundant(refl, Contract(cl, idx))
  }

  ghost predicate Processed(refl: set<RoleId>, out: seq<DlClause>, cl: DlClause) {
    forall idx: nat :: idx < |cl.body| ==> Covered(refl, out, cl, idx)
  }

  ghost predicate Closed(refl: set<RoleId>, out: seq<DlClause>) {
    forall cl :: cl in out ==> Processed(refl, out, cl)
  }

  ghost predicate IsContraction(refl: set<RoleId>, earlier: seq<DlClause>, cl: DlClause) {
    exists src, idx: nat :: src in earlier && idx < |src.body| && IsReflexiveEdge(refl, src.body[idx]) && cl == Contract(src, idx)
  }

  /** Every clause after the first `n` is the contraction of an earlier one. */
  ghost predicate Derived(refl: set<RoleId>, n: nat, out: seq<DlClause>)
    decreases |out|
  {
    n < |out| ==>
      var m := |out| - 1;
      IsContraction(refl, out[..m], out[m]) && Derived(refl, n, out[..m])
  }

  // ----- the worklist -----

  /** Weight of a queued clause: its contractions weigh less than it, all together. */
  ghost function Weight(n: nat): nat {
    if n == 0 then 1 else 1 + Times(n, Weight(n - 1))
  }

  ghost function Times(n: nat, w: nat): nat {
    if n == 0 then 0 else w + Times(n - 1, w)
  }

  ghost function TotalWeight(queue: seq<DlClause>): nat {
    if queue == [] then 0 else Weight(|queue[|queue| - 1].body|) + TotalWeight(queue[..|queue| - 1])
  }

  lemma TotalPush(queue: seq<DlClause>, cl: DlClause)
    ensures TotalWeight(queue + [cl]) == TotalWeight(queue) + Weight(|cl.body|)
  {
    assert (queue + [cl])[..|queue|] == queue;
  }

  method Queued(clauses: seq<DlClause>, refl: set<RoleId>) returns (queue: seq<DlClause>)
    ensures forall cl :: cl in queue <==> cl in clauses && HasReflexiveEdge(refl, cl)
  {
    queue := [];
    for k := 0 to |clauses|
      invariant forall cl :: cl in queue <==> cl in clauses[..k] && HasReflexiveEdge(refl, cl)
    {
      if HasReflexiveEdge(refl, clauses[k]) {
        queue := queue + [clauses[k]];
      }
    }
  }

  /** Everything is processed but the queue and the clause at hand. */
  ghost predicate Settled(refl: set<RoleId>, out: seq<DlClause>, queue: seq<DlClause>, clause: DlClause) {
    forall x :: x in out && x !in queue && x != clause ==> Processed(refl, out, x)
  }

  ghost predicate DoneTo(refl: set<RoleId>, out: seq<DlClause>, clause: DlClause, k: nat) {
    forall i: nat :: i < k ==> Covered(refl, out, clause, i)
  }

  lemma ExtendProcessed(refl: set<RoleId>, out: seq<DlClause>, cl: DlClause, x: DlClause)
    requires Processed(refl, out, x)
    ensures Processed(refl, out + [cl], x)
  {
    forall idx: nat | idx < |x.body| ensures Covered(refl, out + [cl], x, idx) { assert Covered(refl, out, x, idx); }
  }

  /** Adding a contraction keeps the bookkeeping. */
  lemma PushStep(refl: set<RoleId>, out: seq<DlClause>, queue: seq<DlClause>, clause: DlClause, idx: nat, queue': seq<DlClause>)
    requires idx < |clause.body| && IsReflexiveEdge(refl, clause.body[idx])
    requires Settled(refl, out, queue, clause) && DoneTo(refl, out, clause, idx)
    requires var cl := Contract(clause, idx); queue' == if HasReflexiveEdge(refl, cl) then queue + [cl] else queue
    ensures Settled(refl, out + [Contract(clause, idx)], queue', clause)
    ensures DoneTo(refl, out + [Contract(clause, idx)], clause, idx + 1)
  {
    var cl := Contract(clause, idx);
    forall x | x in out + [cl] && x !in queue' && x != clause ensures Processed(refl, out + [cl], x) {
      if x in out && x !in queue {
        ExtendProcessed(refl, out, cl, x);
      } else {
        assert !HasReflexiveEdge(refl, x);
      }
    }
    forall i: nat | i < idx + 1 ensures Covered(refl, out + [cl], clause, i) {
      if i < idx { assert Covered(refl, out, clause, i); }
    }
  }

  lemma ExtendDerived(refl: set<RoleId>, n: nat, out: seq<DlClause>, cl: DlClause)
    requires n <= |out| && Derived(refl, n, out) && IsContraction(refl, out, cl)
    ensures Derived(refl, n, out + [cl])
  {
    assert (out + [cl])[..|out|] == out;
  }

  /** No derived clause is redundant, and none is derived twice. */
  ghost predicate Needed(refl: set<RoleId>, seen: seq<DlClause>) {
    && (forall cl :: cl in seen ==> !Redundant(refl, cl))
    && forall i, j :: 0 <= i < j < |seen| ==> seen[i] != seen[j]
  }

  /** What the worklist keeps: `seen` holds the derived clauses, the queue holds known clauses. */
  ghost predicate Working(refl: set<RoleId>, clauses: seq<DlClause>, out: seq<DlClause>, seen: seq<DlClause>, queue: seq<DlClause>) {
    && out == clauses + seen && |seen| <= REFLEXIVE_DERIVED_CAP && Derived(refl, |clauses|, out) && Needed(refl, seen)
    && forall cl :: cl in queue ==> cl in out
  }

  /** The worklist in the middle of a clause. */
  ghost predicate Midway(refl: set<RoleId>, clauses: seq<DlClause>, w: Work, clause: DlClause, idx: nat) {
    Working(refl, clauses, w.out, w.seen, w.queue) && clause in w.out && Settled(refl, w.out, w.queue, clause) && DoneTo(refl, w.out, clause, idx)
  }

  /** The clauses so far, the derived ones among them, and those still to contract. */
  datatype Work = Work(out: seq<DlClause>, seen: seq<DlClause>, queue: seq<DlClause>)

  /** One edge of a clause: its contraction is added when it is reflexive, new and not redundant. */
  method ContractAt(clause: DlClause, idx: nat, refl: set<RoleId>, ghost clauses: seq<DlClause>, w: Work) returns (w': Work, capped: bool)
    requires idx < |clause.body| && Midway(refl, clauses, w, clause, idx)
    ensures Working(refl, clauses, w'.out, w'.seen, w'.queue)
    ensures if capped then |w'.seen| == REFLEXIVE_DERIVED_CAP else Midway(refl, clauses, w', clause, idx + 1)
    ensures TotalWeight(w'.queue) <= TotalWeight(w.queue) + Weight(|clause.body| - 1)
  {
    w', capped := w, false;
    if IsReflexiveEdge(refl, clause.body[idx]) {
      var cl := Contract(clause, idx);
      if !Redundant(refl, cl) && cl !in w.seen {
        if |w.seen| == REFLEXIVE_DERIVED_CAP {
          capped := true;
          return;
        }
        AddStep(refl, clauses, w.out, w.seen, w.queue, clause, idx);
        TotalPush(w.queue, cl);
        w' := Work(w.out + [cl], w.seen + [cl], if HasReflexiveEdge(refl, cl) then w.queue + [cl] else w.queue);
        return;
      }
    }
    DoneStep(refl, w.out, clause, idx);
  }

  /** Adds the contractions of one clause. */
  method ContractClause(clause: DlClause, refl: set<RoleId>, ghost clauses: seq<DlClause>, w: Work) returns (w': Work, capped: bool)
    requires Working(refl, clauses, w.out, w.seen, w.queue) && clause in w.out && Settled(refl, w.out, w.queue, clause)
    ensures Working(refl, clauses, w'.out, w'.seen, w'.queue)
    ensures if capped then |w'.seen| == REFLEXIVE_DERIVED_CAP
      else forall cl :: cl in w'.out && cl !in w'.queue ==> Processed(refl, w'.out, cl)
    ensures TotalWeight(w'.queue) < TotalWeight(w.queue) + Weight(|clause.body|)
  {
    w', capped := w, false;
    ghost var n := |clause.body|;
    for idx := 0 to |clause.body|
      invariant !capped && Midway(refl, clauses, w', clause, idx)
      invariant TotalWeight(w'.queue) + Times(n - idx, if n == 0 then 0 else Weight(n - 1)) < TotalWeight(w.queue) + Weight(n)
    {
      w', capped := ContractAt(clause, idx, refl, clauses, w');
      if capped {
        return;
      }
    }
  }

  lemma DoneStep(refl: set<RoleId>, out: seq<DlClause>, clause: DlClause, idx: nat)
    requires DoneTo(refl, out, clause, idx) && Covered(refl, out, clause, idx)
    ensures DoneTo(refl, out, clause, idx + 1)
  {
  }

  /** Recording a new contraction keeps what the worklist keeps. */
  lemma AddStep(refl: set<RoleId>, clauses: seq<DlClause>, out: seq<DlClause>, seen: seq<DlClause>, queue: seq<DlClause>, clause: DlClause, idx: nat)
    requires Working(refl, clauses, out, seen, queue) && |seen| < REFLEXIVE_DERIVED_CAP && clause in out
    requires Settled(refl, out, queue, clause) && DoneTo(refl, out, clause, idx)
    requires idx < |clause.body| && IsReflexiveEdge(refl, clause.body[idx])
    requires !Redundant(refl, Contract(clause, idx)) && Contract(clause, idx) !in seen
    ensures var cl := Contract(clause, idx); var queue' := if HasReflexiveEdge(refl, cl) then queue + [cl] else queue;
      && Working(refl, clauses, out + [cl], seen + [cl], queue')
      && Settled(refl, out + [cl], queue', clause) && DoneTo(refl, out + [cl], clause, idx + 1)
  {
    var cl := Contract(clause, idx);
    PushStep(refl, out, queue, clause, idx, if HasReflexiveEdge(refl, cl) then queue + [cl] else queue);
    assert IsContraction(refl, out, cl);
    ExtendDerived(refl, |clauses|, out, cl);
  }

  /** Adds the contractions of every clause with a reflexive edge, contractions of contractions
      included. The loop ends whether or not the cap is hit: a popped clause outweighs all that it
      can push. */
  method ApplyReflexiveRoles(clauses: seq<DlClause>, refl: set<RoleId>) returns (out: seq<DlClause>, capped: bool)
    ensures clauses <= out && Derived(refl, |clauses|, out)
    ensures |out| - |clauses| <= 4096 && Needed(refl, out[|clauses|..])
    ensures forall cl, a :: cl in out[|clauses|..] && a in cl.head ==> a !in cl.body && !(a.Edge? && a.role.id in refl && a.u == a.w)
    ensures if capped then |out| - |clauses| == 4096 else Closed(refl, out)
  {
    var queue := Queued(clauses, refl);
    var w := Work(clauses, [], queue);
    capped := false;
    while w.queue != []
      invariant Working(refl, clauses, w.out, w.seen, w.queue) && !capped
      invariant forall cl :: cl in w.out && cl !in w.queue ==> Processed(refl, w.out, cl)
      decreases TotalWeight(w.queue)
    {
      var last := |w.queue| - 1;
      assert w.queue == w.queue[..last] + [w.queue[last]];
      w, capped := ContractClause(w.queue[last], refl, clauses, w.(queue := w.queue[..last]));
      if capped {
        return w.out, true;
      }
    }
    out := w.out;
  }
}
