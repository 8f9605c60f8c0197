/** The clausifier as a whole: refutation soundness and what the clauses give back. */
module Faithfulness {
  import opened Dl
  import opened Clauses
  import opened Clausify
  import opened Antecedents
  import opened Consequents
  import opened Converse
  import opened AxiomMeaning
  import opened InverseCanon

  // ----- role axioms -----

  function Env3<E>(x: E, y: E, z: E): Env<E> {
    (w: Var) => if w == X then x else if w == X + 1 then y else z
  }

  lemma PairBody<E(!new)>(J: Interp<E>, a: Atom, b: Atom, env: Env<E>)
    ensures BodyHolds(J, [a, b], env) <==> AtomHolds(J, a, env) && AtomHolds(J, b, env)
  {
    assert [a, b] == [a] + [b];
    BodySplit(J, [a], [b], env);
    UnitBody(J, a, env);
    UnitBody(J, b, env);
  }

  /** `r(x,y) ∧ s(y,z) → t(x,z)`. */
  lemma ChainClause<E(!new)>(J: Interp<E>, r: Role, s: Role, t: Role)
    ensures ClauseHolds(J, DlClause([Edge(r, X, X + 1), Edge(s, X + 1, X + 2)], [Edge(t, X, X + 2)])) <==>
      forall x, y, z :: Rel(J, r, x, y) && Rel(J, s, y, z) ==> Rel(J, t, x, z)
  {
    var body, a := [Edge(r, X, X + 1), Edge(s, X + 1, X + 2)], Edge(t, X, X + 2);
    UnitClause(J, body, a);
    if forall x, y, z :: Rel(J, r, x, y) && Rel(J, s, y, z) ==> Rel(J, t, x, z) {
      forall env: Env<E> | BodyHolds(J, body, env) ensures AtomHolds(J, a, env) { PairBody(J, body[0], body[1], env); }
    }
    if ClauseHolds(J, DlClause(body, [a])) {
      forall x, y, z | Rel(J, r, x, y) && Rel(J, s, y, z) ensures Rel(J, t, x, z) {
        PairBody(J, body[0], body[1], Env3(x, y, z));
        assert BodyHolds(J, body, Env3(x, y, z));
        assert AtomHolds(J, a, Env3(x, y, z));
      }
    }
  }

  lemma DenialClause<E(!new)>(J: Interp<E>, body: Body)
    ensures ClauseHolds(J, DlClause(body, [])) <==> forall env: Env<E> :: !BodyHolds(J, body, env)
  {
    assert forall env: Env<E> :: !HeadHolds(J, [], env);
  }

  /** `r(x,y) ∧ s(x,y) → ⊥`. */
  lemma ParallelClause<E(!new)>(J: Interp<E>, r: Role, s: Role)
    ensures ClauseHolds(J, DlClause([Edge(r, X, X + 1), Edge(s, X, X + 1)], [])) <==>
      forall x, y :: !(Rel(J, r, x, y) && Rel(J, s, x, y))
  {
    var body := [Edge(r, X, X + 1), Edge(s, X, X + 1)];
    DenialClause(J, body);
    forall env: Env<E> ensures BodyHolds(J, body, env) <==> Rel(J, r, env(X), env(X + 1)) && Rel(J, s, env(X), env(X + 1)) {
      PairBody(J, body[0], body[1], env);
    }
    if forall env: Env<E> :: !BodyHolds(J, body, env) {
      forall x, y ensures !(Rel(J, r, x, y) && Rel(J, s, x, y)) {
        var env := Env3(x, y, y);
        assert env(X) == x && env(X + 1) == y;
        assert !BodyHolds(J, body, env);
      }
    }
  }

  /** `r(x,y) ∧ r(y,x) → ⊥`. */
  lemma OppositeClause<E(!new)>(J: Interp<E>, r: Role)
    ensures ClauseHolds(J, DlClause([Edge(r, X, X + 1), Edge(r, X + 1, X)], [])) <==>
      forall x, y :: !(Rel(J, r, x, y) && Rel(J, r, y, x))
  {
    var body := [Edge(r, X, X + 1), Edge(r, X + 1, X)];
    DenialClause(J, body);
    forall env: Env<E> ensures BodyHolds(J, body, env) <==> Rel(J, r, env(X), env(X + 1)) && Rel(J, r, env(X + 1), env(X)) {
      PairBody(J, body[0], body[1], env);
    }
    if forall env: Env<E> :: !BodyHolds(J, body, env) {
      forall x, y ensures !(Rel(J, r, x, y) && Rel(J, r, y, x)) {
        var env := Env3(x, y, y);
        assert env(X) == x && env(X + 1) == y;
        assert !BodyHolds(J, body, env);
      }
    }
  }

  lemma LoopDenied<E(!new)>(J: Interp<E>, r: Role)
    ensures ClauseHolds(J, DlClause([Edge(r, X, X)], [])) <==> forall x :: !Rel(J, r, x, x)
  {
    DenialClause(J, [Edge(r, X, X)]);
    forall env: Env<E> { UnitBody(J, Edge(r, X, X), env); }
    if forall env: Env<E> :: !BodyHolds(J, [Edge(r, X, X)], env) {
      forall x ensures !Rel(J, r, x, x) { assert !BodyHolds(J, [Edge(r, X, X)], Env3(x, x, x)); }
    }
  }

  lemma ViewRole<E(!new)>(cfg: Config, J: Interp<E>, r: Role)
    ensures forall x, y :: Rel(View(cfg, J), r, x, y) == Rel(J, Canon(cfg.canon, r), x, y)
  {
    forall x, y { ViewRel(cfg, J, r, x, y); }
  }

  /** `r(x,y) → c(x)`. */
  lemma DomainImplied<E(!new)>(cfg: Config, J: Interp<E>, r: Role, c: Concept)
    ensures Implied(cfg, J, [Edge(Canon(cfg.canon, r), X, X + 1)], c, X) <==> Holds(View(cfg, J), PropertyDomain(r, c))
  {
    var a := Edge(Canon(cfg.canon, r), X, X + 1);
    ViewRole(cfg, J, r);
    forall env: Env<E> { UnitBody(J, a, env); }
    if Implied(cfg, J, [a], c, X) {
      forall x, y | Rel(View(cfg, J), r, x, y) ensures Sat(View(cfg, J), c, x) { assert BodyHolds(J, [a], Env3(x, y, y)); }
    }
  }

  /** `r(x,y) → c(y)`. */
  lemma RangeImplied<E(!new)>(cfg: Config, J: Interp<E>, r: Role, c: Concept)
    ensures Implied(cfg, J, [Edge(Canon(cfg.canon, r), X, X + 1)], c, X + 1) <==> Holds(View(cfg, J), PropertyRange(r, c))
  {
    var a := Edge(Canon(cfg.canon, r), X, X + 1);
    ViewRole(cfg, J, r);
    forall env: Env<E> { UnitBody(J, a, env); }
    if Implied(cfg, J, [a], c, X + 1) {
      forall x, y | Rel(View(cfg, J), r, x, y) ensures Sat(View(cfg, J), c, y) { assert BodyHolds(J, [a], Env3(x, y, y)); }
    }
  }

  lemma RolePush<E(!new)>(cfg: Config, J: Interp<E>, st: State, nv: Var, body: Body, head: seq<Atom>, t: bool)
    requires ClauseHolds(J, DlClause(body, head)) <==> t
    requires AtomsBelow(body, 0) && AtomsBelow(head, 0)
    ensures Adds(cfg, J, st, st.(nextVar := nv).Push(body, head), t, true, t)
  {
    PushHolds(J, st.(nextVar := nv), body, head);
    if WfState(cfg, st) {
      LiftBelow(body, 0, NextFresh(cfg, st));
      LiftBelow(head, 0, NextFresh(cfg, st));
      PushWf(cfg, st.(nextVar := nv), body, head);
    }
  }

  ghost predicate RolesApart<E(!new)>(I: Interp<E>, r: Role, s: Role) {
    forall x, y :: !(Rel(I, r, x, y) && Rel(I, s, x, y))
  }

  /** Disjointness of every two distinct operands from positions `(i, j)` on: a repeated operand says nothing. */
  ghost predicate DistinctApart<E(!new)>(I: Interp<E>, rs: seq<Role>, i: nat, j: nat) {
    forall a, b {:trigger RolesApart(I, rs[a], rs[b])} ::
      0 <= a < b < |rs| && rs[a] != rs[b] && (i < a || (i == a && j <= b)) ==> RolesApart(I, rs[a], rs[b])
  }

  lemma DenyRolesAdds<E(!new)>(cfg: Config, J: Interp<E>, st: State, r: Role, s: Role)
    ensures Adds(cfg, J, st, DenyRoles(cfg, st, r, s), r == s || RolesApart(View(cfg, J), r, s), true,
      r == s || RolesApart(View(cfg, J), r, s))
  {
    if r == s {
      NothingAdds(cfg, J, st, true, true, true);
    } else {
      var cr, cs := Canon(cfg.canon, r), Canon(cfg.canon, s);
      ParallelClause(J, cr, cs);
      ViewRole(cfg, J, r); ViewRole(cfg, J, s);
      RolePush(cfg, J, st, X + 2, [Edge(cr, X, X + 1), Edge(cs, X, X + 1)], [], RolesApart(View(cfg, J), r, s));
    }
  }

  lemma ApartStep<E(!new)>(I: Interp<E>, rs: seq<Role>, i: nat, j: nat)
    requires i < j <= |rs|
    ensures j == |rs| ==> (DistinctApart(I, rs, i, j) <==> DistinctApart(I, rs, i + 1, i + 2))
    ensures j < |rs| ==> (DistinctApart(I, rs, i, j) <==> (rs[i] == rs[j] || RolesApart(I, rs[i], rs[j])) && DistinctApart(I, rs, i, j + 1))
  {
    if j < |rs| && (rs[i] == rs[j] || RolesApart(I, rs[i], rs[j])) && DistinctApart(I, rs, i, j + 1) {
      forall a, b | 0 <= a < b < |rs| && rs[a] != rs[b] && (i < a || (i == a && j <= b)) ensures RolesApart(I, rs[a], rs[b]) {
        if a == i && b == j {}
      }
    }
  }

  lemma {:induction false} DenyRolesAllAdds<E(!new)>(cfg: Config, J: Interp<E>, st: State, rs: seq<Role>, i: nat, j: nat)
    requires i < j <= |rs| || (i == |rs| && j == |rs| + 1)
    ensures Adds(cfg, J, st, DenyRolesFrom(cfg, st, rs, i, j), DistinctApart(View(cfg, J), rs, i, j), true, DistinctApart(View(cfg, J), rs, i, j))
    decreases |rs| - i, |rs| + 1 - j
  {
    var I := View(cfg, J);
    if i < |rs| {
      ApartStep(I, rs, i, j);
      if j == |rs| {
        DenyRolesAllAdds(cfg, J, st, rs, i + 1, i + 2);
      } else {
        DenyRolesAdds(cfg, J, st, rs[i], rs[j]);
        DenyRolesAllAdds(cfg, J, DenyRoles(cfg, st, rs[i], rs[j]), rs, i, j + 1);
        AddsThen(cfg, J, st, DenyRoles(cfg, st, rs[i], rs[j]), DenyRolesFrom(cfg, st, rs, i, j),
          rs[i] == rs[j] || RolesApart(I, rs[i], rs[j]), true, rs[i] == rs[j] || RolesApart(I, rs[i], rs[j]),
          DistinctApart(I, rs, i, j + 1), true, DistinctApart(I, rs, i, j + 1));
      }
    }
  }

  // ----- one axiom -----

  ghost predicate KnownAxiom(cfg: Config, ax: Axiom) {
    match ax
    case SubClassOf(c, d) => Known(cfg, c) && Known(cfg, d)
    case EquivalentClasses(cs) => AllKnown(cfg, cs)
    case DisjointClasses(cs) => AllKnown(cfg, cs)
    case DisjointUnion(a, cs) => AllKnown(cfg, cs) && a < cfg.nominalBase
    case PropertyDomain(_, c) => Known(cfg, c)
    case PropertyRange(_, c) => Known(cfg, c)
    case _ => true
  }

  /** No cardinality head of the axiom is dropped. */
  ghost predicate KeptAxiom(cfg: Config, ax: Axiom) {
    match ax
    case SubClassOf(c, d) => NoDkey(cfg, GciHead(cfg, c, d))
    case EquivalentClasses(cs) => KeptPairs(cfg, cs)
    case PropertyDomain(_, c) => NoDkey(cfg, c)
    case PropertyRange(_, c) => NoDkey(cfg, c)
    case _ => true
  }

  /** No `≤` filler of the axiom gets a structural name. */
  ghost predicate PlainAxiom(cfg: Config, ax: Axiom) {
    match ax
    case SubClassOf(c, d) => PlainMax(GciHead(cfg, c, d))
    case EquivalentClasses(cs) => PlainPairs(cfg, cs)
    case PropertyDomain(_, c) => PlainMax(c)
    case PropertyRange(_, c) => PlainMax(c)
    case _ => true
  }

  /** The part of an axiom that its clauses carry. Role inclusions, functionality, symmetry and
      the like go to the engine by other routes and carry nothing here. */
  ghost predicate Carried<E(!new)>(I: Interp<E>, ax: Axiom) {
    match ax
    case SubClassOf(_, _) => Holds(I, ax)
    case EquivalentClasses(_) => Holds(I, ax)
    case DisjointClasses(_) => Holds(I, ax)
    case DisjointUnion(_, _) => Holds(I, ax)
    case PropertyDomain(_, _) => Holds(I, ax)
    case PropertyRange(_, _) => Holds(I, ax)
    case SubChain(_, _) => Holds(I, ax)
    case TransitiveRole(_) => Holds(I, ax)
    case IrreflexiveRole(_) => Holds(I, ax)
    case AsymmetricRole(_) => Holds(I, ax)
    case DisjointProperties(rs) => DistinctApart(I, rs, 0, 1)
    case _ => true
  }

  /** The part of it that the clauses say in every interpretation, with each `≤` restriction over a
      compound filler read as ⊤ in the heads. */
  ghost predicate WeaklyCarried<E(!new)>(cfg: Config, I: Interp<E>, ax: Axiom) {
    match ax
    case SubClassOf(c, d) => GciGiven(cfg, I, c, d)
    case EquivalentClasses(cs) => GivenFrom(cfg, I, cs, 0, 0)
    case PropertyDomain(r, c) => Holds(I, PropertyDomain(r, Weak(c)))
    case PropertyRange(r, c) => Holds(I, PropertyRange(r, Weak(c)))
    case _ => Carried(I, ax)
  }

  /** Nothing is missing when no `≤` filler gets a name. */
  lemma PlainCarried<E(!new)>(cfg: Config, I: Interp<E>, ax: Axiom)
    requires PlainAxiom(cfg, ax)
    ensures WeaklyCarried(cfg, I, ax) <==> Carried(I, ax)
  {
    match ax
    case SubClassOf(c, d) => PlainGci(cfg, I, c, d);
    case EquivalentClasses(cs) =>
      forall a, b | 0 <= a < |cs| && 0 <= b < |cs| && a != b ensures GciGiven(cfg, I, cs[a], cs[b]) <==> Subsumed(I, cs[a], cs[b]) {
        assert PlainMax(GciHead(cfg, cs[a], cs[b]));
        PlainGci(cfg, I, cs[a], cs[b]);
      }
      assert GivenFrom(cfg, I, cs, 0, 0) <==> SubsumedFrom(I, cs, 0, 0);
      AllPairsSubsumed(I, cs);
    case PropertyDomain(r, c) => WeakPlain(c);
    case PropertyRange(r, c) => WeakPlain(c);
    case _ =>
  }

  lemma AllPairsSubsumed<E(!new)>(I: Interp<E>, cs: seq<Concept>)
    ensures PairwiseSubsumed(I, cs) <==> SubsumedFrom(I, cs, 0, 0)
  {
    if SubsumedFrom(I, cs, 0, 0) {
      forall i, j | 0 <= i < |cs| && 0 <= j < |cs| ensures Subsumed(I, cs[i], cs[j]) { if i == j {} }
    }
  }

  lemma CarriedHolds<E(!new)>(I: Interp<E>, ax: Axiom)
    requires Holds(I, ax)
    ensures Carried(I, ax)
  {
    match ax
    case DisjointProperties(rs) =>
      forall a, b | 0 <= a < b < |rs| && rs[a] != rs[b] ensures RolesApart(I, rs[a], rs[b]) {}
    case _ =>
  }

  /** What a disjointness axiom loses: the operands it repeats, which the standard makes empty. */
  lemma RepeatedOperands<E(!new)>(I: Interp<E>, rs: seq<Role>)
    ensures Holds(I, DisjointProperties(rs)) <==>
      Carried(I, DisjointProperties(rs)) &&
      forall a, b, x, y :: 0 <= a < b < |rs| && rs[a] == rs[b] ==> !Rel(I, rs[a], x, y)
  {
    if Holds(I, DisjointProperties(rs)) { CarriedHolds(I, DisjointProperties(rs)); }
    if Carried(I, DisjointProperties(rs)) && forall a, b, x, y :: 0 <= a < b < |rs| && rs[a] == rs[b] ==> !Rel(I, rs[a], x, y) {
      forall i, j, x, y | 0 <= i < j < |rs| ensures !(Rel(I, rs[i], x, y) && Rel(I, rs[j], x, y)) {
        if rs[i] != rs[j] { assert RolesApart(I, rs[i], rs[j]); }
      }
    }
  }

  lemma AlongTwo<E(!new)>(I: Interp<E>, parts: seq<Role>, x: E, z: E)
    requires |parts| == 2
    ensures Along(I, parts, x, z) <==> exists y :: Rel(I, parts[0], x, y) && Rel(I, parts[1], y, z)
  {
    var rest := parts[1..];
    assert rest[0] == parts[1] && rest[1..] == [];
    forall y ensures Along(I, rest, y, z) <==> Rel(I, parts[1], y, z) {
      if Rel(I, parts[1], y, z) { assert Along(I, rest[1..], z, z); }
      if Along(I, rest, y, z) {
        var w :| Rel(I, rest[0], y, w) && Along(I, rest[1..], w, z);
      }
    }
  }

  lemma EquivalentAdds<E(!new)>(cfg: Config, J: Interp<E>, st: State, cs: seq<Concept>, k: bool)
    requires Ready(cfg, J) && AllKnown(cfg, cs) && (k ==> KeptPairs(cfg, cs))
    ensures Adds(cfg, J, st, EquivFrom(cfg, st, cs, 0, 0), PairwiseSubsumed(View(cfg, J), cs), k, GivenFrom(cfg, View(cfg, J), cs, 0, 0))
  {
    var I := View(cfg, J);
    EquivAdds(cfg, J, st, cs, 0, 0, k);
    AllPairsSubsumed(I, cs);
    AddsAs(cfg, J, st, EquivFrom(cfg, st, cs, 0, 0), SubsumedFrom(I, cs, 0, 0), k, GivenFrom(cfg, I, cs, 0, 0),
      PairwiseSubsumed(I, cs), k, GivenFrom(cfg, I, cs, 0, 0));
  }

  lemma DisjointClassesAdds<E(!new)>(cfg: Config, J: Interp<E>, st: State, cs: seq<Concept>)
    requires Ready(cfg, J) && AllKnown(cfg, cs)
    ensures Adds(cfg, J, st, DenyFrom(cfg, st, cs, 0, 1, true), PairwiseDisjoint(View(cfg, J), cs), true,
      PairwiseDisjoint(View(cfg, J), cs))
  {
    DenyAllAdds(cfg, J, st, cs, 0, 1, true);
    assert DisjointFrom(View(cfg, J), cs, 0, 1) <==> PairwiseDisjoint(View(cfg, J), cs);
  }

  /** A domain at `X`, else a range. */
  function EdgeAxiom(r: Role, c: Concept, v: Var): Axiom {
    if v == X then PropertyDomain(r, c) else PropertyRange(r, c)
  }

  lemma EdgeImplied<E(!new)>(cfg: Config, J: Interp<E>, r: Role, c: Concept, v: Var)
    requires v <= X + 1
    ensures Implied(cfg, J, [Edge(Canon(cfg.canon, r), X, X + 1)], c, v) <==> Holds(View(cfg, J), EdgeAxiom(r, c, v))
  {
    if v == X { DomainImplied(cfg, J, r, c); } else { RangeImplied(cfg, J, r, c); }
  }

  lemma EdgeAdds<E(!new)>(cfg: Config, J: Interp<E>, st: State, r: Role, c: Concept, v: Var)
    requires Ready(cfg, J) && Known(cfg, c) && v <= X + 1
    ensures Adds(cfg, J, st, Emit(cfg, st.(nextVar := X + 2), [Edge(Canon(cfg.canon, r), X, X + 1)], c, v),
      Holds(View(cfg, J), EdgeAxiom(r, c, v)), NoDkey(cfg, c), Holds(View(cfg, J), EdgeAxiom(r, Weak(c), v)))
  {
    var body := [Edge(Canon(cfg.canon, r), X, X + 1)];
    EmitAdds(cfg, J, st.(nextVar := X + 2), body, c, v);
    EdgeImplied(cfg, J, r, c, v);
    EdgeImplied(cfg, J, r, Weak(c), v);
    var t, w := Holds(View(cfg, J), EdgeAxiom(r, c, v)), Holds(View(cfg, J), EdgeAxiom(r, Weak(c), v));
    AddsAs(cfg, J, st.(nextVar := X + 2), Emit(cfg, st.(nextVar := X + 2), body, c, v),
      Implied(cfg, J, body, c, v), NoDkey(cfg, c), Implied(cfg, J, body, Weak(c), v), t, NoDkey(cfg, c), w);
    ResetAdds(cfg, J, st, X + 2, Emit(cfg, st.(nextVar := X + 2), body, c, v), t, NoDkey(cfg, c), w);
  }

  ghost predicate Composed<E(!new)>(I: Interp<E>, r: Role, s: Role, t: Role) {
    forall x, y, z :: Rel(I, r, x, y) && Rel(I, s, y, z) ==> Rel(I, t, x, z)
  }

  lemma ChainAdds<E(!new)>(cfg: Config, J: Interp<E>, st: State, r: Role, s: Role, t: Role)
    ensures Adds(cfg, J, st, st.(nextVar := X + 3).Push(
        [Edge(Canon(cfg.canon, r), X, X + 1), Edge(Canon(cfg.canon, s), X + 1, X + 2)], [Edge(Canon(cfg.canon, t), X, X + 2)]),
      Composed(View(cfg, J), r, s, t), true, Composed(View(cfg, J), r, s, t))
  {
    var cr, cs, ct := Canon(cfg.canon, r), Canon(cfg.canon, s), Canon(cfg.canon, t);
    ChainClause(J, cr, cs, ct);
    ViewRole(cfg, J, r); ViewRole(cfg, J, s); ViewRole(cfg, J, t);
    RolePush(cfg, J, st, X + 3, [Edge(cr, X, X + 1), Edge(cs, X + 1, X + 2)], [Edge(ct, X, X + 2)],
      Composed(View(cfg, J), r, s, t));
  }

  lemma RoleAdds<E(!new)>(cfg: Config, J: Interp<E>, st: State, ax: Axiom)
    requires ax.SubChain? || ax.TransitiveRole? || ax.IrreflexiveRole? || ax.AsymmetricRole? || ax.DisjointProperties?
    ensures Adds(cfg, J, st, AxiomClauses(cfg, st, ax), Carried(View(cfg, J), ax), true, Carried(View(cfg, J), ax))
  {
    var I := View(cfg, J);
    match ax
    case SubChain(parts, s) =>
      if |parts| == 2 {
        ChainAdds(cfg, J, st, parts[0], parts[1], s);
        forall x, z { AlongTwo(I, parts, x, z); }
      } else {
        DeferAdds(cfg, J, st, st.nextVar, Carried(I, ax), true, Carried(I, ax));
      }
    case TransitiveRole(r) => ChainAdds(cfg, J, st, r, r, r);
    case IrreflexiveRole(r) =>
      LoopDenied(J, Canon(cfg.canon, r));
      ViewRole(cfg, J, r);
      RolePush(cfg, J, st, st.nextVar, [Edge(Canon(cfg.canon, r), X, X)], [], Carried(I, ax));
    case AsymmetricRole(r) =>
      OppositeClause(J, Canon(cfg.canon, r));
      ViewRole(cfg, J, r);
      RolePush(cfg, J, st, X + 2, [Edge(Canon(cfg.canon, r), X, X + 1), Edge(Canon(cfg.canon, r), X + 1, X)], [], Carried(I, ax));
    case DisjointProperties(rs) => DenyRolesAllAdds(cfg, J, st, rs, 0, 1);
  }

  lemma AxiomAdds<E(!new)>(cfg: Config, J: Interp<E>, st: State, ax: Axiom, k: bool)
    requires Ready(cfg, J) && KnownAxiom(cfg, ax) && (k ==> KeptAxiom(cfg, ax))
    ensures Adds(cfg, J, st, AxiomClauses(cfg, st, ax), Carried(View(cfg, J), ax), k, WeaklyCarried(cfg, View(cfg, J), ax))
  {
    var st', t, w := AxiomClauses(cfg, st, ax), Carried(View(cfg, J), ax), WeaklyCarried(cfg, View(cfg, J), ax);
    match ax
    case SubClassOf(c, d) =>
      GciAdds(cfg, J, st, c, d);
      AddsAs(cfg, J, st, st', Subsumed(View(cfg, J), c, d), NoDkey(cfg, GciHead(cfg, c, d)), GciGiven(cfg, View(cfg, J), c, d), t, k, w);
    case EquivalentClasses(cs) => EquivalentAdds(cfg, J, st, cs, k);
    case DisjointClasses(cs) => DisjointClassesAdds(cfg, J, st, cs);
    case DisjointUnion(a, cs) => UnionAdds(cfg, J, st, a, cs);
    case PropertyDomain(r, c) => EdgeAdds(cfg, J, st, r, c, X);
    case PropertyRange(r, c) => EdgeAdds(cfg, J, st, r, c, X + 1);
    case SubProperty(_, _) => NothingAdds(cfg, J, st, t, k, w);
    case EquivalentProperties(_) => NothingAdds(cfg, J, st, t, k, w);
    case InverseProperties(_, _) => NothingAdds(cfg, J, st, t, k, w);
    case SymmetricRole(_) => NothingAdds(cfg, J, st, t, k, w);
    case ReflexiveRole(_) => NothingAdds(cfg, J, st, t, k, w);
    case FunctionalRole(_) => NothingAdds(cfg, J, st, t, k, w);
    case InverseFunctionalRole(_) => NothingAdds(cfg, J, st, t, k, w);
    case Other => NothingAdds(cfg, J, st, t, k, w);
    case _ => RoleAdds(cfg, J, st, ax);
  }

  // ----- the whole run -----

  ghost predicate AllCarried<E(!new)>(I: Interp<E>, axioms: seq<Axiom>) {
    forall ax :: ax in axioms ==> Carried(I, ax)
  }

  ghost predicate AllWeaklyCarried<E(!new)>(cfg: Config, I: Interp<E>, axioms: seq<Axiom>) {
    forall ax :: ax in axioms ==> WeaklyCarried(cfg, I, ax)
  }

  ghost predicate KnownAxioms(cfg: Config, axioms: seq<Axiom>) {
    forall ax :: ax in axioms ==> KnownAxiom(cfg, ax)
  }

  ghost predicate KeptAxioms(cfg: Config, axioms: seq<Axiom>) {
    forall ax :: ax in axioms ==> KeptAxiom(cfg, ax)
  }

  lemma {:induction false} RunAdds<E(!new)>(cfg: Config, J: Interp<E>, st: State, axioms: seq<Axiom>, k: bool)
    requires Ready(cfg, J) && KnownAxioms(cfg, axioms) && (k ==> KeptAxioms(cfg, axioms))
    ensures Adds(cfg, J, st, ClausifyAll(cfg, st, axioms), AllCarried(View(cfg, J), axioms), k,
      AllWeaklyCarried(cfg, View(cfg, J), axioms))
    decreases axioms
  {
    if axioms == [] {
      NothingAdds(cfg, J, st, true, k, true);
    } else {
      var st1 := AxiomClauses(cfg, st, axioms[0]);
      assert axioms == [axioms[0]] + axioms[1..];
      AxiomAdds(cfg, J, st, axioms[0], k);
      RunAdds(cfg, J, st1, axioms[1..], k);
      AddsThen(cfg, J, st, st1, ClausifyAll(cfg, st, axioms),
        Carried(View(cfg, J), axioms[0]), k, WeaklyCarried(cfg, View(cfg, J), axioms[0]),
        AllCarried(View(cfg, J), axioms[1..]), k, AllWeaklyCarried(cfg, View(cfg, J), axioms[1..]));
    }
  }

  const START: State := State([], [], X + 1, 0)

  /** `I` with each nominal class read as its singleton and each structural name as the concept it names. */
  ghost function Extended<E(!new)>(cfg: Config, I: Interp<E>, names: seq<Concept>): Interp<E>
    requires cfg.nominalBase <= cfg.firstFresh
  {
    I.(cls := (k: ClassId, d: E) =>
      if k < cfg.nominalBase then I.cls(k, d)
      else if k < cfg.firstFresh then d == I.ind(k - cfg.nominalBase)
      else if k - cfg.firstFresh < |names| then Sat(I, names[k - cfg.firstFresh], d)
      else false)
  }

  lemma ExtendedReads<E(!new)>(cfg: Config, I: Interp<E>, axioms: seq<Axiom>, names: seq<Concept>)
    requires WfConfig(cfg) && cfg.canon == CanonFrom(map[], axioms) && Models(I, axioms)
    requires forall c :: c in names ==> Known(cfg, c)
    ensures NominalsRight(cfg, Extended(cfg, I, names)) && Reads(cfg, Extended(cfg, I, names), names)
    ensures Agree(I, View(cfg, Extended(cfg, I, names)), cfg.nominalBase)
  {
    var J := Extended(cfg, I, names);
    forall r, x, y ensures Rel(I, r, x, y) == Rel(View(cfg, J), r, x, y) {
      CanonDenotes(I, axioms, r, x, y);
      ViewRel(cfg, J, r, x, y);
    }
    forall k: ClassId, d | cfg.firstFresh <= k < cfg.firstFresh + |names|
      ensures J.cls(k, d) <==> Sat(View(cfg, J), names[k - cfg.firstFresh], d)
    {
      assert names[k - cfg.firstFresh] in names;
      SatAgree(I, View(cfg, J), names[k - cfg.firstFresh], cfg.nominalBase, cfg.firstFresh - cfg.nominalBase, d);
    }
  }

  lemma HoldsAgree<E(!new)>(cfg: Config, I: Interp<E>, K: Interp<E>, ax: Axiom)
    requires WfConfig(cfg) && Agree(I, K, cfg.nominalBase) && KnownAxiom(cfg, ax) && Holds(I, ax)
    ensures Carried(K, ax)
  {
    CarriedHolds(I, ax);
    match ax
    case SubClassOf(c, d) => PairAgree(cfg, I, K, c, d);
    case EquivalentClasses(cs) => MembersAgree(cfg, I, K, cs);
    case DisjointClasses(cs) => MembersAgree(cfg, I, K, cs);
    case DisjointUnion(a, cs) => MembersAgree(cfg, I, K, cs); UnionAgree(cfg, I, K, cs);
    case PropertyDomain(r, c) => EdgeAgree(cfg, I, K, c);
    case PropertyRange(r, c) => EdgeAgree(cfg, I, K, c);
    case SubChain(parts, s) => forall x, y { AlongAgree(I, K, parts, x, y); }
    case DisjointProperties(rs) =>
      forall a, b | 0 <= a < b < |rs| && rs[a] != rs[b] ensures RolesApart(K, rs[a], rs[b]) { assert RolesApart(I, rs[a], rs[b]); }
    case _ =>
  }

  lemma EdgeAgree<E(!new)>(cfg: Config, I: Interp<E>, K: Interp<E>, c: Concept)
    requires Agree(I, K, cfg.nominalBase) && Known(cfg, c)
    ensures forall x :: Sat(I, c, x) == Sat(K, c, x)
  {
    forall x { SatAgree(I, K, c, cfg.nominalBase, cfg.firstFresh - cfg.nominalBase, x); }
  }

  lemma PairAgree<E(!new)>(cfg: Config, I: Interp<E>, K: Interp<E>, c: Concept, d: Concept)
    requires Agree(I, K, cfg.nominalBase) && Known(cfg, c) && Known(cfg, d)
    ensures Subsumed(I, c, d) == Subsumed(K, c, d) && Disjoint(I, c, d) == Disjoint(K, c, d)
  {
    EdgeAgree(cfg, I, K, c);
    EdgeAgree(cfg, I, K, d);
    PairSame(I, K, c, d);
  }

  lemma PairSame<E(!new)>(I: Interp<E>, K: Interp<E>, c: Concept, d: Concept)
    requires forall x :: Sat(I, c, x) == Sat(K, c, x)
    requires forall x :: Sat(I, d, x) == Sat(K, d, x)
    ensures Subsumed(I, c, d) == Subsumed(K, c, d) && Disjoint(I, c, d) == Disjoint(K, c, d)
  {
  }

  lemma MembersAgree<E(!new)>(cfg: Config, I: Interp<E>, K: Interp<E>, cs: seq<Concept>)
    requires Agree(I, K, cfg.nominalBase) && AllKnown(cfg, cs)
    ensures PairwiseSubsumed(I, cs) == PairwiseSubsumed(K, cs) && PairwiseDisjoint(I, cs) == PairwiseDisjoint(K, cs)
  {
    forall i, j | 0 <= i < |cs| && 0 <= j < |cs|
      ensures Subsumed(I, cs[i], cs[j]) == Subsumed(K, cs[i], cs[j]) && Disjoint(I, cs[i], cs[j]) == Disjoint(K, cs[i], cs[j])
    {
      PairAgree(cfg, I, K, cs[i], cs[j]);
    }
    SameAcross(I, K, cs);
  }

  lemma SameAcross<E(!new)>(I: Interp<E>, K: Interp<E>, cs: seq<Concept>)
    requires forall i, j :: 0 <= i < |cs| && 0 <= j < |cs| ==> Disjoint(I, cs[i], cs[j]) == Disjoint(K, cs[i], cs[j])
    requires forall i, j :: 0 <= i < |cs| && 0 <= j < |cs| ==> Subsumed(I, cs[i], cs[j]) == Subsumed(K, cs[i], cs[j])
    ensures PairwiseDisjoint(I, cs) == PairwiseDisjoint(K, cs) && PairwiseSubsumed(I, cs) == PairwiseSubsumed(K, cs)
  {
  }

  lemma UnionAgree<E(!new)>(cfg: Config, I: Interp<E>, K: Interp<E>, cs: seq<Concept>)
    requires Agree(I, K, cfg.nominalBase) && AllKnown(cfg, cs) && cfg.nominalBase <= cfg.firstFresh
    ensures forall d :: Sat(I, Or(cs), d) == Sat(K, Or(cs), d)
  {
    EdgeAgree(cfg, I, K, Or(cs));
  }

  lemma {:induction false} AlongAgree<E(!new)>(I: Interp<E>, K: Interp<E>, parts: seq<Role>, x: E, y: E)
    requires forall r, a, b :: Rel(I, r, a, b) == Rel(K, r, a, b)
    ensures Along(I, parts, x, y) == Along(K, parts, x, y)
    decreases parts
  {
    if parts != [] {
      forall z { AlongAgree(I, K, parts[1..], z, y); }
    }
  }

  /** Refutation soundness: every model of the axioms becomes a model of every emitted clause,
      once nominal classes and structural names are read as what they stand for, whatever was
      deferred. So if the clauses have no model, neither have the axioms. */
  lemma ClausifySound<E(!new)>(cfg: Config, I: Interp<E>, axioms: seq<Axiom>)
    requires WfConfig(cfg) && cfg.canon == CanonFrom(map[], axioms) && KnownAxioms(cfg, axioms)
    requires Models(I, axioms)
    ensures var st := ClausifyAll(cfg, START, axioms);
      var J := Extended(cfg, I, st.names);
      AllHold(J, st.clauses) && WfState(cfg, st) && Ready(cfg, J) && Reads(cfg, J, st.names) && Agree(I, View(cfg, J), cfg.nominalBase)
  {
    var st := ClausifyAll(cfg, START, axioms);
    var J0 := Extended(cfg, I, []);
    ExtendedReads(cfg, I, axioms, []);
    RunAdds(cfg, J0, START, axioms, false);
    assert WfState(cfg, st);
    var J := Extended(cfg, I, st.names);
    ExtendedReads(cfg, I, axioms, st.names);
    forall ax | ax in axioms ensures Carried(View(cfg, J), ax) { HoldsAgree(cfg, I, View(cfg, J), ax); }
    RunAdds(cfg, J, START, axioms, false);
  }

  /** The clauses give the axioms back: in every interpretation of the clauses that reads nominal
      classes as singletons, what the axioms carry holds, with `≤` restrictions over compound fillers
      read as ⊤, so all of it for an axiom without them, provided nothing was deferred and no
      datatype cardinality was dropped. */
  lemma ClausifyFaithful<E(!new)>(cfg: Config, J: Interp<E>, axioms: seq<Axiom>)
    requires Ready(cfg, J) && KnownAxioms(cfg, axioms) && KeptAxioms(cfg, axioms)
    requires ClausifyAll(cfg, START, axioms).deferred == 0
    requires AllHold(J, ClausifyAll(cfg, START, axioms).clauses)
    ensures AllWeaklyCarried(cfg, View(cfg, J), axioms)
    ensures forall ax :: ax in axioms && PlainAxiom(cfg, ax) ==> Carried(View(cfg, J), ax)
  {
    RunAdds(cfg, J, START, axioms, true);
    forall ax | ax in axioms && PlainAxiom(cfg, ax) ensures Carried(View(cfg, J), ax) { PlainCarried(cfg, View(cfg, J), ax); }
  }

  /** With compound `≤` fillers the correspondence is exact for interpretations that read the
      structural names as what they stand for. */
  lemma ClausifyExact<E(!new)>(cfg: Config, J: Interp<E>, axioms: seq<Axiom>)
    requires Ready(cfg, J) && KnownAxioms(cfg, axioms) && KeptAxioms(cfg, axioms)
    requires ClausifyAll(cfg, START, axioms).deferred == 0
    requires Reads(cfg, J, ClausifyAll(cfg, START, axioms).names)
    ensures AllHold(J, ClausifyAll(cfg, START, axioms).clauses) <==> AllCarried(View(cfg, J), axioms)
  {
    RunAdds(cfg, J, START, axioms, true);
  }

  /** The declaration behind a rewriting that is not chained holds as well. */
  lemma InverseCarried<E(!new)>(cfg: Config, J: Interp<E>, axioms: seq<Axiom>, s: RoleId)
    requires cfg.canon == CanonFrom(map[], axioms) && s in cfg.canon && cfg.canon[s].id !in cfg.canon
    ensures Holds(View(cfg, J), InverseProperties(Named(cfg.canon[s].id), Named(s)))
  {
    var r := cfg.canon[s].id;
    var order := CanonAcyclic(axioms);
    forall x, y ensures Rel(View(cfg, J), Named(r), x, y) <==> Rel(View(cfg, J), Named(s), y, x) {
      ViewRel(cfg, J, Named(r), x, y);
      ViewRel(cfg, J, Named(s), y, x);
    }
  }
}
