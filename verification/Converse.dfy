/** Nothing is lost by `Emit`: its clauses give back what they were emitted for. */
module Converse {
  import opened Dl
  import opened Clauses
  import opened Clausify
  import opened Antecedents
  import opened Consequents

  /** No cardinality restriction of `c` counts datatype-range fillers, whose heads are dropped. */
  ghost predicate NoDkey(cfg: Config, c: Concept)
    decreases c
  {
    match c
    case Not(x) => NoDkey(cfg, x)
    case And(cs) => forall x :: x in cs ==> NoDkey(cfg, x)
    case Or(cs) => forall x :: x in cs ==> NoDkey(cfg, x)
    case SomeOf(_, f) => NoDkey(cfg, f)
    case AllOf(_, f) => NoDkey(cfg, f)
    case Min(_, _, f) => !IsDkey(cfg, f) && NoDkey(cfg, f)
    case Max(_, _, f) => !IsDkey(cfg, f) && NoDkey(cfg, f)
    case _ => true
  }

  /** Every `≤` restriction of `c` has an atomic, nominal or ⊤ filler. */
  ghost predicate PlainMax(c: Concept)
    decreases c
  {
    match c
    case Not(x) => PlainMax(x)
    case And(cs) => forall x :: x in cs ==> PlainMax(x)
    case Or(cs) => forall x :: x in cs ==> PlainMax(x)
    case SomeOf(_, f) => PlainMax(f)
    case AllOf(_, f) => PlainMax(f)
    case Min(_, _, f) => PlainMax(f)
    case Max(_, _, f) => f.Atomic? || f.Nominal? || f.Top?
    case _ => true
  }

  /** A `≤` filler that needs no structural name. */
  predicate Unnamed(f: Concept) {
    f.Top? || f.Atomic? || f.Nominal?
  }

  /** What the clauses of a head say in every interpretation: a name bounds its concept from one
      side only, so a `≤` restriction over a named filler says nothing. */
  function Weak(c: Concept): Concept
    decreases c, 0
  {
    match c
    case And(cs) => And(WeakAll(cs))
    case Or(cs) => Or(WeakAll(cs))
    case SomeOf(r, f) => SomeOf(r, Weak(f))
    case AllOf(r, f) => AllOf(r, Weak(f))
    case Min(n, r, f) => Min(n, r, Weak(f))
    case Max(_, _, f) => if Unnamed(f) then c else Top
    case _ => c
  }

  function WeakAll(cs: seq<Concept>): (r: seq<Concept>)
    ensures |r| == |cs| && forall k :: 0 <= k < |cs| ==> r[k] == Weak(cs[k])
    decreases cs, 1
  {
    if cs == [] then [] else [Weak(cs[0])] + WeakAll(cs[1..])
  }

  lemma {:induction false} WeakPlain(c: Concept)
    requires PlainMax(c)
    ensures Weak(c) == c
    decreases c
  {
    match c
    case And(cs) => forall k | 0 <= k < |cs| ensures Weak(cs[k]) == cs[k] { WeakPlain(cs[k]); } assert WeakAll(cs) == cs;
    case Or(cs) => forall k | 0 <= k < |cs| ensures Weak(cs[k]) == cs[k] { WeakPlain(cs[k]); } assert WeakAll(cs) == cs;
    case SomeOf(_, f) => WeakPlain(f);
    case AllOf(_, f) => WeakPlain(f);
    case Min(_, _, f) => WeakPlain(f);
    case _ =>
  }

  /** What the converse gives: the concept itself where the structural names are read as what they
      stand for (`exact`), else what its clauses say in every interpretation. */
  function Given(exact: bool, c: Concept): Concept {
    if exact then c else Weak(c)
  }

  function GivenAll(exact: bool, cs: seq<Concept>): seq<Concept> {
    if exact then cs else WeakAll(cs)
  }

  lemma GivenFirst(exact: bool, cs: seq<Concept>)
    requires cs != []
    ensures GivenAll(exact, cs) == [Given(exact, cs[0])] + GivenAll(exact, cs[1..])
    ensures GivenAll(exact, cs)[1..] == GivenAll(exact, cs[1..])
  {
  }

  ghost predicate Trusted<E(!new)>(cfg: Config, J: Interp<E>, names: seq<Concept>, exact: bool) {
    exact ==> Reads(cfg, J, names)
  }

  ghost predicate NameImplies<E(!new)>(cfg: Config, J: Interp<E>, q: ClassId, c: Concept) {
    forall d :: J.cls(q, d) ==> Sat(View(cfg, J), c, d)
  }

  ghost predicate AtomImplies<E(!new)>(cfg: Config, J: Interp<E>, a: Atom, c: Concept, v: Var) {
    forall env: Env<E> :: AtomHolds(J, a, env) ==> Sat(View(cfg, J), c, env(v))
  }

  ghost predicate Fits(st: State, body: Body, v: Var) {
    X < st.nextVar && v < st.nextVar && VarsBelow(body, st.nextVar)
  }

  lemma UnitFaithful<E(!new)>(cfg: Config, J: Interp<E>, st: State, body: Body, a: Atom, c: Concept, v: Var)
    requires AllHold(J, st.Push(body, [a]).clauses) && AtomImplies(cfg, J, a, c, v)
    ensures Implied(cfg, J, body, c, v)
  {
    PushHolds(J, st, body, [a]);
    UnitClause(J, body, a);
  }

  lemma SomeImplies<E(!new)>(cfg: Config, J: Interp<E>, r: Role, f: Concept, q: ClassId, v: Var)
    requires NameImplies(cfg, J, q, f)
    ensures AtomImplies(cfg, J, Exists(Canon(cfg.canon, r), q, v), SomeOf(r, f), v)
  {
    forall env: Env<E> | Sat(J, SomeOf(Canon(cfg.canon, r), Atomic(q)), env(v)) ensures Sat(View(cfg, J), SomeOf(r, f), env(v)) {
      var e :| Rel(J, Canon(cfg.canon, r), env(v), e) && Sat(J, Atomic(q), e);
      ViewRel(cfg, J, r, env(v), e);
    }
  }

  lemma MinImplies<E(!new)>(cfg: Config, J: Interp<E>, c: Concept, q: Option<ClassId>, v: Var)
    requires c.Min? && forall d :: Sat(J, Qualifier(q), d) ==> Sat(View(cfg, J), c.filler, d)
    ensures AtomImplies(cfg, J, CardAtom(cfg, c, q, v), c, v)
  {
    var cr := Canon(cfg.canon, c.role);
    forall env: Env<E> | HasSuccessors(J, c.n, cr, Qualifier(q), env(v)) ensures Sat(View(cfg, J), c, env(v)) {
      forall e ensures Rel(View(cfg, J), c.role, env(v), e) == Rel(J, cr, env(v), e) { ViewRel(cfg, J, c.role, env(v), e); }
      HasSuccessorsMono(J, c.n, cr, Qualifier(q), View(cfg, J), c.role, c.filler, env(v));
    }
  }

  lemma {:induction false} EmitFaithful<E(!new)>(cfg: Config, J: Interp<E>, st: State, body: Body, c: Concept, v: Var, exact: bool)
    requires WfConfig(cfg) && NominalsRight(cfg, J) && Known(cfg, c) && NoDkey(cfg, c) && Fits(st, body, v)
    requires Emit(cfg, st, body, c, v).deferred == st.deferred
    requires Trusted(cfg, J, Emit(cfg, st, body, c, v).names, exact)
    requires AllHold(J, Emit(cfg, st, body, c, v).clauses)
    ensures Implied(cfg, J, body, Given(exact, c), v)
    decreases c, 0
  {
    match c
    case Top =>
    case Bot =>
      PushHolds(J, st, body, []);
      assert forall env: Env<E> :: !HeadHolds(J, [], env);
    case Atomic(a) => UnitFaithful(cfg, J, st, body, Class(a, v), c, v);
    case Nominal(i) => UnitFaithful(cfg, J, st, body, Class(cfg.nominalBase + i, v), c, v);
    case And(parts) =>
      EmitAllFaithful(cfg, J, st, body, parts, v, exact);
    case Or(parts) => OrFaithful(cfg, J, st, body, parts, v, exact);
    case SomeOf(r, f) =>
      var (q, st1) := NameOf(cfg, st, f);
      NameOfGrows(cfg, st, f);
      var a := Exists(Canon(cfg.canon, r), q, v);
      PushHolds(J, st1, body, [a]);
      NameOfFaithful(cfg, J, st, f, exact);
      SomeImplies(cfg, J, r, Given(exact, f), q, v);
      UnitFaithful(cfg, J, st1, body, a, SomeOf(r, Given(exact, f)), v);
    case AllOf(r, f) => AllFaithful(cfg, J, st, body, r, f, v, exact);
    case Not(x) => NotFaithful(cfg, J, st, body, x, v);
    case Min(n, r, f) =>
      if n == 0 {
        forall env: Env<E> ensures Sat(View(cfg, J), Min(0, r, Given(exact, f)), env(v)) {
          ZeroSuccessors(View(cfg, J), r, Given(exact, f), env(v));
        }
      }
      else { CardFaithful(cfg, J, st, body, c, v, exact); }
    case Max(n, r, f) => CardFaithful(cfg, J, st, body, c, v, exact);
    case HasSelf(r) =>
      forall env: Env<E> { ViewRel(cfg, J, r, env(v), env(v)); }
      UnitFaithful(cfg, J, st, body, Edge(Canon(cfg.canon, r), v, v), c, v);
  }

  lemma {:induction false} AllFaithful<E(!new)>(cfg: Config, J: Interp<E>, st: State, body: Body, r: Role, f: Concept, v: Var, exact: bool)
    requires WfConfig(cfg) && NominalsRight(cfg, J) && Known(cfg, f) && NoDkey(cfg, f) && Fits(st, body, v)
    requires Emit(cfg, st, body, AllOf(r, f), v).deferred == st.deferred
    requires Trusted(cfg, J, Emit(cfg, st, body, AllOf(r, f), v).names, exact)
    requires AllHold(J, Emit(cfg, st, body, AllOf(r, f), v).clauses)
    ensures Implied(cfg, J, body, AllOf(r, Given(exact, f)), v)
    decreases f, 1
  {
    var y := st.nextVar;
    var edge := Edge(Canon(cfg.canon, r), v, y);
    EmitFaithful(cfg, J, st.(nextVar := y + 1), body + [edge], f, y, exact);
    forall env: Env<E>, e | BodyHolds(J, body, env) && Rel(View(cfg, J), r, env(v), e) ensures Sat(View(cfg, J), Given(exact, f), e) {
      var env': Env<E> := (w: Var) => if w == y then e else env(w);
      ViewRel(cfg, J, r, env(v), e);
      BodyFrame(J, body, env, env');
      BodySplit(J, body, [edge], env');
      UnitBody(J, edge, env');
      assert env'(y) == e && env'(v) == env(v);
    }
  }

  lemma NotFaithful<E(!new)>(cfg: Config, J: Interp<E>, st: State, body: Body, x: Concept, v: Var)
    requires WfConfig(cfg) && NominalsRight(cfg, J) && Known(cfg, x)
    requires Emit(cfg, st, body, Not(x), v).deferred == st.deferred
    requires AllHold(J, Emit(cfg, st, body, Not(x), v).clauses)
    ensures Implied(cfg, J, body, Not(x), v)
  {
    var a := LiteralAtom(cfg, x, v);
    LiteralMeans(cfg, J, x, v);
    PushHolds(J, st, body + [a], []);
    forall env: Env<E> | BodyHolds(J, body, env) ensures !Sat(View(cfg, J), x, env(v)) {
      BodySplit(J, body, [a], env);
      UnitBody(J, a, env);
      assert !HeadHolds(J, [], env);
    }
  }

  lemma {:induction false} CardFaithful<E(!new)>(cfg: Config, J: Interp<E>, st: State, body: Body, c: Concept, v: Var, exact: bool)
    requires c.Max? || (c.Min? && c.n != 0)
    requires WfConfig(cfg) && NominalsRight(cfg, J) && Known(cfg, c) && NoDkey(cfg, c) && Fits(st, body, v)
    requires Emit(cfg, st, body, c, v).deferred == st.deferred
    requires Trusted(cfg, J, Emit(cfg, st, body, c, v).names, exact)
    requires AllHold(J, Emit(cfg, st, body, c, v).clauses)
    ensures Implied(cfg, J, body, Given(exact, c), v)
    decreases c.filler, 4
  {
    var (q, st1) := QualifierOf(cfg, st, c.filler);
    QualifierGrows(cfg, st, c.filler);
    QualifierNotDkey(cfg, st, c.filler);
    assert Emit(cfg, st, body, c, v) == st1.Push(body, [CardAtom(cfg, c, q, v)]);
    PushHolds(J, st1, body, [CardAtom(cfg, c, q, v)]);
    CardImplies(cfg, J, st, c, v, exact);
    UnitFaithful(cfg, J, st1, body, CardAtom(cfg, c, q, v), Given(exact, c), v);
  }

  lemma QualifierNotDkey(cfg: Config, st: State, f: Concept)
    requires WfConfig(cfg) && !IsDkey(cfg, f)
    ensures var q := QualifierOf(cfg, st, f).0; q.Some? ==> q.value !in cfg.dkeys
  {
  }

  /** The cardinality atom over the filler's name gives the restriction. */
  lemma {:induction false} CardImplies<E(!new)>(cfg: Config, J: Interp<E>, st: State, c: Concept, v: Var, exact: bool)
    requires c.Max? || c.Min?
    requires WfConfig(cfg) && NominalsRight(cfg, J) && Known(cfg, c) && NoDkey(cfg, c) && X < st.nextVar
    requires QualifierOf(cfg, st, c.filler).1.deferred == st.deferred
    requires Trusted(cfg, J, QualifierOf(cfg, st, c.filler).1.names, exact)
    requires AllHold(J, QualifierOf(cfg, st, c.filler).1.clauses)
    ensures AtomImplies(cfg, J, CardAtom(cfg, c, QualifierOf(cfg, st, c.filler).0, v), Given(exact, c), v)
    decreases c.filler, 3
  {
    var (q, st1) := QualifierOf(cfg, st, c.filler);
    if !c.filler.Top? {
      NameOfFaithful(cfg, J, st, c.filler, exact);
    }
    if c.Min? {
      MinImplies(cfg, J, Min(c.n, c.role, Given(exact, c.filler)), q, v);
    } else if exact || Unnamed(c.filler) {
      CardMeans(cfg, J, c, q, v);
    }
  }

  lemma ImpliedAnd<E(!new)>(cfg: Config, J: Interp<E>, body: Body, c: Concept, rest: seq<Concept>, v: Var)
    requires Implied(cfg, J, body, c, v) && Implied(cfg, J, body, And(rest), v)
    ensures Implied(cfg, J, body, And([c] + rest), v)
  {
    forall env: Env<E> | BodyHolds(J, body, env) ensures Sat(View(cfg, J), And([c] + rest), env(v)) {
      AndSplit(View(cfg, J), [c], rest, env(v));
    }
  }

  lemma {:induction false} EmitAllFaithful<E(!new)>(cfg: Config, J: Interp<E>, st: State, body: Body, parts: seq<Concept>, v: Var, exact: bool)
    requires WfConfig(cfg) && NominalsRight(cfg, J) && Fits(st, body, v)
    requires AllKnown(cfg, parts) && forall p :: p in parts ==> NoDkey(cfg, p)
    requires EmitAll(cfg, st, body, parts, v).deferred == st.deferred
    requires Trusted(cfg, J, EmitAll(cfg, st, body, parts, v).names, exact)
    requires AllHold(J, EmitAll(cfg, st, body, parts, v).clauses)
    ensures Implied(cfg, J, body, And(GivenAll(exact, parts)), v)
    decreases parts, 1
  {
    if parts != [] {
      var st1 := Emit(cfg, st, body, parts[0], v);
      EmitGrows(cfg, st, body, parts[0], v);
      EmitAllGrows(cfg, st1, body, parts[1..], v);
      assert parts[0] in parts;
      EmitFaithful(cfg, J, st, body, parts[0], v, exact);
      EmitAllFaithful(cfg, J, st1, body, parts[1..], v, exact);
      GivenFirst(exact, parts);
      ImpliedAnd(cfg, J, body, Given(exact, parts[0]), GivenAll(exact, parts[1..]), v);
    }
  }

  lemma {:induction false} NameOfFaithful<E(!new)>(cfg: Config, J: Interp<E>, st: State, c: Concept, exact: bool)
    requires WfConfig(cfg) && NominalsRight(cfg, J) && Known(cfg, c) && NoDkey(cfg, c) && X < st.nextVar
    requires NameOf(cfg, st, c).1.deferred == st.deferred
    requires Trusted(cfg, J, NameOf(cfg, st, c).1.names, exact)
    requires AllHold(J, NameOf(cfg, st, c).1.clauses)
    ensures NameImplies(cfg, J, NameOf(cfg, st, c).0, Given(exact, c))
    ensures exact || ClassIdOf(cfg, c).Some? ==> Means(cfg, J, NameOf(cfg, st, c).0, c)
    decreases c, 1
  {
    if ClassIdOf(cfg, c).None? {
      var q := NextFresh(cfg, st);
      var st0 := st.(names := st.names + [c]);
      var body := [Class(q, X)];
      EmitGrows(cfg, st0, body, c, X);
      assert NameOf(cfg, st, c).1.names[|st.names|] == c;
      EmitFaithful(cfg, J, st0, body, c, X, exact);
      forall d | J.cls(q, d) ensures Sat(View(cfg, J), Given(exact, c), d) {
        var env: Env<E> := (w: Var) => d;
        UnitBody(J, Class(q, X), env);
      }
    }
  }

  lemma {:induction false} HeadAtomFaithful<E(!new)>(cfg: Config, J: Interp<E>, st: State, c: Concept, v: Var, exact: bool)
    requires WfConfig(cfg) && NominalsRight(cfg, J) && Known(cfg, c) && NoDkey(cfg, c) && X < st.nextVar
    requires HeadAtom(cfg, st, c, v).0.Some? && HeadAtom(cfg, st, c, v).1.deferred == st.deferred
    requires Trusted(cfg, J, HeadAtom(cfg, st, c, v).1.names, exact)
    requires AllHold(J, HeadAtom(cfg, st, c, v).1.clauses)
    ensures AtomImplies(cfg, J, HeadAtom(cfg, st, c, v).0.value, Given(exact, c), v)
    decreases c, 3
  {
    if c.SomeOf? {
      NameOfFaithful(cfg, J, st, c.filler, exact);
      SomeImplies(cfg, J, c.role, Given(exact, c.filler), NameOf(cfg, st, c.filler).0, v);
    } else if c.Not? {
      var q := NextFresh(cfg, st);
      var a := LiteralAtom(cfg, c.arg, X);
      var st1 := st.(names := st.names + [c]);
      LiteralMeans(cfg, J, c.arg, X);
      PushHolds(J, st1, [Class(q, X), a], []);
      forall env: Env<E> | J.cls(q, env(v)) ensures Sat(View(cfg, J), c, env(v)) {
        var env': Env<E> := (w: Var) => env(v);
        assert [Class(q, X), a] == [Class(q, X)] + [a];
        BodySplit(J, [Class(q, X)], [a], env');
        UnitBody(J, Class(q, X), env');
        UnitBody(J, a, env');
        assert !HeadHolds(J, [], env');
      }
    } else if c.Max? && cfg.cardAtoms && !IsDkey(cfg, c.filler) {
      CardImplies(cfg, J, st, c, v, exact);
    } else if c.Min? && cfg.cardAtoms && c.n != 0 && !IsDkey(cfg, c.filler) {
      CardImplies(cfg, J, st, c, v, exact);
    } else {
      assert HeadAtom(cfg, st, c, v) == NameAtom(cfg, st, c, v);
      NameOfFaithful(cfg, J, st, c, exact);
    }
  }

  lemma {:induction false} OrFaithful<E(!new)>(cfg: Config, J: Interp<E>, st: State, body: Body, parts: seq<Concept>, v: Var, exact: bool)
    requires WfConfig(cfg) && NominalsRight(cfg, J) && Fits(st, body, v)
    requires AllKnown(cfg, parts) && forall p :: p in parts ==> NoDkey(cfg, p)
    requires Emit(cfg, st, body, Or(parts), v).deferred == st.deferred
    requires Trusted(cfg, J, Emit(cfg, st, body, Or(parts), v).names, exact)
    requires AllHold(J, Emit(cfg, st, body, Or(parts), v).clauses)
    ensures Implied(cfg, J, body, Or(GivenAll(exact, parts)), v)
    decreases parts, 5
  {
    HeadAtomsGrows(cfg, st, parts, [], v);
    var (head, st1) := HeadAtoms(cfg, st, parts, [], v);
    assert head.Some?;
    PushHolds(J, st1, body, head.value);
    HeadAtomsFaithful(cfg, J, st, parts, [], v, exact);
    assert forall env: Env<E> :: !HeadHolds(J, [], env);
  }

  lemma OrFirst<E(!new)>(I: Interp<E>, parts: seq<Concept>, d: E)
    requires parts != []
    ensures Sat(I, Or(parts), d) <==> Sat(I, parts[0], d) || Sat(I, Or(parts[1..]), d)
  {
    OrSplit(I, [parts[0]], parts[1..], d);
    assert parts == [parts[0]] + parts[1..];
    SingletonOr(I, parts[0], d);
  }

  lemma {:induction false} HeadAtomsFaithful<E(!new)>(cfg: Config, J: Interp<E>, st: State, parts: seq<Concept>, acc: seq<Atom>, v: Var, exact: bool)
    requires WfConfig(cfg) && NominalsRight(cfg, J) && X < st.nextVar
    requires AllKnown(cfg, parts) && forall p :: p in parts ==> NoDkey(cfg, p)
    requires HeadAtoms(cfg, st, parts, acc, v).0.Some? && HeadAtoms(cfg, st, parts, acc, v).1.deferred == st.deferred
    requires Trusted(cfg, J, HeadAtoms(cfg, st, parts, acc, v).1.names, exact)
    requires AllHold(J, HeadAtoms(cfg, st, parts, acc, v).1.clauses)
    ensures forall env: Env<E> :: HeadHolds(J, HeadAtoms(cfg, st, parts, acc, v).0.value, env) ==>
      HeadHolds(J, acc, env) || Sat(View(cfg, J), Or(GivenAll(exact, parts)), env(v))
    decreases parts, 4
  {
    if parts != [] {
      var (a, st1) := HeadAtom(cfg, st, parts[0], v);
      HeadAtomGrows(cfg, st, parts[0], v);
      HeadAtomsGrows(cfg, st1, parts[1..], acc + [a.value], v);
      assert parts[0] in parts;
      HeadAtomFaithful(cfg, J, st, parts[0], v, exact);
      HeadAtomsFaithful(cfg, J, st1, parts[1..], acc + [a.value], v, exact);
      forall env: Env<E> | HeadHolds(J, HeadAtoms(cfg, st, parts, acc, v).0.value, env)
        ensures HeadHolds(J, acc, env) || Sat(View(cfg, J), Or(GivenAll(exact, parts)), env(v))
      {
        HeadSplit(J, acc, a.value, env);
        GivenFirst(exact, parts);
        OrFirst(View(cfg, J), GivenAll(exact, parts), env(v));
      }
    }
  }
}
