/** What the clauses say about the vocabulary: exactly the axioms with each `≤` restriction over a
    compound filler read as ⊤. The names are invented along the emission: a name counts as what it
    names, weakly read, except that the name of a `≤` filler is left empty. */
module Vocabulary {
  import opened Dl
  import opened Clauses
  import opened Clausify
  import opened Antecedents
  import opened Consequents
  import opened Converse
  import opened AxiomMeaning
  import opened Faithfulness

  // ----- frames -----

  lemma {:induction false} WeakKnown(cfg: Config, c: Concept)
    requires Known(cfg, c)
    ensures Known(cfg, Weak(c))
    decreases c
  {
    match c
    case And(cs) => forall k | 0 <= k < |cs| ensures Known(cfg, Weak(cs[k])) { WeakKnown(cfg, cs[k]); }
    case Or(cs) => forall k | 0 <= k < |cs| ensures Known(cfg, Weak(cs[k])) { WeakKnown(cfg, cs[k]); }
    case SomeOf(_, f) => WeakKnown(cfg, f);
    case AllOf(_, f) => WeakKnown(cfg, f);
    case Min(_, _, f) => WeakKnown(cfg, f);
    case _ =>
  }

  /** A concept of the input means the same where only structural names differ. */
  lemma SameSat<E(!new)>(cfg: Config, J: Interp<E>, K: Interp<E>, c: Concept, d: E)
    requires Agree(J, K, cfg.firstFresh) && Known(cfg, c)
    ensures Sat(View(cfg, J), c, d) == Sat(View(cfg, K), c, d)
  {
    forall r, x, y ensures Rel(View(cfg, J), r, x, y) == Rel(View(cfg, K), r, x, y) {
      ViewRel(cfg, J, r, x, y);
      ViewRel(cfg, K, r, x, y);
    }
    SatAgree(View(cfg, J), View(cfg, K), c, cfg.nominalBase, cfg.firstFresh - cfg.nominalBase, d);
  }

  lemma WeakSame<E(!new)>(cfg: Config, J: Interp<E>, K: Interp<E>, c: Concept, d: E)
    requires Agree(J, K, cfg.firstFresh) && Known(cfg, c)
    ensures Sat(View(cfg, J), Weak(c), d) == Sat(View(cfg, K), Weak(c), d)
  {
    WeakKnown(cfg, c);
    SameSat(cfg, J, K, Weak(c), d);
  }

  /** `body → c(v)` is kept by a later extension. */
  lemma ImpliedLater<E(!new)>(cfg: Config, J: Interp<E>, K: Interp<E>, body: Body, c: Concept, v: Var, k: ClassId)
    requires Agree(J, K, k) && cfg.firstFresh <= k && AtomsBelow(body, k) && Known(cfg, c)
    requires Implied(cfg, J, body, Weak(c), v)
    ensures Implied(cfg, K, body, Weak(c), v)
  {
    forall env: Env<E> | BodyHolds(K, body, env) ensures Sat(View(cfg, K), Weak(c), env(v)) {
      BodyAgree(J, K, body, k, env);
      WeakSame(cfg, J, K, c, env(v));
    }
  }

  lemma HoldLater<E(!new)>(J: Interp<E>, K: Interp<E>, clauses: seq<DlClause>, k: ClassId)
    requires Agree(J, K, k) && AllHold(J, clauses) && forall cl :: cl in clauses ==> ClauseBelow(cl, k)
    ensures AllHold(K, clauses)
  {
    forall cl | cl in clauses ensures ClauseHolds(K, cl) { ClauseAgree(J, K, cl, k); }
  }

  // ----- one head -----

  /** The state so far is satisfied, and there is room for more names. */
  ghost predicate Holding<E(!new)>(cfg: Config, J: Interp<E>, st: State) {
    Ready(cfg, J) && WfState(cfg, st) && AllHold(J, st.clauses)
  }

  /** `K` changes new names only and satisfies the next state. */
  ghost predicate Extends<E(!new)>(cfg: Config, J: Interp<E>, st: State, K: Interp<E>, st': State) {
    Agree(J, K, NextFresh(cfg, st)) && Holding(cfg, K, st')
  }

  /** `J` with the class `q` read as `c`, weakly, or as empty. */
  ghost function Naming<E(!new)>(cfg: Config, J: Interp<E>, q: ClassId, c: Concept, empty: bool): Interp<E> {
    J.(cls := (k: ClassId, d: E) => if k == q then !empty && Sat(View(cfg, J), Weak(c), d) else J.cls(k, d))
  }

  lemma PushExtends<E(!new)>(cfg: Config, J: Interp<E>, st: State, K: Interp<E>, st': State, body: Body, head: seq<Atom>)
    requires Extends(cfg, J, st, K, st') && ClauseHolds(K, DlClause(body, head))
    requires AtomsBelow(body, NextFresh(cfg, st')) && AtomsBelow(head, NextFresh(cfg, st'))
    ensures Extends(cfg, J, st, K, st'.Push(body, head))
  {
    PushHolds(K, st', body, head);
    PushWf(cfg, st', body, head);
  }

  /** A clause whose only head atom covers `c`. */
  lemma UnitExtends<E(!new)>(cfg: Config, J: Interp<E>, st: State, K: Interp<E>, st': State, body: Body, a: Atom, c: Concept, v: Var)
    requires Extends(cfg, J, st, K, st') && st.names <= st'.names && AtomsBelow(body, NextFresh(cfg, st)) && AtomBelow(a, NextFresh(cfg, st'))
    requires Known(cfg, c) && Implied(cfg, J, body, Weak(c), v) && Covers(cfg, K, a, c, v)
    ensures Extends(cfg, J, st, K, st'.Push(body, [a]))
  {
    ImpliedLater(cfg, J, K, body, c, v, NextFresh(cfg, st));
    UnitClause(K, body, a);
    LiftBelow(body, NextFresh(cfg, st), NextFresh(cfg, st'));
    PushExtends(cfg, J, st, K, st', body, [a]);
  }

  /** The atom holds wherever the concept does, weakly read. */
  ghost predicate Covers<E(!new)>(cfg: Config, K: Interp<E>, a: Atom, c: Concept, v: Var) {
    forall env: Env<E> :: Sat(View(cfg, K), Weak(c), env(v)) ==> AtomHolds(K, a, env)
  }

  lemma {:induction false} EmitExtends<E(!new)>(cfg: Config, J: Interp<E>, st: State, body: Body, c: Concept, v: Var) returns (K: Interp<E>)
    requires Holding(cfg, J, st) && Known(cfg, c) && AtomsBelow(body, NextFresh(cfg, st)) && Implied(cfg, J, body, Weak(c), v)
    ensures Extends(cfg, J, st, K, Emit(cfg, st, body, c, v))
    decreases c, 0
  {
    K := J;
    match c
    case Top =>
    case Bot => PushExtends(cfg, J, st, J, st, body, []);
    case Atomic(a) => UnitExtends(cfg, J, st, J, st, body, Class(a, v), c, v);
    case Nominal(i) => UnitExtends(cfg, J, st, J, st, body, Class(cfg.nominalBase + i, v), c, v);
    case And(parts) => K := EmitAllExtends(cfg, J, st, body, parts, v);
    case Or(parts) => K := OrExtends(cfg, J, st, body, parts, v);
    case SomeOf(r, f) =>
      K := NameExtends(cfg, J, st, f, false);
      NameOfGrows(cfg, st, f);
      var (q, st1) := NameOf(cfg, st, f);
      SomeCovers(cfg, K, r, f, q, v);
      UnitExtends(cfg, J, st, K, st1, body, Exists(Canon(cfg.canon, r), q, v), c, v);
    case AllOf(r, f) =>
      var edge := Edge(Canon(cfg.canon, r), v, st.nextVar);
      SuccessorImplied(cfg, J, body, r, Weak(f), v, st.nextVar);
      K := EmitExtends(cfg, J, st.(nextVar := st.nextVar + 1), body + [edge], f, st.nextVar);
    case Not(x) => NotExtends(cfg, J, st, body, x, v);
    case Min(n, r, f) =>
      if n != 0 { K := CardExtends(cfg, J, st, body, c, v); }
    case Max(n, r, f) => K := CardExtends(cfg, J, st, body, c, v);
    case HasSelf(r) =>
      forall env: Env<E> { ViewRel(cfg, J, r, env(v), env(v)); }
      UnitExtends(cfg, J, st, J, st, body, Edge(Canon(cfg.canon, r), v, v), c, v);
  }

  lemma SuccessorImplied<E(!new)>(cfg: Config, J: Interp<E>, body: Body, r: Role, f: Concept, v: Var, y: Var)
    requires Implied(cfg, J, body, AllOf(r, f), v)
    ensures Implied(cfg, J, body + [Edge(Canon(cfg.canon, r), v, y)], f, y)
  {
    var edge := Edge(Canon(cfg.canon, r), v, y);
    forall env: Env<E> | BodyHolds(J, body + [edge], env) ensures Sat(View(cfg, J), f, env(y)) {
      BodySplit(J, body, [edge], env);
      UnitBody(J, edge, env);
      ViewRel(cfg, J, r, env(v), env(y));
    }
  }

  lemma NotExtends<E(!new)>(cfg: Config, J: Interp<E>, st: State, body: Body, x: Concept, v: Var)
    requires Holding(cfg, J, st) && Known(cfg, x) && AtomsBelow(body, NextFresh(cfg, st)) && Implied(cfg, J, body, Not(x), v)
    ensures Extends(cfg, J, st, J, Emit(cfg, st, body, Not(x), v))
  {
    if ClassIdOf(cfg, x).Some? || x.HasSelf? {
      var a := LiteralAtom(cfg, x, v);
      NotSound(cfg, J, st, body, x, v);
      LiteralBelow(cfg, st, x, v);
      PushWf(cfg, st, body + [a], []);
    }
  }

  lemma SomeCovers<E(!new)>(cfg: Config, K: Interp<E>, r: Role, f: Concept, q: ClassId, v: Var)
    requires forall d :: Sat(View(cfg, K), Weak(f), d) ==> K.cls(q, d)
    ensures Covers(cfg, K, Exists(Canon(cfg.canon, r), q, v), SomeOf(r, f), v)
  {
    forall env: Env<E> | Sat(View(cfg, K), SomeOf(r, Weak(f)), env(v)) ensures Sat(K, SomeOf(Canon(cfg.canon, r), Atomic(q)), env(v)) {
      var e :| Rel(View(cfg, K), r, env(v), e) && Sat(View(cfg, K), Weak(f), e);
      ViewRel(cfg, K, r, env(v), e);
      assert Sat(K, Atomic(q), e);
    }
  }

  /** A cardinality restriction over a qualifier read as its filler, or of `≤` over an empty one. */
  lemma CardCovers<E(!new)>(cfg: Config, K: Interp<E>, c: Concept, q: Option<ClassId>, v: Var)
    requires c.Min? || c.Max?
    requires c.Max? && !Unnamed(c.filler) ==> q.Some? && forall d :: !K.cls(q.value, d)
    requires c.Min? || Unnamed(c.filler) ==> forall d :: Sat(K, Qualifier(q), d) <==> Sat(View(cfg, K), Weak(c.filler), d)
    ensures Covers(cfg, K, CardAtom(cfg, c, q, v), c, v)
  {
    if c.Max? && !Unnamed(c.filler) {
      forall env: Env<E> ensures AtomHolds(K, CardAtom(cfg, c, q, v), env) {
        EmptyQualifier(K, c.n + 1, Canon(cfg.canon, c.role), q.value, env(v));
      }
    } else if c.Max? {
      CardMeans(cfg, K, c, q, v);
    } else {
      CardMeans(cfg, K, Min(c.n, c.role, Weak(c.filler)), q, v);
    }
  }

  lemma EmptyQualifier<E(!new)>(K: Interp<E>, n: nat, r: Role, q: ClassId, d: E)
    requires n > 0 && forall e :: !K.cls(q, e)
    ensures !HasSuccessors(K, n, r, Atomic(q), d)
  {
    forall s: set<E> ensures |s| == n ==> !AllSuccessors(K, s, r, Atomic(q), d) {
      if e :| e in s { assert !Sat(K, Atomic(q), e); }
    }
  }

  lemma {:induction false} CardExtends<E(!new)>(cfg: Config, J: Interp<E>, st: State, body: Body, c: Concept, v: Var) returns (K: Interp<E>)
    requires c.Max? || (c.Min? && c.n != 0)
    requires Holding(cfg, J, st) && Known(cfg, c) && AtomsBelow(body, NextFresh(cfg, st)) && Implied(cfg, J, body, Weak(c), v)
    ensures Extends(cfg, J, st, K, Emit(cfg, st, body, c, v))
    decreases c.filler, 4
  {
    K := QualifierExtends(cfg, J, st, c, v);
    QualifierGrows(cfg, st, c.filler);
    var (q, st1) := QualifierOf(cfg, st, c.filler);
    UnitExtends(cfg, J, st, K, st1, body, CardAtom(cfg, c, q, v), c, v);
  }

  lemma {:induction false} QualifierExtends<E(!new)>(cfg: Config, J: Interp<E>, st: State, c: Concept, v: Var) returns (K: Interp<E>)
    requires (c.Max? || c.Min?) && Holding(cfg, J, st) && Known(cfg, c)
    ensures Extends(cfg, J, st, K, QualifierOf(cfg, st, c.filler).1)
    ensures Covers(cfg, K, CardAtom(cfg, c, QualifierOf(cfg, st, c.filler).0, v), c, v)
    decreases c.filler, 3
  {
    K := J;
    if !c.filler.Top? { K := NameExtends(cfg, J, st, c.filler, c.Max?); }
    CardCovers(cfg, K, c, QualifierOf(cfg, st, c.filler).0, v);
  }

  lemma {:induction false} NameExtends<E(!new)>(cfg: Config, J: Interp<E>, st: State, c: Concept, empty: bool) returns (K: Interp<E>)
    requires Holding(cfg, J, st) && Known(cfg, c)
    ensures Extends(cfg, J, st, K, NameOf(cfg, st, c).1)
    ensures forall d :: K.cls(NameOf(cfg, st, c).0, d) <==> !(empty && ClassIdOf(cfg, c).None?) && Sat(View(cfg, K), Weak(c), d)
    decreases c, 1
  {
    K := J;
    if ClassIdOf(cfg, c).None? {
      var q := NextFresh(cfg, st);
      var st0, J0 := st.(names := st.names + [c]), Naming(cfg, J, q, c, empty);
      RaiseWf(cfg, st, c);
      HoldLater(J, J0, st.clauses, q);
      forall d { WeakSame(cfg, J, J0, c, d); }
      forall env: Env<E> | BodyHolds(J0, [Class(q, X)], env) ensures Sat(View(cfg, J0), Weak(c), env(X)) {
        UnitBody(J0, Class(q, X), env);
      }
      K := EmitExtends(cfg, J0, st0, [Class(q, X)], c, X);
      forall d { WeakSame(cfg, J0, K, c, d); }
    }
  }

  lemma {:induction false} EmitAllExtends<E(!new)>(cfg: Config, J: Interp<E>, st: State, body: Body, parts: seq<Concept>, v: Var) returns (K: Interp<E>)
    requires Holding(cfg, J, st) && AllKnown(cfg, parts) && AtomsBelow(body, NextFresh(cfg, st))
    requires Implied(cfg, J, body, And(WeakAll(parts)), v)
    ensures Extends(cfg, J, st, K, EmitAll(cfg, st, body, parts, v))
    decreases parts, 1
  {
    K := J;
    if parts != [] {
      var st1 := Emit(cfg, st, body, parts[0], v);
      FirstImplied(cfg, J, body, parts, v);
      EmitGrows(cfg, st, body, parts[0], v);
      var J1 := EmitExtends(cfg, J, st, body, parts[0], v);
      PartsKnown(cfg, parts[1..]);
      ImpliedLater(cfg, J, J1, body, And(parts[1..]), v, NextFresh(cfg, st));
      LiftBelow(body, NextFresh(cfg, st), NextFresh(cfg, st1));
      K := EmitAllExtends(cfg, J1, st1, body, parts[1..], v);
    }
  }

  lemma FirstImplied<E(!new)>(cfg: Config, J: Interp<E>, body: Body, parts: seq<Concept>, v: Var)
    requires parts != [] && Implied(cfg, J, body, And(WeakAll(parts)), v)
    ensures Implied(cfg, J, body, Weak(parts[0]), v) && Implied(cfg, J, body, And(WeakAll(parts[1..])), v)
  {
    var first, rest := Weak(parts[0]), WeakAll(parts[1..]);
    assert WeakAll(parts) == [first] + rest;
    forall d ensures Sat(View(cfg, J), And(WeakAll(parts)), d) <==> Sat(View(cfg, J), first, d) && Sat(View(cfg, J), And(rest), d) {
      AndSplit(View(cfg, J), [first], rest, d);
      SingletonAnd(View(cfg, J), first, d);
    }
  }

  lemma SingletonAnd<E(!new)>(I: Interp<E>, c: Concept, d: E)
    ensures Sat(I, And([c]), d) <==> Sat(I, c, d)
  {
    assert c in [c];
  }

  lemma PartsKnown(cfg: Config, parts: seq<Concept>)
    requires WfConfig(cfg) && AllKnown(cfg, parts)
    ensures Known(cfg, And(parts)) && Known(cfg, Or(parts))
  {
    forall x | x in parts ensures InSig(x, cfg.nominalBase, cfg.firstFresh - cfg.nominalBase) { assert Known(cfg, x); }
  }

  lemma {:induction false} HeadAtomExtends<E(!new)>(cfg: Config, J: Interp<E>, st: State, c: Concept, v: Var) returns (K: Interp<E>)
    requires Holding(cfg, J, st) && Known(cfg, c)
    ensures Extends(cfg, J, st, K, HeadAtom(cfg, st, c, v).1)
    ensures HeadAtom(cfg, st, c, v).0.Some? ==> Covers(cfg, K, HeadAtom(cfg, st, c, v).0.value, c, v)
    decreases c, 3
  {
    if c.SomeOf? {
      K := NameExtends(cfg, J, st, c.filler, false);
      SomeCovers(cfg, K, c.role, c.filler, NameOf(cfg, st, c.filler).0, v);
    } else if c.Not? {
      K := NegatedExtends(cfg, J, st, c.arg, v);
    } else if c.Max? && cfg.cardAtoms && !IsDkey(cfg, c.filler) {
      K := QualifierExtends(cfg, J, st, c, v);
    } else if c.Min? && cfg.cardAtoms && c.n != 0 && !IsDkey(cfg, c.filler) {
      K := QualifierExtends(cfg, J, st, c, v);
    } else {
      assert HeadAtom(cfg, st, c, v) == NameAtom(cfg, st, c, v);
      K := NameExtends(cfg, J, st, c, false);
    }
  }

  lemma NegatedExtends<E(!new)>(cfg: Config, J: Interp<E>, st: State, x: Concept, v: Var) returns (K: Interp<E>)
    requires Holding(cfg, J, st) && Known(cfg, x)
    ensures Extends(cfg, J, st, K, HeadAtom(cfg, st, Not(x), v).1)
    ensures HeadAtom(cfg, st, Not(x), v).0.Some? ==> Covers(cfg, K, HeadAtom(cfg, st, Not(x), v).0.value, Not(x), v)
  {
    K := J;
    if ClassIdOf(cfg, x).Some? || x.HasSelf? {
      var q := NextFresh(cfg, st);
      var st1 := st.(names := st.names + [Not(x)]);
      K := Naming(cfg, J, q, Not(x), false);
      RaiseWf(cfg, st, Not(x));
      HoldLater(J, K, st.clauses, q);
      forall d { WeakSame(cfg, J, K, Not(x), d); }
      var a := LiteralAtom(cfg, x, X);
      LiteralMeans(cfg, K, x, X);
      LiteralBelow(cfg, st, x, X);
      forall env: Env<E> ensures !BodyHolds(K, [Class(q, X), a], env) { PairBody(K, Class(q, X), a, env); }
      PushExtends(cfg, J, st, K, st1, [Class(q, X), a], []);
    }
  }

  lemma {:induction false} OrExtends<E(!new)>(cfg: Config, J: Interp<E>, st: State, body: Body, parts: seq<Concept>, v: Var) returns (K: Interp<E>)
    requires Holding(cfg, J, st) && AllKnown(cfg, parts) && AtomsBelow(body, NextFresh(cfg, st))
    requires Implied(cfg, J, body, Or(WeakAll(parts)), v)
    ensures Extends(cfg, J, st, K, Emit(cfg, st, body, Or(parts), v))
    decreases parts, 5
  {
    HeadAtomsGrows(cfg, st, parts, [], v);
    var (head, st1) := HeadAtoms(cfg, st, parts, [], v);
    K := HeadAtomsExtends(cfg, J, st, parts, [], v);
    if head.Some? {
      PartsKnown(cfg, parts);
      ImpliedLater(cfg, J, K, body, Or(parts), v, NextFresh(cfg, st));
      LiftBelow(body, NextFresh(cfg, st), NextFresh(cfg, st1));
      PushExtends(cfg, J, st, K, st1, body, head.value);
    }
  }

  /** A head holds wherever an atom of `acc` or a concept of `parts` does. */
  ghost predicate HeadCovers<E(!new)>(cfg: Config, K: Interp<E>, head: seq<Atom>, acc: seq<Atom>, parts: seq<Concept>, v: Var) {
    forall env: Env<E> :: HeadHolds(K, acc, env) || Sat(View(cfg, K), Or(WeakAll(parts)), env(v)) ==> HeadHolds(K, head, env)
  }

  lemma {:induction false} HeadAtomsExtends<E(!new)>(cfg: Config, J: Interp<E>, st: State, parts: seq<Concept>, acc: seq<Atom>, v: Var)
    returns (K: Interp<E>)
    requires Holding(cfg, J, st) && AllKnown(cfg, parts) && AtomsBelow(acc, NextFresh(cfg, st))
    ensures Extends(cfg, J, st, K, HeadAtoms(cfg, st, parts, acc, v).1)
    ensures HeadAtoms(cfg, st, parts, acc, v).0.Some? ==> HeadCovers(cfg, K, HeadAtoms(cfg, st, parts, acc, v).0.value, acc, parts, v)
    decreases parts, 4
  {
    K := J;
    if parts != [] {
      var (a, st1) := HeadAtom(cfg, st, parts[0], v);
      HeadAtomGrows(cfg, st, parts[0], v);
      var J1 := HeadAtomExtends(cfg, J, st, parts[0], v);
      K := J1;
      if a.Some? {
        LiftBelow(acc, NextFresh(cfg, st), NextFresh(cfg, st1));
        K := HeadAtomsExtends(cfg, J1, st1, parts[1..], acc + [a.value], v);
        HeadAtomsGrows(cfg, st1, parts[1..], acc + [a.value], v);
        var head := HeadAtoms(cfg, st1, parts[1..], acc + [a.value], v).0;
        if head.Some? { HeadCoversCons(cfg, J1, K, head.value, acc, a.value, parts, v, NextFresh(cfg, st1)); }
      }
    }
  }

  lemma HeadCoversCons<E(!new)>(cfg: Config, J: Interp<E>, K: Interp<E>, head: seq<Atom>, acc: seq<Atom>, a: Atom,
      parts: seq<Concept>, v: Var, k: ClassId)
    requires parts != [] && Known(cfg, parts[0]) && Agree(J, K, k) && cfg.firstFresh <= k && AtomBelow(a, k)
    requires Covers(cfg, J, a, parts[0], v) && HeadCovers(cfg, K, head, acc + [a], parts[1..], v)
    ensures HeadCovers(cfg, K, head, acc, parts, v)
  {
    forall env: Env<E> | HeadHolds(K, acc, env) || Sat(View(cfg, K), Or(WeakAll(parts)), env(v)) ensures HeadHolds(K, head, env) {
      HeadSplit(K, acc, a, env);
      OrFirst(View(cfg, K), WeakAll(parts), env(v));
      WeakSame(cfg, J, K, parts[0], env(v));
      AtomAgree(J, K, a, k, env);
    }
  }

  // ----- axioms -----

  lemma {:induction false} BodiesExtend<E(!new)>(cfg: Config, J: Interp<E>, st: State, bodies: seq<Body>, c: Concept, v: Var) returns (K: Interp<E>)
    requires Holding(cfg, J, st) && Known(cfg, c) && BodiesBelow(cfg, bodies) && AllImplied(cfg, J, bodies, Weak(c), v)
    ensures Extends(cfg, J, st, K, EmitBodies(cfg, st, bodies, c, v))
    decreases bodies
  {
    K := J;
    if bodies != [] {
      var st1 := Emit(cfg, st, bodies[0], c, v);
      LiftBelow(bodies[0], cfg.firstFresh, NextFresh(cfg, st));
      EmitGrows(cfg, st, bodies[0], c, v);
      var J1 := EmitExtends(cfg, J, st, bodies[0], c, v);
      forall b | b in bodies[1..] ensures Implied(cfg, J1, b, Weak(c), v) { ImpliedLater(cfg, J, J1, b, c, v, cfg.firstFresh); }
      K := BodiesExtend(cfg, J1, st1, bodies[1..], c, v);
    }
  }

  lemma GciExtends<E(!new)>(cfg: Config, J: Interp<E>, st: State, sub: Concept, sup: Concept) returns (K: Interp<E>)
    requires Holding(cfg, J, st) && Known(cfg, sub) && Known(cfg, sup) && GciGiven(cfg, View(cfg, J), sub, sup)
    ensures Extends(cfg, J, st, K, Gci(cfg, st, sub, sup))
  {
    if Encodable(cfg, sub) {
      K := TriggerExtends(cfg, J, st, sub, sup);
    } else {
      HardHeadKnown(cfg, sub, sup);
      K := HardExtends(cfg, J, st, sub, sup);
    }
  }

  lemma HardExtends<E(!new)>(cfg: Config, J: Interp<E>, st: State, sub: Concept, sup: Concept) returns (K: Interp<E>)
    requires Holding(cfg, J, st) && Known(cfg, SoftPart(cfg, sub)) && Known(cfg, HardHead(cfg, sub, sup))
    requires Subsumed(View(cfg, J), SoftPart(cfg, sub), Weak(HardHead(cfg, sub, sup)))
    ensures Extends(cfg, J, st, K, AbsorbHard(cfg, st, sub, sup))
  {
    var soft, head := SoftPart(cfg, sub), HardHead(cfg, sub, sup);
    K := J;
    if Soft(cfg, Conjuncts(sub)) == [] {
      TopImplied(cfg, J, Weak(head));
      K := EmitExtends(cfg, J, st.(nextVar := X + 1), [], head, X);
    } else if Encodable(cfg, soft) {
      K := TriggerExtends(cfg, J, st, soft, head);
    }
  }

  lemma TriggerExtends<E(!new)>(cfg: Config, J: Interp<E>, st: State, trigger: Concept, head: Concept) returns (K: Interp<E>)
    requires Holding(cfg, J, st) && Known(cfg, trigger) && Known(cfg, head) && Encodable(cfg, trigger)
    requires Subsumed(View(cfg, J), trigger, Weak(head))
    ensures Extends(cfg, J, st, K, EmitBodies(cfg, st.(nextVar := Encode(cfg, trigger, X, X + 1).nextVar), Encode(cfg, trigger, X, X + 1).alts.value, head, X))
  {
    var e := Encode(cfg, trigger, X, X + 1);
    EncodedBodies(cfg, st, trigger);
    BodiesSubsume(cfg, J, trigger, Weak(head));
    K := BodiesExtend(cfg, J, st.(nextVar := e.nextVar), e.alts.value, head, X);
  }

  lemma GivenLater<E(!new)>(cfg: Config, J: Interp<E>, K: Interp<E>, sub: Concept, sup: Concept)
    requires Agree(J, K, cfg.firstFresh) && Known(cfg, sub) && Known(cfg, sup)
    ensures GciGiven(cfg, View(cfg, J), sub, sup) <==> GciGiven(cfg, View(cfg, K), sub, sup)
  {
    HardHeadKnown(cfg, sub, sup);
    forall x
      ensures Sat(View(cfg, J), GciTrigger(cfg, sub), x) == Sat(View(cfg, K), GciTrigger(cfg, sub), x)
      ensures Sat(View(cfg, J), Weak(GciHead(cfg, sub, sup)), x) == Sat(View(cfg, K), Weak(GciHead(cfg, sub, sup)), x)
    {
      SameSat(cfg, J, K, GciTrigger(cfg, sub), x);
      WeakSame(cfg, J, K, GciHead(cfg, sub, sup), x);
    }
  }

  lemma AllGivenLater<E(!new)>(cfg: Config, J: Interp<E>, K: Interp<E>, cs: seq<Concept>, i: nat, j: nat)
    requires Agree(J, K, cfg.firstFresh) && AllKnown(cfg, cs) && GivenFrom(cfg, View(cfg, J), cs, i, j)
    ensures GivenFrom(cfg, View(cfg, K), cs, i, j)
  {
    forall a, b | 0 <= a < |cs| && 0 <= b < |cs| && a != b && (i < a || (i == a && j <= b))
      ensures GciGiven(cfg, View(cfg, K), cs[a], cs[b])
    {
      assert GciGiven(cfg, View(cfg, J), cs[a], cs[b]);
      GivenLater(cfg, J, K, cs[a], cs[b]);
    }
  }

  lemma {:induction false} EquivExtends<E(!new)>(cfg: Config, J: Interp<E>, st: State, cs: seq<Concept>, i: nat, j: nat) returns (K: Interp<E>)
    requires Holding(cfg, J, st) && AllKnown(cfg, cs) && i <= |cs| && j <= |cs| && GivenFrom(cfg, View(cfg, J), cs, i, j)
    ensures Extends(cfg, J, st, K, EquivFrom(cfg, st, cs, i, j))
    decreases |cs| - i, |cs| - j
  {
    K := J;
    if i < |cs| {
      GivenStep(cfg, View(cfg, J), cs, i, j);
      if j == |cs| {
        K := EquivExtends(cfg, J, st, cs, i + 1, 0);
      } else if i == j {
        K := EquivExtends(cfg, J, st, cs, i, j + 1);
      } else {
        GciAdds(cfg, J, st, cs[i], cs[j]);
        var J1 := GciExtends(cfg, J, st, cs[i], cs[j]);
        AllGivenLater(cfg, J, J1, cs, i, j + 1);
        K := EquivExtends(cfg, J1, Gci(cfg, st, cs[i], cs[j]), cs, i, j + 1);
      }
    }
  }

  lemma EdgeExtends<E(!new)>(cfg: Config, J: Interp<E>, st: State, r: Role, c: Concept, v: Var) returns (K: Interp<E>)
    requires Holding(cfg, J, st) && Known(cfg, c) && v <= X + 1 && Holds(View(cfg, J), EdgeAxiom(r, Weak(c), v))
    ensures Extends(cfg, J, st, K, Emit(cfg, st.(nextVar := X + 2), [Edge(Canon(cfg.canon, r), X, X + 1)], c, v))
  {
    EdgeImplied(cfg, J, r, Weak(c), v);
    K := EmitExtends(cfg, J, st.(nextVar := X + 2), [Edge(Canon(cfg.canon, r), X, X + 1)], c, v);
  }

  lemma AxiomExtends<E(!new)>(cfg: Config, J: Interp<E>, st: State, ax: Axiom) returns (K: Interp<E>)
    requires Holding(cfg, J, st) && KnownAxiom(cfg, ax) && WeaklyCarried(cfg, View(cfg, J), ax)
    ensures Extends(cfg, J, st, K, AxiomClauses(cfg, st, ax))
  {
    match ax
    case SubClassOf(c, d) => K := GciExtends(cfg, J, st, c, d);
    case EquivalentClasses(cs) => K := EquivExtends(cfg, J, st, cs, 0, 0);
    case PropertyDomain(r, c) => K := EdgeExtends(cfg, J, st, r, c, X);
    case PropertyRange(r, c) => K := EdgeExtends(cfg, J, st, r, c, X + 1);
    case _ =>
      K := J;
      AxiomAdds(cfg, J, st, ax, false);
      NamelessAxiom(cfg, st, ax);
  }

  /** Disjointness, unions and role axioms invent no names. */
  lemma NamelessAxiom(cfg: Config, st: State, ax: Axiom)
    requires !ax.SubClassOf? && !ax.EquivalentClasses? && !ax.PropertyDomain? && !ax.PropertyRange?
    ensures AxiomClauses(cfg, st, ax).names == st.names
  {
    match ax
    case DisjointClasses(cs) => NamelessDeny(cfg, st, cs, 0, 1, true);
    case DisjointUnion(a, cs) =>
      NamelessDeny(cfg, st, cs, 0, 1, false);
      NamelessMembers(cfg, DenyFrom(cfg, st, cs, 0, 1, false), cs, a);
    case DisjointProperties(rs) => NamelessRoles(cfg, st, rs, 0, 1);
    case _ =>
  }

  lemma {:induction false} NamelessDenials(st: State, bodies: seq<Body>)
    ensures Denials(st, bodies).names == st.names
    decreases bodies
  {
    if bodies != [] { NamelessDenials(st.Push(bodies[0], []), bodies[1..]); }
  }

  lemma {:induction false} NamelessDeny(cfg: Config, st: State, cs: seq<Concept>, i: nat, j: nat, counted: bool)
    requires i < j <= |cs| || (i == |cs| && j == |cs| + 1)
    ensures DenyFrom(cfg, st, cs, i, j, counted).names == st.names
    decreases |cs| - i, |cs| + 1 - j
  {
    if i < |cs| {
      if j == |cs| {
        NamelessDeny(cfg, st, cs, i + 1, i + 2, counted);
      } else {
        var a := Encode(cfg, cs[i], X, X + 1);
        var b := Encode(cfg, cs[j], X, a.nextVar);
        if a.alts.Some? && b.alts.Some? { NamelessDenials(st.(nextVar := b.nextVar), Cross(a.alts.value, b.alts.value)); }
        NamelessDeny(cfg, Deny(cfg, st, cs[i], cs[j], counted), cs, i, j + 1, counted);
      }
    }
  }

  lemma {:induction false} NamelessImplications(st: State, bodies: seq<Body>, cls: ClassId)
    ensures Implications(st, bodies, cls).names == st.names
    decreases bodies
  {
    if bodies != [] { NamelessImplications(st.Push(bodies[0], [Class(cls, X)]), bodies[1..], cls); }
  }

  lemma {:induction false} NamelessMembers(cfg: Config, st: State, cs: seq<Concept>, cls: ClassId)
    ensures MembersBelow(cfg, st, cs, cls).names == st.names
    decreases cs
  {
    if cs != [] {
      var e := Encode(cfg, cs[0], X, X + 1);
      var st1 := st.(nextVar := e.nextVar);
      if e.alts.Some? { NamelessImplications(st1, e.alts.value, cls); }
      NamelessMembers(cfg, if e.alts.None? then st1.Defer() else Implications(st1, e.alts.value, cls), cs[1..], cls);
    }
  }

  lemma {:induction false} NamelessRoles(cfg: Config, st: State, rs: seq<Role>, i: nat, j: nat)
    requires i < j <= |rs| || (i == |rs| && j == |rs| + 1)
    ensures DenyRolesFrom(cfg, st, rs, i, j).names == st.names
    decreases |rs| - i, |rs| + 1 - j
  {
    if i < |rs| {
      if j == |rs| { NamelessRoles(cfg, st, rs, i + 1, i + 2); }
      else { NamelessRoles(cfg, DenyRoles(cfg, st, rs[i], rs[j]), rs, i, j + 1); }
    }
  }

  // ----- the whole run -----

  /** What is weakly carried does not depend on the structural names. */
  lemma CarriedLater<E(!new)>(cfg: Config, J: Interp<E>, K: Interp<E>, ax: Axiom)
    requires WfConfig(cfg) && Agree(J, K, cfg.firstFresh) && KnownAxiom(cfg, ax) && WeaklyCarried(cfg, View(cfg, J), ax)
    ensures WeaklyCarried(cfg, View(cfg, K), ax)
  {
    match ax
    case SubClassOf(c, d) => GivenLater(cfg, J, K, c, d);
    case EquivalentClasses(cs) =>
      AllGivenLater(cfg, J, K, cs, 0, 0);
    case PropertyDomain(r, c) => EdgeLater(cfg, J, K, r, c, X);
    case PropertyRange(r, c) => EdgeLater(cfg, J, K, r, c, X + 1);
    case DisjointProperties(rs) =>
      forall a, b | 0 <= a < b < |rs| && rs[a] != rs[b] ensures RolesApart(View(cfg, K), rs[a], rs[b]) {
        assert RolesApart(View(cfg, J), rs[a], rs[b]);
        SameView(cfg, J, K);
      }
    case _ =>
      SameView(cfg, J, K);
      if Holds(View(cfg, J), ax) { HoldsAgree(cfg, View(cfg, J), View(cfg, K), ax); }
  }

  lemma SameView<E(!new)>(cfg: Config, J: Interp<E>, K: Interp<E>)
    requires WfConfig(cfg) && Agree(J, K, cfg.firstFresh)
    ensures Agree(View(cfg, J), View(cfg, K), cfg.nominalBase)
  {
    forall r, x, y ensures Rel(View(cfg, J), r, x, y) == Rel(View(cfg, K), r, x, y) {
      ViewRel(cfg, J, r, x, y);
      ViewRel(cfg, K, r, x, y);
    }
  }

  lemma EdgeLater<E(!new)>(cfg: Config, J: Interp<E>, K: Interp<E>, r: Role, c: Concept, v: Var)
    requires WfConfig(cfg) && Agree(J, K, cfg.firstFresh) && Known(cfg, c) && Holds(View(cfg, J), EdgeAxiom(r, Weak(c), v))
    ensures Holds(View(cfg, K), EdgeAxiom(r, Weak(c), v))
  {
    SameView(cfg, J, K);
    forall x ensures Sat(View(cfg, J), Weak(c), x) == Sat(View(cfg, K), Weak(c), x) { WeakSame(cfg, J, K, c, x); }
  }

  lemma {:induction false} RunExtends<E(!new)>(cfg: Config, J: Interp<E>, st: State, axioms: seq<Axiom>) returns (K: Interp<E>)
    requires Holding(cfg, J, st) && KnownAxioms(cfg, axioms) && AllWeaklyCarried(cfg, View(cfg, J), axioms)
    ensures Extends(cfg, J, st, K, ClausifyAll(cfg, st, axioms))
    decreases axioms
  {
    K := J;
    if axioms != [] {
      AxiomAdds(cfg, J, st, axioms[0], false);
      var J1 := AxiomExtends(cfg, J, st, axioms[0]);
      forall ax | ax in axioms[1..] ensures WeaklyCarried(cfg, View(cfg, J1), ax) { CarriedLater(cfg, J, J1, ax); }
      K := RunExtends(cfg, J1, AxiomClauses(cfg, st, axioms[0]), axioms[1..]);
    }
  }

  /** `J` can be made to satisfy the clauses by reading the structural names. */
  ghost predicate Satisfiable<E(!new)>(cfg: Config, J: Interp<E>, clauses: seq<DlClause>) {
    exists K: Interp<E> :: Agree(J, K, cfg.firstFresh) && AllHold(K, clauses)
  }

  /** The clauses say exactly what is weakly carried: an interpretation that reads nominal classes as
      singletons satisfies them under some reading of the structural names iff it satisfies what the
      axioms carry with each `≤` restriction over a compound filler read as ⊤. */
  lemma ClausesSay<E(!new)>(cfg: Config, J: Interp<E>, axioms: seq<Axiom>)
    requires Ready(cfg, J) && KnownAxioms(cfg, axioms) && KeptAxioms(cfg, axioms)
    requires ClausifyAll(cfg, START, axioms).deferred == 0
    ensures Satisfiable(cfg, J, ClausifyAll(cfg, START, axioms).clauses) <==> AllWeaklyCarried(cfg, View(cfg, J), axioms)
  {
    var st := ClausifyAll(cfg, START, axioms);
    if Satisfiable(cfg, J, st.clauses) {
      var K: Interp<E> :| Agree(J, K, cfg.firstFresh) && AllHold(K, st.clauses);
      ClausifyFaithful(cfg, K, axioms);
      forall ax | ax in axioms ensures WeaklyCarried(cfg, View(cfg, J), ax) { CarriedLater(cfg, K, J, ax); }
    }
    if AllWeaklyCarried(cfg, View(cfg, J), axioms) {
      var K := RunExtends(cfg, J, START, axioms);
    }
  }

  /** So the clauses give the carried axioms back iff those follow from their weak reading. */
  lemma GivenBackIff<E(!new)>(cfg: Config, axioms: seq<Axiom>)
    requires WfConfig(cfg) && KnownAxioms(cfg, axioms) && KeptAxioms(cfg, axioms)
    requires ClausifyAll(cfg, START, axioms).deferred == 0
    ensures GivesBack<E>(cfg, axioms) <==>
      forall J: Interp<E> {:trigger View(cfg, J)} :: Ready(cfg, J) && AllWeaklyCarried(cfg, View(cfg, J), axioms) ==> AllCarried(View(cfg, J), axioms)
  {
    var st := ClausifyAll(cfg, START, axioms);
    if GivesBack<E>(cfg, axioms) {
      forall J: Interp<E> {:trigger View(cfg, J)} | Ready(cfg, J) && AllWeaklyCarried(cfg, View(cfg, J), axioms)
        ensures AllCarried(View(cfg, J), axioms)
      {
        ClausesSay(cfg, J, axioms);
        var K: Interp<E> :| Agree(J, K, cfg.firstFresh) && AllHold(K, st.clauses);
        assert Ready(cfg, K);
        forall ax | ax in axioms ensures Carried(View(cfg, J), ax) { ExactLater(cfg, K, J, ax); }
      }
    } else {
      var J: Interp<E> :| Ready(cfg, J) && AllHold(J, st.clauses) && !AllCarried(View(cfg, J), axioms);
      ClausifyFaithful(cfg, J, axioms);
    }
  }

  /** Every interpretation of the clauses satisfies what the axioms carry. */
  ghost predicate GivesBack<E(!new)>(cfg: Config, axioms: seq<Axiom>) {
    forall J: Interp<E> :: Ready(cfg, J) && AllHold(J, ClausifyAll(cfg, START, axioms).clauses) ==> AllCarried(View(cfg, J), axioms)
  }

  lemma ExactLater<E(!new)>(cfg: Config, J: Interp<E>, K: Interp<E>, ax: Axiom)
    requires WfConfig(cfg) && Agree(J, K, cfg.firstFresh) && KnownAxiom(cfg, ax) && Carried(View(cfg, J), ax)
    ensures Carried(View(cfg, K), ax)
  {
    SameView(cfg, J, K);
    match ax
    case DisjointProperties(rs) => CarriedLater(cfg, J, K, ax);
    case _ => if Holds(View(cfg, J), ax) { HoldsAgree(cfg, View(cfg, J), View(cfg, K), ax); }
  }

  /** One `≤` head: `sub ⊑ ≤n r.f` comes back from its clauses iff `f` needs no name or the axiom
      holds in every interpretation anyway. */
  lemma MaxGivenBackIff<E(!new)>(cfg: Config, sub: Concept, n: nat, r: Role, f: Concept)
    requires WfConfig(cfg) && Known(cfg, sub) && Known(cfg, f) && Encodable(cfg, sub) && IsNnf(f) && NoDkey(cfg, Max(n, r, f))
    ensures var ax := SubClassOf(sub, Max(n, r, f));
      GivesBack<E>(cfg, [ax]) <==> Unnamed(f) || forall J: Interp<E> {:trigger View(cfg, J)} :: Ready(cfg, J) ==> Holds(View(cfg, J), ax)
  {
    var ax := SubClassOf(sub, Max(n, r, f));
    NnfBodiesKept(cfg, START.(nextVar := Encode(cfg, sub, X, X + 1).nextVar), Encode(cfg, sub, X, X + 1).alts.value, Max(n, r, f), X);
    assert ClausifyAll(cfg, START, [ax]) == Gci(cfg, START, sub, Max(n, r, f)) by { assert [ax][1..] == []; }
    GivenBackIff<E>(cfg, [ax]);
    forall J: Interp<E> {:trigger View(cfg, J)}
      ensures AllCarried(View(cfg, J), [ax]) <==> Holds(View(cfg, J), ax)
      ensures AllWeaklyCarried(cfg, View(cfg, J), [ax]) <==> !Unnamed(f) || Holds(View(cfg, J), ax)
    {
      assert ax in [ax];
    }
  }

  lemma {:induction false} NnfBodiesKept(cfg: Config, st: State, bodies: seq<Body>, c: Concept, v: Var)
    requires IsNnf(c)
    ensures EmitBodies(cfg, st, bodies, c, v).deferred == st.deferred
    decreases bodies
  {
    if bodies != [] {
      EmitGrows(cfg, st, bodies[0], c, v);
      NnfBodiesKept(cfg, Emit(cfg, st, bodies[0], c, v), bodies[1..], c, v);
    }
  }
}
