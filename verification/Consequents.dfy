/** What `Emit` and the structural naming beneath it mean. */
module Consequents {
  import opened Dl
  import opened Clauses
  import opened Clausify
  import opened Antecedents

  ghost predicate WfConfig(cfg: Config) {
    cfg.nominalBase <= cfg.firstFresh && forall k :: k in cfg.dkeys ==> k < cfg.nominalBase
  }

  /** Every structural name from the given one on is read as exactly the concept it names. */
  ghost predicate ReadsFrom<E(!new)>(cfg: Config, J: Interp<E>, from: nat, names: seq<Concept>) {
    forall k: ClassId, d :: cfg.firstFresh + from <= k < cfg.firstFresh + |names| ==>
      (J.cls(k, d) <==> Sat(View(cfg, J), names[k - cfg.firstFresh], d))
  }

  ghost predicate Reads<E(!new)>(cfg: Config, J: Interp<E>, names: seq<Concept>) {
    ReadsFrom(cfg, J, 0, names)
  }

  function NextFresh(cfg: Config, st: State): ClassId {
    cfg.firstFresh + |st.names|
  }

  /** A state only ever gains clauses and names. */
  ghost predicate Grows(st: State, st': State) {
    st.clauses <= st'.clauses && st.names <= st'.names && st.nextVar <= st'.nextVar && st.deferred <= st'.deferred
  }

  /** Names stand for concepts of the input, and clauses use allocated classes only. */
  ghost predicate WfState(cfg: Config, st: State) {
    && (forall c :: c in st.names ==> Known(cfg, c))
    && (forall cl :: cl in st.clauses ==> ClauseBelow(cl, NextFresh(cfg, st)))
  }

  lemma PushWf(cfg: Config, st: State, body: Body, head: seq<Atom>)
    requires WfState(cfg, st) && AtomsBelow(body, NextFresh(cfg, st)) && AtomsBelow(head, NextFresh(cfg, st))
    ensures WfState(cfg, st.Push(body, head))
  {
  }

  lemma RaiseWf(cfg: Config, st: State, c: Concept)
    requires WfState(cfg, st) && Known(cfg, c)
    ensures WfState(cfg, st.(names := st.names + [c]))
  {
    forall cl | cl in st.clauses ensures ClauseBelow(cl, NextFresh(cfg, st) + 1) {
      assert ClauseBelow(cl, NextFresh(cfg, st));
    }
  }

  /** The body atom that says `x(v)` for a literal `x`. */
  function LiteralAtom(cfg: Config, x: Concept, v: Var): Atom
    requires ClassIdOf(cfg, x).Some? || x.HasSelf?
  {
    if ClassIdOf(cfg, x).Some? then Class(ClassIdOf(cfg, x).value, v) else Edge(Canon(cfg.canon, x.role), v, v)
  }

  /** The head atom of a cardinality restriction with a given qualifier. */
  function CardAtom(cfg: Config, c: Concept, q: Option<ClassId>, v: Var): Atom
    requires c.Min? || c.Max?
  {
    if c.Min? then AtLeast(Canon(cfg.canon, c.role), q, c.n, v) else AtMost(Canon(cfg.canon, c.role), q, c.n, v)
  }

  lemma LiteralBelow(cfg: Config, st: State, x: Concept, v: Var)
    requires WfConfig(cfg) && Known(cfg, x) && (ClassIdOf(cfg, x).Some? || x.HasSelf?)
    ensures AtomBelow(LiteralAtom(cfg, x, v), NextFresh(cfg, st))
  {
  }

  ghost predicate AllNnf(parts: seq<Concept>) {
    forall p :: p in parts ==> IsNnf(p)
  }

  ghost predicate AllKnown(cfg: Config, parts: seq<Concept>) {
    forall p :: p in parts ==> Known(cfg, p)
  }

  // ----- growth, allocation, and no deferral on negation normal form -----

  ghost predicate GrowsWell(cfg: Config, st: State, st': State, nnf: bool, known: bool) {
    && Grows(st, st')
    && (nnf ==> st'.deferred == st.deferred)
    && (known && WfConfig(cfg) && WfState(cfg, st) ==> WfState(cfg, st'))
  }

  lemma PushGrows(cfg: Config, st: State, body: Body, head: seq<Atom>, nnf: bool, known: bool)
    requires known && WfConfig(cfg) && WfState(cfg, st) ==> AtomsBelow(body, NextFresh(cfg, st)) && AtomsBelow(head, NextFresh(cfg, st))
    ensures GrowsWell(cfg, st, st.Push(body, head), nnf, known)
  {
  }

  lemma {:induction false} EmitGrows(cfg: Config, st: State, body: Body, c: Concept, v: Var)
    ensures GrowsWell(cfg, st, Emit(cfg, st, body, c, v), IsNnf(c), Known(cfg, c) && AtomsBelow(body, NextFresh(cfg, st)))
    decreases c, 0
  {
    var nnf, known := IsNnf(c), Known(cfg, c) && AtomsBelow(body, NextFresh(cfg, st));
    match c
    case Top =>
    case Bot => PushGrows(cfg, st, body, [], nnf, known);
    case Atomic(a) => PushGrows(cfg, st, body, [Class(a, v)], nnf, known);
    case Nominal(i) => PushGrows(cfg, st, body, [Class(cfg.nominalBase + i, v)], nnf, known);
    case And(parts) => EmitAllGrows(cfg, st, body, parts, v);
    case Or(parts) =>
      HeadAtomsGrows(cfg, st, parts, [], v);
      var (head, st1) := HeadAtoms(cfg, st, parts, [], v);
      if head.Some? { PushGrows(cfg, st1, body, head.value, nnf, known); }
    case SomeOf(r, f) =>
      NameOfGrows(cfg, st, f);
      var (q, st1) := NameOf(cfg, st, f);
      PushGrows(cfg, st1, body, [Exists(Canon(cfg.canon, r), q, v)], nnf, known);
    case AllOf(r, f) =>
      EmitGrows(cfg, st.(nextVar := st.nextVar + 1), body + [Edge(Canon(cfg.canon, r), v, st.nextVar)], f, st.nextVar);
    case Not(x) =>
      if ClassIdOf(cfg, x).Some? || x.HasSelf? {
        if known && WfConfig(cfg) { LiteralBelow(cfg, st, x, v); }
        PushGrows(cfg, st, body + [LiteralAtom(cfg, x, v)], [], nnf, known);
      }
    case Min(n, r, f) => CardinalityGrows(cfg, st, body, c, v);
    case Max(n, r, f) => CardinalityGrows(cfg, st, body, c, v);
    case HasSelf(r) => PushGrows(cfg, st, body, [Edge(Canon(cfg.canon, r), v, v)], nnf, known);
  }

  lemma {:induction false} CardinalityGrows(cfg: Config, st: State, body: Body, c: Concept, v: Var)
    requires c.Min? || c.Max?
    ensures GrowsWell(cfg, st, Emit(cfg, st, body, c, v), IsNnf(c), Known(cfg, c) && AtomsBelow(body, NextFresh(cfg, st)))
    decreases c.filler, 3
  {
    QualifierGrows(cfg, st, c.filler);
    var (q, st1) := QualifierOf(cfg, st, c.filler);
    PushGrows(cfg, st1, body, [CardAtom(cfg, c, q, v)], IsNnf(c), Known(cfg, c) && AtomsBelow(body, NextFresh(cfg, st)));
  }

  lemma {:induction false} EmitAllGrows(cfg: Config, st: State, body: Body, parts: seq<Concept>, v: Var)
    ensures GrowsWell(cfg, st, EmitAll(cfg, st, body, parts, v),
      AllNnf(parts), AllKnown(cfg, parts) && AtomsBelow(body, NextFresh(cfg, st)))
    decreases parts, 1
  {
    if parts != [] {
      EmitGrows(cfg, st, body, parts[0], v);
      EmitAllGrows(cfg, Emit(cfg, st, body, parts[0], v), body, parts[1..], v);
    }
  }

  lemma {:induction false} QualifierGrows(cfg: Config, st: State, f: Concept)
    ensures GrowsWell(cfg, st, QualifierOf(cfg, st, f).1, IsNnf(f), Known(cfg, f))
    ensures WfConfig(cfg) && Known(cfg, f) && QualifierOf(cfg, st, f).0.Some? ==>
      QualifierOf(cfg, st, f).0.value < NextFresh(cfg, QualifierOf(cfg, st, f).1)
    decreases f, 2
  {
    if !f.Top? { NameOfGrows(cfg, st, f); }
  }

  lemma {:induction false} NameOfGrows(cfg: Config, st: State, c: Concept)
    ensures GrowsWell(cfg, st, NameOf(cfg, st, c).1, IsNnf(c), Known(cfg, c))
    ensures WfConfig(cfg) && Known(cfg, c) ==> NameOf(cfg, st, c).0 < NextFresh(cfg, NameOf(cfg, st, c).1)
    decreases c, 1
  {
    if ClassIdOf(cfg, c).None? {
      var q := NextFresh(cfg, st);
      EmitGrows(cfg, st.(names := st.names + [c]), [Class(q, X)], c, X);
      if Known(cfg, c) && WfState(cfg, st) { RaiseWf(cfg, st, c); }
    }
  }

  lemma {:induction false} HeadAtomGrows(cfg: Config, st: State, c: Concept, v: Var)
    ensures GrowsWell(cfg, st, HeadAtom(cfg, st, c, v).1, IsNnf(c), Known(cfg, c))
    ensures IsNnf(c) ==> HeadAtom(cfg, st, c, v).0.Some?
    ensures WfConfig(cfg) && Known(cfg, c) && HeadAtom(cfg, st, c, v).0.Some? ==>
      AtomBelow(HeadAtom(cfg, st, c, v).0.value, NextFresh(cfg, HeadAtom(cfg, st, c, v).1))
    decreases c, 3
  {
    match c
    case SomeOf(r, f) => NameOfGrows(cfg, st, f);
    case Not(x) =>
      if ClassIdOf(cfg, x).Some? || x.HasSelf? {
        if WfConfig(cfg) && Known(cfg, c) { LiteralBelow(cfg, st, x, X); }
        if WfState(cfg, st) && Known(cfg, c) { RaiseWf(cfg, st, c); }
        PushGrows(cfg, st.(names := st.names + [c]), [Class(NextFresh(cfg, st), X), LiteralAtom(cfg, x, X)], [], IsNnf(c), Known(cfg, c));
      }
    case Max(n, r, f) => NameOfGrows(cfg, st, c); QualifierGrows(cfg, st, f);
    case Min(n, r, f) => NameOfGrows(cfg, st, c); QualifierGrows(cfg, st, f);
    case _ => NameOfGrows(cfg, st, c);
  }

  lemma {:induction false} HeadAtomsGrows(cfg: Config, st: State, parts: seq<Concept>, acc: seq<Atom>, v: Var)
    ensures GrowsWell(cfg, st, HeadAtoms(cfg, st, parts, acc, v).1,
      AllNnf(parts), AllKnown(cfg, parts))
    ensures AllNnf(parts) ==> HeadAtoms(cfg, st, parts, acc, v).0.Some?
    ensures WfConfig(cfg) && AllKnown(cfg, parts) && AtomsBelow(acc, NextFresh(cfg, st)) && HeadAtoms(cfg, st, parts, acc, v).0.Some? ==>
      AtomsBelow(HeadAtoms(cfg, st, parts, acc, v).0.value, NextFresh(cfg, HeadAtoms(cfg, st, parts, acc, v).1))
    decreases parts, 4
  {
    if parts != [] {
      HeadAtomGrows(cfg, st, parts[0], v);
      var (a, st1) := HeadAtom(cfg, st, parts[0], v);
      if a.Some? {
        if AtomsBelow(acc, NextFresh(cfg, st)) { LiftBelow(acc, NextFresh(cfg, st), NextFresh(cfg, st1)); }
        HeadAtomsGrows(cfg, st1, parts[1..], acc + [a.value], v);
      }
    }
  }

  // ----- which disjuncts need a name -----

  /** A class, a nominal, or a restriction over one or over ⊤. */
  predicate Direct(cfg: Config, c: Concept) {
    ClassIdOf(cfg, c).Some? || (c.SomeOf? && ClassIdOf(cfg, c.filler).Some?) || Bounded(cfg, c)
  }

  /** A cardinality restriction that may stand in a head as it is. */
  predicate Bounded(cfg: Config, c: Concept) {
    (c.Max? || (c.Min? && c.n > 0)) && (c.filler.Top? || (ClassIdOf(cfg, c.filler).Some? && ClassIdOf(cfg, c.filler).value !in cfg.dkeys))
  }

  /** A union of such disjuncts is stated without inventing a name, unless it has a cardinality
      restriction and those are not allowed as head atoms. */
  lemma {:induction false} NamelessUnion(cfg: Config, st: State, parts: seq<Concept>, acc: seq<Atom>, v: Var)
    requires forall p :: p in parts ==> Direct(cfg, p)
    ensures HeadAtoms(cfg, st, parts, acc, v).0.Some?
    ensures HeadAtoms(cfg, st, parts, acc, v).1.names == st.names <==> cfg.cardAtoms || !exists p :: p in parts && Bounded(cfg, p)
    ensures cfg.cardAtoms ==> HeadAtoms(cfg, st, parts, acc, v).1 == st
    ensures st.names <= HeadAtoms(cfg, st, parts, acc, v).1.names
    decreases parts
  {
    if parts != [] {
      assert parts == [parts[0]] + parts[1..] && parts[0] in parts;
      var (a, st1) := HeadAtom(cfg, st, parts[0], v);
      HeadAtomGrows(cfg, st, parts[0], v);
      NamelessAtom(cfg, st, parts[0], v);
      NamelessUnion(cfg, st1, parts[1..], acc + [a.value], v);
    }
  }

  lemma NamelessAtom(cfg: Config, st: State, c: Concept, v: Var)
    requires Direct(cfg, c)
    ensures HeadAtom(cfg, st, c, v).0.Some?
    ensures HeadAtom(cfg, st, c, v).1.names == st.names <==> cfg.cardAtoms || !Bounded(cfg, c)
    ensures cfg.cardAtoms || !Bounded(cfg, c) ==> HeadAtom(cfg, st, c, v).1 == st
  {
    if c.SomeOf? {
      assert NameOf(cfg, st, c.filler) == (ClassIdOf(cfg, c.filler).value, st);
    } else if ClassIdOf(cfg, c).Some? {
      assert NameOf(cfg, st, c) == (ClassIdOf(cfg, c).value, st);
      assert HeadAtom(cfg, st, c, v) == NameAtom(cfg, st, c, v);
    } else if cfg.cardAtoms {
      assert !IsDkey(cfg, c.filler);
      assert QualifierOf(cfg, st, c.filler).1 == st by {
        if !c.filler.Top? { assert NameOf(cfg, st, c.filler) == (ClassIdOf(cfg, c.filler).value, st); }
      }
    } else {
      assert HeadAtom(cfg, st, c, v) == NameAtom(cfg, st, c, v);
      NameOfGrows(cfg, st, c);
      EmitGrows(cfg, st.(names := st.names + [c]), [Class(NextFresh(cfg, st), X)], c, X);
    }
  }

  // ----- soundness -----

  /** `body → c(v)`. */
  ghost predicate Implied<E(!new)>(cfg: Config, J: Interp<E>, body: Body, c: Concept, v: Var) {
    forall env: Env<E> :: BodyHolds(J, body, env) ==> Sat(View(cfg, J), c, env(v))
  }

  /** The class `q` means exactly `c`. */
  ghost predicate Means<E(!new)>(cfg: Config, J: Interp<E>, q: ClassId, c: Concept) {
    forall d :: J.cls(q, d) <==> Sat(View(cfg, J), c, d)
  }

  ghost predicate AtomMeans<E(!new)>(cfg: Config, J: Interp<E>, a: Atom, c: Concept, v: Var) {
    forall env: Env<E> :: AtomHolds(J, a, env) <==> Sat(View(cfg, J), c, env(v))
  }

  lemma PushHolds<E(!new)>(J: Interp<E>, st: State, body: Body, head: seq<Atom>)
    ensures AllHold(J, st.Push(body, head).clauses) <==> AllHold(J, st.clauses) && ClauseHolds(J, DlClause(body, head))
  {
    AllHoldSplit(J, st.clauses, [DlClause(body, head)]);
    assert DlClause(body, head) in [DlClause(body, head)];
  }

  /** A clause with one head atom. */
  lemma UnitClause<E(!new)>(J: Interp<E>, body: Body, a: Atom)
    ensures ClauseHolds(J, DlClause(body, [a])) <==>
      forall env: Env<E> :: BodyHolds(J, body, env) ==> AtomHolds(J, a, env)
  {
    forall env: Env<E> ensures HeadHolds(J, [a], env) <==> AtomHolds(J, a, env) {
      assert a in [a];
    }
  }

  lemma FillerMeans<E(!new)>(cfg: Config, J: Interp<E>, r: Role, f: Concept, g: Concept, d: E)
    requires forall e :: Sat(J, g, e) <==> Sat(View(cfg, J), f, e)
    ensures Sat(J, SomeOf(Canon(cfg.canon, r), g), d) <==> Sat(View(cfg, J), SomeOf(r, f), d)
    ensures forall n: nat :: HasSuccessors(J, n, Canon(cfg.canon, r), g, d) <==> HasSuccessors(View(cfg, J), n, r, f, d)
  {
    var cr := Canon(cfg.canon, r);
    forall e ensures Rel(View(cfg, J), r, d, e) == Rel(J, cr, d, e) { ViewRel(cfg, J, r, d, e); }
    forall n: nat ensures HasSuccessors(J, n, cr, g, d) <==> HasSuccessors(View(cfg, J), n, r, f, d) {
      if HasSuccessors(J, n, cr, g, d) { HasSuccessorsMono(J, n, cr, g, View(cfg, J), r, f, d); }
      if HasSuccessors(View(cfg, J), n, r, f, d) { HasSuccessorsMono(View(cfg, J), n, r, f, J, cr, g, d); }
    }
  }

  lemma {:induction false} EmitSound<E(!new)>(cfg: Config, J: Interp<E>, st: State, body: Body, c: Concept, v: Var)
    requires WfConfig(cfg) && NominalsRight(cfg, J) && Known(cfg, c)
    requires ReadsFrom(cfg, J, |st.names|, Emit(cfg, st, body, c, v).names)
    requires AllHold(J, st.clauses) && Implied(cfg, J, body, c, v)
    ensures AllHold(J, Emit(cfg, st, body, c, v).clauses)
    decreases c, 0
  {
    match c
    case Top =>
    case Bot => PushHolds(J, st, body, []);
    case Atomic(a) => PushHolds(J, st, body, [Class(a, v)]); UnitClause(J, body, Class(a, v));
    case Nominal(i) =>
      PushHolds(J, st, body, [Class(cfg.nominalBase + i, v)]); UnitClause(J, body, Class(cfg.nominalBase + i, v));
    case And(parts) => EmitAllSound(cfg, J, st, body, parts, v);
    case Or(parts) =>
      var (head, st1) := HeadAtoms(cfg, st, parts, [], v);
      HeadAtomsSound(cfg, J, st, parts, [], v);
      if head.Some? {
        PushHolds(J, st1, body, head.value);
      }
    case SomeOf(r, f) =>
      var (q, st1) := NameOf(cfg, st, f);
      NameOfSound(cfg, J, st, f);
      var a := Exists(Canon(cfg.canon, r), q, v);
      PushHolds(J, st1, body, [a]); UnitClause(J, body, a);
      forall env: Env<E> | BodyHolds(J, body, env) ensures AtomHolds(J, a, env) {
        FillerMeans(cfg, J, r, f, Atomic(q), env(v));
      }
    case AllOf(r, f) =>
      var y := st.nextVar;
      var edge := Edge(Canon(cfg.canon, r), v, y);
      forall env: Env<E> | BodyHolds(J, body + [edge], env) ensures Sat(View(cfg, J), f, env(y)) {
        BodySplit(J, body, [edge], env);
        assert edge in [edge];
        ViewRel(cfg, J, r, env(v), env(y));
      }
      EmitSound(cfg, J, st.(nextVar := y + 1), body + [edge], f, y);
    case Not(x) => NotSound(cfg, J, st, body, x, v);
    case Min(n, r, f) =>
      if n != 0 {
        QualifierSound(cfg, J, st, f);
        CardinalitySound(cfg, J, QualifierOf(cfg, st, f).1, body, c, QualifierOf(cfg, st, f).0, v);
      }
    case Max(n, r, f) =>
      QualifierSound(cfg, J, st, f);
      CardinalitySound(cfg, J, QualifierOf(cfg, st, f).1, body, c, QualifierOf(cfg, st, f).0, v);
    case HasSelf(r) =>
      var a := Edge(Canon(cfg.canon, r), v, v);
      PushHolds(J, st, body, [a]); UnitClause(J, body, a);
      forall env: Env<E> { ViewRel(cfg, J, r, env(v), env(v)); }
  }

  lemma CardMeans<E(!new)>(cfg: Config, J: Interp<E>, c: Concept, q: Option<ClassId>, v: Var)
    requires c.Min? || c.Max?
    requires forall d :: Sat(J, Qualifier(q), d) <==> Sat(View(cfg, J), c.filler, d)
    ensures AtomMeans(cfg, J, CardAtom(cfg, c, q, v), c, v)
  {
    forall env: Env<E> { FillerMeans(cfg, J, c.role, c.filler, Qualifier(q), env(v)); }
  }

  lemma CardinalitySound<E(!new)>(cfg: Config, J: Interp<E>, st: State, body: Body, c: Concept, q: Option<ClassId>, v: Var)
    requires c.Min? || c.Max?
    requires forall d :: Sat(J, Qualifier(q), d) <==> Sat(View(cfg, J), c.filler, d)
    requires AllHold(J, st.clauses) && Implied(cfg, J, body, c, v)
    ensures AllHold(J, st.Push(body, [CardAtom(cfg, c, q, v)]).clauses)
  {
    var a := CardAtom(cfg, c, q, v);
    CardMeans(cfg, J, c, q, v);
    PushHolds(J, st, body, [a]);
    UnitClause(J, body, a);
  }

  lemma UnitBody<E(!new)>(J: Interp<E>, a: Atom, env: Env<E>)
    ensures BodyHolds(J, [a], env) <==> AtomHolds(J, a, env)
  {
    assert a in [a];
  }

  lemma NotSound<E(!new)>(cfg: Config, J: Interp<E>, st: State, body: Body, x: Concept, v: Var)
    requires WfConfig(cfg) && NominalsRight(cfg, J) && Known(cfg, x)
    requires AllHold(J, st.clauses) && Implied(cfg, J, body, Not(x), v)
    ensures AllHold(J, Emit(cfg, st, body, Not(x), v).clauses)
  {
    if ClassIdOf(cfg, x).Some? || x.HasSelf? {
      var a := LiteralAtom(cfg, x, v);
      LiteralMeans(cfg, J, x, v);
      PushHolds(J, st, body + [a], []);
      forall env: Env<E> ensures !BodyHolds(J, body + [a], env) {
        BodySplit(J, body, [a], env);
        UnitBody(J, a, env);
      }
    }
  }

  lemma LiteralMeans<E(!new)>(cfg: Config, J: Interp<E>, x: Concept, v: Var)
    requires WfConfig(cfg) && NominalsRight(cfg, J) && Known(cfg, x)
    requires ClassIdOf(cfg, x).Some? || x.HasSelf?
    ensures AtomMeans(cfg, J, LiteralAtom(cfg, x, v), x, v)
  {
    if x.HasSelf? {
      forall env: Env<E> { ViewRel(cfg, J, x.role, env(v), env(v)); }
    }
  }

  lemma {:induction false} EmitAllSound<E(!new)>(cfg: Config, J: Interp<E>, st: State, body: Body, parts: seq<Concept>, v: Var)
    requires WfConfig(cfg) && NominalsRight(cfg, J) && AllKnown(cfg, parts)
    requires ReadsFrom(cfg, J, |st.names|, EmitAll(cfg, st, body, parts, v).names)
    requires AllHold(J, st.clauses) && forall p :: p in parts ==> Implied(cfg, J, body, p, v)
    ensures AllHold(J, EmitAll(cfg, st, body, parts, v).clauses)
    decreases parts, 1
  {
    if parts != [] {
      var st1 := Emit(cfg, st, body, parts[0], v);
      EmitGrows(cfg, st, body, parts[0], v);
      EmitAllGrows(cfg, st1, body, parts[1..], v);
      assert parts[0] in parts;
      EmitSound(cfg, J, st, body, parts[0], v);
      EmitAllSound(cfg, J, st1, body, parts[1..], v);
    }
  }

  lemma {:induction false} QualifierSound<E(!new)>(cfg: Config, J: Interp<E>, st: State, f: Concept)
    requires WfConfig(cfg) && NominalsRight(cfg, J) && Known(cfg, f)
    requires ReadsFrom(cfg, J, |st.names|, QualifierOf(cfg, st, f).1.names) && AllHold(J, st.clauses)
    ensures AllHold(J, QualifierOf(cfg, st, f).1.clauses)
    ensures forall d :: Sat(J, Qualifier(QualifierOf(cfg, st, f).0), d) <==> Sat(View(cfg, J), f, d)
    decreases f, 2
  {
    if !f.Top? { NameOfSound(cfg, J, st, f); }
  }

  lemma {:induction false} NameOfSound<E(!new)>(cfg: Config, J: Interp<E>, st: State, c: Concept)
    requires WfConfig(cfg) && NominalsRight(cfg, J) && Known(cfg, c)
    requires ReadsFrom(cfg, J, |st.names|, NameOf(cfg, st, c).1.names) && AllHold(J, st.clauses)
    ensures AllHold(J, NameOf(cfg, st, c).1.clauses)
    ensures Means(cfg, J, NameOf(cfg, st, c).0, c)
    decreases c, 1
  {
    if ClassIdOf(cfg, c).None? {
      var q := NextFresh(cfg, st);
      var st0 := st.(names := st.names + [c]);
      EmitGrows(cfg, st0, [Class(q, X)], c, X);
      assert NameOf(cfg, st, c).1.names[|st.names|] == c;
      assert Means(cfg, J, q, c);
      forall env: Env<E> | BodyHolds(J, [Class(q, X)], env) ensures Sat(View(cfg, J), c, env(X)) {
        assert Class(q, X) in [Class(q, X)];
      }
      EmitSound(cfg, J, st0, [Class(q, X)], c, X);
    }
  }

  lemma {:induction false} HeadAtomSound<E(!new)>(cfg: Config, J: Interp<E>, st: State, c: Concept, v: Var)
    requires WfConfig(cfg) && NominalsRight(cfg, J) && Known(cfg, c)
    requires ReadsFrom(cfg, J, |st.names|, HeadAtom(cfg, st, c, v).1.names) && AllHold(J, st.clauses)
    ensures AllHold(J, HeadAtom(cfg, st, c, v).1.clauses)
    ensures HeadAtom(cfg, st, c, v).0.Some? ==> AtomMeans(cfg, J, HeadAtom(cfg, st, c, v).0.value, c, v)
    decreases c, 3
  {
    match c
    case SomeOf(r, f) =>
      NameOfSound(cfg, J, st, f);
      forall env: Env<E> { FillerMeans(cfg, J, r, f, Atomic(NameOf(cfg, st, f).0), env(v)); }
    case Not(x) => NegatedSound(cfg, J, st, x, v);
    case Max(n, r, f) =>
      if !cfg.cardAtoms || IsDkey(cfg, f) {
        assert HeadAtom(cfg, st, c, v) == NameAtom(cfg, st, c, v);
        NameOfSound(cfg, J, st, c);
      }
      else {
        QualifierSound(cfg, J, st, f);
        CardMeans(cfg, J, c, QualifierOf(cfg, st, f).0, v);
      }
    case Min(n, r, f) =>
      if !cfg.cardAtoms || n == 0 || IsDkey(cfg, f) {
        assert HeadAtom(cfg, st, c, v) == NameAtom(cfg, st, c, v);
        NameOfSound(cfg, J, st, c);
      }
      else {
        QualifierSound(cfg, J, st, f);
        CardMeans(cfg, J, c, QualifierOf(cfg, st, f).0, v);
      }
    case _ =>
      assert HeadAtom(cfg, st, c, v) == NameAtom(cfg, st, c, v);
      NameOfSound(cfg, J, st, c);
  }

  lemma NegatedSound<E(!new)>(cfg: Config, J: Interp<E>, st: State, x: Concept, v: Var)
    requires WfConfig(cfg) && NominalsRight(cfg, J) && Known(cfg, x)
    requires ReadsFrom(cfg, J, |st.names|, HeadAtom(cfg, st, Not(x), v).1.names) && AllHold(J, st.clauses)
    ensures AllHold(J, HeadAtom(cfg, st, Not(x), v).1.clauses)
    ensures HeadAtom(cfg, st, Not(x), v).0.Some? ==> AtomMeans(cfg, J, HeadAtom(cfg, st, Not(x), v).0.value, Not(x), v)
  {
    if ClassIdOf(cfg, x).Some? || x.HasSelf? {
      var q := NextFresh(cfg, st);
      var st1 := st.(names := st.names + [Not(x)]);
      assert st1.names[|st.names|] == Not(x);
      assert Means(cfg, J, q, Not(x));
      var a := LiteralAtom(cfg, x, X);
      LiteralMeans(cfg, J, x, X);
      PushHolds(J, st1, [Class(q, X), a], []);
      forall env: Env<E> ensures !BodyHolds(J, [Class(q, X), a], env) {
        assert [Class(q, X), a] == [Class(q, X)] + [a];
        BodySplit(J, [Class(q, X)], [a], env);
        UnitBody(J, a, env);
        UnitBody(J, Class(q, X), env);
      }
    }
  }

  lemma {:induction false} HeadAtomsSound<E(!new)>(cfg: Config, J: Interp<E>, st: State, parts: seq<Concept>, acc: seq<Atom>, v: Var)
    requires WfConfig(cfg) && NominalsRight(cfg, J) && AllKnown(cfg, parts)
    requires ReadsFrom(cfg, J, |st.names|, HeadAtoms(cfg, st, parts, acc, v).1.names) && AllHold(J, st.clauses)
    ensures AllHold(J, HeadAtoms(cfg, st, parts, acc, v).1.clauses)
    ensures HeadAtoms(cfg, st, parts, acc, v).0.Some? ==> HeadMeans(cfg, J, HeadAtoms(cfg, st, parts, acc, v).0.value, acc, parts, v)
    decreases parts, 4
  {
    if parts == [] {
    } else {
      var (a, st1) := HeadAtom(cfg, st, parts[0], v);
      HeadAtomGrows(cfg, st, parts[0], v);
      HeadAtomsGrows(cfg, st1, parts[1..], acc + (if a.Some? then [a.value] else []), v);
      HeadAtomSound(cfg, J, st, parts[0], v);
      if a.Some? {
        HeadAtomsSound(cfg, J, st1, parts[1..], acc + [a.value], v);
        var rest := HeadAtoms(cfg, st1, parts[1..], acc + [a.value], v).0;
        if rest.Some? { HeadMeansCons(cfg, J, rest.value, acc, a.value, parts, v); }
      }
    }
  }

  /** A head is matched iff an atom of `acc` or a concept of `parts` is. */
  ghost predicate HeadMeans<E(!new)>(cfg: Config, J: Interp<E>, head: seq<Atom>, acc: seq<Atom>, parts: seq<Concept>, v: Var) {
    forall env: Env<E> :: HeadHolds(J, head, env) <==> HeadHolds(J, acc, env) || Sat(View(cfg, J), Or(parts), env(v))
  }

  lemma HeadMeansCons<E(!new)>(cfg: Config, J: Interp<E>, head: seq<Atom>, acc: seq<Atom>, a: Atom, parts: seq<Concept>, v: Var)
    requires parts != [] && AtomMeans(cfg, J, a, parts[0], v)
    requires HeadMeans(cfg, J, head, acc + [a], parts[1..], v)
    ensures HeadMeans(cfg, J, head, acc, parts, v)
  {
    forall env: Env<E>
      ensures HeadHolds(J, head, env) <==> HeadHolds(J, acc, env) || Sat(View(cfg, J), Or(parts), env(v))
    {
      assert parts == [parts[0]] + parts[1..];
      OrSplit(View(cfg, J), [parts[0]], parts[1..], env(v));
      SingletonOr(View(cfg, J), parts[0], env(v));
      HeadSplit(J, acc, a, env);
    }
  }

  lemma SingletonOr<E(!new)>(I: Interp<E>, c: Concept, d: E)
    ensures Sat(I, Or([c]), d) <==> Sat(I, c, d)
  {
    assert c in [c];
  }

  lemma HeadSplit<E(!new)>(J: Interp<E>, acc: seq<Atom>, a: Atom, env: Env<E>)
    ensures HeadHolds(J, acc + [a], env) <==> HeadHolds(J, acc, env) || AtomHolds(J, a, env)
  {
    if x :| x in acc && AtomHolds(J, x, env) { assert x in acc + [a]; }
    assert a in acc + [a];
  }
}
