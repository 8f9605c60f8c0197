/** What every clause an axiom gives rise to looks like: it keeps the trigger it was emitted under, or
    defines a new name, and counts no datatype fillers. */
module Emitted {
  import opened Dl
  import opened Clauses
  import opened Clausify
  import opened Consequents
  import opened AxiomMeaning

  /** No atom counts fillers in a datatype class. */
  ghost predicate NoDatatypeCount(cfg: Config, head: seq<Atom>) {
    forall a :: a in head && (a.AtMost? || a.AtLeast?) && a.qual.Some? ==> a.qual.value !in cfg.dkeys
  }

  /** The body starts with `body`, or with a name invented since `from`. */
  ghost predicate Starts(body: Body, from: ClassId, cl: DlClause) {
    body <= cl.body || (cl.body != [] && cl.body[0].Class? && cl.body[0].cls >= from && cl.body[0].v == X)
  }

  /** Every clause added from `st` to `st'` is of this kind. */
  ghost predicate Triggered(cfg: Config, body: Body, st: State, st': State) {
    && st.clauses <= st'.clauses && st.names <= st'.names
    && forall k :: |st.clauses| <= k < |st'.clauses| ==>
      Starts(body, NextFresh(cfg, st), st'.clauses[k]) && NoDatatypeCount(cfg, st'.clauses[k].head)
  }

  lemma TriggeredThen(cfg: Config, body: Body, st: State, st1: State, st2: State)
    requires Triggered(cfg, body, st, st1) && Triggered(cfg, body, st1, st2)
    ensures Triggered(cfg, body, st, st2)
  {
    forall k | |st.clauses| <= k < |st2.clauses|
      ensures Starts(body, NextFresh(cfg, st), st2.clauses[k]) && NoDatatypeCount(cfg, st2.clauses[k].head)
    {
      if k < |st1.clauses| { assert st2.clauses[k] == st1.clauses[k]; }
    }
  }

  lemma PushTriggered(cfg: Config, body: Body, st: State, st1: State, more: Body, head: seq<Atom>)
    requires Triggered(cfg, body, st, st1) && body <= more && NoDatatypeCount(cfg, head)
    ensures Triggered(cfg, body, st, st1.Push(more, head))
  {
    var st2 := st1.Push(more, head);
    forall k | |st.clauses| <= k < |st2.clauses|
      ensures Starts(body, NextFresh(cfg, st), st2.clauses[k]) && NoDatatypeCount(cfg, st2.clauses[k].head)
    {
      if k < |st1.clauses| { assert st2.clauses[k] == st1.clauses[k]; }
    }
  }

  /** Clauses under a longer body start with the shorter one. */
  lemma TriggeredShorter(cfg: Config, body: Body, more: Body, st: State, st': State)
    requires body <= more && Triggered(cfg, more, st, st')
    ensures Triggered(cfg, body, st, st')
  {
  }

  lemma {:induction false} EmitTriggered(cfg: Config, st: State, body: Body, c: Concept, v: Var)
    requires WfConfig(cfg)
    ensures Triggered(cfg, body, st, Emit(cfg, st, body, c, v))
    decreases c, 0
  {
    match c
    case Top =>
    case Bot => PushTriggered(cfg, body, st, st, body, []);
    case Atomic(a) => PushTriggered(cfg, body, st, st, body, [Class(a, v)]);
    case Nominal(i) => PushTriggered(cfg, body, st, st, body, [Class(cfg.nominalBase + i, v)]);
    case And(parts) => EmitAllTriggered(cfg, st, body, parts, v);
    case Or(parts) =>
      var (head, st1) := HeadAtoms(cfg, st, parts, [], v);
      HeadAtomsTriggered(cfg, st, body, parts, [], v);
      if head.Some? { PushTriggered(cfg, body, st, st1, body, head.value); }
    case SomeOf(r, f) =>
      var (q, st1) := NameOf(cfg, st, f);
      NameTriggered(cfg, st, body, f);
      PushTriggered(cfg, body, st, st1, body, [Exists(Canon(cfg.canon, r), q, v)]);
    case AllOf(r, f) =>
      var y := st.nextVar;
      var more := body + [Edge(Canon(cfg.canon, r), v, y)];
      EmitTriggered(cfg, st.(nextVar := y + 1), more, f, y);
      TriggeredShorter(cfg, body, more, st.(nextVar := y + 1), Emit(cfg, st.(nextVar := y + 1), more, f, y));
    case Not(x) =>
      if ClassIdOf(cfg, x).Some? || x.HasSelf? { PushTriggered(cfg, body, st, st, body + [LiteralAtom(cfg, x, v)], []); }
    case Min(n, r, f) => if n != 0 { CardTriggered(cfg, st, body, c, v); }
    case Max(n, r, f) => CardTriggered(cfg, st, body, c, v);
    case HasSelf(r) => PushTriggered(cfg, body, st, st, body, [Edge(Canon(cfg.canon, r), v, v)]);
  }

  lemma {:induction false} CardTriggered(cfg: Config, st: State, body: Body, c: Concept, v: Var)
    requires WfConfig(cfg) && (c.Max? || (c.Min? && c.n != 0))
    ensures Triggered(cfg, body, st, Emit(cfg, st, body, c, v))
    decreases c.filler, 4
  {
    var (q, st1) := QualifierOf(cfg, st, c.filler);
    QualifierTriggered(cfg, st, body, c.filler);
    if !(q.Some? && q.value in cfg.dkeys) { PushTriggered(cfg, body, st, st1, body, [CardAtom(cfg, c, q, v)]); }
  }

  lemma {:induction false} EmitAllTriggered(cfg: Config, st: State, body: Body, parts: seq<Concept>, v: Var)
    requires WfConfig(cfg)
    ensures Triggered(cfg, body, st, EmitAll(cfg, st, body, parts, v))
    decreases parts, 1
  {
    if parts != [] {
      var st1 := Emit(cfg, st, body, parts[0], v);
      EmitTriggered(cfg, st, body, parts[0], v);
      EmitAllTriggered(cfg, st1, body, parts[1..], v);
      TriggeredThen(cfg, body, st, st1, EmitAll(cfg, st, body, parts, v));
    }
  }

  lemma {:induction false} QualifierTriggered(cfg: Config, st: State, body: Body, f: Concept)
    requires WfConfig(cfg)
    ensures Triggered(cfg, body, st, QualifierOf(cfg, st, f).1)
    decreases f, 2
  {
    if !f.Top? { NameTriggered(cfg, st, body, f); }
  }

  /** A filler outside the datatype classes is counted outside them: new names come after them. */
  lemma QualifierClass(cfg: Config, st: State, f: Concept)
    requires WfConfig(cfg) && !IsDkey(cfg, f)
    ensures QualifierOf(cfg, st, f).0.Some? ==> QualifierOf(cfg, st, f).0.value !in cfg.dkeys
  {
    if !f.Top? {
      assert QualifierOf(cfg, st, f).0 == Some(NameOf(cfg, st, f).0);
      if ClassIdOf(cfg, f).None? { assert NameOf(cfg, st, f).0 == NextFresh(cfg, st) >= cfg.nominalBase; }
    }
  }

  /** The clauses of a new name start with it. */
  lemma {:induction false} NameTriggered(cfg: Config, st: State, body: Body, c: Concept)
    requires WfConfig(cfg)
    ensures Triggered(cfg, body, st, NameOf(cfg, st, c).1)
    decreases c, 1
  {
    if ClassIdOf(cfg, c).None? {
      var q := NextFresh(cfg, st);
      var st0 := st.(names := st.names + [c]);
      EmitTriggered(cfg, st0, [Class(q, X)], c, X);
      NamedStarts(cfg, body, st, c, Emit(cfg, st0, [Class(q, X)], c, X));
    }
  }

  lemma NamedStarts(cfg: Config, body: Body, st: State, c: Concept, st': State)
    requires Triggered(cfg, [Class(NextFresh(cfg, st), X)], st.(names := st.names + [c]), st')
    ensures Triggered(cfg, body, st, st')
  {
    forall k | |st.clauses| <= k < |st'.clauses| ensures Starts(body, NextFresh(cfg, st), st'.clauses[k]) {
      assert Starts([Class(NextFresh(cfg, st), X)], NextFresh(cfg, st) + 1, st'.clauses[k]);
    }
  }

  lemma {:induction false} HeadAtomTriggered(cfg: Config, st: State, body: Body, c: Concept, v: Var)
    requires WfConfig(cfg)
    ensures Triggered(cfg, body, st, HeadAtom(cfg, st, c, v).1)
    ensures HeadAtom(cfg, st, c, v).0.Some? ==> NoDatatypeCount(cfg, [HeadAtom(cfg, st, c, v).0.value])
    decreases c, 3
  {
    if c.SomeOf? {
      NameTriggered(cfg, st, body, c.filler);
    } else if c.Not? {
      if ClassIdOf(cfg, c.arg).Some? || c.arg.HasSelf? {
        var q := NextFresh(cfg, st);
        var st0 := st.(names := st.names + [c]);
        PushTriggered(cfg, [Class(q, X)], st0, st0, [Class(q, X), LiteralAtom(cfg, c.arg, X)], []);
        NamedStarts(cfg, body, st, c, HeadAtom(cfg, st, c, v).1);
      }
    } else if (c.Max? || (c.Min? && c.n != 0)) && cfg.cardAtoms && !IsDkey(cfg, c.filler) {
      QualifierTriggered(cfg, st, body, c.filler);
      var q := QualifierOf(cfg, st, c.filler).0;
      QualifierClass(cfg, st, c.filler);
      assert HeadAtom(cfg, st, c, v).0 == Some(CardAtom(cfg, c, q, v));
    } else {
      assert HeadAtom(cfg, st, c, v) == NameAtom(cfg, st, c, v);
      NameTriggered(cfg, st, body, c);
    }
  }

  lemma {:induction false} HeadAtomsTriggered(cfg: Config, st: State, body: Body, parts: seq<Concept>, acc: seq<Atom>, v: Var)
    requires WfConfig(cfg) && NoDatatypeCount(cfg, acc)
    ensures Triggered(cfg, body, st, HeadAtoms(cfg, st, parts, acc, v).1)
    ensures HeadAtoms(cfg, st, parts, acc, v).0.Some? ==> NoDatatypeCount(cfg, HeadAtoms(cfg, st, parts, acc, v).0.value)
    decreases parts, 4
  {
    if parts != [] {
      var (a, st1) := HeadAtom(cfg, st, parts[0], v);
      HeadAtomTriggered(cfg, st, body, parts[0], v);
      if a.Some? {
        assert a.value in [a.value];
        HeadAtomsTriggered(cfg, st1, body, parts[1..], acc + [a.value], v);
        TriggeredThen(cfg, body, st, st1, HeadAtoms(cfg, st1, parts[1..], acc + [a.value], v).1);
      }
    }
  }

  // ----- inclusions -----

  /** The body starts with one of `bodies`, or with a name invented since `from`. */
  ghost predicate StartsAny(bodies: seq<Body>, from: ClassId, cl: DlClause) {
    exists b {:trigger Starts(b, from, cl)} :: b in bodies && Starts(b, from, cl)
  }

  ghost predicate TriggeredBy(cfg: Config, bodies: seq<Body>, st: State, st': State) {
    && st.clauses <= st'.clauses && st.names <= st'.names
    && forall k :: |st.clauses| <= k < |st'.clauses| ==>
      StartsAny(bodies, NextFresh(cfg, st), st'.clauses[k]) && NoDatatypeCount(cfg, st'.clauses[k].head)
  }

  lemma {:induction false} BodiesTriggered(cfg: Config, st: State, all: seq<Body>, bodies: seq<Body>, c: Concept, v: Var)
    requires WfConfig(cfg) && forall b :: b in bodies ==> b in all
    ensures TriggeredBy(cfg, all, st, EmitBodies(cfg, st, bodies, c, v))
    decreases bodies
  {
    if bodies != [] {
      var st1 := Emit(cfg, st, bodies[0], c, v);
      var st2 := EmitBodies(cfg, st1, bodies[1..], c, v);
      EmitTriggered(cfg, st, bodies[0], c, v);
      BodiesTriggered(cfg, st1, all, bodies[1..], c, v);
      forall k | |st.clauses| <= k < |st2.clauses|
        ensures StartsAny(all, NextFresh(cfg, st), st2.clauses[k]) && NoDatatypeCount(cfg, st2.clauses[k].head)
      {
        StartsStep(cfg, st, st1, st2, all, bodies[0], k);
      }
    }
  }

  lemma StartsStep(cfg: Config, st: State, st1: State, st2: State, all: seq<Body>, b: Body, k: nat)
    requires Triggered(cfg, b, st, st1) && TriggeredBy(cfg, all, st1, st2) && b in all && |st.clauses| <= k < |st2.clauses|
    ensures StartsAny(all, NextFresh(cfg, st), st2.clauses[k]) && NoDatatypeCount(cfg, st2.clauses[k].head)
  {
    if k < |st1.clauses| {
      assert st2.clauses[k] == st1.clauses[k] && Starts(b, NextFresh(cfg, st), st1.clauses[k]);
    } else {
      var other :| other in all && Starts(other, NextFresh(cfg, st1), st2.clauses[k]);
      assert Starts(other, NextFresh(cfg, st), st2.clauses[k]);
    }
  }

  /** Every clause of an inclusion starts with an alternative of its antecedent, or of the encodable
      conjuncts when the whole is not encodable, or defines a name; only an antecedent without an
      encodable conjunct gives clauses without a trigger. */
  lemma GciTriggered(cfg: Config, st: State, sub: Concept, sup: Concept)
    requires WfConfig(cfg) && Encodable(cfg, GciTrigger(cfg, sub))
    ensures TriggeredBy(cfg, Encode(cfg, GciTrigger(cfg, sub), X, X + 1).alts.value, st, Gci(cfg, st, sub, sup))
  {
    var e := Encode(cfg, GciTrigger(cfg, sub), X, X + 1);
    var alts := e.alts.value;
    if Encode(cfg, sub, X, X + 1).alts.Some? {
      BodiesTriggered(cfg, st.(nextVar := e.nextVar), alts, alts, sup, X);
    } else if Soft(cfg, Conjuncts(sub)) == [] {
      assert Encode(cfg, Top, X, X + 1) == Encoding(Some([[]]), X + 1);
      assert [] in alts;
      EmitTriggered(cfg, st.(nextVar := X + 1), [], HardHead(cfg, sub, sup), X);
      forall k | |st.clauses| <= k < |Gci(cfg, st, sub, sup).clauses| ensures StartsAny(alts, NextFresh(cfg, st), Gci(cfg, st, sub, sup).clauses[k]) {
        assert Starts([], NextFresh(cfg, st), Gci(cfg, st, sub, sup).clauses[k]);
      }
    } else {
      BodiesTriggered(cfg, st.(nextVar := e.nextVar), alts, alts, HardHead(cfg, sub, sup), X);
    }
  }
}
