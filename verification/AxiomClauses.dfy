/** Axiom by axiom: the clauses of an axiom hold exactly when the axiom does. */
module AxiomMeaning {
  import opened Dl
  import opened Clauses
  import opened Clausify
  import opened Antecedents
  import opened Consequents
  import opened Converse

  ghost predicate Gains(st: State, st': State) {
    st.clauses <= st'.clauses && st.names <= st'.names && st.deferred <= st'.deferred
  }

  /** The step from `st` to `st'` adds clauses for the statement `truth`.

      Sound: where the new structural names are read as what they stand for, `truth` gives the new
      clauses. Converse: if nothing was deferred and no head was dropped (`kept`), the clauses
      give `truth` back in every interpretation that reads the names, and `weak` in every
      interpretation at all. */
  ghost predicate Adds<E(!new)>(cfg: Config, J: Interp<E>, st: State, st': State, truth: bool, kept: bool, weak: bool) {
    && Gains(st, st')
    && (WfState(cfg, st) ==> WfState(cfg, st'))
    && (ReadsFrom(cfg, J, |st.names|, st'.names) && AllHold(J, st.clauses) && truth ==> AllHold(J, st'.clauses))
    && (kept && st'.deferred == st.deferred && AllHold(J, st'.clauses) ==> weak && (Reads(cfg, J, st'.names) ==> truth))
  }

  lemma AddsThen<E(!new)>(cfg: Config, J: Interp<E>, st: State, st1: State, st2: State,
      t1: bool, k1: bool, w1: bool, t2: bool, k2: bool, w2: bool)
    requires Adds(cfg, J, st, st1, t1, k1, w1) && Adds(cfg, J, st1, st2, t2, k2, w2)
    ensures Adds(cfg, J, st, st2, t1 && t2, k1 && k2, w1 && w2)
  {
    if Reads(cfg, J, st2.names) { assert Reads(cfg, J, st1.names); }
    if ReadsFrom(cfg, J, |st.names|, st2.names) {
      assert ReadsFrom(cfg, J, |st.names|, st1.names) && ReadsFrom(cfg, J, |st1.names|, st2.names);
    }
  }

  /** The same step, for an equivalent statement under stronger conditions. */
  lemma AddsAs<E(!new)>(cfg: Config, J: Interp<E>, st: State, st': State, t: bool, k: bool, w: bool, t': bool, k': bool, w': bool)
    requires Adds(cfg, J, st, st', t, k, w) && (t <==> t') && (k' ==> k) && (w ==> w')
    ensures Adds(cfg, J, st, st', t', k', w')
  {
  }

  ghost predicate Ready<E(!new)>(cfg: Config, J: Interp<E>) {
    WfConfig(cfg) && NominalsRight(cfg, J)
  }

  /** Atoms over classes the input may mention. */
  ghost predicate BodiesBelow(cfg: Config, bodies: seq<Body>) {
    forall b :: b in bodies ==> AtomsBelow(b, cfg.firstFresh)
  }

  lemma EmitAdds<E(!new)>(cfg: Config, J: Interp<E>, st: State, body: Body, c: Concept, v: Var)
    requires Ready(cfg, J) && Known(cfg, c) && Fits(st, body, v) && AtomsBelow(body, cfg.firstFresh)
    ensures Adds(cfg, J, st, Emit(cfg, st, body, c, v), Implied(cfg, J, body, c, v), NoDkey(cfg, c), Implied(cfg, J, body, Weak(c), v))
    ensures st.nextVar <= Emit(cfg, st, body, c, v).nextVar
  {
    var st' := Emit(cfg, st, body, c, v);
    EmitGrows(cfg, st, body, c, v);
    if ReadsFrom(cfg, J, |st.names|, st'.names) && AllHold(J, st.clauses) && Implied(cfg, J, body, c, v) {
      EmitSound(cfg, J, st, body, c, v);
    }
    if NoDkey(cfg, c) && st'.deferred == st.deferred && AllHold(J, st'.clauses) {
      EmitFaithful(cfg, J, st, body, c, v, false);
      if Reads(cfg, J, st'.names) { EmitFaithful(cfg, J, st, body, c, v, true); }
    }
  }

  ghost predicate AllImplied<E(!new)>(cfg: Config, J: Interp<E>, bodies: seq<Body>, c: Concept, v: Var) {
    forall b :: b in bodies ==> Implied(cfg, J, b, c, v)
  }

  ghost predicate AllFit(st: State, bodies: seq<Body>, v: Var) {
    forall b :: b in bodies ==> Fits(st, b, v)
  }

  lemma FitLater(st: State, st1: State, bodies: seq<Body>, v: Var)
    requires AllFit(st, bodies, v) && st.nextVar <= st1.nextVar
    ensures AllFit(st1, bodies, v)
  {
    forall b | b in bodies ensures Fits(st1, b, v) { assert Fits(st, b, v); }
  }

  lemma {:induction false} BodiesAdd<E(!new)>(cfg: Config, J: Interp<E>, st: State, bodies: seq<Body>, c: Concept, v: Var)
    requires Ready(cfg, J) && Known(cfg, c) && AllFit(st, bodies, v) && BodiesBelow(cfg, bodies)
    ensures Adds(cfg, J, st, EmitBodies(cfg, st, bodies, c, v), AllImplied(cfg, J, bodies, c, v), NoDkey(cfg, c),
      AllImplied(cfg, J, bodies, Weak(c), v))
    decreases bodies
  {
    if bodies != [] {
      var st1 := Emit(cfg, st, bodies[0], c, v);
      assert bodies == [bodies[0]] + bodies[1..];
      EmitAdds(cfg, J, st, bodies[0], c, v);
      FitLater(st, st1, bodies[1..], v);
      BodiesAdd(cfg, J, st1, bodies[1..], c, v);
      AddsThen(cfg, J, st, st1, EmitBodies(cfg, st, bodies, c, v),
        Implied(cfg, J, bodies[0], c, v), NoDkey(cfg, c), Implied(cfg, J, bodies[0], Weak(c), v),
        AllImplied(cfg, J, bodies[1..], c, v), NoDkey(cfg, c), AllImplied(cfg, J, bodies[1..], Weak(c), v));
    }
  }

  // ----- encoded antecedents use known classes -----

  lemma {:induction false} EncodeBelow(cfg: Config, c: Concept, v: Var, nv: Var)
    requires Known(cfg, c) && Encode(cfg, c, v, nv).alts.Some?
    ensures BodiesBelow(cfg, Encode(cfg, c, v, nv).alts.value)
    decreases c, 0
  {
    match c
    case And(parts) => AndBelow(cfg, parts, [[]], v, nv);
    case Or(parts) => OrBelow(cfg, parts, [], v, nv);
    case SomeOf(r, f) =>
      EncodeBelow(cfg, f, nv, nv + 1);
      CrossBelow(cfg, [[Edge(Canon(cfg.canon, r), v, nv)]], Encode(cfg, f, nv, nv + 1).alts.value);
      SingleCross([Edge(Canon(cfg.canon, r), v, nv)], Encode(cfg, f, nv, nv + 1).alts.value);
    case _ =>
  }

  lemma {:induction false} AndBelow(cfg: Config, parts: seq<Concept>, acc: seq<Body>, v: Var, nv: Var)
    requires AllKnown(cfg, parts) && BodiesBelow(cfg, acc) && EncodeAnd(cfg, parts, acc, v, nv).alts.Some?
    ensures BodiesBelow(cfg, EncodeAnd(cfg, parts, acc, v, nv).alts.value)
    decreases parts, 1
  {
    if parts != [] {
      var child := Encode(cfg, parts[0], v, nv);
      EncodeBelow(cfg, parts[0], v, nv);
      CrossBelow(cfg, acc, child.alts.value);
      AndBelow(cfg, parts[1..], Cross(acc, child.alts.value), v, child.nextVar);
    }
  }

  lemma {:induction false} OrBelow(cfg: Config, parts: seq<Concept>, acc: seq<Body>, v: Var, nv: Var)
    requires AllKnown(cfg, parts) && BodiesBelow(cfg, acc) && EncodeOr(cfg, parts, acc, v, nv).alts.Some?
    ensures BodiesBelow(cfg, EncodeOr(cfg, parts, acc, v, nv).alts.value)
    decreases parts, 1
  {
    if parts != [] {
      var child := Encode(cfg, parts[0], v, nv);
      EncodeBelow(cfg, parts[0], v, nv);
      OrBelow(cfg, parts[1..], acc + child.alts.value, v, child.nextVar);
    }
  }

  predicate Encodable(cfg: Config, c: Concept) {
    Encode(cfg, c, X, X + 1).alts.Some?
  }

  /** An encoded antecedent at `X` is ready to be the bodies of clauses. */
  lemma EncodedBodies(cfg: Config, st: State, c: Concept)
    requires Known(cfg, c) && Encode(cfg, c, X, X + 1).alts.Some?
    ensures AllFit(st.(nextVar := Encode(cfg, c, X, X + 1).nextVar), Encode(cfg, c, X, X + 1).alts.value, X)
    ensures BodiesBelow(cfg, Encode(cfg, c, X, X + 1).alts.value)
  {
    EncodeFresh(cfg, c, X, X + 1);
    EncodeBelow(cfg, c, X, X + 1);
  }

  /** The alternatives of `sub` all imply `sup` iff `sub ⊑ sup`. */
  lemma BodiesSubsume<E(!new)>(cfg: Config, J: Interp<E>, sub: Concept, sup: Concept)
    requires Ready(cfg, J) && Known(cfg, sub) && Encode(cfg, sub, X, X + 1).alts.Some?
    ensures AllImplied(cfg, J, Encode(cfg, sub, X, X + 1).alts.value, sup, X) <==> Subsumed(View(cfg, J), sub, sup)
  {
    var alts := Encode(cfg, sub, X, X + 1).alts.value;
    if Subsumed(View(cfg, J), sub, sup) {
      forall b, env: Env<E> | b in alts && BodyHolds(J, b, env) ensures Sat(View(cfg, J), sup, env(X)) {
        EncodeSound(cfg, J, sub, X, X + 1, b, env);
      }
    }
    if AllImplied(cfg, J, alts, sup, X) {
      forall x | Sat(View(cfg, J), sub, x) ensures Sat(View(cfg, J), sup, x) {
        var env: Env<E> := (w: Var) => x;
        var b, env' := EncodeComplete(cfg, J, sub, X, X + 1, env);
        assert Implied(cfg, J, b, sup, X);
      }
    }
  }

  // ----- partial absorption -----

  lemma MkOrKnown(cfg: Config, args: seq<Concept>)
    requires cfg.nominalBase <= cfg.firstFresh && AllKnown(cfg, args)
    ensures Known(cfg, MkOr(cfg.ord, args)) && Known(cfg, MkAnd(cfg.ord, args))
  {
    FlattenKnown(cfg, args);
  }

  lemma {:induction false} FlattenKnown(cfg: Config, args: seq<Concept>)
    requires AllKnown(cfg, args)
    ensures AllKnown(cfg, FlattenOr(args)) && AllKnown(cfg, FlattenAnd(args))
  {
    if args != [] {
      assert Known(cfg, args[0]);
      FlattenKnown(cfg, args[1..]);
    }
  }

  lemma {:induction false} ComplementKnown(cfg: Config, c: Concept)
    requires Known(cfg, c)
    ensures Known(cfg, Complement(cfg.ord, c)) && Known(cfg, ToNnf(cfg.ord, c))
    decreases c
  {
    match c
    case Not(x) => ComplementKnown(cfg, x);
    case And(cs) =>
      forall k | 0 <= k < |cs| ensures Known(cfg, Complement(cfg.ord, cs[k])) && Known(cfg, ToNnf(cfg.ord, cs[k])) { ComplementKnown(cfg, cs[k]); }
      MkOrKnown(cfg, ComplementAll(cfg.ord, cs)); MkOrKnown(cfg, ToNnfAll(cfg.ord, cs));
    case Or(cs) =>
      forall k | 0 <= k < |cs| ensures Known(cfg, Complement(cfg.ord, cs[k])) && Known(cfg, ToNnf(cfg.ord, cs[k])) { ComplementKnown(cfg, cs[k]); }
      MkOrKnown(cfg, ComplementAll(cfg.ord, cs)); MkOrKnown(cfg, ToNnfAll(cfg.ord, cs));
    case SomeOf(_, f) => ComplementKnown(cfg, f);
    case AllOf(_, f) => ComplementKnown(cfg, f);
    case Min(_, _, f) => ComplementKnown(cfg, f);
    case Max(_, _, f) => ComplementKnown(cfg, f);
    case _ =>
  }

  lemma HardHeadKnown(cfg: Config, sub: Concept, sup: Concept)
    requires Known(cfg, sub) && Known(cfg, sup)
    ensures Known(cfg, HardHead(cfg, sub, sup)) && Known(cfg, SoftPart(cfg, sub))
  {
    var parts := Conjuncts(sub);
    assert AllKnown(cfg, parts);
    ComplementKnown(cfg, sub);
    MkOrKnown(cfg, [Complement(cfg.ord, sub), sup]);
    ComplementsKnown(cfg, Hard(cfg, parts));
    MkOrKnown(cfg, ComplementAll(cfg.ord, Hard(cfg, parts)) + [sup]);
    MkOrKnown(cfg, Soft(cfg, parts));
    if |Soft(cfg, parts)| == 1 { assert Soft(cfg, parts)[0] in Soft(cfg, parts); }
  }

  lemma ComplementsKnown(cfg: Config, cs: seq<Concept>)
    requires AllKnown(cfg, cs)
    ensures AllKnown(cfg, ComplementAll(cfg.ord, cs))
  {
    forall k | 0 <= k < |cs| ensures Known(cfg, Complement(cfg.ord, cs[k])) {
      assert cs[k] in cs;
      ComplementKnown(cfg, cs[k]);
    }
  }

  lemma SoftSat<E(!new)>(I: Interp<E>, cfg: Config, sub: Concept, x: E)
    ensures Sat(I, SoftPart(cfg, sub), x) <==> Sat(I, And(Soft(cfg, Conjuncts(sub))), x)
  {
    var soft := Soft(cfg, Conjuncts(sub));
    if |soft| == 1 { assert soft == [soft[0]]; }
    else if soft != [] { MkAndSat(I, cfg.ord, soft, x); }
  }

  /** The contrapositive: `soft ⊑ ¬hard ⊔ sup` says `sub ⊑ sup`. */
  lemma ContrapositiveSat<E(!new)>(I: Interp<E>, cfg: Config, sub: Concept, sup: Concept, x: E)
    ensures (Sat(I, SoftPart(cfg, sub), x) ==> Sat(I, HardHead(cfg, sub, sup), x)) <==>
      (Sat(I, sub, x) ==> Sat(I, sup, x))
  {
    SoftSat(I, cfg, sub, x);
    PartsSat(I, cfg, sub, x);
    HardHeadSat(I, cfg, sub, sup, x);
  }

  /** The head is the contrapositive of the conjuncts the body leaves out, or of all of them. */
  lemma HardHeadSat<E(!new)>(I: Interp<E>, cfg: Config, sub: Concept, sup: Concept, x: E)
    ensures var parts := Conjuncts(sub);
      Sat(I, HardHead(cfg, sub, sup), x) <==>
      (if Soft(cfg, parts) == [] then !Sat(I, sub, x) else !Sat(I, And(Hard(cfg, parts)), x)) || Sat(I, sup, x)
  {
    var hard := Hard(cfg, Conjuncts(sub));
    if Soft(cfg, Conjuncts(sub)) == [] {
      NnfSat(I, cfg.ord, sub, x);
      HeadSat(I, cfg.ord, [Complement(cfg.ord, sub)], sup, x);
      assert [Complement(cfg.ord, sub)] + [sup] == [Complement(cfg.ord, sub), sup];
      SingletonOr(I, Complement(cfg.ord, sub), x);
    } else {
      NnfSatAll(I, cfg.ord, hard, x);
      HeadSat(I, cfg.ord, ComplementAll(cfg.ord, hard), sup, x);
    }
  }

  /** An antecedent is its encodable conjuncts and the others. */
  lemma PartsSat<E(!new)>(I: Interp<E>, cfg: Config, sub: Concept, x: E)
    ensures var parts := Conjuncts(sub);
      Sat(I, sub, x) <==> Sat(I, And(Soft(cfg, parts)), x) && Sat(I, And(Hard(cfg, parts)), x)
  {
    var parts := Conjuncts(sub);
    if !sub.And? { assert parts == [sub]; }
    assert Sat(I, sub, x) <==> Sat(I, And(parts), x);
  }

  lemma HeadSat<E(!new)>(I: Interp<E>, ord: Order, front: seq<Concept>, sup: Concept, x: E)
    ensures Sat(I, MkOr(ord, front + [sup]), x) <==> Sat(I, Or(front), x) || Sat(I, sup, x)
  {
    MkOrSat(I, ord, front + [sup], x);
    OrSplit(I, front, [sup], x);
    SingletonOr(I, sup, x);
  }

  lemma Contrapositive<E(!new)>(I: Interp<E>, cfg: Config, sub: Concept, sup: Concept)
    ensures Subsumed(I, SoftPart(cfg, sub), HardHead(cfg, sub, sup)) <==> Subsumed(I, sub, sup)
  {
    forall x { ContrapositiveSat(I, cfg, sub, sup, x); }
  }

  lemma TopImplied<E(!new)>(cfg: Config, J: Interp<E>, c: Concept)
    ensures Implied(cfg, J, [], c, X) <==> Subsumed(View(cfg, J), Top, c)
  {
    if Implied(cfg, J, [], c, X) {
      forall x ensures Sat(View(cfg, J), c, x) {
        var env: Env<E> := (w: Var) => x;
        assert BodyHolds(J, [], env);
      }
    }
  }

  /** The head concept a GCI is emitted with. */
  function GciHead(cfg: Config, sub: Concept, sup: Concept): Concept {
    if Encode(cfg, sub, X, X + 1).alts.Some? then sup else HardHead(cfg, sub, sup)
  }

  /** What a GCI holds its head to. */
  function GciTrigger(cfg: Config, sub: Concept): Concept {
    if Encode(cfg, sub, X, X + 1).alts.Some? then sub else SoftPart(cfg, sub)
  }

  /** What the clauses of a GCI say in every interpretation. */
  ghost predicate GciGiven<E(!new)>(cfg: Config, I: Interp<E>, sub: Concept, sup: Concept) {
    Subsumed(I, GciTrigger(cfg, sub), Weak(GciHead(cfg, sub, sup)))
  }

  /** Which is the GCI itself when its head has no named `≤` filler. */
  lemma PlainGci<E(!new)>(cfg: Config, I: Interp<E>, sub: Concept, sup: Concept)
    requires PlainMax(GciHead(cfg, sub, sup))
    ensures GciGiven(cfg, I, sub, sup) <==> Subsumed(I, sub, sup)
  {
    WeakPlain(GciHead(cfg, sub, sup));
    Contrapositive(I, cfg, sub, sup);
  }

  lemma ResetAdds<E(!new)>(cfg: Config, J: Interp<E>, st: State, nv: Var, st': State, t: bool, k: bool, w: bool)
    requires Adds(cfg, J, st.(nextVar := nv), st', t, k, w)
    ensures Adds(cfg, J, st, st', t, k, w)
  {
  }

  /** A trigger `soft` with head `head`. */
  lemma TriggerAdds<E(!new)>(cfg: Config, J: Interp<E>, st: State, soft: Concept, head: Concept)
    requires Ready(cfg, J) && Known(cfg, soft) && Known(cfg, head) && Encodable(cfg, soft)
    ensures Adds(cfg, J, st, EmitBodies(cfg, st.(nextVar := Encode(cfg, soft, X, X + 1).nextVar), Encode(cfg, soft, X, X + 1).alts.value, head, X),
      Subsumed(View(cfg, J), soft, head), NoDkey(cfg, head), Subsumed(View(cfg, J), soft, Weak(head)))
  {
    var e := Encode(cfg, soft, X, X + 1);
    EncodedBodies(cfg, st, soft);
    BodiesAdd(cfg, J, st.(nextVar := e.nextVar), e.alts.value, head, X);
    BodiesSubsume(cfg, J, soft, head);
    BodiesSubsume(cfg, J, soft, Weak(head));
  }

  lemma UntriggeredAdds<E(!new)>(cfg: Config, J: Interp<E>, st: State, head: Concept)
    requires Ready(cfg, J) && Known(cfg, head)
    ensures Adds(cfg, J, st, Emit(cfg, st.(nextVar := X + 1), [], head, X), Subsumed(View(cfg, J), Top, head), NoDkey(cfg, head),
      Subsumed(View(cfg, J), Top, Weak(head)))
  {
    EmitAdds(cfg, J, st.(nextVar := X + 1), [], head, X);
    TopImplied(cfg, J, head);
    TopImplied(cfg, J, Weak(head));
  }

  lemma HardAdds<E(!new)>(cfg: Config, J: Interp<E>, st: State, sub: Concept, sup: Concept)
    requires Ready(cfg, J) && Known(cfg, sub) && Known(cfg, sup)
    ensures Adds(cfg, J, st, AbsorbHard(cfg, st, sub, sup), Subsumed(View(cfg, J), sub, sup),
      NoDkey(cfg, HardHead(cfg, sub, sup)), Subsumed(View(cfg, J), SoftPart(cfg, sub), Weak(HardHead(cfg, sub, sup))))
  {
    var head, soft := HardHead(cfg, sub, sup), SoftPart(cfg, sub);
    var t, t', w := Subsumed(View(cfg, J), soft, head), Subsumed(View(cfg, J), sub, sup), Subsumed(View(cfg, J), soft, Weak(head));
    HardHeadKnown(cfg, sub, sup);
    Contrapositive(View(cfg, J), cfg, sub, sup);
    if Soft(cfg, Conjuncts(sub)) == [] {
      UntriggeredAdds(cfg, J, st, head);
      AddsAs(cfg, J, st, AbsorbHard(cfg, st, sub, sup), t, NoDkey(cfg, head), w, t', NoDkey(cfg, head), w);
    } else if Encodable(cfg, soft) {
      TriggerAdds(cfg, J, st, soft, head);
      AddsAs(cfg, J, st, AbsorbHard(cfg, st, sub, sup), t, NoDkey(cfg, head), w, t', NoDkey(cfg, head), w);
    } else {
      DeferAdds(cfg, J, st, Encode(cfg, soft, X, X + 1).nextVar, t', NoDkey(cfg, head), w);
    }
  }

  /** A deferral adds no clause and gives nothing back. */
  lemma DeferAdds<E(!new)>(cfg: Config, J: Interp<E>, st: State, nv: Var, t: bool, k: bool, w: bool)
    ensures Adds(cfg, J, st, st.(nextVar := nv).Defer(), t, k, w)
  {
  }

  lemma GciAdds<E(!new)>(cfg: Config, J: Interp<E>, st: State, sub: Concept, sup: Concept)
    requires Ready(cfg, J) && Known(cfg, sub) && Known(cfg, sup)
    ensures Adds(cfg, J, st, Gci(cfg, st, sub, sup), Subsumed(View(cfg, J), sub, sup),
      NoDkey(cfg, GciHead(cfg, sub, sup)), GciGiven(cfg, View(cfg, J), sub, sup))
  {
    if Encodable(cfg, sub) {
      TriggerAdds(cfg, J, st, sub, sup);
    } else {
      HardAdds(cfg, J, st, sub, sup);
    }
  }

  // ----- equivalence -----

  ghost predicate SubsumedFrom<E(!new)>(I: Interp<E>, cs: seq<Concept>, i: nat, j: nat) {
    forall a, b {:trigger Subsumed(I, cs[a], cs[b])} ::
      0 <= a < |cs| && 0 <= b < |cs| && a != b && (i < a || (i == a && j <= b)) ==> Subsumed(I, cs[a], cs[b])
  }

  lemma SubsumedStep<E(!new)>(I: Interp<E>, cs: seq<Concept>, i: nat, j: nat)
    requires i < |cs| && j <= |cs|
    ensures j == |cs| ==> (SubsumedFrom(I, cs, i, j) <==> SubsumedFrom(I, cs, i + 1, 0))
    ensures j < |cs| ==> (SubsumedFrom(I, cs, i, j) <==> (i == j || Subsumed(I, cs[i], cs[j])) && SubsumedFrom(I, cs, i, j + 1))
  {
    if j < |cs| && (i == j || Subsumed(I, cs[i], cs[j])) && SubsumedFrom(I, cs, i, j + 1) {
      forall a, b | 0 <= a < |cs| && 0 <= b < |cs| && a != b && (i < a || (i == a && j <= b))
        ensures Subsumed(I, cs[a], cs[b])
      {
        if a == i && b == j {}
      }
    }
  }

  ghost predicate KeptPairs(cfg: Config, cs: seq<Concept>) {
    forall a, b {:trigger GciHead(cfg, cs[a], cs[b])} :: 0 <= a < |cs| && 0 <= b < |cs| && a != b ==> NoDkey(cfg, GciHead(cfg, cs[a], cs[b]))
  }

  ghost predicate PlainPairs(cfg: Config, cs: seq<Concept>) {
    forall a, b {:trigger GciHead(cfg, cs[a], cs[b])} :: 0 <= a < |cs| && 0 <= b < |cs| && a != b ==> PlainMax(GciHead(cfg, cs[a], cs[b]))
  }

  /** `GciGiven` of every two distinct positions from `(i, j)` on. */
  ghost predicate GivenFrom<E(!new)>(cfg: Config, I: Interp<E>, cs: seq<Concept>, i: nat, j: nat) {
    forall a, b {:trigger GciGiven(cfg, I, cs[a], cs[b])} ::
      0 <= a < |cs| && 0 <= b < |cs| && a != b && (i < a || (i == a && j <= b)) ==> GciGiven(cfg, I, cs[a], cs[b])
  }

  lemma GivenStep<E(!new)>(cfg: Config, I: Interp<E>, cs: seq<Concept>, i: nat, j: nat)
    requires i < |cs| && j <= |cs|
    ensures j == |cs| ==> (GivenFrom(cfg, I, cs, i, j) <==> GivenFrom(cfg, I, cs, i + 1, 0))
    ensures j < |cs| ==> (GivenFrom(cfg, I, cs, i, j) <==> (i == j || GciGiven(cfg, I, cs[i], cs[j])) && GivenFrom(cfg, I, cs, i, j + 1))
  {
    if j < |cs| && (i == j || GciGiven(cfg, I, cs[i], cs[j])) && GivenFrom(cfg, I, cs, i, j + 1) {
      forall a, b | 0 <= a < |cs| && 0 <= b < |cs| && a != b && (i < a || (i == a && j <= b))
        ensures GciGiven(cfg, I, cs[a], cs[b])
      {
        if a == i && b == j {}
      }
    }
  }

  lemma PairsAt(cfg: Config, cs: seq<Concept>, i: nat, j: nat)
    requires i < |cs| && j < |cs| && i != j
    ensures KeptPairs(cfg, cs) ==> NoDkey(cfg, GciHead(cfg, cs[i], cs[j]))
  {
  }

  /** One GCI, then the rest. */
  lemma GciThen<E(!new)>(cfg: Config, J: Interp<E>, st: State, st': State, c: Concept, d: Concept, ts: bool, ks: bool, ws: bool)
    requires Ready(cfg, J) && Known(cfg, c) && Known(cfg, d)
    requires Adds(cfg, J, Gci(cfg, st, c, d), st', ts, ks, ws) && (ks ==> NoDkey(cfg, GciHead(cfg, c, d)))
    ensures Adds(cfg, J, st, st', Subsumed(View(cfg, J), c, d) && ts, ks, GciGiven(cfg, View(cfg, J), c, d) && ws)
  {
    var t, k, w := Subsumed(View(cfg, J), c, d), NoDkey(cfg, GciHead(cfg, c, d)), GciGiven(cfg, View(cfg, J), c, d);
    var st1 := Gci(cfg, st, c, d);
    GciAdds(cfg, J, st, c, d);
    AddsThen(cfg, J, st, st1, st', t, k, w, ts, ks, ws);
    AddsAs(cfg, J, st, st', t && ts, k && ks, w && ws, t && ts, ks, w && ws);
  }

  lemma {:induction false} EquivAdds<E(!new)>(cfg: Config, J: Interp<E>, st: State, cs: seq<Concept>, i: nat, j: nat, ks: bool)
    requires Ready(cfg, J) && AllKnown(cfg, cs) && i <= |cs| && j <= |cs| && (ks ==> KeptPairs(cfg, cs))
    ensures Adds(cfg, J, st, EquivFrom(cfg, st, cs, i, j), SubsumedFrom(View(cfg, J), cs, i, j), ks, GivenFrom(cfg, View(cfg, J), cs, i, j))
    decreases |cs| - i, |cs| - j
  {
    var I := View(cfg, J);
    var t, w, st' := SubsumedFrom(I, cs, i, j), GivenFrom(cfg, I, cs, i, j), EquivFrom(cfg, st, cs, i, j);
    if i == |cs| {
      NothingAdds(cfg, J, st, t, ks, w);
    } else {
      SubsumedStep(I, cs, i, j);
      GivenStep(cfg, I, cs, i, j);
      if j == |cs| {
        EquivAdds(cfg, J, st, cs, i + 1, 0, ks);
        AddsAs(cfg, J, st, st', SubsumedFrom(I, cs, i + 1, 0), ks, GivenFrom(cfg, I, cs, i + 1, 0), t, ks, w);
      } else if i == j {
        EquivAdds(cfg, J, st, cs, i, j + 1, ks);
        AddsAs(cfg, J, st, st', SubsumedFrom(I, cs, i, j + 1), ks, GivenFrom(cfg, I, cs, i, j + 1), t, ks, w);
      } else {
        PairsAt(cfg, cs, i, j);
        EquivAdds(cfg, J, Gci(cfg, st, cs[i], cs[j]), cs, i, j + 1, ks);
        GciThen(cfg, J, st, st', cs[i], cs[j], SubsumedFrom(I, cs, i, j + 1), ks, GivenFrom(cfg, I, cs, i, j + 1));
        AddsAs(cfg, J, st, st', Subsumed(I, cs[i], cs[j]) && SubsumedFrom(I, cs, i, j + 1), ks,
          GciGiven(cfg, I, cs[i], cs[j]) && GivenFrom(cfg, I, cs, i, j + 1), t, ks, w);
      }
    }
  }

  lemma NothingAdds<E(!new)>(cfg: Config, J: Interp<E>, st: State, t: bool, k: bool, w: bool)
    requires t && w
    ensures Adds(cfg, J, st, st, t, k, w)
  {
  }

  // ----- disjointness -----

  lemma {:induction false} DenialsAdd<E(!new)>(cfg: Config, J: Interp<E>, st: State, bodies: seq<Body>)
    requires BodiesBelow(cfg, bodies)
    ensures Adds(cfg, J, st, Denials(st, bodies), AllImplied(cfg, J, bodies, Bot, X), true, AllImplied(cfg, J, bodies, Bot, X))
    decreases bodies
  {
    if bodies != [] {
      var st1 := st.Push(bodies[0], []);
      assert bodies == [bodies[0]] + bodies[1..];
      PushHolds(J, st, bodies[0], []);
      assert ClauseHolds(J, DlClause(bodies[0], [])) <==> Implied(cfg, J, bodies[0], Bot, X);
      if WfState(cfg, st) {
        assert bodies[0] in bodies;
        LiftBelow(bodies[0], cfg.firstFresh, NextFresh(cfg, st));
        PushWf(cfg, st, bodies[0], []);
      }
      assert Adds(cfg, J, st, st1, Implied(cfg, J, bodies[0], Bot, X), true, Implied(cfg, J, bodies[0], Bot, X));
      DenialsAdd(cfg, J, st1, bodies[1..]);
      AddsThen(cfg, J, st, st1, Denials(st1, bodies[1..]),
        Implied(cfg, J, bodies[0], Bot, X), true, Implied(cfg, J, bodies[0], Bot, X),
        AllImplied(cfg, J, bodies[1..], Bot, X), true, AllImplied(cfg, J, bodies[1..], Bot, X));
    }
  }

  function JointBodies(cfg: Config, c: Concept, d: Concept): seq<Body>
    requires Encode(cfg, c, X, X + 1).alts.Some? && Encode(cfg, d, X, Encode(cfg, c, X, X + 1).nextVar).alts.Some?
  {
    Cross(Encode(cfg, c, X, X + 1).alts.value, Encode(cfg, d, X, Encode(cfg, c, X, X + 1).nextVar).alts.value)
  }

  lemma JointSound<E(!new)>(cfg: Config, J: Interp<E>, c: Concept, d: Concept, body: Body, env: Env<E>)
    requires Ready(cfg, J) && Known(cfg, c) && Known(cfg, d)
    requires Encode(cfg, c, X, X + 1).alts.Some? && Encode(cfg, d, X, Encode(cfg, c, X, X + 1).nextVar).alts.Some?
    requires body in JointBodies(cfg, c, d) && BodyHolds(J, body, env)
    ensures Sat(View(cfg, J), c, env(X)) && Sat(View(cfg, J), d, env(X))
  {
    var a := Encode(cfg, c, X, X + 1);
    var x, y := CrossSource(a.alts.value, Encode(cfg, d, X, a.nextVar).alts.value, body);
    BodySplit(J, x, y, env);
    EncodeSound(cfg, J, c, X, X + 1, x, env);
    EncodeSound(cfg, J, d, X, a.nextVar, y, env);
  }

  lemma JointComplete<E(!new)>(cfg: Config, J: Interp<E>, c: Concept, d: Concept, z: E) returns (body: Body, env: Env<E>)
    requires Ready(cfg, J) && Known(cfg, c) && Known(cfg, d)
    requires Encode(cfg, c, X, X + 1).alts.Some? && Encode(cfg, d, X, Encode(cfg, c, X, X + 1).nextVar).alts.Some?
    requires Sat(View(cfg, J), c, z) && Sat(View(cfg, J), d, z)
    ensures body in JointBodies(cfg, c, d) && BodyHolds(J, body, env)
  {
    var a := Encode(cfg, c, X, X + 1);
    EncodeFresh(cfg, c, X, X + 1);
    var env0: Env<E> := (w: Var) => z;
    var x, env1 := EncodeComplete(cfg, J, c, X, X + 1, env0);
    var y, env2 := EncodeComplete(cfg, J, d, X, a.nextVar, env1);
    BodyFrame(J, x, env1, env2);
    BodySplit(J, x, y, env2);
    CrossTarget(a.alts.value, Encode(cfg, d, X, a.nextVar).alts.value, x, y);
    body, env := x + y, env2;
  }

  lemma BotImplied<E(!new)>(cfg: Config, J: Interp<E>, body: Body, env: Env<E>)
    requires BodyHolds(J, body, env)
    ensures !Implied(cfg, J, body, Bot, X)
  {
  }

  /** The joint bodies of `c` and `d` are all unmatched iff `c` and `d` are disjoint. */
  lemma CrossDisjoint<E(!new)>(cfg: Config, J: Interp<E>, c: Concept, d: Concept)
    requires Ready(cfg, J) && Known(cfg, c) && Known(cfg, d)
    requires Encode(cfg, c, X, X + 1).alts.Some? && Encode(cfg, d, X, Encode(cfg, c, X, X + 1).nextVar).alts.Some?
    ensures AllImplied(cfg, J, JointBodies(cfg, c, d), Bot, X) <==> Disjoint(View(cfg, J), c, d)
  {
    var bodies := JointBodies(cfg, c, d);
    if Disjoint(View(cfg, J), c, d) {
      forall body, env: Env<E> | body in bodies ensures !BodyHolds(J, body, env) {
        if BodyHolds(J, body, env) { JointSound(cfg, J, c, d, body, env); }
      }
    }
    if AllImplied(cfg, J, bodies, Bot, X) {
      forall z ensures !(Sat(View(cfg, J), c, z) && Sat(View(cfg, J), d, z)) {
        if Sat(View(cfg, J), c, z) && Sat(View(cfg, J), d, z) {
          var body, env := JointComplete(cfg, J, c, d, z);
          BotImplied(cfg, J, body, env);
        }
      }
    }
  }

  /** Whether an antecedent is encodable does not depend on the variables. */
  lemma {:induction false} EncodableAnywhere(cfg: Config, c: Concept, v: Var, nv: Var, w: Var, nw: Var)
    ensures Encode(cfg, c, v, nv).alts.Some? == Encode(cfg, c, w, nw).alts.Some?
    ensures Encode(cfg, c, v, nv).alts.Some? ==> |Encode(cfg, c, v, nv).alts.value| == |Encode(cfg, c, w, nw).alts.value|
    decreases c, 0
  {
    match c
    case And(parts) => AndAnywhere(cfg, parts, [[]], v, nv, [[]], w, nw);
    case Or(parts) => OrAnywhere(cfg, parts, [], v, nv, [], w, nw);
    case SomeOf(_, f) => EncodableAnywhere(cfg, f, nv, nv + 1, nw, nw + 1);
    case _ =>
  }

  lemma {:induction false} AndAnywhere(cfg: Config, parts: seq<Concept>, acc: seq<Body>, v: Var, nv: Var, acc': seq<Body>, w: Var, nw: Var)
    requires |acc| == |acc'|
    ensures EncodeAnd(cfg, parts, acc, v, nv).alts.Some? == EncodeAnd(cfg, parts, acc', w, nw).alts.Some?
    ensures EncodeAnd(cfg, parts, acc, v, nv).alts.Some? ==>
      |EncodeAnd(cfg, parts, acc, v, nv).alts.value| == |EncodeAnd(cfg, parts, acc', w, nw).alts.value|
    decreases parts, 1
  {
    if parts != [] {
      EncodableAnywhere(cfg, parts[0], v, nv, w, nw);
      var x, y := Encode(cfg, parts[0], v, nv), Encode(cfg, parts[0], w, nw);
      if x.alts.Some? {
        CrossLength(acc, x.alts.value, acc', y.alts.value);
        AndAnywhere(cfg, parts[1..], Cross(acc, x.alts.value), v, x.nextVar, Cross(acc', y.alts.value), w, y.nextVar);
      }
    }
  }

  lemma {:induction false} CrossLength(a: seq<Body>, x: seq<Body>, b: seq<Body>, y: seq<Body>)
    requires |a| == |b| && |x| == |y|
    ensures |Cross(a, x)| == |Cross(b, y)|
  {
    if a != [] { CrossLength(a[1..], x, b[1..], y); }
  }

  lemma {:induction false} OrAnywhere(cfg: Config, parts: seq<Concept>, acc: seq<Body>, v: Var, nv: Var, acc': seq<Body>, w: Var, nw: Var)
    requires |acc| == |acc'|
    ensures EncodeOr(cfg, parts, acc, v, nv).alts.Some? == EncodeOr(cfg, parts, acc', w, nw).alts.Some?
    ensures EncodeOr(cfg, parts, acc, v, nv).alts.Some? ==>
      |EncodeOr(cfg, parts, acc, v, nv).alts.value| == |EncodeOr(cfg, parts, acc', w, nw).alts.value|
    decreases parts, 1
  {
    if parts != [] {
      EncodableAnywhere(cfg, parts[0], v, nv, w, nw);
      var x, y := Encode(cfg, parts[0], v, nv), Encode(cfg, parts[0], w, nw);
      if x.alts.Some? {
        OrAnywhere(cfg, parts[1..], acc + x.alts.value, v, x.nextVar, acc' + y.alts.value, w, y.nextVar);
      }
    }
  }

  lemma DenyAdds<E(!new)>(cfg: Config, J: Interp<E>, st: State, c: Concept, d: Concept, counted: bool)
    requires Ready(cfg, J) && Known(cfg, c) && Known(cfg, d)
    ensures Adds(cfg, J, st, Deny(cfg, st, c, d, counted), Disjoint(View(cfg, J), c, d),
      counted || (Encodable(cfg, c) && Encodable(cfg, d)), Disjoint(View(cfg, J), c, d))
  {
    var a := Encode(cfg, c, X, X + 1);
    var b := Encode(cfg, d, X, a.nextVar);
    EncodableAnywhere(cfg, d, X, X + 1, X, a.nextVar);
    var t, k := Disjoint(View(cfg, J), c, d), counted || (Encodable(cfg, c) && Encodable(cfg, d));
    if a.alts.Some? && b.alts.Some? {
      JointAdds(cfg, J, st.(nextVar := b.nextVar), c, d, t, k);
      ResetAdds(cfg, J, st, b.nextVar, Denials(st.(nextVar := b.nextVar), JointBodies(cfg, c, d)), t, k, t);
    } else if counted {
      DeferAdds(cfg, J, st, b.nextVar, t, k, t);
    } else {
      SkipAdds(cfg, J, st, b.nextVar, t, t);
    }
  }

  lemma JointAdds<E(!new)>(cfg: Config, J: Interp<E>, st: State, c: Concept, d: Concept, t: bool, k: bool)
    requires Ready(cfg, J) && Known(cfg, c) && Known(cfg, d) && t == Disjoint(View(cfg, J), c, d)
    requires Encode(cfg, c, X, X + 1).alts.Some? && Encode(cfg, d, X, Encode(cfg, c, X, X + 1).nextVar).alts.Some?
    ensures Adds(cfg, J, st, Denials(st, JointBodies(cfg, c, d)), t, k, t)
  {
    var a := Encode(cfg, c, X, X + 1);
    var bodies := JointBodies(cfg, c, d);
    EncodeBelow(cfg, c, X, X + 1);
    EncodeBelow(cfg, d, X, a.nextVar);
    CrossBelow(cfg, a.alts.value, Encode(cfg, d, X, a.nextVar).alts.value);
    DenialsAdd(cfg, J, st, bodies);
    CrossDisjoint(cfg, J, c, d);
    AddsAs(cfg, J, st, Denials(st, bodies), AllImplied(cfg, J, bodies, Bot, X), true, AllImplied(cfg, J, bodies, Bot, X), t, k, t);
  }

  lemma CrossBelow(cfg: Config, xs: seq<Body>, ys: seq<Body>)
    requires BodiesBelow(cfg, xs) && BodiesBelow(cfg, ys)
    ensures BodiesBelow(cfg, Cross(xs, ys))
  {
    forall b | b in Cross(xs, ys) ensures AtomsBelow(b, cfg.firstFresh) {
      var x, y := CrossSource(xs, ys, b);
      assert AtomsBelow(x, cfg.firstFresh) && AtomsBelow(y, cfg.firstFresh);
    }
  }

  lemma SingleCross(b: Body, child: seq<Body>)
    ensures Cross([b], child) == Extend(b, child)
  {
  }

  lemma SkipAdds<E(!new)>(cfg: Config, J: Interp<E>, st: State, nv: Var, t: bool, w: bool)
    ensures Adds(cfg, J, st, st.(nextVar := nv), t, false, w)
  {
  }

  ghost predicate DisjointFrom<E(!new)>(I: Interp<E>, cs: seq<Concept>, i: nat, j: nat) {
    forall a, b :: 0 <= a < b < |cs| && (i < a || (i == a && j <= b)) ==> Disjoint(I, cs[a], cs[b])
  }

  lemma DisjointStep<E(!new)>(I: Interp<E>, cs: seq<Concept>, i: nat, j: nat)
    requires i < j <= |cs|
    ensures j == |cs| ==> (DisjointFrom(I, cs, i, j) <==> DisjointFrom(I, cs, i + 1, i + 2))
    ensures j < |cs| ==> (DisjointFrom(I, cs, i, j) <==> Disjoint(I, cs[i], cs[j]) && DisjointFrom(I, cs, i, j + 1))
  {
    if j < |cs| && Disjoint(I, cs[i], cs[j]) && DisjointFrom(I, cs, i, j + 1) {
      forall a, b | 0 <= a < b < |cs| && (i < a || (i == a && j <= b)) ensures Disjoint(I, cs[a], cs[b]) {
        if a == i && b == j {}
      }
    }
  }

  ghost predicate AllEncodable(cfg: Config, cs: seq<Concept>) {
    forall c :: c in cs ==> Encodable(cfg, c)
  }

  lemma {:induction false} DenyAllAdds<E(!new)>(cfg: Config, J: Interp<E>, st: State, cs: seq<Concept>, i: nat, j: nat, counted: bool)
    requires Ready(cfg, J) && AllKnown(cfg, cs) && (i < j <= |cs| || (i == |cs| && j == |cs| + 1))
    ensures Adds(cfg, J, st, DenyFrom(cfg, st, cs, i, j, counted), DisjointFrom(View(cfg, J), cs, i, j),
      counted || AllEncodable(cfg, cs), DisjointFrom(View(cfg, J), cs, i, j))
    decreases |cs| - i, |cs| + 1 - j
  {
    var I := View(cfg, J);
    if i < |cs| {
      DisjointStep(I, cs, i, j);
      if j == |cs| {
        DenyAllAdds(cfg, J, st, cs, i + 1, i + 2, counted);
      } else {
        DenyAdds(cfg, J, st, cs[i], cs[j], counted);
        DenyAllAdds(cfg, J, Deny(cfg, st, cs[i], cs[j], counted), cs, i, j + 1, counted);
        AddsThen(cfg, J, st, Deny(cfg, st, cs[i], cs[j], counted), DenyFrom(cfg, st, cs, i, j, counted),
          Disjoint(I, cs[i], cs[j]), counted || (Encodable(cfg, cs[i]) && Encodable(cfg, cs[j])), Disjoint(I, cs[i], cs[j]),
          DisjointFrom(I, cs, i, j + 1), counted || AllEncodable(cfg, cs), DisjointFrom(I, cs, i, j + 1));
      }
    }
  }

  // ----- disjoint union -----

  lemma {:induction false} ImplicationsAdd<E(!new)>(cfg: Config, J: Interp<E>, st: State, bodies: seq<Body>, cls: ClassId)
    requires BodiesBelow(cfg, bodies) && cls < cfg.firstFresh
    ensures Adds(cfg, J, st, Implications(st, bodies, cls), AllImplied(cfg, J, bodies, Atomic(cls), X), true,
      AllImplied(cfg, J, bodies, Atomic(cls), X))
    decreases bodies
  {
    if bodies != [] {
      var st1 := st.Push(bodies[0], [Class(cls, X)]);
      assert bodies == [bodies[0]] + bodies[1..];
      PushHolds(J, st, bodies[0], [Class(cls, X)]);
      UnitClause(J, bodies[0], Class(cls, X));
      if WfState(cfg, st) {
        assert bodies[0] in bodies;
        LiftBelow(bodies[0], cfg.firstFresh, NextFresh(cfg, st));
        PushWf(cfg, st, bodies[0], [Class(cls, X)]);
      }
      var t := Implied(cfg, J, bodies[0], Atomic(cls), X);
      assert Adds(cfg, J, st, st1, t, true, t);
      ImplicationsAdd(cfg, J, st1, bodies[1..], cls);
      AddsThen(cfg, J, st, st1, Implications(st1, bodies[1..], cls),
        t, true, t, AllImplied(cfg, J, bodies[1..], Atomic(cls), X), true, AllImplied(cfg, J, bodies[1..], Atomic(cls), X));
    }
  }

  ghost predicate AllSubsumed<E(!new)>(I: Interp<E>, cs: seq<Concept>, c: Concept) {
    forall x :: x in cs ==> Subsumed(I, x, c)
  }

  lemma {:induction false} MembersAdd<E(!new)>(cfg: Config, J: Interp<E>, st: State, cs: seq<Concept>, cls: ClassId)
    requires Ready(cfg, J) && AllKnown(cfg, cs) && cls < cfg.firstFresh
    ensures Adds(cfg, J, st, MembersBelow(cfg, st, cs, cls), AllSubsumed(View(cfg, J), cs, Atomic(cls)), true,
      AllSubsumed(View(cfg, J), cs, Atomic(cls)))
    ensures !AllEncodable(cfg, cs) ==> st.deferred < MembersBelow(cfg, st, cs, cls).deferred
    decreases cs
  {
    if cs != [] {
      var e := Encode(cfg, cs[0], X, X + 1);
      assert cs == [cs[0]] + cs[1..];
      var st0 := st.(nextVar := e.nextVar);
      var st1 := if e.alts.None? then st0.Defer() else Implications(st0, e.alts.value, cls);
      var t := Subsumed(View(cfg, J), cs[0], Atomic(cls));
      if e.alts.Some? {
        EncodeBelow(cfg, cs[0], X, X + 1);
        ImplicationsAdd(cfg, J, st0, e.alts.value, cls);
        BodiesSubsume(cfg, J, cs[0], Atomic(cls));
      }
      assert Adds(cfg, J, st, st1, t, true, t);
      MembersAdd(cfg, J, st1, cs[1..], cls);
      AddsThen(cfg, J, st, st1, MembersBelow(cfg, st1, cs[1..], cls), t, true, t,
        AllSubsumed(View(cfg, J), cs[1..], Atomic(cls)), true, AllSubsumed(View(cfg, J), cs[1..], Atomic(cls)));
    }
  }

  lemma {:induction false} CoverHeadMeans<E(!new)>(cfg: Config, J: Interp<E>, cs: seq<Concept>, acc: seq<Atom>)
    requires Ready(cfg, J) && AllKnown(cfg, cs) && CoverHead(cfg, cs, acc).Some?
    ensures HeadMeans(cfg, J, CoverHead(cfg, cs, acc).value, acc, cs, X)
    ensures AtomsBelow(acc, cfg.firstFresh) ==> AtomsBelow(CoverHead(cfg, cs, acc).value, cfg.firstFresh)
    decreases cs
  {
    if cs != [] {
      var a := Class(ClassIdOf(cfg, cs[0]).value, X);
      LiteralMeans(cfg, J, cs[0], X);
      CoverHeadMeans(cfg, J, cs[1..], acc + [a]);
      HeadMeansCons(cfg, J, CoverHead(cfg, cs, acc).value, acc, a, cs, X);
    }
  }

  lemma CoverAdds<E(!new)>(cfg: Config, J: Interp<E>, st: State, cls: ClassId, cs: seq<Concept>)
    requires Ready(cfg, J) && AllKnown(cfg, cs) && cls < cfg.firstFresh
    ensures Adds(cfg, J, st, Cover(cfg, st, cls, cs), Subsumed(View(cfg, J), Atomic(cls), Or(cs)), true,
      Subsumed(View(cfg, J), Atomic(cls), Or(cs)))
  {
    var head := CoverHead(cfg, cs, []);
    if head.Some? {
      var st0 := st.(nextVar := X + 1);
      CoverHeadMeans(cfg, J, cs, []);
      PushHolds(J, st0, [Class(cls, X)], head.value);
      if WfState(cfg, st) {
        LiftBelow(head.value, cfg.firstFresh, NextFresh(cfg, st));
        PushWf(cfg, st0, [Class(cls, X)], head.value);
      }
      if Subsumed(View(cfg, J), Atomic(cls), Or(cs)) {
        forall env: Env<E> | BodyHolds(J, [Class(cls, X)], env) ensures HeadHolds(J, head.value, env) {
          UnitBody(J, Class(cls, X), env);
        }
      }
      if ClauseHolds(J, DlClause([Class(cls, X)], head.value)) {
        forall x | J.cls(cls, x) ensures Sat(View(cfg, J), Or(cs), x) {
          var env: Env<E> := (w: Var) => x;
          UnitBody(J, Class(cls, X), env);
          assert !HeadHolds(J, [], env);
        }
      }
    }
  }

  lemma UnionAdds<E(!new)>(cfg: Config, J: Interp<E>, st: State, cls: ClassId, cs: seq<Concept>)
    requires Ready(cfg, J) && AllKnown(cfg, cs) && cls < cfg.nominalBase
    ensures Adds(cfg, J, st, AxiomClauses(cfg, st, DisjointUnion(cls, cs)), Holds(View(cfg, J), DisjointUnion(cls, cs)), true,
      Holds(View(cfg, J), DisjointUnion(cls, cs)))
  {
    var I := View(cfg, J);
    var st1 := DenyFrom(cfg, st, cs, 0, 1, false);
    var st2 := MembersBelow(cfg, st1, cs, cls);
    var st3 := Cover(cfg, st2, cls, cs);
    DenyAllAdds(cfg, J, st, cs, 0, 1, false);
    MembersAdd(cfg, J, st1, cs, cls);
    CoverAdds(cfg, J, st2, cls, cs);
    var t1, t2, t3 := DisjointFrom(I, cs, 0, 1), AllSubsumed(I, cs, Atomic(cls)), Subsumed(I, Atomic(cls), Or(cs));
    AddsThen(cfg, J, st, st1, st2, t1, AllEncodable(cfg, cs), t1, t2, true, t2);
    AddsThen(cfg, J, st, st2, st3, t1 && t2, AllEncodable(cfg, cs), t1 && t2, t3, true, t3);
    UnionTruth(I, cs, cls);
  }

  lemma UnionTruth<E(!new)>(I: Interp<E>, cs: seq<Concept>, cls: ClassId)
    ensures DisjointFrom(I, cs, 0, 1) && AllSubsumed(I, cs, Atomic(cls)) && Subsumed(I, Atomic(cls), Or(cs)) <==>
      Holds(I, DisjointUnion(cls, cs))
  {
    assert DisjointFrom(I, cs, 0, 1) <==> PairwiseDisjoint(I, cs);
    MembersUnion(I, cs, cls);
  }

  lemma MembersUnion<E(!new)>(I: Interp<E>, cs: seq<Concept>, cls: ClassId)
    ensures (forall d :: I.cls(cls, d) <==> Sat(I, Or(cs), d)) <==>
      AllSubsumed(I, cs, Atomic(cls)) && Subsumed(I, Atomic(cls), Or(cs))
  {
    if AllSubsumed(I, cs, Atomic(cls)) {
      forall d | Sat(I, Or(cs), d) ensures I.cls(cls, d) {
        var x :| x in cs && Sat(I, x, d);
        assert Subsumed(I, x, Atomic(cls));
      }
    }
    if forall d :: I.cls(cls, d) <==> Sat(I, Or(cs), d) {
      forall x, d | x in cs && Sat(I, x, d) ensures I.cls(cls, d) { assert Sat(I, Or(cs), d); }
      forall d | Sat(I, Atomic(cls), d) ensures Sat(I, Or(cs), d) { assert I.cls(cls, d); }
    }
  }
}
