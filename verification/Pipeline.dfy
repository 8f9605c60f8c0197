/** The clausifier from the ontology's axioms to the clause set the engine gets. */
module Pipeline {
  import opened Dl
  import opened Clauses
  import opened Clausify
  import opened Antecedents
  import opened Consequents
  import opened AxiomMeaning
  import opened InverseCanon
  import opened Faithfulness
  import opened Deferral
  import opened ClausifierObject
  import opened Branches
  import opened BranchMeaning
  import opened BranchBound
  import opened Splitting
  import opened SplitShape
  import opened BranchNamer
  import opened Graphs
  import opened Reflexive
  import opened ReflexiveMeaning
  import opened BodyShapes
  import opened FinalShape

  function Normalized(ord: Order, axioms: seq<Axiom>): (r: seq<Axiom>)
    ensures |r| == |axioms| && forall k :: 0 <= k < |axioms| ==> r[k] == NnfAxiom(ord, axioms[k])
  {
    if axioms == [] then [] else [NnfAxiom(ord, axioms[0])] + Normalized(ord, axioms[1..])
  }

  /** What the passes after the axioms add: the reflexive ids, the clauses with their contractions,
      and the self-loop clauses. */
  datatype Passes = Passes(refl: set<RoleId>, out: seq<DlClause>, loops: seq<DlClause>, capped: bool)

  ghost predicate IsReflexiveSet(cfg: Config, axioms: seq<Axiom>, refl: set<RoleId>) {
    forall id :: id in refl <==> Above(DeclaredReflexive(cfg.canon, axioms), EdgeSet(RoleEdges(cfg.canon, axioms)), id)
  }

  ghost predicate Contracted(refl: set<RoleId>, base: seq<DlClause>, s: Passes) {
    && base <= s.out && Derived(refl, |base|, s.out) && (!s.capped ==> Closed(refl, s.out))
    && forall loop :: loop in s.loops <==> IsLoopOf(refl, s.out, loop)
  }

  /** `res` is what the pass sequence makes of normalized axioms. */
  ghost predicate Clausified(cfg: Config, axioms: seq<Axiom>, split: bool, s: Passes, res: seq<DlClause>) {
    var st := ClausifyAll(cfg, START, axioms);
    && IsReflexiveSet(cfg, axioms, s.refl) && Contracted(s.refl, st.clauses, s)
    && res == if split then Decompose(s.out + s.loops, NextFresh(cfg, st)) else s.out + s.loops
  }

  /** The two passes for reflexive roles, skipped when there are none. */
  method ApplyReflexivity(clauses: seq<DlClause>, refl: set<RoleId>) returns (s: Passes)
    ensures s.refl == refl && Contracted(refl, clauses, s)
  {
    if refl == {} {
      return Passes(refl, clauses, [], false);
    }
    var out, capped := ApplyReflexiveRoles(clauses, refl);
    var all, loops := AddCountedSelfLoops(out, refl);
    s := Passes(refl, out, loops, capped);
  }

  function ConfigFor(ord: Order, numClasses: nat, numIndividuals: nat, dkeys: set<ClassId>, cardAtoms: bool, axioms: seq<Axiom>): Config {
    Config(ord, numClasses, numClasses + numIndividuals, CanonFrom(map[], Normalized(ord, axioms)), dkeys, cardAtoms)
  }

  /** The whole pass: normal form, inverse rewriting, clauses, reflexive roles, body splitting. */
  method ClausifyWithStats(ord: Order, numClasses: nat, numIndividuals: nat, dkeys: set<ClassId>, cardAtoms: bool,
      split: bool, axioms: seq<Axiom>)
    returns (res: seq<DlClause>, deferred: nat, s: Passes)
    ensures Clausified(ConfigFor(ord, numClasses, numIndividuals, dkeys, cardAtoms, axioms), Normalized(ord, axioms), split, s, res)
    ensures deferred == ClausifyAll(ConfigFor(ord, numClasses, numIndividuals, dkeys, cardAtoms, axioms), START, Normalized(ord, axioms)).deferred +
      if s.capped then 1 else 0
  {
    var N := Normalized(ord, axioms);
    var canon := BuildInverseCanon(N);
    ghost var cfg := ConfigFor(ord, numClasses, numIndividuals, dkeys, cardAtoms, axioms);
    var c := new Clausifier(Config(ord, numClasses, numClasses + numIndividuals, canon, dkeys, cardAtoms));
    c.ClausifyAxioms(N);
    ghost var st := ClausifyAll(cfg, START, N);
    assert c.St() == st;
    var refl := ReflexiveRoleIds(canon, N);
    assert IsReflexiveSet(cfg, N, refl);
    s := ApplyReflexivity(c.clauses, refl);
    deferred := c.deferred + if s.capped then 1 else 0;
    res := s.out + s.loops;
    assert c.nextFresh == NextFresh(cfg, st);
    if split {
      var splitter := new Splitter(c.nextFresh);
      res := splitter.DecomposeWideBodies(res);
    }
  }

  // ----- allocation -----

  lemma ContractBelow(cl: DlClause, idx: nat, k: ClassId)
    requires idx < |cl.body| && cl.body[idx].Edge? && ClauseBelow(cl, k)
    ensures ClauseBelow(Contract(cl, idx), k)
  {
    var keep, drop := Kept(cl.body[idx]), Dropped(cl.body[idx]);
    var rest := cl.body[..idx] + cl.body[idx + 1..];
    WithoutSplit(cl.body, idx);
    forall a | a in Contract(cl, idx).body ensures AtomBelow(a, k) {
      var b := SubSource(keep, drop, rest, a);
      assert AtomBelow(b, k);
    }
    forall a | a in Contract(cl, idx).head ensures AtomBelow(a, k) {
      var b := SubSource(keep, drop, cl.head, a);
      assert AtomBelow(b, k);
    }
  }

  lemma BelowSnoc(out: seq<DlClause>, m: nat, k: ClassId)
    requires |out| == m + 1 && ClausesBelow(out[..m], k) && ClauseBelow(out[m], k)
    ensures ClausesBelow(out, k)
  {
    assert out == out[..m] + [out[m]];
  }

  lemma {:induction false} DerivedBelow(refl: set<RoleId>, n: nat, out: seq<DlClause>, k: ClassId)
    requires n <= |out| && Derived(refl, n, out) && ClausesBelow(out[..n], k)
    ensures ClausesBelow(out, k)
    decreases |out|
  {
    if n < |out| {
      var m := |out| - 1;
      var src, idx := LastDerived(refl, n, out);
      DerivedBelow(refl, n, out[..m], k);
      assert ClauseBelow(src, k);
      ContractBelow(src, idx, k);
      BelowSnoc(out, m, k);
    } else {
      assert out[..n] == out;
    }
  }

  lemma LoopBelow(cl: DlClause, a: Atom, k: ClassId)
    requires a.AtMost? && ClauseBelow(cl, k)
    ensures ClauseBelow(CountedLoop(cl, a), k)
  {
  }

  lemma PassesBelow(refl: set<RoleId>, base: seq<DlClause>, s: Passes, k: ClassId)
    requires Contracted(refl, base, s) && ClausesBelow(base, k)
    ensures ClausesBelow(s.out + s.loops, k)
  {
    assert s.out[..|base|] == base;
    DerivedBelow(refl, |base|, s.out, k);
    forall loop | loop in s.loops ensures ClauseBelow(loop, k) {
      var cl, a :| cl in s.out && a in cl.head && a.AtMost? && a.role.id in refl && loop == CountedLoop(cl, a);
      LoopBelow(cl, a, k);
    }
  }

  // ----- normal form -----

  lemma {:induction false} NnfAllKnown(cfg: Config, cs: seq<Concept>)
    requires AllKnown(cfg, cs)
    ensures AllKnown(cfg, ToNnfAll(cfg.ord, cs)) && AllKnown(cfg, ComplementAll(cfg.ord, cs))
    decreases cs, 1
  {
    if cs != [] {
      assert Known(cfg, cs[0]);
      ComplementKnown(cfg, cs[0]);
      NnfAllKnown(cfg, cs[1..]);
    }
  }

  lemma NormalizedKnown(cfg: Config, axioms: seq<Axiom>)
    requires KnownAxioms(cfg, axioms)
    ensures KnownAxioms(cfg, Normalized(cfg.ord, axioms))
  {
    forall k | 0 <= k < |axioms| ensures KnownAxiom(cfg, NnfAxiom(cfg.ord, axioms[k])) { NnfAxiomKnown(cfg, axioms[k]); }
  }

  lemma NnfAxiomKnown(cfg: Config, ax: Axiom)
    requires KnownAxiom(cfg, ax)
    ensures KnownAxiom(cfg, NnfAxiom(cfg.ord, ax))
  {
    match ax
    case SubClassOf(c, d) => ComplementKnown(cfg, c); ComplementKnown(cfg, d);
    case EquivalentClasses(cs) => NnfAllKnown(cfg, cs);
    case DisjointClasses(cs) => NnfAllKnown(cfg, cs);
    case DisjointUnion(_, cs) => NnfAllKnown(cfg, cs);
    case PropertyDomain(_, c) => ComplementKnown(cfg, c);
    case PropertyRange(_, c) => ComplementKnown(cfg, c);
    case _ =>
  }

  lemma NormalizedForm(ord: Order, axioms: seq<Axiom>)
    ensures AllNnfForm(Normalized(ord, axioms))
  {
    forall k | 0 <= k < |axioms| ensures NnfAxiomForm(NnfAxiom(ord, axioms[k])) { AxiomForm(ord, axioms[k]); }
  }

  lemma AllForm(ord: Order, cs: seq<Concept>)
    ensures AllNnf(ToNnfAll(ord, cs))
  {
    forall k | 0 <= k < |cs| ensures IsNnf(ToNnf(ord, cs[k])) { NnfIsNnf(ord, cs[k]); }
  }

  lemma AxiomForm(ord: Order, ax: Axiom)
    ensures NnfAxiomForm(NnfAxiom(ord, ax))
  {
    match ax
    case SubClassOf(c, d) => NnfIsNnf(ord, c); NnfIsNnf(ord, d);
    case EquivalentClasses(cs) => AllForm(ord, cs);
    case DisjointClasses(cs) => AllForm(ord, cs);
    case DisjointUnion(_, cs) => AllForm(ord, cs);
    case PropertyDomain(_, c) => NnfIsNnf(ord, c);
    case PropertyRange(_, c) => NnfIsNnf(ord, c);
    case _ =>
  }

  /** Nothing is deferred iff no axiom's normal form is of a deferred shape. */
  lemma DeferredIff(cfg: Config, axioms: seq<Axiom>)
    ensures ClausifyAll(cfg, START, Normalized(cfg.ord, axioms)).deferred == 0 <==> !SomeDefers(cfg.ord, Normalized(cfg.ord, axioms))
  {
    NormalizedForm(cfg.ord, axioms);
    NothingDeferredIff(cfg, Normalized(cfg.ord, axioms));
  }

  /** What splitting does to the clauses of the other passes: each stays or is split in its place, and
      the branch clauses follow. Without splitting nothing changes. */
  lemma PipelineShape(cfg: Config, axioms: seq<Axiom>, split: bool, s: Passes, res: seq<DlClause>) returns (out: seq<DlClause>, named: seq<DlClause>)
    requires Clausified(cfg, axioms, split, s, res)
    ensures res == out + named && if split then AllSplitTo(s.out + s.loops, out) else out == s.out + s.loops && named == []
    ensures WideTrees(s.out + s.loops) && BranchClauses(named, NextFresh(cfg, ClausifyAll(cfg, START, axioms))) && WithinCap(named)
  {
    WideAreTrees(cfg, axioms, s.refl, s.out, s.loops);
    if split {
      out, named := DecomposeShape(s.out + s.loops, NextFresh(cfg, ClausifyAll(cfg, START, axioms)));
    } else {
      out, named := res, [];
    }
  }

  lemma NormalizedModels<E(!new)>(I: Interp<E>, ord: Order, axioms: seq<Axiom>)
    ensures Models(I, Normalized(ord, axioms)) <==> Models(I, axioms)
  {
    var N := Normalized(ord, axioms);
    forall k | 0 <= k < |axioms| ensures Holds(I, N[k]) <==> Holds(I, axioms[k]) { NnfAxiomHolds(I, ord, axioms[k]); }
    if Models(I, N) {
      forall ax | ax in axioms ensures Holds(I, ax) { var k :| 0 <= k < |axioms| && axioms[k] == ax; assert N[k] in N; }
    }
    if Models(I, axioms) {
      forall ax | ax in N ensures Holds(I, ax) { var k :| 0 <= k < |N| && N[k] == ax; assert axioms[k] in axioms; }
    }
  }

  // ----- the whole pass is sound -----

  /** Refutation soundness of the whole pass: a model of the ontology becomes a model of the final
      clauses that reads every named class, role and individual as before, whatever was deferred,
      capped or left unsplit. So clauses without a model mean an ontology without one. */
  lemma PipelineSound<E(!new)>(cfg: Config, I: Interp<E>, axioms: seq<Axiom>, split: bool, s: Passes, res: seq<DlClause>)
    requires WfConfig(cfg) && cfg.canon == CanonFrom(map[], Normalized(cfg.ord, axioms)) && KnownAxioms(cfg, axioms)
    requires Clausified(cfg, Normalized(cfg.ord, axioms), split, s, res)
    requires Models(I, axioms)
    ensures exists J: Interp<E> :: AllHold(J, res) && NominalsRight(cfg, J) && Agree(I, View(cfg, J), cfg.nominalBase)
  {
    var N := Normalized(cfg.ord, axioms);
    NormalizedModels(I, cfg.ord, axioms);
    NormalizedKnown(cfg, axioms);
    ClausifySound(cfg, I, N);
    var st := ClausifyAll(cfg, START, N);
    var J := Extended(cfg, I, st.names);
    ReflexiveIdsHold(I, N, s.refl);
    assert AllReflexive(J, s.refl);
    ReflexiveSound(J, s.refl, st.clauses, s.out, s.loops);
    if split {
      PassesBelow(s.refl, st.clauses, s, NextFresh(cfg, st));
      DecomposeForward(J, s.out + s.loops, NextFresh(cfg, st));
      var K := Branched(J, s.out + s.loops, NextFresh(cfg, st));
      SameReading(cfg, I, J, K, NextFresh(cfg, st));
    }
  }

  lemma SameReading<E(!new)>(cfg: Config, I: Interp<E>, J: Interp<E>, K: Interp<E>, k: ClassId)
    requires WfConfig(cfg) && cfg.firstFresh <= k && Agree(J, K, k) && NominalsRight(cfg, J)
    requires Agree(I, View(cfg, J), cfg.nominalBase)
    ensures NominalsRight(cfg, K) && Agree(I, View(cfg, K), cfg.nominalBase)
  {
    forall r, x, y ensures Rel(View(cfg, J), r, x, y) == Rel(View(cfg, K), r, x, y) {
      ViewRel(cfg, J, r, x, y);
      ViewRel(cfg, K, r, x, y);
    }
  }

  // ----- and gives the axioms back -----

  lemma CarriedNormalized<E(!new)>(I: Interp<E>, ord: Order, ax: Axiom)
    ensures Carried(I, NnfAxiom(ord, ax)) <==> Carried(I, ax)
  {
    NnfAxiomHolds(I, ord, ax);
  }

  lemma IdentityNominals<E(!new)>(cfg: Config, J: Interp<E>, refl: set<RoleId>)
    requires NominalsRight(cfg, J)
    ensures NominalsRight(cfg, WithIdentity(J, refl))
  {
  }

  lemma ReflexiveRegained<E(!new)>(cfg: Config, J: Interp<E>, axioms: seq<Axiom>, refl: set<RoleId>, ax: Axiom)
    requires IsReflexiveSet(cfg, axioms, refl) && ax in axioms && ax.ReflexiveRole?
    ensures Holds(View(cfg, WithIdentity(J, refl)), ax)
  {
    var K, id := WithIdentity(J, refl), Canon(cfg.canon, ax.role).id;
    var edges := EdgeSet(RoleEdges(cfg.canon, axioms));
    assert id in DeclaredReflexive(cfg.canon, axioms);
    ReachesSelf(edges, id);
    assert Above(DeclaredReflexive(cfg.canon, axioms), edges, id);
    forall x ensures Rel(View(cfg, K), ax.role, x, x) {
      ViewRel(cfg, K, ax.role, x, x);
      IdentityRel(J, refl, Canon(cfg.canon, ax.role), x, x);
    }
  }

  /** The role inclusions that reach the engine by another route. */
  predicate IsInclusion(ax: Axiom) {
    ax.SubProperty? || ax.EquivalentProperties?
  }

  /** The converse for the whole pass: every interpretation of the final clauses, with each reflexive
      role unioned with the identity, satisfies what the axioms carry (with `≤` over a compound filler
      read as ⊤, so all of it for an axiom without one), every reflexivity axiom, every inverse
      declaration behind a rewriting that is not chained, and every role inclusion it satisfied before,
      provided no axiom is of a deferred shape, nothing was capped, no datatype cardinality was dropped, and no clause
      bounds a reflexive role by zero. */
  lemma PipelineFaithful<E(!new)>(cfg: Config, J: Interp<E>, axioms: seq<Axiom>, split: bool, s: Passes, res: seq<DlClause>)
    requires cfg.canon == CanonFrom(map[], Normalized(cfg.ord, axioms)) && Ready(cfg, J) && KnownAxioms(cfg, axioms)
    requires Clausified(cfg, Normalized(cfg.ord, axioms), split, s, res) && !s.capped
    requires var N := Normalized(cfg.ord, axioms);
      KeptAxioms(cfg, N) && !SomeDefers(cfg.ord, N) && NoZeroBounds(s.refl, ClausifyAll(cfg, START, N).clauses)
    requires AllHold(J, res)
    ensures AllWeaklyCarried(cfg, View(cfg, WithIdentity(J, s.refl)), Normalized(cfg.ord, axioms))
    ensures forall ax :: ax in axioms && PlainAxiom(cfg, NnfAxiom(cfg.ord, ax)) ==> Carried(View(cfg, WithIdentity(J, s.refl)), ax)
    ensures forall ax :: ax in axioms && ax.ReflexiveRole? ==> Holds(View(cfg, WithIdentity(J, s.refl)), ax)
    ensures forall ax :: ax in axioms && IsInclusion(ax) && Holds(View(cfg, J), ax) ==> Holds(View(cfg, WithIdentity(J, s.refl)), ax)
    ensures forall id :: id in cfg.canon && cfg.canon[id].id !in cfg.canon ==>
      Holds(View(cfg, WithIdentity(J, s.refl)), InverseProperties(Named(cfg.canon[id].id), Named(id)))
  {
    var N, K := Normalized(cfg.ord, axioms), WithIdentity(J, s.refl);
    NormalizedKnown(cfg, axioms);
    NormalizedForm(cfg.ord, axioms);
    NothingDeferredIff(cfg, N);
    OriginalsHold(cfg, J, N, split, s, res);
    ClausifyFaithful(cfg, K, N);
    forall ax | ax in axioms
      ensures PlainAxiom(cfg, NnfAxiom(cfg.ord, ax)) ==> Carried(View(cfg, K), ax)
      ensures ax.ReflexiveRole? ==> Holds(View(cfg, K), ax)
      ensures IsInclusion(ax) && Holds(View(cfg, J), ax) ==> Holds(View(cfg, K), ax)
    {
      NormalizedHas(cfg.ord, axioms, ax);
      CarriedNormalized(View(cfg, K), cfg.ord, ax);
      RoleAxiomRegained(cfg, J, N, s.refl, ax);
    }
    forall id | id in cfg.canon && cfg.canon[id].id !in cfg.canon { InverseCarried(cfg, K, N, id); }
  }

  /** The clauses of the axioms hold once the identity is added. */
  lemma OriginalsHold<E(!new)>(cfg: Config, J: Interp<E>, axioms: seq<Axiom>, split: bool, s: Passes, res: seq<DlClause>)
    requires Ready(cfg, J) && KnownAxioms(cfg, axioms) && Clausified(cfg, axioms, split, s, res) && !s.capped
    requires NoZeroBounds(s.refl, ClausifyAll(cfg, START, axioms).clauses) && AllHold(J, res)
    ensures AllHold(WithIdentity(J, s.refl), ClausifyAll(cfg, START, axioms).clauses) && Ready(cfg, WithIdentity(J, s.refl))
  {
    var st := ClausifyAll(cfg, START, axioms);
    if split { DecomposeBack(J, s.out + s.loops, NextFresh(cfg, st)); }
    RunShape(cfg, START, axioms);
    ShapedPlain(st.clauses);
    ReflexiveLosesNothing(J, s.refl, st.clauses, s.out, s.loops);
    IdentityNominals(cfg, J, s.refl);
  }

  lemma NormalizedHas(ord: Order, axioms: seq<Axiom>, ax: Axiom)
    requires ax in axioms
    ensures NnfAxiom(ord, ax) in Normalized(ord, axioms)
  {
    var k :| 0 <= k < |axioms| && axioms[k] == ax;
    assert Normalized(ord, axioms)[k] == NnfAxiom(ord, ax);
  }

  lemma RoleAxiomRegained<E(!new)>(cfg: Config, J: Interp<E>, N: seq<Axiom>, refl: set<RoleId>, ax: Axiom)
    requires IsReflexiveSet(cfg, N, refl) && NnfAxiom(cfg.ord, ax) in N
    ensures ax.ReflexiveRole? ==> Holds(View(cfg, WithIdentity(J, refl)), ax)
    ensures IsInclusion(ax) && Holds(View(cfg, J), ax) ==> Holds(View(cfg, WithIdentity(J, refl)), ax)
  {
    if ax.ReflexiveRole? { ReflexiveRegained(cfg, J, N, refl, ax); }
    if IsInclusion(ax) && Holds(View(cfg, J), ax) { IdentityKeepsInclusion(cfg, J, N, refl, ax); }
  }

  /** Adding the identity keeps the role inclusions: the reflexive ids are closed upward through
      exactly these axioms. */
  lemma IdentityKeepsInclusion<E(!new)>(cfg: Config, J: Interp<E>, axioms: seq<Axiom>, refl: set<RoleId>, ax: Axiom)
    requires IsReflexiveSet(cfg, axioms, refl) && ax in axioms && IsInclusion(ax) && Holds(View(cfg, J), ax)
    ensures Holds(View(cfg, WithIdentity(J, refl)), ax)
  {
    if ax.SubProperty? {
      var cr, ct := Canon(cfg.canon, ax.subRole), Canon(cfg.canon, ax.supRole);
      assert (cr.id, ct.id) in AxiomEdges(cfg.canon, ax);
      EdgeKeeps(cfg, J, axioms, refl, ax, ax.subRole, ax.supRole);
    } else {
      forall i, j | 0 <= i < |ax.roles| && 0 <= j < |ax.roles| ensures SubRole(View(cfg, WithIdentity(J, refl)), ax.roles[i], ax.roles[j]) {
        assert ax.roles[i] in ax.roles && ax.roles[j] in ax.roles;
        EdgeKeeps(cfg, J, axioms, refl, ax, ax.roles[i], ax.roles[j]);
      }
    }
  }

  lemma EdgeKeeps<E(!new)>(cfg: Config, J: Interp<E>, axioms: seq<Axiom>, refl: set<RoleId>, ax: Axiom, r: Role, t: Role)
    requires IsReflexiveSet(cfg, axioms, refl) && ax in axioms && SubRole(View(cfg, J), r, t)
    requires var e := (Canon(cfg.canon, r).id, Canon(cfg.canon, t).id); e.0 == e.1 || e in AxiomEdges(cfg.canon, ax)
    ensures SubRole(View(cfg, WithIdentity(J, refl)), r, t)
  {
    var K := WithIdentity(J, refl);
    var cr, ct := Canon(cfg.canon, r), Canon(cfg.canon, t);
    var start, edges := DeclaredReflexive(cfg.canon, axioms), EdgeSet(RoleEdges(cfg.canon, axioms));
    if cr.id in refl && cr.id != ct.id {
      assert (cr.id, ct.id) in edges;
      AboveStep(start, edges, cr.id, ct.id);
    }
    forall x, y | Rel(View(cfg, K), r, x, y) ensures Rel(View(cfg, K), t, x, y) {
      ViewRel(cfg, K, r, x, y);
      ViewRel(cfg, K, t, x, y);
      IdentityRel(J, refl, cr, x, y);
      IdentityRel(J, refl, ct, x, y);
      ViewRel(cfg, J, r, x, y);
      ViewRel(cfg, J, t, x, y);
    }
  }

  /** Every wide clause an antecedent gives rise to splits fully: with a head on `X` only, its body
      keeps one variable and every branch, however deep, stays within the cap. */
  lemma AntecedentSplits(cfg: Config, c: Concept, alt: Body, head: seq<Atom>, st: Namer)
    requires Encode(cfg, c, X, X + 1).alts.Some? && alt in Encode(cfg, c, X, X + 1).alts.value
    requires WfNamer(st) && HeadVars(head) == {} && |CountedVars(alt)| > MAX_BODY_VARS
    ensures var (r, st') := SplitClause(DlClause(alt, head), st);
      r.head == head && |CountedVars(r.body)| == 1 && NewWithinCap(st, st')
  {
    EncodeTree(cfg, c, X, X + 1);
    HeadOnRootSplits(DlClause(alt, head), Identity, st);
  }

  // ----- what the conditions are for -----

  /** A compound `≤` filler is named one way only, so the clauses are weaker than the axiom: on one
      element with an `r`-loop in `A` and `B`, an empty name of `A ⊓ B` satisfies the clauses of
      `⊤ ⊑ ≤0 r.(A ⊓ B)`, which fails there. */
  lemma CompoundMaxWeaker()
    ensures var cfg := Config(c => 0, 2, 2, map[], {}, true);
      var ax := SubClassOf(Top, Max(0, Named(0), And([Atomic(0), Atomic(1)])));
      var J: Interp<()> := Interp((c: ClassId, d) => c < 2, (r, x, y) => true, i => ());
      && Ready(cfg, J) && KnownAxioms(cfg, [ax]) && KeptAxioms(cfg, [ax]) && ClausifyAll(cfg, START, [ax]).deferred == 0
      && AllHold(J, ClausifyAll(cfg, START, [ax]).clauses) && !Holds(View(cfg, J), ax)
  {
    var cfg := Config(c => 0, 2, 2, map[], {}, true);
    var filler := And([Atomic(0), Atomic(1)]);
    var ax := SubClassOf(Top, Max(0, Named(0), filler));
    var J: Interp<()> := Interp((c: ClassId, d) => c < 2, (r, x, y) => true, i => ());
    CompoundMaxClauses(cfg, filler);
    CompoundMaxHolds(J);
    var I := View(cfg, J);
    forall x, y ensures Rel(I, Named(0), x, y) { ViewRel(cfg, J, Named(0), x, y); }
    CompoundMaxFails(I);
  }

  lemma CompoundMaxHolds(J: Interp<()>)
    requires forall d :: J.cls(0, d) && J.cls(1, d) && !J.cls(2, d)
    ensures AllHold(J, [DlClause([Class(2, X)], [Class(0, X)]), DlClause([Class(2, X)], [Class(1, X)]),
        DlClause([], [AtMost(Named(0), Some(2), 0, X)])])
  {
    var max := AtMost(Named(0), Some(2), 0, X);
    UnitClause(J, [Class(2, X)], Class(0, X));
    UnitClause(J, [Class(2, X)], Class(1, X));
    UnitClause(J, [], max);
    forall env: Env<()> ensures AtomHolds(J, max, env) { NothingInside(J, Named(0), env(X)); }
  }

  lemma CompoundMaxFails(I: Interp<()>)
    requires forall d :: I.cls(0, d) && I.cls(1, d)
    requires forall x, y :: Rel(I, Named(0), x, y)
    ensures !Subsumed(I, Top, Max(0, Named(0), And([Atomic(0), Atomic(1)])))
  {
    var filler := And([Atomic(0), Atomic(1)]);
    var s: set<()> := {()};
    assert |s| == 1 && AllSuccessors(I, s, Named(0), filler, ());
    assert HasSuccessors(I, 1, Named(0), filler, ());
    assert Sat(I, Top, ()) && !Sat(I, Max(0, Named(0), filler), ());
  }

  lemma NothingInside<E(!new)>(J: Interp<E>, r: Role, d: E)
    requires forall e :: !J.cls(2, e)
    ensures !HasSuccessors(J, 1, r, Atomic(2), d)
  {
    forall t: set<E> ensures |t| == 1 ==> !AllSuccessors(J, t, r, Atomic(2), d) {
      if e :| e in t { assert !Sat(J, Atomic(2), e); }
    }
  }

  lemma CompoundMaxClauses(cfg: Config, filler: Concept)
    requires cfg.firstFresh == 2 && cfg.canon == map[] && cfg.dkeys == {} && filler == And([Atomic(0), Atomic(1)])
    ensures var st := ClausifyAll(cfg, START, [SubClassOf(Top, Max(0, Named(0), filler))]);
      st.deferred == 0 && st.clauses == [DlClause([Class(2, X)], [Class(0, X)]), DlClause([Class(2, X)], [Class(1, X)]),
        DlClause([], [AtMost(Named(0), Some(2), 0, X)])]
  {
    var sup := Max(0, Named(0), filler);
    var st0 := START.(nextVar := X + 1);
    var named := st0.(names := [filler]);
    var q: Body := [Class(2, X)];
    var st1 := named.Push(q, [Class(0, X)]).Push(q, [Class(1, X)]);
    assert st0.names + [filler] == [filler];
    assert filler.args[1..] == [Atomic(1)] && filler.args[1..][1..] == [];
    assert Emit(cfg, named, q, filler, X) == EmitAll(cfg, named, q, filler.args, X) == st1;
    assert NameOf(cfg, st0, filler) == (2, st1);
    assert QualifierOf(cfg, st0, filler) == (Some(2), st1);
    assert Emit(cfg, st0, [], sup, X) == st1.Push([], [AtMost(Named(0), Some(2), 0, X)]);
    assert Encode(cfg, Top, X, X + 1) == Encoding(Some([[]]), X + 1);
    assert EmitBodies(cfg, st0, [[]], sup, X) == Emit(cfg, st0, [], sup, X);
    assert Gci(cfg, START, Top, sup) == Emit(cfg, st0, [], sup, X);
  }
}
