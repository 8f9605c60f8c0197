/** The shape of emitted bodies: wide ones are trees with class atoms and self-loops, which contraction
    and splitting rely on. */
module BodyShapes {
  import opened Dl
  import opened Clauses
  import opened Clausify
  import opened Antecedents
  import opened Branches

  /** A variable of the body, or `X`. */
  ghost predicate On(body: Body, v: Var) {
    v == X || exists a :: a in body && v in AtomVars(a)
  }

  ghost predicate HeadOn(body: Body, head: seq<Atom>) {
    forall a, v :: a in head && v in AtomVars(a) ==> On(body, v)
  }

  /** A tree from `X` on, self-loops aside, whose variables are below `nv`. */
  ghost predicate Rooted(body: Body, nv: Var) {
    X < nv && LoopTree(body, X, Identity) && forall v: Var :: On(body, v) ==> v < nv
  }

  ghost predicate TreeClause(cl: DlClause, nv: Var) {
    Rooted(cl.body, nv) && HeadOn(cl.body, cl.head)
  }

  /** Class and edge atoms over at most `n` variables, denied. */
  ghost predicate SmallClause(cl: DlClause, n: nat) {
    |CountedVars(cl.body)| <= n && cl.head == [] && forall a :: a in cl.body ==> a.Class? || a.Edge?
  }

  /** A tree with its head on it, or a body of at most two variables that is denied. */
  ghost predicate Shaped(cl: DlClause) {
    || (exists nv: Var {:trigger TreeClause(cl, nv)} :: TreeClause(cl, nv))
    || exists n: nat {:trigger SmallClause(cl, n)} :: n <= 2 && SmallClause(cl, n)
  }

  ghost predicate AllShaped(clauses: seq<DlClause>) {
    forall cl :: cl in clauses ==> Shaped(cl)
  }

  /** Shapes are kept from one state to the next, and variables are only allocated. */
  ghost predicate KeepsShape(st: State, st': State) {
    st.nextVar <= st'.nextVar && (AllShaped(st.clauses) ==> AllShaped(st'.clauses))
  }

  // ----- growing a tree -----

  ghost predicate Grafts(body: Body, a: Atom) {
    match a
    case Class(_, v) => On(body, v)
    case Edge(_, u, w) => On(body, u) && (u == w || (u < w && !On(body, w)))
    case _ => false
  }

  /** A class atom or self-loop on the tree, or an edge to a new variable, keeps it a tree. */
  lemma GraftAtom(body: Body, a: Atom)
    requires LoopTree(body, X, Identity) && Grafts(body, a)
    ensures LoopTree(body + [a], X, Identity)
    ensures forall v :: On(body + [a], v) <==> On(body, v) || v in AtomVars(a)
  {
    var b := body + [a];
    forall v ensures On(b, v) <==> On(body, v) || v in AtomVars(a) { OnSnoc(body, a, v); }
    forall v: Var ensures Entering(b, v) <= 1 {
      EnteringSplit(body, [a], v);
      assert [a][1..] == [];
      EnteringNone(body, v);
    }
    forall c, v | c in b && v in AtomVars(c) && v != X ensures Entered(b, v) {
      if On(body, v) {
        assert Entered(body, v);
        var e :| e in body && StepsTo(e, v);
        assert e in b;
      } else {
        assert a in b && StepsTo(a, v);
      }
    }
  }

  lemma OnSnoc(body: Body, a: Atom, v: Var)
    ensures On(body + [a], v) <==> On(body, v) || v in AtomVars(a)
  {
    if v in AtomVars(a) { assert a in body + [a]; }
    if c :| c in body && v in AtomVars(c) { assert c in body + [a]; }
  }

  lemma EmptyRooted()
    ensures Rooted([], X + 1) && forall v :: On([], v) <==> v == X
  {
  }

  lemma GraftRooted(body: Body, a: Atom, nv: Var)
    requires Rooted(body, nv) && Grafts(body, a) && forall v :: v in AtomVars(a) ==> v < nv
    ensures Rooted(body + [a], nv) && forall v :: v in AtomVars(a) ==> On(body + [a], v)
  {
    GraftAtom(body, a);
  }

  lemma RootedLater(body: Body, nv: Var, nv': Var)
    requires Rooted(body, nv) && nv <= nv'
    ensures Rooted(body, nv')
  {
  }

  lemma PushShape(st: State, body: Body, head: seq<Atom>, nv: Var)
    requires Rooted(body, nv) && HeadOn(body, head)
    ensures KeepsShape(st, st.Push(body, head))
  {
    assert TreeClause(DlClause(body, head), nv);
  }

  /** A literal on the tree, denied. */
  lemma PushLiteral(st: State, body: Body, a: Atom, nv: Var)
    requires Rooted(body, nv) && Grafts(body, a) && forall v :: v in AtomVars(a) ==> v < nv
    ensures KeepsShape(st, st.Push(body + [a], []))
  {
    GraftRooted(body, a, nv);
    PushShape(st, body + [a], [], nv);
  }

  lemma NameRooted(q: ClassId, nv: Var)
    requires X < nv
    ensures Rooted([Class(q, X)], nv)
  {
    EmptyRooted();
    RootedLater([], X + 1, nv);
    GraftRooted([], Class(q, X), nv);
    assert [] + [Class(q, X)] == [Class(q, X)];
  }

  // ----- antecedents -----

  ghost predicate AllRooted(bodies: seq<Body>, nv: Var) {
    X < nv && forall b :: b in bodies ==> Rooted(b, nv)
  }

  lemma EncodeRooted(cfg: Config, c: Concept)
    ensures var e := Encode(cfg, c, X, X + 1); X < e.nextVar && (e.alts.Some? ==> AllRooted(e.alts.value, e.nextVar))
  {
    var e := Encode(cfg, c, X, X + 1);
    EncodeFresh(cfg, c, X, X + 1);
    if e.alts.Some? {
      EncodeTree(cfg, c, X, X + 1);
      forall b | b in e.alts.value ensures Rooted(b, e.nextVar) { assert TreeBody(b, X, Identity); }
    }
  }

  lemma CrossRooted(cfg: Config, c: Concept, d: Concept)
    requires var a := Encode(cfg, c, X, X + 1); a.alts.Some? && Encode(cfg, d, X, a.nextVar).alts.Some?
    ensures var a := Encode(cfg, c, X, X + 1); var b := Encode(cfg, d, X, a.nextVar);
      AllRooted(Cross(a.alts.value, b.alts.value), b.nextVar)
  {
    var a := Encode(cfg, c, X, X + 1);
    var b := Encode(cfg, d, X, a.nextVar);
    EncodeFresh(cfg, c, X, X + 1);
    EncodeFresh(cfg, d, X, a.nextVar);
    EncodeTree(cfg, c, X, X + 1);
    EncodeTree(cfg, d, X, a.nextVar);
    forall ab | ab in Cross(a.alts.value, b.alts.value) ensures Rooted(ab, b.nextVar) {
      var x, y := CrossSource(a.alts.value, b.alts.value, ab);
      JoinTrees(x, y, X, a.nextVar);
      forall v: Var | On(ab, v) ensures v < b.nextVar { if v != X { var e :| e in ab && v in AtomVars(e); } }
    }
  }

  // ----- consequents -----

  lemma {:induction false} EmitShape(cfg: Config, st: State, body: Body, c: Concept, v: Var)
    requires Rooted(body, st.nextVar) && On(body, v)
    ensures KeepsShape(st, Emit(cfg, st, body, c, v))
    decreases c, 0
  {
    match c
    case Top =>
    case Bot => PushShape(st, body, [], st.nextVar);
    case Atomic(a) => PushShape(st, body, [Class(a, v)], st.nextVar);
    case Nominal(i) => PushShape(st, body, [Class(cfg.nominalBase + i, v)], st.nextVar);
    case And(parts) => EmitAllShape(cfg, st, body, parts, v);
    case Or(parts) =>
      HeadAtomsShape(cfg, st, parts, [], body, v);
      var (head, st1) := HeadAtoms(cfg, st, parts, [], v);
      if head.Some? { PushShape(st1, body, head.value, st.nextVar); }
    case SomeOf(r, f) =>
      NameShape(cfg, st, f);
      var (q, st1) := NameOf(cfg, st, f);
      PushShape(st1, body, [Exists(Canon(cfg.canon, r), q, v)], st.nextVar);
    case AllOf(r, f) =>
      var y := st.nextVar;
      assert !On(body, y);
      RootedLater(body, y, y + 1);
      GraftRooted(body, Edge(Canon(cfg.canon, r), v, y), y + 1);
      EmitShape(cfg, st.(nextVar := y + 1), body + [Edge(Canon(cfg.canon, r), v, y)], f, y);
    case Not(x) =>
      if ClassIdOf(cfg, x).Some? { PushLiteral(st, body, Class(ClassIdOf(cfg, x).value, v), st.nextVar); }
      else if x.HasSelf? { PushLiteral(st, body, Edge(Canon(cfg.canon, x.role), v, v), st.nextVar); }
    case Min(n, r, f) =>
      if n != 0 {
        QualifierShape(cfg, st, f);
        var (q, st1) := QualifierOf(cfg, st, f);
        PushShape(st1, body, [AtLeast(Canon(cfg.canon, r), q, n, v)], st.nextVar);
      }
    case Max(n, r, f) =>
      QualifierShape(cfg, st, f);
      var (q, st1) := QualifierOf(cfg, st, f);
      PushShape(st1, body, [AtMost(Canon(cfg.canon, r), q, n, v)], st.nextVar);
    case HasSelf(r) => PushShape(st, body, [Edge(Canon(cfg.canon, r), v, v)], st.nextVar);
  }

  lemma {:induction false} EmitAllShape(cfg: Config, st: State, body: Body, parts: seq<Concept>, v: Var)
    requires Rooted(body, st.nextVar) && On(body, v)
    ensures KeepsShape(st, EmitAll(cfg, st, body, parts, v))
    decreases parts, 1
  {
    if parts != [] {
      EmitShape(cfg, st, body, parts[0], v);
      EmitAllShape(cfg, Emit(cfg, st, body, parts[0], v), body, parts[1..], v);
    }
  }

  lemma {:induction false} QualifierShape(cfg: Config, st: State, f: Concept)
    requires X < st.nextVar
    ensures KeepsShape(st, QualifierOf(cfg, st, f).1)
    decreases f, 2
  {
    if !f.Top? { NameShape(cfg, st, f); }
  }

  lemma {:induction false} NameShape(cfg: Config, st: State, c: Concept)
    requires X < st.nextVar
    ensures KeepsShape(st, NameOf(cfg, st, c).1)
    decreases c, 1
  {
    if ClassIdOf(cfg, c).None? {
      NameRooted(cfg.firstFresh + |st.names|, st.nextVar);
      EmitShape(cfg, st.(names := st.names + [c]), [Class(cfg.firstFresh + |st.names|, X)], c, X);
    }
  }

  lemma {:induction false} HeadAtomShape(cfg: Config, st: State, c: Concept, body: Body, v: Var)
    requires X < st.nextVar && On(body, v)
    ensures KeepsShape(st, HeadAtom(cfg, st, c, v).1)
    ensures HeadAtom(cfg, st, c, v).0.Some? ==> HeadOn(body, [HeadAtom(cfg, st, c, v).0.value])
    decreases c, 3
  {
    match c
    case SomeOf(r, f) => NameShape(cfg, st, f);
    case Max(n, r, f) => NameShape(cfg, st, c); QualifierShape(cfg, st, f);
    case Min(n, r, f) => NameShape(cfg, st, c); QualifierShape(cfg, st, f);
    case Not(x) =>
      var q := cfg.firstFresh + |st.names|;
      NameRooted(q, st.nextVar);
      assert forall a: Atom :: [Class(q, X)] + [a] == [Class(q, X), a];
      if ClassIdOf(cfg, x).Some? { PushLiteral(st.(names := st.names + [c]), [Class(q, X)], Class(ClassIdOf(cfg, x).value, X), st.nextVar); }
      else if x.HasSelf? { PushLiteral(st.(names := st.names + [c]), [Class(q, X)], Edge(Canon(cfg.canon, x.role), X, X), st.nextVar); }
    case _ => NameShape(cfg, st, c);
  }

  lemma {:induction false} HeadAtomsShape(cfg: Config, st: State, parts: seq<Concept>, acc: seq<Atom>, body: Body, v: Var)
    requires X < st.nextVar && On(body, v) && HeadOn(body, acc)
    ensures KeepsShape(st, HeadAtoms(cfg, st, parts, acc, v).1)
    ensures HeadAtoms(cfg, st, parts, acc, v).0.Some? ==> HeadOn(body, HeadAtoms(cfg, st, parts, acc, v).0.value)
    decreases parts, 4
  {
    if parts != [] {
      HeadAtomShape(cfg, st, parts[0], body, v);
      var (a, st1) := HeadAtom(cfg, st, parts[0], v);
      if a.Some? {
        assert a.value in [a.value];
        HeadAtomsShape(cfg, st1, parts[1..], acc + [a.value], body, v);
      }
    }
  }

  lemma RootedAllLater(bodies: seq<Body>, nv: Var, nv': Var)
    requires AllRooted(bodies, nv) && nv <= nv'
    ensures AllRooted(bodies, nv')
  {
    forall b | b in bodies ensures Rooted(b, nv') { RootedLater(b, nv, nv'); }
  }

  lemma {:induction false} BodiesShape(cfg: Config, st: State, bodies: seq<Body>, c: Concept)
    requires AllRooted(bodies, st.nextVar)
    ensures KeepsShape(st, EmitBodies(cfg, st, bodies, c, X))
    decreases bodies
  {
    if bodies != [] {
      EmitShape(cfg, st, bodies[0], c, X);
      RootedAllLater(bodies, st.nextVar, Emit(cfg, st, bodies[0], c, X).nextVar);
      BodiesShape(cfg, Emit(cfg, st, bodies[0], c, X), bodies[1..], c);
    }
  }

  // ----- axioms -----

  /** The same without regard to the variable counter, which each axiom starts over. */
  ghost predicate StaysShaped(st: State, st': State) {
    AllShaped(st.clauses) ==> AllShaped(st'.clauses)
  }

  lemma GciShape(cfg: Config, st: State, sub: Concept, sup: Concept)
    ensures StaysShaped(st, Gci(cfg, st, sub, sup))
  {
    EncodeRooted(cfg, sub);
    var e := Encode(cfg, sub, X, X + 1);
    if e.alts.Some? {
      BodiesShape(cfg, st.(nextVar := e.nextVar), e.alts.value, sup);
    } else {
      AbsorbHardShape(cfg, st, sub, sup);
    }
  }

  lemma AbsorbHardShape(cfg: Config, st: State, sub: Concept, sup: Concept)
    ensures StaysShaped(st, AbsorbHard(cfg, st, sub, sup))
  {
    EmptyRooted();
    EmitShape(cfg, st.(nextVar := X + 1), [], HardHead(cfg, sub, sup), X);
    EncodeRooted(cfg, SoftPart(cfg, sub));
    var e := Encode(cfg, SoftPart(cfg, sub), X, X + 1);
    if e.alts.Some? { BodiesShape(cfg, st.(nextVar := e.nextVar), e.alts.value, HardHead(cfg, sub, sup)); }
  }

  lemma {:induction false} EquivShape(cfg: Config, st: State, cs: seq<Concept>, i: nat, j: nat)
    requires i <= |cs| && j <= |cs|
    ensures StaysShaped(st, EquivFrom(cfg, st, cs, i, j))
    decreases |cs| - i, |cs| - j
  {
    if i == |cs| {
    } else if j == |cs| {
      EquivShape(cfg, st, cs, i + 1, 0);
    } else {
      GciShape(cfg, st, cs[i], cs[j]);
      EquivShape(cfg, if i != j then Gci(cfg, st, cs[i], cs[j]) else st, cs, i, j + 1);
    }
  }

  lemma {:induction false} DenialsShape(st: State, bodies: seq<Body>, nv: Var)
    requires AllRooted(bodies, nv)
    ensures StaysShaped(st, Denials(st, bodies))
    decreases bodies
  {
    if bodies != [] {
      PushShape(st, bodies[0], [], nv);
      DenialsShape(st.Push(bodies[0], []), bodies[1..], nv);
    }
  }

  lemma DenyShape(cfg: Config, st: State, c: Concept, d: Concept, counted: bool)
    ensures StaysShaped(st, Deny(cfg, st, c, d, counted))
  {
    var a := Encode(cfg, c, X, X + 1);
    var b := Encode(cfg, d, X, a.nextVar);
    if a.alts.Some? && b.alts.Some? {
      CrossRooted(cfg, c, d);
      DenialsShape(st.(nextVar := b.nextVar), Cross(a.alts.value, b.alts.value), b.nextVar);
    }
  }

  lemma {:induction false} DenyFromShape(cfg: Config, st: State, cs: seq<Concept>, i: nat, j: nat, counted: bool)
    requires i < j <= |cs| || (i == |cs| && j == |cs| + 1)
    ensures StaysShaped(st, DenyFrom(cfg, st, cs, i, j, counted))
    decreases |cs| - i, |cs| + 1 - j
  {
    if i == |cs| {
    } else if j == |cs| {
      DenyFromShape(cfg, st, cs, i + 1, i + 2, counted);
    } else {
      DenyShape(cfg, st, cs[i], cs[j], counted);
      DenyFromShape(cfg, Deny(cfg, st, cs[i], cs[j], counted), cs, i, j + 1, counted);
    }
  }

  lemma {:induction false} ImplicationsShape(st: State, bodies: seq<Body>, cls: ClassId, nv: Var)
    requires AllRooted(bodies, nv)
    ensures StaysShaped(st, Implications(st, bodies, cls))
    decreases bodies
  {
    if bodies != [] {
      PushShape(st, bodies[0], [Class(cls, X)], nv);
      ImplicationsShape(st.Push(bodies[0], [Class(cls, X)]), bodies[1..], cls, nv);
    }
  }

  lemma {:induction false} MembersShape(cfg: Config, st: State, cs: seq<Concept>, cls: ClassId)
    ensures StaysShaped(st, MembersBelow(cfg, st, cs, cls))
    decreases cs
  {
    if cs != [] {
      var e := Encode(cfg, cs[0], X, X + 1);
      var st1 := st.(nextVar := e.nextVar);
      EncodeRooted(cfg, cs[0]);
      if e.alts.Some? { ImplicationsShape(st1, e.alts.value, cls, e.nextVar); }
      MembersShape(cfg, if e.alts.None? then st1.Defer() else Implications(st1, e.alts.value, cls), cs[1..], cls);
    }
  }

  lemma {:induction false} CoverOn(cfg: Config, cs: seq<Concept>, acc: seq<Atom>)
    requires HeadOn([], acc)
    ensures CoverHead(cfg, cs, acc).Some? ==> HeadOn([], CoverHead(cfg, cs, acc).value)
    decreases cs
  {
    if cs != [] && ClassIdOf(cfg, cs[0]).Some? { CoverOn(cfg, cs[1..], acc + [Class(ClassIdOf(cfg, cs[0]).value, X)]); }
  }

  lemma HeadOnMore(head: seq<Atom>, body: Body)
    requires HeadOn([], head)
    ensures HeadOn(body, head)
  {
    forall a, v | a in head && v in AtomVars(a) ensures On(body, v) { assert On([], v); }
  }

  lemma CoverShape(cfg: Config, st: State, cls: ClassId, cs: seq<Concept>)
    ensures StaysShaped(st, Cover(cfg, st, cls, cs))
  {
    CoverOn(cfg, cs, []);
    NameRooted(cls, X + 1);
    var head := CoverHead(cfg, cs, []);
    if head.Some? { HeadOnMore(head.value, [Class(cls, X)]); PushShape(st.(nextVar := X + 1), [Class(cls, X)], head.value, X + 1); }
  }

  /** Two edges over `X` and one other variable, denied. */
  lemma PairShape(st: State, r: Role, u: Var, w: Var, s: Role, u': Var, w': Var)
    requires {u, w, u', w'} <= {X, X + 1}
    ensures StaysShaped(st, st.Push([Edge(r, u, w), Edge(s, u', w')], []))
  {
    var body: Body := [Edge(r, u, w), Edge(s, u', w')];
    assert CountedVars(body) <= {X, X + 1};
    SubsetSize(CountedVars(body), {X, X + 1});
    assert SmallClause(DlClause(body, []), 2);
  }

  lemma DenyRolesShape(cfg: Config, st: State, r: Role, s: Role)
    ensures StaysShaped(st, DenyRoles(cfg, st, r, s))
  {
    if r != s { PairShape(st.(nextVar := X + 2), Canon(cfg.canon, r), X, X + 1, Canon(cfg.canon, s), X, X + 1); }
  }

  lemma {:induction false} DenyRolesFromShape(cfg: Config, st: State, rs: seq<Role>, i: nat, j: nat)
    requires i < j <= |rs| || (i == |rs| && j == |rs| + 1)
    ensures StaysShaped(st, DenyRolesFrom(cfg, st, rs, i, j))
    decreases |rs| - i, |rs| + 1 - j
  {
    if i == |rs| {
    } else if j == |rs| {
      DenyRolesFromShape(cfg, st, rs, i + 1, i + 2);
    } else {
      DenyRolesShape(cfg, st, rs[i], rs[j]);
      DenyRolesFromShape(cfg, DenyRoles(cfg, st, rs[i], rs[j]), rs, i, j + 1);
    }
  }

  lemma EdgeRooted(r: Role, nv: Var)
    requires X + 1 < nv
    ensures Rooted([Edge(r, X, X + 1)], nv) && On([Edge(r, X, X + 1)], X + 1)
  {
    EmptyRooted();
    RootedLater([], X + 1, nv);
    GraftRooted([], Edge(r, X, X + 1), nv);
    assert [] + [Edge(r, X, X + 1)] == [Edge(r, X, X + 1)];
    assert Edge(r, X, X + 1) in [Edge(r, X, X + 1)];
  }

  lemma ChainShape(st: State, r: Role, s: Role, t: Role)
    ensures StaysShaped(st, st.Push([Edge(r, X, X + 1), Edge(s, X + 1, X + 2)], [Edge(t, X, X + 2)]))
  {
    EdgeRooted(r, X + 2);
    RootedLater([Edge(r, X, X + 1)], X + 2, X + 3);
    var edge := Edge(s, X + 1, X + 2);
    assert !On([Edge(r, X, X + 1)], X + 2);
    GraftRooted([Edge(r, X, X + 1)], edge, X + 3);
    assert [Edge(r, X, X + 1)] + [edge] == [Edge(r, X, X + 1), edge];
    PushShape(st, [Edge(r, X, X + 1), edge], [Edge(t, X, X + 2)], X + 3);
  }

  lemma AxiomShape(cfg: Config, st: State, ax: Axiom)
    ensures StaysShaped(st, AxiomClauses(cfg, st, ax))
  {
    match ax
    case SubClassOf(c, d) => GciShape(cfg, st, c, d);
    case EquivalentClasses(cs) => EquivShape(cfg, st, cs, 0, 0);
    case DisjointClasses(cs) => DenyFromShape(cfg, st, cs, 0, 1, true);
    case DisjointUnion(a, cs) =>
      var st1 := DenyFrom(cfg, st, cs, 0, 1, false);
      DenyFromShape(cfg, st, cs, 0, 1, false);
      MembersShape(cfg, st1, cs, a);
      CoverShape(cfg, MembersBelow(cfg, st1, cs, a), a, cs);
    case PropertyDomain(r, c) =>
      EdgeRooted(Canon(cfg.canon, r), X + 2);
      EmitShape(cfg, st.(nextVar := X + 2), [Edge(Canon(cfg.canon, r), X, X + 1)], c, X);
    case PropertyRange(r, c) =>
      EdgeRooted(Canon(cfg.canon, r), X + 2);
      EmitShape(cfg, st.(nextVar := X + 2), [Edge(Canon(cfg.canon, r), X, X + 1)], c, X + 1);
    case SubChain(parts, s) =>
      if |parts| == 2 { ChainShape(st.(nextVar := X + 3), Canon(cfg.canon, parts[0]), Canon(cfg.canon, parts[1]), Canon(cfg.canon, s)); }
    case TransitiveRole(r) =>
      var k := Canon(cfg.canon, r);
      ChainShape(st.(nextVar := X + 3), k, k, k);
    case IrreflexiveRole(r) =>
      EmptyRooted();
      PushLiteral(st, [], Edge(Canon(cfg.canon, r), X, X), X + 1);
      assert [] + [Edge(Canon(cfg.canon, r), X, X)] == [Edge(Canon(cfg.canon, r), X, X)];
    case AsymmetricRole(r) => PairShape(st.(nextVar := X + 2), Canon(cfg.canon, r), X, X + 1, Canon(cfg.canon, r), X + 1, X);
    case DisjointProperties(rs) => DenyRolesFromShape(cfg, st, rs, 0, 1);
    case _ =>
  }

  /** Every emitted clause is a tree with self-loops and its head on it, or denies a body of at most two
      variables. */
  lemma {:induction false} RunShape(cfg: Config, st: State, axioms: seq<Axiom>)
    ensures StaysShaped(st, ClausifyAll(cfg, st, axioms))
    decreases axioms
  {
    if axioms != [] {
      AxiomShape(cfg, st, axioms[0]);
      RunShape(cfg, AxiomClauses(cfg, st, axioms[0]), axioms[1..]);
    }
  }
}
