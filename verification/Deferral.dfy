/** When an axiom is deferred, told from the axiom alone. */
module Deferral {
  import opened Dl
  import opened Clauses
  import opened Clausify
  import opened Consequents
  import opened AxiomMeaning
  import opened Faithfulness

  // ----- which antecedents are encodable -----

  /** How many alternatives an antecedent distributes into, `None` when it has a part other than ⊤,
      classes, nominals, ⊓, ⊔ and ∃, or when the count passes 64 on the way. */
  function Alternatives(c: Concept): Option<nat>
    decreases c, 0
  {
    match c
    case Atomic(_) => Some(1)
    case Nominal(_) => Some(1)
    case Top => Some(1)
    case And(parts) => Product(parts, 1)
    case Or(parts) => Sum(parts, 0)
    case SomeOf(_, f) => Alternatives(f)
    case _ => None
  }

  function Product(parts: seq<Concept>, n: nat): Option<nat>
    decreases parts, 1
  {
    if parts == [] then Some(n)
    else if Alternatives(parts[0]).None? then None
    else if n * Alternatives(parts[0]).value > 64 then None
    else Product(parts[1..], n * Alternatives(parts[0]).value)
  }

  function Sum(parts: seq<Concept>, n: nat): Option<nat>
    decreases parts, 1
  {
    if parts == [] then Some(n)
    else if Alternatives(parts[0]).None? then None
    else if n + Alternatives(parts[0]).value > 64 then None
    else Sum(parts[1..], n + Alternatives(parts[0]).value)
  }

  ghost predicate Counts(e: Encoding, n: Option<nat>) {
    (e.alts.Some? <==> n.Some?) && (n.Some? ==> |e.alts.value| == n.value)
  }

  /** An antecedent is encodable iff its alternatives can be counted, and then there are so many. */
  lemma {:induction false} EncodableIff(cfg: Config, c: Concept, v: Var, nv: Var)
    ensures Counts(Encode(cfg, c, v, nv), Alternatives(c))
    decreases c, 0
  {
    match c
    case And(parts) => ProductCounts(cfg, parts, [[]], v, nv);
    case Or(parts) => SumCounts(cfg, parts, [], v, nv);
    case SomeOf(_, f) => EncodableIff(cfg, f, nv, nv + 1);
    case _ =>
  }

  lemma {:induction false} ProductCounts(cfg: Config, parts: seq<Concept>, acc: seq<Body>, v: Var, nv: Var)
    ensures Counts(EncodeAnd(cfg, parts, acc, v, nv), Product(parts, |acc|))
    decreases parts, 1
  {
    if parts != [] {
      EncodableIff(cfg, parts[0], v, nv);
      var child := Encode(cfg, parts[0], v, nv);
      if child.alts.Some? {
        CrossCount(acc, child.alts.value);
        ProductCounts(cfg, parts[1..], Cross(acc, child.alts.value), v, child.nextVar);
      }
    }
  }

  lemma {:induction false} SumCounts(cfg: Config, parts: seq<Concept>, acc: seq<Body>, v: Var, nv: Var)
    ensures Counts(EncodeOr(cfg, parts, acc, v, nv), Sum(parts, |acc|))
    decreases parts, 1
  {
    if parts != [] {
      EncodableIff(cfg, parts[0], v, nv);
      var child := Encode(cfg, parts[0], v, nv);
      if child.alts.Some? { SumCounts(cfg, parts[1..], acc + child.alts.value, v, child.nextVar); }
    }
  }

  lemma {:induction false} CrossCount(acc: seq<Body>, child: seq<Body>)
    ensures |Cross(acc, child)| == |acc| * |child|
  {
    if acc != [] {
      CrossCount(acc[1..], child);
      assert |acc| * |child| == |child| + (|acc| - 1) * |child|;
    }
  }

  // ----- the conditions -----

  /** The conjuncts of an antecedent that are encodable, in order. */
  function EncodableParts(parts: seq<Concept>): seq<Concept> {
    if parts == [] then []
    else (if Alternatives(parts[0]).Some? then [parts[0]] else []) + EncodableParts(parts[1..])
  }

  /** An inclusion is deferred when its antecedent is not encodable and the intersection of its
      encodable conjuncts, two or more, is not either. */
  predicate AntecedentDefers(ord: Order, sub: Concept) {
    var parts := EncodableParts(if sub.And? then sub.args else [sub]);
    Alternatives(sub).None? && |parts| >= 2 && Alternatives(MkAnd(ord, parts)).None?
  }

  /** Whether an axiom in normal form is deferred, in whole or in part. */
  predicate Defers(ord: Order, ax: Axiom) {
    match ax
    case SubClassOf(c, _) => AntecedentDefers(ord, c)
    case EquivalentClasses(cs) => |cs| >= 2 && exists c :: c in cs && AntecedentDefers(ord, c)
    case DisjointClasses(cs) => |cs| >= 2 && exists c :: c in cs && Alternatives(c).None?
    case DisjointUnion(_, cs) => exists c :: c in cs && !c.Atomic? && !c.Nominal?
    case SubChain(parts, _) => |parts| != 2
    case _ => false
  }

  ghost predicate NnfAxiomForm(ax: Axiom) {
    match ax
    case SubClassOf(c, d) => IsNnf(c) && IsNnf(d)
    case EquivalentClasses(cs) => AllNnf(cs)
    case DisjointClasses(cs) => AllNnf(cs)
    case DisjointUnion(_, cs) => AllNnf(cs)
    case PropertyDomain(_, c) => IsNnf(c)
    case PropertyRange(_, c) => IsNnf(c)
    case _ => true
  }

  // ----- inclusions -----

  /** From `st` to `st'` something is deferred iff `d`, and the count never falls. */
  ghost predicate DefersIff(st: State, st': State, d: bool) {
    st.deferred <= st'.deferred && (st'.deferred != st.deferred <==> d)
  }

  lemma DefersThen(st: State, st1: State, st2: State, d1: bool, d2: bool)
    requires DefersIff(st, st1, d1) && DefersIff(st1, st2, d2)
    ensures DefersIff(st, st2, d1 || d2)
  {
  }

  lemma {:induction false} BodiesNeverDefer(cfg: Config, st: State, bodies: seq<Body>, c: Concept, v: Var)
    requires IsNnf(c)
    ensures DefersIff(st, EmitBodies(cfg, st, bodies, c, v), false)
    decreases bodies
  {
    if bodies != [] {
      EmitGrows(cfg, st, bodies[0], c, v);
      BodiesNeverDefer(cfg, Emit(cfg, st, bodies[0], c, v), bodies[1..], c, v);
    }
  }

  lemma {:induction false} SoftIs(cfg: Config, parts: seq<Concept>)
    ensures Soft(cfg, parts) == EncodableParts(parts)
  {
    if parts != [] {
      EncodableIff(cfg, parts[0], X, X + 1);
      SoftIs(cfg, parts[1..]);
    }
  }

  lemma {:induction false} HeadNnf(cfg: Config, sub: Concept, sup: Concept)
    requires IsNnf(sup)
    ensures IsNnf(HardHead(cfg, sub, sup))
  {
    var hard := Hard(cfg, Conjuncts(sub));
    NnfIsNnf(cfg.ord, sub);
    forall k | 0 <= k < |hard| ensures IsNnf(ComplementAll(cfg.ord, hard)[k]) { NnfIsNnf(cfg.ord, hard[k]); }
    MkNnf(cfg.ord, [Complement(cfg.ord, sub), sup]);
    MkNnf(cfg.ord, ComplementAll(cfg.ord, hard) + [sup]);
  }

  lemma GciDefers(cfg: Config, st: State, sub: Concept, sup: Concept)
    requires IsNnf(sup)
    ensures DefersIff(st, Gci(cfg, st, sub, sup), AntecedentDefers(cfg.ord, sub))
  {
    var e := Encode(cfg, sub, X, X + 1);
    EncodableIff(cfg, sub, X, X + 1);
    if e.alts.Some? {
      BodiesNeverDefer(cfg, st.(nextVar := e.nextVar), e.alts.value, sup, X);
    } else {
      HardDefers(cfg, st, sub, sup);
    }
  }

  lemma HardDefers(cfg: Config, st: State, sub: Concept, sup: Concept)
    requires IsNnf(sup) && Alternatives(sub).None?
    ensures DefersIff(st, AbsorbHard(cfg, st, sub, sup), AntecedentDefers(cfg.ord, sub))
  {
    var soft, head := Soft(cfg, Conjuncts(sub)), HardHead(cfg, sub, sup);
    SoftIs(cfg, Conjuncts(sub));
    HeadNnf(cfg, sub, sup);
    if soft == [] {
      EmitGrows(cfg, st.(nextVar := X + 1), [], head, X);
    } else {
      var e := Encode(cfg, SoftPart(cfg, sub), X, X + 1);
      EncodableIff(cfg, SoftPart(cfg, sub), X, X + 1);
      if |soft| == 1 { assert soft[0] in soft; EncodableIff(cfg, soft[0], X, X + 1); }
      if e.alts.Some? { BodiesNeverDefer(cfg, st.(nextVar := e.nextVar), e.alts.value, head, X); }
    }
  }

  /** Some ordered pair of distinct positions from `(i, j)` on starts at a deferred antecedent. */
  ghost predicate SomePairDefers(ord: Order, cs: seq<Concept>, i: nat, j: nat) {
    exists a, b :: 0 <= a < |cs| && 0 <= b < |cs| && a != b && (i < a || (i == a && j <= b)) && PairDefers(ord, cs[a], cs[b])
  }

  ghost predicate PairDefers(ord: Order, c: Concept, d: Concept) {
    AntecedentDefers(ord, c)
  }

  lemma SomePairStep(ord: Order, cs: seq<Concept>, i: nat, j: nat)
    requires i < |cs| && j <= |cs|
    ensures j == |cs| ==> (SomePairDefers(ord, cs, i, j) <==> SomePairDefers(ord, cs, i + 1, 0))
    ensures j < |cs| ==> (SomePairDefers(ord, cs, i, j) <==> (i != j && PairDefers(ord, cs[i], cs[j])) || SomePairDefers(ord, cs, i, j + 1))
  {
    if j < |cs| && SomePairDefers(ord, cs, i, j) && !SomePairDefers(ord, cs, i, j + 1) {
      var a, b :| 0 <= a < |cs| && 0 <= b < |cs| && a != b && (i < a || (i == a && j <= b)) && PairDefers(ord, cs[a], cs[b]);
      assert a == i && b == j;
    }
  }

  lemma {:induction false} EquivDefers(cfg: Config, st: State, cs: seq<Concept>, i: nat, j: nat)
    requires AllNnf(cs) && i <= |cs| && j <= |cs|
    ensures DefersIff(st, EquivFrom(cfg, st, cs, i, j), SomePairDefers(cfg.ord, cs, i, j))
    decreases |cs| - i, |cs| - j
  {
    if i < |cs| {
      SomePairStep(cfg.ord, cs, i, j);
      if j == |cs| {
        EquivDefers(cfg, st, cs, i + 1, 0);
      } else if i == j {
        EquivDefers(cfg, st, cs, i, j + 1);
      } else {
        var st1 := Gci(cfg, st, cs[i], cs[j]);
        GciDefers(cfg, st, cs[i], cs[j]);
        EquivDefers(cfg, st1, cs, i, j + 1);
        DefersThen(st, st1, EquivFrom(cfg, st, cs, i, j), PairDefers(cfg.ord, cs[i], cs[j]), SomePairDefers(cfg.ord, cs, i, j + 1));
      }
    }
  }

  lemma AnyPair(ord: Order, cs: seq<Concept>)
    ensures SomePairDefers(ord, cs, 0, 0) <==> |cs| >= 2 && exists c :: c in cs && AntecedentDefers(ord, c)
  {
    if |cs| >= 2 && exists c :: c in cs && AntecedentDefers(ord, c) {
      var c :| c in cs && AntecedentDefers(ord, c);
      var a :| 0 <= a < |cs| && cs[a] == c;
      var b := if a == 0 then 1 else 0;
      assert PairDefers(ord, cs[a], cs[b]);
    }
    if SomePairDefers(ord, cs, 0, 0) {
      var a, b :| 0 <= a < |cs| && 0 <= b < |cs| && a != b && PairDefers(ord, cs[a], cs[b]);
      assert cs[a] in cs;
    }
  }

  // ----- disjointness -----

  lemma {:induction false} DenialsNeverDefer(st: State, bodies: seq<Body>)
    ensures DefersIff(st, Denials(st, bodies), false)
    decreases bodies
  {
    if bodies != [] { DenialsNeverDefer(st.Push(bodies[0], []), bodies[1..]); }
  }

  ghost predicate Uncountable(c: Concept, d: Concept) {
    Alternatives(c).None? || Alternatives(d).None?
  }

  lemma DenyDefers(cfg: Config, st: State, c: Concept, d: Concept, counted: bool)
    ensures DefersIff(st, Deny(cfg, st, c, d, counted), counted && Uncountable(c, d))
  {
    var a := Encode(cfg, c, X, X + 1);
    var b := Encode(cfg, d, X, a.nextVar);
    EncodableIff(cfg, c, X, X + 1);
    EncodableIff(cfg, d, X, a.nextVar);
    if a.alts.Some? && b.alts.Some? { DenialsNeverDefer(st.(nextVar := b.nextVar), Cross(a.alts.value, b.alts.value)); }
  }

  ghost predicate SomeUncountable(cs: seq<Concept>, i: nat, j: nat) {
    exists a, b :: 0 <= a < b < |cs| && (i < a || (i == a && j <= b)) && Uncountable(cs[a], cs[b])
  }

  lemma SomeUncountableStep(cs: seq<Concept>, i: nat, j: nat)
    requires i < j <= |cs|
    ensures j == |cs| ==> (SomeUncountable(cs, i, j) <==> SomeUncountable(cs, i + 1, i + 2))
    ensures j < |cs| ==> (SomeUncountable(cs, i, j) <==> Uncountable(cs[i], cs[j]) || SomeUncountable(cs, i, j + 1))
  {
    if j < |cs| && SomeUncountable(cs, i, j) && !SomeUncountable(cs, i, j + 1) {
      var a, b :| 0 <= a < b < |cs| && (i < a || (i == a && j <= b)) && Uncountable(cs[a], cs[b]);
      assert a == i && b == j;
    }
  }

  lemma {:induction false} DenyFromDefers(cfg: Config, st: State, cs: seq<Concept>, i: nat, j: nat, counted: bool)
    requires i < j <= |cs| || (i == |cs| && j == |cs| + 1)
    ensures DefersIff(st, DenyFrom(cfg, st, cs, i, j, counted), counted && SomeUncountable(cs, i, j))
    decreases |cs| - i, |cs| + 1 - j
  {
    if i < |cs| {
      SomeUncountableStep(cs, i, j);
      if j == |cs| {
        DenyFromDefers(cfg, st, cs, i + 1, i + 2, counted);
      } else {
        var st1 := Deny(cfg, st, cs[i], cs[j], counted);
        DenyDefers(cfg, st, cs[i], cs[j], counted);
        DenyFromDefers(cfg, st1, cs, i, j + 1, counted);
        DefersThen(st, st1, DenyFrom(cfg, st, cs, i, j, counted), counted && Uncountable(cs[i], cs[j]), counted && SomeUncountable(cs, i, j + 1));
      }
    }
  }

  lemma AnyUncountable(cs: seq<Concept>)
    ensures SomeUncountable(cs, 0, 1) <==> |cs| >= 2 && exists c :: c in cs && Alternatives(c).None?
  {
    if |cs| >= 2 && exists c :: c in cs && Alternatives(c).None? {
      var c :| c in cs && Alternatives(c).None?;
      var a :| 0 <= a < |cs| && cs[a] == c;
      if a == 0 { assert Uncountable(cs[0], cs[1]); } else { assert Uncountable(cs[0], cs[a]); }
    }
    if SomeUncountable(cs, 0, 1) {
      var a, b :| 0 <= a < b < |cs| && Uncountable(cs[a], cs[b]);
      assert cs[a] in cs && cs[b] in cs;
    }
  }

  // ----- disjoint unions -----

  lemma {:induction false} ImplicationsNeverDefer(st: State, bodies: seq<Body>, cls: ClassId)
    ensures DefersIff(st, Implications(st, bodies, cls), false)
    decreases bodies
  {
    if bodies != [] { ImplicationsNeverDefer(st.Push(bodies[0], [Class(cls, X)]), bodies[1..], cls); }
  }

  lemma {:induction false} MembersDefer(cfg: Config, st: State, cs: seq<Concept>, cls: ClassId)
    ensures DefersIff(st, MembersBelow(cfg, st, cs, cls), exists c :: c in cs && Alternatives(c).None?)
    decreases cs
  {
    if cs != [] {
      var e := Encode(cfg, cs[0], X, X + 1);
      EncodableIff(cfg, cs[0], X, X + 1);
      var st1 := st.(nextVar := e.nextVar);
      if e.alts.Some? { ImplicationsNeverDefer(st1, e.alts.value, cls); }
      var st2 := if e.alts.None? then st1.Defer() else Implications(st1, e.alts.value, cls);
      MembersDefer(cfg, st2, cs[1..], cls);
      assert cs == [cs[0]] + cs[1..];
    }
  }

  lemma {:induction false} CoverHeadIff(cfg: Config, cs: seq<Concept>, acc: seq<Atom>)
    ensures CoverHead(cfg, cs, acc).None? <==> exists c :: c in cs && !c.Atomic? && !c.Nominal?
    decreases cs
  {
    if cs != [] {
      assert cs == [cs[0]] + cs[1..];
      if ClassIdOf(cfg, cs[0]).Some? { CoverHeadIff(cfg, cs[1..], acc + [Class(ClassIdOf(cfg, cs[0]).value, X)]); }
    }
  }

  lemma UnionDefers(cfg: Config, st: State, cls: ClassId, cs: seq<Concept>)
    ensures DefersIff(st, AxiomClauses(cfg, st, DisjointUnion(cls, cs)), exists c :: c in cs && !c.Atomic? && !c.Nominal?)
  {
    var st1 := DenyFrom(cfg, st, cs, 0, 1, false);
    var st2 := MembersBelow(cfg, st1, cs, cls);
    DenyFromDefers(cfg, st, cs, 0, 1, false);
    MembersDefer(cfg, st1, cs, cls);
    CoverHeadIff(cfg, cs, []);
    if c :| c in cs && Alternatives(c).None? { assert !c.Atomic? && !c.Nominal?; }
  }

  // ----- all kinds -----

  lemma {:induction false} RolesNeverDefer(cfg: Config, st: State, rs: seq<Role>, i: nat, j: nat)
    requires i < j <= |rs| || (i == |rs| && j == |rs| + 1)
    ensures DefersIff(st, DenyRolesFrom(cfg, st, rs, i, j), false)
    decreases |rs| - i, |rs| + 1 - j
  {
    if i < |rs| {
      if j == |rs| { RolesNeverDefer(cfg, st, rs, i + 1, i + 2); }
      else { RolesNeverDefer(cfg, DenyRoles(cfg, st, rs[i], rs[j]), rs, i, j + 1); }
    }
  }

  /** An axiom in normal form is deferred, kind by kind, exactly when its shape says so. */
  lemma AxiomDefers(cfg: Config, st: State, ax: Axiom)
    requires NnfAxiomForm(ax)
    ensures DefersIff(st, AxiomClauses(cfg, st, ax), Defers(cfg.ord, ax))
  {
    match ax
    case SubClassOf(c, d) => GciDefers(cfg, st, c, d);
    case EquivalentClasses(cs) => EquivDefers(cfg, st, cs, 0, 0); AnyPair(cfg.ord, cs);
    case DisjointClasses(cs) => DenyFromDefers(cfg, st, cs, 0, 1, true); AnyUncountable(cs);
    case DisjointUnion(a, cs) => UnionDefers(cfg, st, a, cs);
    case PropertyDomain(r, c) => EmitGrows(cfg, st.(nextVar := X + 2), [Edge(Canon(cfg.canon, r), X, X + 1)], c, X);
    case PropertyRange(r, c) => EmitGrows(cfg, st.(nextVar := X + 2), [Edge(Canon(cfg.canon, r), X, X + 1)], c, X + 1);
    case DisjointProperties(rs) => RolesNeverDefer(cfg, st, rs, 0, 1);
    case _ =>
  }

  ghost predicate SomeDefers(ord: Order, axioms: seq<Axiom>) {
    exists ax :: ax in axioms && Defers(ord, ax)
  }

  ghost predicate AllNnfForm(axioms: seq<Axiom>) {
    forall ax :: ax in axioms ==> NnfAxiomForm(ax)
  }

  /** A run over axioms in normal form defers nothing iff no axiom is deferred by its shape. */
  lemma {:induction false} RunDefers(cfg: Config, st: State, axioms: seq<Axiom>)
    requires AllNnfForm(axioms)
    ensures DefersIff(st, ClausifyAll(cfg, st, axioms), SomeDefers(cfg.ord, axioms))
    decreases axioms
  {
    if axioms != [] {
      assert axioms == [axioms[0]] + axioms[1..];
      AxiomDefers(cfg, st, axioms[0]);
      RunDefers(cfg, AxiomClauses(cfg, st, axioms[0]), axioms[1..]);
      DefersThen(st, AxiomClauses(cfg, st, axioms[0]), ClausifyAll(cfg, st, axioms), Defers(cfg.ord, axioms[0]), SomeDefers(cfg.ord, axioms[1..]));
    }
  }

  lemma NothingDeferredIff(cfg: Config, axioms: seq<Axiom>)
    requires AllNnfForm(axioms)
    ensures ClausifyAll(cfg, START, axioms).deferred == 0 <==> !SomeDefers(cfg.ord, axioms)
  {
    RunDefers(cfg, START, axioms);
  }
}
