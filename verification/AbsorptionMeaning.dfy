/** Absorption is a logical identity, and what its output looks like. */
module AbsorptionMeaning {
  import opened Dl
  import opened Absorption

  // ----- one axiom -----

  /** A union is one of its disjuncts or the union of the others. */
  lemma OrWithout<E(!new)>(I: Interp<E>, ord: Order, phi: Concept, i: nat, x: E)
    requires i < |Disjuncts(phi)|
    ensures Sat(I, phi, x) <==> Sat(I, Disjuncts(phi)[i], x) || Sat(I, MkOr(ord, Without(Disjuncts(phi), i)), x)
  {
    MkOrSat(I, ord, Without(Disjuncts(phi), i), x);
    OrWithoutAt(I, Disjuncts(phi), i, x);
    if !phi.Or? { assert phi in [phi]; }
  }

  lemma OrWithoutAt<E(!new)>(I: Interp<E>, ds: seq<Concept>, i: nat, x: E)
    requires i < |ds|
    ensures Sat(I, Or(ds), x) <==> Sat(I, ds[i], x) || Sat(I, Or(Without(ds, i)), x)
  {
    var rest := Without(ds, i);
    assert ds == ds[..i] + [ds[i]] + ds[i + 1..];
    assert forall c :: c in ds <==> c == ds[i] || c in rest;
  }

  lemma PushConcept<E(!new)>(I: Interp<E>, rules: seq<ConceptRule>, r: ConceptRule)
    ensures ConceptRulesHold(I, rules + [r]) <==> ConceptRulesHold(I, rules) && ConceptRuleHolds(I, r)
  {
    assert r in rules + [r];
    assert forall x :: x in rules + [r] <==> x in rules || x == r;
  }

  lemma PushNominal<E(!new)>(I: Interp<E>, rules: seq<NominalRule>, r: NominalRule)
    ensures NominalRulesHold(I, rules + [r]) <==> NominalRulesHold(I, rules) && NominalRuleHolds(I, r)
  {
    assert forall x :: x in rules + [r] <==> x in rules || x == r;
  }

  lemma PushRole<E(!new)>(I: Interp<E>, rules: seq<RoleRule>, r: RoleRule)
    ensures RoleRulesHold(I, rules + [r]) <==> RoleRulesHold(I, rules) && RoleRuleHolds(I, r)
  {
    assert forall x :: x in rules + [r] <==> x in rules || x == r;
  }

  lemma PushResidual<E(!new)>(I: Interp<E>, gcis: seq<Concept>, phi: Concept)
    ensures ResidualsHold(I, gcis + [phi]) <==> ResidualsHold(I, gcis) && Everywhere(I, phi)
  {
    assert forall x :: x in gcis + [phi] <==> x in gcis || x == phi;
  }

  /** A disjunct `¬A` makes the rest a rule for `A`. */
  lemma ClassTriggerMeans<E(!new)>(I: Interp<E>, ord: Order, phi: Concept, i: nat, a: ClassId)
    requires i < |Disjuncts(phi)| && AsTrigger(Disjuncts(phi)[i]) == Some(ClassTrigger(a))
    ensures Everywhere(I, phi) <==> ConceptRuleHolds(I, ConceptRule(a, MkOr(ord, Without(Disjuncts(phi), i))))
  {
    var rest := MkOr(ord, Without(Disjuncts(phi), i));
    forall x ensures Sat(I, phi, x) <==> (I.cls(a, x) ==> Sat(I, rest, x)) {
      OrWithout(I, ord, phi, i, x);
      assert Sat(I, Disjuncts(phi)[i], x) <==> !Sat(I, Atomic(a), x);
    }
  }

  /** A disjunct `¬{a}` makes the rest a rule for the individual. */
  lemma IndividualTriggerMeans<E(!new)>(I: Interp<E>, ord: Order, phi: Concept, i: nat, a: IndId)
    requires i < |Disjuncts(phi)| && AsTrigger(Disjuncts(phi)[i]) == Some(IndividualTrigger(a))
    ensures Everywhere(I, phi) <==> NominalRuleHolds(I, NominalRule(a, MkOr(ord, Without(Disjuncts(phi), i))))
  {
    var rest := MkOr(ord, Without(Disjuncts(phi), i));
    forall x ensures Sat(I, phi, x) <==> (x == I.ind(a) ==> Sat(I, rest, x)) {
      OrWithout(I, ord, phi, i, x);
      assert Sat(I, Disjuncts(phi)[i], x) <==> !Sat(I, Nominal(a), x);
    }
  }

  /** Wherever `⊤ ⊑ phi` is filed, it says the same. */
  lemma GciMeans<E(!new)>(I: Interp<E>, ord: Order, t: TBox, phi: Concept)
    ensures TBoxHolds(I, Gci(ord, t, phi)) <==> TBoxHolds(I, t) && Everywhere(I, phi)
  {
    var found := FirstOf(AsTrigger, Disjuncts(phi));
    if found.None? {
      PushResidual(I, t.residuals, phi);
    } else {
      var i := found.value.0;
      var conclusion := MkOr(ord, Without(Disjuncts(phi), i));
      match found.value.1
      case ClassTrigger(a) =>
        ClassTriggerMeans(I, ord, phi, i, a);
        PushConcept(I, t.conceptRules, ConceptRule(a, conclusion));
      case IndividualTrigger(a) =>
        IndividualTriggerMeans(I, ord, phi, i, a);
        PushNominal(I, t.nominalRules, NominalRule(a, conclusion));
    }
  }

  lemma {:induction false} SubSupMeans<E(!new)>(I: Interp<E>, ord: Order, t: TBox, sub: Concept, sup: Concept)
    ensures TBoxHolds(I, SubSup(ord, t, sub, sup)) <==> TBoxHolds(I, t) && Subsumed(I, sub, sup)
    decreases sub, 1
  {
    if sub.Or? {
      EachMeans(I, ord, t, sub.args, sup);
      UnionBelow(I, sub.args, sup);
    } else {
      var phi := MkOr(ord, [ToNnf(ord, Not(sub)), sup]);
      GciMeans(I, ord, t, phi);
      GciOf(I, ord, sub, sup);
    }
  }

  lemma GciOf<E(!new)>(I: Interp<E>, ord: Order, sub: Concept, sup: Concept)
    ensures Everywhere(I, MkOr(ord, [ToNnf(ord, Not(sub)), sup])) <==> Subsumed(I, sub, sup)
  {
    var neg := ToNnf(ord, Not(sub));
    forall x ensures Sat(I, MkOr(ord, [neg, sup]), x) <==> (Sat(I, sub, x) ==> Sat(I, sup, x)) {
      MkOrSat(I, ord, [neg, sup], x);
      NnfSat(I, ord, Not(sub), x);
      assert neg in [neg, sup] && sup in [neg, sup];
    }
  }

  ghost predicate AllBelow<E(!new)>(I: Interp<E>, subs: seq<Concept>, sup: Concept) {
    forall c :: c in subs ==> Subsumed(I, c, sup)
  }

  lemma UnionBelow<E(!new)>(I: Interp<E>, subs: seq<Concept>, sup: Concept)
    ensures AllBelow(I, subs, sup) <==> Subsumed(I, Or(subs), sup)
  {
    if Subsumed(I, Or(subs), sup) {
      forall c, x | c in subs && Sat(I, c, x) ensures Sat(I, sup, x) { assert Sat(I, Or(subs), x); }
    }
    if AllBelow(I, subs, sup) {
      forall x | Sat(I, Or(subs), x) ensures Sat(I, sup, x) {
        var c :| c in subs && Sat(I, c, x);
        assert Subsumed(I, c, sup);
      }
    }
  }

  lemma {:induction false} EachMeans<E(!new)>(I: Interp<E>, ord: Order, t: TBox, subs: seq<Concept>, sup: Concept)
    ensures TBoxHolds(I, EachBelow(ord, t, subs, sup)) <==> TBoxHolds(I, t) && AllBelow(I, subs, sup)
    decreases subs, 0
  {
    if subs != [] {
      SubSupMeans(I, ord, t, subs[0], sup);
      EachMeans(I, ord, SubSup(ord, t, subs[0], sup), subs[1..], sup);
      assert subs == [subs[0]] + subs[1..];
    }
  }

  /** The pairs of positions that are still to come. */
  predicate PairAhead(i: nat, j: nat, a: int, b: int) {
    a > i || (a == i && b >= j)
  }

  type Reading = (Concept, Concept) -> bool

  ghost predicate Ahead(m: Reading, cs: seq<Concept>, i: nat, j: nat) {
    forall a, b {:trigger m(cs[a], cs[b])} :: 0 <= a < |cs| && 0 <= b < |cs| && a != b && PairAhead(i, j, a, b) ==> m(cs[a], cs[b])
  }

  ghost predicate UpperAhead(m: Reading, cs: seq<Concept>, i: nat, j: nat) {
    forall a, b {:trigger m(cs[a], cs[b])} :: 0 <= a < b < |cs| && PairAhead(i, j, a, b) ==> m(cs[a], cs[b])
  }

  /** Filing a pair says `m` of it and nothing else. */
  ghost predicate Says<E(!new)>(I: Interp<E>, f: Filing, m: Reading) {
    forall t, c, d {:trigger f(t, c, d)} :: TBoxHolds(I, f(t, c, d)) <==> TBoxHolds(I, t) && m(c, d)
  }

  lemma {:induction false} PairsMean<E(!new)>(I: Interp<E>, f: Filing, m: Reading, t: TBox, cs: seq<Concept>, i: nat, j: nat)
    requires Says(I, f, m) && i <= |cs| && j <= |cs|
    ensures TBoxHolds(I, PairsFrom(f, t, cs, i, j)) <==> TBoxHolds(I, t) && Ahead(m, cs, i, j)
    decreases |cs| - i, |cs| - j
  {
    if i == |cs| {
    } else if j == |cs| {
      PairsMean(I, f, m, t, cs, i + 1, 0);
      assert Ahead(m, cs, i, j) <==> Ahead(m, cs, i + 1, 0);
    } else {
      assert Ahead(m, cs, i, j) <==> (i != j ==> m(cs[i], cs[j])) && Ahead(m, cs, i, j + 1);
      PairsMean(I, f, m, if i != j then f(t, cs[i], cs[j]) else t, cs, i, j + 1);
    }
  }

  lemma {:induction false} UpperMean<E(!new)>(I: Interp<E>, f: Filing, m: Reading, t: TBox, cs: seq<Concept>, i: nat, j: nat)
    requires Says(I, f, m) && (i < j <= |cs| || (i == |cs| && j == |cs| + 1))
    ensures TBoxHolds(I, UpperFrom(f, t, cs, i, j)) <==> TBoxHolds(I, t) && UpperAhead(m, cs, i, j)
    decreases |cs| - i, |cs| + 1 - j
  {
    if i == |cs| {
    } else if j == |cs| {
      UpperMean(I, f, m, t, cs, i + 1, i + 2);
      assert UpperAhead(m, cs, i, j) <==> UpperAhead(m, cs, i + 1, i + 2);
    } else {
      assert UpperAhead(m, cs, i, j) <==> m(cs[i], cs[j]) && UpperAhead(m, cs, i, j + 1);
      UpperMean(I, f, m, f(t, cs[i], cs[j]), cs, i, j + 1);
    }
  }

  ghost function BelowIn<E(!new)>(I: Interp<E>): Reading {
    (c, d) => Subsumed(I, c, d)
  }

  ghost function ApartIn<E(!new)>(I: Interp<E>): Reading {
    (c, d) => Disjoint(I, c, d)
  }

  lemma FileSubSays<E(!new)>(I: Interp<E>, ord: Order)
    ensures Says(I, FileSub(ord), BelowIn(I))
  {
    forall t, c, d ensures TBoxHolds(I, FileSub(ord)(t, c, d)) <==> TBoxHolds(I, t) && BelowIn(I)(c, d) { SubSupMeans(I, ord, t, c, d); }
  }

  lemma ComplementBelow<E(!new)>(I: Interp<E>, ord: Order, c: Concept, d: Concept)
    ensures Subsumed(I, c, ToNnf(ord, Not(d))) <==> Disjoint(I, c, d)
  {
    forall x { NnfSat(I, ord, Not(d), x); }
  }

  lemma FileApartSays<E(!new)>(I: Interp<E>, ord: Order)
    ensures Says(I, FileApart(ord), ApartIn(I))
  {
    forall t, c, d ensures TBoxHolds(I, FileApart(ord)(t, c, d)) <==> TBoxHolds(I, t) && ApartIn(I)(c, d) {
      SubSupMeans(I, ord, t, c, ToNnf(ord, Not(d)));
      ComplementBelow(I, ord, c, d);
    }
  }

  lemma EquivalentMeans<E(!new)>(I: Interp<E>, ord: Order, t: TBox, cs: seq<Concept>)
    ensures TBoxHolds(I, PairsFrom(FileSub(ord), t, cs, 0, 0)) <==> TBoxHolds(I, t) && PairwiseSubsumed(I, cs)
  {
    FileSubSays(I, ord);
    PairsMean(I, FileSub(ord), BelowIn(I), t, cs, 0, 0);
    SubsumedAll(I, cs);
  }

  lemma DisjointMeans<E(!new)>(I: Interp<E>, ord: Order, t: TBox, cs: seq<Concept>)
    ensures TBoxHolds(I, UpperFrom(FileApart(ord), t, cs, 0, 1)) <==> TBoxHolds(I, t) && PairwiseDisjoint(I, cs)
  {
    FileApartSays(I, ord);
    UpperMean(I, FileApart(ord), ApartIn(I), t, cs, 0, 1);
    ApartAll(I, cs);
  }

  lemma ApartAll<E(!new)>(I: Interp<E>, cs: seq<Concept>)
    ensures UpperAhead(ApartIn(I), cs, 0, 1) <==> PairwiseDisjoint(I, cs)
  {
    if UpperAhead(ApartIn(I), cs, 0, 1) {
      forall i, j | 0 <= i < j < |cs| ensures Disjoint(I, cs[i], cs[j]) { assert PairAhead(0, 1, i, j) && ApartIn(I)(cs[i], cs[j]); }
    }
  }

  lemma UnionHolds<E(!new)>(I: Interp<E>, ord: Order, a: ClassId, cs: seq<Concept>)
    ensures Subsumed(I, Atomic(a), MkOr(ord, cs)) && Subsumed(I, MkOr(ord, cs), Atomic(a)) <==>
      forall d :: I.cls(a, d) <==> Sat(I, Or(cs), d)
  {
    forall d ensures (Sat(I, MkOr(ord, cs), d) <==> Sat(I, Or(cs), d)) && (I.cls(a, d) <==> Sat(I, Atomic(a), d)) {
      MkOrSat(I, ord, cs, d);
    }
  }

  lemma DomainHolds<E(!new)>(I: Interp<E>, r: Role, c: Concept)
    ensures Subsumed(I, SomeOf(r, Top), c) <==> Holds(I, PropertyDomain(r, c))
  {
    if Subsumed(I, SomeOf(r, Top), c) {
      forall x, y | Rel(I, r, x, y) ensures Sat(I, c, x) { assert Sat(I, Top, y) && Sat(I, SomeOf(r, Top), x); }
    }
  }

  lemma OneMeans<E(!new)>(I: Interp<E>, ord: Order, t: TBox, ax: Axiom)
    ensures TBoxHolds(I, AbsorbOne(ord, t, ax)) <==> TBoxHolds(I, t) && (IsTBoxAxiom(ax) ==> Holds(I, ax))
  {
    match ax
    case SubClassOf(c, d) => SubSupMeans(I, ord, t, c, d);
    case EquivalentClasses(cs) =>
      EquivalentMeans(I, ord, t, cs);
    case DisjointClasses(cs) =>
      DisjointMeans(I, ord, t, cs);
    case DisjointUnion(a, cs) =>
      var union := MkOr(ord, cs);
      var t1 := SubSup(ord, t, Atomic(a), union);
      SubSupMeans(I, ord, t, Atomic(a), union);
      SubSupMeans(I, ord, t1, union, Atomic(a));
      DisjointMeans(I, ord, SubSup(ord, t1, union, Atomic(a)), cs);
      UnionHolds(I, ord, a, cs);
    case PropertyDomain(r, c) =>
      SubSupMeans(I, ord, t, SomeOf(r, Top), c);
      DomainHolds(I, r, c);
    case PropertyRange(r, c) =>
      PushResidual(I, t.residuals, AllOf(r, c));
      UnguardedMeans(I, r, c);
    case _ =>
  }

  lemma SubsumedAll<E(!new)>(I: Interp<E>, cs: seq<Concept>)
    ensures Ahead(BelowIn(I), cs, 0, 0) <==> PairwiseSubsumed(I, cs)
  {
    if Ahead(BelowIn(I), cs, 0, 0) {
      forall i, j | 0 <= i < |cs| && 0 <= j < |cs| ensures Subsumed(I, cs[i], cs[j]) {
        if i != j { assert PairAhead(0, 0, i, j) && BelowIn(I)(cs[i], cs[j]); }
      }
    }
  }

  lemma {:induction false} AllMeans<E(!new)>(I: Interp<E>, ord: Order, t: TBox, axioms: seq<Axiom>)
    ensures TBoxHolds(I, AbsorbAll(ord, t, axioms)) <==> TBoxHolds(I, t) && TBoxModels(I, axioms)
    decreases axioms
  {
    if axioms != [] {
      OneMeans(I, ord, t, axioms[0]);
      AllMeans(I, ord, AbsorbOne(ord, t, axioms[0]), axioms[1..]);
      assert axioms == [axioms[0]] + axioms[1..];
    }
  }

  // ----- the rewriting passes -----

  lemma GuardedMeans<E(!new)>(I: Interp<E>, a: ClassId, r: Role, d: Concept)
    ensures ConceptRuleHolds(I, ConceptRule(a, AllOf(r, d))) <==> RoleRuleHolds(I, RoleRule(r, Some(a), d))
  {
  }

  lemma UnguardedMeans<E(!new)>(I: Interp<E>, r: Role, d: Concept)
    ensures Everywhere(I, AllOf(r, d)) <==> RoleRuleHolds(I, RoleRule(r, None, d))
  {
    if Everywhere(I, AllOf(r, d)) {
      forall x, y | Rel(I, r, x, y) ensures Sat(I, d, y) { assert Sat(I, AllOf(r, d), x); }
    }
  }

  lemma {:induction false} TakeRulesMeans<E(!new)>(I: Interp<E>, rules: seq<ConceptRule>, kept: seq<ConceptRule>, roleRules: seq<RoleRule>)
    ensures var (k, r) := TakeRules(rules, kept, roleRules);
      ConceptRulesHold(I, k) && RoleRulesHold(I, r) <==>
      ConceptRulesHold(I, rules) && ConceptRulesHold(I, kept) && RoleRulesHold(I, roleRules)
    decreases rules
  {
    if rules != [] {
      assert rules == [rules[0]] + rules[1..];
      PushConcept(I, kept, rules[0]);
      match rules[0].conclusion
      case AllOf(r, d) =>
        PushRole(I, roleRules, RoleRule(r, Some(rules[0].trigger), d));
        GuardedMeans(I, rules[0].trigger, r, d);
        TakeRulesMeans(I, rules[1..], kept, roleRules + [RoleRule(r, Some(rules[0].trigger), d)]);
      case _ => TakeRulesMeans(I, rules[1..], kept + [rules[0]], roleRules);
    }
  }

  lemma {:induction false} TakeResidualsMeans<E(!new)>(I: Interp<E>, gcis: seq<Concept>, kept: seq<Concept>, roleRules: seq<RoleRule>)
    ensures var (k, r) := TakeResiduals(gcis, kept, roleRules);
      ResidualsHold(I, k) && RoleRulesHold(I, r) <==>
      ResidualsHold(I, gcis) && ResidualsHold(I, kept) && RoleRulesHold(I, roleRules)
    decreases gcis
  {
    if gcis != [] {
      assert gcis == [gcis[0]] + gcis[1..];
      PushResidual(I, kept, gcis[0]);
      match gcis[0]
      case AllOf(r, d) =>
        PushRole(I, roleRules, RoleRule(r, None, d));
        UnguardedMeans(I, r, d);
        TakeResidualsMeans(I, gcis[1..], kept, roleRules + [RoleRule(r, None, d)]);
      case _ => TakeResidualsMeans(I, gcis[1..], kept + [gcis[0]], roleRules);
    }
  }

  lemma FlipRel<E(!new)>(I: Interp<E>, r: Role, x: E, y: E)
    ensures Rel(I, r.Flip(), x, y) == Rel(I, r, y, x)
  {
  }

  lemma DomainTriggerSat<E(!new)>(I: Interp<E>, c: Concept, x: E)
    requires AsDomainTrigger(c).Some?
    ensures Sat(I, c, x) <==> forall y :: !Rel(I, AsDomainTrigger(c).value, x, y)
  {
    var r := AsDomainTrigger(c).value;
    if c.Max? { ZeroBound(I, r, Top, x); }
  }

  /** `≤0 r.f` holds where no `r`-successor is in `f`. */
  lemma ZeroBound<E(!new)>(I: Interp<E>, r: Role, f: Concept, x: E)
    ensures Sat(I, Max(0, r, f), x) <==> forall y :: !(Rel(I, r, x, y) && Sat(I, f, y))
  {
    if y :| Rel(I, r, x, y) && Sat(I, f, y) {
      assert |{y}| == 1 && AllSuccessors(I, {y}, r, f, x);
      assert HasSuccessors(I, 1, r, f, x);
    } else {
      forall s: set<E> ensures |s| == 1 ==> !AllSuccessors(I, s, r, f, x) {
        if y :| y in s { assert !(Rel(I, r, x, y) && Sat(I, f, y)); }
      }
    }
  }

  /** `⊤ ⊑ ¬∃R.⊤ ⊔ rest` is `rest` at the far end of every `R⁻`-edge. */
  lemma DomainRuleMeans<E(!new)>(I: Interp<E>, ord: Order, phi: Concept, i: nat)
    requires i < |Disjuncts(phi)| && AsDomainTrigger(Disjuncts(phi)[i]).Some?
    ensures Everywhere(I, phi) <==>
      RoleRuleHolds(I, RoleRule(AsDomainTrigger(Disjuncts(phi)[i]).value.Flip(), None, MkOr(ord, Without(Disjuncts(phi), i))))
  {
    var d := Disjuncts(phi)[i];
    var r, rest := AsDomainTrigger(d).value, MkOr(ord, Without(Disjuncts(phi), i));
    forall x ensures Sat(I, phi, x) <==> (forall y :: !Rel(I, r, x, y)) || Sat(I, rest, x) {
      OrWithout(I, ord, phi, i, x);
      DomainTriggerSat(I, d, x);
    }
    forall x, y ensures Rel(I, r.Flip(), y, x) == Rel(I, r, x, y) { FlipRel(I, r, y, x); }
    if RoleRuleHolds(I, RoleRule(r.Flip(), None, rest)) {
      forall x ensures Sat(I, phi, x) {
        if y :| Rel(I, r, x, y) { assert Rel(I, r.Flip(), y, x); }
      }
    }
    if Everywhere(I, phi) {
      forall y, x | Rel(I, r.Flip(), y, x) ensures Sat(I, rest, x) { assert Rel(I, r, x, y) && Sat(I, phi, x); }
    }
  }

  lemma {:induction false} DomainPassMeans<E(!new)>(I: Interp<E>, ord: Order, gcis: seq<Concept>, kept: seq<Concept>, roleRules: seq<RoleRule>)
    ensures var (k, r) := DomainPass(ord, gcis, kept, roleRules);
      ResidualsHold(I, k) && RoleRulesHold(I, r) <==>
      ResidualsHold(I, gcis) && ResidualsHold(I, kept) && RoleRulesHold(I, roleRules)
    decreases gcis
  {
    if gcis != [] {
      assert gcis == [gcis[0]] + gcis[1..];
      PushResidual(I, kept, gcis[0]);
      var found := FirstOf(AsDomainTrigger, Disjuncts(gcis[0]));
      if found.None? {
        DomainPassMeans(I, ord, gcis[1..], kept + [gcis[0]], roleRules);
      } else {
        var rule := RoleRule(found.value.1.Flip(), None, MkOr(ord, Without(Disjuncts(gcis[0]), found.value.0)));
        PushRole(I, roleRules, rule);
        DomainRuleMeans(I, ord, gcis[0], found.value.0);
        DomainPassMeans(I, ord, gcis[1..], kept, roleRules + [rule]);
      }
    }
  }

  lemma NominalTriggerSat<E(!new)>(I: Interp<E>, c: Concept, x: E)
    requires AsNominalExistsTrigger(c).Some?
    ensures Sat(I, c, x) <==> !Rel(I, AsNominalExistsTrigger(c).value.0, x, I.ind(AsNominalExistsTrigger(c).value.1))
  {
    var (r, i) := AsNominalExistsTrigger(c).value;
    if c.Max? {
      ZeroBound(I, r, Nominal(i), x);
    } else {
      assert c == AllOf(r, Not(Nominal(i)));
      forall y ensures Sat(I, Not(Nominal(i)), y) <==> y != I.ind(i) { assert Sat(I, Nominal(i), y) <==> y == I.ind(i); }
    }
  }

  /** `⊤ ⊑ ¬∃R.{a} ⊔ rest` is `{a} ⊑ ∀R⁻.rest`. */
  lemma NominalRuleMeans<E(!new)>(I: Interp<E>, ord: Order, phi: Concept, i: nat)
    requires i < |Disjuncts(phi)| && AsNominalExistsTrigger(Disjuncts(phi)[i]).Some?
    ensures var (r, a) := AsNominalExistsTrigger(Disjuncts(phi)[i]).value;
      Everywhere(I, phi) <==> NominalRuleHolds(I, NominalRule(a, AllOf(r.Flip(), MkOr(ord, Without(Disjuncts(phi), i)))))
  {
    var d := Disjuncts(phi)[i];
    var (r, a) := AsNominalExistsTrigger(d).value;
    var rest := MkOr(ord, Without(Disjuncts(phi), i));
    forall x ensures Sat(I, phi, x) <==> !Rel(I, r.Flip(), I.ind(a), x) || Sat(I, rest, x) {
      OrWithout(I, ord, phi, i, x);
      NominalTriggerSat(I, d, x);
      FlipRel(I, r, I.ind(a), x);
    }
  }

  lemma {:induction false} NominalPassMeans<E(!new)>(I: Interp<E>, ord: Order, gcis: seq<Concept>, kept: seq<Concept>, rules: seq<NominalRule>)
    ensures var (k, r) := NominalPass(ord, gcis, kept, rules);
      ResidualsHold(I, k) && NominalRulesHold(I, r) <==>
      ResidualsHold(I, gcis) && ResidualsHold(I, kept) && NominalRulesHold(I, rules)
    decreases gcis
  {
    if gcis != [] {
      assert gcis == [gcis[0]] + gcis[1..];
      PushResidual(I, kept, gcis[0]);
      var found := FirstOf(AsNominalExistsTrigger, Disjuncts(gcis[0]));
      if found.None? {
        NominalPassMeans(I, ord, gcis[1..], kept + [gcis[0]], rules);
      } else {
        var (r, a) := found.value.1;
        var rule := NominalRule(a, AllOf(r.Flip(), MkOr(ord, Without(Disjuncts(gcis[0]), found.value.0))));
        PushNominal(I, rules, rule);
        NominalRuleMeans(I, ord, gcis[0], found.value.0);
        NominalPassMeans(I, ord, gcis[1..], kept, rules + [rule]);
      }
    }
  }

  /** The second pass says what it was given, for every setting of the two flags. */
  lemma AbsorbRolesMeans<E(!new)>(I: Interp<E>, ord: Order, t: TBox, domain: bool, nominalExists: bool)
    ensures TBoxHolds(I, AbsorbRoles(ord, t, domain, nominalExists)) <==> TBoxHolds(I, t)
  {
    var (kept, rules) := TakeRules(t.conceptRules, [], t.roleRules);
    var (left, rules1) := TakeResiduals(t.residuals, [], rules);
    var (left1, rules2) := if domain then DomainPass(ord, left, [], rules1) else (left, rules1);
    TakeRulesMeans(I, t.conceptRules, [], t.roleRules);
    TakeResidualsMeans(I, t.residuals, [], rules);
    if domain { DomainPassMeans(I, ord, left, [], rules1); }
    if nominalExists { NominalPassMeans(I, ord, left1, [], t.nominalRules); }
  }

  /** Absorption is a logical identity: an interpretation satisfies the TBox axioms iff it satisfies
      every rule and residual, for every setting of the two flags. */
  lemma AbsorbExact<E(!new)>(I: Interp<E>, ord: Order, axioms: seq<Axiom>, domain: bool, nominalExists: bool)
    ensures TBoxHolds(I, Absorb(ord, axioms, domain, nominalExists)) <==> TBoxModels(I, axioms)
  {
    AllMeans(I, ord, EMPTY, axioms);
    AbsorbRolesMeans(I, ord, AbsorbAll(ord, EMPTY, axioms), domain, nominalExists);
  }

  // ----- normal form -----

  /** No disjunct is accepted by the recogniser. */
  ghost predicate Untriggered<T>(f: Concept -> Option<T>, phi: Concept) {
    forall d {:trigger f(d)} :: d in Disjuncts(phi) ==> f(d).None?
  }

  /** Nothing found means nothing accepted, and the other way round. */
  lemma FirstNone<T>(f: Concept -> Option<T>, phi: Concept)
    ensures Untriggered(f, phi) <==> FirstOf(f, Disjuncts(phi)).None?
  {
    var found := FirstOf(f, Disjuncts(phi));
    if found.Some? { assert Disjuncts(phi)[found.value.0] in Disjuncts(phi); }
  }

  lemma NoneTriggeredRest<T>(f: Concept -> Option<T>, gcis: seq<Concept>)
    requires gcis != [] && NoneTriggered(f, gcis)
    ensures FirstOf(f, Disjuncts(gcis[0])).None? && NoneTriggered(f, gcis[1..])
  {
    assert gcis[0] in gcis;
    FirstNone(f, gcis[0]);
    assert forall phi :: phi in gcis[1..] ==> phi in gcis;
  }

  ghost predicate NoneTriggered<T>(f: Concept -> Option<T>, gcis: seq<Concept>) {
    forall phi :: phi in gcis ==> Untriggered(f, phi)
  }

  lemma {:induction false} SubSupResiduals(ord: Order, t: TBox, sub: Concept, sup: Concept)
    requires NoneTriggered(AsTrigger, t.residuals)
    ensures NoneTriggered(AsTrigger, SubSup(ord, t, sub, sup).residuals)
    decreases sub, 1
  {
    if sub.Or? { EachResiduals(ord, t, sub.args, sup); }
  }

  lemma {:induction false} EachResiduals(ord: Order, t: TBox, subs: seq<Concept>, sup: Concept)
    requires NoneTriggered(AsTrigger, t.residuals)
    ensures NoneTriggered(AsTrigger, EachBelow(ord, t, subs, sup).residuals)
    decreases subs, 0
  {
    if subs != [] {
      SubSupResiduals(ord, t, subs[0], sup);
      EachResiduals(ord, SubSup(ord, t, subs[0], sup), subs[1..], sup);
    }
  }

  /** Filing a pair leaves no residual with a trigger. */
  ghost predicate FilesTriggered(f: Filing) {
    forall t: TBox, c, d {:trigger f(t, c, d)} :: NoneTriggered(AsTrigger, t.residuals) ==> NoneTriggered(AsTrigger, f(t, c, d).residuals)
  }

  lemma {:induction false} PairsResiduals(f: Filing, t: TBox, cs: seq<Concept>, i: nat, j: nat)
    requires FilesTriggered(f) && i <= |cs| && j <= |cs| && NoneTriggered(AsTrigger, t.residuals)
    ensures NoneTriggered(AsTrigger, PairsFrom(f, t, cs, i, j).residuals)
    decreases |cs| - i, |cs| - j
  {
    if i == |cs| {
    } else if j == |cs| {
      PairsResiduals(f, t, cs, i + 1, 0);
    } else {
      PairsResiduals(f, if i != j then f(t, cs[i], cs[j]) else t, cs, i, j + 1);
    }
  }

  lemma {:induction false} UpperResiduals(f: Filing, t: TBox, cs: seq<Concept>, i: nat, j: nat)
    requires FilesTriggered(f) && (i < j <= |cs| || (i == |cs| && j == |cs| + 1)) && NoneTriggered(AsTrigger, t.residuals)
    ensures NoneTriggered(AsTrigger, UpperFrom(f, t, cs, i, j).residuals)
    decreases |cs| - i, |cs| + 1 - j
  {
    if i == |cs| {
    } else if j == |cs| {
      UpperResiduals(f, t, cs, i + 1, i + 2);
    } else {
      UpperResiduals(f, f(t, cs[i], cs[j]), cs, i, j + 1);
    }
  }

  lemma FilesAll(ord: Order)
    ensures FilesTriggered(FileSub(ord)) && FilesTriggered(FileApart(ord))
  {
    forall t: TBox, c, d | NoneTriggered(AsTrigger, t.residuals)
      ensures NoneTriggered(AsTrigger, FileSub(ord)(t, c, d).residuals) && NoneTriggered(AsTrigger, FileApart(ord)(t, c, d).residuals)
    {
      SubSupResiduals(ord, t, c, d);
      SubSupResiduals(ord, t, c, ToNnf(ord, Not(d)));
    }
  }

  lemma OneResiduals(ord: Order, t: TBox, ax: Axiom)
    requires NoneTriggered(AsTrigger, t.residuals)
    ensures NoneTriggered(AsTrigger, AbsorbOne(ord, t, ax).residuals)
  {
    FilesAll(ord);
    match ax
    case SubClassOf(c, d) => SubSupResiduals(ord, t, c, d);
    case EquivalentClasses(cs) => PairsResiduals(FileSub(ord), t, cs, 0, 0);
    case DisjointClasses(cs) => UpperResiduals(FileApart(ord), t, cs, 0, 1);
    case DisjointUnion(a, cs) =>
      var union := MkOr(ord, cs);
      var t1 := SubSup(ord, t, Atomic(a), union);
      SubSupResiduals(ord, t, Atomic(a), union);
      SubSupResiduals(ord, t1, union, Atomic(a));
      UpperResiduals(FileApart(ord), SubSup(ord, t1, union, Atomic(a)), cs, 0, 1);
    case PropertyDomain(r, c) => SubSupResiduals(ord, t, SomeOf(r, Top), c);
    case PropertyRange(r, c) => RangeResiduals(t.residuals, r, c);
    case _ =>
  }

  lemma RangeResiduals(gcis: seq<Concept>, r: Role, c: Concept)
    requires NoneTriggered(AsTrigger, gcis)
    ensures NoneTriggered(AsTrigger, gcis + [AllOf(r, c)])
  {
  }

  lemma {:induction false} AllResiduals(ord: Order, t: TBox, axioms: seq<Axiom>)
    requires NoneTriggered(AsTrigger, t.residuals)
    ensures NoneTriggered(AsTrigger, AbsorbAll(ord, t, axioms).residuals)
    decreases axioms
  {
    if axioms != [] {
      OneResiduals(ord, t, axioms[0]);
      AllResiduals(ord, AbsorbOne(ord, t, axioms[0]), axioms[1..]);
    }
  }

  ghost predicate BareFree(gcis: seq<Concept>) {
    forall phi :: phi in gcis ==> !phi.AllOf?
  }

  ghost predicate Among(k: seq<Concept>, kept: seq<Concept>, gcis: seq<Concept>) {
    forall phi :: phi in k ==> phi in kept || phi in gcis
  }

  lemma AmongStep(k: seq<Concept>, kept: seq<Concept>, gcis: seq<Concept>)
    requires gcis != [] && (Among(k, kept, gcis[1..]) || Among(k, kept + [gcis[0]], gcis[1..]))
    ensures Among(k, kept, gcis)
  {
    assert gcis == [gcis[0]] + gcis[1..];
    forall phi | phi in k ensures phi in kept || phi in gcis {
      if phi !in kept && phi !in gcis[1..] { assert phi in kept + [gcis[0]]; }
    }
  }

  /** What a pass leaves is among what it was given, and nothing of it fits the pass. */
  lemma {:induction false} TakeResidualsLeft(gcis: seq<Concept>, kept: seq<Concept>, roleRules: seq<RoleRule>)
    ensures var k := TakeResiduals(gcis, kept, roleRules).0;
      Among(k, kept, gcis) && (BareFree(kept) ==> BareFree(k))
    decreases gcis
  {
    if gcis != [] {
      match gcis[0] {
        case AllOf(r, d) => TakeResidualsLeft(gcis[1..], kept, roleRules + [RoleRule(r, None, d)]);
        case _ => TakeResidualsLeft(gcis[1..], kept + [gcis[0]], roleRules);
      }
      AmongStep(TakeResiduals(gcis, kept, roleRules).0, kept, gcis);
    }
  }

  lemma {:induction false} DomainPassLeft(ord: Order, gcis: seq<Concept>, kept: seq<Concept>, roleRules: seq<RoleRule>)
    ensures var k := DomainPass(ord, gcis, kept, roleRules).0;
      Among(k, kept, gcis) &&
      (NoneTriggered(AsDomainTrigger, kept) ==> NoneTriggered(AsDomainTrigger, k))
    decreases gcis
  {
    if gcis != [] {
      var found := FirstOf(AsDomainTrigger, Disjuncts(gcis[0]));
      if found.None? {
        DomainPassLeft(ord, gcis[1..], kept + [gcis[0]], roleRules);
      } else {
        DomainPassLeft(ord, gcis[1..], kept,
          roleRules + [RoleRule(found.value.1.Flip(), None, MkOr(ord, Without(Disjuncts(gcis[0]), found.value.0)))]);
      }
      AmongStep(DomainPass(ord, gcis, kept, roleRules).0, kept, gcis);
    }
  }

  lemma {:induction false} NominalPassLeft(ord: Order, gcis: seq<Concept>, kept: seq<Concept>, rules: seq<NominalRule>)
    ensures var k := NominalPass(ord, gcis, kept, rules).0;
      Among(k, kept, gcis) &&
      (NoneTriggered(AsNominalExistsTrigger, kept) ==> NoneTriggered(AsNominalExistsTrigger, k))
    decreases gcis
  {
    if gcis != [] {
      var found := FirstOf(AsNominalExistsTrigger, Disjuncts(gcis[0]));
      if found.None? {
        NominalPassLeft(ord, gcis[1..], kept + [gcis[0]], rules);
      } else {
        var (r, a) := found.value.1;
        NominalPassLeft(ord, gcis[1..], kept,
          rules + [NominalRule(a, AllOf(r.Flip(), MkOr(ord, Without(Disjuncts(gcis[0]), found.value.0))))]);
      }
      AmongStep(NominalPass(ord, gcis, kept, rules).0, kept, gcis);
    }
  }

  lemma {:induction false} TakeRulesLeft(rules: seq<ConceptRule>, kept: seq<ConceptRule>, roleRules: seq<RoleRule>)
    requires forall r :: r in kept ==> !r.conclusion.AllOf?
    ensures forall r :: r in TakeRules(rules, kept, roleRules).0 ==> !r.conclusion.AllOf?
    decreases rules
  {
    if rules != [] {
      match rules[0].conclusion
      case AllOf(r, d) => TakeRulesLeft(rules[1..], kept, roleRules + [RoleRule(r, Some(rules[0].trigger), d)]);
      case _ => TakeRulesLeft(rules[1..], kept + [rules[0]], roleRules);
    }
  }

  /** A list no pass has anything to do with any more. */
  ghost predicate Settled(t: TBox, domain: bool, nominalExists: bool) {
    && (forall r :: r in t.conceptRules ==> !r.conclusion.AllOf?)
    && BareFree(t.residuals)
    && (domain ==> NoneTriggered(AsDomainTrigger, t.residuals))
    && (nominalExists ==> NoneTriggered(AsNominalExistsTrigger, t.residuals))
  }

  lemma AbsorbRolesSettles(ord: Order, t: TBox, domain: bool, nominalExists: bool)
    ensures var r := AbsorbRoles(ord, t, domain, nominalExists);
      Settled(r, domain, nominalExists) && forall phi :: phi in r.residuals ==> phi in t.residuals
  {
    var (kept, rules) := TakeRules(t.conceptRules, [], t.roleRules);
    var (left, rules1) := TakeResiduals(t.residuals, [], rules);
    var (left1, rules2) := if domain then DomainPass(ord, left, [], rules1) else (left, rules1);
    TakeRulesLeft(t.conceptRules, [], t.roleRules);
    TakeResidualsLeft(t.residuals, [], rules);
    if domain { DomainPassLeft(ord, left, [], rules1); }
    if nominalExists { NominalPassLeft(ord, left1, [], t.nominalRules); }
  }

  // ----- and which residuals stay, told from their shape -----

  ghost predicate IsDisjunct(d: Concept, phi: Concept) {
    if phi.Or? then d in phi.args else d == phi
  }

  /** `¬A` or `¬{a}`. */
  ghost predicate DeniesName(d: Concept) {
    d.Not? && (d.arg.Atomic? || d.arg.Nominal?)
  }

  /** `∀R.⊥` or `≤0 R.⊤`. */
  ghost predicate DeniesEdge(d: Concept) {
    (d.AllOf? && d.filler.Bot?) || (d.Max? && d.n == 0 && d.filler.Top?)
  }

  /** `∀R.¬{a}` or `≤0 R.{a}`. */
  ghost predicate DeniesEdgeTo(d: Concept) {
    (d.AllOf? && d.filler.Not? && d.filler.arg.Nominal?) || (d.Max? && d.n == 0 && d.filler.Nominal?)
  }

  ghost predicate HasName(phi: Concept) {
    exists d :: IsDisjunct(d, phi) && DeniesName(d)
  }

  ghost predicate HasEdge(phi: Concept) {
    exists d :: IsDisjunct(d, phi) && DeniesEdge(d)
  }

  ghost predicate HasEdgeTo(phi: Concept) {
    exists d :: IsDisjunct(d, phi) && DeniesEdgeTo(d)
  }

  /** The recognisers accept exactly these shapes. */
  lemma ShapesFound(phi: Concept)
    ensures FirstOf(AsTrigger, Disjuncts(phi)).Some? <==> HasName(phi)
    ensures FirstOf(AsDomainTrigger, Disjuncts(phi)).Some? <==> HasEdge(phi)
    ensures FirstOf(AsNominalExistsTrigger, Disjuncts(phi)).Some? <==> HasEdgeTo(phi)
  {
    FirstNone(AsTrigger, phi);
    FirstNone(AsDomainTrigger, phi);
    FirstNone(AsNominalExistsTrigger, phi);
    forall d ensures IsDisjunct(d, phi) <==> d in Disjuncts(phi) {}
    forall d ensures AsTrigger(d).Some? <==> DeniesName(d) {}
    forall d ensures AsDomainTrigger(d).Some? <==> DeniesEdge(d) {}
    forall d ensures AsNominalExistsTrigger(d).Some? <==> DeniesEdgeTo(d) {}
  }

  lemma {:induction false} TakeResidualsCount(gcis: seq<Concept>, kept: seq<Concept>, roleRules: seq<RoleRule>, phi: Concept)
    ensures multiset(TakeResiduals(gcis, kept, roleRules).0)[phi] == multiset(kept)[phi] + if phi.AllOf? then 0 else multiset(gcis)[phi]
    decreases gcis
  {
    if gcis != [] {
      assert gcis == [gcis[0]] + gcis[1..];
      match gcis[0]
      case AllOf(r, d) => TakeResidualsCount(gcis[1..], kept, roleRules + [RoleRule(r, None, d)], phi);
      case _ => TakeResidualsCount(gcis[1..], kept + [gcis[0]], roleRules, phi);
    }
  }

  lemma {:induction false} DomainPassCount(ord: Order, gcis: seq<Concept>, kept: seq<Concept>, roleRules: seq<RoleRule>, phi: Concept)
    ensures multiset(DomainPass(ord, gcis, kept, roleRules).0)[phi] == multiset(kept)[phi] + if HasEdge(phi) then 0 else multiset(gcis)[phi]
    decreases gcis
  {
    if gcis != [] {
      assert gcis == [gcis[0]] + gcis[1..];
      ShapesFound(gcis[0]);
      var found := FirstOf(AsDomainTrigger, Disjuncts(gcis[0]));
      if found.None? {
        DomainPassCount(ord, gcis[1..], kept + [gcis[0]], roleRules, phi);
      } else {
        DomainPassCount(ord, gcis[1..], kept,
          roleRules + [RoleRule(found.value.1.Flip(), None, MkOr(ord, Without(Disjuncts(gcis[0]), found.value.0)))], phi);
      }
    }
  }

  lemma {:induction false} NominalPassCount(ord: Order, gcis: seq<Concept>, kept: seq<Concept>, rules: seq<NominalRule>, phi: Concept)
    ensures multiset(NominalPass(ord, gcis, kept, rules).0)[phi] == multiset(kept)[phi] + if HasEdgeTo(phi) then 0 else multiset(gcis)[phi]
    decreases gcis
  {
    if gcis != [] {
      assert gcis == [gcis[0]] + gcis[1..];
      ShapesFound(gcis[0]);
      var found := FirstOf(AsNominalExistsTrigger, Disjuncts(gcis[0]));
      if found.None? {
        NominalPassSkip(ord, gcis, kept, rules);
        NominalPassCount(ord, gcis[1..], kept + [gcis[0]], rules, phi);
      } else {
        var (r, a) := found.value.1;
        NominalPassCount(ord, gcis[1..], kept,
          rules + [NominalRule(a, AllOf(r.Flip(), MkOr(ord, Without(Disjuncts(gcis[0]), found.value.0))))], phi);
      }
    }
  }

  /** What the second pass leaves, flag by flag: exactly the residuals that are no bare `∀`, without a
      disjunct `¬∃R.⊤` when domains are absorbed and without a disjunct `¬∃R.{a}` when those are, as
      often as they occur. */
  lemma ResidualsExact(ord: Order, t: TBox, domain: bool, nominalExists: bool, phi: Concept)
    ensures multiset(AbsorbRoles(ord, t, domain, nominalExists).residuals)[phi] ==
      if phi.AllOf? || (domain && HasEdge(phi)) || (nominalExists && HasEdgeTo(phi)) then 0 else multiset(t.residuals)[phi]
  {
    var (kept, rules) := TakeRules(t.conceptRules, [], t.roleRules);
    var (left, rules1) := TakeResiduals(t.residuals, [], rules);
    var (left1, rules2) := if domain then DomainPass(ord, left, [], rules1) else (left, rules1);
    TakeResidualsCount(t.residuals, [], rules, phi);
    if domain { DomainPassCount(ord, left, [], rules1, phi); }
    if nominalExists { NominalPassCount(ord, left1, [], t.nominalRules, phi); }
  }

  /** The normal form: no residual is a bare `∀` or has a disjunct that denies a name, none has one
      that denies an edge when domains are absorbed, none has one that denies an edge to an individual
      when those are, and no class rule concludes a `∀`. */
  lemma AbsorbNormalForm(ord: Order, axioms: seq<Axiom>, domain: bool, nominalExists: bool)
    ensures var t := Absorb(ord, axioms, domain, nominalExists);
      && (forall phi :: phi in t.residuals ==>
        !phi.AllOf? && !HasName(phi) && (domain ==> !HasEdge(phi)) && (nominalExists ==> !HasEdgeTo(phi)))
      && forall r :: r in t.conceptRules ==> !r.conclusion.AllOf?
  {
    var t0 := AbsorbAll(ord, EMPTY, axioms);
    AllResiduals(ord, EMPTY, axioms);
    AbsorbRolesSettles(ord, t0, domain, nominalExists);
    var t := Absorb(ord, axioms, domain, nominalExists);
    forall phi | phi in t.residuals
      ensures !phi.AllOf? && !HasName(phi) && (domain ==> !HasEdge(phi)) && (nominalExists ==> !HasEdgeTo(phi))
    {
      ResidualsExact(ord, t0, domain, nominalExists, phi);
      assert phi in t0.residuals && Untriggered(AsTrigger, phi);
      FirstNone(AsTrigger, phi);
      ShapesFound(phi);
    }
  }

  // ----- a second run changes nothing -----

  lemma ShiftOne<T>(kept: seq<T>, v: seq<T>)
    ensures if v == [] then kept + v == kept else kept + [v[0]] + v[1..] == kept + v
  {
  }

  lemma {:induction false} TakeRulesIdle(rules: seq<ConceptRule>, kept: seq<ConceptRule>, roleRules: seq<RoleRule>)
    requires forall r :: r in rules ==> !r.conclusion.AllOf?
    ensures TakeRules(rules, kept, roleRules) == (kept + rules, roleRules)
    decreases rules
  {
    if rules != [] {
      assert !rules[0].conclusion.AllOf?;
      TakeRulesIdle(rules[1..], kept + [rules[0]], roleRules);
      assert kept + [rules[0]] + rules[1..] == kept + rules;
    } else {
      assert kept + rules == kept;
    }
  }

  lemma {:induction false} TakeResidualsIdle(gcis: seq<Concept>, kept: seq<Concept>, roleRules: seq<RoleRule>)
    requires BareFree(gcis)
    ensures TakeResiduals(gcis, kept, roleRules) == (kept + gcis, roleRules)
    decreases gcis
  {
    if gcis != [] {
      assert !gcis[0].AllOf?;
      TakeResidualsIdle(gcis[1..], kept + [gcis[0]], roleRules);
      assert kept + [gcis[0]] + gcis[1..] == kept + gcis;
    } else {
      assert kept + gcis == kept;
    }
  }

  lemma {:induction false} DomainPassIdle(ord: Order, gcis: seq<Concept>, kept: seq<Concept>, roleRules: seq<RoleRule>)
    requires NoneTriggered(AsDomainTrigger, gcis)
    ensures DomainPass(ord, gcis, kept, roleRules) == (kept + gcis, roleRules)
    decreases gcis
  {
    if gcis != [] {
      NoneTriggeredRest(AsDomainTrigger, gcis);
      DomainPassIdle(ord, gcis[1..], kept + [gcis[0]], roleRules);
    }
    ShiftOne(kept, gcis);
  }

  lemma NominalPassSkip(ord: Order, gcis: seq<Concept>, kept: seq<Concept>, rules: seq<NominalRule>)
    requires gcis != [] && FirstOf(AsNominalExistsTrigger, Disjuncts(gcis[0])).None?
    ensures NominalPass(ord, gcis, kept, rules) == NominalPass(ord, gcis[1..], kept + [gcis[0]], rules)
  {
  }

  lemma {:induction false} NominalPassIdle(ord: Order, gcis: seq<Concept>, kept: seq<Concept>, rules: seq<NominalRule>)
    requires NoneTriggered(AsNominalExistsTrigger, gcis)
    ensures NominalPass(ord, gcis, kept, rules) == (kept + gcis, rules)
    decreases gcis
  {
    if gcis != [] {
      NoneTriggeredRest(AsNominalExistsTrigger, gcis);
      NominalPassSkip(ord, gcis, kept, rules);
      NominalPassIdle(ord, gcis[1..], kept + [gcis[0]], rules);
    }
    ShiftOne(kept, gcis);
  }

  /** A second run of the role pass with the same flags changes nothing, whatever the first was given. */
  lemma AbsorbRolesTwice(ord: Order, t: TBox, domain: bool, nominalExists: bool)
    ensures var r := AbsorbRoles(ord, t, domain, nominalExists);
      AbsorbRoles(ord, r, domain, nominalExists) == r
  {
    var r := AbsorbRoles(ord, t, domain, nominalExists);
    AbsorbRolesSettles(ord, t, domain, nominalExists);
    TakeRulesIdle(r.conceptRules, [], r.roleRules);
    TakeResidualsIdle(r.residuals, [], r.roleRules);
    if domain { DomainPassIdle(ord, r.residuals, [], r.roleRules); }
    if nominalExists { NominalPassIdle(ord, r.residuals, [], r.nominalRules); }
    assert [] + r.conceptRules == r.conceptRules && [] + r.residuals == r.residuals;
  }

  // ----- the deferred residuals -----

  lemma {:induction false} InsertMultiset(ord: Order, c: Concept, v: seq<Concept>)
    ensures multiset(Insert(ord, c, v)) == multiset(v) + multiset{c}
    decreases v
  {
    if v == [] {
    } else if ord(c) <= ord(v[0]) {
    } else {
      InsertMultiset(ord, c, v[1..]);
      assert v == [v[0]] + v[1..];
    }
  }

  lemma {:induction false} SortMultiset(ord: Order, v: seq<Concept>)
    ensures multiset(Sort(ord, v)) == multiset(v)
    decreases v
  {
    if v != [] {
      SortMultiset(ord, v[1..]);
      InsertMultiset(ord, v[0], Sort(ord, v[1..]));
      assert v == [v[0]] + v[1..];
    }
  }

  lemma {:induction false} OrsCount(gcis: seq<Concept>, c: Concept)
    ensures multiset(OrsOf(gcis))[c] == if c.Or? then multiset(gcis)[c] else 0
    decreases gcis
  {
    if gcis != [] {
      OrsCount(gcis[1..], c);
      assert gcis == [gcis[0]] + gcis[1..];
    }
  }

  /** The deferred residuals are exactly the unions among the residuals, as often as they occur, in
      intern order. */
  lemma DeferredExact(ord: Order, t: TBox, domain: bool, nominalExists: bool, c: Concept)
    ensures var r := AbsorbRoles(ord, t, domain, nominalExists);
      Sorted(ord, r.deferredOr) && multiset(r.deferredOr)[c] == if c.Or? then multiset(r.residuals)[c] else 0
  {
    var r := AbsorbRoles(ord, t, domain, nominalExists);
    SortMultiset(ord, OrsOf(r.residuals));
    OrsCount(r.residuals, c);
  }
}
