/** The absorbed TBox object: rule lists filled in place, and the dispatch indices over them. */
module AbsorbedTBoxObject {
  import opened Dl
  import opened Absorption

  // ----- what a linear scan of the lists yields -----

  function ConclusionsFor(rules: seq<ConceptRule>, c: ClassId): (r: seq<Concept>)
    ensures forall x :: x in r <==> ConceptRule(c, x) in rules
  {
    if rules == [] then []
    else
      var k := |rules| - 1;
      assert rules == rules[..k] + [rules[k]];
      ConclusionsFor(rules[..k], c) + if rules[k].trigger == c then [rules[k].conclusion] else []
  }

  function NominalConclusionsFor(rules: seq<NominalRule>, i: IndId): (r: seq<Concept>)
    ensures forall x :: x in r <==> NominalRule(i, x) in rules
  {
    if rules == [] then []
    else
      var k := |rules| - 1;
      assert rules == rules[..k] + [rules[k]];
      NominalConclusionsFor(rules[..k], i) + if rules[k].individual == i then [rules[k].conclusion] else []
  }

  /** The role rules with a given guard, or with none. */
  function GuardedBy(rules: seq<RoleRule>, guard: Option<ClassId>): (r: seq<RoleRule>)
    ensures forall x :: x in r <==> x in rules && x.guard == guard
  {
    if rules == [] then []
    else
      var k := |rules| - 1;
      assert rules == rules[..k] + [rules[k]];
      GuardedBy(rules[..k], guard) + if rules[k].guard == guard then [rules[k]] else []
  }

  // ----- the indices -----

  /** What dispatch on a key yields: its entry, or nothing. */
  function Lookup<K, V>(index: map<K, seq<V>>, key: K): seq<V> {
    if key in index then index[key] else []
  }

  function Append<K(!new), V>(index: map<K, seq<V>>, key: K, v: V): (r: map<K, seq<V>>)
    ensures forall k :: Lookup(r, k) == Lookup(index, k) + if k == key then [v] else []
    ensures r.Keys == index.Keys + {key}
  {
    index[key := Lookup(index, key) + [v]]
  }

  ghost predicate NoEmptyEntry<K, V>(index: map<K, seq<V>>) {
    forall k :: k in index ==> index[k] != []
  }

  class AbsorbedTBox {
    var conceptRules: seq<ConceptRule>
    var nominalRules: seq<NominalRule>
    var roleRules: seq<RoleRule>
    var residualGcis: seq<Concept>
    var deferredOrResiduals: seq<Concept>
    var conceptRulesByTrigger: map<ClassId, seq<Concept>>
    var nominalRulesByIndividual: map<IndId, seq<Concept>>
    var unguardedRoleRules: seq<RoleRule>
    var guardedRoleRulesByGuard: map<ClassId, seq<RoleRule>>

    ghost function St(): TBox
      reads this
    {
      TBox(conceptRules, nominalRules, roleRules, residualGcis, deferredOrResiduals)
    }

    /** Dispatch yields, for every trigger, individual and guard, what a linear scan yields. */
    ghost predicate Indexed()
      reads this
    {
      && (forall c :: Lookup(conceptRulesByTrigger, c) == ConclusionsFor(conceptRules, c))
      && (forall i :: Lookup(nominalRulesByIndividual, i) == NominalConclusionsFor(nominalRules, i))
      && unguardedRoleRules == GuardedBy(roleRules, None)
      && (forall g :: Lookup(guardedRoleRulesByGuard, g) == GuardedBy(roleRules, Some(g)))
      && NoEmptyEntry(conceptRulesByTrigger) && NoEmptyEntry(nominalRulesByIndividual) && NoEmptyEntry(guardedRoleRulesByGuard)
    }

    constructor ()
      ensures St() == EMPTY && Indexed()
    {
      conceptRules, nominalRules, roleRules, residualGcis, deferredOrResiduals := [], [], [], [], [];
      conceptRulesByTrigger, nominalRulesByIndividual, unguardedRoleRules, guardedRoleRulesByGuard := map[], map[], [], map[];
    }

    /** Rebuilds the indices from the lists, whatever they held before. */
    method Finalize()
      modifies this`conceptRulesByTrigger, this`nominalRulesByIndividual, this`unguardedRoleRules, this`guardedRoleRulesByGuard
      ensures Indexed()
    {
      IndexConcepts();
      IndexNominals();
      IndexRoles();
    }

    method IndexConcepts()
      modifies this`conceptRulesByTrigger
      ensures NoEmptyEntry(conceptRulesByTrigger)
      ensures forall c :: Lookup(conceptRulesByTrigger, c) == ConclusionsFor(conceptRules, c)
    {
      conceptRulesByTrigger := map[];
      for k := 0 to |conceptRules|
        invariant NoEmptyEntry(conceptRulesByTrigger)
        invariant forall c :: Lookup(conceptRulesByTrigger, c) == ConclusionsFor(conceptRules[..k], c)
      {
        assert conceptRules[..k + 1][..k] == conceptRules[..k];
        conceptRulesByTrigger := Append(conceptRulesByTrigger, conceptRules[k].trigger, conceptRules[k].conclusion);
      }
      assert conceptRules[..|conceptRules|] == conceptRules;
    }

    method IndexNominals()
      modifies this`nominalRulesByIndividual
      ensures NoEmptyEntry(nominalRulesByIndividual)
      ensures forall i :: Lookup(nominalRulesByIndividual, i) == NominalConclusionsFor(nominalRules, i)
    {
      nominalRulesByIndividual := map[];
      for k := 0 to |nominalRules|
        invariant NoEmptyEntry(nominalRulesByIndividual)
        invariant forall i :: Lookup(nominalRulesByIndividual, i) == NominalConclusionsFor(nominalRules[..k], i)
      {
        assert nominalRules[..k + 1][..k] == nominalRules[..k];
        nominalRulesByIndividual := Append(nominalRulesByIndividual, nominalRules[k].individual, nominalRules[k].conclusion);
      }
      assert nominalRules[..|nominalRules|] == nominalRules;
    }

    method IndexRoles()
      modifies this`unguardedRoleRules, this`guardedRoleRulesByGuard
      ensures NoEmptyEntry(guardedRoleRulesByGuard) && unguardedRoleRules == GuardedBy(roleRules, None)
      ensures forall g :: Lookup(guardedRoleRulesByGuard, g) == GuardedBy(roleRules, Some(g))
    {
      unguardedRoleRules, guardedRoleRulesByGuard := [], map[];
      for k := 0 to |roleRules|
        invariant NoEmptyEntry(guardedRoleRulesByGuard) && unguardedRoleRules == GuardedBy(roleRules[..k], None)
        invariant forall g :: Lookup(guardedRoleRulesByGuard, g) == GuardedBy(roleRules[..k], Some(g))
      {
        assert roleRules[..k + 1][..k] == roleRules[..k];
        match roleRules[k].guard
        case None => unguardedRoleRules := unguardedRoleRules + [roleRules[k]];
        case Some(g) => guardedRoleRulesByGuard := Append(guardedRoleRulesByGuard, g, roleRules[k]);
      }
      assert roleRules[..|roleRules|] == roleRules;
    }

    method AbsorbGci(ord: Order, phi: Concept)
      modifies this`conceptRules, this`nominalRules, this`residualGcis
      ensures St() == Gci(ord, old(St()), phi)
    {
      var ds := Disjuncts(phi);
      var i, chosen := 0, None;
      while i < |ds| && chosen.None?
        invariant i <= |ds|
        invariant chosen.None? ==> forall j :: 0 <= j < i ==> AsTrigger(ds[j]).None?
        invariant chosen.Some? ==> i < |ds| && AsTrigger(ds[i]) == chosen && forall j :: 0 <= j < i ==> AsTrigger(ds[j]).None?
        decreases |ds| - i, chosen.None?
      {
        chosen := AsTrigger(ds[i]);
        if chosen.None? {
          i := i + 1;
        }
      }
      FirstIs(AsTrigger, ds, i, chosen);
      if chosen.None? {
        residualGcis := residualGcis + [phi];
      } else {
        var conclusion := MkOr(ord, Without(ds, i));
        match chosen.value
        case ClassTrigger(a) => conceptRules := conceptRules + [ConceptRule(a, conclusion)];
        case IndividualTrigger(a) => nominalRules := nominalRules + [NominalRule(a, conclusion)];
      }
    }

    method AbsorbSubSup(ord: Order, sub: Concept, sup: Concept)
      modifies this`conceptRules, this`nominalRules, this`residualGcis
      ensures St() == SubSup(ord, old(St()), sub, sup)
      decreases sub
    {
      if sub.Or? {
        for k := 0 to |sub.args|
          invariant EachBelow(ord, old(St()), sub.args, sup) == EachBelow(ord, St(), sub.args[k..], sup)
        {
          AbsorbSubSup(ord, sub.args[k], sup);
          assert sub.args[k..][1..] == sub.args[k + 1..];
        }
      } else {
        AbsorbGci(ord, MkOr(ord, [ToNnf(ord, Not(sub)), sup]));
      }
    }

    method EmitPairwiseDisjoint(ord: Order, ids: seq<Concept>)
      modifies this`conceptRules, this`nominalRules, this`residualGcis
      ensures St() == UpperFrom(FileApart(ord), old(St()), ids, 0, 1)
    {
      if ids == [] {
        return;
      }
      for i := 0 to |ids|
        invariant UpperFrom(FileApart(ord), old(St()), ids, 0, 1) == UpperFrom(FileApart(ord), St(), ids, i, i + 1)
      {
        for j := i + 1 to |ids|
          invariant UpperFrom(FileApart(ord), old(St()), ids, 0, 1) == UpperFrom(FileApart(ord), St(), ids, i, j)
        {
          AbsorbSubSup(ord, ids[i], ToNnf(ord, Not(ids[j])));
        }
      }
    }

    method AbsorbEquivalent(ord: Order, ids: seq<Concept>)
      modifies this`conceptRules, this`nominalRules, this`residualGcis
      ensures St() == PairsFrom(FileSub(ord), old(St()), ids, 0, 0)
    {
      for i := 0 to |ids|
        invariant PairsFrom(FileSub(ord), old(St()), ids, 0, 0) == PairsFrom(FileSub(ord), St(), ids, i, 0)
      {
        for j := 0 to |ids|
          invariant PairsFrom(FileSub(ord), old(St()), ids, 0, 0) == PairsFrom(FileSub(ord), St(), ids, i, j)
        {
          if i != j {
            AbsorbSubSup(ord, ids[i], ids[j]);
          }
        }
      }
    }

    method AbsorbAxiom(ord: Order, ax: Axiom)
      modifies this`conceptRules, this`nominalRules, this`residualGcis
      ensures St() == AbsorbOne(ord, old(St()), ax)
    {
      match ax
      case SubClassOf(c, d) => AbsorbSubSup(ord, c, d);
      case EquivalentClasses(cs) => AbsorbEquivalent(ord, cs);
      case DisjointClasses(cs) => EmitPairwiseDisjoint(ord, cs);
      case DisjointUnion(a, cs) =>
        var union := MkOr(ord, cs);
        AbsorbSubSup(ord, Atomic(a), union);
        AbsorbSubSup(ord, union, Atomic(a));
        EmitPairwiseDisjoint(ord, cs);
      case PropertyDomain(r, c) => AbsorbSubSup(ord, SomeOf(r, Top), c);
      case PropertyRange(r, c) => residualGcis := residualGcis + [AllOf(r, c)];
      case _ =>
    }

    method TakeUniversalRules()
      modifies this`conceptRules, this`roleRules
      ensures (conceptRules, roleRules) == TakeRules(old(conceptRules), [], old(roleRules))
    {
      var taken, kept: seq<ConceptRule> := conceptRules, [];
      for k := 0 to |taken|
        invariant TakeRules(taken, [], old(roleRules)) == TakeRules(taken[k..], kept, roleRules)
      {
        assert taken[k..][1..] == taken[k + 1..];
        match taken[k].conclusion
        case AllOf(r, d) => roleRules := roleRules + [RoleRule(r, Some(taken[k].trigger), d)];
        case _ => kept := kept + [taken[k]];
      }
      conceptRules := kept;
    }

    method TakeUniversalResiduals()
      modifies this`residualGcis, this`roleRules
      ensures (residualGcis, roleRules) == TakeResiduals(old(residualGcis), [], old(roleRules))
    {
      var taken, kept: seq<Concept> := residualGcis, [];
      for k := 0 to |taken|
        invariant TakeResiduals(taken, [], old(roleRules)) == TakeResiduals(taken[k..], kept, roleRules)
      {
        assert taken[k..][1..] == taken[k + 1..];
        match taken[k]
        case AllOf(r, d) => roleRules := roleRules + [RoleRule(r, None, d)];
        case _ => kept := kept + [taken[k]];
      }
      residualGcis := kept;
    }

    method AbsorbDomainResiduals(ord: Order)
      modifies this`residualGcis, this`roleRules
      ensures (residualGcis, roleRules) == DomainPass(ord, old(residualGcis), [], old(roleRules))
    {
      var taken, kept: seq<Concept> := residualGcis, [];
      for k := 0 to |taken|
        invariant DomainPass(ord, taken, [], old(roleRules)) == DomainPass(ord, taken[k..], kept, roleRules)
      {
        assert taken[k..][1..] == taken[k + 1..];
        var found := FirstOf(AsDomainTrigger, Disjuncts(taken[k]));
        if found.None? {
          kept := kept + [taken[k]];
          continue;
        }
        var (pos, role) := found.value;
        roleRules := roleRules + [RoleRule(role.Flip(), None, MkOr(ord, Without(Disjuncts(taken[k]), pos)))];
      }
      residualGcis := kept;
    }

    method AbsorbNominalExistsResiduals(ord: Order)
      modifies this`residualGcis, this`nominalRules
      ensures (residualGcis, nominalRules) == NominalPass(ord, old(residualGcis), [], old(nominalRules))
    {
      var taken, kept: seq<Concept> := residualGcis, [];
      for k := 0 to |taken|
        invariant NominalPass(ord, taken, [], old(nominalRules)) == NominalPass(ord, taken[k..], kept, nominalRules)
      {
        assert taken[k..][1..] == taken[k + 1..];
        var found := FirstOf(AsNominalExistsTrigger, Disjuncts(taken[k]));
        if found.None? {
          kept := kept + [taken[k]];
          continue;
        }
        var (pos, hit) := found.value;
        nominalRules := nominalRules + [NominalRule(hit.1, AllOf(hit.0.Flip(), MkOr(ord, Without(Disjuncts(taken[k]), pos))))];
      }
      residualGcis := kept;
    }

    /** The second pass, which also brings the indices up to date. */
    method RewriteRoles(ord: Order, domain: bool, nominalExists: bool)
      modifies this
      ensures St() == AbsorbRoles(ord, old(St()), domain, nominalExists) && Indexed()
    {
      TakeUniversalRules();
      TakeUniversalResiduals();
      if domain {
        AbsorbDomainResiduals(ord);
      }
      if nominalExists {
        AbsorbNominalExistsResiduals(ord);
      }
      deferredOrResiduals := Sort(ord, OrsOf(residualGcis));
      Finalize();
    }
  }

  lemma {:induction false} FirstIs<T>(f: Concept -> Option<T>, ds: seq<Concept>, i: nat, chosen: Option<T>)
    requires i <= |ds| && (forall j :: 0 <= j < i ==> f(ds[j]).None?)
    requires if chosen.Some? then i < |ds| && f(ds[i]) == chosen else i == |ds|
    ensures FirstOf(f, ds) == if chosen.Some? then Some((i, chosen.value)) else None
    decreases ds
  {
    if ds != [] && i > 0 {
      forall j | 0 <= j < i - 1 ensures f(ds[1..][j]).None? { assert f(ds[j + 1]).None?; }
      FirstIs(f, ds[1..], i - 1, chosen);
    }
  }

  /** Absorption as a whole. */
  method AbsorbOntology(ord: Order, axioms: seq<Axiom>, domain: bool, nominalExists: bool) returns (tbox: AbsorbedTBox)
    ensures fresh(tbox) && tbox.St() == Absorb(ord, axioms, domain, nominalExists) && tbox.Indexed()
  {
    tbox := new AbsorbedTBox();
    for k := 0 to |axioms|
      invariant AbsorbAll(ord, EMPTY, axioms) == AbsorbAll(ord, tbox.St(), axioms[k..])
    {
      assert axioms[k..][1..] == axioms[k + 1..];
      tbox.AbsorbAxiom(ord, axioms[k]);
    }
    tbox.RewriteRoles(ord, domain, nominalExists);
  }
}
