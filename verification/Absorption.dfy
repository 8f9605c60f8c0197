/** Absorption: axioms become triggered rules and residuals, as functions on values. */
module Absorption {
  import opened Dl

  datatype ConceptRule = ConceptRule(trigger: ClassId, conclusion: Concept)

  datatype NominalRule = NominalRule(individual: IndId, conclusion: Concept)

  datatype RoleRule = RoleRule(role: Role, guard: Option<ClassId>, target: Concept)

  datatype TBox = TBox(
    conceptRules: seq<ConceptRule>,
    nominalRules: seq<NominalRule>,
    roleRules: seq<RoleRule>,
    residuals: seq<Concept>,
    deferredOr: seq<Concept>)

  const EMPTY := TBox([], [], [], [], [])

  // ----- recognisers -----

  datatype Trigger = ClassTrigger(cls: ClassId) | IndividualTrigger(ind: IndId)

  /** A disjunct that is the complement of a class or of an individual. */
  function AsTrigger(c: Concept): Option<Trigger> {
    match c
    case Not(Atomic(a)) => Some(ClassTrigger(a))
    case Not(Nominal(i)) => Some(IndividualTrigger(i))
    case _ => None
  }

  /** A disjunct that is the complement of `∃R.⊤`. */
  function AsDomainTrigger(c: Concept): Option<Role> {
    match c
    case Max(n, r, f) => if n == 0 && f.Top? then Some(r) else None
    case AllOf(r, f) => if f.Bot? then Some(r) else None
    case _ => None
  }

  /** A disjunct that is the complement of `∃R.{a}`. */
  function AsNominalExistsTrigger(c: Concept): Option<(Role, IndId)> {
    match c
    case AllOf(r, Not(Nominal(i))) => Some((r, i))
    case Max(n, r, f) => if n == 0 && f.Nominal? then Some((r, f.ind)) else None
    case _ => None
  }

  function Disjuncts(phi: Concept): seq<Concept> {
    if phi.Or? then phi.args else [phi]
  }

  /** The first disjunct a recogniser accepts, and what it makes of it. */
  function FirstOf<T>(f: Concept -> Option<T>, ds: seq<Concept>): (r: Option<(nat, T)>)
    ensures r.Some? ==> r.value.0 < |ds| && f(ds[r.value.0]) == Some(r.value.1) && forall j :: 0 <= j < r.value.0 ==> f(ds[j]).None?
    ensures r.None? ==> forall d :: d in ds ==> f(d).None?
  {
    if ds == [] then None
    else if f(ds[0]).Some? then Some((0, f(ds[0]).value))
    else
      var rest := FirstOf(f, ds[1..]);
      if rest.None? then None else Some((rest.value.0 + 1, rest.value.1))
  }

  function Without(ds: seq<Concept>, i: nat): seq<Concept>
    requires i < |ds|
  {
    ds[..i] + ds[i + 1..]
  }

  // ----- axioms -----

  /** Files `⊤ ⊑ phi` under its first trigger, or with the residuals. */
  function Gci(ord: Order, t: TBox, phi: Concept): TBox {
    var ds := Disjuncts(phi);
    var found := FirstOf(AsTrigger, ds);
    if found.None? then t.(residuals := t.residuals + [phi])
    else
      var conclusion := MkOr(ord, Without(ds, found.value.0));
      match found.value.1
      case ClassTrigger(a) => t.(conceptRules := t.conceptRules + [ConceptRule(a, conclusion)])
      case IndividualTrigger(i) => t.(nominalRules := t.nominalRules + [NominalRule(i, conclusion)])
  }

  /** `sub ⊑ sup`, a union on the left taken apart first. */
  function SubSup(ord: Order, t: TBox, sub: Concept, sup: Concept): TBox
    decreases sub, 1
  {
    if sub.Or? then EachBelow(ord, t, sub.args, sup)
    else Gci(ord, t, MkOr(ord, [ToNnf(ord, Not(sub)), sup]))
  }

  function EachBelow(ord: Order, t: TBox, subs: seq<Concept>, sup: Concept): TBox
    decreases subs, 0
  {
    if subs == [] then t else EachBelow(ord, SubSup(ord, t, subs[0], sup), subs[1..], sup)
  }

  /** Files what a pair of concepts says. */
  type Filing = (TBox, Concept, Concept) -> TBox

  function FileSub(ord: Order): Filing {
    (t, c, d) => SubSup(ord, t, c, d)
  }

  function FileApart(ord: Order): Filing {
    (t, c, d) => SubSup(ord, t, c, ToNnf(ord, Not(d)))
  }

  /** Every ordered pair of distinct positions from `(i, j)` on. */
  function PairsFrom(f: Filing, t: TBox, cs: seq<Concept>, i: nat, j: nat): TBox
    requires i <= |cs| && j <= |cs|
    decreases |cs| - i, |cs| - j
  {
    if i == |cs| then t
    else if j == |cs| then PairsFrom(f, t, cs, i + 1, 0)
    else PairsFrom(f, if i != j then f(t, cs[i], cs[j]) else t, cs, i, j + 1)
  }

  /** Every pair of positions `i < j` from `(i, j)` on. */
  function UpperFrom(f: Filing, t: TBox, cs: seq<Concept>, i: nat, j: nat): TBox
    requires i < j <= |cs| || (i == |cs| && j == |cs| + 1)
    decreases |cs| - i, |cs| + 1 - j
  {
    if i == |cs| then t
    else if j == |cs| then UpperFrom(f, t, cs, i + 1, i + 2)
    else UpperFrom(f, f(t, cs[i], cs[j]), cs, i, j + 1)
  }

  function AbsorbOne(ord: Order, t: TBox, ax: Axiom): TBox {
    match ax
    case SubClassOf(c, d) => SubSup(ord, t, c, d)
    case EquivalentClasses(cs) => PairsFrom(FileSub(ord), t, cs, 0, 0)
    case DisjointClasses(cs) => UpperFrom(FileApart(ord), t, cs, 0, 1)
    case DisjointUnion(a, cs) =>
      var union := MkOr(ord, cs);
      UpperFrom(FileApart(ord), SubSup(ord, SubSup(ord, t, Atomic(a), union), union, Atomic(a)), cs, 0, 1)
    case PropertyDomain(r, c) => SubSup(ord, t, SomeOf(r, Top), c)
    case PropertyRange(r, c) => t.(residuals := t.residuals + [AllOf(r, c)])
    case _ => t
  }

  function AbsorbAll(ord: Order, t: TBox, axioms: seq<Axiom>): TBox
    decreases axioms
  {
    if axioms == [] then t else AbsorbAll(ord, AbsorbOne(ord, t, axioms[0]), axioms[1..])
  }

  // ----- the rewriting passes -----

  /** Concept rules left after those concluding `∀R.D` became guarded role rules. */
  function TakeRules(rules: seq<ConceptRule>, kept: seq<ConceptRule>, roleRules: seq<RoleRule>): (seq<ConceptRule>, seq<RoleRule>)
    decreases rules
  {
    if rules == [] then (kept, roleRules)
    else match rules[0].conclusion
      case AllOf(r, d) => TakeRules(rules[1..], kept, roleRules + [RoleRule(r, Some(rules[0].trigger), d)])
      case _ => TakeRules(rules[1..], kept + [rules[0]], roleRules)
  }

  /** Residuals left after the bare `∀R.D` became unguarded role rules. */
  function TakeResiduals(gcis: seq<Concept>, kept: seq<Concept>, roleRules: seq<RoleRule>): (seq<Concept>, seq<RoleRule>)
    decreases gcis
  {
    if gcis == [] then (kept, roleRules)
    else match gcis[0]
      case AllOf(r, d) => TakeResiduals(gcis[1..], kept, roleRules + [RoleRule(r, None, d)])
      case _ => TakeResiduals(gcis[1..], kept + [gcis[0]], roleRules)
  }

  /** Residuals left after those with antecedent `∃R.⊤` became role rules against the edge. */
  function DomainPass(ord: Order, gcis: seq<Concept>, kept: seq<Concept>, roleRules: seq<RoleRule>): (seq<Concept>, seq<RoleRule>)
    decreases gcis
  {
    if gcis == [] then (kept, roleRules)
    else
      var found := FirstOf(AsDomainTrigger, Disjuncts(gcis[0]));
      if found.None? then DomainPass(ord, gcis[1..], kept + [gcis[0]], roleRules)
      else
        var rest := MkOr(ord, Without(Disjuncts(gcis[0]), found.value.0));
        DomainPass(ord, gcis[1..], kept, roleRules + [RoleRule(found.value.1.Flip(), None, rest)])
  }

  /** Residuals left after those with antecedent `∃R.{a}` became nominal rules. */
  function NominalPass(ord: Order, gcis: seq<Concept>, kept: seq<Concept>, rules: seq<NominalRule>): (seq<Concept>, seq<NominalRule>)
    decreases gcis
  {
    if gcis == [] then (kept, rules)
    else
      var found := FirstOf(AsNominalExistsTrigger, Disjuncts(gcis[0]));
      if found.None? then NominalPass(ord, gcis[1..], kept + [gcis[0]], rules)
      else
        var rest := MkOr(ord, Without(Disjuncts(gcis[0]), found.value.0));
        var (r, i) := found.value.1;
        NominalPass(ord, gcis[1..], kept, rules + [NominalRule(i, AllOf(r.Flip(), rest))])
  }

  function OrsOf(gcis: seq<Concept>): (r: seq<Concept>)
    ensures forall c :: c in r <==> c in gcis && c.Or?
  {
    if gcis == [] then [] else (if gcis[0].Or? then [gcis[0]] else []) + OrsOf(gcis[1..])
  }

  /** The second pass: `∀` rewriting, then the two flagged passes, then the deferred split. */
  function AbsorbRoles(ord: Order, t: TBox, domain: bool, nominalExists: bool): TBox {
    var (kept, rules) := TakeRules(t.conceptRules, [], t.roleRules);
    var (left, rules1) := TakeResiduals(t.residuals, [], rules);
    var (left1, rules2) := if domain then DomainPass(ord, left, [], rules1) else (left, rules1);
    var (left2, nominals) := if nominalExists then NominalPass(ord, left1, [], t.nominalRules) else (left1, t.nominalRules);
    TBox(kept, nominals, rules2, left2, Sort(ord, OrsOf(left2)))
  }

  function Absorb(ord: Order, axioms: seq<Axiom>, domain: bool, nominalExists: bool): TBox {
    AbsorbRoles(ord, AbsorbAll(ord, EMPTY, axioms), domain, nominalExists)
  }

  // ----- meaning -----

  ghost predicate ConceptRuleHolds<E(!new)>(I: Interp<E>, r: ConceptRule) {
    forall x :: I.cls(r.trigger, x) ==> Sat(I, r.conclusion, x)
  }

  ghost predicate NominalRuleHolds<E(!new)>(I: Interp<E>, r: NominalRule) {
    Sat(I, r.conclusion, I.ind(r.individual))
  }

  ghost predicate RoleRuleHolds<E(!new)>(I: Interp<E>, r: RoleRule) {
    forall x, y :: Rel(I, r.role, x, y) && (r.guard.Some? ==> I.cls(r.guard.value, x)) ==> Sat(I, r.target, y)
  }

  ghost predicate Everywhere<E(!new)>(I: Interp<E>, phi: Concept) {
    forall x :: Sat(I, phi, x)
  }

  ghost predicate ConceptRulesHold<E(!new)>(I: Interp<E>, rules: seq<ConceptRule>) {
    forall r :: r in rules ==> ConceptRuleHolds(I, r)
  }

  ghost predicate NominalRulesHold<E(!new)>(I: Interp<E>, rules: seq<NominalRule>) {
    forall r :: r in rules ==> NominalRuleHolds(I, r)
  }

  ghost predicate RoleRulesHold<E(!new)>(I: Interp<E>, rules: seq<RoleRule>) {
    forall r :: r in rules ==> RoleRuleHolds(I, r)
  }

  ghost predicate ResidualsHold<E(!new)>(I: Interp<E>, gcis: seq<Concept>) {
    forall phi :: phi in gcis ==> Everywhere(I, phi)
  }

  ghost predicate TBoxHolds<E(!new)>(I: Interp<E>, t: TBox) {
    && ConceptRulesHold(I, t.conceptRules) && NominalRulesHold(I, t.nominalRules)
    && RoleRulesHold(I, t.roleRules) && ResidualsHold(I, t.residuals)
  }

  /** The axioms absorption is about; the others reach the reasoner by other routes. */
  predicate IsTBoxAxiom(ax: Axiom) {
    ax.SubClassOf? || ax.EquivalentClasses? || ax.DisjointClasses? || ax.DisjointUnion? || ax.PropertyDomain? || ax.PropertyRange?
  }

  ghost predicate TBoxModels<E(!new)>(I: Interp<E>, axioms: seq<Axiom>) {
    forall ax :: ax in axioms && IsTBoxAxiom(ax) ==> Holds(I, ax)
  }
}
