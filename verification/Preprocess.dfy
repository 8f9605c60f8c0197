/** The two preprocessing passes, which append entailed axioms found through the told tables. */
module Preprocess {
  import opened Dl
  import opened Graphs
  import opened ToldTables

  // ----- lists -----

  /** The lists `f` makes of the members, one after the other. */
  function FlatMap<A, B>(f: A -> seq<B>, xs: seq<A>): seq<B> {
    if xs == [] then [] else FlatMap(f, xs[..|xs| - 1]) + f(xs[|xs| - 1])
  }

  lemma {:induction false} SourceOf<A, B>(f: A -> seq<B>, xs: seq<A>, y: B) returns (x: A)
    requires y in FlatMap(f, xs)
    ensures x in xs && y in f(x)
    decreases |xs|
  {
    var k := |xs| - 1;
    if y in f(xs[k]) {
      x := xs[k];
    } else {
      x := SourceOf(f, xs[..k], y);
    }
  }

  /** The same over the ordered pairs of distinct positions from `(i, j)` on, after `acc`. */
  function PairMap<A, B>(f: (A, A) -> seq<B>, xs: seq<A>, i: nat, j: nat, acc: seq<B>): seq<B>
    requires i <= |xs| && j <= |xs|
    decreases |xs| - i, |xs| - j
  {
    if i == |xs| then acc
    else if j == |xs| then PairMap(f, xs, i + 1, 0, acc)
    else PairMap(f, xs, i, j + 1, if i != j then acc + f(xs[i], xs[j]) else acc)
  }

  lemma {:induction false} PairSource<A, B>(f: (A, A) -> seq<B>, xs: seq<A>, i: nat, j: nat, acc: seq<B>, y: B) returns (a: nat, b: nat)
    requires i <= |xs| && j <= |xs| && y in PairMap(f, xs, i, j, acc) && y !in acc
    ensures a < |xs| && b < |xs| && a != b && y in f(xs[a], xs[b])
    decreases |xs| - i, |xs| - j
  {
    if j == |xs| {
      a, b := PairSource(f, xs, i + 1, 0, acc, y);
    } else if i != j && y in f(xs[i], xs[j]) {
      a, b := i, j;
    } else {
      a, b := PairSource(f, xs, i, j + 1, if i != j then acc + f(xs[i], xs[j]) else acc, y);
    }
  }

  lemma FlatMapStep<A, B>(f: A -> seq<B>, xs: seq<A>, k: nat)
    requires k < |xs|
    ensures FlatMap(f, xs[..k + 1]) == FlatMap(f, xs[..k]) + f(xs[k])
  {
    assert xs[..k + 1][..k] == xs[..k];
  }

  lemma FlatMapWhole<A, B>(f: A -> seq<B>, xs: seq<A>)
    ensures FlatMap(f, xs[..|xs|]) == FlatMap(f, xs)
  {
    assert xs[..|xs|] == xs;
  }

  // ----- reading the tables -----

  function Row(rows: seq<seq<ClassId>>, c: ClassId): seq<ClassId> {
    if c < |rows| then rows[c] else []
  }

  predicate IsToldSub(t: Told, sub: ClassId, sup: ClassId) {
    sup in Row(t.supers, sub)
  }

  predicate AreToldDisjoint(t: Told, a: ClassId, b: ClassId) {
    b in Row(t.disjoint, a)
  }

  // ----- minimal common subsumers -----

  function Retain(v: seq<ClassId>, keep: seq<ClassId>): (r: seq<ClassId>)
    ensures forall c :: c in r <==> c in v && c in keep
  {
    if v == [] then [] else (if v[0] in keep then [v[0]] else []) + Retain(v[1..], keep)
  }

  /** The classes of `common` told above every one of `atoms`. */
  function CommonFrom(t: Told, atoms: seq<ClassId>, common: seq<ClassId>): (r: seq<ClassId>)
    ensures forall c: ClassId :: c in r <==> c in common && BelowAll(t, atoms, c)
  {
    if atoms == [] then common
    else
      assert atoms == [atoms[0]] + atoms[1..];
      var kept := Retain(common, Row(t.supers, atoms[0]));
      assert forall c: ClassId :: c in kept <==> c in common && IsToldSub(t, atoms[0], c);
      assert forall c: ClassId :: BelowAll(t, atoms, c) <==> IsToldSub(t, atoms[0], c) && BelowAll(t, atoms[1..], c);
      assert kept == [] ==> forall c: ClassId :: c !in kept;
      if kept == [] then [] else CommonFrom(t, atoms[1..], kept)
  }

  predicate BelowAll(t: Told, atoms: seq<ClassId>, c: ClassId) {
    forall a :: a in atoms ==> IsToldSub(t, a, c)
  }

  /** No other common class is strictly told-below `c`. */
  predicate IsMinimal(t: Told, common: seq<ClassId>, c: ClassId) {
    !exists other :: other in common && other != c && IsToldSub(t, other, c) && !IsToldSub(t, c, other)
  }

  function Minimal(t: Told, common: seq<ClassId>, from: seq<ClassId>): (r: seq<ClassId>)
    ensures forall c :: c in r <==> c in from && IsMinimal(t, common, c)
  {
    if from == [] then []
    else (if IsMinimal(t, common, from[0]) then [from[0]] else []) + Minimal(t, common, from[1..])
  }

  predicate AllAtomic(cs: seq<Concept>) {
    forall c :: c in cs ==> c.Atomic?
  }

  function AtomsOf(cs: seq<Concept>): (r: seq<ClassId>)
    requires AllAtomic(cs)
    ensures |r| == |cs| && forall k :: 0 <= k < |cs| ==> cs[k] == Atomic(r[k])
  {
    if cs == [] then []
    else
      assert cs[0] in cs;
      [cs[0].cls] + AtomsOf(cs[1..])
  }

  function MinimalCommon(t: Told, body: Concept): seq<ClassId> {
    if !body.Or? || !AllAtomic(body.args) || |body.args| < 2 then []
    else
      var atoms := AtomsOf(body.args);
      var common := CommonFrom(t, atoms[1..], Row(t.supers, atoms[0]));
      Minimal(t, common, common)
  }

  /** The intersection narrowed one disjunct at a time, then filtered. */
  method MinimalCommonSubsumers(body: Concept, t: Told) returns (r: seq<ClassId>)
    ensures r == MinimalCommon(t, body)
  {
    if !body.Or? || !AllAtomic(body.args) || |body.args| < 2 {
      return [];
    }
    var atoms := AtomsOf(body.args);
    var common := Row(t.supers, atoms[0]);
    for k := 1 to |atoms|
      invariant CommonFrom(t, atoms[1..], Row(t.supers, atoms[0])) == CommonFrom(t, atoms[k..], common)
    {
      common := Retain(common, Row(t.supers, atoms[k]));
      assert atoms[k..][1..] == atoms[k + 1..];
      if common == [] {
        return [];
      }
    }
    r := Minimal(t, common, common);
  }

  /** `c` is told above every disjunct. */
  ghost predicate IsCommon(axioms: seq<Axiom>, disjuncts: seq<Concept>, c: ClassId) {
    forall d :: d in disjuncts && d.Atomic? ==> Reaches(ToldEdges(axioms), d.cls, c)
  }

  ghost predicate AtomsBelow(n: nat, cs: seq<Concept>) {
    forall c :: c in cs && c.Atomic? ==> c.cls < n
  }

  lemma ToldSubIs(n: nat, axioms: seq<Axiom>, t: Told, a: ClassId, b: ClassId)
    requires IsTold(n, axioms, t) && a < n
    ensures IsToldSub(t, a, b) <==> Reaches(ToldEdges(axioms), a, b)
  {
    assert RowIs(ToldEdges(axioms), a, t.supers[a]);
  }

  lemma ToldBelow(n: nat, axioms: seq<Axiom>, a: ClassId, b: ClassId)
    requires EdgesBelow(n, axioms) && a < n && Reaches(ToldEdges(axioms), a, b)
    ensures b < n
  {
    ClosedReaches(ToldEdges(axioms), IdsBelow(n), a, b);
  }

  lemma CommonIs(n: nat, axioms: seq<Axiom>, t: Told, body: Concept, c: ClassId)
    requires IsTold(n, axioms, t) && body.Or? && AllAtomic(body.args) && |body.args| >= 2 && AtomsBelow(n, body.args)
    ensures var atoms := AtomsOf(body.args);
      c in CommonFrom(t, atoms[1..], Row(t.supers, atoms[0])) <==> IsCommon(axioms, body.args, c)
  {
    var atoms := AtomsOf(body.args);
    assert atoms == [atoms[0]] + atoms[1..];
    forall k | 0 <= k < |atoms| ensures IsToldSub(t, atoms[k], c) <==> Reaches(ToldEdges(axioms), atoms[k], c) {
      assert body.args[k] in body.args;
      ToldSubIs(n, axioms, t, atoms[k], c);
    }
    if BelowAll(t, atoms, c) {
      forall d | d in body.args ensures Reaches(ToldEdges(axioms), d.cls, c) {
        var k :| 0 <= k < |atoms| && body.args[k] == d;
        assert atoms[k] in atoms;
      }
    }
    if IsCommon(axioms, body.args, c) {
      forall a | a in atoms ensures IsToldSub(t, a, c) {
        var k :| 0 <= k < |atoms| && atoms[k] == a;
        assert body.args[k] in body.args;
      }
    }
  }

  // ----- covering -----

  ghost function StrictlyBelow(t: Told, common: seq<ClassId>, o: ClassId): set<ClassId> {
    set x | x in common && IsToldSub(t, x, o) && !IsToldSub(t, o, x)
  }

  ghost predicate Preorder(t: Told, common: seq<ClassId>) {
    && (forall x :: x in common ==> IsToldSub(t, x, x))
    && (forall x, y, z :: x in common && y in common && z in common && IsToldSub(t, x, y) && IsToldSub(t, y, z) ==> IsToldSub(t, x, z))
  }

  /** Below every common class there is a minimal one, through equivalence cycles or not. */
  lemma {:induction false} Descend(t: Told, common: seq<ClassId>, o: ClassId) returns (c: ClassId)
    requires Preorder(t, common) && o in common
    ensures c in common && IsMinimal(t, common, c) && IsToldSub(t, c, o)
    decreases |StrictlyBelow(t, common, o)|
  {
    if IsMinimal(t, common, o) {
      c := o;
    } else {
      var other :| other in common && other != o && IsToldSub(t, other, o) && !IsToldSub(t, o, other);
      assert StrictlyBelow(t, common, other) <= StrictlyBelow(t, common, o) - {other};
      Smaller(StrictlyBelow(t, common, other), StrictlyBelow(t, common, o), other);
      c := Descend(t, common, other);
    }
  }

  lemma Smaller<T>(a: set<T>, b: set<T>, x: T)
    requires a <= b - {x} && x in b
    ensures |a| < |b|
  {
    assert b - {x} == a + (b - {x} - a);
  }

  lemma CommonPreorder(n: nat, axioms: seq<Axiom>, t: Told, common: seq<ClassId>)
    requires IsTold(n, axioms, t) && forall c :: c in common ==> c < n
    ensures Preorder(t, common)
  {
    forall x | x in common ensures IsToldSub(t, x, x) {
      ReachesSelf(ToldEdges(axioms), x);
      ToldSubIs(n, axioms, t, x, x);
    }
    forall x, y, z | x in common && y in common && z in common && IsToldSub(t, x, y) && IsToldSub(t, y, z)
      ensures IsToldSub(t, x, z)
    {
      ToldSubIs(n, axioms, t, x, y);
      ToldSubIs(n, axioms, t, y, z);
      ToldSubIs(n, axioms, t, x, z);
      ReachesTrans(ToldEdges(axioms), x, y, z);
    }
  }

  /** The result covers the common subsumers: each returned class is common with no common class
      strictly below it, and every common class lies above a returned one, so the result is non-empty
      as soon as there is a common class. */
  lemma MinimalCommonCovers(n: nat, axioms: seq<Axiom>, t: Told, body: Concept)
    requires EdgesBelow(n, axioms) && IsTold(n, axioms, t)
    requires body.Or? && AllAtomic(body.args) && |body.args| >= 2 && AtomsBelow(n, body.args)
    ensures forall c :: c in MinimalCommon(t, body) ==> IsCommon(axioms, body.args, c)
    ensures forall c, o :: c in MinimalCommon(t, body) && IsCommon(axioms, body.args, o) && Reaches(ToldEdges(axioms), o, c) ==>
      Reaches(ToldEdges(axioms), c, o)
    ensures forall o :: IsCommon(axioms, body.args, o) ==>
      exists c :: c in MinimalCommon(t, body) && Reaches(ToldEdges(axioms), c, o)
  {
    var atoms := AtomsOf(body.args);
    var common := CommonFrom(t, atoms[1..], Row(t.supers, atoms[0]));
    forall c: ClassId ensures c in common <==> IsCommon(axioms, body.args, c) { CommonIs(n, axioms, t, body, c); }
    forall c | c in common ensures c < n {
      assert body.args[0] in body.args;
      ToldBelow(n, axioms, atoms[0], c);
    }
    CommonPreorder(n, axioms, t, common);
    forall c, o | c in MinimalCommon(t, body) && IsCommon(axioms, body.args, o) && Reaches(ToldEdges(axioms), o, c)
      ensures Reaches(ToldEdges(axioms), c, o)
    {
      ToldSubIs(n, axioms, t, o, c);
      ToldSubIs(n, axioms, t, c, o);
      assert IsMinimal(t, common, c);
    }
    forall o | IsCommon(axioms, body.args, o) ensures exists c :: c in MinimalCommon(t, body) && Reaches(ToldEdges(axioms), c, o) {
      var c := Descend(t, common, o);
      ToldSubIs(n, axioms, t, c, o);
      assert c in MinimalCommon(t, body);
    }
  }

  /** Every disjunct, and so the union, is below each returned class. */
  lemma MinimalCommonSound<E(!new)>(I: Interp<E>, n: nat, axioms: seq<Axiom>, t: Told, body: Concept, c: ClassId)
    requires Models(I, axioms) && IsTold(n, axioms, t) && c in MinimalCommon(t, body)
    ensures body.Or? && Subsumed(I, body, Atomic(c))
  {
    var atoms := AtomsOf(body.args);
    assert atoms == [atoms[0]] + atoms[1..];
    forall x | Sat(I, body, x) ensures I.cls(c, x) {
      var d :| d in body.args && Sat(I, d, x);
      var k :| 0 <= k < |atoms| && body.args[k] == d;
      assert atoms[k] in atoms && IsToldSub(t, atoms[k], c);
      ToldSubIs(n, axioms, t, atoms[k], c);
      ToldSubHolds(I, axioms, atoms[k], c);
    }
  }

  // ----- what the first pass finds -----

  type Triple = (Concept, Role, ClassId)
  type Bare = (Concept, ClassId)
  type EdgeFind = (Role, ClassId, bool)  // the flag says range

  function Operands(sup: Concept): seq<Concept> {
    if sup.And? then sup.args else [sup]
  }

  function TriplesWith(sub: Concept, r: Role, cs: seq<ClassId>): (out: seq<Triple>)
    ensures forall x :: x in out <==> x.0 == sub && x.1 == r && x.2 in cs
  {
    if cs == [] then [] else [(sub, r, cs[0])] + TriplesWith(sub, r, cs[1..])
  }

  function BareWith(sub: Concept, cs: seq<ClassId>): (out: seq<Bare>)
    ensures forall x :: x in out <==> x.0 == sub && x.1 in cs
  {
    if cs == [] then [] else [(sub, cs[0])] + BareWith(sub, cs[1..])
  }

  function FindsWith(r: Role, cs: seq<ClassId>, isRange: bool): (out: seq<EdgeFind>)
    ensures forall x :: x in out <==> x.0 == r && x.1 in cs && x.2 == isRange
  {
    if cs == [] then [] else [(r, cs[0], isRange)] + FindsWith(r, cs[1..], isRange)
  }

  /** Each atomic disjunct below `x`. */
  function DisjunctsBelow(ds: seq<Concept>, x: ClassId): (out: seq<Bare>)
    ensures forall y :: y in out <==> y.0 in ds && y.0.Atomic? && y.1 == x
  {
    if ds == [] then []
    else
      assert ds == [ds[0]] + ds[1..];
      (if ds[0].Atomic? then [(ds[0], x)] else []) + DisjunctsBelow(ds[1..], x)
  }

  function OperandTriples(t: Told, sub: Concept, op: Concept): seq<Triple> {
    if op.SomeOf? then TriplesWith(sub, op.role, MinimalCommon(t, op.filler)) else []
  }

  function OperandBare(t: Told, sub: Concept, op: Concept): seq<Bare> {
    if op.Or? then BareWith(sub, MinimalCommon(t, op)) else []
  }

  function OperandTriplesOf(t: Told, sub: Concept): Concept -> seq<Triple> {
    op => OperandTriples(t, sub, op)
  }

  function OperandBareOf(t: Told, sub: Concept): Concept -> seq<Bare> {
    op => OperandBare(t, sub, op)
  }

  function AxiomTriples(t: Told, ax: Axiom): seq<Triple> {
    if ax.SubClassOf? then FlatMap(OperandTriplesOf(t, ax.sub), Operands(ax.sup)) else []
  }

  /** A class stated equivalent to a union: below the union's subsumers, and above its disjuncts. */
  function MemberBare(t: Told, m: Concept, u: Concept): seq<Bare> {
    if m.Atomic? && u.Or? then BareWith(m, MinimalCommon(t, u)) + DisjunctsBelow(u.args, m.cls) else []
  }

  function MemberBareOf(t: Told): (Concept, Concept) -> seq<Bare> {
    (m, u) => MemberBare(t, m, u)
  }

  function AxiomBare(t: Told, ax: Axiom): seq<Bare> {
    match ax
    case SubClassOf(sub, sup) => FlatMap(OperandBareOf(t, sub), Operands(sup))
    case EquivalentClasses(ms) => PairMap(MemberBareOf(t), ms, 0, 0, [])
    case _ => []
  }

  function AxiomFinds(t: Told, ax: Axiom): seq<EdgeFind> {
    match ax
    case PropertyDomain(r, c) => FindsWith(r, MinimalCommon(t, c), false)
    case PropertyRange(r, c) => FindsWith(r, MinimalCommon(t, c), true)
    case _ => []
  }

  function TriplesOf(t: Told): Axiom -> seq<Triple> {
    ax => AxiomTriples(t, ax)
  }

  function BareOf(t: Told): Axiom -> seq<Bare> {
    ax => AxiomBare(t, ax)
  }

  function FindsOf(t: Told): Axiom -> seq<EdgeFind> {
    ax => AxiomFinds(t, ax)
  }

  function TripleAxiom(x: Triple): seq<Axiom> {
    var sup := SomeOf(x.1, Atomic(x.2));
    if x.0 == sup then [] else [SubClassOf(x.0, sup)]
  }

  function BareAxiom(x: Bare): seq<Axiom> {
    if x.0 == Atomic(x.1) then [] else [SubClassOf(x.0, Atomic(x.1))]
  }

  function EdgeAxiom(x: EdgeFind): seq<Axiom> {
    [if x.2 then PropertyRange(x.0, Atomic(x.1)) else PropertyDomain(x.0, Atomic(x.1))]
  }

  function FoundAxioms(triples: seq<Triple>, bare: seq<Bare>, finds: seq<EdgeFind>): seq<Axiom> {
    FlatMap(TripleAxiom, triples) + FlatMap(BareAxiom, bare) + FlatMap(EdgeAxiom, finds)
  }

  /** The axioms the first pass appends. */
  function Existentials(t: Told, axioms: seq<Axiom>): seq<Axiom> {
    FoundAxioms(FlatMap(TriplesOf(t), axioms), FlatMap(BareOf(t), axioms), FlatMap(FindsOf(t), axioms))
  }

  // ----- what the second pass finds -----

  /** `c`, or something told above it, is told disjoint from `d`. */
  predicate IsIncompatible(t: Told, c: ClassId, d: ClassId) {
    AreToldDisjoint(t, c, d) || exists g :: g in Row(t.supers, c) && AreToldDisjoint(t, g, d)
  }

  function Survivors(t: Told, c: ClassId, disjuncts: seq<Concept>): (r: seq<Concept>)
    requires AllAtomic(disjuncts)
    ensures forall d :: d in r <==> d in disjuncts && !IsIncompatible(t, c, d.cls)
  {
    if disjuncts == [] then []
    else
      assert disjuncts[0] in disjuncts;
      (if IsIncompatible(t, c, disjuncts[0].cls) then [] else [disjuncts[0]]) + Survivors(t, c, disjuncts[1..])
  }

  function ForcedBy(t: Told, ax: Axiom): seq<Axiom> {
    if !ax.SubClassOf? || !ax.sub.Atomic? || !ax.sup.Or? || !AllAtomic(ax.sup.args) then []
    else
      var left := Survivors(t, ax.sub.cls, ax.sup.args);
      if |left| == 0 then [SubClassOf(ax.sub, Bot)]
      else if |left| == 1 && ax.sub != left[0] then [SubClassOf(ax.sub, left[0])]
      else []
  }

  /** The axioms the second pass appends. */
  function Forced(t: Told, axioms: seq<Axiom>): seq<Axiom> {
    FlatMap(ForcedOf(t), axioms)
  }

  function ForcedOf(t: Told): Axiom -> seq<Axiom> {
    ax => ForcedBy(t, ax)
  }

  // ----- the appended axioms are entailed -----

  lemma TripleSound<E(!new)>(I: Interp<E>, n: nat, axioms: seq<Axiom>, t: Told, ax: Axiom, x: Triple)
    requires Models(I, axioms) && IsTold(n, axioms, t) && ax in axioms && x in AxiomTriples(t, ax)
    ensures Subsumed(I, x.0, SomeOf(x.1, Atomic(x.2)))
  {
    var op := SourceOf(OperandTriplesOf(t, ax.sub), Operands(ax.sup), x);
    assert Holds(I, ax) && x in OperandTriples(t, ax.sub, op);
    OperandAbove(I, ax.sub, ax.sup, op);
    MinimalCommonSound(I, n, axioms, t, op.filler, x.2);
    SomeAbove(I, x.1, op.filler, Atomic(x.2));
    AboveTrans(I, ax.sub, op, SomeOf(x.1, Atomic(x.2)));
  }

  /** Below an intersection is below each operand. */
  lemma OperandAbove<E(!new)>(I: Interp<E>, sub: Concept, sup: Concept, op: Concept)
    requires Subsumed(I, sub, sup) && op in Operands(sup)
    ensures Subsumed(I, sub, op)
  {
    forall d | Sat(I, sub, d) ensures Sat(I, op, d) { assert Sat(I, sup, d); }
  }

  lemma SomeAbove<E(!new)>(I: Interp<E>, r: Role, f: Concept, g: Concept)
    requires Subsumed(I, f, g)
    ensures Subsumed(I, SomeOf(r, f), SomeOf(r, g))
  {
    forall d | Sat(I, SomeOf(r, f), d) ensures Sat(I, SomeOf(r, g), d) {
      var e :| Rel(I, r, d, e) && Sat(I, f, e);
      assert Sat(I, g, e);
    }
  }

  lemma AboveTrans<E(!new)>(I: Interp<E>, a: Concept, b: Concept, c: Concept)
    requires Subsumed(I, a, b) && Subsumed(I, b, c)
    ensures Subsumed(I, a, c)
  {
  }

  lemma BareSound<E(!new)>(I: Interp<E>, n: nat, axioms: seq<Axiom>, t: Told, ax: Axiom, x: Bare)
    requires Models(I, axioms) && IsTold(n, axioms, t) && ax in axioms && x in AxiomBare(t, ax)
    ensures Subsumed(I, x.0, Atomic(x.1))
  {
    assert Holds(I, ax);
    if ax.SubClassOf? {
      BareFromSup(I, n, axioms, t, ax.sub, ax.sup, x);
    } else {
      var i, j := PairSource(MemberBareOf(t), ax.members, 0, 0, [], x);
      assert Subsumed(I, ax.members[i], ax.members[j]) && Subsumed(I, ax.members[j], ax.members[i]);
      MemberSound(I, n, axioms, t, ax.members[i], ax.members[j], x);
    }
  }

  lemma BareFromSup<E(!new)>(I: Interp<E>, n: nat, axioms: seq<Axiom>, t: Told, sub: Concept, sup: Concept, x: Bare)
    requires Models(I, axioms) && IsTold(n, axioms, t) && Subsumed(I, sub, sup)
    requires x in FlatMap(OperandBareOf(t, sub), Operands(sup))
    ensures Subsumed(I, x.0, Atomic(x.1))
  {
    var op := SourceOf(OperandBareOf(t, sub), Operands(sup), x);
    assert x in OperandBare(t, sub, op);
    OperandAbove(I, sub, sup, op);
    MinimalCommonSound(I, n, axioms, t, op, x.1);
    AboveTrans(I, sub, op, Atomic(x.1));
  }

  lemma MemberSound<E(!new)>(I: Interp<E>, n: nat, axioms: seq<Axiom>, t: Told, m: Concept, u: Concept, x: Bare)
    requires Models(I, axioms) && IsTold(n, axioms, t) && x in MemberBare(t, m, u)
    requires Subsumed(I, m, u) && Subsumed(I, u, m)
    ensures Subsumed(I, x.0, Atomic(x.1))
  {
    if x in BareWith(m, MinimalCommon(t, u)) {
      MinimalCommonSound(I, n, axioms, t, u, x.1);
    } else {
      forall e | Sat(I, x.0, e) ensures Sat(I, m, e) { assert Sat(I, u, e); }
    }
  }

  lemma EdgeSound<E(!new)>(I: Interp<E>, n: nat, axioms: seq<Axiom>, t: Told, ax: Axiom, x: EdgeFind)
    requires Models(I, axioms) && IsTold(n, axioms, t) && ax in axioms && x in AxiomFinds(t, ax)
    ensures Holds(I, if x.2 then PropertyRange(x.0, Atomic(x.1)) else PropertyDomain(x.0, Atomic(x.1)))
  {
    assert Holds(I, ax);
    match ax
    case PropertyDomain(r, body) =>
      MinimalCommonSound(I, n, axioms, t, body, x.1);
    case PropertyRange(r, body) =>
      MinimalCommonSound(I, n, axioms, t, body, x.1);
  }

  lemma ExistentialsSound<E(!new)>(I: Interp<E>, n: nat, axioms: seq<Axiom>, t: Told, ax: Axiom)
    requires Models(I, axioms) && IsTold(n, axioms, t) && ax in Existentials(t, axioms)
    ensures Holds(I, ax)
  {
    if ax in FlatMap(TripleAxiom, FlatMap(TriplesOf(t), axioms)) {
      var x := SourceOf(TripleAxiom, FlatMap(TriplesOf(t), axioms), ax);
      var src := SourceOf(TriplesOf(t), axioms, x);
      TripleSound(I, n, axioms, t, src, x);
    } else if ax in FlatMap(BareAxiom, FlatMap(BareOf(t), axioms)) {
      var x := SourceOf(BareAxiom, FlatMap(BareOf(t), axioms), ax);
      var src := SourceOf(BareOf(t), axioms, x);
      BareSound(I, n, axioms, t, src, x);
    } else {
      var x := SourceOf(EdgeAxiom, FlatMap(FindsOf(t), axioms), ax);
      var src := SourceOf(FindsOf(t), axioms, x);
      EdgeSound(I, n, axioms, t, src, x);
    }
  }

  lemma ToldDisjointIs<E(!new)>(I: Interp<E>, n: nat, axioms: seq<Axiom>, t: Told, a: ClassId, b: ClassId)
    requires Models(I, axioms) && IsTold(n, axioms, t) && AreToldDisjoint(t, a, b)
    ensures Apart(I, a, b)
  {
    ToldDisjointHolds(I, axioms, a, b);
  }

  lemma IncompatibleApart<E(!new)>(I: Interp<E>, n: nat, axioms: seq<Axiom>, t: Told, c: ClassId, d: ClassId)
    requires Models(I, axioms) && IsTold(n, axioms, t) && IsIncompatible(t, c, d)
    ensures Apart(I, c, d)
  {
    if AreToldDisjoint(t, c, d) {
      ToldDisjointIs(I, n, axioms, t, c, d);
    } else {
      var g :| g in Row(t.supers, c) && AreToldDisjoint(t, g, d);
      ToldSubIs(n, axioms, t, c, g);
      ToldSubHolds(I, axioms, c, g);
      ToldDisjointIs(I, n, axioms, t, g, d);
    }
  }

  /** Whatever is in `C` is in a surviving disjunct. */
  lemma SurvivorsCover<E(!new)>(I: Interp<E>, n: nat, axioms: seq<Axiom>, t: Told, c: ClassId, disjuncts: seq<Concept>)
    requires Models(I, axioms) && IsTold(n, axioms, t) && AllAtomic(disjuncts) && Subsumed(I, Atomic(c), Or(disjuncts))
    ensures Subsumed(I, Atomic(c), Or(Survivors(t, c, disjuncts)))
  {
    forall x | Sat(I, Atomic(c), x) ensures Sat(I, Or(Survivors(t, c, disjuncts)), x) {
      assert Sat(I, Or(disjuncts), x);
      var d :| d in disjuncts && Sat(I, d, x);
      if IsIncompatible(t, c, d.cls) {
        IncompatibleApart(I, n, axioms, t, c, d.cls);
        assert !(I.cls(c, x) && I.cls(d.cls, x));
      }
      assert d in Survivors(t, c, disjuncts);
    }
  }

  lemma ForcedSound<E(!new)>(I: Interp<E>, n: nat, axioms: seq<Axiom>, t: Told, ax: Axiom)
    requires Models(I, axioms) && IsTold(n, axioms, t) && ax in Forced(t, axioms)
    ensures Holds(I, ax)
  {
    var src := SourceOf(ForcedOf(t), axioms, ax);
    assert Holds(I, src) && ax in ForcedBy(t, src);
    var left := Survivors(t, src.sub.cls, src.sup.args);
    SurvivorsCover(I, n, axioms, t, src.sub.cls, src.sup.args);
    LastSurvivor(I, src.sub, left);
  }

  /** With no survivor the class is empty, with one it is below it. */
  lemma LastSurvivor<E(!new)>(I: Interp<E>, sub: Concept, left: seq<Concept>)
    requires Subsumed(I, sub, Or(left))
    ensures |left| == 0 ==> Subsumed(I, sub, Bot)
    ensures |left| == 1 ==> Subsumed(I, sub, left[0])
  {
    forall x | Sat(I, sub, x) ensures |left| > 0 && (|left| == 1 ==> Sat(I, left[0], x)) {
      assert Sat(I, Or(left), x);
      var d :| d in left && Sat(I, d, x);
    }
  }

  // ----- the vocabulary -----

  ghost predicate AxiomInside(n: nat, inds: nat, ax: Axiom) {
    match ax
    case SubClassOf(c, d) => InSig(c, n, inds) && InSig(d, n, inds)
    case EquivalentClasses(cs) => forall c :: c in cs ==> InSig(c, n, inds)
    case DisjointClasses(cs) => forall c :: c in cs ==> InSig(c, n, inds)
    case DisjointUnion(a, cs) => a < n && forall c :: c in cs ==> InSig(c, n, inds)
    case PropertyDomain(_, c) => InSig(c, n, inds)
    case PropertyRange(_, c) => InSig(c, n, inds)
    case _ => true
  }

  /** Every concept of the axioms is over the vocabulary. */
  ghost predicate Inside(n: nat, inds: nat, axioms: seq<Axiom>) {
    forall ax :: ax in axioms ==> AxiomInside(n, inds, ax)
  }

  lemma MemberInVocabulary(n: nat, inds: nat, ms: seq<Concept>, k: nat)
    requires (forall c :: c in ms ==> InSig(c, n, inds)) && k < |ms| && ms[k].Atomic?
    ensures ms[k].cls < n
  {
    assert ms[k] in ms && InSig(ms[k], n, inds);
  }

  lemma EdgeInVocabulary(n: nat, inds: nat, ax: Axiom, a: ClassId, b: ClassId)
    requires AxiomInside(n, inds, ax) && (a, b) in AxiomEdges(ax)
    ensures a < n && b < n
  {
    match ax
    case SubClassOf(c, d) => assert InSig(c, n, inds) && InSig(d, n, inds);
    case EquivalentClasses(ms) =>
      var i, j :| 0 <= i < |ms| && 0 <= j < |ms| && ms[i].Atomic? && ms[j].Atomic? && (a, b) == (ms[i].cls, ms[j].cls);
      MemberInVocabulary(n, inds, ms, i);
      MemberInVocabulary(n, inds, ms, j);
    case DisjointUnion(p, ms) =>
      var i :| 0 <= i < |ms| && ms[i].Atomic? && (a, b) == (ms[i].cls, p);
      MemberInVocabulary(n, inds, ms, i);
  }

  lemma AtomPairInVocabulary(n: nat, inds: nat, ms: seq<Concept>, a: ClassId, b: ClassId)
    requires (forall c :: c in ms ==> InSig(c, n, inds)) && (a, b) in AtomPairs(ms)
    ensures a < n && b < n
  {
    var i, j :| 0 <= i < |ms| && 0 <= j < |ms| && ms[i].Atomic? && ms[j].Atomic? && (a, b) == (ms[i].cls, ms[j].cls);
    MemberInVocabulary(n, inds, ms, i);
    MemberInVocabulary(n, inds, ms, j);
  }

  lemma PairInVocabulary(n: nat, inds: nat, ax: Axiom, a: ClassId, b: ClassId)
    requires AxiomInside(n, inds, ax) && (a, b) in AxiomDisjoint(ax)
    ensures a < n && b < n
  {
    match ax
    case SubClassOf(Atomic(c), Not(d)) => assert InSig(Not(d), n, inds) && InSig(d, n, inds);
    case SubClassOf(And(ops), Bot) => assert InSig(And(ops), n, inds); AtomPairInVocabulary(n, inds, ops, a, b);
    case DisjointClasses(ms) => AtomPairInVocabulary(n, inds, ms, a, b);
    case DisjointUnion(_, ms) => AtomPairInVocabulary(n, inds, ms, a, b);
  }

  lemma InsideEdges(n: nat, inds: nat, axioms: seq<Axiom>)
    requires Inside(n, inds, axioms)
    ensures EdgesBelow(n, axioms)
  {
    forall a: ClassId, b: ClassId | (a, b) in ToldEdges(axioms) ensures a < n && b < n {
      var ax :| ax in axioms && (a, b) in AxiomEdges(ax);
      EdgeInVocabulary(n, inds, ax, a, b);
    }
    forall a: ClassId, b: ClassId | (a, b) in ToldDisjoint(axioms) ensures a < n && b < n {
      var ax :| ax in axioms && (a, b) in AxiomDisjoint(ax);
      PairInVocabulary(n, inds, ax, a, b);
    }
  }

  lemma MinimalCommonInside(n: nat, inds: nat, axioms: seq<Axiom>, t: Told, body: Concept, c: ClassId)
    requires Inside(n, inds, axioms) && IsTold(n, axioms, t) && InSig(body, n, inds) && c in MinimalCommon(t, body)
    ensures c < n
  {
    InsideEdges(n, inds, axioms);
    var atoms := AtomsOf(body.args);
    assert body.args[0] in body.args && c in Row(t.supers, atoms[0]);
    ToldSubIs(n, axioms, t, atoms[0], c);
    ToldBelow(n, axioms, atoms[0], c);
  }

  lemma TripleInside(n: nat, inds: nat, axioms: seq<Axiom>, t: Told, ax: Axiom, x: Triple)
    requires Inside(n, inds, axioms) && IsTold(n, axioms, t) && ax in axioms && x in AxiomTriples(t, ax)
    ensures InSig(x.0, n, inds) && x.2 < n
  {
    var op := SourceOf(OperandTriplesOf(t, ax.sub), Operands(ax.sup), x);
    var c := x.2;
    assert AxiomInside(n, inds, ax) && InSig(op, n, inds);
    MinimalCommonInside(n, inds, axioms, t, op.filler, c);
  }

  lemma BareInside(n: nat, inds: nat, axioms: seq<Axiom>, t: Told, ax: Axiom, x: Bare)
    requires Inside(n, inds, axioms) && IsTold(n, axioms, t) && ax in axioms && x in AxiomBare(t, ax)
    ensures InSig(x.0, n, inds) && x.1 < n
  {
    assert AxiomInside(n, inds, ax);
    if ax.SubClassOf? {
      var op := SourceOf(OperandBareOf(t, ax.sub), Operands(ax.sup), x);
      assert x in OperandBare(t, ax.sub, op) && InSig(op, n, inds);
      MinimalCommonInside(n, inds, axioms, t, op, x.1);
    } else {
      var i, j := PairSource(MemberBareOf(t), ax.members, 0, 0, [], x);
      assert ax.members[i] in ax.members && ax.members[j] in ax.members;
      MemberInside(n, inds, axioms, t, ax.members[i], ax.members[j], x);
    }
  }

  lemma MemberInside(n: nat, inds: nat, axioms: seq<Axiom>, t: Told, m: Concept, u: Concept, x: Bare)
    requires Inside(n, inds, axioms) && IsTold(n, axioms, t) && InSig(m, n, inds) && InSig(u, n, inds) && x in MemberBare(t, m, u)
    ensures InSig(x.0, n, inds) && x.1 < n
  {
    if x in BareWith(m, MinimalCommon(t, u)) { MinimalCommonInside(n, inds, axioms, t, u, x.1); }
  }

  lemma EdgeInside(n: nat, inds: nat, axioms: seq<Axiom>, t: Told, ax: Axiom, x: EdgeFind)
    requires Inside(n, inds, axioms) && IsTold(n, axioms, t) && ax in axioms && x in AxiomFinds(t, ax)
    ensures x.1 < n
  {
    assert AxiomInside(n, inds, ax);
    match ax
    case PropertyDomain(r, body) =>
      MinimalCommonInside(n, inds, axioms, t, body, x.1);
    case PropertyRange(r, body) =>
      MinimalCommonInside(n, inds, axioms, t, body, x.1);
  }

  /** What the first pass appends stays inside the vocabulary, so tables can be built again. */
  lemma ExistentialsInside(n: nat, inds: nat, axioms: seq<Axiom>, t: Told)
    requires Inside(n, inds, axioms) && IsTold(n, axioms, t)
    ensures Inside(n, inds, axioms + Existentials(t, axioms))
  {
    forall ax | ax in Existentials(t, axioms) ensures AxiomInside(n, inds, ax) { ExistentialInside(n, inds, axioms, t, ax); }
  }

  lemma ExistentialInside(n: nat, inds: nat, axioms: seq<Axiom>, t: Told, ax: Axiom)
    requires Inside(n, inds, axioms) && IsTold(n, axioms, t) && ax in Existentials(t, axioms)
    ensures AxiomInside(n, inds, ax)
  {
    var triples, bare, finds := FlatMap(TriplesOf(t), axioms), FlatMap(BareOf(t), axioms), FlatMap(FindsOf(t), axioms);
    if ax in FlatMap(TripleAxiom, triples) {
      var x := SourceOf(TripleAxiom, triples, ax);
      var src := SourceOf(TriplesOf(t), axioms, x);
      TripleInside(n, inds, axioms, t, src, x);
      TripleAxiomInside(n, inds, x, ax);
    } else if ax in FlatMap(BareAxiom, bare) {
      var x := SourceOf(BareAxiom, bare, ax);
      var src := SourceOf(BareOf(t), axioms, x);
      BareInside(n, inds, axioms, t, src, x);
      BareAxiomInside(n, inds, x, ax);
    } else {
      var x := SourceOf(EdgeAxiom, finds, ax);
      var src := SourceOf(FindsOf(t), axioms, x);
      EdgeInside(n, inds, axioms, t, src, x);
      EdgeAxiomInside(n, inds, x, ax);
    }
  }

  lemma TripleAxiomInside(n: nat, inds: nat, x: Triple, ax: Axiom)
    requires InSig(x.0, n, inds) && x.2 < n && ax in TripleAxiom(x)
    ensures AxiomInside(n, inds, ax)
  {
    assert ax == SubClassOf(x.0, SomeOf(x.1, Atomic(x.2)));
    assert InSig(Atomic(x.2), n, inds);
  }

  lemma BareAxiomInside(n: nat, inds: nat, x: Bare, ax: Axiom)
    requires InSig(x.0, n, inds) && x.1 < n && ax in BareAxiom(x)
    ensures AxiomInside(n, inds, ax)
  {
    assert ax == SubClassOf(x.0, Atomic(x.1));
  }

  lemma EdgeAxiomInside(n: nat, inds: nat, x: EdgeFind, ax: Axiom)
    requires x.1 < n && ax in EdgeAxiom(x)
    ensures AxiomInside(n, inds, ax)
  {
  }

  // ----- both passes -----

  /** `after` is what the two passes make of `before`. */
  ghost predicate Preprocessed(n: nat, before: seq<Axiom>, after: seq<Axiom>) {
    exists t, u :: IsTold(n, before, t) && IsTold(n, before + Existentials(t, before), u) &&
      after == before + Existentials(t, before) + Forced(u, before + Existentials(t, before))
  }

  /** Both passes keep exactly the same models. */
  lemma PreprocessSameModels<E(!new)>(I: Interp<E>, n: nat, before: seq<Axiom>, after: seq<Axiom>)
    requires Preprocessed(n, before, after)
    ensures Models(I, after) <==> Models(I, before)
  {
    var t, u :| IsTold(n, before, t) && IsTold(n, before + Existentials(t, before), u) &&
      after == before + Existentials(t, before) + Forced(u, before + Existentials(t, before));
    var middle := before + Existentials(t, before);
    if Models(I, before) {
      forall ax | ax in Existentials(t, before) { ExistentialsSound(I, n, before, t, ax); }
      assert Models(I, middle);
      forall ax | ax in Forced(u, middle) { ForcedSound(I, n, middle, u, ax); }
    }
    if Models(I, after) {
      forall ax | ax in before ensures Holds(I, ax) { assert ax in after; }
    }
  }

  /** The ontology object the passes append to. */
  class InternalOntology {
    const numClasses: nat
    const numIndividuals: nat
    var axioms: seq<Axiom>

    ghost predicate Valid()
      reads this
    {
      Inside(numClasses, numIndividuals, axioms)
    }

    constructor (numClasses: nat, numIndividuals: nat, axioms: seq<Axiom>)
      requires Inside(numClasses, numIndividuals, axioms)
      ensures Valid() && this.numClasses == numClasses && this.axioms == axioms
    {
      this.numClasses, this.numIndividuals, this.axioms := numClasses, numIndividuals, axioms;
    }

    static method CollectFromSup(sub: Concept, sup: Concept, t: Told, out: seq<Triple>, bare: seq<Bare>)
      returns (out': seq<Triple>, bare': seq<Bare>)
      ensures out' == out + FlatMap(OperandTriplesOf(t, sub), Operands(sup))
      ensures bare' == bare + FlatMap(OperandBareOf(t, sub), Operands(sup))
    {
      out' := ForEach(OperandTriplesOf(t, sub), Operands(sup), out);
      bare' := ForEach(OperandBareOf(t, sub), Operands(sup), bare);
    }

    /** Extends `acc` by what each member gives. */
    static method ForEach<A, B>(f: A -> seq<B>, xs: seq<A>, acc: seq<B>) returns (r: seq<B>)
      ensures r == acc + FlatMap(f, xs)
    {
      r := acc;
      for k := 0 to |xs|
        invariant r == acc + FlatMap(f, xs[..k])
      {
        FlatMapStep(f, xs, k);
        r := r + f(xs[k]);
      }
      FlatMapWhole(f, xs);
    }

    /** What each ordered pair of distinct members gives. */
    static method ForEachPair<A, B>(f: (A, A) -> seq<B>, xs: seq<A>) returns (r: seq<B>)
      ensures r == PairMap(f, xs, 0, 0, [])
    {
      r := [];
      for i := 0 to |xs|
        invariant PairMap(f, xs, 0, 0, []) == PairMap(f, xs, i, 0, r)
      {
        for j := 0 to |xs|
          invariant PairMap(f, xs, 0, 0, []) == PairMap(f, xs, i, j, r)
        {
          if i != j {
            r := r + f(xs[i], xs[j]);
          }
        }
      }
    }

    /** The first phase, which only reads: what every axiom gives. */
    static method Collect(axioms: seq<Axiom>, t: Told) returns (triples: seq<Triple>, bare: seq<Bare>, finds: seq<EdgeFind>)
      ensures triples == FlatMap(TriplesOf(t), axioms)
      ensures bare == FlatMap(BareOf(t), axioms)
      ensures finds == FlatMap(FindsOf(t), axioms)
    {
      triples, bare, finds := [], [], [];
      for k := 0 to |axioms|
        invariant triples == FlatMap(TriplesOf(t), axioms[..k])
        invariant bare == FlatMap(BareOf(t), axioms[..k])
        invariant finds == FlatMap(FindsOf(t), axioms[..k])
      {
        FlatMapStep(TriplesOf(t), axioms, k);
        FlatMapStep(BareOf(t), axioms, k);
        FlatMapStep(FindsOf(t), axioms, k);
        triples, bare, finds := CollectOne(axioms[k], t, triples, bare, finds);
      }
      FlatMapWhole(TriplesOf(t), axioms);
      FlatMapWhole(BareOf(t), axioms);
      FlatMapWhole(FindsOf(t), axioms);
    }

    static method CollectOne(ax: Axiom, t: Told, triples: seq<Triple>, bare: seq<Bare>, finds: seq<EdgeFind>)
      returns (triples': seq<Triple>, bare': seq<Bare>, finds': seq<EdgeFind>)
      ensures triples' == triples + TriplesOf(t)(ax) && bare' == bare + BareOf(t)(ax) && finds' == finds + FindsOf(t)(ax)
    {
      triples', bare', finds' := triples, bare, finds;
      match ax
      case SubClassOf(sub, sup) => triples', bare' := CollectFromSup(sub, sup, t, triples, bare);
      case EquivalentClasses(ms) =>
        var found := ForEachPair(MemberBareOf(t), ms);
        bare' := bare + found;
      case PropertyDomain(r, c) =>
        var classes := MinimalCommonSubsumers(c, t);
        finds' := finds + FindsWith(r, classes, false);
      case PropertyRange(r, c) =>
        var classes := MinimalCommonSubsumers(c, t);
        finds' := finds + FindsWith(r, classes, true);
      case _ =>
    }

    /** Appends what the unions' common subsumers entail. Tables are handed back exactly when nothing
        was appended, and then they are the tables of the ontology as it stands. */
    method DeriveDisjunctionExistentials() returns (told: Option<Told>)
      requires Valid()
      modifies this
      ensures Valid()
      ensures exists t :: IsTold(numClasses, old(axioms), t) && axioms == old(axioms) + Existentials(t, old(axioms))
      ensures told.Some? <==> axioms == old(axioms)
      ensures told.Some? ==> IsTold(numClasses, axioms, told.value)
    {
      InsideEdges(numClasses, numIndividuals, axioms);
      var before := |axioms|;
      var t := BuildToldTables(numClasses, axioms);
      ExistentialsInside(numClasses, numIndividuals, axioms, t);
      var triples, bare, finds := Collect(axioms, t);
      if triples == [] && bare == [] && finds == [] {
        assert Existentials(t, axioms) == [];
        assert axioms == old(axioms) + [];
        return Some(t);
      }
      AppendFound(triples, bare, finds);
      if |axioms| == before {
        assert axioms == old(axioms);
        return Some(t);
      }
      told := None;
    }

    /** The second phase: a find that says nothing (`C ⊑ C`) is skipped. */
    method AppendFound(triples: seq<Triple>, bare: seq<Bare>, finds: seq<EdgeFind>)
      modifies this
      ensures axioms == old(axioms) + FoundAxioms(triples, bare, finds)
    {
      axioms := ForEach(TripleAxiom, triples, axioms);
      axioms := ForEach(BareAxiom, bare, axioms);
      axioms := ForEach(EdgeAxiom, finds, axioms);
    }

    /** Appends the forced disjuncts. Tables passed in must still be those of the ontology. */
    method DeriveForcedDisjunctsWith(told: Option<Told>)
      requires Valid() && (told.Some? ==> IsTold(numClasses, axioms, told.value))
      modifies this
      ensures exists t :: IsTold(numClasses, old(axioms), t) && axioms == old(axioms) + Forced(t, old(axioms))
    {
      InsideEdges(numClasses, numIndividuals, axioms);
      var t: Told;
      match told {
        case None => t := BuildToldTables(numClasses, axioms);
        case Some(given) => t := given;
      }
      var derived: seq<Axiom> := [];
      for k := 0 to |axioms|
        invariant axioms == old(axioms) && derived == FlatMap(ForcedOf(t), axioms[..k])
      {
        FlatMapStep(ForcedOf(t), axioms, k);
        var more := ForcedDisjunct(axioms[k], t);
        derived := derived + more;
      }
      FlatMapWhole(ForcedOf(t), axioms);
      axioms := axioms + derived;
    }

    /** One disjunction: its incompatible disjuncts are struck out and the rest counted. */
    static method ForcedDisjunct(ax: Axiom, t: Told) returns (more: seq<Axiom>)
      ensures more == ForcedBy(t, ax)
    {
      if !ax.SubClassOf? || !ax.sub.Atomic? || !ax.sup.Or? || !AllAtomic(ax.sup.args) {
        return [];
      }
      var survivors := Survivors(t, ax.sub.cls, ax.sup.args);
      if |survivors| == 1 {
        more := if ax.sub != survivors[0] then [SubClassOf(ax.sub, survivors[0])] else [];
      } else if |survivors| == 0 {
        more := [SubClassOf(ax.sub, Bot)];
      } else {
        more := [];
      }
    }

    /** The two passes in a row, the second reusing the tables of the first when it may. */
    method RunBoth()
      requires Valid()
      modifies this
      ensures Preprocessed(numClasses, old(axioms), axioms)
    {
      var told := DeriveDisjunctionExistentials();
      DeriveForcedDisjunctsWith(told);
    }
  }
}
