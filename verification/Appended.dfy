/** Exactly which axioms the preprocessing passes append, told from the stated axioms. */
module Appended {
  import opened Dl
  import opened Graphs
  import opened ToldTables
  import opened Preprocess

  // ----- lists -----

  lemma {:induction false} TargetOf<A, B>(f: A -> seq<B>, xs: seq<A>, x: A, y: B)
    requires x in xs && y in f(x)
    ensures y in FlatMap(f, xs)
    decreases |xs|
  {
    var k := |xs| - 1;
    assert xs == xs[..k] + [xs[k]];
    if y !in f(xs[k]) { TargetOf(f, xs[..k], x, y); }
  }

  lemma {:induction false} PairKept<A, B>(f: (A, A) -> seq<B>, xs: seq<A>, i: nat, j: nat, acc: seq<B>, y: B)
    requires i <= |xs| && j <= |xs| && y in acc
    ensures y in PairMap(f, xs, i, j, acc)
    decreases |xs| - i, |xs| - j
  {
    if i < |xs| {
      if j == |xs| { PairKept(f, xs, i + 1, 0, acc, y); }
      else { PairKept(f, xs, i, j + 1, if i != j then acc + f(xs[i], xs[j]) else acc, y); }
    }
  }

  lemma {:induction false} PairTarget<A, B>(f: (A, A) -> seq<B>, xs: seq<A>, i: nat, j: nat, acc: seq<B>, a: nat, b: nat, y: B)
    requires i <= |xs| && j <= |xs| && a < |xs| && b < |xs| && a != b && (i < a || (i == a && j <= b)) && y in f(xs[a], xs[b])
    ensures y in PairMap(f, xs, i, j, acc)
    decreases |xs| - i, |xs| - j
  {
    if j == |xs| {
      PairTarget(f, xs, i + 1, 0, acc, a, b, y);
    } else if i == a && j == b {
      PairKept(f, xs, i, j + 1, acc + f(xs[i], xs[j]), y);
    } else {
      PairTarget(f, xs, i, j + 1, if i != j then acc + f(xs[i], xs[j]) else acc, a, b, y);
    }
  }

  // ----- least common classes -----

  /** A union of two or more classes. */
  ghost predicate ClassUnion(u: Concept) {
    u.Or? && |u.args| >= 2 && forall d :: d in u.args ==> d.Atomic?
  }

  /** `c` is stated above every disjunct, transitively. */
  ghost predicate CommonAbove(axioms: seq<Axiom>, u: Concept, c: ClassId)
    requires ClassUnion(u)
  {
    forall d :: d in u.args ==> Reaches(ToldEdges(axioms), d.cls, c)
  }

  /** And nothing common is strictly below it. */
  ghost predicate LeastAbove(axioms: seq<Axiom>, u: Concept, c: ClassId) {
    ClassUnion(u) && CommonAbove(axioms, u, c) &&
    forall o {:trigger CommonAbove(axioms, u, o)} :: CommonAbove(axioms, u, o) && Reaches(ToldEdges(axioms), o, c) ==> Reaches(ToldEdges(axioms), c, o)
  }

  lemma UnionInside(n: nat, inds: nat, u: Concept)
    requires ClassUnion(u) && InSig(u, n, inds)
    ensures AtomsBelow(n, u.args)
  {
    forall d | d in u.args ensures d.cls < n { assert InSig(d, n, inds); }
  }

  /** The classes found for a union are exactly its least common ones. */
  lemma MinimalExact(n: nat, inds: nat, axioms: seq<Axiom>, t: Told, u: Concept, c: ClassId)
    requires Inside(n, inds, axioms) && IsTold(n, axioms, t) && InSig(u, n, inds)
    ensures c in MinimalCommon(t, u) <==> LeastAbove(axioms, u, c)
  {
    if ClassUnion(u) {
      UnionInside(n, inds, u);
      InsideEdges(n, inds, axioms);
      var atoms := AtomsOf(u.args);
      var common := CommonFrom(t, atoms[1..], Row(t.supers, atoms[0]));
      forall o: ClassId ensures o in common <==> CommonAbove(axioms, u, o) { CommonIs(n, axioms, t, u, o); }
      forall o | o in common ensures o < n {
        assert u.args[0] in u.args;
        ToldBelow(n, axioms, atoms[0], o);
      }
      if c in common {
        forall o | o in common
          ensures IsToldSub(t, o, c) <==> Reaches(ToldEdges(axioms), o, c)
          ensures IsToldSub(t, c, o) <==> Reaches(ToldEdges(axioms), c, o)
        {
          ToldSubIs(n, axioms, t, o, c);
          ToldSubIs(n, axioms, t, c, o);
        }
        LeastIs(axioms, t, u, common, c);
      }
    }
  }

  lemma LeastIs(axioms: seq<Axiom>, t: Told, u: Concept, common: seq<ClassId>, c: ClassId)
    requires ClassUnion(u) && c in common && forall o: ClassId :: o in common <==> CommonAbove(axioms, u, o)
    requires forall o :: o in common ==> (IsToldSub(t, o, c) <==> Reaches(ToldEdges(axioms), o, c))
    requires forall o :: o in common ==> (IsToldSub(t, c, o) <==> Reaches(ToldEdges(axioms), c, o))
    ensures IsMinimal(t, common, c) <==> LeastAbove(axioms, u, c)
  {
    if LeastAbove(axioms, u, c) {
      forall o | o in common && IsToldSub(t, o, c) ensures IsToldSub(t, c, o) { assert CommonAbove(axioms, u, o); }
    }
    if IsMinimal(t, common, c) {
      forall o | CommonAbove(axioms, u, o) && Reaches(ToldEdges(axioms), o, c) ensures Reaches(ToldEdges(axioms), c, o) {
        assert o in common;
      }
    }
  }

  // ----- the first pass -----

  /** The whole right side, or a conjunct of it. */
  ghost predicate IsOperand(op: Concept, sup: Concept) {
    if sup.And? then op in sup.args else op == sup
  }

  ghost predicate StatedSome(axioms: seq<Axiom>, s: Concept, r: Role, u: Concept) {
    exists sup :: SubClassOf(s, sup) in axioms && IsOperand(SomeOf(r, u), sup)
  }

  ghost predicate StatedSup(axioms: seq<Axiom>, s: Concept, u: Concept) {
    exists sup :: SubClassOf(s, sup) in axioms && IsOperand(u, sup)
  }

  ghost predicate StatedSame(axioms: seq<Axiom>, m: Concept, u: Concept) {
    exists ms, i, j :: EquivalentClasses(ms) in axioms && 0 <= i < |ms| && 0 <= j < |ms| && i != j && ms[i] == m && ms[j] == u
  }

  ghost predicate DueSome(axioms: seq<Axiom>, s: Concept, r: Role, c: ClassId) {
    s != SomeOf(r, Atomic(c)) && exists u :: StatedSome(axioms, s, r, u) && LeastAbove(axioms, u, c)
  }

  ghost predicate DueBare(axioms: seq<Axiom>, s: Concept, c: ClassId) {
    s != Atomic(c) &&
    ((exists u :: (StatedSup(axioms, s, u) || (s.Atomic? && StatedSame(axioms, s, u))) && LeastAbove(axioms, u, c)) ||
     (s.Atomic? && exists u :: StatedSame(axioms, Atomic(c), u) && u.Or? && s in u.args))
  }

  /** What the first pass owes: below an existential or a bare union, the least common classes; of a
      class equivalent to a union also the disjuncts; domains and ranges likewise. */
  ghost predicate Due(axioms: seq<Axiom>, ax: Axiom) {
    match ax
    case SubClassOf(s, SomeOf(r, Atomic(c))) => DueSome(axioms, s, r, c)
    case SubClassOf(s, Atomic(c)) => DueBare(axioms, s, c)
    case PropertyDomain(r, Atomic(c)) => exists u :: PropertyDomain(r, u) in axioms && LeastAbove(axioms, u, c)
    case PropertyRange(r, Atomic(c)) => exists u :: PropertyRange(r, u) in axioms && LeastAbove(axioms, u, c)
    case _ => false
  }

  lemma OperandInside(n: nat, inds: nat, axioms: seq<Axiom>, s: Concept, sup: Concept, op: Concept)
    requires Inside(n, inds, axioms) && SubClassOf(s, sup) in axioms && IsOperand(op, sup)
    ensures InSig(op, n, inds)
  {
    assert AxiomInside(n, inds, SubClassOf(s, sup));
  }

  lemma TripleIff(n: nat, inds: nat, axioms: seq<Axiom>, t: Told, s: Concept, r: Role, c: ClassId)
    requires Inside(n, inds, axioms) && IsTold(n, axioms, t)
    ensures (s, r, c) in FlatMap(TriplesOf(t), axioms) <==> exists u :: StatedSome(axioms, s, r, u) && LeastAbove(axioms, u, c)
  {
    var x: Triple := (s, r, c);
    if x in FlatMap(TriplesOf(t), axioms) {
      var ax := SourceOf(TriplesOf(t), axioms, x);
      var op := SourceOf(OperandTriplesOf(t, ax.sub), Operands(ax.sup), x);
      assert ax == SubClassOf(s, ax.sup) && op == SomeOf(r, op.filler) && IsOperand(op, ax.sup);
      OperandInside(n, inds, axioms, s, ax.sup, op);
      MinimalExact(n, inds, axioms, t, op.filler, c);
      assert StatedSome(axioms, s, r, op.filler);
    }
    if u :| StatedSome(axioms, s, r, u) && LeastAbove(axioms, u, c) {
      var sup :| SubClassOf(s, sup) in axioms && IsOperand(SomeOf(r, u), sup);
      OperandInside(n, inds, axioms, s, sup, SomeOf(r, u));
      MinimalExact(n, inds, axioms, t, u, c);
      TargetOf(OperandTriplesOf(t, s), Operands(sup), SomeOf(r, u), x);
      TargetOf(TriplesOf(t), axioms, SubClassOf(s, sup), x);
    }
  }

  /** What an inclusion gives below a bare union. */
  lemma SupBareIff(n: nat, inds: nat, axioms: seq<Axiom>, t: Told, s: Concept, sup: Concept, x: Bare)
    requires Inside(n, inds, axioms) && IsTold(n, axioms, t) && SubClassOf(s, sup) in axioms
    ensures x in AxiomBare(t, SubClassOf(s, sup)) <==> x.0 == s && exists u :: IsOperand(u, sup) && LeastAbove(axioms, u, x.1)
  {
    if x in AxiomBare(t, SubClassOf(s, sup)) {
      var op := SourceOf(OperandBareOf(t, s), Operands(sup), x);
      OperandInside(n, inds, axioms, s, sup, op);
      MinimalExact(n, inds, axioms, t, op, x.1);
      assert IsOperand(op, sup);
    }
    if x.0 == s && exists u :: IsOperand(u, sup) && LeastAbove(axioms, u, x.1) {
      var u :| IsOperand(u, sup) && LeastAbove(axioms, u, x.1);
      OperandInside(n, inds, axioms, s, sup, u);
      MinimalExact(n, inds, axioms, t, u, x.1);
      TargetOf(OperandBareOf(t, s), Operands(sup), u, x);
    }
  }

  /** `m` equivalent to `u` gives `x`. */
  ghost predicate MemberDue(axioms: seq<Axiom>, m: Concept, u: Concept, x: Bare) {
    m.Atomic? && ((x.0 == m && LeastAbove(axioms, u, x.1)) || (m == Atomic(x.1) && u.Or? && x.0 in u.args && x.0.Atomic?))
  }

  lemma MemberIff(n: nat, inds: nat, axioms: seq<Axiom>, t: Told, m: Concept, u: Concept, x: Bare)
    requires Inside(n, inds, axioms) && IsTold(n, axioms, t) && InSig(u, n, inds)
    ensures x in MemberBare(t, m, u) <==> MemberDue(axioms, m, u, x)
  {
    MinimalExact(n, inds, axioms, t, u, x.1);
  }

  lemma SameBareIff(n: nat, inds: nat, axioms: seq<Axiom>, t: Told, ms: seq<Concept>, x: Bare)
    requires Inside(n, inds, axioms) && IsTold(n, axioms, t) && EquivalentClasses(ms) in axioms
    ensures x in AxiomBare(t, EquivalentClasses(ms)) <==>
      exists i, j :: 0 <= i < |ms| && 0 <= j < |ms| && i != j && MemberDue(axioms, ms[i], ms[j], x)
  {
    assert AxiomInside(n, inds, EquivalentClasses(ms));
    if x in PairMap(MemberBareOf(t), ms, 0, 0, []) {
      var i, j := PairSource(MemberBareOf(t), ms, 0, 0, [], x);
      assert ms[j] in ms;
      MemberIff(n, inds, axioms, t, ms[i], ms[j], x);
    }
    if i, j :| 0 <= i < |ms| && 0 <= j < |ms| && i != j && MemberDue(axioms, ms[i], ms[j], x) {
      assert ms[j] in ms;
      MemberIff(n, inds, axioms, t, ms[i], ms[j], x);
      PairTarget(MemberBareOf(t), ms, 0, 0, [], i, j, x);
    }
  }

  lemma BareIff(n: nat, inds: nat, axioms: seq<Axiom>, t: Told, s: Concept, c: ClassId)
    requires Inside(n, inds, axioms) && IsTold(n, axioms, t) && s != Atomic(c)
    ensures (s, c) in FlatMap(BareOf(t), axioms) <==> DueBare(axioms, s, c)
  {
    var x: Bare := (s, c);
    if x in FlatMap(BareOf(t), axioms) { BareFrom(n, inds, axioms, t, s, c); }
    if DueBare(axioms, s, c) { BareTo(n, inds, axioms, t, s, c); }
  }

  lemma BareFrom(n: nat, inds: nat, axioms: seq<Axiom>, t: Told, s: Concept, c: ClassId)
    requires Inside(n, inds, axioms) && IsTold(n, axioms, t) && s != Atomic(c) && (s, c) in FlatMap(BareOf(t), axioms)
    ensures DueBare(axioms, s, c)
  {
    var ax := SourceOf(BareOf(t), axioms, (s, c));
    assert (s, c) in AxiomBare(t, ax);
    if ax.SubClassOf? {
      SupBareIff(n, inds, axioms, t, ax.sub, ax.sup, (s, c));
      var u :| IsOperand(u, ax.sup) && LeastAbove(axioms, u, c);
      assert StatedSup(axioms, s, u);
    } else {
      var ms := ax.members;
      SameBareIff(n, inds, axioms, t, ms, (s, c));
      var i, j :| 0 <= i < |ms| && 0 <= j < |ms| && i != j && MemberDue(axioms, ms[i], ms[j], (s, c));
      assert StatedSame(axioms, ms[i], ms[j]);
    }
  }

  lemma BareTo(n: nat, inds: nat, axioms: seq<Axiom>, t: Told, s: Concept, c: ClassId)
    requires Inside(n, inds, axioms) && IsTold(n, axioms, t) && DueBare(axioms, s, c)
    ensures (s, c) in FlatMap(BareOf(t), axioms)
  {
    if u :| StatedSup(axioms, s, u) && LeastAbove(axioms, u, c) {
      var sup :| SubClassOf(s, sup) in axioms && IsOperand(u, sup);
      SupBareIff(n, inds, axioms, t, s, sup, (s, c));
      TargetOf(BareOf(t), axioms, SubClassOf(s, sup), (s, c));
    } else if u :| s.Atomic? && StatedSame(axioms, s, u) && LeastAbove(axioms, u, c) {
      SameTo(n, inds, axioms, t, s, u, (s, c));
    } else {
      var u :| StatedSame(axioms, Atomic(c), u) && u.Or? && s in u.args;
      SameTo(n, inds, axioms, t, Atomic(c), u, (s, c));
    }
  }

  lemma SameTo(n: nat, inds: nat, axioms: seq<Axiom>, t: Told, m: Concept, u: Concept, x: Bare)
    requires Inside(n, inds, axioms) && IsTold(n, axioms, t) && StatedSame(axioms, m, u) && MemberDue(axioms, m, u, x)
    ensures x in FlatMap(BareOf(t), axioms)
  {
    var ms, i, j :| EquivalentClasses(ms) in axioms && 0 <= i < |ms| && 0 <= j < |ms| && i != j && ms[i] == m && ms[j] == u;
    SameBareIff(n, inds, axioms, t, ms, x);
    TargetOf(BareOf(t), axioms, EquivalentClasses(ms), x);
  }

  /** The domain or range the flag says. */
  function EdgeOf(r: Role, c: Concept, isRange: bool): Axiom {
    if isRange then PropertyRange(r, c) else PropertyDomain(r, c)
  }

  lemma EdgeIff(n: nat, inds: nat, axioms: seq<Axiom>, t: Told, r: Role, c: ClassId, isRange: bool)
    requires Inside(n, inds, axioms) && IsTold(n, axioms, t)
    ensures (r, c, isRange) in FlatMap(FindsOf(t), axioms) <==> exists u :: EdgeOf(r, u, isRange) in axioms && LeastAbove(axioms, u, c)
  {
    var x: EdgeFind := (r, c, isRange);
    if x in FlatMap(FindsOf(t), axioms) {
      var ax := SourceOf(FindsOf(t), axioms, x);
      var u := ax.concept;
      assert AxiomInside(n, inds, ax);
      MinimalExact(n, inds, axioms, t, u, c);
      assert ax == EdgeOf(r, u, isRange);
    }
    if u :| EdgeOf(r, u, isRange) in axioms && LeastAbove(axioms, u, c) {
      assert AxiomInside(n, inds, EdgeOf(r, u, isRange));
      MinimalExact(n, inds, axioms, t, u, c);
      TargetOf(FindsOf(t), axioms, EdgeOf(r, u, isRange), x);
    }
  }

  /** What a found triple, subsumption or edge becomes, in the list of appended axioms. */
  lemma FoundIff(t: Told, axioms: seq<Axiom>, ax: Axiom)
    ensures ax in Existentials(t, axioms) <==>
      || (ax.SubClassOf? && ax.sup.SomeOf? && ax.sup.filler.Atomic? && ax.sub != ax.sup &&
          (ax.sub, ax.sup.role, ax.sup.filler.cls) in FlatMap(TriplesOf(t), axioms))
      || (ax.SubClassOf? && ax.sup.Atomic? && ax.sub != ax.sup && (ax.sub, ax.sup.cls) in FlatMap(BareOf(t), axioms))
      || ((ax.PropertyDomain? || ax.PropertyRange?) && ax.concept.Atomic? &&
          (ax.role, ax.concept.cls, ax.PropertyRange?) in FlatMap(FindsOf(t), axioms))
  {
    var triples, bare, finds := FlatMap(TriplesOf(t), axioms), FlatMap(BareOf(t), axioms), FlatMap(FindsOf(t), axioms);
    if ax in FlatMap(TripleAxiom, triples) { var x := SourceOf(TripleAxiom, triples, ax); }
    if ax in FlatMap(BareAxiom, bare) { var x := SourceOf(BareAxiom, bare, ax); }
    if ax in FlatMap(EdgeAxiom, finds) { var x := SourceOf(EdgeAxiom, finds, ax); }
    if ax.SubClassOf? && ax.sup.SomeOf? && ax.sup.filler.Atomic? && ax.sub != ax.sup && (ax.sub, ax.sup.role, ax.sup.filler.cls) in triples {
      TargetOf(TripleAxiom, triples, (ax.sub, ax.sup.role, ax.sup.filler.cls), ax);
    }
    if ax.SubClassOf? && ax.sup.Atomic? && ax.sub != ax.sup && (ax.sub, ax.sup.cls) in bare {
      TargetOf(BareAxiom, bare, (ax.sub, ax.sup.cls), ax);
    }
    if (ax.PropertyDomain? || ax.PropertyRange?) && ax.concept.Atomic? && (ax.role, ax.concept.cls, ax.PropertyRange?) in finds {
      TargetOf(EdgeAxiom, finds, (ax.role, ax.concept.cls, ax.PropertyRange?), ax);
    }
  }

  /** The first pass appends exactly what is due. */
  lemma ExistentialsExact(n: nat, inds: nat, axioms: seq<Axiom>, t: Told, ax: Axiom)
    requires Inside(n, inds, axioms) && IsTold(n, axioms, t)
    ensures ax in Existentials(t, axioms) <==> Due(axioms, ax)
  {
    FoundIff(t, axioms, ax);
    match ax
    case SubClassOf(s, SomeOf(r, Atomic(c))) => TripleIff(n, inds, axioms, t, s, r, c);
    case SubClassOf(s, Atomic(c)) => if s != Atomic(c) { BareIff(n, inds, axioms, t, s, c); }
    case PropertyDomain(r, Atomic(c)) => EdgeIff(n, inds, axioms, t, r, c, false);
    case PropertyRange(r, Atomic(c)) => EdgeIff(n, inds, axioms, t, r, c, true);
    case _ =>
  }

  /** Below every common class of a union there is a least one. */
  lemma LeastBelow(n: nat, inds: nat, axioms: seq<Axiom>, t: Told, u: Concept, o: ClassId) returns (c: ClassId)
    requires Inside(n, inds, axioms) && IsTold(n, axioms, t) && InSig(u, n, inds) && ClassUnion(u) && CommonAbove(axioms, u, o)
    ensures LeastAbove(axioms, u, c) && Reaches(ToldEdges(axioms), c, o)
  {
    UnionInside(n, inds, u);
    InsideEdges(n, inds, axioms);
    MinimalCommonCovers(n, axioms, t, u);
    assert IsCommon(axioms, u.args, o);
    c :| c in MinimalCommon(t, u) && Reaches(ToldEdges(axioms), c, o);
    MinimalExact(n, inds, axioms, t, u, c);
  }

  /** No common class is lost: for each, an inclusion in some class stated below it is there. */
  lemma CommonCovered(n: nat, inds: nat, axioms: seq<Axiom>, t: Told, s: Concept, r: Role, u: Concept, o: ClassId) returns (c: ClassId)
    requires Inside(n, inds, axioms) && IsTold(n, axioms, t) && ClassUnion(u) && CommonAbove(axioms, u, o)
    requires StatedSome(axioms, s, r, u)
    ensures Reaches(ToldEdges(axioms), c, o) && CommonAbove(axioms, u, c)
    ensures s == SomeOf(r, Atomic(c)) || SubClassOf(s, SomeOf(r, Atomic(c))) in Existentials(t, axioms)
  {
    var sup :| SubClassOf(s, sup) in axioms && IsOperand(SomeOf(r, u), sup);
    OperandInside(n, inds, axioms, s, sup, SomeOf(r, u));
    c := LeastBelow(n, inds, axioms, t, u, o);
    ExistentialsExact(n, inds, axioms, t, SubClassOf(s, SomeOf(r, Atomic(c))));
  }

  // ----- the second pass -----

  /** `c`, or something stated above it, is stated apart from `d`. */
  ghost predicate Excluded(axioms: seq<Axiom>, c: ClassId, d: ClassId) {
    exists g: ClassId :: Reaches(ToldEdges(axioms), c, g) && (g, d) in ToldDisjoint(axioms)
  }

  lemma ExcludedIff(n: nat, axioms: seq<Axiom>, t: Told, c: ClassId, d: ClassId)
    requires EdgesBelow(n, axioms) && IsTold(n, axioms, t) && c < n
    ensures IsIncompatible(t, c, d) <==> Excluded(axioms, c, d)
  {
    ReachesSelf(ToldEdges(axioms), c);
    if g :| g in Row(t.supers, c) && AreToldDisjoint(t, g, d) { ToldSubIs(n, axioms, t, c, g); ToldBelow(n, axioms, c, g); }
    if g: ClassId :| Reaches(ToldEdges(axioms), c, g) && (g, d) in ToldDisjoint(axioms) {
      ToldBelow(n, axioms, c, g);
      ToldSubIs(n, axioms, t, c, g);
    }
  }

  /** Only position `k` survives. */
  ghost predicate OnlyAt(axioms: seq<Axiom>, c: ClassId, ds: seq<Concept>, k: nat) {
    k < |ds| && (forall j :: 0 <= j < |ds| ==> ds[j].Atomic? && (Excluded(axioms, c, ds[j].cls) <==> j != k))
  }

  lemma {:induction false} NoneSurvive(n: nat, axioms: seq<Axiom>, t: Told, c: ClassId, ds: seq<Concept>)
    requires EdgesBelow(n, axioms) && IsTold(n, axioms, t) && c < n && AllAtomic(ds)
    ensures Survivors(t, c, ds) == [] <==> forall d :: d in ds ==> Excluded(axioms, c, d.cls)
    decreases ds
  {
    if ds != [] {
      assert ds == [ds[0]] + ds[1..] && ds[0] in ds;
      ExcludedIff(n, axioms, t, c, ds[0].cls);
      NoneSurvive(n, axioms, t, c, ds[1..]);
    }
  }

  lemma {:induction false} OneSurvives(n: nat, axioms: seq<Axiom>, t: Told, c: ClassId, ds: seq<Concept>, k: nat)
    requires EdgesBelow(n, axioms) && IsTold(n, axioms, t) && c < n && AllAtomic(ds) && OnlyAt(axioms, c, ds, k)
    ensures Survivors(t, c, ds) == [ds[k]]
    decreases ds
  {
    assert ds[0] in ds;
    ExcludedIff(n, axioms, t, c, ds[0].cls);
    if k == 0 {
      NoneSurvive(n, axioms, t, c, ds[1..]);
      forall d | d in ds[1..] ensures Excluded(axioms, c, d.cls) { var j :| 0 <= j < |ds[1..]| && ds[1..][j] == d; assert ds[j + 1] == d; }
    } else {
      assert OnlyAt(axioms, c, ds[1..], k - 1) by { assert forall j :: 0 <= j < |ds[1..]| ==> ds[1..][j] == ds[j + 1]; }
      OneSurvives(n, axioms, t, c, ds[1..], k - 1);
    }
  }

  lemma {:induction false} TheSurvivor(n: nat, axioms: seq<Axiom>, t: Told, c: ClassId, ds: seq<Concept>) returns (k: nat)
    requires EdgesBelow(n, axioms) && IsTold(n, axioms, t) && c < n && AllAtomic(ds) && |Survivors(t, c, ds)| == 1
    ensures OnlyAt(axioms, c, ds, k)
    decreases ds
  {
    assert ds[0] in ds;
    ExcludedIff(n, axioms, t, c, ds[0].cls);
    var last: nat;
    if IsIncompatible(t, c, ds[0].cls) {
      last := TheSurvivor(n, axioms, t, c, ds[1..]);
      k := last + 1;
    } else {
      NoneSurvive(n, axioms, t, c, ds[1..]);
      k := 0;
    }
    forall j | 0 <= j < |ds| ensures ds[j].Atomic? && (Excluded(axioms, c, ds[j].cls) <==> j != k) {
      assert ds[j] in ds;
      if j > 0 { assert ds[1..][j - 1] == ds[j] && ds[j] in ds[1..]; }
    }
  }

  /** What one disjunction of classes owes the class below it. */
  ghost predicate Owed(axioms: seq<Axiom>, c: ClassId, ds: seq<Concept>, target: Concept) {
    (forall d :: d in ds ==> d.Atomic?) &&
    ((target == Bot && forall d :: d in ds ==> Excluded(axioms, c, d.cls)) ||
     (target != Atomic(c) && exists k: nat :: OnlyAt(axioms, c, ds, k) && target == ds[k]))
  }

  lemma OwedIff(n: nat, axioms: seq<Axiom>, t: Told, src: Axiom, ax: Axiom)
    requires EdgesBelow(n, axioms) && IsTold(n, axioms, t) && (src.SubClassOf? && src.sub.Atomic? ==> src.sub.cls < n)
    ensures ax in ForcedBy(t, src) <==>
      src.SubClassOf? && src.sub.Atomic? && src.sup.Or? && ax.SubClassOf? && ax.sub == src.sub && Owed(axioms, src.sub.cls, src.sup.args, ax.sup)
  {
    if src.SubClassOf? && src.sub.Atomic? && src.sup.Or? && AllAtomic(src.sup.args) {
      if ax.SubClassOf? { TargetIff(n, axioms, t, src.sub.cls, src.sup.args, ax.sup); }
    }
  }

  /** A survivor left alone, or ⊥ when there is none. */
  lemma TargetIff(n: nat, axioms: seq<Axiom>, t: Told, c: ClassId, ds: seq<Concept>, target: Concept)
    requires EdgesBelow(n, axioms) && IsTold(n, axioms, t) && c < n && AllAtomic(ds)
    ensures var left := Survivors(t, c, ds);
      Owed(axioms, c, ds, target) <==> (left == [] && target == Bot) || (|left| == 1 && target == left[0] && target != Atomic(c))
  {
    var left := Survivors(t, c, ds);
    NoneSurvive(n, axioms, t, c, ds);
    if |left| == 1 {
      var k := TheSurvivor(n, axioms, t, c, ds);
      OneSurvives(n, axioms, t, c, ds, k);
      assert left[0] in ds;
    }
    if k: nat :| OnlyAt(axioms, c, ds, k) && target == ds[k] { OneSurvives(n, axioms, t, c, ds, k); }
  }

  ghost predicate DueForced(axioms: seq<Axiom>, ax: Axiom) {
    ax.SubClassOf? && ax.sub.Atomic? && exists ds :: SubClassOf(ax.sub, Or(ds)) in axioms && Owed(axioms, ax.sub.cls, ds, ax.sup)
  }

  /** The second pass appends exactly what the stated disjunctions owe. */
  lemma ForcedExact(n: nat, inds: nat, axioms: seq<Axiom>, t: Told, ax: Axiom)
    requires Inside(n, inds, axioms) && IsTold(n, axioms, t)
    ensures ax in Forced(t, axioms) <==> DueForced(axioms, ax)
  {
    InsideEdges(n, inds, axioms);
    if ax in Forced(t, axioms) {
      var src := SourceOf(ForcedOf(t), axioms, ax);
      assert AxiomInside(n, inds, src);
      OwedIff(n, axioms, t, src, ax);
      assert src == SubClassOf(ax.sub, Or(src.sup.args));
    }
    if DueForced(axioms, ax) {
      var ds :| SubClassOf(ax.sub, Or(ds)) in axioms && Owed(axioms, ax.sub.cls, ds, ax.sup);
      assert AxiomInside(n, inds, SubClassOf(ax.sub, Or(ds)));
      OwedIff(n, axioms, t, SubClassOf(ax.sub, Or(ds)), ax);
      TargetOf(ForcedOf(t), axioms, SubClassOf(ax.sub, Or(ds)), ax);
    }
  }

  /** Both passes in a row: what is due of the stated axioms, then what those and the stated ones owe. */
  lemma PreprocessedExact(n: nat, inds: nat, before: seq<Axiom>, after: seq<Axiom>) returns (middle: seq<Axiom>)
    requires Inside(n, inds, before) && Preprocessed(n, before, after)
    ensures before <= middle <= after
    ensures forall ax :: ax in middle <==> ax in before || Due(before, ax)
    ensures forall ax :: ax in after <==> ax in middle || DueForced(middle, ax)
  {
    var t, u :| IsTold(n, before, t) && IsTold(n, before + Existentials(t, before), u) &&
      after == before + Existentials(t, before) + Forced(u, before + Existentials(t, before));
    middle := before + Existentials(t, before);
    ExistentialsInside(n, inds, before, t);
    forall ax ensures ax in middle <==> ax in before || Due(before, ax) { ExistentialsExact(n, inds, before, t, ax); }
    forall ax ensures ax in after <==> ax in middle || DueForced(middle, ax) { ForcedExact(n, inds, middle, u, ax); }
  }
}
