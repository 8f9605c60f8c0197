/** The description logic that every pass of the pipeline speaks: roles, concepts,
    axioms, and what they mean in an interpretation.

    An interpretation is given over an arbitrary element type `E`, whose values are the
    domain, so a lemma that is generic in `E` is about every interpretation. */
module Dl {

  datatype Option<+T> = None | Some(value: T)

  type ClassId = nat
  type RoleId = nat
  type IndId = nat

  /** A role expression: a named object property or the inverse of one. */
  datatype Role = Named(id: RoleId) | Inverse(id: RoleId) {
    function Flip(): Role {
      if Named? then Inverse(id) else Named(id)
    }
  }

  /** Concept expressions. `SomeOf` is ∃R.C and `AllOf` is ∀R.C. */
  datatype Concept =
    | Top
    | Bot
    | Atomic(cls: ClassId)
    | Nominal(ind: IndId)
    | HasSelf(role: Role)
    | Not(arg: Concept)
    | And(args: seq<Concept>)
    | Or(args: seq<Concept>)
    | SomeOf(role: Role, filler: Concept)
    | AllOf(role: Role, filler: Concept)
    | Min(n: nat, role: Role, filler: Concept)
    | Max(n: nat, role: Role, filler: Concept)

  datatype Axiom =
    | SubClassOf(sub: Concept, sup: Concept)
    | EquivalentClasses(members: seq<Concept>)
    | DisjointClasses(members: seq<Concept>)
    | DisjointUnion(cls: ClassId, members: seq<Concept>)
    | SubProperty(subRole: Role, supRole: Role)
    | SubChain(parts: seq<Role>, supRole: Role)
    | EquivalentProperties(roles: seq<Role>)
    | DisjointProperties(roles: seq<Role>)
    | InverseProperties(left: Role, right: Role)
    | PropertyDomain(role: Role, concept: Concept)
    | PropertyRange(role: Role, concept: Concept)
    | TransitiveRole(role: Role)
    | SymmetricRole(role: Role)
    | AsymmetricRole(role: Role)
    | ReflexiveRole(role: Role)
    | IrreflexiveRole(role: Role)
    | FunctionalRole(role: Role)
    | InverseFunctionalRole(role: Role)
    | Other  // assertions and declarations, which the modelled passes ignore

  // ----- meaning -----

  datatype Interp<!E> = Interp(
    cls: (ClassId, E) -> bool,
    rol: (RoleId, E, E) -> bool,
    ind: IndId -> E)

  ghost predicate Rel<E>(I: Interp<E>, r: Role, x: E, y: E) {
    if r.Named? then I.rol(r.id, x, y) else I.rol(r.id, y, x)
  }

  ghost predicate Sat<E(!new)>(I: Interp<E>, c: Concept, d: E)
    decreases c, 0
  {
    match c
    case Top => true
    case Bot => false
    case Atomic(a) => I.cls(a, d)
    case Nominal(i) => d == I.ind(i)
    case HasSelf(r) => Rel(I, r, d, d)
    case Not(x) => !Sat(I, x, d)
    case And(cs) => forall x :: x in cs ==> Sat(I, x, d)
    case Or(cs) => exists x :: x in cs && Sat(I, x, d)
    case SomeOf(r, f) => exists e :: Rel(I, r, d, e) && Sat(I, f, e)
    case AllOf(r, f) => forall e :: Rel(I, r, d, e) ==> Sat(I, f, e)
    case Min(n, r, f) => HasSuccessors(I, n, r, f, d)
    case Max(n, r, f) => !HasSuccessors(I, n + 1, r, f, d)
  }

  /** `d` has `n` distinct `r`-successors in `f`. */
  ghost predicate HasSuccessors<E(!new)>(I: Interp<E>, n: nat, r: Role, f: Concept, d: E)
    decreases f, 2
  {
    exists s: set<E> :: |s| == n && AllSuccessors(I, s, r, f, d)
  }

  ghost predicate AllSuccessors<E(!new)>(I: Interp<E>, s: set<E>, r: Role, f: Concept, d: E)
    decreases f, 1
  {
    forall e :: e in s ==> Rel(I, r, d, e) && Sat(I, f, e)
  }

  ghost predicate Subsumed<E(!new)>(I: Interp<E>, c: Concept, d: Concept) {
    forall x :: Sat(I, c, x) ==> Sat(I, d, x)
  }

  ghost predicate Disjoint<E(!new)>(I: Interp<E>, c: Concept, d: Concept) {
    forall x :: !(Sat(I, c, x) && Sat(I, d, x))
  }

  ghost predicate SubRole<E(!new)>(I: Interp<E>, r: Role, s: Role) {
    forall x, y :: Rel(I, r, x, y) ==> Rel(I, s, x, y)
  }

  /** `x` reaches `y` along the composition of `parts`. */
  ghost predicate Along<E(!new)>(I: Interp<E>, parts: seq<Role>, x: E, y: E) {
    if parts == [] then x == y
    else exists z :: Rel(I, parts[0], x, z) && Along(I, parts[1..], z, y)
  }

  ghost predicate PairwiseDisjoint<E(!new)>(I: Interp<E>, cs: seq<Concept>) {
    forall i, j :: 0 <= i < j < |cs| ==> Disjoint(I, cs[i], cs[j])
  }

  ghost predicate PairwiseSubsumed<E(!new)>(I: Interp<E>, cs: seq<Concept>) {
    forall i, j :: 0 <= i < |cs| && 0 <= j < |cs| ==> Subsumed(I, cs[i], cs[j])
  }

  ghost predicate PairwiseRoleDisjoint<E(!new)>(I: Interp<E>, rs: seq<Role>) {
    forall i, j, x, y :: 0 <= i < j < |rs| ==> !(Rel(I, rs[i], x, y) && Rel(I, rs[j], x, y))
  }

  /** OWL 2 Direct Semantics, sections 2.3.1 and 2.3.2. */
  ghost predicate Holds<E(!new)>(I: Interp<E>, ax: Axiom) {
    match ax
    case SubClassOf(c, d) => Subsumed(I, c, d)
    case EquivalentClasses(cs) => PairwiseSubsumed(I, cs)
    case DisjointClasses(cs) => PairwiseDisjoint(I, cs)
    case DisjointUnion(a, cs) =>
      PairwiseDisjoint(I, cs) && forall d :: I.cls(a, d) <==> Sat(I, Or(cs), d)
    case SubProperty(r, s) => SubRole(I, r, s)
    case SubChain(parts, s) => forall x, y :: Along(I, parts, x, y) ==> Rel(I, s, x, y)
    case EquivalentProperties(rs) =>
      forall i, j :: 0 <= i < |rs| && 0 <= j < |rs| ==> SubRole(I, rs[i], rs[j])
    case DisjointProperties(rs) => PairwiseRoleDisjoint(I, rs)
    case InverseProperties(r, s) => forall x, y :: Rel(I, r, x, y) <==> Rel(I, s, y, x)
    case PropertyDomain(r, c) => forall x, y :: Rel(I, r, x, y) ==> Sat(I, c, x)
    case PropertyRange(r, c) => forall x, y :: Rel(I, r, x, y) ==> Sat(I, c, y)
    case TransitiveRole(r) => forall x, y, z :: Rel(I, r, x, y) && Rel(I, r, y, z) ==> Rel(I, r, x, z)
    case SymmetricRole(r) => forall x, y :: Rel(I, r, x, y) ==> Rel(I, r, y, x)
    case AsymmetricRole(r) => forall x, y :: Rel(I, r, x, y) ==> !Rel(I, r, y, x)
    case ReflexiveRole(r) => forall x :: Rel(I, r, x, x)
    case IrreflexiveRole(r) => forall x :: !Rel(I, r, x, x)
    case FunctionalRole(r) => forall x, y, z :: Rel(I, r, x, y) && Rel(I, r, x, z) ==> y == z
    case InverseFunctionalRole(r) => forall x, y, z :: Rel(I, r, y, x) && Rel(I, r, z, x) ==> y == z
    case Other => true
  }

  ghost predicate Models<E(!new)>(I: Interp<E>, axioms: seq<Axiom>) {
    forall ax :: ax in axioms ==> Holds(I, ax)
  }

  // ----- frames -----

  /** The concept uses only classes below `classes` and individuals below `inds`. */
  ghost predicate InSig(c: Concept, classes: nat, inds: nat)
    decreases c
  {
    match c
    case Atomic(a) => a < classes
    case Nominal(i) => i < inds
    case Not(x) => InSig(x, classes, inds)
    case And(cs) => forall x :: x in cs ==> InSig(x, classes, inds)
    case Or(cs) => forall x :: x in cs ==> InSig(x, classes, inds)
    case SomeOf(_, f) => InSig(f, classes, inds)
    case AllOf(_, f) => InSig(f, classes, inds)
    case Min(_, _, f) => InSig(f, classes, inds)
    case Max(_, _, f) => InSig(f, classes, inds)
    case _ => true
  }

  /** Two interpretations that read every role and individual alike, and the classes below a bound. */
  ghost predicate Agree<E(!new)>(I: Interp<E>, K: Interp<E>, classes: nat) {
    && (forall c: ClassId, d :: c < classes ==> I.cls(c, d) == K.cls(c, d))
    && (forall r, x, y :: Rel(I, r, x, y) == Rel(K, r, x, y))
    && (forall i :: I.ind(i) == K.ind(i))
  }

  lemma {:induction false} SatAgree<E(!new)>(I: Interp<E>, K: Interp<E>, c: Concept, classes: nat, inds: nat, d: E)
    requires Agree(I, K, classes) && InSig(c, classes, inds)
    ensures Sat(I, c, d) == Sat(K, c, d)
    decreases c
  {
    match c
    case Not(x) => SatAgree(I, K, x, classes, inds, d);
    case And(cs) => forall x | x in cs { SatAgree(I, K, x, classes, inds, d); }
    case Or(cs) => forall x | x in cs { SatAgree(I, K, x, classes, inds, d); }
    case SomeOf(_, f) => forall e { SatAgree(I, K, f, classes, inds, e); }
    case AllOf(_, f) => forall e { SatAgree(I, K, f, classes, inds, e); }
    case Min(n, r, f) =>
      forall e { SatAgree(I, K, f, classes, inds, e); }
      SuccessorsAgree(I, K, n, r, f, d);
    case Max(n, r, f) =>
      forall e { SatAgree(I, K, f, classes, inds, e); }
      SuccessorsAgree(I, K, n + 1, r, f, d);
    case _ =>
  }

  lemma SuccessorsAgree<E(!new)>(I: Interp<E>, K: Interp<E>, n: nat, r: Role, f: Concept, d: E)
    requires forall e :: Rel(I, r, d, e) == Rel(K, r, d, e)
    requires forall e :: Sat(I, f, e) == Sat(K, f, e)
    ensures HasSuccessors(I, n, r, f, d) == HasSuccessors(K, n, r, f, d)
  {
    forall s: set<E> ensures AllSuccessors(I, s, r, f, d) == AllSuccessors(K, s, r, f, d) {}
  }

  lemma HasSuccessorsMono<E(!new)>(I: Interp<E>, n: nat, r: Role, f: Concept, K: Interp<E>, s: Role, g: Concept, d: E)
    requires HasSuccessors(I, n, r, f, d)
    requires forall e :: Rel(I, r, d, e) && Sat(I, f, e) ==> Rel(K, s, d, e) && Sat(K, g, e)
    ensures HasSuccessors(K, n, s, g, d)
  {
    var t: set<E> :| |t| == n && AllSuccessors(I, t, r, f, d);
    assert AllSuccessors(K, t, s, g, d);
  }

  // ----- the pool's normalising constructors -----

  /** Rank of a concept in the pool: its intern id. Ids never change once given, so a run of
      the growing pool agrees with the final assignment, which is what `Order` stands for. */
  type Order = Concept -> nat

  function Insert(ord: Order, c: Concept, v: seq<Concept>): (r: seq<Concept>)
    ensures forall x :: x in r <==> x == c || x in v
    ensures Sorted(ord, v) ==> Sorted(ord, r)
  {
    if v == [] then [c]
    else if ord(c) <= ord(v[0]) then [c] + v
    else
      var rest := Insert(ord, c, v[1..]);
      assert Sorted(ord, v) ==> forall x :: x in rest ==> ord(v[0]) <= ord(x) by {
        assert forall x :: x in v[1..] ==> exists j :: 0 < j < |v| && v[j] == x;
      }
      assert Sorted(ord, v) ==> Sorted(ord, v[1..]);
      [v[0]] + rest
  }

  ghost predicate Sorted(ord: Order, v: seq<Concept>) {
    forall i, j :: 0 <= i < j < |v| ==> ord(v[i]) <= ord(v[j])
  }

  function Sort(ord: Order, v: seq<Concept>): (r: seq<Concept>)
    ensures forall x :: x in r <==> x in v
    ensures Sorted(ord, r)
  {
    if v == [] then [] else Insert(ord, v[0], Sort(ord, v[1..]))
  }

  /** Drops adjacent repetitions. */
  function Dedup(v: seq<Concept>): (r: seq<Concept>)
    ensures forall x :: x in r <==> x in v
    ensures |r| <= |v|
  {
    if |v| <= 1 then v
    else if v[0] == v[1] then Dedup(v[1..])
    else [v[0]] + Dedup(v[1..])
  }

  /** The operands `c` contributes to an intersection: ⊤ none, an intersection its own. */
  function AndOperands(c: Concept): seq<Concept> {
    match c
    case Top => []
    case Bot => []
    case And(inner) => inner
    case _ => [c]
  }

  function OrOperands(c: Concept): seq<Concept> {
    match c
    case Top => []
    case Bot => []
    case Or(inner) => inner
    case _ => [c]
  }

  function FlattenAnd(args: seq<Concept>): seq<Concept> {
    if args == [] then [] else AndOperands(args[0]) + FlattenAnd(args[1..])
  }

  function FlattenOr(args: seq<Concept>): seq<Concept> {
    if args == [] then [] else OrOperands(args[0]) + FlattenOr(args[1..])
  }

  function MkAnd(ord: Order, args: seq<Concept>): Concept {
    if Bot in args then Bot
    else
      var v := Dedup(Sort(ord, FlattenAnd(args)));
      if |v| == 0 then Top else if |v| == 1 then v[0] else And(v)
  }

  function MkOr(ord: Order, args: seq<Concept>): Concept {
    if Top in args then Top
    else
      var v := Dedup(Sort(ord, FlattenOr(args)));
      if |v| == 0 then Bot else if |v| == 1 then v[0] else Or(v)
  }

  function MkMin(n: nat, r: Role, c: Concept): Concept {
    if n == 0 then Top else Min(n, r, c)
  }

  lemma {:induction false} FlattenAndSat<E(!new)>(I: Interp<E>, args: seq<Concept>, d: E)
    requires Bot !in args
    ensures Sat(I, And(FlattenAnd(args)), d) <==> Sat(I, And(args), d)
  {
    if args != [] {
      FlattenAndSat(I, args[1..], d);
      assert args == [args[0]] + args[1..];
      var front := AndOperands(args[0]);
      assert Sat(I, And(front), d) <==> Sat(I, args[0], d);
      AndSplit(I, front, FlattenAnd(args[1..]), d);
      AndSplit(I, [args[0]], args[1..], d);
    }
  }

  lemma AndSplit<E(!new)>(I: Interp<E>, xs: seq<Concept>, ys: seq<Concept>, d: E)
    ensures Sat(I, And(xs + ys), d) <==> Sat(I, And(xs), d) && Sat(I, And(ys), d)
  {
  }

  lemma OrSplit<E(!new)>(I: Interp<E>, xs: seq<Concept>, ys: seq<Concept>, d: E)
    ensures Sat(I, Or(xs + ys), d) <==> Sat(I, Or(xs), d) || Sat(I, Or(ys), d)
  {
    if x :| x in xs && Sat(I, x, d) { assert x in xs + ys; }
    if x :| x in ys && Sat(I, x, d) { assert x in xs + ys; }
  }

  lemma {:induction false} FlattenOrSat<E(!new)>(I: Interp<E>, args: seq<Concept>, d: E)
    requires Top !in args
    ensures Sat(I, Or(FlattenOr(args)), d) <==> Sat(I, Or(args), d)
  {
    if args != [] {
      FlattenOrSat(I, args[1..], d);
      assert args == [args[0]] + args[1..];
      var front := OrOperands(args[0]);
      assert Sat(I, Or(front), d) <==> Sat(I, args[0], d) by {
        if !args[0].Or? && !args[0].Bot? { assert args[0] in front; }
      }
      OrSplit(I, front, FlattenOr(args[1..]), d);
      OrSplit(I, [args[0]], args[1..], d);
      assert Sat(I, Or([args[0]]), d) <==> Sat(I, args[0], d) by { assert args[0] in [args[0]]; }
    }
  }

  /** The normalising constructors mean intersection and union, whatever the intern order. */
  lemma MkAndSat<E(!new)>(I: Interp<E>, ord: Order, args: seq<Concept>, d: E)
    ensures Sat(I, MkAnd(ord, args), d) <==> Sat(I, And(args), d)
  {
    if Bot !in args {
      FlattenAndSat(I, args, d);
      var v := Dedup(Sort(ord, FlattenAnd(args)));
      if |v| == 1 { assert v == [v[0]]; }
    }
  }

  lemma MkOrSat<E(!new)>(I: Interp<E>, ord: Order, args: seq<Concept>, d: E)
    ensures Sat(I, MkOr(ord, args), d) <==> Sat(I, Or(args), d)
  {
    if Top in args {
      assert Sat(I, Top, d);
    } else {
      FlattenOrSat(I, args, d);
      var v := Dedup(Sort(ord, FlattenOr(args)));
      assert Sat(I, Or(v), d) <==> Sat(I, Or(FlattenOr(args)), d);
      if |v| == 1 { assert v == [v[0]]; assert v[0] in v; }
    }
  }

  // ----- negation normal form -----

  predicate Literal(c: Concept) {
    c.Atomic? || c.Nominal? || c.HasSelf?
  }

  predicate IsNnf(c: Concept)
    decreases c
  {
    match c
    case Not(x) => Literal(x)
    case And(cs) => forall x :: x in cs ==> IsNnf(x)
    case Or(cs) => forall x :: x in cs ==> IsNnf(x)
    case SomeOf(_, f) => IsNnf(f)
    case AllOf(_, f) => IsNnf(f)
    case Min(_, _, f) => IsNnf(f)
    case Max(_, _, f) => IsNnf(f)
    case _ => true
  }

  function ToNnf(ord: Order, c: Concept): Concept
    decreases c, 0
  {
    match c
    case Not(x) => Complement(ord, x)
    case And(cs) => MkAnd(ord, ToNnfAll(ord, cs))
    case Or(cs) => MkOr(ord, ToNnfAll(ord, cs))
    case SomeOf(r, f) => SomeOf(r, ToNnf(ord, f))
    case AllOf(r, f) => AllOf(r, ToNnf(ord, f))
    case Min(n, r, f) => MkMin(n, r, ToNnf(ord, f))
    case Max(n, r, f) => Max(n, r, ToNnf(ord, f))
    case _ => c
  }

  function ToNnfAll(ord: Order, cs: seq<Concept>): (r: seq<Concept>)
    ensures |r| == |cs| && forall k :: 0 <= k < |cs| ==> r[k] == ToNnf(ord, cs[k])
    decreases cs, 1
  {
    if cs == [] then [] else [ToNnf(ord, cs[0])] + ToNnfAll(ord, cs[1..])
  }

  /** The negation normal form of the complement of `c`. */
  function Complement(ord: Order, c: Concept): Concept
    decreases c, 0
  {
    match c
    case Top => Bot
    case Bot => Top
    case Atomic(_) => Not(c)
    case Nominal(_) => Not(c)
    case HasSelf(_) => Not(c)
    case Not(x) => ToNnf(ord, x)
    case And(cs) => MkOr(ord, ComplementAll(ord, cs))
    case Or(cs) => MkAnd(ord, ComplementAll(ord, cs))
    case SomeOf(r, f) => AllOf(r, Complement(ord, f))
    case AllOf(r, f) => SomeOf(r, Complement(ord, f))
    case Min(n, r, f) => if n == 0 then Bot else Max(n - 1, r, ToNnf(ord, f))
    case Max(n, r, f) => MkMin(n + 1, r, ToNnf(ord, f))
  }

  function ComplementAll(ord: Order, cs: seq<Concept>): (r: seq<Concept>)
    ensures |r| == |cs| && forall k :: 0 <= k < |cs| ==> r[k] == Complement(ord, cs[k])
    decreases cs, 1
  {
    if cs == [] then [] else [Complement(ord, cs[0])] + ComplementAll(ord, cs[1..])
  }

  /** Negation normal form keeps the meaning, and the complement form negates it. */
  lemma {:induction false} NnfSat<E(!new)>(I: Interp<E>, ord: Order, c: Concept, d: E)
    ensures Sat(I, ToNnf(ord, c), d) <==> Sat(I, c, d)
    ensures Sat(I, Complement(ord, c), d) <==> !Sat(I, c, d)
    decreases c, 0
  {
    match c
    case Not(x) => NnfSat(I, ord, x, d);
    case And(cs) =>
      NnfSatAll(I, ord, cs, d);
      MkAndSat(I, ord, ToNnfAll(ord, cs), d);
      MkOrSat(I, ord, ComplementAll(ord, cs), d);
    case Or(cs) =>
      NnfSatAll(I, ord, cs, d);
      MkOrSat(I, ord, ToNnfAll(ord, cs), d);
      MkAndSat(I, ord, ComplementAll(ord, cs), d);
    case SomeOf(r, f) => forall e { NnfSat(I, ord, f, e); }
    case AllOf(r, f) => forall e { NnfSat(I, ord, f, e); }
    case Min(n, r, f) => CardinalitySat(I, ord, c, n, d);
    case Max(n, r, f) => CardinalitySat(I, ord, c, n + 1, d);
    case _ =>
  }

  lemma {:induction false} CardinalitySat<E(!new)>(I: Interp<E>, ord: Order, c: Concept, k: nat, d: E)
    requires (c.Min? && k == c.n) || (c.Max? && k == c.n + 1)
    ensures Sat(I, ToNnf(ord, c), d) <==> Sat(I, c, d)
    ensures Sat(I, Complement(ord, c), d) <==> !Sat(I, c, d)
    decreases c.filler, 2
  {
    forall e { NnfSat(I, ord, c.filler, e); }
    NnfSuccessors(I, k, c.role, ToNnf(ord, c.filler), c.filler, d);
    ZeroSuccessors(I, c.role, c.filler, d);
  }

  lemma {:induction false} NnfSatAll<E(!new)>(I: Interp<E>, ord: Order, cs: seq<Concept>, d: E)
    ensures Sat(I, And(ToNnfAll(ord, cs)), d) <==> Sat(I, And(cs), d)
    ensures Sat(I, Or(ToNnfAll(ord, cs)), d) <==> Sat(I, Or(cs), d)
    ensures Sat(I, Or(ComplementAll(ord, cs)), d) <==> !Sat(I, And(cs), d)
    ensures Sat(I, And(ComplementAll(ord, cs)), d) <==> !Sat(I, Or(cs), d)
    decreases cs, 1
  {
    forall k | 0 <= k < |cs|
      ensures Sat(I, ToNnf(ord, cs[k]), d) <==> Sat(I, cs[k], d)
      ensures Sat(I, Complement(ord, cs[k]), d) <==> !Sat(I, cs[k], d)
    {
      NnfSat(I, ord, cs[k], d);
    }
    Pointwise(I, ToNnfAll(ord, cs), cs, d);
    PointwiseNeg(I, ComplementAll(ord, cs), cs, d);
  }

  lemma AndAt<E(!new)>(I: Interp<E>, xs: seq<Concept>, d: E)
    ensures Sat(I, And(xs), d) <==> forall k :: 0 <= k < |xs| ==> Sat(I, xs[k], d)
  {
    if forall k :: 0 <= k < |xs| ==> Sat(I, xs[k], d) {
      forall x | x in xs ensures Sat(I, x, d) { var k :| 0 <= k < |xs| && xs[k] == x; }
    }
  }

  lemma OrAt<E(!new)>(I: Interp<E>, xs: seq<Concept>, d: E)
    ensures Sat(I, Or(xs), d) <==> exists k :: 0 <= k < |xs| && Sat(I, xs[k], d)
  {
    if x :| x in xs && Sat(I, x, d) { var k :| 0 <= k < |xs| && xs[k] == x; }
  }

  lemma Pointwise<E(!new)>(I: Interp<E>, xs: seq<Concept>, ys: seq<Concept>, d: E)
    requires |xs| == |ys|
    requires forall k :: 0 <= k < |xs| ==> Sat(I, xs[k], d) == Sat(I, ys[k], d)
    ensures Sat(I, And(xs), d) == Sat(I, And(ys), d)
    ensures Sat(I, Or(xs), d) == Sat(I, Or(ys), d)
  {
    AndAt(I, xs, d); AndAt(I, ys, d); OrAt(I, xs, d); OrAt(I, ys, d);
  }

  lemma PointwiseNeg<E(!new)>(I: Interp<E>, xs: seq<Concept>, ys: seq<Concept>, d: E)
    requires |xs| == |ys|
    requires forall k :: 0 <= k < |xs| ==> Sat(I, xs[k], d) == !Sat(I, ys[k], d)
    ensures Sat(I, And(xs), d) == !Sat(I, Or(ys), d)
    ensures Sat(I, Or(xs), d) == !Sat(I, And(ys), d)
  {
    AndAt(I, xs, d); AndAt(I, ys, d); OrAt(I, xs, d); OrAt(I, ys, d);
  }

  lemma ZeroSuccessors<E(!new)>(I: Interp<E>, r: Role, f: Concept, d: E)
    ensures HasSuccessors(I, 0, r, f, d)
  {
    var s: set<E> := {};
    assert |s| == 0 && AllSuccessors(I, s, r, f, d);
  }

  lemma NnfSuccessors<E(!new)>(I: Interp<E>, n: nat, r: Role, f: Concept, g: Concept, d: E)
    requires forall e :: Sat(I, f, e) == Sat(I, g, e)
    ensures HasSuccessors(I, n, r, f, d) == HasSuccessors(I, n, r, g, d)
  {
    forall s: set<E> ensures AllSuccessors(I, s, r, f, d) == AllSuccessors(I, s, r, g, d) {}
  }

  lemma MkNnf(ord: Order, args: seq<Concept>)
    requires forall x :: x in args ==> IsNnf(x)
    ensures IsNnf(MkAnd(ord, args)) && IsNnf(MkOr(ord, args))
  {
    FlattenNnf(args);
  }

  lemma {:induction false} FlattenNnf(args: seq<Concept>)
    requires forall x :: x in args ==> IsNnf(x)
    ensures forall x :: x in FlattenAnd(args) || x in FlattenOr(args) ==> IsNnf(x)
  {
    if args != [] {
      FlattenNnf(args[1..]);
      assert IsNnf(args[0]);
    }
  }

  lemma {:induction false} NnfIsNnf(ord: Order, c: Concept)
    ensures IsNnf(ToNnf(ord, c)) && IsNnf(Complement(ord, c))
    decreases c
  {
    match c
    case Not(x) => NnfIsNnf(ord, x);
    case And(cs) =>
      forall k | 0 <= k < |cs| ensures IsNnf(ToNnf(ord, cs[k])) && IsNnf(Complement(ord, cs[k])) { NnfIsNnf(ord, cs[k]); }
      MkNnf(ord, ToNnfAll(ord, cs)); MkNnf(ord, ComplementAll(ord, cs));
    case Or(cs) =>
      forall k | 0 <= k < |cs| ensures IsNnf(ToNnf(ord, cs[k])) && IsNnf(Complement(ord, cs[k])) { NnfIsNnf(ord, cs[k]); }
      MkNnf(ord, ToNnfAll(ord, cs)); MkNnf(ord, ComplementAll(ord, cs));
    case SomeOf(_, f) => NnfIsNnf(ord, f);
    case AllOf(_, f) => NnfIsNnf(ord, f);
    case Min(_, _, f) => NnfIsNnf(ord, f);
    case Max(_, _, f) => NnfIsNnf(ord, f);
    case _ =>
  }

  /** Negation normal form of every concept an axiom embeds. */
  function NnfAxiom(ord: Order, ax: Axiom): Axiom {
    match ax
    case SubClassOf(c, d) => SubClassOf(ToNnf(ord, c), ToNnf(ord, d))
    case EquivalentClasses(cs) => EquivalentClasses(ToNnfAll(ord, cs))
    case DisjointClasses(cs) => DisjointClasses(ToNnfAll(ord, cs))
    case DisjointUnion(a, cs) => DisjointUnion(a, ToNnfAll(ord, cs))
    case PropertyDomain(r, c) => PropertyDomain(r, ToNnf(ord, c))
    case PropertyRange(r, c) => PropertyRange(r, ToNnf(ord, c))
    case _ => ax
  }

  lemma NnfAxiomHolds<E(!new)>(I: Interp<E>, ord: Order, ax: Axiom)
    ensures Holds(I, NnfAxiom(ord, ax)) <==> Holds(I, ax)
  {
    match ax
    case SubClassOf(c, d) => NnfPair(I, ord, c, d);
    case PropertyDomain(_, c) => forall d { NnfSat(I, ord, c, d); }
    case PropertyRange(_, c) => forall d { NnfSat(I, ord, c, d); }
    case EquivalentClasses(cs) => NnfMembers(I, ord, cs);
    case DisjointClasses(cs) => NnfMembers(I, ord, cs);
    case DisjointUnion(a, cs) => NnfUnion(I, ord, a, cs);
    case _ =>
  }

  lemma NnfUnion<E(!new)>(I: Interp<E>, ord: Order, a: ClassId, cs: seq<Concept>)
    ensures Holds(I, DisjointUnion(a, ToNnfAll(ord, cs))) <==> Holds(I, DisjointUnion(a, cs))
  {
    NnfMembers(I, ord, cs);
    forall d ensures Sat(I, Or(ToNnfAll(ord, cs)), d) == Sat(I, Or(cs), d) { NnfSatAll(I, ord, cs, d); }
  }

  lemma NnfMembers<E(!new)>(I: Interp<E>, ord: Order, cs: seq<Concept>)
    ensures PairwiseDisjoint(I, ToNnfAll(ord, cs)) <==> PairwiseDisjoint(I, cs)
    ensures PairwiseSubsumed(I, ToNnfAll(ord, cs)) <==> PairwiseSubsumed(I, cs)
  {
    var ns := ToNnfAll(ord, cs);
    forall i, j | 0 <= i < |cs| && 0 <= j < |cs|
      ensures Disjoint(I, ns[i], ns[j]) == Disjoint(I, cs[i], cs[j])
      ensures Subsumed(I, ns[i], ns[j]) == Subsumed(I, cs[i], cs[j])
    {
      NnfPair(I, ord, cs[i], cs[j]);
    }
    SameMembers(I, ns, cs);
  }

  lemma SameMembers<E(!new)>(I: Interp<E>, xs: seq<Concept>, ys: seq<Concept>)
    requires |xs| == |ys|
    requires forall i, j :: 0 <= i < |xs| && 0 <= j < |xs| ==> Disjoint(I, xs[i], xs[j]) == Disjoint(I, ys[i], ys[j])
    requires forall i, j :: 0 <= i < |xs| && 0 <= j < |xs| ==> Subsumed(I, xs[i], xs[j]) == Subsumed(I, ys[i], ys[j])
    ensures PairwiseDisjoint(I, xs) == PairwiseDisjoint(I, ys)
    ensures PairwiseSubsumed(I, xs) == PairwiseSubsumed(I, ys)
  {
  }

  lemma NnfPair<E(!new)>(I: Interp<E>, ord: Order, c: Concept, d: Concept)
    ensures Disjoint(I, ToNnf(ord, c), ToNnf(ord, d)) == Disjoint(I, c, d)
    ensures Subsumed(I, ToNnf(ord, c), ToNnf(ord, d)) == Subsumed(I, c, d)
  {
    forall x
      ensures Sat(I, ToNnf(ord, c), x) == Sat(I, c, x)
      ensures Sat(I, ToNnf(ord, d), x) == Sat(I, d, x)
    {
      NnfSat(I, ord, c, x);
      NnfSat(I, ord, d, x);
    }
  }
}
