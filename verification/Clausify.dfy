/** What the clausifier computes, as functions on values, and what that means.

    A state lists the clauses emitted so far and the concepts the structural names stand
    for: the `k`-th fresh class names `names[k]`. `Clausifier.dfy` holds the class whose
    methods compute these functions step by step. */
module Clausify {
  import opened Dl
  import opened Clauses

  /** Cap on the alternative bodies an antecedent may distribute into. */
  const ANTECEDENT_DNF_CAP: nat := 64

  datatype Config = Config(
    ord: Order,                  // intern order of the concept pool
    nominalBase: ClassId,        // nominal {a} is the class nominalBase + a
    firstFresh: ClassId,         // structural names start here
    canon: map<RoleId, Role>,    // rewritten roles
    dkeys: set<ClassId>,         // datatype-range classes
    cardAtoms: bool)             // cardinality disjuncts become atoms

  datatype State = State(clauses: seq<DlClause>, names: seq<Concept>, nextVar: Var, deferred: nat) {
    function Push(body: Body, head: seq<Atom>): State {
      this.(clauses := clauses + [DlClause(body, head)])
    }
    function Defer(): State {
      this.(deferred := deferred + 1)
    }
  }

  function Canon(m: map<RoleId, Role>, r: Role): Role {
    if r.id !in m then r else if r.Inverse? then m[r.id].Flip() else m[r.id]
  }

  /** The class naming `c` directly: `c` itself, or the reserved class of a nominal. */
  function ClassIdOf(cfg: Config, c: Concept): Option<ClassId> {
    match c
    case Atomic(a) => Some(a)
    case Nominal(i) => Some(cfg.nominalBase + i)
    case _ => None
  }

  // ----- antecedents -----

  /** The alternatives of an antecedent (`None` when it is not encodable) and the next unused variable. */
  datatype Encoding = Encoding(alts: Option<seq<Body>>, nextVar: Var)

  /** Every way to join a body of `acc` with a body of `child`. */
  function Cross(acc: seq<Body>, child: seq<Body>): seq<Body> {
    if acc == [] then [] else Extend(acc[0], child) + Cross(acc[1..], child)
  }

  /** `b` before each body of `child`. */
  function Extend(b: Body, child: seq<Body>): (r: seq<Body>)
    ensures |r| == |child| && forall k :: 0 <= k < |child| ==> r[k] == b + child[k]
  {
    seq(|child|, k requires 0 <= k < |child| => b + child[k])
  }

  lemma ExtendSource(b: Body, child: seq<Body>, x: Body) returns (y: Body)
    requires x in Extend(b, child)
    ensures y in child && x == b + y
  {
    var k :| 0 <= k < |child| && Extend(b, child)[k] == x;
    y := child[k];
  }

  lemma ExtendTarget(b: Body, child: seq<Body>, y: Body)
    requires y in child
    ensures b + y in Extend(b, child)
  {
    var k :| 0 <= k < |child| && child[k] == y;
    assert Extend(b, child)[k] == b + y;
  }

  lemma {:induction false} CrossSource(acc: seq<Body>, child: seq<Body>, b: Body) returns (x: Body, y: Body)
    requires b in Cross(acc, child)
    ensures x in acc && y in child && b == x + y
    decreases acc
  {
    if b in Extend(acc[0], child) {
      x := acc[0];
      y := ExtendSource(x, child, b);
    } else {
      x, y := CrossSource(acc[1..], child, b);
    }
  }

  lemma {:induction false} CrossTarget(acc: seq<Body>, child: seq<Body>, x: Body, y: Body)
    requires x in acc && y in child
    ensures x + y in Cross(acc, child)
    decreases acc
  {
    if x == acc[0] { ExtendTarget(x, child, y); } else { CrossTarget(acc[1..], child, x, y); }
  }

  function Encode(cfg: Config, c: Concept, v: Var, nv: Var): Encoding
    decreases c, 0
  {
    match c
    case Atomic(a) => Encoding(Some([[Class(a, v)]]), nv)
    case Nominal(i) => Encoding(Some([[Class(cfg.nominalBase + i, v)]]), nv)
    case Top => Encoding(Some([[]]), nv)
    case And(parts) => EncodeAnd(cfg, parts, [[]], v, nv)
    case Or(parts) => EncodeOr(cfg, parts, [], v, nv)
    case SomeOf(r, f) =>
      var inner := Encode(cfg, f, nv, nv + 1);
      if inner.alts.None? then inner
      else Encoding(Some(Extend([Edge(Canon(cfg.canon, r), v, nv)], inner.alts.value)), inner.nextVar)
    case _ => Encoding(None, nv)
  }

  /** The rest of an intersection, joined with the alternatives found so far. */
  function EncodeAnd(cfg: Config, parts: seq<Concept>, acc: seq<Body>, v: Var, nv: Var): Encoding
    decreases parts, 1
  {
    if parts == [] then Encoding(Some(acc), nv)
    else
      var child := Encode(cfg, parts[0], v, nv);
      if child.alts.None? then child
      else
        var next := Cross(acc, child.alts.value);
        if |next| > ANTECEDENT_DNF_CAP then Encoding(None, child.nextVar)
        else EncodeAnd(cfg, parts[1..], next, v, child.nextVar)
  }

  /** The rest of a union, after the alternatives found so far. */
  function EncodeOr(cfg: Config, parts: seq<Concept>, acc: seq<Body>, v: Var, nv: Var): Encoding
    decreases parts, 1
  {
    if parts == [] then Encoding(Some(acc), nv)
    else
      var child := Encode(cfg, parts[0], v, nv);
      if child.alts.None? then child
      else
        var next := acc + child.alts.value;
        if |next| > ANTECEDENT_DNF_CAP then Encoding(None, child.nextVar)
        else EncodeOr(cfg, parts[1..], next, v, child.nextVar)
  }

  // ----- consequents -----

  /** Clauses for `body → c(v)`. */
  function Emit(cfg: Config, st: State, body: Body, c: Concept, v: Var): State
    decreases c, 0
  {
    match c
    case Top => st
    case Bot => st.Push(body, [])
    case Atomic(a) => st.Push(body, [Class(a, v)])
    case Nominal(i) => st.Push(body, [Class(cfg.nominalBase + i, v)])
    case And(parts) => EmitAll(cfg, st, body, parts, v)
    case Or(parts) =>
      var (head, st1) := HeadAtoms(cfg, st, parts, [], v);
      if head.None? then st1.Defer() else st1.Push(body, head.value)
    case SomeOf(r, f) =>
      var (q, st1) := NameOf(cfg, st, f);
      st1.Push(body, [Exists(Canon(cfg.canon, r), q, v)])
    case AllOf(r, f) =>
      var y := st.nextVar;
      Emit(cfg, st.(nextVar := y + 1), body + [Edge(Canon(cfg.canon, r), v, y)], f, y)
    case Not(x) =>
      if ClassIdOf(cfg, x).Some? then st.Push(body + [Class(ClassIdOf(cfg, x).value, v)], [])
      else if x.HasSelf? then st.Push(body + [Edge(Canon(cfg.canon, x.role), v, v)], [])
      else st.Defer()
    case Min(n, r, f) =>
      if n == 0 then st
      else
        var (q, st1) := QualifierOf(cfg, st, f);
        if q.Some? && q.value in cfg.dkeys then st1
        else st1.Push(body, [AtLeast(Canon(cfg.canon, r), q, n, v)])
    case Max(n, r, f) =>
      var (q, st1) := QualifierOf(cfg, st, f);
      if q.Some? && q.value in cfg.dkeys then st1
      else st1.Push(body, [AtMost(Canon(cfg.canon, r), q, n, v)])
    case HasSelf(r) => st.Push(body, [Edge(Canon(cfg.canon, r), v, v)])
  }

  function EmitAll(cfg: Config, st: State, body: Body, parts: seq<Concept>, v: Var): State
    decreases parts, 1
  {
    if parts == [] then st
    else EmitAll(cfg, Emit(cfg, st, body, parts[0], v), body, parts[1..], v)
  }

  /** The qualifier of a cardinality restriction: nothing for ⊤, else a name of the filler. */
  function QualifierOf(cfg: Config, st: State, f: Concept): (Option<ClassId>, State)
    decreases f, 2
  {
    if f.Top? then (None, st)
    else var (q, st1) := NameOf(cfg, st, f); (Some(q), st1)
  }

  /** A class naming `c`: itself when atomic, else a fresh `Q` with `Q ⊑ c` clausified. */
  function NameOf(cfg: Config, st: State, c: Concept): (ClassId, State)
    decreases c, 1
  {
    if ClassIdOf(cfg, c).Some? then (ClassIdOf(cfg, c).value, st)
    else
      var q := cfg.firstFresh + |st.names|;
      (q, Emit(cfg, st.(names := st.names + [c]), [Class(q, X)], c, X))
  }

  predicate IsDkey(cfg: Config, f: Concept) {
    ClassIdOf(cfg, f).Some? && ClassIdOf(cfg, f).value in cfg.dkeys
  }

  function NameAtom(cfg: Config, st: State, c: Concept, v: Var): (Option<Atom>, State)
    decreases c, 2
  {
    var (q, st1) := NameOf(cfg, st, c);
    (Some(Class(q, v)), st1)
  }

  /** One head atom for a disjunct, naming compounds; `None` when there is none. */
  function HeadAtom(cfg: Config, st: State, c: Concept, v: Var): (Option<Atom>, State)
    decreases c, 3
  {
    match c
    case SomeOf(r, f) =>
      var (q, st1) := NameOf(cfg, st, f);
      (Some(Exists(Canon(cfg.canon, r), q, v)), st1)
    case Not(x) =>
      var q := cfg.firstFresh + |st.names|;
      if ClassIdOf(cfg, x).Some? then
        (Some(Class(q, v)),
         st.(names := st.names + [c]).Push([Class(q, X), Class(ClassIdOf(cfg, x).value, X)], []))
      else if x.HasSelf? then
        (Some(Class(q, v)),
         st.(names := st.names + [c]).Push([Class(q, X), Edge(Canon(cfg.canon, x.role), X, X)], []))
      else (None, st)
    case Max(n, r, f) =>
      if !cfg.cardAtoms || IsDkey(cfg, f) then NameAtom(cfg, st, c, v)
      else
        var (q, st1) := QualifierOf(cfg, st, f);
        (Some(AtMost(Canon(cfg.canon, r), q, n, v)), st1)
    case Min(n, r, f) =>
      if !cfg.cardAtoms || n == 0 || IsDkey(cfg, f) then NameAtom(cfg, st, c, v)
      else
        var (q, st1) := QualifierOf(cfg, st, f);
        (Some(AtLeast(Canon(cfg.canon, r), q, n, v)), st1)
    case _ => NameAtom(cfg, st, c, v)
  }

  /** Head atoms for the rest of a union, after those found so far; stops at the first failure. */
  function HeadAtoms(cfg: Config, st: State, parts: seq<Concept>, acc: seq<Atom>, v: Var): (Option<seq<Atom>>, State)
    decreases parts, 4
  {
    if parts == [] then (Some(acc), st)
    else
      var (a, st1) := HeadAtom(cfg, st, parts[0], v);
      if a.None? then (None, st1)
      else HeadAtoms(cfg, st1, parts[1..], acc + [a.value], v)
  }

  /** One consequent per alternative body. */
  function EmitBodies(cfg: Config, st: State, bodies: seq<Body>, c: Concept, v: Var): State
    decreases bodies
  {
    if bodies == [] then st
    else EmitBodies(cfg, Emit(cfg, st, bodies[0], c, v), bodies[1..], c, v)
  }

  // ----- axioms -----

  function Conjuncts(c: Concept): seq<Concept> {
    if c.And? then c.args else [c]
  }

  predicate IsSoft(cfg: Config, p: Concept) {
    Encode(cfg, p, X, X + 1).alts.Some?
  }

  function Soft(cfg: Config, parts: seq<Concept>): (r: seq<Concept>)
    ensures forall p :: p in r <==> p in parts && IsSoft(cfg, p)
  {
    if parts == [] then []
    else (if IsSoft(cfg, parts[0]) then [parts[0]] else []) + Soft(cfg, parts[1..])
  }

  function Hard(cfg: Config, parts: seq<Concept>): (r: seq<Concept>)
    ensures forall p :: p in r <==> p in parts && !IsSoft(cfg, p)
  {
    if parts == [] then []
    else (if IsSoft(cfg, parts[0]) then [] else [parts[0]]) + Hard(cfg, parts[1..])
  }

  /** The trigger of a partially absorbed antecedent. */
  function SoftPart(cfg: Config, sub: Concept): Concept {
    var soft := Soft(cfg, Conjuncts(sub));
    if soft == [] then Top else if |soft| == 1 then soft[0] else MkAnd(cfg.ord, soft)
  }

  /** The contrapositive head `¬hard ⊔ sup`. */
  function HardHead(cfg: Config, sub: Concept, sup: Concept): Concept {
    if Soft(cfg, Conjuncts(sub)) == [] then MkOr(cfg.ord, [Complement(cfg.ord, sub), sup])
    else MkOr(cfg.ord, ComplementAll(cfg.ord, Hard(cfg, Conjuncts(sub))) + [sup])
  }

  /** Partial absorption of an antecedent that is not encodable. */
  function AbsorbHard(cfg: Config, st: State, sub: Concept, sup: Concept): State {
    if Soft(cfg, Conjuncts(sub)) == [] then
      Emit(cfg, st.(nextVar := X + 1), [], HardHead(cfg, sub, sup), X)
    else
      var e := Encode(cfg, SoftPart(cfg, sub), X, X + 1);
      var st1 := st.(nextVar := e.nextVar);
      if e.alts.None? then st1.Defer()
      else EmitBodies(cfg, st1, e.alts.value, HardHead(cfg, sub, sup), X)
  }

  function Gci(cfg: Config, st: State, sub: Concept, sup: Concept): State {
    var e := Encode(cfg, sub, X, X + 1);
    if e.alts.None? then AbsorbHard(cfg, st, sub, sup)
    else EmitBodies(cfg, st.(nextVar := e.nextVar), e.alts.value, sup, X)
  }

  /** Every ordered pair of distinct positions from `(i, j)` on. */
  function EquivFrom(cfg: Config, st: State, cs: seq<Concept>, i: nat, j: nat): State
    requires i <= |cs| && j <= |cs|
    decreases |cs| - i, |cs| - j
  {
    if i == |cs| then st
    else if j == |cs| then EquivFrom(cfg, st, cs, i + 1, 0)
    else EquivFrom(cfg, if i != j then Gci(cfg, st, cs[i], cs[j]) else st, cs, i, j + 1)
  }

  /** One ⊥-clause per body. */
  function Denials(st: State, bodies: seq<Body>): State
    decreases bodies
  {
    if bodies == [] then st else Denials(st.Push(bodies[0], []), bodies[1..])
  }

  /** `c ⊓ d ⊑ ⊥`; `counted` says whether a failed encoding is counted as deferred. */
  function Deny(cfg: Config, st: State, c: Concept, d: Concept, counted: bool): State {
    var a := Encode(cfg, c, X, X + 1);
    var b := Encode(cfg, d, X, a.nextVar);
    var st1 := st.(nextVar := b.nextVar);
    if a.alts.None? || b.alts.None? then (if counted then st1.Defer() else st1)
    else Denials(st1, Cross(a.alts.value, b.alts.value))
  }

  /** Every pair of positions `i < j` from `(i, j)` on. */
  function DenyFrom(cfg: Config, st: State, cs: seq<Concept>, i: nat, j: nat, counted: bool): State
    requires i < j <= |cs| || (i == |cs| && j == |cs| + 1)
    decreases |cs| - i, |cs| + 1 - j
  {
    if i == |cs| then st
    else if j == |cs| then DenyFrom(cfg, st, cs, i + 1, i + 2, counted)
    else DenyFrom(cfg, Deny(cfg, st, cs[i], cs[j], counted), cs, i, j + 1, counted)
  }

  /** `body → cls(X)` for each body. */
  function Implications(st: State, bodies: seq<Body>, cls: ClassId): State
    decreases bodies
  {
    if bodies == [] then st else Implications(st.Push(bodies[0], [Class(cls, X)]), bodies[1..], cls)
  }

  /** `m ⊑ cls` for each member. */
  function MembersBelow(cfg: Config, st: State, cs: seq<Concept>, cls: ClassId): State
    decreases cs
  {
    if cs == [] then st
    else
      var e := Encode(cfg, cs[0], X, X + 1);
      var st1 := st.(nextVar := e.nextVar);
      MembersBelow(cfg, if e.alts.None? then st1.Defer() else Implications(st1, e.alts.value, cls), cs[1..], cls)
  }

  /** The covering head of a disjoint union, `None` when a member is compound. */
  function CoverHead(cfg: Config, cs: seq<Concept>, acc: seq<Atom>): Option<seq<Atom>> {
    if cs == [] then Some(acc)
    else if ClassIdOf(cfg, cs[0]).None? then None
    else CoverHead(cfg, cs[1..], acc + [Class(ClassIdOf(cfg, cs[0]).value, X)])
  }

  function Cover(cfg: Config, st: State, cls: ClassId, cs: seq<Concept>): State {
    var head := CoverHead(cfg, cs, []);
    var st1 := st.(nextVar := X + 1);
    if head.None? then st1.Defer() else st1.Push([Class(cls, X)], head.value)
  }

  function DenyRoles(cfg: Config, st: State, r: Role, s: Role): State {
    if r == s then st
    else st.(nextVar := X + 2).Push([Edge(Canon(cfg.canon, r), X, X + 1), Edge(Canon(cfg.canon, s), X, X + 1)], [])
  }

  function DenyRolesFrom(cfg: Config, st: State, rs: seq<Role>, i: nat, j: nat): State
    requires i < j <= |rs| || (i == |rs| && j == |rs| + 1)
    decreases |rs| - i, |rs| + 1 - j
  {
    if i == |rs| then st
    else if j == |rs| then DenyRolesFrom(cfg, st, rs, i + 1, i + 2)
    else DenyRolesFrom(cfg, DenyRoles(cfg, st, rs[i], rs[j]), rs, i, j + 1)
  }

  function AxiomClauses(cfg: Config, st: State, ax: Axiom): State {
    match ax
    case SubClassOf(c, d) => Gci(cfg, st, c, d)
    case EquivalentClasses(cs) => EquivFrom(cfg, st, cs, 0, 0)
    case DisjointClasses(cs) => DenyFrom(cfg, st, cs, 0, 1, true)
    case DisjointUnion(a, cs) =>
      Cover(cfg, MembersBelow(cfg, DenyFrom(cfg, st, cs, 0, 1, false), cs, a), a, cs)
    case PropertyDomain(r, c) =>
      Emit(cfg, st.(nextVar := X + 2), [Edge(Canon(cfg.canon, r), X, X + 1)], c, X)
    case PropertyRange(r, c) =>
      Emit(cfg, st.(nextVar := X + 2), [Edge(Canon(cfg.canon, r), X, X + 1)], c, X + 1)
    case SubChain(parts, s) =>
      if |parts| == 2 then
        st.(nextVar := X + 3).Push(
          [Edge(Canon(cfg.canon, parts[0]), X, X + 1), Edge(Canon(cfg.canon, parts[1]), X + 1, X + 2)],
          [Edge(Canon(cfg.canon, s), X, X + 2)])
      else st.Defer()
    case TransitiveRole(r) =>
      var k := Canon(cfg.canon, r);
      st.(nextVar := X + 3).Push([Edge(k, X, X + 1), Edge(k, X + 1, X + 2)], [Edge(k, X, X + 2)])
    case IrreflexiveRole(r) => st.Push([Edge(Canon(cfg.canon, r), X, X)], [])
    case AsymmetricRole(r) =>
      var k := Canon(cfg.canon, r);
      st.(nextVar := X + 2).Push([Edge(k, X, X + 1), Edge(k, X + 1, X)], [])
    case DisjointProperties(rs) => DenyRolesFrom(cfg, st, rs, 0, 1)
    case _ => st
  }

  function ClausifyAll(cfg: Config, st: State, axioms: seq<Axiom>): State
    decreases axioms
  {
    if axioms == [] then st else ClausifyAll(cfg, AxiomClauses(cfg, st, axioms[0]), axioms[1..])
  }
}
