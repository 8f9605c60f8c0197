/** The antecedent encoding is an exact disjunctive normal form made of trees. */
module Antecedents {
  import opened Dl
  import opened Clauses
  import opened Clausify

  /** How concepts read roles in an interpretation of the clauses: through the rewriting map. */
  ghost function View<E>(cfg: Config, J: Interp<E>): Interp<E> {
    J.(rol := (r: RoleId, x: E, y: E) => Rel(J, Canon(cfg.canon, Named(r)), x, y))
  }

  lemma ViewRel<E>(cfg: Config, J: Interp<E>, r: Role, x: E, y: E)
    ensures Rel(View(cfg, J), r, x, y) == Rel(J, Canon(cfg.canon, r), x, y)
  {
    if r.Inverse? { assert Rel(View(cfg, J), r, x, y) == Rel(View(cfg, J), Named(r.id), y, x); }
  }

  /** Every reserved nominal class is the singleton it stands for. */
  ghost predicate NominalsRight<E(!new)>(cfg: Config, J: Interp<E>) {
    forall k: ClassId, d :: cfg.nominalBase <= k < cfg.firstFresh ==> (J.cls(k, d) <==> d == J.ind(k - cfg.nominalBase))
  }

  ghost predicate Known(cfg: Config, c: Concept) {
    cfg.nominalBase <= cfg.firstFresh && InSig(c, cfg.nominalBase, cfg.firstFresh - cfg.nominalBase)
  }

  // ----- soundness: a match implies membership -----

  lemma {:induction false} EncodeSound<E(!new)>(cfg: Config, J: Interp<E>, c: Concept, v: Var, nv: Var, alt: Body, env: Env<E>)
    requires NominalsRight(cfg, J) && Known(cfg, c)
    requires Encode(cfg, c, v, nv).alts.Some? && alt in Encode(cfg, c, v, nv).alts.value
    requires BodyHolds(J, alt, env)
    ensures Sat(View(cfg, J), c, env(v))
    decreases c, 0
  {
    match c
    case Atomic(a) => assert Class(a, v) in alt;
    case Nominal(i) => assert Class(cfg.nominalBase + i, v) in alt;
    case Top =>
    case And(parts) =>
      forall p | p in parts ensures Sat(View(cfg, J), p, env(v)) {
        var k :| 0 <= k < |parts| && parts[k] == p;
        AndSound(cfg, J, parts, [[]], v, nv, alt, env);
      }
    case Or(parts) =>
      OrSound(cfg, J, parts, [], v, nv, alt, env);
    case SomeOf(r, f) =>
      var inner := Encode(cfg, f, nv, nv + 1);
      var edge := Edge(Canon(cfg.canon, r), v, nv);
      var b := ExtendSource([edge], inner.alts.value, alt);
      BodySplit(J, [edge], b, env);
      EncodeSound(cfg, J, f, nv, nv + 1, b, env);
      assert AtomHolds(J, edge, env);
      ViewRel(cfg, J, r, env(v), env(nv));
    case _ =>
  }

  lemma {:induction false} AndSound<E(!new)>(cfg: Config, J: Interp<E>, parts: seq<Concept>, acc: seq<Body>, v: Var, nv: Var, alt: Body, env: Env<E>)
    requires NominalsRight(cfg, J) && forall p :: p in parts ==> Known(cfg, p)
    requires EncodeAnd(cfg, parts, acc, v, nv).alts.Some? && alt in EncodeAnd(cfg, parts, acc, v, nv).alts.value
    requires BodyHolds(J, alt, env)
    ensures forall p :: p in parts ==> Sat(View(cfg, J), p, env(v))
    ensures exists a :: a in acc && BodyHolds(J, a, env)
    decreases parts, 1
  {
    if parts != [] {
      var child := Encode(cfg, parts[0], v, nv);
      var next := Cross(acc, child.alts.value);
      AndSound(cfg, J, parts[1..], next, v, child.nextVar, alt, env);
      var ab :| ab in next && BodyHolds(J, ab, env);
      var a, b := CrossSource(acc, child.alts.value, ab);
      BodySplit(J, a, b, env);
      EncodeSound(cfg, J, parts[0], v, nv, b, env);
    }
  }

  lemma {:induction false} OrSound<E(!new)>(cfg: Config, J: Interp<E>, parts: seq<Concept>, acc: seq<Body>, v: Var, nv: Var, alt: Body, env: Env<E>)
    requires NominalsRight(cfg, J) && forall p :: p in parts ==> Known(cfg, p)
    requires EncodeOr(cfg, parts, acc, v, nv).alts.Some? && alt in EncodeOr(cfg, parts, acc, v, nv).alts.value
    requires BodyHolds(J, alt, env)
    ensures alt in acc || exists p :: p in parts && Sat(View(cfg, J), p, env(v))
    decreases parts, 1
  {
    if parts != [] {
      var child := Encode(cfg, parts[0], v, nv);
      OrSound(cfg, J, parts[1..], acc + child.alts.value, v, child.nextVar, alt, env);
      if alt in child.alts.value {
        EncodeSound(cfg, J, parts[0], v, nv, alt, env);
        assert parts[0] in parts;
      }
    }
  }

  // ----- variables -----

  /** Every alternative uses `v` and fresh variables of the range `[nv, nv')` only. */
  ghost predicate UsesFresh(alts: seq<Body>, v: Var, nv: Var, nv': Var) {
    forall b, a, x :: b in alts && a in b && x in AtomVars(a) ==> x == v || nv <= x < nv'
  }

  lemma {:induction false} EncodeFresh(cfg: Config, c: Concept, v: Var, nv: Var)
    ensures nv <= Encode(cfg, c, v, nv).nextVar
    ensures Encode(cfg, c, v, nv).alts.Some? ==>
      UsesFresh(Encode(cfg, c, v, nv).alts.value, v, nv, Encode(cfg, c, v, nv).nextVar)
    decreases c, 0
  {
    match c
    case And(parts) => AndFresh(cfg, parts, [[]], v, nv, nv);
    case Or(parts) => OrFresh(cfg, parts, [], v, nv, nv);
    case SomeOf(r, f) =>
      EncodeFresh(cfg, f, nv, nv + 1);
      var inner := Encode(cfg, f, nv, nv + 1);
      if inner.alts.Some? { ExtendUsesFresh(Edge(Canon(cfg.canon, r), v, nv), inner.alts.value, nv, inner.nextVar); }
    case _ =>
  }

  lemma ExtendUsesFresh(edge: Atom, child: seq<Body>, nv: Var, nv': Var)
    requires edge.Edge? && edge.w == nv < nv' && UsesFresh(child, nv, nv + 1, nv')
    ensures UsesFresh(Extend([edge], child), edge.u, nv, nv')
  {
    forall b, a, x | b in Extend([edge], child) && a in b && x in AtomVars(a) ensures x == edge.u || nv <= x < nv' {
      var y := ExtendSource([edge], child, b);
      if a in y { assert x == nv || nv + 1 <= x < nv'; }
    }
  }

  lemma {:induction false} AndFresh(cfg: Config, parts: seq<Concept>, acc: seq<Body>, v: Var, low: Var, nv: Var)
    requires low <= nv && UsesFresh(acc, v, low, nv)
    ensures nv <= EncodeAnd(cfg, parts, acc, v, nv).nextVar
    ensures EncodeAnd(cfg, parts, acc, v, nv).alts.Some? ==>
      UsesFresh(EncodeAnd(cfg, parts, acc, v, nv).alts.value, v, low, EncodeAnd(cfg, parts, acc, v, nv).nextVar)
    decreases parts, 1
  {
    if parts != [] {
      var child := Encode(cfg, parts[0], v, nv);
      EncodeFresh(cfg, parts[0], v, nv);
      if child.alts.Some? {
        var next := Cross(acc, child.alts.value);
        AndUsesFresh(acc, child.alts.value, v, low, nv, child.nextVar);
        AndFresh(cfg, parts[1..], next, v, low, child.nextVar);
      }
    }
  }

  lemma {:induction false} OrFresh(cfg: Config, parts: seq<Concept>, acc: seq<Body>, v: Var, low: Var, nv: Var)
    requires low <= nv && UsesFresh(acc, v, low, nv)
    ensures nv <= EncodeOr(cfg, parts, acc, v, nv).nextVar
    ensures EncodeOr(cfg, parts, acc, v, nv).alts.Some? ==>
      UsesFresh(EncodeOr(cfg, parts, acc, v, nv).alts.value, v, low, EncodeOr(cfg, parts, acc, v, nv).nextVar)
    decreases parts, 1
  {
    if parts != [] {
      var child := Encode(cfg, parts[0], v, nv);
      EncodeFresh(cfg, parts[0], v, nv);
      if child.alts.Some? {
        assert UsesFresh(acc + child.alts.value, v, low, child.nextVar);
        OrFresh(cfg, parts[1..], acc + child.alts.value, v, low, child.nextVar);
      }
    }
  }

  // ----- completeness: membership yields a match -----

  ghost predicate SameOutside<E(!new)>(env: Env<E>, env': Env<E>, nv: Var, nv': Var) {
    forall w: Var :: w < nv || nv' <= w ==> env'(w) == env(w)
  }

  lemma {:induction false} EncodeComplete<E(!new)>(cfg: Config, J: Interp<E>, c: Concept, v: Var, nv: Var, env: Env<E>)
    returns (alt: Body, env': Env<E>)
    requires NominalsRight(cfg, J) && Known(cfg, c) && v < nv
    requires Encode(cfg, c, v, nv).alts.Some?
    requires Sat(View(cfg, J), c, env(v))
    ensures alt in Encode(cfg, c, v, nv).alts.value
    ensures SameOutside(env, env', nv, Encode(cfg, c, v, nv).nextVar)
    ensures BodyHolds(J, alt, env')
    decreases c, 0
  {
    env' := env;
    match c
    case Atomic(a) => alt := [Class(a, v)];
    case Nominal(i) => alt := [Class(cfg.nominalBase + i, v)];
    case Top => alt := [];
    case And(parts) =>
      assert BodyHolds(J, [], env);
      alt, env' := AndComplete(cfg, J, parts, [[]], [], v, nv, nv, env, env(v));
    case Or(parts) =>
      alt, env' := OrComplete(cfg, J, parts, [], v, nv, env);
    case SomeOf(r, f) =>
      alt, env' := SomeComplete(cfg, J, r, f, v, nv, env);
  }

  lemma {:induction false} SomeComplete<E(!new)>(cfg: Config, J: Interp<E>, r: Role, f: Concept, v: Var, nv: Var, env: Env<E>)
    returns (alt: Body, env': Env<E>)
    requires NominalsRight(cfg, J) && Known(cfg, f) && v < nv
    requires Encode(cfg, f, nv, nv + 1).alts.Some?
    requires exists e :: Rel(View(cfg, J), r, env(v), e) && Sat(View(cfg, J), f, e)
    ensures alt in Extend([Edge(Canon(cfg.canon, r), v, nv)], Encode(cfg, f, nv, nv + 1).alts.value)
    ensures SameOutside(env, env', nv, Encode(cfg, f, nv, nv + 1).nextVar)
    ensures BodyHolds(J, alt, env')
    decreases f, 1
  {
    var e :| Rel(View(cfg, J), r, env(v), e) && Sat(View(cfg, J), f, e);
    var env1: Env<E> := (w: Var) => if w == nv then e else env(w);
    var b;
    b, env' := EncodeComplete(cfg, J, f, nv, nv + 1, env1);
    var edge := Edge(Canon(cfg.canon, r), v, nv);
    EncodeFresh(cfg, f, nv, nv + 1);
    ViewRel(cfg, J, r, env(v), e);
    assert env'(v) == env(v) && env'(nv) == e;
    alt := [edge] + b;
    ExtendTarget([edge], Encode(cfg, f, nv, nv + 1).alts.value, b);
    BodySplit(J, [edge], b, env');
    assert AtomHolds(J, edge, env');
    assert BodyHolds(J, [edge], env');
  }

  lemma {:induction false} AndComplete<E(!new)>(
    cfg: Config, J: Interp<E>, parts: seq<Concept>, acc: seq<Body>, a: Body, v: Var, low: Var, nv: Var, env: Env<E>, d: E)
    returns (alt: Body, env': Env<E>)
    requires NominalsRight(cfg, J) && (forall p :: p in parts ==> Known(cfg, p)) && v < low <= nv
    requires UsesFresh(acc, v, low, nv) && a in acc && BodyHolds(J, a, env)
    requires EncodeAnd(cfg, parts, acc, v, nv).alts.Some?
    requires env(v) == d && forall p :: p in parts ==> Sat(View(cfg, J), p, d)
    ensures alt in EncodeAnd(cfg, parts, acc, v, nv).alts.value
    ensures SameOutside(env, env', nv, EncodeAnd(cfg, parts, acc, v, nv).nextVar)
    ensures BodyHolds(J, alt, env')
    decreases parts, 1
  {
    if parts == [] {
      alt, env' := a, env;
    } else {
      var child := Encode(cfg, parts[0], v, nv);
      var next := Cross(acc, child.alts.value);
      var b, env1 := EncodeComplete(cfg, J, parts[0], v, nv, env);
      EncodeFresh(cfg, parts[0], v, nv);
      BodyFrame(J, a, env, env1);
      BodySplit(J, a, b, env1);
      AndUsesFresh(acc, child.alts.value, v, low, nv, child.nextVar);
      CrossTarget(acc, child.alts.value, a, b);
      AndFresh(cfg, parts[1..], next, v, low, child.nextVar);
      alt, env' := AndComplete(cfg, J, parts[1..], next, a + b, v, low, child.nextVar, env1, d);
    }
  }

  lemma AndUsesFresh(acc: seq<Body>, child: seq<Body>, v: Var, low: Var, nv: Var, nv': Var)
    requires low <= nv <= nv' && UsesFresh(acc, v, low, nv) && UsesFresh(child, v, nv, nv')
    ensures UsesFresh(Cross(acc, child), v, low, nv')
  {
    forall b, a, x | b in Cross(acc, child) && a in b && x in AtomVars(a) ensures x == v || low <= x < nv' {
      var l, r := CrossSource(acc, child, b);
      assert a in l || a in r;
    }
  }

  lemma {:induction false} OrComplete<E(!new)>(
    cfg: Config, J: Interp<E>, parts: seq<Concept>, acc: seq<Body>, v: Var, nv: Var, env: Env<E>)
    returns (alt: Body, env': Env<E>)
    requires NominalsRight(cfg, J) && (forall p :: p in parts ==> Known(cfg, p)) && v < nv
    requires EncodeOr(cfg, parts, acc, v, nv).alts.Some?
    requires exists p :: p in parts && Sat(View(cfg, J), p, env(v))
    ensures alt in EncodeOr(cfg, parts, acc, v, nv).alts.value
    ensures SameOutside(env, env', nv, EncodeOr(cfg, parts, acc, v, nv).nextVar)
    ensures BodyHolds(J, alt, env')
    decreases parts, 1
  {
    var child := Encode(cfg, parts[0], v, nv);
    var next := acc + child.alts.value;
    EncodeFresh(cfg, parts[0], v, nv);
    if Sat(View(cfg, J), parts[0], env(v)) {
      alt, env' := EncodeComplete(cfg, J, parts[0], v, nv, env);
      OrKeeps(cfg, parts[1..], next, v, child.nextVar, alt);
    } else {
      alt, env' := OrComplete(cfg, J, parts[1..], next, v, child.nextVar, env);
    }
  }

  /** Alternatives already found stay, and the variable counter only grows. */
  lemma {:induction false} OrKeeps(cfg: Config, parts: seq<Concept>, acc: seq<Body>, v: Var, nv: Var, alt: Body)
    requires EncodeOr(cfg, parts, acc, v, nv).alts.Some? && alt in acc
    ensures alt in EncodeOr(cfg, parts, acc, v, nv).alts.value
    ensures nv <= EncodeOr(cfg, parts, acc, v, nv).nextVar
    decreases parts
  {
    if parts != [] {
      EncodeFresh(cfg, parts[0], v, nv);
      OrKeeps(cfg, parts[1..], acc + Encode(cfg, parts[0], v, nv).alts.value, v, Encode(cfg, parts[0], v, nv).nextVar, alt);
    }
  }

  /** The encoding is exact: `env(v)` is in `c` iff some alternative is matched by an
      assignment that differs from `env` on the fresh variables only. */
  lemma EncodeExact<E(!new)>(cfg: Config, J: Interp<E>, c: Concept, v: Var, nv: Var, env: Env<E>)
    requires NominalsRight(cfg, J) && Known(cfg, c) && v < nv
    requires Encode(cfg, c, v, nv).alts.Some?
    ensures Sat(View(cfg, J), c, env(v)) <==>
      exists alt, env': Env<E> :: alt in Encode(cfg, c, v, nv).alts.value && BodyHolds(J, alt, env')
        && SameOutside(env, env', nv, Encode(cfg, c, v, nv).nextVar)
  {
    if Sat(View(cfg, J), c, env(v)) {
      var alt, env' := EncodeComplete(cfg, J, c, v, nv, env);
    }
    if alt, env': Env<E> :| (alt in Encode(cfg, c, v, nv).alts.value && BodyHolds(J, alt, env')
        && SameOutside(env, env', nv, Encode(cfg, c, v, nv).nextVar)) {
      EncodeSound(cfg, J, c, v, nv, alt, env');
    }
  }

  // ----- the cap and the shape -----

  /** However deep the concept, at most 64 alternatives come back. */
  lemma {:induction false} EncodeCapped(cfg: Config, c: Concept, v: Var, nv: Var)
    requires Encode(cfg, c, v, nv).alts.Some?
    ensures |Encode(cfg, c, v, nv).alts.value| <= ANTECEDENT_DNF_CAP
    decreases c, 0
  {
    match c
    case And(parts) => AndCapped(cfg, parts, [[]], v, nv);
    case Or(parts) => OrCapped(cfg, parts, [], v, nv);
    case SomeOf(_, f) => EncodeCapped(cfg, f, nv, nv + 1);
    case _ =>
  }

  lemma {:induction false} AndCapped(cfg: Config, parts: seq<Concept>, acc: seq<Body>, v: Var, nv: Var)
    requires |acc| <= ANTECEDENT_DNF_CAP && EncodeAnd(cfg, parts, acc, v, nv).alts.Some?
    ensures |EncodeAnd(cfg, parts, acc, v, nv).alts.value| <= ANTECEDENT_DNF_CAP
    decreases parts
  {
    if parts != [] {
      var child := Encode(cfg, parts[0], v, nv);
      AndCapped(cfg, parts[1..], Cross(acc, child.alts.value), v, child.nextVar);
    }
  }

  lemma {:induction false} OrCapped(cfg: Config, parts: seq<Concept>, acc: seq<Body>, v: Var, nv: Var)
    requires |acc| <= ANTECEDENT_DNF_CAP && EncodeOr(cfg, parts, acc, v, nv).alts.Some?
    ensures |EncodeOr(cfg, parts, acc, v, nv).alts.value| <= ANTECEDENT_DNF_CAP
    decreases parts
  {
    if parts != [] {
      var child := Encode(cfg, parts[0], v, nv);
      OrCapped(cfg, parts[1..], acc + child.alts.value, v, child.nextVar);
    }
  }

  function Identity(v: Var): nat { v }

  ghost predicate Trees(alts: seq<Body>, v: Var) {
    forall b :: b in alts ==> TreeBody(b, v, Identity)
  }

  /** Every alternative is a directed tree rooted at the given variable. */
  lemma {:induction false} EncodeTree(cfg: Config, c: Concept, v: Var, nv: Var)
    requires v < nv && Encode(cfg, c, v, nv).alts.Some?
    ensures Trees(Encode(cfg, c, v, nv).alts.value, v)
    decreases c, 0
  {
    match c
    case And(parts) =>
      AndTree(cfg, parts, [[]], v, nv, nv);
    case Or(parts) => OrTree(cfg, parts, [], v, nv);
    case SomeOf(r, f) =>
      EncodeTree(cfg, f, nv, nv + 1);
      EncodeFresh(cfg, f, nv, nv + 1);
      var inner := Encode(cfg, f, nv, nv + 1);
      var edge := Edge(Canon(cfg.canon, r), v, nv);
      forall b | b in Encode(cfg, c, v, nv).alts.value ensures TreeBody(b, v, Identity) {
        var y := ExtendSource([edge], inner.alts.value, b);
        GraftTree(edge, y);
      }
    case Atomic(a) => LeafTree(a, v);
    case Nominal(i) => LeafTree(cfg.nominalBase + i, v);
    case Top => assert TreeBody([], v, Identity);
    case _ =>
  }

  lemma LeafTree(c: ClassId, v: Var)
    ensures TreeBody([Class(c, v)], v, Identity)
  {
    var b := [Class(c, v)];
    assert b[1..] == [];
    forall x ensures Entering(b, x) == 0 { assert Entering(b[1..], x) == 0; }
  }

  /** A tree below a new edge is a tree. */
  lemma GraftTree(edge: Atom, y: Body)
    requires edge.Edge? && edge.u < edge.w && TreeBody(y, edge.w, Identity)
    requires forall a, x :: a in y && x in AtomVars(a) ==> edge.w <= x
    ensures TreeBody([edge] + y, edge.u, Identity)
  {
    var b := [edge] + y;
    forall a | a in y && a.Edge? ensures edge.w <= a.w { assert a.w in AtomVars(a); }
    forall v ensures Entering(b, v) <= 1 {
      assert b[1..] == y;
      EnteringNone(y, v);
    }
    forall a, v | a in b && v in AtomVars(a) && v != edge.u ensures Entered(b, v) {
      if v == edge.w { assert edge in b; }
      else if a in y {
        assert Entered(y, v);
        var e :| e in y && StepsTo(e, v);
        assert e in b;
      }
    }
  }

  /** Two trees on one root with no other variable in common make a tree. */
  lemma JoinTrees(x: Body, y: Body, v: Var, nv: Var)
    requires TreeBody(x, v, Identity) && TreeBody(y, v, Identity) && v < nv
    requires forall a, w :: a in x && w in AtomVars(a) ==> w < nv
    requires forall a, w :: a in y && w in AtomVars(a) ==> w == v || nv <= w
    ensures TreeBody(x + y, v, Identity)
  {
    var b := x + y;
    forall w: Var ensures Entering(b, w) <= 1 {
      EnteringSplit(x, y, w);
      EnteringNone(x, w);
      EnteringNone(y, w);
      if Entered(x, w) {
        assert w < nv && w != v by { var e :| e in x && StepsTo(e, w); assert w in AtomVars(e); }
        assert !Entered(y, w) by { forall f | f in y && f.Edge? ensures nv <= f.w { assert f.w in AtomVars(f); } }
      }
    }
    forall a, w | a in b && w in AtomVars(a) && w != v ensures Entered(b, w) {
      if a in x { assert Entered(x, w); var e :| e in x && StepsTo(e, w); assert e in b; }
      else { assert Entered(y, w); var e :| e in y && StepsTo(e, w); assert e in b; }
    }
  }

  lemma {:induction false} AndTree(cfg: Config, parts: seq<Concept>, acc: seq<Body>, v: Var, low: Var, nv: Var)
    requires v < low <= nv && EncodeAnd(cfg, parts, acc, v, nv).alts.Some?
    requires Trees(acc, v) && UsesFresh(acc, v, low, nv)
    ensures Trees(EncodeAnd(cfg, parts, acc, v, nv).alts.value, v)
    decreases parts, 1
  {
    if parts != [] {
      var child := Encode(cfg, parts[0], v, nv);
      EncodeTree(cfg, parts[0], v, nv);
      EncodeFresh(cfg, parts[0], v, nv);
      var next := Cross(acc, child.alts.value);
      forall b | b in next ensures TreeBody(b, v, Identity) {
        var x, y := CrossSource(acc, child.alts.value, b);
        JoinTrees(x, y, v, nv);
      }
      AndUsesFresh(acc, child.alts.value, v, low, nv, child.nextVar);
      AndTree(cfg, parts[1..], next, v, low, child.nextVar);
    }
  }

  lemma {:induction false} OrTree(cfg: Config, parts: seq<Concept>, acc: seq<Body>, v: Var, nv: Var)
    requires v < nv && EncodeOr(cfg, parts, acc, v, nv).alts.Some? && Trees(acc, v)
    ensures Trees(EncodeOr(cfg, parts, acc, v, nv).alts.value, v)
    decreases parts, 1
  {
    if parts != [] {
      var child := Encode(cfg, parts[0], v, nv);
      EncodeTree(cfg, parts[0], v, nv);
      EncodeFresh(cfg, parts[0], v, nv);
      OrTree(cfg, parts[1..], acc + child.alts.value, v, child.nextVar);
    }
  }
}
