/** Contraction is entailed by reflexivity, and nothing is lost by it. */
module ReflexiveMeaning {
  import opened Dl
  import opened Clauses
  import opened Consequents
  import opened Reflexive

  // ----- substitution -----

  /** `env` after the dropped variable is read as the kept one. */
  function Merge<E>(keep: Var, drop: Var, env: Env<E>): Env<E> {
    (v: Var) => env(Sub(keep, drop, v))
  }

  lemma SubHolds<E(!new)>(J: Interp<E>, keep: Var, drop: Var, a: Atom, env: Env<E>)
    ensures AtomHolds(J, SubAtom(keep, drop, a), env) <==> AtomHolds(J, a, Merge(keep, drop, env))
  {
  }

  /** The atoms of a substituted list, one for each atom of the list. */
  lemma SubSource(keep: Var, drop: Var, atoms: seq<Atom>, a: Atom) returns (b: Atom)
    requires a in SubAtoms(keep, drop, atoms)
    ensures b in atoms && a == SubAtom(keep, drop, b)
  {
    var k :| 0 <= k < |atoms| && a == SubAtoms(keep, drop, atoms)[k];
    b := atoms[k];
  }

  lemma SubTarget(keep: Var, drop: Var, atoms: seq<Atom>, b: Atom)
    requires b in atoms
    ensures SubAtom(keep, drop, b) in SubAtoms(keep, drop, atoms)
  {
    var k :| 0 <= k < |atoms| && b == atoms[k];
    assert SubAtoms(keep, drop, atoms)[k] == SubAtom(keep, drop, b);
  }

  lemma SubHead<E(!new)>(J: Interp<E>, keep: Var, drop: Var, head: seq<Atom>, env: Env<E>)
    ensures HeadHolds(J, SubAtoms(keep, drop, head), env) <==> HeadHolds(J, head, Merge(keep, drop, env))
  {
    if HeadHolds(J, SubAtoms(keep, drop, head), env) {
      var a :| a in SubAtoms(keep, drop, head) && AtomHolds(J, a, env);
      var b := SubSource(keep, drop, head, a);
      SubHolds(J, keep, drop, b, env);
    }
    if HeadHolds(J, head, Merge(keep, drop, env)) {
      var b :| b in head && AtomHolds(J, b, Merge(keep, drop, env));
      SubHolds(J, keep, drop, b, env);
      SubTarget(keep, drop, head, b);
    }
  }

  lemma SubBody<E(!new)>(J: Interp<E>, keep: Var, drop: Var, body: seq<Atom>, env: Env<E>)
    ensures BodyHolds(J, SubAtoms(keep, drop, body), env) <==> BodyHolds(J, body, Merge(keep, drop, env))
  {
    if BodyHolds(J, SubAtoms(keep, drop, body), env) {
      forall b | b in body ensures AtomHolds(J, b, Merge(keep, drop, env)) {
        SubTarget(keep, drop, body, b);
        SubHolds(J, keep, drop, b, env);
      }
    }
    if BodyHolds(J, body, Merge(keep, drop, env)) {
      forall a | a in SubAtoms(keep, drop, body) ensures AtomHolds(J, a, env) {
        var b := SubSource(keep, drop, body, a);
        SubHolds(J, keep, drop, b, env);
      }
    }
  }

  lemma WithoutSplit(body: seq<Atom>, idx: nat)
    requires idx < |body|
    ensures forall a :: a in body <==> a == body[idx] || a in body[..idx] + body[idx + 1..]
  {
    assert body == body[..idx] + [body[idx]] + body[idx + 1..];
  }

  // ----- soundness -----

  /** In a model where the role is reflexive, a clause entails its contraction. */
  lemma ContractSound<E(!new)>(J: Interp<E>, refl: set<RoleId>, cl: DlClause, idx: nat)
    requires AllReflexive(J, refl) && idx < |cl.body| && IsReflexiveEdge(refl, cl.body[idx]) && ClauseHolds(J, cl)
    ensures ClauseHolds(J, Contract(cl, idx))
  {
    forall env: Env<E> | BodyHolds(J, Contract(cl, idx).body, env) ensures HeadHolds(J, Contract(cl, idx).head, env) {
      ContractFires(J, refl, cl, idx, env);
    }
  }

  lemma ContractFires<E(!new)>(J: Interp<E>, refl: set<RoleId>, cl: DlClause, idx: nat, env: Env<E>)
    requires AllReflexive(J, refl) && idx < |cl.body| && IsReflexiveEdge(refl, cl.body[idx]) && ClauseHolds(J, cl)
    requires BodyHolds(J, Contract(cl, idx).body, env)
    ensures HeadHolds(J, Contract(cl, idx).head, env)
  {
    var a := cl.body[idx];
    var keep, drop := Kept(a), Dropped(a);
    var rest := cl.body[..idx] + cl.body[idx + 1..];
    SubBody(J, keep, drop, rest, env);
    SubHead(J, keep, drop, cl.head, env);
    WithoutSplit(cl.body, idx);
    assert J.rol(a.role.id, env(keep), env(keep));
    assert Sub(keep, drop, a.u) == keep && Sub(keep, drop, a.w) == keep;
    assert Merge(keep, drop, env)(a.u) == env(keep) && Merge(keep, drop, env)(a.w) == env(keep);
    assert AtomHolds(J, a, Merge(keep, drop, env));
    assert BodyHolds(J, cl.body, Merge(keep, drop, env));
  }

  /** The last derived clause and what it is the contraction of. */
  lemma LastDerived(refl: set<RoleId>, n: nat, out: seq<DlClause>) returns (src: DlClause, idx: nat)
    requires n < |out| && Derived(refl, n, out)
    ensures Derived(refl, n, out[..|out| - 1]) && out[..|out| - 1][..n] == out[..n]
    ensures src in out[..|out| - 1] && idx < |src.body| && IsReflexiveEdge(refl, src.body[idx]) && out[|out| - 1] == Contract(src, idx)
  {
    var m := |out| - 1;
    src, idx :| src in out[..m] && idx < |src.body| && IsReflexiveEdge(refl, src.body[idx]) && out[m] == Contract(src, idx);
  }

  lemma HoldSnoc<E(!new)>(J: Interp<E>, out: seq<DlClause>, m: nat)
    requires |out| == m + 1 && AllHold(J, out[..m]) && ClauseHolds(J, out[m])
    ensures AllHold(J, out)
  {
    assert out == out[..m] + [out[m]];
  }

  /** Every derived clause holds in every model where the ids are reflexive. */
  lemma {:induction false} DerivedSound<E(!new)>(J: Interp<E>, refl: set<RoleId>, n: nat, out: seq<DlClause>)
    requires AllReflexive(J, refl) && n <= |out| && Derived(refl, n, out) && AllHold(J, out[..n])
    ensures AllHold(J, out)
    decreases |out|
  {
    if n < |out| {
      var m := |out| - 1;
      var src, idx := LastDerived(refl, n, out);
      DerivedSound(J, refl, n, out[..m]);
      assert ClauseHolds(J, src);
      ContractSound(J, refl, src, idx);
      HoldSnoc(J, out, m);
    } else {
      assert out[..n] == out;
    }
  }

  // ----- completeness -----

  /** `J` with each reflexive role unioned with the identity. */
  ghost function WithIdentity<E>(J: Interp<E>, refl: set<RoleId>): Interp<E> {
    J.(rol := (r: RoleId, x: E, y: E) => J.rol(r, x, y) || (r in refl && x == y))
  }

  /** No head bounds a reflexive role from above by zero. */
  ghost predicate NoZeroBound(refl: set<RoleId>, head: seq<Atom>) {
    forall a :: a in head && a.AtMost? && a.role.id in refl ==> a.n > 0
  }

  ghost predicate NoZeroBounds(refl: set<RoleId>, clauses: seq<DlClause>) {
    forall cl :: cl in clauses ==> NoZeroBound(refl, cl.head)
  }

  /** An element matched by `body` and with a successor is its own successor. */
  ghost predicate SelfCounted<E(!new)>(J: Interp<E>, body: Body, r: Role, v: Var) {
    forall env: Env<E>, e {:trigger BodyHolds(J, body, env), Rel(J, r, env(v), e)} ::
      BodyHolds(J, body, env) && Rel(J, r, env(v), e) ==> Rel(J, r, env(v), env(v))
  }

  /** So it is wherever a clause bounds a reflexive role. */
  ghost predicate LoopsCounted<E(!new)>(J: Interp<E>, refl: set<RoleId>, clauses: seq<DlClause>) {
    forall cl, a :: cl in clauses && a in cl.head && a.AtMost? && a.role.id in refl ==> SelfCounted(J, cl.body, a.role, a.v)
  }

  lemma IdentityRel<E(!new)>(J: Interp<E>, refl: set<RoleId>, r: Role, x: E, y: E)
    ensures Rel(WithIdentity(J, refl), r, x, y) <==> Rel(J, r, x, y) || (r.id in refl && x == y)
  {
  }

  /** A bound that holds in `J` still holds once the identity is added. */
  lemma BoundKept<E(!new)>(J: Interp<E>, refl: set<RoleId>, r: Role, q: Option<ClassId>, n: nat, d: E)
    requires !HasSuccessors(J, n + 1, r, Qualifier(q), d)
    requires r.id in refl ==> n > 0 && forall e :: Rel(J, r, d, e) ==> Rel(J, r, d, d)
    ensures !HasSuccessors(WithIdentity(J, refl), n + 1, r, Qualifier(q), d)
  {
    var K := WithIdentity(J, refl);
    if HasSuccessors(K, n + 1, r, Qualifier(q), d) {
      var s: set<E> :| |s| == n + 1 && AllSuccessors(K, s, r, Qualifier(q), d);
      forall e | e in s ensures (Rel(J, r, d, e) || (r.id in refl && e == d)) && Sat(J, Qualifier(q), e) {
        IdentityRel(J, refl, r, d, e);
        assert Sat(K, Qualifier(q), e);
      }
      if r.id !in refl || exists e :: Rel(J, r, d, e) {
        assert AllSuccessors(J, s, r, Qualifier(q), d);
      } else {
        SingletonSize(s, d);
      }
    }
  }

  lemma SingletonSize<E>(s: set<E>, d: E)
    requires forall e :: e in s ==> e == d
    ensures |s| <= 1
  {
    if s != {} { assert s == {d}; }
  }

  /** A head atom that holds in `J` still holds once the identity is added. */
  lemma AtomKept<E(!new)>(J: Interp<E>, refl: set<RoleId>, a: Atom, env: Env<E>)
    requires AtomHolds(J, a, env)
    requires a.AtMost? && a.role.id in refl ==> a.n > 0 && forall e :: Rel(J, a.role, env(a.v), e) ==> Rel(J, a.role, env(a.v), env(a.v))
    ensures AtomHolds(WithIdentity(J, refl), a, env)
  {
    var K := WithIdentity(J, refl);
    match a
    case Edge(r, u, w) => IdentityRel(J, refl, r, env(u), env(w));
    case Exists(r, c, v) =>
      var e :| Rel(J, r, env(v), e) && Sat(J, Atomic(c), e);
      IdentityRel(J, refl, r, env(v), e);
      assert Sat(K, Atomic(c), e);
    case AtLeast(r, q, n, v) =>
      forall e | Rel(J, r, env(v), e) ensures Rel(K, r, env(v), e) { IdentityRel(J, refl, r, env(v), e); }
      HasSuccessorsMono(J, n, r, Qualifier(q), K, r, Qualifier(q), env(v));
    case AtMost(r, q, n, v) => BoundKept(J, refl, r, q, n, env(v));
    case _ =>
  }

  lemma HeadKept<E(!new)>(J: Interp<E>, refl: set<RoleId>, clauses: seq<DlClause>, cl: DlClause, env: Env<E>)
    requires cl in clauses && NoZeroBounds(refl, clauses) && LoopsCounted(J, refl, clauses)
    requires ClauseHolds(J, cl) && BodyHolds(J, cl.body, env)
    ensures HeadHolds(WithIdentity(J, refl), cl.head, env)
  {
    var a :| a in cl.head && AtomHolds(J, a, env);
    assert NoZeroBound(refl, cl.head);
    if a.AtMost? && a.role.id in refl { assert SelfCounted(J, cl.body, a.role, a.v); }
    AtomKept(J, refl, a, env);
  }

  /** A body matched with the identity added either is matched without it, or has a reflexive edge
      whose two ends are one element. */
  lemma LoopOrMatch<E(!new)>(J: Interp<E>, refl: set<RoleId>, body: Body, env: Env<E>)
    requires BodyHolds(WithIdentity(J, refl), body, env) && forall a :: a in body ==> a.Class? || a.Edge?
    ensures BodyHolds(J, body, env) ||
      exists idx: nat :: idx < |body| && IsReflexiveEdge(refl, body[idx]) && env(body[idx].u) == env(body[idx].w)
  {
    if !BodyHolds(J, body, env) {
      var a :| a in body && !AtomHolds(J, a, env);
      assert AtomHolds(WithIdentity(J, refl), a, env);
      IdentityRel(J, refl, a.role, env(a.u), env(a.w));
      var idx :| 0 <= idx < |body| && body[idx] == a;
    }
  }

  /** A matched loop is a match of the contraction. */
  lemma ContractMatch<E(!new)>(K: Interp<E>, cl: DlClause, idx: nat, env: Env<E>)
    requires idx < |cl.body| && cl.body[idx].Edge? && env(cl.body[idx].u) == env(cl.body[idx].w)
    ensures BodyHolds(K, cl.body, env) ==> BodyHolds(K, Contract(cl, idx).body, env)
    ensures HeadHolds(K, Contract(cl, idx).head, env) <==> HeadHolds(K, cl.head, env)
  {
    var keep, drop := Kept(cl.body[idx]), Dropped(cl.body[idx]);
    var rest := cl.body[..idx] + cl.body[idx + 1..];
    forall v: Var ensures Merge(keep, drop, env)(v) == env(v) { assert Sub(keep, drop, v) == if v == drop then keep else v; }
    forall a ensures AtomHolds(K, a, Merge(keep, drop, env)) <==> AtomHolds(K, a, env) {
      AtomFrame(K, a, Merge(keep, drop, env), env);
    }
    SubBody(K, keep, drop, rest, env);
    SubHead(K, keep, drop, cl.head, env);
    WithoutSplit(cl.body, idx);
  }

  lemma RedundantHolds<E(!new)>(J: Interp<E>, refl: set<RoleId>, cl: DlClause, env: Env<E>)
    requires Redundant(refl, cl) && BodyHolds(WithIdentity(J, refl), cl.body, env)
    ensures HeadHolds(WithIdentity(J, refl), cl.head, env)
  {
    var a :| a in cl.head && (a in cl.body || (IsReflexiveEdge(refl, a) && a.u == a.w));
    if a !in cl.body { IdentityRel(J, refl, a.role, env(a.u), env(a.w)); }
    assert AtomHolds(WithIdentity(J, refl), a, env);
  }

  ghost predicate PlainBodies(clauses: seq<DlClause>) {
    forall cl, a :: cl in clauses && a in cl.body ==> a.Class? || a.Edge?
  }

  /** One matched clause of a closed set: descend through contractions until no loop is left. */
  lemma {:induction false} MatchKept<E(!new)>(J: Interp<E>, refl: set<RoleId>, clauses: seq<DlClause>, cl: DlClause, env: Env<E>)
    requires Closed(refl, clauses) && PlainBodies(clauses) && NoZeroBounds(refl, clauses) && LoopsCounted(J, refl, clauses)
    requires AllHold(J, clauses) && cl in clauses && BodyHolds(WithIdentity(J, refl), cl.body, env)
    ensures HeadHolds(WithIdentity(J, refl), cl.head, env)
    decreases |cl.body|
  {
    var K := WithIdentity(J, refl);
    LoopOrMatch(J, refl, cl.body, env);
    if BodyHolds(J, cl.body, env) {
      HeadKept(J, refl, clauses, cl, env);
    } else {
      var idx: nat :| idx < |cl.body| && IsReflexiveEdge(refl, cl.body[idx]) && env(cl.body[idx].u) == env(cl.body[idx].w);
      ContractMatch(K, cl, idx, env);
      assert Processed(refl, clauses, cl) && Covered(refl, clauses, cl, idx);
      if Contract(cl, idx) in clauses {
        MatchKept(J, refl, clauses, Contract(cl, idx), env);
      } else {
        RedundantHolds(J, refl, Contract(cl, idx), env);
      }
    }
  }

  /** Contraction loses nothing: when the worklist ended closed, any interpretation of the clauses,
      with each reflexive role unioned with the identity, satisfies every clause. */
  lemma ContractionComplete<E(!new)>(J: Interp<E>, refl: set<RoleId>, clauses: seq<DlClause>)
    requires Closed(refl, clauses) && PlainBodies(clauses) && NoZeroBounds(refl, clauses) && LoopsCounted(J, refl, clauses)
    requires AllHold(J, clauses)
    ensures AllHold(WithIdentity(J, refl), clauses) && AllReflexive(WithIdentity(J, refl), refl)
  {
    forall cl | cl in clauses ensures ClauseHolds(WithIdentity(J, refl), cl) {
      forall env: Env<E> | BodyHolds(WithIdentity(J, refl), cl.body, env) ensures HeadHolds(WithIdentity(J, refl), cl.head, env) {
        MatchKept(J, refl, clauses, cl, env);
      }
    }
  }

  /** Properties of the original clauses that contraction hands on. */
  lemma {:induction false} DerivedShape(refl: set<RoleId>, n: nat, out: seq<DlClause>)
    requires n <= |out| && Derived(refl, n, out) && PlainBodies(out[..n]) && NoZeroBounds(refl, out[..n])
    ensures PlainBodies(out) && NoZeroBounds(refl, out)
    decreases |out|
  {
    if n < |out| {
      var m := |out| - 1;
      var src, idx := LastDerived(refl, n, out);
      DerivedShape(refl, n, out[..m]);
      assert NoZeroBound(refl, src.head);
      ShapeStep(refl, src, idx);
      ShapeSnoc(refl, out, m);
    } else {
      assert out[..n] == out;
    }
  }

  lemma ShapeSnoc(refl: set<RoleId>, out: seq<DlClause>, m: nat)
    requires |out| == m + 1 && PlainBodies(out[..m]) && NoZeroBounds(refl, out[..m])
    requires NoZeroBound(refl, out[m].head) && forall a :: a in out[m].body ==> a.Class? || a.Edge?
    ensures PlainBodies(out) && NoZeroBounds(refl, out)
  {
    assert out == out[..m] + [out[m]];
  }

  lemma ShapeStep(refl: set<RoleId>, src: DlClause, idx: nat)
    requires idx < |src.body| && src.body[idx].Edge? && (forall a :: a in src.body ==> a.Class? || a.Edge?) && NoZeroBound(refl, src.head)
    ensures forall a :: a in Contract(src, idx).body ==> a.Class? || a.Edge?
    ensures NoZeroBound(refl, Contract(src, idx).head)
  {
    WithoutSplit(src.body, idx);
    var keep, drop := Kept(src.body[idx]), Dropped(src.body[idx]);
    forall a | a in Contract(src, idx).body ensures a.Class? || a.Edge? {
      var b := SubSource(keep, drop, src.body[..idx] + src.body[idx + 1..], a);
      assert b in src.body;
    }
    forall a | a in Contract(src, idx).head && a.AtMost? && a.role.id in refl ensures a.n > 0 {
      var b := SubSource(keep, drop, src.head, a);
    }
  }

  // ----- counted self-loops -----

  function MaxVar(atoms: seq<Atom>): (m: nat)
    ensures forall a, v :: a in atoms && v in AtomVars(a) ==> v < m
    ensures m > X
  {
    if atoms == [] then X + 1
    else
      var m := MaxVar(atoms[1..]);
      var v := match atoms[0]
        case Edge(_, u, w) => if u < w then w else u
        case Equal(u, w) => if u < w then w else u
        case Class(_, v) => v
        case Exists(_, _, v) => v
        case AtMost(_, _, _, v) => v
        case AtLeast(_, _, _, v) => v;
      if m <= v then v + 1 else m
  }

  /** `body ∧ R(v, fresh) → R(v, v)` for a head `≤n R` at `v`. */
  function CountedLoop(cl: DlClause, a: Atom): DlClause
    requires a.AtMost?
  {
    DlClause(cl.body + [Edge(a.role, a.v, MaxVar(cl.body + cl.head))], [Edge(a.role, a.v, a.v)])
  }

  ghost predicate IsLoopOf(refl: set<RoleId>, clauses: seq<DlClause>, loop: DlClause) {
    exists cl, a :: cl in clauses && a in cl.head && a.AtMost? && a.role.id in refl && loop == CountedLoop(cl, a)
  }

  /** A self-loop is only added next to another edge: the body keeps its atoms and gains an edge of the
      bounded role from the bounded variable to one the clause does not mention. */
  lemma LoopGuarded(refl: set<RoleId>, clauses: seq<DlClause>, loop: DlClause) returns (cl: DlClause, a: Atom, other: Var)
    requires IsLoopOf(refl, clauses, loop)
    ensures cl in clauses && a in cl.head && a.AtMost? && a.role.id in refl
    ensures loop.body == cl.body + [Edge(a.role, a.v, other)] && loop.head == [Edge(a.role, a.v, a.v)]
    ensures other != X && forall b :: b in cl.body || b in cl.head ==> other !in AtomVars(b)
  {
    cl, a :| cl in clauses && a in cl.head && a.AtMost? && a.role.id in refl && loop == CountedLoop(cl, a);
    other := MaxVar(cl.body + cl.head);
    forall b | b in cl.body || b in cl.head ensures other !in AtomVars(b) { assert b in cl.body + cl.head; }
  }

  /** Exactly the self-loop clauses of the bounds on reflexive roles, each once. */
  method AddCountedSelfLoops(clauses: seq<DlClause>, refl: set<RoleId>) returns (out: seq<DlClause>, loops: seq<DlClause>)
    ensures out == clauses + loops
    ensures forall loop :: loop in loops <==> IsLoopOf(refl, clauses, loop)
    ensures forall i, j :: 0 <= i < j < |loops| ==> loops[i] != loops[j]
  {
    loops := [];
    for k := 0 to |clauses|
      invariant forall loop :: loop in loops <==> IsLoopOf(refl, clauses[..k], loop)
      invariant forall i, j :: 0 <= i < j < |loops| ==> loops[i] != loops[j]
    {
      loops := AddLoops(clauses[k], refl, loops);
      assert clauses[..k + 1] == clauses[..k] + [clauses[k]];
      LoopsSplit(refl, clauses[..k], clauses[k]);
    }
    assert clauses[..|clauses|] == clauses;
    out := clauses + loops;
  }

  lemma LoopsSplit(refl: set<RoleId>, clauses: seq<DlClause>, cl: DlClause)
    ensures forall loop :: IsLoopOf(refl, clauses + [cl], loop) <==> IsLoopOf(refl, clauses, loop) || IsLoopOf(refl, [cl], loop)
  {
    forall loop | IsLoopOf(refl, [cl], loop) ensures IsLoopOf(refl, clauses + [cl], loop) {
      var c, a :| c in [cl] && a in c.head && a.AtMost? && a.role.id in refl && loop == CountedLoop(c, a);
      assert c in clauses + [cl];
    }
    forall loop | IsLoopOf(refl, clauses, loop) ensures IsLoopOf(refl, clauses + [cl], loop) {
      var c, a :| c in clauses && a in c.head && a.AtMost? && a.role.id in refl && loop == CountedLoop(c, a);
      assert c in clauses + [cl];
    }
    forall loop | IsLoopOf(refl, clauses + [cl], loop) ensures IsLoopOf(refl, clauses, loop) || IsLoopOf(refl, [cl], loop) {
      var c, a :| c in clauses + [cl] && a in c.head && a.AtMost? && a.role.id in refl && loop == CountedLoop(c, a);
      if c !in clauses { assert c in [cl]; }
    }
  }

  method AddLoops(cl: DlClause, refl: set<RoleId>, loops: seq<DlClause>) returns (r: seq<DlClause>)
    requires forall i, j :: 0 <= i < j < |loops| ==> loops[i] != loops[j]
    ensures forall loop :: loop in r <==> loop in loops || IsLoopOf(refl, [cl], loop)
    ensures forall i, j :: 0 <= i < j < |r| ==> r[i] != r[j]
  {
    r := loops;
    for k := 0 to |cl.head|
      invariant forall i, j :: 0 <= i < j < |r| ==> r[i] != r[j]
      invariant forall loop :: loop in r ==> loop in loops || IsLoopOf(refl, [cl], loop)
      invariant forall loop :: loop in loops ==> loop in r
      invariant forall i :: 0 <= i < k && cl.head[i].AtMost? && cl.head[i].role.id in refl ==> CountedLoop(cl, cl.head[i]) in r
    {
      var a := cl.head[k];
      if a.AtMost? && a.role.id in refl {
        var loop := CountedLoop(cl, a);
        assert IsLoopOf(refl, [cl], loop) by { assert cl in [cl] && a in cl.head; }
        if loop !in r {
          r := r + [loop];
        }
      }
    }
    forall loop | IsLoopOf(refl, [cl], loop) ensures loop in r {
      var c, a :| c in [cl] && a in c.head && a.AtMost? && a.role.id in refl && loop == CountedLoop(c, a);
      assert c == cl;
    }
  }

  /** A self-loop clause holds wherever the role is reflexive. */
  lemma LoopSound<E(!new)>(J: Interp<E>, refl: set<RoleId>, clauses: seq<DlClause>, loop: DlClause)
    requires AllReflexive(J, refl) && IsLoopOf(refl, clauses, loop)
    ensures ClauseHolds(J, loop)
  {
    var cl, a :| cl in clauses && a in cl.head && a.AtMost? && a.role.id in refl && loop == CountedLoop(cl, a);
    forall env: Env<E> ensures HeadHolds(J, loop.head, env) {
      assert J.rol(a.role.id, env(a.v), env(a.v));
      assert loop.head[0] in loop.head && AtomHolds(J, loop.head[0], env);
    }
  }

  /** The self-loop clauses make every bounded element with a successor count itself. */
  lemma LoopsCount<E(!new)>(J: Interp<E>, refl: set<RoleId>, clauses: seq<DlClause>)
    requires forall loop :: IsLoopOf(refl, clauses, loop) ==> ClauseHolds(J, loop)
    ensures LoopsCounted(J, refl, clauses)
  {
    forall cl, a | cl in clauses && a in cl.head && a.AtMost? && a.role.id in refl ensures SelfCounted(J, cl.body, a.role, a.v) {
      forall env: Env<E>, e {:trigger BodyHolds(J, cl.body, env), Rel(J, a.role, env(a.v), e)} |
        BodyHolds(J, cl.body, env) && Rel(J, a.role, env(a.v), e)
        ensures Rel(J, a.role, env(a.v), env(a.v))
      {
        LoopFires(J, refl, clauses, cl, a, env, e);
      }
    }
  }

  lemma LoopFires<E(!new)>(J: Interp<E>, refl: set<RoleId>, clauses: seq<DlClause>, cl: DlClause, a: Atom, env: Env<E>, e: E)
    requires forall loop :: IsLoopOf(refl, clauses, loop) ==> ClauseHolds(J, loop)
    requires cl in clauses && a in cl.head && a.AtMost? && a.role.id in refl
    requires BodyHolds(J, cl.body, env) && Rel(J, a.role, env(a.v), e)
    ensures Rel(J, a.role, env(a.v), env(a.v))
  {
    var loop := CountedLoop(cl, a);
    assert IsLoopOf(refl, clauses, loop);
    var next := MaxVar(cl.body + cl.head);
    assert a in cl.body + cl.head && a.v in AtomVars(a);
    var env': Env<E> := (v: Var) => if v == next then e else env(v);
    var edge := Edge(a.role, a.v, next);
    forall b, v | b in cl.body && v in AtomVars(b) ensures env'(v) == env(v) { assert b in cl.body + cl.head; }
    BodyFrame(J, cl.body, env, env');
    BodySplit(J, cl.body, [edge], env');
    UnitBody(J, edge, env');
    assert HeadHolds(J, loop.head, env');
    assert AtomHolds(J, loop.head[0], env');
  }

  /** Contraction with counted self-loops: under the cap and with no bound of zero on a reflexive
      role, any interpretation of the final clauses, with each reflexive role unioned with the
      identity, satisfies all the original clauses. */
  lemma ReflexiveLosesNothing<E(!new)>(J: Interp<E>, refl: set<RoleId>, clauses: seq<DlClause>, out: seq<DlClause>, loops: seq<DlClause>)
    requires clauses <= out && Derived(refl, |clauses|, out) && Closed(refl, out)
    requires forall loop :: loop in loops <==> IsLoopOf(refl, out, loop)
    requires PlainBodies(clauses) && NoZeroBounds(refl, clauses)
    requires AllHold(J, out + loops)
    ensures AllHold(WithIdentity(J, refl), clauses) && AllReflexive(WithIdentity(J, refl), refl)
  {
    AllHoldSplit(J, out, loops);
    LoopsCount(J, refl, out);
    assert out[..|clauses|] == clauses;
    DerivedShape(refl, |clauses|, out);
    ContractionComplete(J, refl, out);
    assert forall cl :: cl in clauses ==> cl in out;
  }

  /** Every clause added for reflexivity holds in every model where the ids are reflexive. */
  lemma ReflexiveSound<E(!new)>(J: Interp<E>, refl: set<RoleId>, clauses: seq<DlClause>, out: seq<DlClause>, loops: seq<DlClause>)
    requires AllReflexive(J, refl) && clauses <= out && Derived(refl, |clauses|, out) && AllHold(J, clauses)
    requires forall loop :: loop in loops ==> IsLoopOf(refl, out, loop)
    ensures AllHold(J, out + loops)
  {
    assert out[..|clauses|] == clauses;
    DerivedSound(J, refl, |clauses|, out);
    forall loop | loop in loops { LoopSound(J, refl, out, loop); }
    AllHoldSplit(J, out, loops);
  }

  lemma NoSuccessors<E(!new)>(J: Interp<E>, n: nat, r: Role, f: Concept, d: E)
    requires n > 0 && forall e :: !Rel(J, r, d, e)
    ensures !HasSuccessors(J, n, r, f, d)
  {
    forall s: set<E> ensures |s| == n ==> !AllSuccessors(J, s, r, f, d) {
      if e :| e in s { assert !Rel(J, r, d, e); }
    }
  }

  // ----- exactly when something is lost -----

  /** Every interpretation of the final clauses satisfies the original ones once the identity is added. */
  ghost predicate LosesNothing<E(!new)>(refl: set<RoleId>, clauses: seq<DlClause>, out: seq<DlClause>, loops: seq<DlClause>) {
    forall J: Interp<E> :: AllHold(J, out + loops) ==> AllHold(WithIdentity(J, refl), clauses)
  }

  /** A class, a bound on a reflexive role, or an edge or successor along another role. */
  ghost predicate OpenAtom(refl: set<RoleId>, a: Atom) {
    match a
    case Class(_, _) => true
    case AtMost(r, _, _, _) => r.id in refl
    case Edge(r, _, _) => r.id !in refl
    case Exists(r, _, _) => r.id !in refl
    case _ => false
  }

  predicate IsZeroBound(refl: set<RoleId>, a: Atom) {
    a.AtMost? && a.role.id in refl && a.n == 0
  }

  /** A head of such atoms, all or none of them bounds of zero on reflexive roles. */
  ghost predicate OpenHead(refl: set<RoleId>, head: seq<Atom>) {
    && head != [] && (forall a :: a in head ==> OpenAtom(refl, a))
    && (NoZeroBound(refl, head) || forall a :: a in head ==> IsZeroBound(refl, a))
  }

  ghost predicate OpenHeads(refl: set<RoleId>, clauses: seq<DlClause>) {
    forall cl :: cl in clauses ==> OpenHead(refl, cl.head)
  }

  /** Every class is full, every reflexive role is empty and every other role is full. */
  function Extreme<E>(refl: set<RoleId>, e: E): Interp<E> {
    Interp((c, d) => true, (r, x, y) => r !in refl, i => e)
  }

  lemma ExtremeHead<E(!new)>(refl: set<RoleId>, head: seq<Atom>, e: E, env: Env<E>)
    requires OpenHead(refl, head)
    ensures HeadHolds(Extreme(refl, e), head, env)
  {
    var J, a := Extreme(refl, e), head[0];
    assert a in head;
    match a
    case AtMost(r, q, n, v) => NoSuccessors(J, n + 1, r, Qualifier(q), env(v));
    case Exists(r, c, v) => assert Rel(J, r, env(v), e) && Sat(J, Atomic(c), e);
    case _ =>
  }

  lemma ContractOpen(refl: set<RoleId>, cl: DlClause, idx: nat)
    requires idx < |cl.body| && cl.body[idx].Edge? && OpenHead(refl, cl.head)
    ensures OpenHead(refl, Contract(cl, idx).head)
  {
    var keep, drop := Kept(cl.body[idx]), Dropped(cl.body[idx]);
    forall a | a in Contract(cl, idx).head
      ensures OpenAtom(refl, a)
      ensures NoZeroBound(refl, cl.head) && a.AtMost? && a.role.id in refl ==> a.n > 0
      ensures (forall b :: b in cl.head ==> IsZeroBound(refl, b)) ==> IsZeroBound(refl, a)
    {
      var b := SubSource(keep, drop, cl.head, a);
    }
  }

  lemma OpenSnoc(refl: set<RoleId>, out: seq<DlClause>, m: nat)
    requires |out| == m + 1 && OpenHeads(refl, out[..m]) && OpenHead(refl, out[m].head)
    ensures OpenHeads(refl, out)
  {
    assert out == out[..m] + [out[m]];
  }

  lemma {:induction false} DerivedOpen(refl: set<RoleId>, n: nat, out: seq<DlClause>)
    requires n <= |out| && Derived(refl, n, out) && OpenHeads(refl, out[..n])
    ensures OpenHeads(refl, out)
    decreases |out|
  {
    if n < |out| {
      var m := |out| - 1;
      var src, idx := LastDerived(refl, n, out);
      DerivedOpen(refl, n, out[..m]);
      ContractOpen(refl, src, idx);
      OpenSnoc(refl, out, m);
    } else {
      assert out[..n] == out;
    }
  }

  /** The extreme interpretation satisfies the final clauses. */
  lemma ExtremeHolds<E(!new)>(refl: set<RoleId>, out: seq<DlClause>, loops: seq<DlClause>, e: E)
    requires OpenHeads(refl, out) && forall loop :: loop in loops ==> IsLoopOf(refl, out, loop)
    ensures AllHold(Extreme(refl, e), out + loops)
  {
    var J := Extreme(refl, e);
    forall cl | cl in out ensures ClauseHolds(J, cl) {
      forall env: Env<E> { ExtremeHead(refl, cl.head, e, env); }
    }
    forall loop | loop in loops ensures ClauseHolds(J, loop) {
      var cl, a :| cl in out && a in cl.head && a.AtMost? && a.role.id in refl && loop == CountedLoop(cl, a);
      var edge := loop.body[|cl.body|];
      forall env: Env<E> ensures !BodyHolds(J, loop.body, env) { assert edge in loop.body && !AtomHolds(J, edge, env); }
    }
    AllHoldSplit(J, out, loops);
  }

  /** With the identity added, every body of class and edge atoms is matched at one element, which
      then is its own successor along a reflexive role. */
  lemma ExtremeBreaks<E(!new)>(refl: set<RoleId>, cl: DlClause, e: E)
    requires (forall a :: a in cl.body ==> a.Class? || a.Edge?)
    requires forall a :: a in cl.head ==> IsZeroBound(refl, a)
    ensures !ClauseHolds(WithIdentity(Extreme(refl, e), refl), cl)
  {
    var K := WithIdentity(Extreme(refl, e), refl);
    var env: Env<E> := v => e;
    forall b | b in cl.body ensures AtomHolds(K, b, env) {
      if b.Edge? { IdentityRel(Extreme(refl, e), refl, b.role, e, e); }
    }
    forall a | a in cl.head ensures !AtomHolds(K, a, env) {
      IdentityRel(Extreme(refl, e), refl, a.role, e, e);
      assert AllSuccessors(K, {e}, a.role, Qualifier(a.qual), e) && |{e}| == 1;
      assert HasSuccessors(K, 1, a.role, Qualifier(a.qual), e);
    }
    assert BodyHolds(K, cl.body, env) && !HeadHolds(K, cl.head, env);
  }

  /** The condition on zero bounds is exact: for clauses with such heads, over any domain with an
      element, contraction loses nothing iff no reflexive role is bounded by zero. */
  lemma ZeroBoundsLose<E(!new)>(refl: set<RoleId>, clauses: seq<DlClause>, out: seq<DlClause>, loops: seq<DlClause>, e: E)
    requires clauses <= out && Derived(refl, |clauses|, out) && Closed(refl, out)
    requires forall loop :: loop in loops <==> IsLoopOf(refl, out, loop)
    requires PlainBodies(clauses) && OpenHeads(refl, clauses)
    ensures LosesNothing<E>(refl, clauses, out, loops) <==> NoZeroBounds(refl, clauses)
  {
    if NoZeroBounds(refl, clauses) {
      forall J: Interp<E> | AllHold(J, out + loops) ensures AllHold(WithIdentity(J, refl), clauses) {
        ReflexiveLosesNothing(J, refl, clauses, out, loops);
      }
    } else {
      var cl :| cl in clauses && !NoZeroBound(refl, cl.head);
      assert out[..|clauses|] == clauses;
      DerivedOpen(refl, |clauses|, out);
      ExtremeHolds(refl, out, loops, e);
      ExtremeBreaks(refl, cl, e);
    }
  }

  /** For one clause whose head bounds a reflexive role: nothing is lost iff the bound is not zero. */
  lemma ZeroBoundLost<E(!new)>(refl: set<RoleId>, body: Body, r: Role, q: Option<ClassId>, n: nat, v: Var,
      out: seq<DlClause>, loops: seq<DlClause>, e: E)
    requires (forall a :: a in body ==> a.Class? || a.Edge?) && r.id in refl
    requires [DlClause(body, [AtMost(r, q, n, v)])] <= out && Derived(refl, 1, out) && Closed(refl, out)
    requires forall loop :: loop in loops <==> IsLoopOf(refl, out, loop)
    ensures LosesNothing<E>(refl, [DlClause(body, [AtMost(r, q, n, v)])], out, loops) <==> n > 0
  {
    var cl := DlClause(body, [AtMost(r, q, n, v)]);
    assert cl in [cl] && cl.head[0] in cl.head;
    ZeroBoundsLose(refl, [cl], out, loops, e);
  }
}
