/** DL-clauses `body → head` and what they mean. */
module Clauses {
  import opened Dl

  /** A clause variable. `X` is the central individual; later ones are successors. */
  type Var = nat

  const X: Var := 0

  datatype Atom =
    | Class(cls: ClassId, v: Var)
    | Edge(role: Role, u: Var, w: Var)
    | Exists(role: Role, cls: ClassId, v: Var)
    | AtMost(role: Role, qual: Option<ClassId>, n: nat, v: Var)
    | AtLeast(role: Role, qual: Option<ClassId>, n: nat, v: Var)
    | Equal(u: Var, w: Var)

  type Body = seq<Atom>

  /** An empty head is ⊥, an empty body is ⊤. */
  datatype DlClause = DlClause(body: Body, head: seq<Atom>)

  function AtomVars(a: Atom): set<Var> {
    match a
    case Edge(_, u, w) => {u, w}
    case Equal(u, w) => {u, w}
    case Class(_, v) => {v}
    case Exists(_, _, v) => {v}
    case AtMost(_, _, _, v) => {v}
    case AtLeast(_, _, _, v) => {v}
  }

  ghost predicate VarsBelow(body: seq<Atom>, n: Var) {
    forall a, v :: a in body && v in AtomVars(a) ==> v < n
  }

  // ----- meaning -----

  type Env<!E> = Var -> E

  function Qualifier(q: Option<ClassId>): Concept {
    match q case None => Top case Some(c) => Atomic(c)
  }

  ghost predicate AtomHolds<E(!new)>(J: Interp<E>, a: Atom, env: Env<E>) {
    match a
    case Class(c, v) => J.cls(c, env(v))
    case Edge(r, u, w) => Rel(J, r, env(u), env(w))
    case Exists(r, c, v) => Sat(J, SomeOf(r, Atomic(c)), env(v))
    case AtMost(r, q, n, v) => Sat(J, Max(n, r, Qualifier(q)), env(v))
    case AtLeast(r, q, n, v) => Sat(J, Min(n, r, Qualifier(q)), env(v))
    case Equal(u, w) => env(u) == env(w)
  }

  ghost predicate BodyHolds<E(!new)>(J: Interp<E>, body: seq<Atom>, env: Env<E>) {
    forall a :: a in body ==> AtomHolds(J, a, env)
  }

  ghost predicate HeadHolds<E(!new)>(J: Interp<E>, head: seq<Atom>, env: Env<E>) {
    exists a :: a in head && AtomHolds(J, a, env)
  }

  ghost predicate ClauseHolds<E(!new)>(J: Interp<E>, cl: DlClause) {
    forall env: Env<E> :: BodyHolds(J, cl.body, env) ==> HeadHolds(J, cl.head, env)
  }

  ghost predicate AllHold<E(!new)>(J: Interp<E>, clauses: seq<DlClause>) {
    forall cl :: cl in clauses ==> ClauseHolds(J, cl)
  }

  lemma AllHoldSplit<E(!new)>(J: Interp<E>, xs: seq<DlClause>, ys: seq<DlClause>)
    ensures AllHold(J, xs + ys) <==> AllHold(J, xs) && AllHold(J, ys)
  {
  }

  lemma BodySplit<E(!new)>(J: Interp<E>, xs: seq<Atom>, ys: seq<Atom>, env: Env<E>)
    ensures BodyHolds(J, xs + ys, env) <==> BodyHolds(J, xs, env) && BodyHolds(J, ys, env)
  {
  }

  /** Only the variables of an atom matter to it. */
  lemma AtomFrame<E(!new)>(J: Interp<E>, a: Atom, env: Env<E>, env': Env<E>)
    requires forall v :: v in AtomVars(a) ==> env(v) == env'(v)
    ensures AtomHolds(J, a, env) == AtomHolds(J, a, env')
  {
    match a
    case Edge(_, u, w) => assert u in AtomVars(a) && w in AtomVars(a);
    case Equal(u, w) => assert u in AtomVars(a) && w in AtomVars(a);
    case Class(_, v) => assert v in AtomVars(a);
    case Exists(_, _, v) => assert v in AtomVars(a);
    case AtMost(_, _, _, v) => assert v in AtomVars(a);
    case AtLeast(_, _, _, v) => assert v in AtomVars(a);
  }

  lemma BodyFrame<E(!new)>(J: Interp<E>, body: seq<Atom>, env: Env<E>, env': Env<E>)
    requires forall a, v :: a in body && v in AtomVars(a) ==> env(v) == env'(v)
    ensures BodyHolds(J, body, env) == BodyHolds(J, body, env')
  {
    forall a | a in body ensures AtomHolds(J, a, env) == AtomHolds(J, a, env') {
      AtomFrame(J, a, env, env');
    }
  }

  // ----- class frames -----

  ghost predicate AtomBelow(a: Atom, k: ClassId) {
    match a
    case Class(c, _) => c < k
    case Exists(_, c, _) => c < k
    case AtMost(_, q, _, _) => q.Some? ==> q.value < k
    case AtLeast(_, q, _, _) => q.Some? ==> q.value < k
    case _ => true
  }

  ghost predicate AtomsBelow(body: seq<Atom>, k: ClassId) {
    forall a :: a in body ==> AtomBelow(a, k)
  }

  lemma LiftBelow(body: seq<Atom>, k: ClassId, k': ClassId)
    requires AtomsBelow(body, k) && k <= k'
    ensures AtomsBelow(body, k')
  {
  }

  /** The clause uses only classes below `k`. */
  ghost predicate ClauseBelow(cl: DlClause, k: ClassId) {
    && (forall a :: a in cl.body ==> AtomBelow(a, k))
    && (forall a :: a in cl.head ==> AtomBelow(a, k))
  }

  lemma AtomAgree<E(!new)>(J: Interp<E>, K: Interp<E>, a: Atom, k: ClassId, env: Env<E>)
    requires Agree(J, K, k) && AtomBelow(a, k)
    ensures AtomHolds(J, a, env) == AtomHolds(K, a, env)
  {
    match a
    case Exists(r, c, v) => SatAgree(J, K, SomeOf(r, Atomic(c)), k, 0, env(v));
    case AtMost(r, q, n, v) => SatAgree(J, K, Max(n, r, Qualifier(q)), k, 0, env(v));
    case AtLeast(r, q, n, v) => SatAgree(J, K, Min(n, r, Qualifier(q)), k, 0, env(v));
    case _ =>
  }

  lemma BodyAgree<E(!new)>(J: Interp<E>, K: Interp<E>, body: seq<Atom>, k: ClassId, env: Env<E>)
    requires Agree(J, K, k) && forall a :: a in body ==> AtomBelow(a, k)
    ensures BodyHolds(J, body, env) == BodyHolds(K, body, env)
  {
    forall a | a in body ensures AtomHolds(J, a, env) == AtomHolds(K, a, env) {
      AtomAgree(J, K, a, k, env);
    }
  }

  lemma ClauseAgree<E(!new)>(J: Interp<E>, K: Interp<E>, cl: DlClause, k: ClassId)
    requires Agree(J, K, k) && ClauseBelow(cl, k)
    ensures ClauseHolds(J, cl) == ClauseHolds(K, cl)
  {
    forall env: Env<E>
      ensures BodyHolds(J, cl.body, env) == BodyHolds(K, cl.body, env)
      ensures HeadHolds(J, cl.head, env) == HeadHolds(K, cl.head, env)
    {
      BodyAgree(J, K, cl.body, k, env);
      forall a | a in cl.head ensures AtomHolds(J, a, env) == AtomHolds(K, a, env) {
        AtomAgree(J, K, a, k, env);
      }
    }
  }

  // ----- tree-shaped bodies -----

  /** Self-loops aside, the edges of `body` form a tree rooted at `root`, and every class atom and every
      self-loop sits on it. `depth` strictly rises along each edge of the tree. */
  ghost predicate LoopTree(body: Body, root: Var, depth: Var -> nat) {
    && (forall a :: a in body ==> a.Class? || a.Edge?)
    && (forall a :: a in body && a.Edge? && a.u != a.w ==> depth(a.u) < depth(a.w) && a.w != root)
    && (forall v :: Entering(body, v) <= 1)
    && (forall a, v :: a in body && v in AtomVars(a) && v != root ==> Entered(body, v))
  }

  ghost predicate TreeBody(body: Body, root: Var, depth: Var -> nat) {
    LoopTree(body, root, depth) && forall a :: a in body && a.Edge? ==> a.u != a.w
  }

  predicate StepsTo(a: Atom, v: Var) {
    a.Edge? && a.w == v && a.u != v
  }

  /** How many edges of `body` enter `v` from another variable. */
  ghost function Entering(body: Body, v: Var): nat {
    if body == [] then 0
    else (if StepsTo(body[0], v) then 1 else 0) + Entering(body[1..], v)
  }

  lemma {:induction false} EnteringSplit(x: Body, y: Body, v: Var)
    ensures Entering(x + y, v) == Entering(x, v) + Entering(y, v)
    decreases x
  {
    if x == [] {
      assert x + y == y;
    } else {
      assert (x + y)[1..] == x[1..] + y;
      EnteringSplit(x[1..], y, v);
    }
  }

  lemma {:induction false} EnteringNone(body: Body, v: Var)
    ensures Entering(body, v) == 0 <==> !Entered(body, v)
    decreases body
  {
    if body != [] {
      EnteringNone(body[1..], v);
      assert body == [body[0]] + body[1..];
      if StepsTo(body[0], v) { assert body[0] in body; }
      if Entered(body[1..], v) { var e :| e in body[1..] && StepsTo(e, v); assert e in body; }
    }
  }

  ghost predicate Entered(body: Body, v: Var) {
    exists e :: e in body && StepsTo(e, v)
  }
}
