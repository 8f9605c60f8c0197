/** Splitting wide clause bodies into named branches: the functions and what they mean. */
module Branches {
  import opened Dl
  import opened Clauses

  /** Cap on the variables of a clause body. */
  const MAX_BODY_VARS: nat := 8

  function EdgeVars(body: Body): set<Var> {
    set a, v | a in body && a.Edge? && v in AtomVars(a) :: v
  }

  /** The variables of the body's edges, and `X`. */
  function CountedVars(body: Body): set<Var> {
    {X} + EdgeVars(body)
  }

  /** The same with `root` in place of `X`. */
  function CountedFrom(body: Body, root: Var): set<Var> {
    {X} + set v | v in EdgeVars(body) :: if v == root then X else v
  }

  // ----- discovering the tree -----

  /** Edges placed so far: who bound whom, the bound variables in order, and which atoms are placed. */
  datatype Tree = Tree(parent: map<Var, Var>, bound: seq<Var>, placed: seq<bool>)

  function PlaceOne(atoms: Body, i: nat, t: Tree): Tree
    requires i < |atoms| == |t.placed|
  {
    if atoms[i].Edge? && !t.placed[i] && atoms[i].u in t.bound then
      var t1 := t.(placed := t.placed[i := true]);
      if atoms[i].w in t.bound then t1
      else t1.(bound := t.bound + [atoms[i].w], parent := t.parent[atoms[i].w := atoms[i].u])
    else t
  }

  function Pass(atoms: Body, i: nat, t: Tree): (r: Tree)
    requires i <= |atoms| == |t.placed|
    ensures |r.placed| == |t.placed|
    ensures forall k :: 0 <= k < |atoms| && t.placed[k] ==> r.placed[k]
    decreases |atoms| - i
  {
    if i == |atoms| then t else Pass(atoms, i + 1, PlaceOne(atoms, i, t))
  }

  function Unplaced(t: Tree): set<nat> {
    set k | 0 <= k < |t.placed| && !t.placed[k]
  }

  /** Passes until nothing is placed any more. */
  function Discover(atoms: Body, t: Tree): Tree
    requires |atoms| == |t.placed|
    decreases |Unplaced(t)|
  {
    var t' := Pass(atoms, 0, t);
    if t'.placed == t.placed then t'
    else
      ProgressShrinks(t, t');
      Discover(atoms, t')
  }

  lemma ProgressShrinks(t: Tree, t': Tree)
    requires |t.placed| == |t'.placed| && t.placed != t'.placed
    requires forall k :: 0 <= k < |t.placed| && t.placed[k] ==> t'.placed[k]
    ensures |Unplaced(t')| < |Unplaced(t)|
  {
    var k :| 0 <= k < |t.placed| && t.placed[k] != t'.placed[k];
    assert Unplaced(t') <= Unplaced(t) - {k};
    SubsetSize(Unplaced(t'), Unplaced(t) - {k});
  }

  lemma SubsetSize<T>(a: set<T>, b: set<T>)
    requires a <= b
    ensures |a| <= |b|
  {
    assert b == a + (b - a);
  }

  function StartTree(n: nat, root: Var): Tree {
    Tree(map[], [root], seq(n, _ => false))
  }

  /** Every bound variable but the first was bound by an earlier one. */
  ghost predicate WellPlaced(t: Tree, root: Var) {
    && |t.bound| > 0 && t.bound[0] == root
    && (forall i, j :: 0 <= i < j < |t.bound| ==> t.bound[i] != t.bound[j])
    && (forall v :: v in t.parent <==> v in t.bound[1..])
    && (forall k :: 0 < k < |t.bound| && t.bound[k] in t.parent ==> t.parent[t.bound[k]] in t.bound[..k])
  }

  lemma StartWell(n: nat, root: Var)
    ensures WellPlaced(StartTree(n, root), root)
  {
  }

  lemma PlaceWell(atoms: Body, i: nat, t: Tree, root: Var)
    requires i < |atoms| == |t.placed| && WellPlaced(t, root)
    ensures WellPlaced(PlaceOne(atoms, i, t), root)
  {
    var t' := PlaceOne(atoms, i, t);
    if t'.bound != t.bound { BindWell(t, root, atoms[i].u, atoms[i].w, t'.placed); }
  }

  /** Binding a new variable under a bound one. */
  lemma BindWell(t: Tree, root: Var, u: Var, w: Var, placed: seq<bool>)
    requires WellPlaced(t, root) && u in t.bound && w !in t.bound
    ensures WellPlaced(Tree(t.parent[w := u], t.bound + [w], placed), root)
  {
    var bound, parent := t.bound + [w], t.parent[w := u];
    assert bound[1..] == t.bound[1..] + [w];
    forall k | 0 < k < |bound| && bound[k] in parent ensures parent[bound[k]] in bound[..k] {
      if k < |t.bound| {
        assert bound[k] == t.bound[k] && t.bound[k] in t.bound[1..];
        assert bound[..k] == t.bound[..k];
      } else {
        assert bound[..k] == t.bound;
      }
    }
  }

  lemma {:induction false} PassWell(atoms: Body, i: nat, t: Tree, root: Var)
    requires i <= |atoms| == |t.placed| && WellPlaced(t, root)
    ensures WellPlaced(Pass(atoms, i, t), root)
    decreases |atoms| - i
  {
    if i < |atoms| {
      PlaceWell(atoms, i, t, root);
      PassWell(atoms, i + 1, PlaceOne(atoms, i, t), root);
    }
  }

  lemma {:induction false} DiscoverWell(atoms: Body, t: Tree, root: Var)
    requires |atoms| == |t.placed| && WellPlaced(t, root)
    ensures WellPlaced(Discover(atoms, t), root) && |Discover(atoms, t).placed| == |atoms|
    decreases |Unplaced(t)|
  {
    var t' := Pass(atoms, 0, t);
    PassWell(atoms, 0, t, root);
    if t'.placed != t.placed {
      ProgressShrinks(t, t');
      DiscoverWell(atoms, t', root);
    }
  }

  function TreeOf(atoms: Body, root: Var): (t: Tree)
    ensures WellPlaced(t, root) && |t.placed| == |atoms|
  {
    StartWell(|atoms|, root);
    DiscoverWell(atoms, StartTree(|atoms|, root), root);
    Discover(atoms, StartTree(|atoms|, root))
  }

  function IndexOf<T(==)>(s: seq<T>, x: T): (k: nat)
    requires x in s
    ensures k < |s| && s[k] == x && forall j :: 0 <= j < k ==> s[j] != x
  {
    if s[0] == x then 0 else 1 + IndexOf(s[1..], x)
  }

  /** Where a variable hangs: at the root, below a child of the root, or nowhere. */
  datatype Place = AtRoot | Below(child: Var) | Unbound

  function Climb(t: Tree, root: Var, w: Var): Place
    requires WellPlaced(t, root)
    decreases if w in t.bound then IndexOf(t.bound, w) else 0
  {
    if w !in t.parent then Unbound
    else if t.parent[w] == root then Below(w)
    else
      ParentEarlier(t, root, w);
      Climb(t, root, t.parent[w])
  }

  lemma ParentEarlier(t: Tree, root: Var, w: Var)
    requires WellPlaced(t, root) && w in t.parent
    ensures w in t.bound && t.parent[w] in t.bound && IndexOf(t.bound, t.parent[w]) < IndexOf(t.bound, w)
  {
    assert w in t.bound[1..];
    var k := IndexOf(t.bound, w);
    assert k > 0;
    assert t.parent[w] in t.bound[..k];
    var j :| 0 <= j < k && t.bound[j] == t.parent[w];
  }

  function TopOf(t: Tree, root: Var, v: Var): Place
    requires WellPlaced(t, root)
  {
    if v == root then AtRoot else Climb(t, root, v)
  }

  // ----- grouping -----

  function TopFn(t: Tree, root: Var): Var -> Place
    requires WellPlaced(t, root)
  {
    (v: Var) => TopOf(t, root, v)
  }

  /** The group of an atom, given where each variable hangs: `AtRoot`, below one child, or
      `Unbound` when it has none. */
  function AtomPlace(top: Var -> Place, a: Atom): Place {
    match a
    case Class(_, v) => top(v)
    case Edge(_, u, w) =>
      if top(u).AtRoot? then top(w) else if top(w).AtRoot? || top(u) == top(w) then top(u) else Unbound
    case _ => Unbound
  }

  type Group = (Var, Body)

  function AddTo(groups: seq<Group>, child: Var, a: Atom): seq<Group> {
    if groups == [] then [(child, [a])]
    else if groups[0].0 == child then [(child, groups[0].1 + [a])] + groups[1..]
    else [groups[0]] + AddTo(groups[1..], child, a)
  }

  datatype Grouping = Grouping(rootAtoms: Body, groups: seq<Group>)

  function GroupFrom(top: Var -> Place, atoms: Body, g: Grouping): Option<Grouping>
    decreases atoms
  {
    if atoms == [] then Some(g)
    else
      match AtomPlace(top, atoms[0])
      case Unbound => None
      case AtRoot => GroupFrom(top, atoms[1..], g.(rootAtoms := g.rootAtoms + [atoms[0]]))
      case Below(c) => GroupFrom(top, atoms[1..], g.(groups := AddTo(g.groups, c, atoms[0])))
  }

  // ----- renumbering -----

  function Lookup(order: seq<Var>, v: Var): Var {
    if v in order then IndexOf(order, v) else |order|
  }

  function Seen(order: seq<Var>, v: Var): seq<Var> {
    if v in order then order else order + [v]
  }

  function SeenAtom(order: seq<Var>, a: Atom): seq<Var> {
    match a
    case Class(_, v) => Seen(order, v)
    case Edge(_, u, w) => Seen(Seen(order, u), w)
    case _ => order
  }

  function RenameAtom(order: seq<Var>, a: Atom): Atom {
    match a
    case Class(c, v) => Class(c, Lookup(order, v))
    case Edge(r, u, w) => Edge(r, Lookup(order, u), Lookup(Seen(order, u), w))
    case _ => a
  }

  /** Variables become their rank in order of first appearance after those of `order`. */
  function RenumberFrom(atoms: Body, order: seq<Var>): Body
    decreases atoms
  {
    if atoms == [] then []
    else [RenameAtom(order, atoms[0])] + RenumberFrom(atoms[1..], SeenAtom(order, atoms[0]))
  }

  function Renumber(atoms: Body, root: Var): Body {
    RenumberFrom(atoms, [root])
  }

  // ----- naming -----

  /** Branch clauses named so far; branch `k` is the class `first + k`. */
  datatype Namer = Namer(first: ClassId, memo: map<Body, ClassId>, named: seq<DlClause>)

  function NameBody(st: Namer, body: Body): (ClassId, Namer) {
    if body in st.memo then (st.memo[body], st)
    else
      var e := st.first + |st.named|;
      (e, st.(memo := st.memo[body := e], named := st.named + [DlClause(body, [Class(e, X)])]))
  }

  predicate IsEdgeFrom(a: Atom, root: Var, child: Var) {
    a.Edge? && a.u == root && a.w == child
  }

  function EdgesFrom(atoms: Body, root: Var, child: Var): (r: Body)
    ensures forall a :: a in r <==> a in atoms && IsEdgeFrom(a, root, child)
    ensures |r| <= |atoms|
  {
    if atoms == [] then []
    else (if IsEdgeFrom(atoms[0], root, child) then [atoms[0]] else []) + EdgesFrom(atoms[1..], root, child)
  }

  function Inner(atoms: Body, root: Var, child: Var): (r: Body)
    ensures forall a :: a in r <==> a in atoms && !IsEdgeFrom(a, root, child)
    ensures |r| + |EdgesFrom(atoms, root, child)| == |atoms|
  {
    if atoms == [] then []
    else (if IsEdgeFrom(atoms[0], root, child) then [] else [atoms[0]]) + Inner(atoms[1..], root, child)
  }

  predicate Mentions(atoms: Body, v: Var) {
    exists a :: a in atoms && v in AtomVars(a)
  }

  function NameBranches(atoms: Body, root: Var, keep: set<Var>, st: Namer): (Option<Body>, Namer)
    decreases |atoms|, 1, 0
  {
    var t := TreeOf(atoms, root);
    if exists i :: 0 <= i < |atoms| && atoms[i].Edge? && !t.placed[i] then (None, st)
    else
      var g := GroupFrom(TopFn(t, root), atoms, Grouping([], []));
      if g.None? then (None, st)
      else
        GroupSizes(TopFn(t, root), atoms, Grouping([], []), |atoms|);
        NameGroups(g.value.groups, |atoms|, root, keep, st, g.value.rootAtoms, false)
  }

  /** The branch of `child` after one more split when it is too wide. */
  function Narrow(child: Var, group: Body, n: nat, root: Var, st: Namer): (Body, Namer)
    requires |group| <= n
    decreases n, 0, 0
  {
    var edge, inner := EdgesFrom(group, root, child), Inner(group, root, child);
    if |CountedFrom(group, root)| > MAX_BODY_VARS && |edge| == 1 && !Mentions(inner, root) then
      var (reduced, st1) := NameBranches(inner, child, {}, st);
      if reduced.Some? then (edge + reduced.value, st1) else (group, st1)
    else (group, st)
  }

  function NameGroups(groups: seq<Group>, n: nat, root: Var, keep: set<Var>, st: Namer, result: Body, any: bool): (Option<Body>, Namer)
    requires forall g :: g in groups ==> |g.1| <= n
    decreases n, 0, 1 + |groups|
  {
    if groups == [] then (if any then Some(result) else None, st)
    else if exists v :: v in keep && Mentions(groups[0].1, v) then
      NameGroups(groups[1..], n, root, keep, st, result + groups[0].1, any)
    else
      var (sub, st1) := Narrow(groups[0].0, groups[0].1, n, root, st);
      var (e, st2) := NameBody(st1, Renumber(sub, root));
      NameGroups(groups[1..], n, root, keep, st2, result + [Class(e, root)], true)
  }

  lemma {:induction false} GroupSizes(top: Var -> Place, atoms: Body, g: Grouping, n: nat)
    requires forall h :: h in g.groups ==> |h.1| + |atoms| <= n
    ensures var r := GroupFrom(top, atoms, g);
      |atoms| <= n && r.Some? ==> forall h :: h in r.value.groups ==> |h.1| <= n
    decreases atoms
  {
    if atoms != [] && |atoms| <= n {
      match AtomPlace(top, atoms[0])
      case Unbound =>
      case AtRoot => GroupSizes(top, atoms[1..], g.(rootAtoms := g.rootAtoms + [atoms[0]]), n);
      case Below(c) =>
        AddSizes(g.groups, c, atoms[0], n - |atoms|);
        GroupSizes(top, atoms[1..], g.(groups := AddTo(g.groups, c, atoms[0])), n);
    }
  }

  lemma {:induction false} AddSizes(groups: seq<Group>, child: Var, a: Atom, n: nat)
    requires forall h :: h in groups ==> |h.1| <= n
    ensures forall h :: h in AddTo(groups, child, a) ==> |h.1| <= n + 1
    decreases groups
  {
    if groups != [] && groups[0].0 != child { AddSizes(groups[1..], child, a, n); }
  }

  // ----- the whole pass -----

  function HeadVars(head: seq<Atom>): set<Var> {
    set a, v | a in head && v in AtomVars(a) && v != X :: v
  }

  predicate Splittable(cl: DlClause) {
    |CountedVars(cl.body)| > MAX_BODY_VARS && forall a :: a in cl.body ==> a.Class? || a.Edge?
  }

  function SplitClause(cl: DlClause, st: Namer): (DlClause, Namer) {
    if !Splittable(cl) then (cl, st)
    else
      var (body, st1) := NameBranches(cl.body, X, HeadVars(cl.head), st);
      (if body.Some? then DlClause(body.value, cl.head) else cl, st1)
  }

  function SplitFrom(clauses: seq<DlClause>, st: Namer, out: seq<DlClause>): (seq<DlClause>, Namer)
    decreases clauses
  {
    if clauses == [] then (out, st)
    else
      var (cl, st1) := SplitClause(clauses[0], st);
      SplitFrom(clauses[1..], st1, out + [cl])
  }

  function Decompose(clauses: seq<DlClause>, first: ClassId): seq<DlClause> {
    var (out, st) := SplitFrom(clauses, Namer(first, map[], []), []);
    out + st.named
  }
}
