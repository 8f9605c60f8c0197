/** Splitting a tree-shaped body with its head on `X` brings every clause under the cap. */
module BranchBound {
  import opened Dl
  import opened Clauses
  import opened Branches
  import opened BranchMeaning
  import opened Graphs

  // ----- discovery finds the whole tree -----

  /** Placed atoms are edges between bound variables, and every binding is an edge of the body. */
  ghost predicate Grounded(atoms: Body, t: Tree) {
    && |t.placed| == |atoms|
    && (forall i :: 0 <= i < |atoms| && t.placed[i] ==> atoms[i].Edge? && atoms[i].u in t.bound && atoms[i].w in t.bound)
    && (forall v :: v in t.parent ==> exists i :: 0 <= i < |atoms| && atoms[i].Edge? && atoms[i].u == t.parent[v] && atoms[i].w == v)
  }

  lemma PlaceGrounded(atoms: Body, i: nat, t: Tree)
    requires i < |atoms| && Grounded(atoms, t)
    ensures Grounded(atoms, PlaceOne(atoms, i, t))
  {
  }

  lemma {:induction false} PassGrounded(atoms: Body, i: nat, t: Tree)
    requires i <= |atoms| && Grounded(atoms, t)
    ensures Grounded(atoms, Pass(atoms, i, t))
    decreases |atoms| - i
  {
    if i < |atoms| {
      PlaceGrounded(atoms, i, t);
      PassGrounded(atoms, i + 1, PlaceOne(atoms, i, t));
    }
  }

  /** Nothing is left to place. */
  ghost predicate Settled(atoms: Body, t: Tree) {
    |t.placed| == |atoms| && forall k :: 0 <= k < |atoms| && atoms[k].Edge? && !t.placed[k] ==> atoms[k].u !in t.bound
  }

  lemma {:induction false} IdlePass(atoms: Body, i: nat, t: Tree)
    requires i <= |atoms| == |t.placed| && Pass(atoms, i, t).placed == t.placed
    ensures Pass(atoms, i, t) == t && forall k :: i <= k < |atoms| && atoms[k].Edge? && !t.placed[k] ==> atoms[k].u !in t.bound
    decreases |atoms| - i
  {
    if i < |atoms| {
      var t1 := PlaceOne(atoms, i, t);
      if t1 == t {
        IdlePass(atoms, i + 1, t);
      }
    }
  }

  lemma {:induction false} DiscoverSettles(atoms: Body, t: Tree)
    requires Grounded(atoms, t)
    ensures Grounded(atoms, Discover(atoms, t)) && Settled(atoms, Discover(atoms, t))
    decreases |Unplaced(t)|
  {
    var t' := Pass(atoms, 0, t);
    PassGrounded(atoms, 0, t);
    if t'.placed == t.placed {
      IdlePass(atoms, 0, t);
    } else {
      ProgressShrinks(t, t');
      DiscoverSettles(atoms, t');
    }
  }

  lemma TreeSettles(atoms: Body, root: Var)
    ensures var t := TreeOf(atoms, root); Grounded(atoms, t) && Settled(atoms, t) && root in t.bound
  {
    DiscoverSettles(atoms, StartTree(|atoms|, root));
  }

  /** In a tree every variable is bound. */
  lemma {:induction false} AllBound(atoms: Body, root: Var, depth: Var -> nat, v: Var)
    requires LoopTree(atoms, root, depth) && (v == root || Mentions(atoms, v))
    ensures v in TreeOf(atoms, root).bound
    decreases depth(v)
  {
    TreeSettles(atoms, root);
    if v != root {
      var e := EnteringEdge(atoms, root, depth, v);
      assert Mentions(atoms, e.u) by { assert e.u in AtomVars(e); }
      AllBound(atoms, root, depth, e.u);
      var k :| 0 <= k < |atoms| && atoms[k] == e;
      assert TreeOf(atoms, root).placed[k];
    }
  }

  lemma EnteringEdge(atoms: Body, root: Var, depth: Var -> nat, v: Var) returns (e: Atom)
    requires LoopTree(atoms, root, depth) && v != root && Mentions(atoms, v)
    ensures e in atoms && StepsTo(e, v) && depth(e.u) < depth(v)
  {
    var a :| a in atoms && v in AtomVars(a);
    assert Entered(atoms, v);
    e :| e in atoms && StepsTo(e, v);
  }

  /** Two edges into one variable start at one variable. */
  lemma {:induction false} SameSource(atoms: Body, e: Atom, f: Atom)
    requires e in atoms && f in atoms && e.Edge? && f.Edge? && e.w == f.w && e.u != e.w && f.u != f.w && Entering(atoms, e.w) <= 1
    ensures e == f
    decreases atoms
  {
    assert StepsTo(e, e.w) && StepsTo(f, e.w);
    if atoms[0] == e || atoms[0] == f {
      EnteringNone(atoms[1..], e.w);
    } else {
      SameSource(atoms[1..], e, f);
    }
  }

  lemma {:induction false} ClimbBelow(t: Tree, root: Var, v: Var)
    requires WellPlaced(t, root) && v in t.bound && v != root
    ensures Climb(t, root, v).Below? && Climb(t, root, v).child in t.parent && t.parent[Climb(t, root, v).child] == root
    decreases IndexOf(t.bound, v)
  {
    assert v in t.bound[1..] by { var k :| 0 <= k < |t.bound| && t.bound[k] == v; assert t.bound[1..][k - 1] == v; }
    if t.parent[v] != root {
      ParentEarlier(t, root, v);
      ClimbBelow(t, root, t.parent[v]);
    }
  }

  /** In a tree every variable hangs below a child of the root, and an edge hangs where its source does. */
  ghost predicate Hung(atoms: Body, root: Var, top: Var -> Place) {
    && top(root) == AtRoot
    && (forall v :: Mentions(atoms, v) && v != root ==> top(v).Below?)
    && (forall e :: e in atoms && e.Edge? && e.u != e.w ==> top(e.w) == if e.u == root then Below(e.w) else top(e.u))
  }

  lemma VarHung(atoms: Body, root: Var, depth: Var -> nat, v: Var)
    requires LoopTree(atoms, root, depth) && Mentions(atoms, v) && v != root
    ensures TopOf(TreeOf(atoms, root), root, v).Below?
  {
    AllBound(atoms, root, depth, v);
    ClimbBelow(TreeOf(atoms, root), root, v);
  }

  lemma EdgePlaced(atoms: Body, root: Var, depth: Var -> nat, i: nat)
    requires LoopTree(atoms, root, depth) && i < |atoms| && atoms[i].Edge?
    ensures TreeOf(atoms, root).placed[i]
  {
    TreeSettles(atoms, root);
    assert atoms[i].u in AtomVars(atoms[i]);
    assert Mentions(atoms, atoms[i].u);
    AllBound(atoms, root, depth, atoms[i].u);
  }

  lemma TreeHung(atoms: Body, root: Var, depth: Var -> nat)
    requires LoopTree(atoms, root, depth)
    ensures Hung(atoms, root, TopFn(TreeOf(atoms, root), root))
  {
    forall v | Mentions(atoms, v) && v != root ensures TopOf(TreeOf(atoms, root), root, v).Below? {
      VarHung(atoms, root, depth, v);
    }
    forall e | e in atoms && e.Edge? && e.u != e.w
      ensures TopOf(TreeOf(atoms, root), root, e.w) == if e.u == root then Below(e.w) else TopOf(TreeOf(atoms, root), root, e.u)
    {
      EdgeTop(atoms, root, depth, e);
    }
  }

  lemma {:induction false} ClimbChild(t: Tree, root: Var, v: Var)
    requires WellPlaced(t, root) && Climb(t, root, v).Below?
    ensures Climb(t, root, v).child in t.parent && t.parent[Climb(t, root, v).child] == root
    decreases if v in t.bound then IndexOf(t.bound, v) else 0
  {
    if v in t.parent && t.parent[v] != root {
      ParentEarlier(t, root, v);
      ClimbChild(t, root, t.parent[v]);
    }
  }

  /** The child a variable hangs below has an edge from the root. */
  lemma RootEdge(atoms: Body, root: Var, v: Var) returns (e: Atom)
    requires TopOf(TreeOf(atoms, root), root, v).Below?
    ensures e in atoms && IsEdgeFrom(e, root, TopOf(TreeOf(atoms, root), root, v).child) && e.w != root
  {
    var t := TreeOf(atoms, root);
    TreeSettles(atoms, root);
    ClimbChild(t, root, v);
    var c := Climb(t, root, v).child;
    var i :| 0 <= i < |atoms| && atoms[i].Edge? && atoms[i].u == t.parent[c] && atoms[i].w == c;
    e := atoms[i];
  }

  lemma EdgeTop(atoms: Body, root: Var, depth: Var -> nat, e: Atom)
    requires LoopTree(atoms, root, depth) && e in atoms && e.Edge? && e.u != e.w
    ensures TopOf(TreeOf(atoms, root), root, e.w) == if e.u == root then Below(e.w) else TopOf(TreeOf(atoms, root), root, e.u)
  {
    var t := TreeOf(atoms, root);
    TreeSettles(atoms, root);
    assert e.w in AtomVars(e);
    assert Mentions(atoms, e.w);
    AllBound(atoms, root, depth, e.w);
    assert e.w in t.bound[1..] by { var k :| 0 <= k < |t.bound| && t.bound[k] == e.w; assert t.bound[1..][k - 1] == e.w; }
    var i :| 0 <= i < |atoms| && atoms[i].Edge? && atoms[i].u == t.parent[e.w] && atoms[i].w == e.w;
    SameSource(atoms, e, atoms[i]);
  }

  // ----- grouping a tree -----

  lemma {:induction false} GroupTree(top: Var -> Place, root: Var, all: Body, atoms: Body, g: Grouping)
    requires Hung(all, root, top) && (forall a :: a in atoms ==> a in all && (a.Class? || a.Edge?)) && (forall e :: e in all && e.Edge? && e.u != e.w ==> e.w != root)
    ensures GroupFrom(top, atoms, g).Some?
    decreases atoms
  {
    if atoms != [] {
      var a := atoms[0];
      assert a in atoms;
      PlaceFound(top, root, all, a);
      match AtomPlace(top, a)
      case AtRoot => GroupTree(top, root, all, atoms[1..], g.(rootAtoms := g.rootAtoms + [a]));
      case Below(c) => GroupTree(top, root, all, atoms[1..], g.(groups := AddTo(g.groups, c, a)));
    }
  }

  lemma PlaceFound(top: Var -> Place, root: Var, all: Body, a: Atom)
    requires Hung(all, root, top) && a in all && (a.Class? || a.Edge?) && forall e :: e in all && e.Edge? && e.u != e.w ==> e.w != root
    ensures !AtomPlace(top, a).Unbound? && (a.Edge? ==> AtomPlace(top, a) == top(a.w) && (top(a.w).Below? || (a.u == root && a.w == root)))
  {
    if a.Edge? {
      assert a.w in AtomVars(a);
      assert Mentions(all, a.w);
    } else if a.v != root {
      assert a.v in AtomVars(a);
      assert Mentions(all, a.v);
    }
  }

  ghost function EnteringGroups(groups: seq<Group>, v: Var): nat {
    if groups == [] then 0 else Entering(groups[0].1, v) + EnteringGroups(groups[1..], v)
  }

  lemma {:induction false} AddToEntering(groups: seq<Group>, child: Var, a: Atom, v: Var)
    ensures EnteringGroups(AddTo(groups, child, a), v) == EnteringGroups(groups, v) + Entering([a], v)
    decreases groups
  {
    if groups == [] {
      assert AddTo(groups, child, a)[1..] == [];
    } else if groups[0].0 == child {
      EnteringSplit(groups[0].1, [a], v);
    } else {
      AddToEntering(groups[1..], child, a, v);
    }
  }

  /** Grouping keeps the number of edges into each variable. */
  lemma {:induction false} GroupEntering(top: Var -> Place, atoms: Body, g: Grouping, v: Var)
    requires GroupFrom(top, atoms, g).Some?
    ensures var r := GroupFrom(top, atoms, g).value;
      EnteringGroups(r.groups, v) + Entering(r.rootAtoms, v) == EnteringGroups(g.groups, v) + Entering(g.rootAtoms, v) + Entering(atoms, v)
    decreases atoms
  {
    if atoms != [] {
      var a := atoms[0];
      assert [a][1..] == [];
      match AtomPlace(top, a)
      case AtRoot =>
        EnteringSplit(g.rootAtoms, [a], v);
        GroupEntering(top, atoms[1..], g.(rootAtoms := g.rootAtoms + [a]), v);
      case Below(c) =>
        AddToEntering(g.groups, c, a, v);
        GroupEntering(top, atoms[1..], g.(groups := AddTo(g.groups, c, a)), v);
    }
  }

  lemma {:induction false} OneGroupEntering(groups: seq<Group>, h: Group, v: Var)
    requires h in groups
    ensures Entering(h.1, v) <= EnteringGroups(groups, v)
    decreases groups
  {
    if groups[0] != h { OneGroupEntering(groups[1..], h, v); }
  }

  lemma {:induction false} InnerEntering(atoms: Body, root: Var, child: Var, v: Var)
    requires root != child
    ensures Entering(Inner(atoms, root, child), v) <= Entering(atoms, v)
    ensures |EdgesFrom(atoms, root, child)| <= Entering(atoms, child)
    decreases atoms
  {
    if atoms != [] {
      InnerEntering(atoms[1..], root, child, v);
      var rest := Inner(atoms[1..], root, child);
      if !IsEdgeFrom(atoms[0], root, child) {
        assert ([atoms[0]] + rest)[1..] == rest;
      } else {
        assert [] + rest == rest;
      }
    }
  }

  // ----- one branch -----

  /** A branch of a tree: all the atoms hanging below `child`, with the edge it hangs on. */
  ghost predicate Branch(atoms: Body, root: Var, top: Var -> Place, child: Var, group: Body) {
    && (forall a :: a in group ==> a in atoms && AtomPlace(top, a) == Below(child))
    && (forall a :: a in atoms && (a.Class? || a.Edge?) && AtomPlace(top, a) == Below(child) ==> a in group)
    && (forall v :: Entering(group, v) <= Entering(atoms, v))
    && child != root && (exists e :: e in group && IsEdgeFrom(e, root, child))
  }

  ghost predicate TreeAt(atoms: Body, root: Var, depth: Var -> nat, top: Var -> Place) {
    LoopTree(atoms, root, depth) && Hung(atoms, root, top)
  }

  lemma BranchEdge(atoms: Body, root: Var, depth: Var -> nat, top: Var -> Place, child: Var, group: Body) returns (e: Atom)
    requires TreeAt(atoms, root, depth, top) && Branch(atoms, root, top, child, group)
    ensures e in group && IsEdgeFrom(e, root, child) && EdgesFrom(group, root, child) == [e] && child != root
  {
    e :| e in group && IsEdgeFrom(e, root, child);
    InnerEntering(group, root, child, child);
    assert e in EdgesFrom(group, root, child);
    assert |EdgesFrom(group, root, child)| == 1;
  }

  /** Each variable of an atom hangs with the atom. */
  lemma VarPlace(atoms: Body, root: Var, depth: Var -> nat, top: Var -> Place, a: Atom, child: Var, v: Var)
    requires TreeAt(atoms, root, depth, top) && a in atoms && v in AtomVars(a) && v != root && AtomPlace(top, a) == Below(child)
    ensures top(v) == Below(child)
  {
    PlaceFound(top, root, atoms, a);
  }

  /** An inner atom stays off the root. */
  lemma InnerOffRoot(atoms: Body, root: Var, depth: Var -> nat, top: Var -> Place, child: Var, group: Body, a: Atom)
    requires TreeAt(atoms, root, depth, top) && Branch(atoms, root, top, child, group) && a in Inner(group, root, child)
    ensures root !in AtomVars(a)
  {
    PlaceFound(top, root, atoms, a);
  }

  /** Below its edge a branch is a tree again, off the root. */
  lemma InnerTree(atoms: Body, root: Var, depth: Var -> nat, top: Var -> Place, child: Var, group: Body)
    requires TreeAt(atoms, root, depth, top) && Branch(atoms, root, top, child, group)
    ensures LoopTree(Inner(group, root, child), child, depth) && !Mentions(Inner(group, root, child), root)
  {
    var inner := Inner(group, root, child);
    var e0 := BranchEdge(atoms, root, depth, top, child, group);
    forall a | a in inner ensures root !in AtomVars(a) { InnerOffRoot(atoms, root, depth, top, child, group, a); }
    forall v: Var ensures Entering(inner, v) <= 1 { InnerEntering(group, root, child, v); }
    forall a, v | a in inner && v in AtomVars(a) && v != child ensures Entered(inner, v) {
      InnerEntered(atoms, root, depth, top, child, group, a, v);
    }
    forall a | a in inner && a.Edge? && a.u != a.w ensures a.w != child {
      if a.w == child { SameSource(atoms, a, e0); }
    }
  }

  lemma InnerEntered(atoms: Body, root: Var, depth: Var -> nat, top: Var -> Place, child: Var, group: Body, a: Atom, v: Var)
    requires TreeAt(atoms, root, depth, top) && Branch(atoms, root, top, child, group)
    requires a in Inner(group, root, child) && v in AtomVars(a) && v != child && v != root
    ensures Entered(Inner(group, root, child), v)
  {
    VarPlace(atoms, root, depth, top, a, child, v);
    assert Mentions(atoms, v);
    var e := EnteringEdge(atoms, root, depth, v);
    PlaceFound(top, root, atoms, e);
    assert e in group;
    assert e in Inner(group, root, child);
  }

  lemma OnlyLoops(atoms: Body, root: Var, depth: Var -> nat, a: Atom)
    requires LoopTree(atoms, root, depth) && (forall e :: e in atoms ==> !(e.Edge? && e.u != e.w)) && a in atoms && a.Edge?
    ensures a.u == root && a.w == root
  {
    assert a.w in AtomVars(a);
    assert a.w != root ==> Entered(atoms, a.w);
  }

  lemma EndsOnly(group: Body, root: Var, child: Var)
    requires forall a :: a in Inner(group, root, child) && a.Edge? ==> a.u == child && a.w == child
    ensures |CountedFrom(group, root)| <= 2
  {
    forall x | x in EdgeVars(group) ensures x == root || x == child {
      var a :| a in group && a.Edge? && x in AtomVars(a);
      assert a in Inner(group, root, child) || IsEdgeFrom(a, root, child);
    }
    SubsetSize(CountedFrom(group, root), {X, child});
  }

  lemma InnerHasEdge(group: Body, root: Var, child: Var, depth: Var -> nat)
    requires |CountedFrom(group, root)| > MAX_BODY_VARS && LoopTree(Inner(group, root, child), child, depth)
    ensures exists e :: e in Inner(group, root, child) && e.Edge? && e.u != e.w
  {
    var inner := Inner(group, root, child);
    if forall e :: e in inner ==> !(e.Edge? && e.u != e.w) {
      forall a | a in inner && a.Edge? ensures a.u == child && a.w == child { OnlyLoops(inner, child, depth, a); }
      EndsOnly(group, root, child);
    }
  }

  // ----- counting -----

  /** The rank of a variable, with `X` for the root. */
  function RankOf(final: seq<Var>, v: Var): Var {
    if v == X then X else if v in final then IndexOf(final, v) else X
  }

  lemma RankCovers(atoms: Body, root: Var, w: Var)
    requires Plain(atoms) && (root == X || X !in EdgeVars(atoms)) && w in CountedVars(Renumber(atoms, root))
    ensures exists v :: v in CountedFrom(atoms, root) && RankOf(FinalOrder(atoms, [root]), v) == w
  {
    var final := FinalOrder(atoms, [root]);
    FinalExtends(atoms, [root]);
    if w == X {
      assert RankOf(final, X) == w && X in CountedFrom(atoms, root);
    } else {
      var a :| a in Renumber(atoms, root) && a.Edge? && w in AtomVars(a);
      var v := RenumberVar(atoms, [root], a, w);
      assert v != root by { assert final[0] == root; }
      assert v in CountedFrom(atoms, root);
      assert RankOf(final, v) == w;
    }
  }

  /** Renumbering a branch does not add variables. */
  lemma RenumberCount(atoms: Body, root: Var)
    requires Plain(atoms) && (root == X || X !in EdgeVars(atoms))
    ensures |CountedVars(Renumber(atoms, root))| <= |CountedFrom(atoms, root)|
  {
    var final := FinalOrder(atoms, [root]);
    forall w | w in CountedVars(Renumber(atoms, root)) ensures exists v :: v in CountedFrom(atoms, root) && RankOf(final, v) == w {
      RankCovers(atoms, root, w);
    }
    CoverSize(CountedVars(Renumber(atoms, root)), CountedFrom(atoms, root), final);
  }

  lemma CoverSize(a: set<Var>, b: set<Var>, final: seq<Var>)
    requires forall w :: w in a ==> exists v :: v in b && RankOf(final, v) == w
    ensures |a| <= |b|
    decreases |b|
  {
    if v :| v in b {
      var w := RankOf(final, v);
      CoverSize(a - {w}, b - {v}, final);
      SubsetSize(a, (a - {w}) + {w});
    } else {
      assert a == {};
    }
  }

  /** Each variable of a renumbered edge is the rank of a variable of an edge. */
  lemma {:induction false} RenumberVar(atoms: Body, order: seq<Var>, a: Atom, w: Var) returns (v: Var)
    requires Plain(atoms) && Distinct(order) && a in RenumberFrom(atoms, order) && a.Edge? && w in AtomVars(a)
    ensures v in EdgeVars(atoms) && w < |FinalOrder(atoms, order)| && FinalOrder(atoms, order)[w] == v
    ensures Distinct(FinalOrder(atoms, order)) && IndexOf(FinalOrder(atoms, order), v) == w
    decreases atoms
  {
    var b, next := atoms[0], SeenAtom(order, atoms[0]);
    assert b in atoms;
    FinalExtends(atoms, order);
    SeenAtomExtends(order, b);
    FinalExtends(atoms[1..], next);
    if a == RenameAtom(order, b) {
      SeenExtends(order, b.u);
      SeenExtends(Seen(order, b.u), b.w);
      v := if w == a.u then b.u else b.w;
      assert v in AtomVars(b);
      assert next[w] == v;
    } else {
      assert a in RenumberFrom(atoms[1..], next);
      v := RenumberVar(atoms[1..], next, a, w);
      assert EdgeVars(atoms[1..]) <= EdgeVars(atoms);
    }
  }

  // ----- the bound -----

  /** Only classes and self-loops of the root. */
  ghost predicate AtRootOnly(body: Body, root: Var) {
    Plain(body) && forall a, v :: a in body && v in AtomVars(a) ==> v == root
  }

  /** Every branch named between the two states is within the cap. */
  ghost predicate NewWithinCap(st: Namer, st': Namer) {
    forall k :: |st.named| <= k < |st'.named| ==> |CountedVars(st'.named[k].body)| <= MAX_BODY_VARS
  }

  lemma CapThen(st: Namer, st1: Namer, st2: Namer)
    requires NewWithinCap(st, st1) && NewWithinCap(st1, st2) && st1.named <= st2.named
    ensures NewWithinCap(st, st2)
  {
  }

  // ----- what is named, told from the edges -----

  ghost function EdgePairs(atoms: Body): set<(Var, Var)> {
    set a | a in atoms && a.Edge? :: (a.u, a.w)
  }

  ghost predicate ChildOf(atoms: Body, root: Var, c: Var) {
    c != root && exists e :: e in atoms && IsEdgeFrom(e, root, c)
  }

  /** `v` is `c` or below it along the edges of the body. */
  ghost predicate InSubtree(atoms: Body, c: Var, v: Var) {
    Reaches(EdgePairs(atoms), c, v)
  }

  /** The edge to the child and its subtree mention no variable to be kept. */
  ghost predicate Nameable(atoms: Body, root: Var, keep: set<Var>, c: Var) {
    ChildOf(atoms, root, c) && forall v :: v in keep ==> v != root && !InSubtree(atoms, c, v)
  }

  /** `v` is the root, or in the subtree of a child that cannot be named. */
  ghost predicate Stays(atoms: Body, root: Var, keep: set<Var>, v: Var) {
    v == root || exists c :: ChildOf(atoms, root, c) && !Nameable(atoms, root, keep, c) && InSubtree(atoms, c, v)
  }

  /** Splitting a tree-shaped body: some branch is named iff some child has nothing to be kept in its
      subtree; then the atoms left are exactly the branch classes at the root and the atoms over
      variables of the other subtrees, and every branch named at any depth is within the cap. */
  lemma {:induction false} BranchesExact(atoms: Body, root: Var, depth: Var -> nat, keep: set<Var>, st: Namer)
    requires WfNamer(st) && LoopTree(atoms, root, depth) && (root == X || X !in EdgeVars(atoms))
    ensures var (r, st') := NameBranches(atoms, root, keep, st);
      && NewWithinCap(st, st')
      && (r.Some? <==> exists c :: Nameable(atoms, root, keep, c))
      && (r.Some? ==> Remains(atoms, root, keep, r.value))
    decreases |atoms|, 1, 1
  {
    var top := TopFn(TreeOf(atoms, root), root);
    var g := TreeGroups(atoms, root, depth);
    assert !exists i :: 0 <= i < |atoms| && atoms[i].Edge? && !TreeOf(atoms, root).placed[i];
    GroupsExact(atoms, root, depth, top, g.groups, |atoms|, keep, st, g.rootAtoms, false);
    assert NameBranches(atoms, root, keep, st) == NameGroups(g.groups, |atoms|, root, keep, st, g.rootAtoms, false);
    NamedIff(atoms, root, depth, top, g, keep);
    var r := NameBranches(atoms, root, keep, st).0;
    if r.Some? { RemainsIs(atoms, root, depth, top, g, keep, r.value); }
  }

  ghost predicate Remains(atoms: Body, root: Var, keep: set<Var>, body: Body) {
    && (forall a, v :: a in body && v in AtomVars(a) ==> Stays(atoms, root, keep, v))
    && (forall a :: a in body ==> a in atoms || (a.Class? && a.v == root))
    && (forall a :: a in atoms && (forall v :: v in AtomVars(a) ==> Stays(atoms, root, keep, v)) ==> a in body)
  }

  /** A tree-shaped body with nothing to keep is split completely: what is left mentions the root
      only, and every branch named at any depth is within the cap. */
  lemma {:induction false} TreeSplits(atoms: Body, root: Var, depth: Var -> nat, st: Namer)
    requires WfNamer(st) && LoopTree(atoms, root, depth) && (root == X || X !in EdgeVars(atoms))
    requires exists e :: e in atoms && e.Edge? && e.u != e.w
    ensures var (r, st') := NameBranches(atoms, root, {}, st);
      r.Some? && AtRootOnly(r.value, root) && NewWithinCap(st, st')
    decreases |atoms|, 1, 2
  {
    BranchesExact(atoms, root, depth, {}, st);
    var c := SomeChild(atoms, root, depth);
    assert Nameable(atoms, root, {}, c);
    var body := NameBranches(atoms, root, {}, st).0.value;
    forall a | a in body ensures (a.Class? || a.Edge?) && forall v :: v in AtomVars(a) ==> v == root {
      RootAtom(atoms, root, depth, body, a);
    }
  }

  lemma RootAtom(atoms: Body, root: Var, depth: Var -> nat, body: Body, a: Atom)
    requires LoopTree(atoms, root, depth) && Remains(atoms, root, {}, body) && a in body
    ensures (a.Class? || a.Edge?) && forall v :: v in AtomVars(a) ==> v == root
  {
    forall v | v in AtomVars(a) ensures v == root { assert Stays(atoms, root, {}, v); }
    assert forall c :: ChildOf(atoms, root, c) ==> Nameable(atoms, root, {}, c);
  }

  /** A tree with an edge has one at its root. */
  lemma SomeChild(atoms: Body, root: Var, depth: Var -> nat) returns (c: Var)
    requires LoopTree(atoms, root, depth) && exists e :: e in atoms && e.Edge? && e.u != e.w
    ensures ChildOf(atoms, root, c)
  {
    var e :| e in atoms && e.Edge? && e.u != e.w;
    assert e.w in AtomVars(e);
    assert Mentions(atoms, e.w);
    VarHung(atoms, root, depth, e.w);
    var f := RootEdge(atoms, root, e.w);
    c := f.w;
  }

  /** A variable hangs below the child whose subtree it is in. */
  lemma SubtreeHung(atoms: Body, root: Var, depth: Var -> nat, top: Var -> Place, c: Var, v: Var)
    requires TreeAt(atoms, root, depth, top) && ChildOf(atoms, root, c)
    ensures InSubtree(atoms, c, v) <==> top(v) == Below(c) && Mentions(atoms, v)
  {
    if InSubtree(atoms, c, v) {
      var p :| PathFromTo(EdgePairs(atoms), p, c, v);
      PathHung(atoms, root, depth, top, c, p, |p| - 1);
    }
    if top(v) == Below(c) && Mentions(atoms, v) { HungReached(atoms, root, depth, top, c, v); }
  }

  lemma {:induction false} PathHung(atoms: Body, root: Var, depth: Var -> nat, top: Var -> Place, c: Var, p: seq<Var>, k: nat)
    requires TreeAt(atoms, root, depth, top) && ChildOf(atoms, root, c) && IsPath(EdgePairs(atoms), p) && p[0] == c && k < |p|
    ensures top(p[k]) == Below(c) && Mentions(atoms, p[k]) && p[k] != root
  {
    if k == 0 {
      var e :| e in atoms && IsEdgeFrom(e, root, c);
      assert e.w in AtomVars(e);
    } else {
      PathHung(atoms, root, depth, top, c, p, k - 1);
      assert (p[k - 1], p[k]) in EdgePairs(atoms);
      var e :| e in atoms && e.Edge? && (e.u, e.w) == (p[k - 1], p[k]);
      assert e.w in AtomVars(e);
    }
  }

  lemma {:induction false} HungReached(atoms: Body, root: Var, depth: Var -> nat, top: Var -> Place, c: Var, v: Var)
    requires TreeAt(atoms, root, depth, top) && top(v) == Below(c) && Mentions(atoms, v)
    ensures InSubtree(atoms, c, v)
    decreases depth(v)
  {
    assert v != root;
    var e := EnteringEdge(atoms, root, depth, v);
    assert (e.u, e.w) in EdgePairs(atoms);
    if e.u == root {
      ReachesSelf(EdgePairs(atoms), c);
    } else {
      assert e.u in AtomVars(e);
      assert Mentions(atoms, e.u);
      HungReached(atoms, root, depth, top, c, e.u);
      ReachesStep(EdgePairs(atoms), c, e.u, v);
    }
  }

  /** What a branch mentions: the root and its child's subtree. */
  lemma BranchMentions(atoms: Body, root: Var, depth: Var -> nat, top: Var -> Place, h: Group, v: Var)
    requires TreeAt(atoms, root, depth, top) && Branch(atoms, root, top, h.0, h.1)
    ensures ChildOf(atoms, root, h.0)
    ensures Mentions(h.1, v) <==> v == root || InSubtree(atoms, h.0, v)
  {
    var e :| e in h.1 && IsEdgeFrom(e, root, h.0);
    assert e in atoms && root in AtomVars(e);
    SubtreeHung(atoms, root, depth, top, h.0, v);
    if Mentions(h.1, v) && v != root {
      var a :| a in h.1 && v in AtomVars(a);
      VarPlace(atoms, root, depth, top, a, h.0, v);
      assert Mentions(atoms, v);
    }
    if InSubtree(atoms, h.0, v) {
      assert v != root;
      var f := EnteringEdge(atoms, root, depth, v);
      PlaceFound(top, root, atoms, f);
      assert f in h.1 && v in AtomVars(f);
    }
  }

  /** A branch is named iff its child can be. */
  lemma BranchNameable(atoms: Body, root: Var, depth: Var -> nat, top: Var -> Place, h: Group, keep: set<Var>)
    requires TreeAt(atoms, root, depth, top) && Branch(atoms, root, top, h.0, h.1)
    ensures Nameable(atoms, root, keep, h.0) <==> !KeepsSome(keep, h.1)
  {
    forall v ensures Mentions(h.1, v) <==> v == root || InSubtree(atoms, h.0, v) { BranchMentions(atoms, root, depth, top, h, v); }
    BranchMentions(atoms, root, depth, top, h, root);
  }

  ghost predicate KeepsSome(keep: set<Var>, group: Body) {
    exists v :: v in keep && Mentions(group, v)
  }

  /** Every child of the root has its branch among the groups. */
  lemma ChildGroup(atoms: Body, root: Var, depth: Var -> nat, top: Var -> Place, g: Grouping, c: Var) returns (h: Group)
    requires TreeAt(atoms, root, depth, top) && Branchy(atoms, root, top, g.groups) && AtRootOnly(g.rootAtoms, root)
    requires (forall a :: Grouped(g, a) <==> a in atoms) && ChildOf(atoms, root, c)
    ensures h in g.groups && h.0 == c
  {
    var e :| e in atoms && IsEdgeFrom(e, root, c);
    assert Grouped(g, e) && c in AtomVars(e);
    h :| h in g.groups && e in h.1;
    assert Branch(atoms, root, top, h.0, h.1);
    PlaceFound(top, root, atoms, e);
  }

  lemma NamedIff(atoms: Body, root: Var, depth: Var -> nat, top: Var -> Place, g: Grouping, keep: set<Var>)
    requires TreeAt(atoms, root, depth, top) && Branchy(atoms, root, top, g.groups) && AtRootOnly(g.rootAtoms, root)
    requires forall a :: Grouped(g, a) <==> a in atoms
    ensures (exists h :: h in g.groups && !KeepsSome(keep, h.1)) <==> exists c :: Nameable(atoms, root, keep, c)
  {
    if h :| h in g.groups && !KeepsSome(keep, h.1) {
      BranchNameable(atoms, root, depth, top, h, keep);
    }
    if c :| Nameable(atoms, root, keep, c) {
      var h := ChildGroup(atoms, root, depth, top, g, c);
      BranchNameable(atoms, root, depth, top, h, keep);
    }
  }

  /** `body` is the root's atoms, the kept groups and some classes at the root. */
  ghost predicate Assembled(root: Var, groups: seq<Group>, keep: set<Var>, result: Body, body: Body) {
    && (forall a :: a in body ==> a in result || (a.Class? && a.v == root) || exists h :: h in groups && KeepsSome(keep, h.1) && a in h.1)
    && (forall a :: a in result ==> a in body)
    && (forall h, a :: h in groups && KeepsSome(keep, h.1) && a in h.1 ==> a in body)
  }

  lemma RemainsIs(atoms: Body, root: Var, depth: Var -> nat, top: Var -> Place, g: Grouping, keep: set<Var>, body: Body)
    requires TreeAt(atoms, root, depth, top) && Branchy(atoms, root, top, g.groups) && AtRootOnly(g.rootAtoms, root)
    requires (forall a :: Grouped(g, a) <==> a in atoms) && Assembled(root, g.groups, keep, g.rootAtoms, body)
    ensures Remains(atoms, root, keep, body)
  {
    forall a, v | a in body && v in AtomVars(a) ensures Stays(atoms, root, keep, v) {
      if a !in g.rootAtoms && !(a.Class? && a.v == root) {
        var h :| h in g.groups && KeepsSome(keep, h.1) && a in h.1;
        BranchNameable(atoms, root, depth, top, h, keep);
        BranchMentions(atoms, root, depth, top, h, v);
        assert Mentions(h.1, v);
      }
    }
    forall a | a in body ensures a in atoms || (a.Class? && a.v == root) {
      if a !in g.rootAtoms && !(a.Class? && a.v == root) {
        var h :| h in g.groups && KeepsSome(keep, h.1) && a in h.1;
        assert Branch(atoms, root, top, h.0, h.1);
      }
    }
    forall a | a in atoms && forall v :: v in AtomVars(a) ==> Stays(atoms, root, keep, v) ensures a in body {
      StayingAtom(atoms, root, depth, top, g, keep, a);
    }
  }

  /** An atom whose variables stay is a root atom or in a branch that is not named. */
  lemma StayingAtom(atoms: Body, root: Var, depth: Var -> nat, top: Var -> Place, g: Grouping, keep: set<Var>, a: Atom)
    requires TreeAt(atoms, root, depth, top) && Branchy(atoms, root, top, g.groups) && AtRootOnly(g.rootAtoms, root)
    requires (forall b :: Grouped(g, b) <==> b in atoms) && a in atoms && forall v :: v in AtomVars(a) ==> Stays(atoms, root, keep, v)
    ensures a in g.rootAtoms || exists h :: h in g.groups && KeepsSome(keep, h.1) && a in h.1
  {
    assert Grouped(g, a);
    if a !in g.rootAtoms {
      var h :| h in g.groups && a in h.1;
      assert Branch(atoms, root, top, h.0, h.1);
      var v := if a.Edge? then a.w else a.v;
      assert v in AtomVars(a);
      PlaceFound(top, root, atoms, a);
      assert Stays(atoms, root, keep, v) && top(v) == Below(h.0);
      var c :| ChildOf(atoms, root, c) && !Nameable(atoms, root, keep, c) && InSubtree(atoms, c, v);
      SubtreeHung(atoms, root, depth, top, c, v);
      BranchNameable(atoms, root, depth, top, h, keep);
    }
  }

  ghost predicate Branchy(atoms: Body, root: Var, top: Var -> Place, groups: seq<Group>) {
    forall h :: h in groups ==> Branch(atoms, root, top, h.0, h.1)
  }

  /** The groups of a tree are its branches. */
  lemma TreeGroups(atoms: Body, root: Var, depth: Var -> nat) returns (g: Grouping)
    requires LoopTree(atoms, root, depth)
    ensures forall i :: 0 <= i < |atoms| && atoms[i].Edge? ==> TreeOf(atoms, root).placed[i]
    ensures GroupFrom(TopFn(TreeOf(atoms, root), root), atoms, Grouping([], [])) == Some(g)
    ensures TreeAt(atoms, root, depth, TopFn(TreeOf(atoms, root), root))
    ensures Branchy(atoms, root, TopFn(TreeOf(atoms, root), root), g.groups) && AtRootOnly(g.rootAtoms, root)
    ensures forall a :: Grouped(g, a) <==> a in atoms
    ensures forall h :: h in g.groups ==> |h.1| <= |atoms|
  {
    var top := TopFn(TreeOf(atoms, root), root);
    forall i | 0 <= i < |atoms| && atoms[i].Edge? ensures TreeOf(atoms, root).placed[i] { EdgePlaced(atoms, root, depth, i); }
    TreeHung(atoms, root, depth);
    GroupTree(top, root, atoms, atoms, Grouping([], []));
    g := SplitGroups(atoms, root);
    RootAtoms(atoms, root, depth, g);
    forall h | h in g.groups ensures Branch(atoms, root, top, h.0, h.1) { GroupIsBranch(atoms, root, depth, g, h); }
  }

  lemma RootAtoms(atoms: Body, root: Var, depth: Var -> nat, g: Grouping)
    requires LoopTree(atoms, root, depth) && forall a :: Grouped(g, a) <==> a in atoms
    requires forall a, v :: a in g.rootAtoms && v in AtomVars(a) ==> v == root
    ensures AtRootOnly(g.rootAtoms, root)
  {
    forall a | a in g.rootAtoms ensures a.Class? || a.Edge? { assert Grouped(g, a); }
  }

  lemma GroupIsBranch(atoms: Body, root: Var, depth: Var -> nat, g: Grouping, h: Group)
    requires LoopTree(atoms, root, depth) && h in g.groups
    requires GroupFrom(TopFn(TreeOf(atoms, root), root), atoms, Grouping([], [])) == Some(g)
    ensures Branch(atoms, root, TopFn(TreeOf(atoms, root), root), h.0, h.1)
  {
    var top := TopFn(TreeOf(atoms, root), root);
    GroupFacts(top, atoms, Grouping([], []));
    NoEmptyGroups(top, atoms, Grouping([], []));
    forall a | a in h.1 ensures a in atoms && AtomPlace(top, a) == Below(h.0) { assert InGroups(g.groups, a); assert Grouped(g, a); }
    forall a | a in atoms && (a.Class? || a.Edge?) && AtomPlace(top, a) == Below(h.0) ensures a in h.1 {
      assert Grouped(g, a);
      var k :| k in g.groups && a in k.1;
      SameChild(g.groups, h, k);
    }
    forall v: Var ensures Entering(h.1, v) <= Entering(atoms, v) {
      GroupEntering(top, atoms, Grouping([], []), v);
      OneGroupEntering(g.groups, h, v);
    }
    BranchHasEdge(atoms, root, depth, h);
  }

  lemma BranchHasEdge(atoms: Body, root: Var, depth: Var -> nat, h: Group)
    requires LoopTree(atoms, root, depth) && exists a :: a in h.1
    requires forall a :: a in h.1 ==> a in atoms && AtomPlace(TopFn(TreeOf(atoms, root), root), a) == Below(h.0)
    requires forall a :: a in atoms && (a.Class? || a.Edge?) && AtomPlace(TopFn(TreeOf(atoms, root), root), a) == Below(h.0) ==> a in h.1
    ensures h.0 != root && exists e :: e in h.1 && IsEdgeFrom(e, root, h.0)
  {
    var top := TopFn(TreeOf(atoms, root), root);
    TreeHung(atoms, root, depth);
    var a :| a in h.1;
    var v := if a.Edge? then a.w else a.v;
    PlaceFound(top, root, atoms, a);
    assert TopOf(TreeOf(atoms, root), root, v) == top(v) == Below(h.0);
    var e := RootEdge(atoms, root, v);
    PlaceFound(top, root, atoms, e);
    assert e in h.1;
  }

  lemma {:induction false} SameChild(groups: seq<Group>, h: Group, k: Group)
    requires DistinctChildren(groups) && h in groups && k in groups && h.0 == k.0
    ensures h == k
    decreases groups
  {
    assert groups == [groups[0]] + groups[1..];
    assert forall g :: g in groups[1..] ==> g.0 in Children(groups[1..]);
    if h in groups[1..] && k in groups[1..] { SameChild(groups[1..], h, k); }
  }

  ghost predicate NoneEmpty(groups: seq<Group>) {
    forall h :: h in groups ==> exists a :: a in h.1
  }

  lemma {:induction false} AddToNonempty(groups: seq<Group>, child: Var, a: Atom)
    requires NoneEmpty(groups)
    ensures NoneEmpty(AddTo(groups, child, a))
    decreases groups
  {
    if groups == [] {
      assert a in [a];
    } else if groups[0].0 == child {
      assert a in groups[0].1 + [a];
    } else {
      AddToNonempty(groups[1..], child, a);
    }
  }

  lemma {:induction false} NoEmptyGroups(top: Var -> Place, atoms: Body, g: Grouping)
    requires NoneEmpty(g.groups) && GroupFrom(top, atoms, g).Some?
    ensures NoneEmpty(GroupFrom(top, atoms, g).value.groups)
    decreases atoms
  {
    if atoms != [] {
      match AtomPlace(top, atoms[0])
      case AtRoot => NoEmptyGroups(top, atoms[1..], g.(rootAtoms := g.rootAtoms + [atoms[0]]));
      case Below(c) =>
        AddToNonempty(g.groups, c, atoms[0]);
        NoEmptyGroups(top, atoms[1..], g.(groups := AddTo(g.groups, c, atoms[0])));
    }
  }

  /** A narrowed branch is within the cap, and so is everything named on the way. */
  lemma {:induction false} NarrowSplit(atoms: Body, root: Var, depth: Var -> nat, top: Var -> Place, child: Var, group: Body, n: nat, st: Namer)
    requires WfNamer(st) && TreeAt(atoms, root, depth, top) && Branch(atoms, root, top, child, group)
    requires |group| <= n && (root == X || X !in EdgeVars(atoms))
    ensures var (sub, st1) := Narrow(child, group, n, root, st);
      NewWithinCap(st, st1) && |CountedVars(Renumber(sub, root))| <= MAX_BODY_VARS
    decreases n, 0, 0
  {
    var e := BranchEdge(atoms, root, depth, top, child, group);
    BranchOff(atoms, root, top, child, group);
    if |CountedFrom(group, root)| > MAX_BODY_VARS {
      var inner := Inner(group, root, child);
      InnerTree(atoms, root, depth, top, child, group);
      InnerHasEdge(group, root, child, depth);
      InnerOff(group, root, child);
      TreeSplits(inner, child, depth, st);
      NarrowCount(e, NameBranches(inner, child, {}, st).0.value, root, child);
    } else {
      RenumberCount(group, root);
    }
  }

  lemma BranchOff(atoms: Body, root: Var, top: Var -> Place, child: Var, group: Body)
    requires Branch(atoms, root, top, child, group) && (root == X || X !in EdgeVars(atoms))
    ensures Plain(group) && (root == X || X !in EdgeVars(group))
    ensures root != X ==> child != X
  {
    assert EdgeVars(group) <= EdgeVars(atoms);
    forall a | a in group ensures a.Class? || a.Edge? { assert AtomPlace(top, a) == Below(child); }
    var e :| e in group && IsEdgeFrom(e, root, child);
    assert child in AtomVars(e) && child in EdgeVars(group);
  }

  lemma InnerOff(group: Body, root: Var, child: Var)
    requires (root == X || X !in EdgeVars(group)) && !Mentions(Inner(group, root, child), root)
    ensures X !in EdgeVars(Inner(group, root, child))
  {
    forall a | a in Inner(group, root, child) && a.Edge? ensures X !in AtomVars(a) {
      if root != X { assert a in group; }
    }
  }

  lemma NarrowCount(e: Atom, reduced: Body, root: Var, child: Var)
    requires IsEdgeFrom(e, root, child) && AtRootOnly(reduced, child) && (root == X || (root != X && child != X))
    ensures |CountedVars(Renumber([e] + reduced, root))| <= MAX_BODY_VARS
  {
    var sub := [e] + reduced;
    assert Plain(sub);
    assert EdgeVars(sub) <= {root, child};
    RenumberCount(sub, root);
    forall v | v in CountedFrom(sub, root) ensures v in {X, root, child} {}
    SubsetSize(CountedFrom(sub, root), {X, root, child});
  }

  lemma {:induction false} GroupsExact(atoms: Body, root: Var, depth: Var -> nat, top: Var -> Place, groups: seq<Group>, n: nat, keep: set<Var>,
      st: Namer, result: Body, any: bool)
    requires WfNamer(st) && TreeAt(atoms, root, depth, top) && Branchy(atoms, root, top, groups) && (forall g :: g in groups ==> |g.1| <= n)
    requires root == X || X !in EdgeVars(atoms)
    ensures var (r, st') := NameGroups(groups, n, root, keep, st, result, any);
      && NewWithinCap(st, st')
      && (r.Some? <==> any || exists h :: h in groups && !KeepsSome(keep, h.1))
      && (r.Some? ==> Assembled(root, groups, keep, result, r.value))
    decreases n, 0, 3 + |groups|
  {
    if groups != [] {
      assert groups == [groups[0]] + groups[1..];
      if KeepsSome(keep, groups[0].1) {
        GroupsExact(atoms, root, depth, top, groups[1..], n, keep, st, result + groups[0].1, any);
      } else {
        var (sub, st1) := Narrow(groups[0].0, groups[0].1, n, root, st);
        var (e, st2) := NameBody(st1, Renumber(sub, root));
        GroupSplit(atoms, root, depth, top, groups[0], n, st);
        GroupsWf(groups[1..], n, root, keep, st2, result + [Class(e, root)], true);
        GroupsExact(atoms, root, depth, top, groups[1..], n, keep, st2, result + [Class(e, root)], true);
        CapThen(st, st2, NameGroups(groups, n, root, keep, st, result, any).1);
      }
    }
  }

  lemma {:induction false} GroupSplit(atoms: Body, root: Var, depth: Var -> nat, top: Var -> Place, h: Group, n: nat, st: Namer)
    requires WfNamer(st) && TreeAt(atoms, root, depth, top) && Branch(atoms, root, top, h.0, h.1)
    requires |h.1| <= n && (root == X || X !in EdgeVars(atoms))
    ensures var (sub, st1) := Narrow(h.0, h.1, n, root, st); var st2 := NameBody(st1, Renumber(sub, root)).1;
      WfNamer(st2) && NewWithinCap(st, st2) && Extends(st, st2)
    decreases n, 0, 1
  {
    var (sub, st1) := Narrow(h.0, h.1, n, root, st);
    NarrowWf(h.0, h.1, n, root, st);
    NarrowSplit(atoms, root, depth, top, h.0, h.1, n, st);
    NameBodyWf(st1, Renumber(sub, root));
    NameWithinCap(st1, Renumber(sub, root));
    CapThen(st, st1, NameBody(st1, Renumber(sub, root)).1);
  }

  lemma NameWithinCap(st: Namer, body: Body)
    requires |CountedVars(body)| <= MAX_BODY_VARS
    ensures NewWithinCap(st, NameBody(st, body).1)
  {
  }

  /** The bound for a clause with any head: a wide tree-shaped body is rewritten iff some child of `X`
      has no head variable in its subtree; then no variables are left but `X` and those of the
      subtrees with head variables, and all branches are within the cap. */
  lemma ClauseSplits(cl: DlClause, depth: Var -> nat, st: Namer)
    requires WfNamer(st) && Splittable(cl) && LoopTree(cl.body, X, depth)
    ensures SplitClause(cl, st).0.head == cl.head && NewWithinCap(st, SplitClause(cl, st).1)
    ensures (exists c :: Nameable(cl.body, X, HeadVars(cl.head), c)) ==> Remains(cl.body, X, HeadVars(cl.head), SplitClause(cl, st).0.body)
    ensures (exists c :: Nameable(cl.body, X, HeadVars(cl.head), c)) || SplitClause(cl, st) == (cl, st)
  {
    BranchesExact(cl.body, X, depth, HeadVars(cl.head), st);
    BranchesWf(cl.body, X, HeadVars(cl.head), st);
    var (body, st1) := NameBranches(cl.body, X, HeadVars(cl.head), st);
    assert SplitClause(cl, st) == (if body.Some? then DlClause(body.value, cl.head) else cl, st1);
    if body.None? { assert SplitClause(cl, st) == (cl, st); }
  }

  lemma FarVar(body: Body) returns (v: Var)
    requires |CountedVars(body)| > 1
    ensures v != X && v in EdgeVars(body)
  {
    assert (forall w :: w in EdgeVars(body) ==> w == X) ==> CountedVars(body) == {X};
    v :| v in EdgeVars(body) && v != X;
  }

  /** So with its head on `X` only it becomes a body on `X` only. */
  lemma HeadOnRootSplits(cl: DlClause, depth: Var -> nat, st: Namer)
    requires WfNamer(st) && Splittable(cl) && LoopTree(cl.body, X, depth) && HeadVars(cl.head) == {}
    ensures var (r, st') := SplitClause(cl, st);
      r.head == cl.head && AtRootOnly(r.body, X) && |CountedVars(r.body)| == 1 && NewWithinCap(st, st')
  {
    var v := FarVar(cl.body);
    assert Entered(cl.body, v);
    TreeSplits(cl.body, X, depth, st);
    assert CountedVars(SplitClause(cl, st).0.body) == {X};
  }
}
