/** Body splitting is an exact conservative extension. */
module BranchMeaning {
  import opened Dl
  import opened Clauses
  import opened Branches

  // ----- renumbering keeps what a branch matches -----

  /** `body` is matched at `d`, with variable `root` on `d`. */
  ghost predicate MatchFrom<E(!new)>(J: Interp<E>, body: Body, root: Var, d: E) {
    exists env: Env<E> :: env(root) == d && BodyHolds(J, body, env)
  }

  ghost predicate Plain(body: Body) {
    forall a :: a in body ==> a.Class? || a.Edge?
  }

  ghost predicate Distinct(order: seq<Var>) {
    forall i, j :: 0 <= i < j < |order| ==> order[i] != order[j]
  }

  lemma SeenExtends(order: seq<Var>, v: Var)
    requires Distinct(order)
    ensures Distinct(Seen(order, v)) && order <= Seen(order, v) && v in Seen(order, v)
    ensures Lookup(order, v) < |Seen(order, v)| && Seen(order, v)[Lookup(order, v)] == v
  {
  }

  function FinalOrder(atoms: Body, order: seq<Var>): seq<Var>
    decreases atoms
  {
    if atoms == [] then order else FinalOrder(atoms[1..], SeenAtom(order, atoms[0]))
  }

  lemma {:induction false} FinalExtends(atoms: Body, order: seq<Var>)
    requires Distinct(order)
    ensures Distinct(FinalOrder(atoms, order)) && order <= FinalOrder(atoms, order)
    decreases atoms
  {
    if atoms != [] {
      SeenAtomExtends(order, atoms[0]);
      FinalExtends(atoms[1..], SeenAtom(order, atoms[0]));
    }
  }

  lemma SeenAtomExtends(order: seq<Var>, a: Atom)
    requires Distinct(order)
    ensures Distinct(SeenAtom(order, a)) && order <= SeenAtom(order, a)
  {
    match a
    case Class(_, v) => SeenExtends(order, v);
    case Edge(_, u, w) => SeenExtends(order, u); SeenExtends(Seen(order, u), w);
    case _ =>
  }

  /** `env` on the original variables and `env'` on their ranks say the same. */
  ghost predicate Ranked<E(!new)>(final: seq<Var>, env: Env<E>, env': Env<E>) {
    forall k :: 0 <= k < |final| ==> env'(k) == env(final[k])
  }

  lemma {:induction false} RenumberHolds<E(!new)>(J: Interp<E>, atoms: Body, order: seq<Var>, env: Env<E>, env': Env<E>)
    requires Plain(atoms) && Distinct(order) && Ranked(FinalOrder(atoms, order), env, env')
    ensures BodyHolds(J, RenumberFrom(atoms, order), env') <==> BodyHolds(J, atoms, env)
    decreases atoms
  {
    if atoms != [] {
      var a, next := atoms[0], SeenAtom(order, atoms[0]);
      assert a in atoms;
      SeenAtomExtends(order, a);
      FinalExtends(atoms[1..], next);
      RenumberHolds(J, atoms[1..], next, env, env');
      RenameHolds(J, order, a, FinalOrder(atoms, order), env, env');
      assert atoms == [a] + atoms[1..];
    }
  }

  lemma RenameHolds<E(!new)>(J: Interp<E>, order: seq<Var>, a: Atom, final: seq<Var>, env: Env<E>, env': Env<E>)
    requires (a.Class? || a.Edge?) && Distinct(order) && SeenAtom(order, a) <= final && Ranked(final, env, env')
    ensures AtomHolds(J, RenameAtom(order, a), env') <==> AtomHolds(J, a, env)
  {
    match a
    case Class(_, v) =>
      SeenExtends(order, v);
      assert final[Lookup(order, v)] == v;
    case Edge(_, u, w) =>
      var mid := Seen(order, u);
      SeenExtends(order, u);
      SeenExtends(mid, w);
      assert Seen(mid, w)[Lookup(order, u)] == u && Seen(mid, w)[Lookup(mid, w)] == w;
      assert final[Lookup(order, u)] == u && final[Lookup(mid, w)] == w;
  }

  lemma RenumberTo<E(!new)>(J: Interp<E>, atoms: Body, root: Var, env: Env<E>)
    requires Plain(atoms) && BodyHolds(J, atoms, env)
    ensures MatchFrom(J, Renumber(atoms, root), X, env(root))
  {
    var final := FinalOrder(atoms, [root]);
    FinalExtends(atoms, [root]);
    var env': Env<E> := (k: Var) => if k < |final| then env(final[k]) else env(root);
    RenumberHolds(J, atoms, [root], env, env');
    assert env'(X) == env(root) && BodyHolds(J, Renumber(atoms, root), env');
  }

  lemma RenumberFro<E(!new)>(J: Interp<E>, atoms: Body, root: Var, d: E)
    requires Plain(atoms) && MatchFrom(J, Renumber(atoms, root), X, d)
    ensures MatchFrom(J, atoms, root, d)
  {
    var env': Env<E> :| env'(X) == d && BodyHolds(J, Renumber(atoms, root), env');
    var final := FinalOrder(atoms, [root]);
    FinalExtends(atoms, [root]);
    var env: Env<E> := (v: Var) => if v in final then env'(IndexOf(final, v)) else d;
    forall k | 0 <= k < |final| ensures env'(k) == env(final[k]) { assert IndexOf(final, final[k]) == k; }
    RenumberHolds(J, atoms, [root], env, env');
    assert env(root) == d by { assert final[0] == root && env(final[0]) == env'(0); }
  }

  // ----- the namer -----

  /** Branch `k` is named by the class `first + k`, and the memo only knows named branches. */
  ghost predicate WfNamer(st: Namer) {
    && (forall k :: 0 <= k < |st.named| ==> st.named[k].head == [Class(st.first + k, X)])
    && (forall b :: b in st.memo ==> NameAt(st.first, st.named, st.memo[b], b))
  }

  /** The branch class `e` stands for `body`. */
  ghost predicate NameAt(first: ClassId, named: seq<DlClause>, e: ClassId, body: Body) {
    first <= e < first + |named| && named[e - first].body == body
  }

  ghost predicate Extends(st: Namer, st': Namer) {
    st.first == st'.first && st.named <= st'.named
  }

  lemma NameBodyWf(st: Namer, body: Body)
    requires WfNamer(st)
    ensures WfNamer(NameBody(st, body).1) && Extends(st, NameBody(st, body).1)
    ensures NameAt(st.first, NameBody(st, body).1.named, NameBody(st, body).0, body)
  {
    var (e, st') := NameBody(st, body);
    if body !in st.memo {
      forall b | b in st'.memo ensures NameAt(st'.first, st'.named, st'.memo[b], b) {
        if b != body { assert NameAt(st.first, st.named, st.memo[b], b); }
      }
    }
  }

  /** Each named branch holds as a clause: a match puts the element in the branch class. */
  ghost predicate Enters<E(!new)>(J: Interp<E>, first: ClassId, named: seq<DlClause>) {
    forall k, d {:trigger MatchFrom(J, named[k].body, X, d)} :: 0 <= k < |named| && MatchFrom(J, named[k].body, X, d) ==> J.cls(first + k, d)
  }

  /** Each branch class holds matched elements only. */
  ghost predicate Leaves<E(!new)>(J: Interp<E>, first: ClassId, named: seq<DlClause>) {
    forall k, d {:trigger MatchFrom(J, named[k].body, X, d)} :: 0 <= k < |named| && J.cls(first + k, d) ==> MatchFrom(J, named[k].body, X, d)
  }

  lemma {:induction false} BranchesWf(atoms: Body, root: Var, keep: set<Var>, st: Namer)
    requires WfNamer(st)
    ensures var (r, st') := NameBranches(atoms, root, keep, st);
      WfNamer(st') && Extends(st, st') && (r.None? ==> st' == st)
    decreases |atoms|, 1, 0
  {
    var t := TreeOf(atoms, root);
    if !exists i :: 0 <= i < |atoms| && atoms[i].Edge? && !t.placed[i] {
      var g := GroupFrom(TopFn(t, root), atoms, Grouping([], []));
      if g.Some? {
        GroupSizes(TopFn(t, root), atoms, Grouping([], []), |atoms|);
        GroupsWf(g.value.groups, |atoms|, root, keep, st, g.value.rootAtoms, false);
      }
    }
  }

  lemma {:induction false} NarrowWf(child: Var, group: Body, n: nat, root: Var, st: Namer)
    requires WfNamer(st) && |group| <= n
    ensures var (sub, st') := Narrow(child, group, n, root, st);
      WfNamer(st') && Extends(st, st')
    decreases n, 0, 0
  {
    var edge, inner := EdgesFrom(group, root, child), Inner(group, root, child);
    if |CountedFrom(group, root)| > MAX_BODY_VARS && |edge| == 1 && !Mentions(inner, root) {
      BranchesWf(inner, child, {}, st);
    }
  }

  /** One group narrowed and named. */
  function NamedGroup(child: Var, group: Body, n: nat, root: Var, st: Namer): (ClassId, Namer)
    requires |group| <= n
  {
    var (sub, st1) := Narrow(child, group, n, root, st);
    NameBody(st1, Renumber(sub, root))
  }

  lemma NameGroupsStep(groups: seq<Group>, n: nat, root: Var, keep: set<Var>, st: Namer, result: Body, any: bool)
    requires groups != [] && (forall g :: g in groups ==> |g.1| <= n) && |groups[0].1| <= n
    requires !exists v :: v in keep && Mentions(groups[0].1, v)
    ensures var (e, st2) := NamedGroup(groups[0].0, groups[0].1, n, root, st);
      NameGroups(groups, n, root, keep, st, result, any) == NameGroups(groups[1..], n, root, keep, st2, result + [Class(e, root)], true)
  {
  }

  /** The new name stands for the narrowed group. */
  lemma {:induction false} NamedGroupWf(child: Var, group: Body, n: nat, root: Var, st: Namer)
    requires WfNamer(st) && |group| <= n
    ensures WfNamer(NamedGroup(child, group, n, root, st).1) && Extends(st, NamedGroup(child, group, n, root, st).1)
    ensures Extends(Narrow(child, group, n, root, st).1, NamedGroup(child, group, n, root, st).1)
    ensures NameAt(st.first, NamedGroup(child, group, n, root, st).1.named, NamedGroup(child, group, n, root, st).0,
      Renumber(Narrow(child, group, n, root, st).0, root))
    decreases n, 0, 1
  {
    NarrowWf(child, group, n, root, st);
    NameBodyWf(Narrow(child, group, n, root, st).1, Renumber(Narrow(child, group, n, root, st).0, root));
    ExtendsTrans(st, Narrow(child, group, n, root, st).1, NamedGroup(child, group, n, root, st).1);
  }

  lemma ExtendsTrans(st: Namer, st1: Namer, st2: Namer)
    requires Extends(st, st1) && Extends(st1, st2)
    ensures Extends(st, st2)
  {
  }

  lemma {:induction false} GroupsWf(groups: seq<Group>, n: nat, root: Var, keep: set<Var>, st: Namer, result: Body, any: bool)
    requires WfNamer(st) && forall g :: g in groups ==> |g.1| <= n
    ensures var (r, st') := NameGroups(groups, n, root, keep, st, result, any);
      WfNamer(st') && Extends(st, st') && (r.None? ==> st' == st) && (any ==> r.Some?) && (r.Some? ==> result <= r.value)
    decreases n, 0, 3 + |groups|
  {
    if groups != [] {
      if exists v :: v in keep && Mentions(groups[0].1, v) {
        GroupsWf(groups[1..], n, root, keep, st, result + groups[0].1, any);
      } else {
        var (sub, st1) := Narrow(groups[0].0, groups[0].1, n, root, st);
        NarrowWf(groups[0].0, groups[0].1, n, root, st);
        NameBodyWf(st1, Renumber(sub, root));
        var (e, st2) := NameBody(st1, Renumber(sub, root));
        GroupsWf(groups[1..], n, root, keep, st2, result + [Class(e, root)], true);
      }
    }
  }

  // ----- the groups partition the body -----

  ghost predicate InGroups(groups: seq<Group>, a: Atom) {
    exists g :: g in groups && a in g.1
  }

  ghost predicate Grouped(g: Grouping, a: Atom) {
    a in g.rootAtoms || InGroups(g.groups, a)
  }

  /** Every atom of a group hangs below the group's child. */
  ghost predicate GroupsBelow(top: Var -> Place, groups: seq<Group>)
  {
    forall g, a :: g in groups && a in g.1 ==> AtomPlace(top, a) == Below(g.0) && (a.Class? || a.Edge?)
  }

  ghost predicate RootsAtRoot(top: Var -> Place, atoms: Body)
  {
    forall a :: a in atoms ==> AtomPlace(top, a) == AtRoot && (a.Class? || a.Edge?)
  }

  function Children(groups: seq<Group>): set<Var> {
    set g | g in groups :: g.0
  }

  ghost predicate DistinctChildren(groups: seq<Group>) {
    groups != [] ==> groups[0].0 !in Children(groups[1..]) && DistinctChildren(groups[1..])
  }

  lemma {:induction false} AddToMember(groups: seq<Group>, child: Var, a: Atom, g: Group, x: Atom)
    requires g in AddTo(groups, child, a) && x in g.1
    ensures (x == a && g.0 == child) || exists h :: h in groups && h.0 == g.0 && x in h.1
    decreases groups
  {
    if groups != [] {
      assert groups == [groups[0]] + groups[1..];
      if groups[0].0 == child {
        if g in groups[1..] { assert g in groups; } else if x in groups[0].1 { assert groups[0] in groups; }
      } else if g == groups[0] {
        assert g in groups;
      } else {
        AddToMember(groups[1..], child, a, g, x);
        if h :| h in groups[1..] && h.0 == g.0 && x in h.1 { assert h in groups; }
      }
    }
  }

  lemma AddToBelow(top: Var -> Place, groups: seq<Group>, child: Var, a: Atom)
    requires GroupsBelow(top, groups)
    requires AtomPlace(top, a) == Below(child) && (a.Class? || a.Edge?)
    ensures GroupsBelow(top, AddTo(groups, child, a))
  {
    forall g, x | g in AddTo(groups, child, a) && x in g.1
      ensures AtomPlace(top, x) == Below(g.0) && (x.Class? || x.Edge?)
    {
      AddToMember(groups, child, a, g, x);
    }
  }

  lemma {:induction false} AddToIn(groups: seq<Group>, child: Var, a: Atom, x: Atom)
    ensures InGroups(AddTo(groups, child, a), x) <==> x == a || InGroups(groups, x)
    decreases groups
  {
    if groups == [] {
      InHead([(child, [a])], x);
    } else {
      InHead(groups, x);
      InHead(AddTo(groups, child, a), x);
      if groups[0].0 != child { AddToIn(groups[1..], child, a, x); }
    }
  }

  lemma InHead(groups: seq<Group>, x: Atom)
    requires groups != []
    ensures InGroups(groups, x) <==> x in groups[0].1 || InGroups(groups[1..], x)
  {
    assert groups == [groups[0]] + groups[1..];
    if x in groups[0].1 { assert groups[0] in groups; }
    if g :| g in groups[1..] && x in g.1 { assert g in groups; }
  }

  lemma {:induction false} AddToChildren(groups: seq<Group>, child: Var, a: Atom)
    requires DistinctChildren(groups)
    ensures DistinctChildren(AddTo(groups, child, a)) && Children(AddTo(groups, child, a)) == Children(groups) + {child}
    decreases groups
  {
    ChildrenHead(AddTo(groups, child, a));
    if groups != [] {
      ChildrenHead(groups);
      if groups[0].0 != child { AddToChildren(groups[1..], child, a); }
    }
  }

  lemma ChildrenHead(groups: seq<Group>)
    requires groups != []
    ensures Children(groups) == {groups[0].0} + Children(groups[1..])
  {
    assert groups == [groups[0]] + groups[1..];
  }

  /** Grouping keeps exactly the atoms of the body and puts each where it hangs. */
  lemma {:induction false} GroupFacts(top: Var -> Place, atoms: Body, g: Grouping)
    requires GroupFrom(top, atoms, g).Some?
    requires GroupsBelow(top, g.groups) && RootsAtRoot(top, g.rootAtoms) && DistinctChildren(g.groups)
    ensures var r := GroupFrom(top, atoms, g).value;
      GroupsBelow(top, r.groups) && RootsAtRoot(top, r.rootAtoms) && DistinctChildren(r.groups)
      && Plain(atoms) && forall a :: Grouped(r, a) <==> a in atoms || Grouped(g, a)
    decreases atoms
  {
    if atoms != [] {
      var a := atoms[0];
      assert a.Class? || a.Edge?;
      assert atoms == [a] + atoms[1..];
      match AtomPlace(top, a)
      case AtRoot =>
        GroupFacts(top, atoms[1..], g.(rootAtoms := g.rootAtoms + [a]));
      case Below(c) =>
        AddToBelow(top, g.groups, c, a);
        AddToChildren(g.groups, c, a);
        forall x { AddToIn(g.groups, c, a, x); }
        GroupFacts(top, atoms[1..], g.(groups := AddTo(g.groups, c, a)));
    }
  }

  /** Two groups share the root only. */
  ghost predicate Apart(groups: seq<Group>, root: Var) {
    groups != [] ==> SharesRootOnly(groups[0].1, groups[1..], root) && Apart(groups[1..], root)
  }

  ghost predicate SharesRootOnly(body: Body, groups: seq<Group>, root: Var) {
    forall g, v :: g in groups && Mentions(body, v) && Mentions(g.1, v) ==> v == root
  }

  lemma {:induction false} BelowApart(top: Var -> Place, root: Var, groups: seq<Group>)
    requires RootedAt(top, root) && GroupsBelow(top, groups) && DistinctChildren(groups)
    ensures Apart(groups, root)
    decreases groups
  {
    if groups != [] {
      assert groups == [groups[0]] + groups[1..];
      BelowApart(top, root, groups[1..]);
      forall g, v | g in groups[1..] && Mentions(groups[0].1, v) && Mentions(g.1, v) ensures v == root {
        assert g.0 in Children(groups[1..]);
        TwoGroups(top, root, groups, groups[0], g, v);
      }
    }
  }

  lemma TwoGroups(top: Var -> Place, root: Var, groups: seq<Group>, g: Group, h: Group, v: Var)
    requires RootedAt(top, root) && GroupsBelow(top, groups) && g in groups && h in groups && g.0 != h.0
    requires Mentions(g.1, v) && Mentions(h.1, v)
    ensures v == root
  {
    var a :| a in g.1 && v in AtomVars(a);
    var b :| b in h.1 && v in AtomVars(b);
    PlaceOfVar(top, root, a, v);
    PlaceOfVar(top, root, b, v);
  }

  lemma RootOnly(top: Var -> Place, root: Var, atoms: Body)
    requires RootedAt(top, root) && RootsAtRoot(top, atoms)
    ensures forall a, v :: a in atoms && v in AtomVars(a) ==> v == root
  {
    forall a, v | a in atoms && v in AtomVars(a) ensures v == root {
      PlaceOfVar(top, root, a, v);
    }
  }

  lemma {:induction false} ClimbNotRoot(t: Tree, root: Var, w: Var)
    requires WellPlaced(t, root)
    ensures !Climb(t, root, w).AtRoot?
    decreases if w in t.bound then IndexOf(t.bound, w) else 0
  {
    if w in t.parent && t.parent[w] != root {
      ParentEarlier(t, root, w);
      ClimbNotRoot(t, root, t.parent[w]);
    }
  }

  /** A placed atom's variables are the root or hang where the atom does. */
  lemma PlaceOfVar(top: Var -> Place, root: Var, a: Atom, v: Var)
    requires RootedAt(top, root) && (a.Class? || a.Edge?) && v in AtomVars(a) && !AtomPlace(top, a).Unbound?
    ensures v == root || top(v) == AtomPlace(top, a)
  {
  }

  /** Exactly the root hangs at the root. */
  ghost predicate RootedAt(top: Var -> Place, root: Var) {
    forall v :: top(v).AtRoot? <==> v == root
  }

  lemma TopRooted(t: Tree, root: Var)
    requires WellPlaced(t, root)
    ensures RootedAt(TopFn(t, root), root)
  {
    forall v ensures TopFn(t, root)(v).AtRoot? <==> v == root { if v != root { ClimbNotRoot(t, root, v); } }
  }

  ghost predicate PlainGroups(groups: seq<Group>) {
    forall g :: g in groups ==> Plain(g.1)
  }

  ghost predicate GroupsHold<E(!new)>(J: Interp<E>, groups: seq<Group>, env: Env<E>) {
    forall g :: g in groups ==> BodyHolds(J, g.1, env)
  }

  /** The groups a successful split works on. */
  lemma SplitGroups(atoms: Body, root: Var) returns (g: Grouping)
    requires GroupFrom(TopFn(TreeOf(atoms, root), root), atoms, Grouping([], [])).Some?
    ensures g == GroupFrom(TopFn(TreeOf(atoms, root), root), atoms, Grouping([], [])).value
    ensures (forall a :: Grouped(g, a) <==> a in atoms) && Plain(atoms) && PlainGroups(g.groups) && Plain(g.rootAtoms) && Apart(g.groups, root)
    ensures forall a, v :: a in g.rootAtoms && v in AtomVars(a) ==> v == root
    ensures forall h :: h in g.groups ==> |h.1| <= |atoms|
  {
    var top := TopFn(TreeOf(atoms, root), root);
    TopRooted(TreeOf(atoms, root), root);
    g := GroupFrom(top, atoms, Grouping([], [])).value;
    GroupFacts(top, atoms, Grouping([], []));
    GroupSizes(top, atoms, Grouping([], []), |atoms|);
    BelowApart(top, root, g.groups);
    RootOnly(top, root, g.rootAtoms);
  }

  // ----- forward: a match of the body is a match of its rewriting -----

  lemma {:induction false} BranchesForward<E(!new)>(J: Interp<E>, atoms: Body, root: Var, keep: set<Var>, st: Namer, env: Env<E>)
    requires WfNamer(st) && NameBranches(atoms, root, keep, st).0.Some?
    requires Enters(J, st.first, NameBranches(atoms, root, keep, st).1.named)
    requires BodyHolds(J, atoms, env)
    ensures BodyHolds(J, NameBranches(atoms, root, keep, st).0.value, env)
    decreases |atoms|, 1, 0
  {
    var g := SplitGroups(atoms, root);
    forall a | a in g.rootAtoms ensures AtomHolds(J, a, env) { assert Grouped(g, a); }
    forall h | h in g.groups ensures BodyHolds(J, h.1, env) {
      forall a | a in h.1 ensures AtomHolds(J, a, env) { assert InGroups(g.groups, a); assert Grouped(g, a); }
    }
    GroupsForward(J, g.groups, |atoms|, root, keep, st, g.rootAtoms, false, env);
  }

  lemma {:induction false} NarrowForward<E(!new)>(J: Interp<E>, child: Var, group: Body, n: nat, root: Var, st: Namer, env: Env<E>)
    requires WfNamer(st) && |group| <= n && Plain(group)
    requires Enters(J, st.first, Narrow(child, group, n, root, st).1.named)
    requires BodyHolds(J, group, env)
    ensures BodyHolds(J, Narrow(child, group, n, root, st).0, env)
    decreases n, 0, 0
  {
    var edge, inner := EdgesFrom(group, root, child), Inner(group, root, child);
    if |CountedFrom(group, root)| > MAX_BODY_VARS && |edge| == 1 && !Mentions(inner, root) {
      var (reduced, st1) := NameBranches(inner, child, {}, st);
      if reduced.Some? { BranchesForward(J, inner, child, {}, st, env); }
    }
  }

  lemma NarrowPlain(child: Var, group: Body, n: nat, root: Var, st: Namer)
    requires |group| <= n && Plain(group)
    ensures Plain(Narrow(child, group, n, root, st).0)
  {
    var edge, inner := EdgesFrom(group, root, child), Inner(group, root, child);
    if |CountedFrom(group, root)| > MAX_BODY_VARS && |edge| == 1 && !Mentions(inner, root) {
      if NameBranches(inner, child, {}, st).0.Some? { BranchesPlain(inner, child, {}, st); }
    }
  }

  /** The rewriting has class atoms and edges only. */
  lemma BranchesPlain(atoms: Body, root: Var, keep: set<Var>, st: Namer)
    requires NameBranches(atoms, root, keep, st).0.Some?
    ensures Plain(NameBranches(atoms, root, keep, st).0.value)
  {
    var g := SplitGroups(atoms, root);
    GroupsPlain(g.groups, |atoms|, root, keep, st, g.rootAtoms, false);
  }

  lemma {:induction false} GroupsPlain(groups: seq<Group>, n: nat, root: Var, keep: set<Var>, st: Namer, result: Body, any: bool)
    requires (forall g :: g in groups ==> |g.1| <= n) && Plain(result) && PlainGroups(groups)
    requires NameGroups(groups, n, root, keep, st, result, any).0.Some?
    ensures Plain(NameGroups(groups, n, root, keep, st, result, any).0.value)
    decreases groups
  {
    if groups != [] {
      assert Plain(groups[0].1);
      if exists v :: v in keep && Mentions(groups[0].1, v) {
        GroupsPlain(groups[1..], n, root, keep, st, result + groups[0].1, any);
      } else {
        var (sub, st1) := Narrow(groups[0].0, groups[0].1, n, root, st);
        var (e, st2) := NameBody(st1, Renumber(sub, root));
        GroupsPlain(groups[1..], n, root, keep, st2, result + [Class(e, root)], true);
      }
    }
  }

  lemma EntersPrefix<E(!new)>(J: Interp<E>, first: ClassId, xs: seq<DlClause>, ys: seq<DlClause>)
    requires xs <= ys && Enters(J, first, ys)
    ensures Enters(J, first, xs)
  {
  }

  lemma EnterNamed<E(!new)>(J: Interp<E>, first: ClassId, named: seq<DlClause>, e: ClassId, body: Body, d: E)
    requires Enters(J, first, named) && MatchFrom(J, body, X, d) && NameAt(first, named, e, body)
    ensures J.cls(e, d)
  {
    assert MatchFrom(J, named[e - first].body, X, d);
    assert J.cls(first + (e - first), d);
  }

  lemma {:induction false} GroupMatches<E(!new)>(J: Interp<E>, child: Var, group: Body, n: nat, root: Var, st: Namer, env: Env<E>)
    requires WfNamer(st) && |group| <= n && Plain(group) && BodyHolds(J, group, env)
    requires Enters(J, st.first, Narrow(child, group, n, root, st).1.named)
    ensures MatchFrom(J, Renumber(Narrow(child, group, n, root, st).0, root), X, env(root))
    decreases n, 0, 1
  {
    NarrowForward(J, child, group, n, root, st, env);
    NarrowPlain(child, group, n, root, st);
    RenumberTo(J, Narrow(child, group, n, root, st).0, root, env);
  }

  /** A matched group puts the root in its branch class. */
  lemma {:induction false} GroupForward<E(!new)>(J: Interp<E>, child: Var, group: Body, n: nat, root: Var, st: Namer, named: seq<DlClause>, env: Env<E>)
    requires WfNamer(st) && |group| <= n && Plain(group) && BodyHolds(J, group, env)
    requires NamedGroup(child, group, n, root, st).1.named <= named && Enters(J, st.first, named)
    ensures J.cls(NamedGroup(child, group, n, root, st).0, env(root))
    decreases n, 0, 2
  {
    NamedGroupAt(child, group, n, root, st, named);
    EntersPrefix(J, st.first, Narrow(child, group, n, root, st).1.named, named);
    GroupMatches(J, child, group, n, root, st, env);
    EnterNamed(J, st.first, named, NamedGroup(child, group, n, root, st).0, Renumber(Narrow(child, group, n, root, st).0, root), env(root));
  }

  /** The name of a group among all the named branches. */
  lemma {:induction false} NamedGroupAt(child: Var, group: Body, n: nat, root: Var, st: Namer, named: seq<DlClause>)
    requires WfNamer(st) && |group| <= n && NamedGroup(child, group, n, root, st).1.named <= named
    ensures Narrow(child, group, n, root, st).1.named <= named
    ensures NameAt(st.first, named, NamedGroup(child, group, n, root, st).0, Renumber(Narrow(child, group, n, root, st).0, root))
    decreases n, 0, 2
  {
    NamedGroupWf(child, group, n, root, st);
    NameAtPrefix(st.first, NamedGroup(child, group, n, root, st).1.named, named, NamedGroup(child, group, n, root, st).0,
      Renumber(Narrow(child, group, n, root, st).0, root));
  }

  lemma NameAtPrefix(first: ClassId, xs: seq<DlClause>, ys: seq<DlClause>, e: ClassId, body: Body)
    requires xs <= ys && NameAt(first, xs, e, body)
    ensures NameAt(first, ys, e, body)
  {
  }


  lemma {:induction false} GroupsForward<E(!new)>(J: Interp<E>, groups: seq<Group>, n: nat, root: Var, keep: set<Var>, st: Namer, result: Body, any: bool, env: Env<E>)
    requires WfNamer(st) && (forall g :: g in groups ==> |g.1| <= n) && PlainGroups(groups)
    requires NameGroups(groups, n, root, keep, st, result, any).0.Some?
    requires Enters(J, st.first, NameGroups(groups, n, root, keep, st, result, any).1.named)
    requires BodyHolds(J, result, env) && GroupsHold(J, groups, env)
    ensures BodyHolds(J, NameGroups(groups, n, root, keep, st, result, any).0.value, env)
    decreases n, 0, 3 + |groups|
  {
    if groups != [] {
      var group := groups[0].1;
      assert groups[0] in groups;
      if exists v :: v in keep && Mentions(group, v) {
        BodySplit(J, result, group, env);
        GroupsForward(J, groups[1..], n, root, keep, st, result + group, any, env);
      } else {
        var (e, st2) := NamedGroup(groups[0].0, group, n, root, st);
        NamedGroupWf(groups[0].0, group, n, root, st);
        NameGroupsStep(groups, n, root, keep, st, result, any);
        GroupsWf(groups[1..], n, root, keep, st2, result + [Class(e, root)], true);
        GroupForward(J, groups[0].0, group, n, root, st, NameGroups(groups, n, root, keep, st, result, any).1.named, env);
        ClassBody(J, e, root, env);
        BodySplit(J, result, [Class(e, root)], env);
        GroupsForward(J, groups[1..], n, root, keep, st2, result + [Class(e, root)], true, env);
      }
    }
  }

  lemma ClassBody<E(!new)>(J: Interp<E>, e: ClassId, v: Var, env: Env<E>)
    ensures BodyHolds(J, [Class(e, v)], env) <==> J.cls(e, env(v))
  {
    assert Class(e, v) in [Class(e, v)];
  }

  // ----- backward: a match of the rewriting comes from a match of the body -----

  /** The two assignments agree at `root` and on `keep`. */
  ghost predicate Moved<E(!new)>(env: Env<E>, env': Env<E>, root: Var, keep: set<Var>) {
    env'(root) == env(root) && forall v :: v in keep ==> env'(v) == env(v)
  }

  lemma LeavesPrefix<E(!new)>(J: Interp<E>, first: ClassId, xs: seq<DlClause>, ys: seq<DlClause>)
    requires xs <= ys && Leaves(J, first, ys)
    ensures Leaves(J, first, xs)
  {
  }

  lemma LeaveNamed<E(!new)>(J: Interp<E>, first: ClassId, named: seq<DlClause>, e: ClassId, body: Body, d: E)
    requires Leaves(J, first, named) && J.cls(e, d) && NameAt(first, named, e, body)
    ensures MatchFrom(J, body, X, d)
  {
    assert J.cls(first + (e - first), d);
    assert MatchFrom(J, body, X, d) <==> MatchFrom(J, named[e - first].body, X, d);
  }

  lemma {:induction false} BranchesBack<E(!new)>(J: Interp<E>, atoms: Body, root: Var, keep: set<Var>, st: Namer, env: Env<E>)
    returns (env': Env<E>)
    requires WfNamer(st) && NameBranches(atoms, root, keep, st).0.Some?
    requires Leaves(J, st.first, NameBranches(atoms, root, keep, st).1.named)
    requires BodyHolds(J, NameBranches(atoms, root, keep, st).0.value, env)
    ensures BodyHolds(J, atoms, env') && Moved(env, env', root, keep)
    decreases |atoms|, 1, 0
  {
    var g := SplitGroups(atoms, root);
    env' := GroupsBack(J, g.groups, |atoms|, root, keep, st, g.rootAtoms, false, env);
    BodyFrame(J, g.rootAtoms, env, env');
    forall a | a in atoms ensures AtomHolds(J, a, env') {
      assert Grouped(g, a);
      if a !in g.rootAtoms {
        var h :| h in g.groups && a in h.1;
        assert BodyHolds(J, h.1, env');
      }
    }
  }

  lemma {:induction false} NarrowBack<E(!new)>(J: Interp<E>, child: Var, group: Body, n: nat, root: Var, st: Namer, d: E)
    returns (env': Env<E>)
    requires WfNamer(st) && |group| <= n && Plain(group)
    requires Leaves(J, st.first, Narrow(child, group, n, root, st).1.named)
    requires MatchFrom(J, Narrow(child, group, n, root, st).0, root, d)
    ensures env'(root) == d && BodyHolds(J, group, env')
    decreases n, 0, 0
  {
    var (sub, st1) := Narrow(child, group, n, root, st);
    var edge, inner := EdgesFrom(group, root, child), Inner(group, root, child);
    var env: Env<E> :| env(root) == d && BodyHolds(J, sub, env);
    env' := env;
    if |CountedFrom(group, root)| > MAX_BODY_VARS && |edge| == 1 && !Mentions(inner, root) {
      var (reduced, st2) := NameBranches(inner, child, {}, st);
      if reduced.Some? {
        BodySplit(J, edge, reduced.value, env);
        var env1 := BranchesBack(J, inner, child, {}, st, env);
        env' := (v: Var) => if v == root then d else env1(v);
        BodyFrame(J, inner, env1, env');
        assert env'(child) == env(child);
        BodyFrame(J, edge, env, env');
        assert forall a :: a in group ==> a in edge || a in inner;
      }
    }
  }

  /** An element of the branch class has a match of the group. */
  lemma {:induction false} GroupLeaves<E(!new)>(J: Interp<E>, child: Var, group: Body, n: nat, root: Var, st: Namer, named: seq<DlClause>, d: E)
    returns (env': Env<E>)
    requires WfNamer(st) && |group| <= n && Plain(group) && J.cls(NamedGroup(child, group, n, root, st).0, d)
    requires NamedGroup(child, group, n, root, st).1.named <= named && Leaves(J, st.first, named)
    ensures env'(root) == d && BodyHolds(J, group, env')
    decreases n, 0, 2
  {
    NamedGroupAt(child, group, n, root, st, named);
    LeavesPrefix(J, st.first, Narrow(child, group, n, root, st).1.named, named);
    LeaveNamed(J, st.first, named, NamedGroup(child, group, n, root, st).0, Renumber(Narrow(child, group, n, root, st).0, root), d);
    env' := GroupUnmatches(J, child, group, n, root, st, d);
  }

  lemma {:induction false} GroupUnmatches<E(!new)>(J: Interp<E>, child: Var, group: Body, n: nat, root: Var, st: Namer, d: E)
    returns (env': Env<E>)
    requires WfNamer(st) && |group| <= n && Plain(group)
    requires Leaves(J, st.first, Narrow(child, group, n, root, st).1.named)
    requires MatchFrom(J, Renumber(Narrow(child, group, n, root, st).0, root), X, d)
    ensures env'(root) == d && BodyHolds(J, group, env')
    decreases n, 0, 1
  {
    NarrowPlain(child, group, n, root, st);
    RenumberFro(J, Narrow(child, group, n, root, st).0, root, d);
    env' := NarrowBack(J, child, group, n, root, st, d);
  }

  /** `env'` is `env` but for variables of the groups. */
  ghost predicate Off<E(!new)>(groups: seq<Group>, env: Env<E>, env': Env<E>) {
    forall v :: (forall g :: g in groups ==> !Mentions(g.1, v)) ==> env'(v) == env(v)
  }

  lemma {:induction false} GroupsBack<E(!new)>(J: Interp<E>, groups: seq<Group>, n: nat, root: Var, keep: set<Var>, st: Namer, result: Body, any: bool, env: Env<E>)
    returns (env': Env<E>)
    requires WfNamer(st) && (forall g :: g in groups ==> |g.1| <= n) && Apart(groups, root) && PlainGroups(groups)
    requires NameGroups(groups, n, root, keep, st, result, any).0.Some?
    requires Leaves(J, st.first, NameGroups(groups, n, root, keep, st, result, any).1.named)
    requires BodyHolds(J, NameGroups(groups, n, root, keep, st, result, any).0.value, env)
    ensures GroupsHold(J, groups, env') && Moved(env, env', root, keep) && Off(groups, env, env')
    ensures BodyHolds(J, result, env)
    decreases n, 0, 3 + |groups|
  {
    env' := env;
    if groups != [] {
      var rest, group := groups[1..], groups[0].1;
      assert groups[0] in groups;
      if v0 :| v0 in keep && Mentions(group, v0) {
        env' := GroupsBack(J, rest, n, root, keep, st, result + group, any, env);
        BodySplit(J, result, group, env);
        InlineGroup(J, groups, root, env, env');
      } else {
        var (e, st2) := NamedGroup(groups[0].0, group, n, root, st);
        NamedGroupWf(groups[0].0, group, n, root, st);
        NameGroupsStep(groups, n, root, keep, st, result, any);
        GroupsWf(rest, n, root, keep, st2, result + [Class(e, root)], true);
        var env1 := GroupsBack(J, rest, n, root, keep, st2, result + [Class(e, root)], true, env);
        BodySplit(J, result, [Class(e, root)], env);
        ClassBody(J, e, root, env);
        var env2 := GroupLeaves(J, groups[0].0, group, n, root, st, NameGroups(groups, n, root, keep, st, result, any).1.named, env(root));
        env' := JoinGroup(J, groups, root, keep, env, env1, env2);
      }
    }
  }

  /** An inline group is untouched by what the later groups move. */
  lemma InlineGroup<E(!new)>(J: Interp<E>, groups: seq<Group>, root: Var, env: Env<E>, env': Env<E>)
    requires groups != [] && Apart(groups, root) && env'(root) == env(root)
    requires BodyHolds(J, groups[0].1, env) && Off(groups[1..], env, env') && GroupsHold(J, groups[1..], env')
    ensures GroupsHold(J, groups, env') && Off(groups, env, env')
  {
    forall a, v | a in groups[0].1 && v in AtomVars(a) ensures env'(v) == env(v) {
      assert Mentions(groups[0].1, v);
      if v != root {
        forall g | g in groups[1..] ensures !Mentions(g.1, v) {}
      }
    }
    BodyFrame(J, groups[0].1, env, env');
    assert groups == [groups[0]] + groups[1..];
  }

  /** A named group takes its own match; the later groups keep theirs. */
  lemma JoinGroup<E(!new)>(J: Interp<E>, groups: seq<Group>, root: Var, keep: set<Var>, env: Env<E>, env1: Env<E>, env2: Env<E>)
    returns (env': Env<E>)
    requires groups != [] && Apart(groups, root) && Moved(env, env1, root, keep) && env2(root) == env(root)
    requires BodyHolds(J, groups[0].1, env2) && Off(groups[1..], env, env1) && GroupsHold(J, groups[1..], env1)
    requires forall v :: v in keep ==> !Mentions(groups[0].1, v)
    ensures GroupsHold(J, groups, env') && Moved(env, env', root, keep) && Off(groups, env, env')
  {
    var group := groups[0].1;
    env' := (v: Var) => if v != root && Mentions(group, v) then env2(v) else env1(v);
    forall a, v | a in group && v in AtomVars(a) ensures env'(v) == env2(v) { assert Mentions(group, v); }
    BodyFrame(J, group, env2, env');
    forall g | g in groups[1..] ensures BodyHolds(J, g.1, env') {
      forall a, v | a in g.1 && v in AtomVars(a) ensures env'(v) == env1(v) { assert Mentions(g.1, v); }
      BodyFrame(J, g.1, env1, env');
    }
    assert groups == [groups[0]] + groups[1..];
  }
}
