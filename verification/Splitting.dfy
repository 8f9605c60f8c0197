/** The splitting pass over a clause set: an exact conservative extension, and its bound. */
module Splitting {
  import opened Dl
  import opened Clauses
  import opened Branches
  import opened BranchMeaning

  // ----- classes of the branches -----

  function NextBranch(st: Namer): ClassId {
    st.first + |st.named|
  }

  /** A branch body uses earlier classes only, so branch classes can be read one after the other. */
  ghost predicate Layered(st: Namer) {
    forall k :: 0 <= k < |st.named| ==> AtomsBelow(st.named[k].body, st.first + k)
  }

  lemma {:induction false} RenumberBelow(atoms: Body, order: seq<Var>, k: ClassId)
    requires AtomsBelow(atoms, k)
    ensures AtomsBelow(RenumberFrom(atoms, order), k)
    decreases atoms
  {
    if atoms != [] {
      assert AtomBelow(atoms[0], k);
      RenumberBelow(atoms[1..], SeenAtom(order, atoms[0]), k);
    }
  }

  lemma {:induction false} BranchesBelow(atoms: Body, root: Var, keep: set<Var>, st: Namer)
    requires WfNamer(st) && Layered(st) && AtomsBelow(atoms, st.first)
    ensures var (r, st') := NameBranches(atoms, root, keep, st);
      Layered(st') && (r.Some? ==> AtomsBelow(r.value, NextBranch(st')))
    decreases |atoms|, 1, 0
  {
    var t := TreeOf(atoms, root);
    if !exists i :: 0 <= i < |atoms| && atoms[i].Edge? && !t.placed[i] {
      if GroupFrom(TopFn(t, root), atoms, Grouping([], [])).Some? {
        var g := SplitGroups(atoms, root);
        forall a | a in g.rootAtoms ensures AtomBelow(a, st.first) { assert Grouped(g, a); }
        forall h, a | h in g.groups && a in h.1 ensures AtomBelow(a, st.first) { assert InGroups(g.groups, a); assert Grouped(g, a); }
        LiftBelow(g.rootAtoms, st.first, NextBranch(st));
        GroupsClasses(g.groups, |atoms|, root, keep, st, g.rootAtoms, false);
      }
    }
  }

  ghost predicate GroupsInput(groups: seq<Group>, k: ClassId) {
    forall g :: g in groups ==> AtomsBelow(g.1, k)
  }

  lemma {:induction false} NarrowBelow(child: Var, group: Body, n: nat, root: Var, st: Namer)
    requires WfNamer(st) && Layered(st) && AtomsBelow(group, st.first) && |group| <= n
    ensures var (sub, st') := Narrow(child, group, n, root, st);
      Layered(st') && AtomsBelow(sub, NextBranch(st'))
    decreases n, 0, 0
  {
    LiftBelow(group, st.first, NextBranch(st));
    var edge, inner := EdgesFrom(group, root, child), Inner(group, root, child);
    if |CountedFrom(group, root)| > MAX_BODY_VARS && |edge| == 1 && !Mentions(inner, root) {
      BranchesWf(inner, child, {}, st);
      BranchesBelow(inner, child, {}, st);
    }
  }

  lemma NameBodyBelow(st: Namer, body: Body)
    requires WfNamer(st) && Layered(st) && AtomsBelow(body, NextBranch(st))
    ensures var (e, st') := NameBody(st, body); Layered(st') && e < NextBranch(st') && NextBranch(st) <= NextBranch(st')
  {
  }

  lemma {:induction false} GroupsClasses(groups: seq<Group>, n: nat, root: Var, keep: set<Var>, st: Namer, result: Body, any: bool)
    requires WfNamer(st) && Layered(st) && (forall g :: g in groups ==> |g.1| <= n)
    requires GroupsInput(groups, st.first) && AtomsBelow(result, NextBranch(st))
    ensures var (r, st') := NameGroups(groups, n, root, keep, st, result, any);
      Layered(st') && (r.Some? ==> AtomsBelow(r.value, NextBranch(st')))
    decreases n, 0, 3 + |groups|
  {
    if groups != [] {
      assert groups[0] in groups;
      if exists v :: v in keep && Mentions(groups[0].1, v) {
        LiftBelow(groups[0].1, st.first, NextBranch(st));
        GroupsClasses(groups[1..], n, root, keep, st, result + groups[0].1, any);
      } else {
        var (sub, st1) := Narrow(groups[0].0, groups[0].1, n, root, st);
        var (e, st2) := NameBody(st1, Renumber(sub, root));
        NarrowWf(groups[0].0, groups[0].1, n, root, st);
        NarrowBelow(groups[0].0, groups[0].1, n, root, st);
        RenumberBelow(sub, [root], NextBranch(st1));
        NameBodyWf(st1, Renumber(sub, root));
        NameBodyBelow(st1, Renumber(sub, root));
        LiftBelow(result, NextBranch(st), NextBranch(st2));
        GroupsClasses(groups[1..], n, root, keep, st2, result + [Class(e, root)], true);
      }
    }
  }

  // ----- reading the branch classes -----

  /** `I` with each branch class read as the elements its branch matches. */
  ghost function WithBranches<E(!new)>(I: Interp<E>, first: ClassId, named: seq<DlClause>): Interp<E>
    decreases |named|
  {
    if named == [] then I
    else
      var k := |named| - 1;
      var K := WithBranches(I, first, named[..k]);
      K.(cls := (c: ClassId, d: E) => if c == first + k then MatchFrom(K, named[k].body, X, d) else K.cls(c, d))
  }

  lemma {:induction false} WithBranchesAgree<E(!new)>(I: Interp<E>, first: ClassId, named: seq<DlClause>, k: nat)
    requires k <= |named|
    ensures Agree(WithBranches(I, first, named[..k]), WithBranches(I, first, named), first + k)
    decreases |named|
  {
    if k < |named| {
      var m := |named| - 1;
      WithBranchesAgree(I, first, named[..m], k);
      assert named[..m][..k] == named[..k];
    } else {
      assert named[..k] == named;
    }
  }

  lemma WithBranchesRead<E(!new)>(I: Interp<E>, st: Namer)
    requires WfNamer(st) && Layered(st)
    ensures var J := WithBranches(I, st.first, st.named);
      Enters(J, st.first, st.named) && Leaves(J, st.first, st.named) && Agree(I, J, st.first)
  {
    var J := WithBranches(I, st.first, st.named);
    WithBranchesAgree(I, st.first, st.named, 0);
    forall k, d | 0 <= k < |st.named| ensures J.cls(st.first + k, d) <==> MatchFrom(J, st.named[k].body, X, d) {
      BranchRead(I, st, k, d);
    }
  }

  lemma BranchRead<E(!new)>(I: Interp<E>, st: Namer, k: nat, d: E)
    requires WfNamer(st) && Layered(st) && k < |st.named|
    ensures var J := WithBranches(I, st.first, st.named);
      J.cls(st.first + k, d) <==> MatchFrom(J, st.named[k].body, X, d)
  {
    var J := WithBranches(I, st.first, st.named);
    var K1 := WithBranches(I, st.first, st.named[..k + 1]);
    var K := WithBranches(I, st.first, st.named[..k]);
    WithBranchesAgree(I, st.first, st.named, k + 1);
    WithBranchesAgree(I, st.first, st.named, k);
    assert st.named[..k + 1][..k] == st.named[..k];
    assert K1.cls(st.first + k, d) <==> MatchFrom(K, st.named[k].body, X, d);
    MatchAgree(K, J, st.named[k].body, st.first + k, d);
  }

  lemma MatchAgree<E(!new)>(K: Interp<E>, J: Interp<E>, body: Body, k: ClassId, d: E)
    requires Agree(K, J, k) && AtomsBelow(body, k)
    ensures MatchFrom(K, body, X, d) <==> MatchFrom(J, body, X, d)
  {
    forall env: Env<E> ensures BodyHolds(K, body, env) == BodyHolds(J, body, env) { BodyAgree(K, J, body, k, env); }
  }

  /** The named branch clauses hold iff every match enters its class. */
  lemma NamedHold<E(!new)>(J: Interp<E>, st: Namer)
    requires WfNamer(st)
    ensures AllHold(J, st.named) <==> Enters(J, st.first, st.named)
  {
    if AllHold(J, st.named) {
      forall k, d | 0 <= k < |st.named| && MatchFrom(J, st.named[k].body, X, d) ensures J.cls(st.first + k, d) {
        var env: Env<E> :| env(X) == d && BodyHolds(J, st.named[k].body, env);
        assert st.named[k] in st.named;
        assert HeadHolds(J, st.named[k].head, env);
      }
    }
    if Enters(J, st.first, st.named) {
      forall cl | cl in st.named ensures ClauseHolds(J, cl) {
        var k :| 0 <= k < |st.named| && st.named[k] == cl;
        forall env: Env<E> | BodyHolds(J, cl.body, env) ensures HeadHolds(J, cl.head, env) {
          assert MatchFrom(J, cl.body, X, env(X));
          assert J.cls(st.first + k, env(X));
          assert Class(st.first + k, X) in cl.head;
        }
      }
    }
  }

  // ----- clauses -----

  lemma HeadFrame<E(!new)>(J: Interp<E>, head: seq<Atom>, env: Env<E>, env': Env<E>)
    requires forall v :: v in HeadVars(head) ==> env(v) == env'(v)
    requires env(X) == env'(X)
    ensures HeadHolds(J, head, env) == HeadHolds(J, head, env')
  {
    forall a | a in head ensures AtomHolds(J, a, env) == AtomHolds(J, a, env') {
      forall v | v in AtomVars(a) ensures env(v) == env'(v) { if v != X { assert v in HeadVars(head); } }
      AtomFrame(J, a, env, env');
    }
  }

  lemma SplitClauseWf(cl: DlClause, st: Namer)
    requires WfNamer(st)
    ensures WfNamer(SplitClause(cl, st).1) && Extends(st, SplitClause(cl, st).1)
    ensures Layered(st) && ClauseBelow(cl, st.first) ==> Layered(SplitClause(cl, st).1)
  {
    if Splittable(cl) {
      BranchesWf(cl.body, X, HeadVars(cl.head), st);
      if Layered(st) && ClauseBelow(cl, st.first) { BranchesBelow(cl.body, X, HeadVars(cl.head), st); }
    }
  }

  /** The rewritten clause and its branches give the clause back. */
  lemma SplitClauseBack<E(!new)>(J: Interp<E>, cl: DlClause, st: Namer, named: seq<DlClause>)
    requires WfNamer(st) && SplitClause(cl, st).1.named <= named && Enters(J, st.first, named)
    requires ClauseHolds(J, SplitClause(cl, st).0)
    ensures ClauseHolds(J, cl)
  {
    if Splittable(cl) {
      var (body, st1) := NameBranches(cl.body, X, HeadVars(cl.head), st);
      if body.Some? {
        EntersPrefix(J, st.first, st1.named, named);
        forall env: Env<E> | BodyHolds(J, cl.body, env) ensures HeadHolds(J, cl.head, env) {
          BranchesForward(J, cl.body, X, HeadVars(cl.head), st, env);
        }
      }
    }
  }

  /** The clause gives the rewritten clause where branch classes hold matched elements only. */
  lemma SplitClauseForward<E(!new)>(J: Interp<E>, cl: DlClause, st: Namer, named: seq<DlClause>)
    requires WfNamer(st) && SplitClause(cl, st).1.named <= named && Leaves(J, st.first, named)
    requires ClauseHolds(J, cl)
    ensures ClauseHolds(J, SplitClause(cl, st).0)
  {
    if Splittable(cl) {
      var (body, st1) := NameBranches(cl.body, X, HeadVars(cl.head), st);
      if body.Some? {
        LeavesPrefix(J, st.first, st1.named, named);
        forall env: Env<E> | BodyHolds(J, body.value, env) ensures HeadHolds(J, cl.head, env) {
          var env' := BranchesBack(J, cl.body, X, HeadVars(cl.head), st, env);
          HeadFrame(J, cl.head, env, env');
        }
      }
    }
  }

  lemma {:induction false} SplitFromWf(clauses: seq<DlClause>, st: Namer, out: seq<DlClause>)
    requires WfNamer(st)
    ensures var (r, st') := SplitFrom(clauses, st, out);
      WfNamer(st') && Extends(st, st') && out <= r &&
      (Layered(st) && (forall cl :: cl in clauses ==> ClauseBelow(cl, st.first)) ==> Layered(st'))
    decreases clauses
  {
    if clauses != [] {
      var (cl, st1) := SplitClause(clauses[0], st);
      SplitClauseWf(clauses[0], st);
      SplitFromWf(clauses[1..], st1, out + [cl]);
    }
  }

  lemma {:induction false} SplitFromBack<E(!new)>(J: Interp<E>, clauses: seq<DlClause>, st: Namer, out: seq<DlClause>)
    requires WfNamer(st) && Enters(J, st.first, SplitFrom(clauses, st, out).1.named)
    requires AllHold(J, SplitFrom(clauses, st, out).0)
    ensures AllHold(J, clauses)
    decreases clauses
  {
    if clauses != [] {
      var (cl, st1) := SplitClause(clauses[0], st);
      SplitClauseWf(clauses[0], st);
      SplitFromWf(clauses[1..], st1, out + [cl]);
      SplitFromBack(J, clauses[1..], st1, out + [cl]);
      assert (out + [cl])[|out|] == cl;
      assert cl in SplitFrom(clauses, st, out).0;
      SplitClauseBack(J, clauses[0], st, SplitFrom(clauses, st, out).1.named);
      assert clauses == [clauses[0]] + clauses[1..];
    }
  }

  lemma {:induction false} SplitFromForward<E(!new)>(J: Interp<E>, clauses: seq<DlClause>, st: Namer, out: seq<DlClause>)
    requires WfNamer(st) && Leaves(J, st.first, SplitFrom(clauses, st, out).1.named)
    requires AllHold(J, clauses) && AllHold(J, out)
    ensures AllHold(J, SplitFrom(clauses, st, out).0)
    decreases clauses
  {
    if clauses != [] {
      var (cl, st1) := SplitClause(clauses[0], st);
      SplitClauseWf(clauses[0], st);
      SplitFromWf(clauses[1..], st1, out + [cl]);
      SplitClauseForward(J, clauses[0], st, SplitFrom(clauses, st, out).1.named);
      AllHoldSplit(J, out, [cl]);
      SplitFromForward(J, clauses[1..], st1, out + [cl]);
    }
  }

  /** Whatever satisfies the split clauses and their branches satisfies the clauses. */
  lemma DecomposeBack<E(!new)>(J: Interp<E>, clauses: seq<DlClause>, first: ClassId)
    requires AllHold(J, Decompose(clauses, first))
    ensures AllHold(J, clauses)
  {
    var (out, st) := SplitFrom(clauses, Namer(first, map[], []), []);
    SplitFromWf(clauses, Namer(first, map[], []), []);
    AllHoldSplit(J, out, st.named);
    NamedHold(J, st);
    SplitFromBack(J, clauses, Namer(first, map[], []), []);
  }

  /** The branch-naming reading of a model of the clauses. */
  ghost function Branched<E(!new)>(I: Interp<E>, clauses: seq<DlClause>, first: ClassId): Interp<E> {
    WithBranches(I, first, SplitFrom(clauses, Namer(first, map[], []), []).1.named)
  }

  ghost predicate ClausesBelow(clauses: seq<DlClause>, k: ClassId) {
    forall cl :: cl in clauses ==> ClauseBelow(cl, k)
  }

  /** A model of the clauses extends on the branch names to a model of the split clauses. */
  lemma DecomposeForward<E(!new)>(I: Interp<E>, clauses: seq<DlClause>, first: ClassId)
    requires ClausesBelow(clauses, first) && AllHold(I, clauses)
    ensures Agree(I, Branched(I, clauses, first), first)
    ensures AllHold(Branched(I, clauses, first), Decompose(clauses, first))
  {
    var (out, st) := SplitFrom(clauses, Namer(first, map[], []), []);
    var J := Branched(I, clauses, first);
    SplitFromWf(clauses, Namer(first, map[], []), []);
    WithBranchesRead(I, st);
    forall cl | cl in clauses ensures ClauseHolds(J, cl) { ClauseAgree(I, J, cl, first); }
    SplitFromForward(J, clauses, Namer(first, map[], []), []);
    NamedHold(J, st);
    AllHoldSplit(J, out, st.named);
  }

  /** Splitting is an exact conservative extension: an interpretation satisfies the clauses iff
      some interpretation that differs on the fresh branch names only satisfies the result. */
  lemma DecomposeExact<E(!new)>(I: Interp<E>, clauses: seq<DlClause>, first: ClassId)
    requires ClausesBelow(clauses, first)
    ensures AllHold(I, clauses) <==> exists J: Interp<E> :: Agree(I, J, first) && AllHold(J, Decompose(clauses, first))
  {
    if AllHold(I, clauses) { DecomposeForward(I, clauses, first); }
    if J: Interp<E> :| Agree(I, J, first) && AllHold(J, Decompose(clauses, first)) {
      DecomposeBack(J, clauses, first);
      forall cl | cl in clauses ensures ClauseHolds(I, cl) { ClauseAgree(I, J, cl, first); }
    }
  }
}
