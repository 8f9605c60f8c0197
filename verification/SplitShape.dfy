/** What splitting a clause set leaves: which clauses change, and what the branch clauses are. */
module SplitShape {
  import opened Dl
  import opened Clauses
  import opened Branches
  import opened BranchMeaning
  import opened BranchBound
  import opened BranchNames

  // ----- no branch is named twice -----

  /** Every named body is remembered and in canonical form, and no two are equal. */
  ghost predicate NamedOnce(st: Namer) {
    && (forall k :: 0 <= k < |st.named| ==> st.named[k].body in st.memo && Canonical(st.named[k].body))
    && forall j, k :: 0 <= j < k < |st.named| ==> st.named[j].body != st.named[k].body
  }

  lemma {:induction false} BranchesOnce(atoms: Body, root: Var, keep: set<Var>, st: Namer)
    requires NamedOnce(st)
    ensures NamedOnce(NameBranches(atoms, root, keep, st).1)
    decreases |atoms|, 1, 0
  {
    var t := TreeOf(atoms, root);
    if !exists i :: 0 <= i < |atoms| && atoms[i].Edge? && !t.placed[i] {
      var g := GroupFrom(TopFn(t, root), atoms, Grouping([], []));
      if g.Some? {
        var parts := SplitGroups(atoms, root);
        GroupsOnce(g.value.groups, |atoms|, root, keep, st, g.value.rootAtoms, false);
      }
    }
  }

  lemma {:induction false} NarrowOnce(child: Var, group: Body, n: nat, root: Var, st: Namer)
    requires NamedOnce(st) && |group| <= n
    ensures NamedOnce(Narrow(child, group, n, root, st).1)
    decreases n, 0, 0
  {
    var edge, inner := EdgesFrom(group, root, child), Inner(group, root, child);
    if |CountedFrom(group, root)| > MAX_BODY_VARS && |edge| == 1 && !Mentions(inner, root) {
      BranchesOnce(inner, child, {}, st);
    }
  }

  lemma {:induction false} GroupsOnce(groups: seq<Group>, n: nat, root: Var, keep: set<Var>, st: Namer, result: Body, any: bool)
    requires NamedOnce(st) && PlainGroups(groups) && forall g :: g in groups ==> |g.1| <= n
    ensures NamedOnce(NameGroups(groups, n, root, keep, st, result, any).1)
    decreases n, 0, 1 + |groups|
  {
    if groups != [] {
      if exists v :: v in keep && Mentions(groups[0].1, v) {
        GroupsOnce(groups[1..], n, root, keep, st, result + groups[0].1, any);
      } else {
        var (sub, st1) := Narrow(groups[0].0, groups[0].1, n, root, st);
        var (e, st2) := NameBody(st1, Renumber(sub, root));
        assert Plain(groups[0].1);
        NarrowOnce(groups[0].0, groups[0].1, n, root, st);
        NarrowPlain(groups[0].0, groups[0].1, n, root, st);
        RenumberTwice(sub, root);
        GroupsOnce(groups[1..], n, root, keep, st2, result + [Class(e, root)], true);
      }
    }
  }

  lemma {:induction false} SplitFromOnce(clauses: seq<DlClause>, st: Namer, out: seq<DlClause>)
    requires NamedOnce(st)
    ensures NamedOnce(SplitFrom(clauses, st, out).1)
    decreases clauses
  {
    if clauses != [] {
      var cl := clauses[0];
      if Splittable(cl) { BranchesOnce(cl.body, X, HeadVars(cl.head), st); }
      SplitFromOnce(clauses[1..], SplitClause(cl, st).1, out + [SplitClause(cl, st).0]);
    }
  }

  // ----- clause by clause -----

  /** Over 8 variables, with class and edge atoms only. */
  ghost predicate Wide(cl: DlClause) {
    |CountedVars(cl.body)| > 8 && forall a :: a in cl.body ==> a.Class? || a.Edge?
  }

  ghost predicate Treelike(cl: DlClause) {
    exists depth :: LoopTree(cl.body, X, depth)
  }

  ghost predicate SomeNameable(cl: DlClause) {
    exists c :: Nameable(cl.body, X, HeadVars(cl.head), c)
  }

  /** What becomes of one clause: one that is not wide stays; a wide tree-shaped one is rewritten iff a
      child of `X` has no head variable below it, and then keeps only what has one. */
  ghost predicate SplitTo(cl: DlClause, r: DlClause) {
    && r.head == cl.head && (!Wide(cl) ==> r == cl)
    && (Wide(cl) && Treelike(cl) ==> if SomeNameable(cl) then Remains(cl.body, X, HeadVars(cl.head), r.body) else r == cl)
  }

  lemma ClauseSplitTo(cl: DlClause, st: Namer)
    requires WfNamer(st)
    ensures (Wide(cl) ==> Treelike(cl)) ==> NewWithinCap(st, SplitClause(cl, st).1)
    ensures var (r, st') := SplitClause(cl, st); SplitTo(cl, r) && WfNamer(st') && Extends(st, st')
  {
    if Splittable(cl) {
      BranchesWf(cl.body, X, HeadVars(cl.head), st);
      if Treelike(cl) {
        var depth: Var -> nat :| LoopTree(cl.body, X, depth);
        ClauseSplits(cl, depth, st);
      }
    }
  }

  ghost predicate WideTrees(clauses: seq<DlClause>) {
    forall cl :: cl in clauses && Wide(cl) ==> Treelike(cl)
  }

  ghost predicate AllSplitTo(clauses: seq<DlClause>, out: seq<DlClause>) {
    |out| == |clauses| && forall k :: 0 <= k < |clauses| ==> SplitTo(clauses[k], out[k])
  }

  lemma {:induction false} SplitFromLength(clauses: seq<DlClause>, st: Namer, out: seq<DlClause>)
    ensures |SplitFrom(clauses, st, out).0| == |out| + |clauses| && out <= SplitFrom(clauses, st, out).0
    decreases clauses
  {
    if clauses != [] {
      var (cl, st1) := SplitClause(clauses[0], st);
      SplitFromLength(clauses[1..], st1, out + [cl]);
    }
  }

  lemma ClauseKeepsWf(cl: DlClause, st: Namer)
    requires WfNamer(st)
    ensures WfNamer(SplitClause(cl, st).1)
  {
    if Splittable(cl) { BranchesWf(cl.body, X, HeadVars(cl.head), st); }
  }

  /** The clause at `k` is split from its place with the names that were there by then. */
  lemma {:induction false} SplitAt(clauses: seq<DlClause>, st: Namer, out: seq<DlClause>, k: nat) returns (before: Namer)
    requires WfNamer(st) && k < |clauses|
    ensures WfNamer(before) && |out| + k < |SplitFrom(clauses, st, out).0|
    ensures SplitFrom(clauses, st, out).0[|out| + k] == SplitClause(clauses[k], before).0
    decreases clauses
  {
    var (cl, st1) := SplitClause(clauses[0], st);
    assert SplitFrom(clauses, st, out) == SplitFrom(clauses[1..], st1, out + [cl]);
    if k == 0 {
      before := st;
      SplitFromLength(clauses[1..], st1, out + [cl]);
      assert (out + [cl])[|out|] == cl;
    } else {
      ClauseKeepsWf(clauses[0], st);
      before := SplitAt(clauses[1..], st1, out + [cl], k - 1);
      assert clauses[1..][k - 1] == clauses[k] && |out + [cl]| + (k - 1) == |out| + k;
    }
  }

  /** What naming keeps, and what it adds when the wide clauses are trees. */
  ghost predicate StillNames(st: Namer, st': Namer, trees: bool) {
    WfNamer(st') && Extends(st, st') && (trees ==> NewWithinCap(st, st'))
  }

  lemma StillNamesThen(st: Namer, st1: Namer, st2: Namer, trees: bool)
    requires StillNames(st, st1, trees) && StillNames(st1, st2, trees)
    ensures StillNames(st, st2, trees)
  {
    ExtendsTrans(st, st1, st2);
    if trees { CapThen(st, st1, st2); }
  }

  lemma OneSplitTo(cl: DlClause, st: Namer, trees: bool)
    requires WfNamer(st) && (trees ==> WideTrees([cl]))
    ensures SplitTo(cl, SplitClause(cl, st).0) && StillNames(st, SplitClause(cl, st).1, trees)
  {
    assert cl in [cl];
    ClauseSplitTo(cl, st);
  }

  lemma TreesApart(clauses: seq<DlClause>)
    requires clauses != [] && WideTrees(clauses)
    ensures WideTrees([clauses[0]]) && WideTrees(clauses[1..])
  {
  }

  lemma {:induction false} SplitFromShape(clauses: seq<DlClause>, st: Namer, out: seq<DlClause>, trees: bool)
    requires WfNamer(st) && (trees ==> WideTrees(clauses))
    ensures StillNames(st, SplitFrom(clauses, st, out).1, trees)
    decreases clauses
  {
    if clauses != [] {
      var (cl, st1) := SplitClause(clauses[0], st);
      if trees { TreesApart(clauses); }
      OneSplitTo(clauses[0], st, trees);
      SplitFromShape(clauses[1..], st1, out + [cl], trees);
      StillNamesThen(st, st1, SplitFrom(clauses[1..], st1, out + [cl]).1, trees);
    }
  }

  /** The branch clauses among the first and last parts of a result. */
  ghost predicate BranchClauses(named: seq<DlClause>, first: ClassId) {
    && (forall k :: 0 <= k < |named| ==> named[k].head == [Class(first + k, X)])
    && forall j, k, f :: 0 <= j < k < |named| ==> !SameUpTo(f, named[j].body, X, named[k].body, X)
  }

  ghost predicate WithinCap(clauses: seq<DlClause>) {
    forall cl :: cl in clauses ==> |CountedVars(cl.body)| <= 8
  }

  lemma EachSplitTo(clauses: seq<DlClause>, st: Namer)
    requires WfNamer(st)
    ensures AllSplitTo(clauses, SplitFrom(clauses, st, []).0)
  {
    var out := SplitFrom(clauses, st, []).0;
    SplitFromLength(clauses, st, []);
    forall k | 0 <= k < |clauses| ensures SplitTo(clauses[k], out[k]) {
      var before := SplitAt(clauses, st, [], k);
      ClauseSplitTo(clauses[k], before);
    }
  }

  lemma NamesApart(st: Namer)
    requires WfNamer(st) && NamedOnce(st)
    ensures BranchClauses(st.named, st.first)
  {
    forall j, k, f | 0 <= j < k < |st.named| ensures !SameUpTo(f, st.named[j].body, X, st.named[k].body, X) {
      CanonicalApart(st.named[j].body, st.named[k].body, f);
    }
  }

  lemma CapForAll(st: Namer, st': Namer)
    requires NewWithinCap(st, st') && st.named == []
    ensures WithinCap(st'.named)
  {
    forall cl | cl in st'.named ensures |CountedVars(cl.body)| <= 8 { var k :| 0 <= k < |st'.named| && st'.named[k] == cl; }
  }

  /** The whole pass: each clause in its place, then the named branches in the order of their classes,
      no two the same up to renaming, and all within the cap when the wide clauses are tree-shaped. */
  lemma DecomposeShape(clauses: seq<DlClause>, first: ClassId) returns (out: seq<DlClause>, named: seq<DlClause>)
    ensures Decompose(clauses, first) == out + named
    ensures AllSplitTo(clauses, out) && BranchClauses(named, first) && (WideTrees(clauses) ==> WithinCap(named))
  {
    var st := Namer(first, map[], []);
    var st' := SplitFrom(clauses, st, []).1;
    out, named := SplitFrom(clauses, st, []).0, st'.named;
    EachSplitTo(clauses, st);
    SplitFromOnce(clauses, st, []);
    SplitFromShape(clauses, st, [], WideTrees(clauses));
    NamesApart(st');
    if WideTrees(clauses) { CapForAll(st, st'); }
  }
}
