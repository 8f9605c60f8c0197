/** The shapes of emitted clauses survive contraction and the counted self-loops, so that splitting only
    ever meets trees. */
module FinalShape {
  import opened Dl
  import opened Clauses
  import opened Clausify
  import opened Antecedents
  import opened Branches
  import opened BodyShapes
  import opened Faithfulness
  import opened Reflexive
  import opened ReflexiveMeaning
  import opened SplitShape

  // ----- contraction of a tree -----

  lemma {:induction false} EnteringImage(xs: Body, ys: Body, v: Var)
    requires |xs| == |ys| && forall k :: 0 <= k < |xs| && StepsTo(ys[k], v) ==> StepsTo(xs[k], v)
    ensures Entering(ys, v) <= Entering(xs, v)
    decreases xs
  {
    if xs != [] { EnteringImage(xs[1..], ys[1..], v); }
  }

  lemma EnteringRest(body: Body, idx: nat, v: Var)
    requires idx < |body|
    ensures Entering(body, v) == Entering(body[..idx] + body[idx + 1..], v) + if StepsTo(body[idx], v) then 1 else 0
  {
    var one := [body[idx]];
    assert one[1..] == [];
    assert body == body[..idx] + (one + body[idx + 1..]);
    EnteringSplit(body[..idx], one + body[idx + 1..], v);
    EnteringSplit(one, body[idx + 1..], v);
    EnteringSplit(body[..idx], body[idx + 1..], v);
  }

  /** Only the contracted edge enters the end that goes. */
  lemma OthersMiss(body: Body, idx: nat, a: Atom)
    requires LoopTree(body, X, Identity) && idx < |body| && body[idx].Edge? && body[idx].u != body[idx].w
    requires a in body[..idx] + body[idx + 1..]
    ensures !StepsTo(a, body[idx].w)
  {
    var rest := body[..idx] + body[idx + 1..];
    EnteringRest(body, idx, body[idx].w);
    EnteringNone(rest, body[idx].w);
    assert !Entered(rest, body[idx].w);
  }

  /** What replacing `drop`, a variable below `keep`, does to an atom no edge into `drop` is among. */
  lemma SubSteps(keep: Var, drop: Var, a: Atom, v: Var)
    requires keep < drop && a.Edge? && (a.u != a.w ==> a.u < a.w) && !StepsTo(a, drop)
    ensures StepsTo(SubAtom(keep, drop, a), v) <==> StepsTo(a, v)
    ensures SubAtom(keep, drop, a).u == SubAtom(keep, drop, a).w || SubAtom(keep, drop, a).u < SubAtom(keep, drop, a).w
  {
  }

  /** The other atoms of a tree, with the end of a contracted edge replaced. */
  ghost predicate AfterContraction(body: Body, idx: nat, keep: Var, drop: Var, r: Body)
    requires idx < |body|
  {
    && r == SubAtoms(keep, drop, body[..idx] + body[idx + 1..])
    && LoopTree(body, X, Identity) && body[idx].Edge? && keep == body[idx].u && drop == body[idx].w && keep < drop
  }

  /** Every variable but the one that goes is still entered. */
  lemma StillEntered(body: Body, idx: nat, keep: Var, drop: Var, r: Body, v: Var)
    requires idx < |body| && AfterContraction(body, idx, keep, drop, r) && On(body, v) && v != drop && v != X
    ensures Entered(r, v)
  {
    assert Entered(body, v);
    var e :| e in body && StepsTo(e, v);
    var rest := body[..idx] + body[idx + 1..];
    assert e in rest by {
      var k :| 0 <= k < |body| && body[k] == e;
      assert k != idx;
      assert k < idx ==> rest[k] == e;
      assert k > idx ==> rest[k - 1] == e;
    }
    OthersMiss(body, idx, e);
    SubSteps(keep, drop, e, v);
    SubTarget(keep, drop, rest, e);
  }

  lemma InRest(body: Body, idx: nat, keep: Var, drop: Var, r: Body, a: Atom) returns (b: Atom)
    requires idx < |body| && AfterContraction(body, idx, keep, drop, r) && a in r
    ensures b in body && a == SubAtom(keep, drop, b) && (b.Class? || b.Edge?) && !StepsTo(b, drop)
  {
    b := SubSource(keep, drop, body[..idx] + body[idx + 1..], a);
    assert b in body;
    OthersMiss(body, idx, b);
  }

  lemma ContractedEntering(body: Body, idx: nat, keep: Var, drop: Var, r: Body, v: Var)
    requires idx < |body| && AfterContraction(body, idx, keep, drop, r)
    ensures Entering(r, v) <= 1
  {
    var rest := body[..idx] + body[idx + 1..];
    forall k | 0 <= k < |rest| && StepsTo(r[k], v) ensures StepsTo(rest[k], v) {
      assert rest[k] in rest && rest[k] in body;
      OthersMiss(body, idx, rest[k]);
      if rest[k].Edge? { SubSteps(keep, drop, rest[k], v); }
    }
    EnteringImage(rest, r, v);
    EnteringRest(body, idx, v);
  }

  lemma ContractedTree(body: Body, idx: nat, keep: Var, drop: Var, r: Body)
    requires idx < |body| && AfterContraction(body, idx, keep, drop, r)
    ensures LoopTree(r, X, Identity)
    ensures forall v :: On(r, v) <==> On(body, v) && v != drop
  {
    forall a | a in r ensures (a.Class? || a.Edge?) && (a.Edge? && a.u != a.w ==> a.u < a.w) {
      var b := InRest(body, idx, keep, drop, r, a);
      if b.Edge? { SubSteps(keep, drop, b, X); }
    }
    forall v: Var ensures Entering(r, v) <= 1 { ContractedEntering(body, idx, keep, drop, r, v); }
    forall v ensures On(r, v) <==> On(body, v) && v != drop { ContractedOn(body, idx, keep, drop, r, v); }
    forall a, v | a in r && v in AtomVars(a) && v != X ensures Entered(r, v) {
      assert On(r, v);
      StillEntered(body, idx, keep, drop, r, v);
    }
  }

  lemma ContractedOn(body: Body, idx: nat, keep: Var, drop: Var, r: Body, v: Var)
    requires idx < |body| && AfterContraction(body, idx, keep, drop, r)
    ensures On(r, v) <==> On(body, v) && v != drop
  {
    if v != X {
      if On(r, v) {
        var a :| a in r && v in AtomVars(a);
        var b := InRest(body, idx, keep, drop, r, a);
        assert v in AtomVars(b) || v == keep;
        assert body[idx] in body && keep in AtomVars(body[idx]);
      }
      if On(body, v) && v != drop { StillEntered(body, idx, keep, drop, r, v); }
    }
  }

  /** Dropping a self-loop leaves the tree. */
  lemma LoopDropped(body: Body, idx: nat)
    requires LoopTree(body, X, Identity) && idx < |body| && body[idx].Edge? && body[idx].u == body[idx].w
    ensures var rest := body[..idx] + body[idx + 1..];
      LoopTree(rest, X, Identity) && forall v :: On(rest, v) <==> On(body, v)
  {
    var rest := body[..idx] + body[idx + 1..];
    forall a ensures a in body <==> a == body[idx] || a in rest { WithoutSplit(body, idx); }
    forall v: Var ensures Entering(rest, v) <= 1 { EnteringRest(body, idx, v); }
    forall v | On(body, v) && v != X ensures Entered(rest, v) {
      assert Entered(body, v);
      var e :| e in body && StepsTo(e, v);
      assert e in rest;
    }
  }

  lemma SameAtoms(v: Var, atoms: seq<Atom>)
    ensures SubAtoms(v, v, atoms) == atoms
  {
    forall k | 0 <= k < |atoms| ensures SubAtom(v, v, atoms[k]) == atoms[k] {}
  }

  /** Contraction keeps a tree a tree, with its head on it. */
  lemma ContractTree(cl: DlClause, nv: Var, idx: nat)
    requires TreeClause(cl, nv) && idx < |cl.body| && cl.body[idx].Edge?
    ensures TreeClause(Contract(cl, idx), nv)
  {
    var keep, drop, r := Kept(cl.body[idx]), Dropped(cl.body[idx]), Contract(cl, idx);
    assert cl.body[idx] in cl.body;
    if cl.body[idx].u == cl.body[idx].w {
      LoopDropped(cl.body, idx);
      SameAtoms(keep, cl.body[..idx] + cl.body[idx + 1..]);
      SameAtoms(keep, cl.head);
    } else {
      ContractedTree(cl.body, idx, keep, drop, r.body);
      forall a, v | a in r.head && v in AtomVars(a) ensures On(r.body, v) {
        var b := SubSource(keep, drop, cl.head, a);
        assert keep in AtomVars(cl.body[idx]);
        assert On(cl.body, keep);
        assert v in AtomVars(b) || v == keep;
        SubShape(keep, drop, b);
      }
    }
  }

  lemma ContractSmall(cl: DlClause, n: nat, idx: nat)
    requires SmallClause(cl, n) && idx < |cl.body| && cl.body[idx].Edge?
    ensures SmallClause(Contract(cl, idx), n)
  {
    var keep, drop, r := Kept(cl.body[idx]), Dropped(cl.body[idx]), Contract(cl, idx);
    var rest := cl.body[..idx] + cl.body[idx + 1..];
    assert cl.body[idx] in cl.body && keep in AtomVars(cl.body[idx]);
    forall a | a in r.body ensures (a.Class? || a.Edge?) && (a.Edge? ==> AtomVars(a) <= CountedVars(cl.body)) {
      var b := SubSource(keep, drop, rest, a);
      assert b in cl.body;
      forall v | a.Edge? && v in AtomVars(a) ensures v in CountedVars(cl.body) { assert v in AtomVars(b) || v == keep; }
    }
    SubsetSize(CountedVars(r.body), CountedVars(cl.body));
  }

  lemma ContractShaped(cl: DlClause, idx: nat)
    requires Shaped(cl) && idx < |cl.body| && cl.body[idx].Edge?
    ensures Shaped(Contract(cl, idx))
  {
    if nv: Var {:trigger TreeClause(cl, nv)} :| TreeClause(cl, nv) {
      ContractTree(cl, nv, idx);
    } else {
      var n: nat {:trigger SmallClause(cl, n)} :| n <= 2 && SmallClause(cl, n);
      ContractSmall(cl, n, idx);
    }
  }

  // ----- the passes -----

  lemma ShapedPlain(clauses: seq<DlClause>)
    requires AllShaped(clauses)
    ensures PlainBodies(clauses)
  {
    forall cl, a | cl in clauses && a in cl.body ensures a.Class? || a.Edge? {
      assert Shaped(cl);
      if nv: Var {:trigger TreeClause(cl, nv)} :| TreeClause(cl, nv) {
        assert LoopTree(cl.body, X, Identity);
      }
    }
  }

  lemma ShapedSnoc(out: seq<DlClause>, m: nat)
    requires |out| == m + 1 && AllShaped(out[..m]) && Shaped(out[m])
    ensures AllShaped(out)
  {
    assert out == out[..m] + [out[m]];
  }

  lemma {:induction false} DerivedShaped(refl: set<RoleId>, n: nat, out: seq<DlClause>)
    requires n <= |out| && Derived(refl, n, out) && AllShaped(out[..n])
    ensures AllShaped(out)
    decreases |out|
  {
    if |out| == n {
      assert out[..n] == out;
    } else {
      var src, idx := LastDerived(refl, n, out);
      DerivedShaped(refl, n, out[..|out| - 1]);
      ContractShaped(src, idx);
      ShapedSnoc(out, |out| - 1);
    }
  }

  /** A counted self-loop hangs a new variable below the bounded one. */
  lemma LoopShaped(refl: set<RoleId>, clauses: seq<DlClause>, loop: DlClause)
    requires AllShaped(clauses) && IsLoopOf(refl, clauses, loop)
    ensures Shaped(loop)
  {
    var cl, a :| cl in clauses && a in cl.head && a.AtMost? && loop == CountedLoop(cl, a);
    assert Shaped(cl);
    var nv: Var {:trigger TreeClause(cl, nv)} :| TreeClause(cl, nv);
    LoopTreeClause(cl, a, nv);
  }

  lemma LoopTreeClause(cl: DlClause, a: Atom, nv: Var)
    requires TreeClause(cl, nv) && a in cl.head && a.AtMost?
    ensures Shaped(CountedLoop(cl, a))
  {
    var m := MaxVar(cl.body + cl.head);
    var edge := Edge(a.role, a.v, m);
    assert a.v in AtomVars(a) && a in cl.body + cl.head;
    forall v: Var | On(cl.body, v) ensures v < m { if v != X { var b :| b in cl.body && v in AtomVars(b); assert b in cl.body + cl.head; } }
    assert Rooted(cl.body, m);
    RootedLater(cl.body, m, m + 1);
    GraftRooted(cl.body, edge, m + 1);
    assert TreeClause(CountedLoop(cl, a), m + 1);
  }

  lemma ShapedWide(cl: DlClause)
    requires Shaped(cl) && Wide(cl)
    ensures Treelike(cl)
  {
    var nv: Var {:trigger TreeClause(cl, nv)} :| TreeClause(cl, nv);
    assert LoopTree(cl.body, X, Identity);
  }

  /** Every wide clause that reaches splitting is a tree. */
  lemma WideAreTrees(cfg: Config, axioms: seq<Axiom>, refl: set<RoleId>, out: seq<DlClause>, loops: seq<DlClause>)
    requires var clauses := ClausifyAll(cfg, START, axioms).clauses; clauses <= out && Derived(refl, |clauses|, out)
    requires forall loop :: loop in loops ==> IsLoopOf(refl, out, loop)
    ensures WideTrees(out + loops)
  {
    RunShape(cfg, START, axioms);
    DerivedShaped(refl, |ClausifyAll(cfg, START, axioms).clauses|, out);
    forall cl | cl in out + loops && Wide(cl) ensures Treelike(cl) {
      if cl !in out { LoopShaped(refl, out, cl); }
      ShapedWide(cl);
    }
  }
}
