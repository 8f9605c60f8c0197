/** The rewriting of declared inverse roles. */
module InverseCanon {
  import opened Dl
  import opened Clausify

  /** Whether the declaration `r`, `s` adds the rewriting of `s` to `r⁻`. */
  predicate Adopted(m: map<RoleId, Role>, r: Role, s: Role) {
    r.Named? && s.Named? && r.id != s.id && r.id !in m && s.id !in m
  }

  function CanonFrom(m: map<RoleId, Role>, axioms: seq<Axiom>): map<RoleId, Role>
    decreases axioms
  {
    if axioms == [] then m
    else match axioms[0]
      case InverseProperties(r, s) =>
        CanonFrom(if Adopted(m, r, s) then m[s.id := r.Flip()] else m, axioms[1..])
      case _ => CanonFrom(m, axioms[1..])
  }

  /** First declaration wins; a self-inverse declaration is left to the role hierarchy. */
  method BuildInverseCanon(axioms: seq<Axiom>) returns (m: map<RoleId, Role>)
    ensures m == CanonFrom(map[], axioms)
  {
    m := map[];
    for k := 0 to |axioms|
      invariant CanonFrom(map[], axioms) == CanonFrom(m, axioms[k..])
    {
      if axioms[k].InverseProperties? {
        var r, s := axioms[k].left, axioms[k].right;
        if r.Inverse? || s.Inverse? {
        } else if r.id == s.id {
        } else if r.id in m || s.id in m {
        } else {
          m := m[s.id := r.Flip()];
        }
      }
    }
  }

  /** Every entry rewrites to the inverse of a role some axiom declares inverse to it. */
  ghost predicate Declared(m: map<RoleId, Role>, axioms: seq<Axiom>) {
    forall s :: s in m ==> m[s].Inverse? && InverseProperties(Named(m[s].id), Named(s)) in axioms
  }

  /** `order` lists the rewritten roles so that no entry points back at an earlier one or itself:
      a chain of rewritings only moves forward, so the map has no cycle. */
  ghost predicate Acyclic(m: map<RoleId, Role>, order: seq<RoleId>) {
    && (forall s :: s in m <==> s in order)
    && (forall i, j :: 0 <= i < j < |order| ==> order[i] != order[j])
    && (forall i, j :: 0 <= i <= j < |order| && order[j] in m ==> m[order[j]].id != order[i])
  }

  lemma {:induction false} CanonInvariant(m: map<RoleId, Role>, order: seq<RoleId>, axioms: seq<Axiom>, all: seq<Axiom>)
    returns (order': seq<RoleId>)
    requires Declared(m, all) && Acyclic(m, order) && forall ax :: ax in axioms ==> ax in all
    ensures Declared(CanonFrom(m, axioms), all) && Acyclic(CanonFrom(m, axioms), order')
    decreases axioms
  {
    if axioms == [] {
      order' := order;
    } else {
      var ax := axioms[0];
      if ax.InverseProperties? && Adopted(m, ax.left, ax.right) {
        assert ax == InverseProperties(Named(ax.left.id), Named(ax.right.id));
        order' := CanonInvariant(m[ax.right.id := ax.left.Flip()], order + [ax.right.id], axioms[1..], all);
      } else {
        order' := CanonInvariant(m, order, axioms[1..], all);
      }
    }
  }

  /** The rewriting map is acyclic, whatever the declarations. */
  lemma CanonAcyclic(axioms: seq<Axiom>) returns (order: seq<RoleId>)
    ensures Acyclic(CanonFrom(map[], axioms), order) && Declared(CanonFrom(map[], axioms), axioms)
  {
    order := CanonInvariant(map[], [], axioms, axioms);
  }

  /** No declaration between two different named roles goes unused: one of the two is rewritten. */
  lemma CanonCovers(axioms: seq<Axiom>, r: RoleId, s: RoleId)
    requires InverseProperties(Named(r), Named(s)) in axioms && r != s
    ensures var m := CanonFrom(map[], axioms); r in m || s in m
  {
    CanonCoversFrom(map[], axioms, r, s);
  }

  lemma {:induction false} CanonCoversFrom(m: map<RoleId, Role>, axioms: seq<Axiom>, r: RoleId, s: RoleId)
    ensures m.Keys <= CanonFrom(m, axioms).Keys
    ensures r != s && InverseProperties(Named(r), Named(s)) in axioms ==> r in CanonFrom(m, axioms) || s in CanonFrom(m, axioms)
    decreases axioms
  {
    if axioms != [] {
      var ax := axioms[0];
      assert axioms == [ax] + axioms[1..];
      var m1 := if ax.InverseProperties? && Adopted(m, ax.left, ax.right) then m[ax.right.id := ax.left.Flip()] else m;
      CanonCoversFrom(m1, axioms[1..], r, s);
    }
  }

  /** In every model of the declarations a role and its rewriting denote the same relation. */
  lemma CanonDenotes<E(!new)>(I: Interp<E>, axioms: seq<Axiom>, r: Role, x: E, y: E)
    requires Models(I, axioms)
    ensures Rel(I, Canon(CanonFrom(map[], axioms), r), x, y) == Rel(I, r, x, y)
  {
    var m := CanonFrom(map[], axioms);
    var order := CanonAcyclic(axioms);
    if r.id in m {
      assert Holds(I, InverseProperties(Named(m[r.id].id), Named(r.id)));
      assert Rel(I, Named(m[r.id].id), y, x) <==> Rel(I, Named(r.id), x, y);
      assert Rel(I, Named(m[r.id].id), x, y) <==> Rel(I, Named(r.id), y, x);
    }
  }

  /** No rewritten role is rewritten to a rewritten role. */
  ghost predicate Unchained(m: map<RoleId, Role>) {
    forall s :: s in m ==> m[s].id !in m
  }

  /** Declaration `k` is adopted although its right role is what some role is rewritten to already:
      the look at value bases that the source mentions and does not take would refuse it. */
  ghost predicate ChainsAt(axioms: seq<Axiom>, k: nat)
    requires k < |axioms|
  {
    axioms[k].InverseProperties? &&
    var m, ax := CanonFrom(map[], axioms[..k]), axioms[k];
    Adopted(m, ax.left, ax.right) && exists t :: t in m && m[t].id == ax.right.id
  }

  ghost predicate NeverChains(axioms: seq<Axiom>) {
    forall k: nat :: k < |axioms| ==> !ChainsAt(axioms, k)
  }

  lemma {:induction false} CanonSnoc(m: map<RoleId, Role>, axioms: seq<Axiom>, ax: Axiom)
    ensures CanonFrom(m, axioms + [ax]) == CanonFrom(CanonFrom(m, axioms), [ax])
    decreases axioms
  {
    if axioms == [] {
      assert axioms + [ax] == [ax];
    } else {
      var first := axioms[0];
      assert (axioms + [ax])[1..] == axioms[1..] + [ax];
      var m1 := if first.InverseProperties? && Adopted(m, first.left, first.right) then m[first.right.id := first.left.Flip()] else m;
      CanonSnoc(m1, axioms[1..], ax);
    }
  }

  /** No rewriting is chained iff no declaration is adopted over a value base. */
  lemma {:induction false} UnchainedIff(axioms: seq<Axiom>)
    ensures Unchained(CanonFrom(map[], axioms)) <==> NeverChains(axioms)
    decreases |axioms|
  {
    if axioms != [] {
      var n := |axioms| - 1;
      var front, ax := axioms[..n], axioms[n];
      assert axioms == front + [ax];
      UnchainedIff(front);
      CanonSnoc(map[], front, ax);
      forall k: nat | k < n ensures ChainsAt(axioms, k) == ChainsAt(front, k) { assert axioms[..k] == front[..k]; }
      ChainStep(front, ax);
      assert NeverChains(axioms) <==> NeverChains(front) && !ChainsAt(axioms, n);
    }
  }

  lemma ChainStep(front: seq<Axiom>, ax: Axiom)
    ensures Unchained(CanonFrom(map[], front + [ax])) <==>
      Unchained(CanonFrom(map[], front)) && !ChainsAt(front + [ax], |front|)
  {
    var m := CanonFrom(map[], front);
    CanonSnoc(map[], front, ax);
    assert (front + [ax])[..|front|] == front && [ax][1..] == [];
    if ax.InverseProperties? && Adopted(m, ax.left, ax.right) {
      var s := ax.right.id;
      assert CanonFrom(m, [ax]) == m[s := ax.left.Flip()];
      assert m[s := ax.left.Flip()][s].id != s;
      if Unchained(m[s := ax.left.Flip()]) {
        forall t | t in m ensures m[t].id !in m && m[t].id != s { assert m[s := ax.left.Flip()][t] == m[t]; }
      }
    } else {
      assert CanonFrom(m, [ax]) == m;
    }
  }

  /** One rewriting settles every role iff no declaration is adopted over a value base. */
  lemma CanonIdempotent(axioms: seq<Axiom>)
    ensures var m := CanonFrom(map[], axioms);
      (forall r :: Canon(m, Canon(m, r)) == Canon(m, r)) <==> NeverChains(axioms)
  {
    var m := CanonFrom(map[], axioms);
    UnchainedIff(axioms);
    var order := CanonAcyclic(axioms);
    if forall r :: Canon(m, Canon(m, r)) == Canon(m, r) {
      forall s | s in m ensures m[s].id !in m {
        assert Canon(m, Canon(m, Named(s))) == Canon(m, Named(s));
        assert forall t :: t in m ==> m[t].id != t by {
          forall t | t in m ensures m[t].id != t { var j :| 0 <= j < |order| && order[j] == t; }
        }
      }
    }
  }

  /** A chain the map does not avoid: `q`, `r` after `r`, `s` rewrites `r` to `q⁻` and `s` to `r⁻`. */
  lemma ChainedExample(q: RoleId, r: RoleId, s: RoleId)
    requires q != r && r != s && q != s
    ensures var axioms := [InverseProperties(Named(r), Named(s)), InverseProperties(Named(q), Named(r))];
      var m := CanonFrom(map[], axioms);
      ChainsAt(axioms, 1) && m == map[s := Inverse(r), r := Inverse(q)] && Canon(m, Canon(m, Named(s))) != Canon(m, Named(s))
  {
    var first, second := InverseProperties(Named(r), Named(s)), InverseProperties(Named(q), Named(r));
    var m1: map<RoleId, Role> := map[s := Inverse(r)];
    assert [first][1..] == [] && [second][1..] == [];
    assert Adopted(map[], Named(r), Named(s)) && CanonFrom(map[], [first]) == m1;
    assert Adopted(m1, Named(q), Named(r)) && CanonFrom(m1, [second]) == m1[r := Inverse(q)];
    CanonSnoc(map[], [first], second);
    assert [first, second] == [first] + [second] && [first, second][..1] == [first];
    assert s in m1 && m1[s].id == r;
  }
}
