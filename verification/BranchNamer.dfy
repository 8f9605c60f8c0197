/** The splitting pass step by step, with its memo and its list of named branches. */
module BranchNamer {
  import opened Dl
  import opened Clauses
  import opened Branches
  import opened BranchMeaning

  // ----- counting variables -----

  function PairVars(pairs: seq<(Var, Var)>): set<Var> {
    (set p | p in pairs :: p.0) + (set p | p in pairs :: p.1)
  }

  lemma PairAdd(pairs: seq<(Var, Var)>, p: (Var, Var))
    ensures PairVars(pairs + [p]) == PairVars(pairs) + {p.0, p.1}
  {
  }

  ghost function Elements(s: seq<Var>): set<Var> {
    set v | v in s
  }

  lemma {:induction false} DistinctSize(s: seq<Var>)
    requires Distinct(s)
    ensures |Elements(s)| == |s|
    decreases s
  {
    if s != [] {
      DistinctSize(s[1..]);
      assert Elements(s) == {s[0]} + Elements(s[1..]);
    }
  }

  /** Distinct variables among the endpoints, counting `X`. */
  method DistinctVars(pairs: seq<(Var, Var)>) returns (n: nat)
    ensures n == |{X} + PairVars(pairs)|
  {
    var seen := [X];
    for k := 0 to |pairs|
      invariant Distinct(seen) && Elements(seen) == {X} + PairVars(pairs[..k])
    {
      assert pairs[..k + 1] == pairs[..k] + [pairs[k]];
      PairAdd(pairs[..k], pairs[k]);
      if pairs[k].0 !in seen {
        assert Elements(seen + [pairs[k].0]) == Elements(seen) + {pairs[k].0};
        seen := seen + [pairs[k].0];
      }
      if pairs[k].1 !in seen {
        assert Elements(seen + [pairs[k].1]) == Elements(seen) + {pairs[k].1};
        seen := seen + [pairs[k].1];
      }
    }
    assert pairs[..|pairs|] == pairs;
    DistinctSize(seen);
    n := |seen|;
  }

  /** The variable count of a body with `root` in place of `X`. */
  method BodyVarCountFrom(body: Body, root: Var) returns (n: nat)
    ensures n == |CountedFrom(body, root)|
  {
    var pairs: seq<(Var, Var)> := [];
    for k := 0 to |body|
      invariant {X} + PairVars(pairs) == CountedFrom(body[..k], root)
    {
      assert body[..k + 1] == body[..k] + [body[k]];
      CountOne(body[..k], body[k], root);
      if body[k].Edge? {
        var p := (if body[k].u == root then X else body[k].u, if body[k].w == root then X else body[k].w);
        PairAdd(pairs, p);
        pairs := pairs + [p];
      }
    }
    assert body[..|body|] == body;
    n := DistinctVars(pairs);
  }

  lemma CountOne(body: Body, a: Atom, root: Var)
    ensures CountedFrom(body + [a], root) == CountedFrom(body, root) +
      (if a.Edge? then {if a.u == root then X else a.u, if a.w == root then X else a.w} else {})
  {
    var more: set<Var> := if a.Edge? then {a.u, a.w} else {};
    assert EdgeVars(body + [a]) == EdgeVars(body) + more by {
      forall v | v in more ensures v in EdgeVars(body + [a]) { assert a in body + [a] && v in AtomVars(a); }
    }
  }

  lemma CountFromX(body: Body)
    ensures CountedFrom(body, X) == CountedVars(body)
  {
  }

  // ----- one body -----

  /** Tree edges, discovered pass by pass: an atom whose source is bound binds its target. */
  method DiscoverTree(atoms: Body, root: Var) returns (t: Tree)
    ensures t == TreeOf(atoms, root)
  {
    t := StartTree(|atoms|, root);
    while true
      invariant |t.placed| == |atoms| && Discover(atoms, StartTree(|atoms|, root)) == Discover(atoms, t)
      decreases |Unplaced(t)|
    {
      ghost var t0 := t;
      var progressed := false;
      for i := 0 to |atoms|
        invariant |t.placed| == |atoms| && Pass(atoms, 0, t0) == Pass(atoms, i, t)
        invariant forall k :: 0 <= k < |atoms| && t0.placed[k] ==> t.placed[k]
        invariant progressed <==> t.placed != t0.placed
      {
        if atoms[i].Edge? && !t.placed[i] && atoms[i].u in t.bound {
          progressed := true;
          assert t.placed[i := true][i] && !t0.placed[i];
          var bound, parent := t.bound, t.parent;
          if atoms[i].w !in bound {
            bound := bound + [atoms[i].w];
            parent := parent[atoms[i].w := atoms[i].u];
          }
          t := Tree(parent, bound, t.placed[i := true]);
        }
      }
      if !progressed {
        break;
      }
      ProgressShrinks(t0, t);
    }
  }

  /** The child of `root` above `v`. */
  method FindTop(t: Tree, root: Var, v: Var) returns (p: Place)
    requires WellPlaced(t, root)
    ensures p == TopOf(t, root, v)
  {
    if v == root {
      return AtRoot;
    }
    var w := v;
    while w in t.parent
      invariant Climb(t, root, v) == Climb(t, root, w)
      decreases if w in t.bound then IndexOf(t.bound, w) else 0
    {
      if t.parent[w] == root {
        return Below(w);
      }
      ParentEarlier(t, root, w);
      w := t.parent[w];
    }
    p := Unbound;
  }

  method AddToGroup(groups: seq<Group>, child: Var, a: Atom) returns (r: seq<Group>)
    ensures r == AddTo(groups, child, a)
  {
    var k := 0;
    while k < |groups| && groups[k].0 != child
      invariant k <= |groups| && AddTo(groups, child, a) == groups[..k] + AddTo(groups[k..], child, a)
    {
      assert groups[..k + 1] == groups[..k] + [groups[k]];
      k := k + 1;
    }
    if k < |groups| {
      r := groups[k := (child, groups[k].1 + [a])];
      assert r == groups[..k] + ([(child, groups[k].1 + [a])] + groups[k..][1..]);
    } else {
      r := groups + [(child, [a])];
      assert groups[..k] == groups;
    }
  }

  method GroupAtoms(t: Tree, root: Var, atoms: Body) returns (r: Option<Grouping>)
    requires WellPlaced(t, root)
    ensures r == GroupFrom(TopFn(t, root), atoms, Grouping([], []))
  {
    var rootAtoms: Body := [];
    var groups: seq<Group> := [];
    for k := 0 to |atoms|
      invariant GroupFrom(TopFn(t, root), atoms, Grouping([], [])) == GroupFrom(TopFn(t, root), atoms[k..], Grouping(rootAtoms, groups))
    {
      assert atoms[k..][1..] == atoms[k + 1..];
      var place := PlaceOf(t, root, atoms[k]);
      match place {
        case AtRoot => rootAtoms := rootAtoms + [atoms[k]];
        case Unbound => return None;
        case Below(c) => groups := AddToGroup(groups, c, atoms[k]);
      }
    }
    r := Some(Grouping(rootAtoms, groups));
  }

  /** Where an atom belongs: with the root, under one child, or across two. */
  method PlaceOf(t: Tree, root: Var, a: Atom) returns (place: Place)
    requires WellPlaced(t, root)
    ensures place == AtomPlace(TopFn(t, root), a)
  {
    if a.Class? {
      place := FindTop(t, root, a.v);
    } else if a.Edge? {
      place := FindTop(t, root, a.u);
      var other := FindTop(t, root, a.w);
      assert TopFn(t, root)(a.u) == place && TopFn(t, root)(a.w) == other;
      if place.AtRoot? {
        place := other;
      } else if !other.AtRoot? && other != place {
        place := Unbound;
      }
    } else {
      place := Unbound;
    }
  }

  /** `atoms` with `root` renamed to `X` and the others numbered in order of first appearance. */
  method RenumberAtoms(atoms: Body, root: Var) returns (r: Body)
    ensures r == Renumber(atoms, root)
  {
    var order := [root];
    r := [];
    for k := 0 to |atoms|
      invariant Renumber(atoms, root) == r + RenumberFrom(atoms[k..], order)
    {
      assert atoms[k..][1..] == atoms[k + 1..];
      r := r + [RenameAtom(order, atoms[k])];
      order := SeenAtom(order, atoms[k]);
    }
  }

  class Splitter {
    var nextFresh: ClassId
    var memo: map<Body, ClassId>
    var named: seq<DlClause>
    ghost const first: ClassId

    ghost predicate Valid()
      reads this
    {
      nextFresh == first + |named|
    }

    ghost function St(): Namer
      reads this
    {
      Namer(first, memo, named)
    }

    constructor (firstFresh: ClassId)
      ensures Valid() && St() == Namer(firstFresh, map[], [])
    {
      first, nextFresh, memo, named := firstFresh, firstFresh, map[], [];
    }

    /** The branch class of a body, from the memo or freshly named. */
    method Name(body: Body) returns (e: ClassId)
      requires Valid()
      modifies this
      ensures Valid() && (e, St()) == NameBody(old(St()), body)
    {
      if body in memo {
        return memo[body];
      }
      e := nextFresh;
      nextFresh := nextFresh + 1;
      memo := memo[body := e];
      named := named + [DlClause(body, [Class(e, X)])];
    }

    /** Replaces each branch of `root` by one class atom; `None` leaves everything as it was. */
    method NameAll(atoms: Body, root: Var, keep: set<Var>) returns (r: Option<Body>)
      requires Valid()
      modifies this
      ensures Valid() && (r, St()) == NameBranches(atoms, root, keep, old(St()))
      decreases |atoms|, 1
    {
      var t := DiscoverTree(atoms, root);
      if exists i :: 0 <= i < |atoms| && atoms[i].Edge? && !t.placed[i] {
        return None;
      }
      var g := GroupAtoms(t, root, atoms);
      if g.None? {
        return None;
      }
      GroupSizes(TopFn(t, root), atoms, Grouping([], []), |atoms|);
      var groups := g.value.groups;
      var result, any := g.value.rootAtoms, false;
      for k := 0 to |groups|
        invariant Valid()
        invariant NameBranches(atoms, root, keep, old(St())) == NameGroups(groups[k..], |atoms|, root, keep, St(), result, any)
      {
        assert groups[k..][1..] == groups[k + 1..];
        var (child, group) := groups[k];
        assert groups[k] in groups;
        if exists v :: v in keep && Mentions(group, v) {
          result := result + group;
          continue;
        }
        var sub := NarrowGroup(child, group, |atoms|, root);
        var body := RenumberAtoms(sub, root);
        var e := Name(body);
        result := result + [Class(e, root)];
        any := true;
      }
      r := if any then Some(result) else None;
    }

    /** Splits an over-wide branch one level down. */
    method NarrowGroup(child: Var, group: Body, ghost n: nat, root: Var) returns (sub: Body)
      requires Valid() && |group| <= n
      modifies this
      ensures Valid() && (sub, St()) == Narrow(child, group, n, root, old(St()))
      decreases n, 0
    {
      sub := group;
      var count := BodyVarCountFrom(group, root);
      if count > MAX_BODY_VARS {
        var edge, inner := EdgesFrom(group, root, child), Inner(group, root, child);
        if |edge| == 1 && !Mentions(inner, root) {
          var reduced := NameAll(inner, child, {});
          if reduced.Some? {
            sub := edge + reduced.value;
          }
        }
      }
    }

    /** The pass over a clause set. */
    method DecomposeWideBodies(clauses: seq<DlClause>) returns (r: seq<DlClause>)
      requires Valid() && memo == map[] && named == []
      modifies this
      ensures Valid() && r == Decompose(clauses, first)
    {
      var out: seq<DlClause> := [];
      for k := 0 to |clauses|
        invariant Valid() && SplitFrom(clauses, old(St()), []) == SplitFrom(clauses[k..], St(), out)
      {
        assert clauses[k..][1..] == clauses[k + 1..];
        var cl := clauses[k];
        var count := BodyVarCountFrom(cl.body, X);
        CountFromX(cl.body);
        if count <= MAX_BODY_VARS || exists a :: a in cl.body && !(a.Class? || a.Edge?) {
          out := out + [cl];
          continue;
        }
        var body := NameAll(cl.body, X, HeadVars(cl.head));
        if body.Some? {
          out := out + [DlClause(body.value, cl.head)];
        } else {
          out := out + [cl];
        }
      }
      r := out + named;
    }
  }
}
