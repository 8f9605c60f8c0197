/** Disjoint sets of role expressions with path halving. */
module UnionFinds {
  import opened Dl

  /** One expression hangs under a parent of its own tree, one step nearer to the root. */
  ghost predicate NodeOk(parent: map<Role, Role>, repr: map<Role, Role>, depth: map<Role, nat>, n: Role) {
    && n in parent && n in repr && n in depth
    && parent[n] in parent && parent[n] in repr && parent[n] in depth
    && repr[n] in repr && repr[n] in parent
    && repr[parent[n]] == repr[n] && repr[repr[n]] == repr[n]
    && (parent[n] == n <==> repr[n] == n)
    && (parent[n] != n ==> depth[parent[n]] < depth[n])
  }

  ghost predicate Forest(parent: map<Role, Role>, repr: map<Role, Role>, depth: map<Role, nat>) {
    && parent.Keys == repr.Keys == depth.Keys
    && forall n {:trigger NodeOk(parent, repr, depth, n)} :: n in parent ==> NodeOk(parent, repr, depth, n)
  }

  /** Halving a path moves no expression to another tree. */
  lemma HalveKeeps(parent: map<Role, Role>, repr: map<Role, Role>, depth: map<Role, nat>, r: Role)
    requires Forest(parent, repr, depth) && r in parent && parent[r] != r && parent[r] in parent
    ensures Forest(parent[r := parent[parent[r]]], repr, depth)
    ensures NodeOk(parent, repr, depth, r) && NodeOk(parent, repr, depth, parent[r])
    ensures depth[parent[parent[r]]] < depth[r]
  {
    assert NodeOk(parent, repr, depth, r) && NodeOk(parent, repr, depth, parent[r]);
    var up := parent[parent[r]];
    assert NodeOk(parent, repr, depth, up);
    var parent' := parent[r := up];
    forall n | n in parent' ensures NodeOk(parent', repr, depth, n) { assert NodeOk(parent, repr, depth, n); }
  }

  /** The roots after the tree of `a` went under the root of `b`. */
  ghost function Merged(repr: map<Role, Role>, a: Role, b: Role): (r: map<Role, Role>)
    requires a in repr && b in repr
    ensures r.Keys == repr.Keys
  {
    map n | n in repr :: if repr[n] == repr[a] then repr[b] else repr[n]
  }

  ghost function Deepened(repr: map<Role, Role>, depth: map<Role, nat>, ra: Role, more: nat): map<Role, nat>
    requires repr.Keys == depth.Keys
  {
    map n | n in depth :: if repr[n] == ra then depth[n] + more else depth[n]
  }

  /** Hanging one root under another merges their trees and nothing else. */
  lemma HangMerges(parent: map<Role, Role>, repr: map<Role, Role>, depth: map<Role, nat>, ra: Role, rb: Role)
    requires Forest(parent, repr, depth) && ra in repr && rb in repr && repr[ra] == ra && repr[rb] == rb && ra != rb
    ensures Forest(parent[ra := rb], Merged(repr, ra, rb), Deepened(repr, depth, ra, depth[rb] + 1))
  {
    var parent', repr', depth' := parent[ra := rb], Merged(repr, ra, rb), Deepened(repr, depth, ra, depth[rb] + 1);
    assert NodeOk(parent, repr, depth, ra) && NodeOk(parent, repr, depth, rb);
    forall n | n in parent' ensures NodeOk(parent', repr', depth', n) { assert NodeOk(parent, repr, depth, n); }
  }

  class UnionFind {
    var parent: map<Role, Role>
    ghost var repr: map<Role, Role>   // the root of each expression's tree
    ghost var depth: map<Role, nat>   // falls from every expression to its parent

    ghost predicate Valid()
      reads this
    {
      Forest(parent, repr, depth)
    }

    /** Every expression alone. */
    constructor (nodes: seq<Role>)
      ensures Valid() && repr == map n | n in nodes :: n
    {
      parent := map n | n in nodes :: n;
      repr := map n | n in nodes :: n;
      depth := map n | n in nodes :: 0;
    }

    /** The root of `n`, its path halved on the way. */
    method Find(n: Role) returns (r: Role)
      requires Valid() && n in repr
      modifies this`parent
      ensures Valid() && r == repr[n] && r in repr && repr[r] == r
    {
      r := n;
      assert NodeOk(parent, repr, depth, r);
      while parent[r] != r
        invariant Valid() && NodeOk(parent, repr, depth, r) && repr[r] == repr[n]
        decreases depth[r]
      {
        HalveKeeps(parent, repr, depth, r);
        parent := parent[r := parent[parent[r]]];
        r := parent[r];
        assert NodeOk(parent, repr, depth, r);
      }
    }

    /** Hangs the tree of `a` under the root of `b`. */
    method Union(a: Role, b: Role)
      requires Valid() && a in repr && b in repr
      modifies this
      ensures Valid() && repr == Merged(old(repr), a, b)
    {
      var rb := Find(b);
      var ra := Find(a);
      if ra != rb {
        HangMerges(parent, repr, depth, ra, rb);
        depth := Deepened(repr, depth, ra, depth[rb] + 1);
        parent := parent[ra := rb];
        repr := Merged(repr, ra, rb);
      } else {
        assert parent[ra := rb] == parent by { assert NodeOk(parent, repr, depth, ra); }
        parent := parent[ra := rb];
      }
      assert repr == Merged(old(repr), a, b);
    }
  }
}
