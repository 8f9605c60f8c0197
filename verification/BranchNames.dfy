/** Branches share a name exactly when they are the same up to renaming. */
module BranchNames {
  import opened Clauses
  import opened Branches
  import opened BranchMeaning

  function MapAtom(f: Var -> Var, a: Atom): Atom {
    match a
    case Class(c, v) => Class(c, f(v))
    case Edge(r, u, w) => Edge(r, f(u), f(w))
    case _ => a
  }

  /** `f` does not identify two of the variables. */
  ghost predicate Injects(f: Var -> Var, vars: set<Var>) {
    forall u, v :: u in vars && v in vars && f(u) == f(v) ==> u == v
  }

  function BodyVars(body: Body): set<Var> {
    set a, v | a in body && v in AtomVars(a) :: v
  }

  ghost predicate Maps(f: Var -> Var, x: Body, y: Body) {
    |x| == |y| && forall k :: 0 <= k < |x| ==> y[k] == MapAtom(f, x[k])
  }

  /** Atom by atom the same up to a renaming that takes root to root. */
  ghost predicate SameUpTo(f: Var -> Var, x: Body, root: Var, y: Body, other: Var) {
    f(root) == other && Injects(f, BodyVars(x) + {root}) && Maps(f, x, y)
  }

  function MapVars(f: Var -> Var, order: seq<Var>): (r: seq<Var>)
    ensures |r| == |order| && forall k :: 0 <= k < |r| ==> r[k] == f(order[k])
  {
    seq(|order|, k requires 0 <= k < |order| => f(order[k]))
  }

  lemma LookupMapped(f: Var -> Var, order: seq<Var>, v: Var, vars: set<Var>)
    requires Injects(f, vars) && v in vars && forall u :: u in order ==> u in vars
    ensures Lookup(MapVars(f, order), f(v)) == Lookup(order, v)
    ensures Seen(MapVars(f, order), f(v)) == MapVars(f, Seen(order, v))
  {
    var mapped := MapVars(f, order);
    if v in order {
      var k := IndexOf(order, v);
      assert mapped[k] == f(v);
      var j := IndexOf(mapped, f(v));
      assert order[j] in order && order[k] in order;
    } else {
      assert forall j :: 0 <= j < |order| ==> order[j] in order && mapped[j] != f(v);
    }
  }

  lemma AtomMapped(f: Var -> Var, order: seq<Var>, a: Atom, vars: set<Var>)
    requires (a.Class? || a.Edge?) && Injects(f, vars) && AtomVars(a) <= vars && forall u :: u in order ==> u in vars
    ensures RenameAtom(MapVars(f, order), MapAtom(f, a)) == RenameAtom(order, a)
    ensures SeenAtom(MapVars(f, order), MapAtom(f, a)) == MapVars(f, SeenAtom(order, a))
    ensures forall u :: u in SeenAtom(order, a) ==> u in vars
  {
    match a
    case Class(_, v) => LookupMapped(f, order, v, vars);
    case Edge(_, u, w) =>
      LookupMapped(f, order, u, vars);
      LookupMapped(f, Seen(order, u), w, vars);
    case _ =>
  }

  lemma {:induction false} RenumberMapped(f: Var -> Var, x: Body, y: Body, order: seq<Var>, vars: set<Var>)
    requires Plain(x) && Maps(f, x, y) && Injects(f, vars) && BodyVars(x) <= vars && forall u :: u in order ==> u in vars
    ensures RenumberFrom(x, order) == RenumberFrom(y, MapVars(f, order))
    decreases x
  {
    if x != [] {
      var a := x[0];
      assert a in x && y[0] == MapAtom(f, a);
      assert AtomVars(a) <= vars by { forall v | v in AtomVars(a) ensures v in vars { assert v in BodyVars(x); } }
      AtomMapped(f, order, a, vars);
      RestMaps(f, x, y);
      RenumberMapped(f, x[1..], y[1..], SeenAtom(order, a), vars);
    }
  }

  lemma RestMaps(f: Var -> Var, x: Body, y: Body)
    requires x != [] && Plain(x) && Maps(f, x, y)
    ensures Plain(x[1..]) && Maps(f, x[1..], y[1..]) && BodyVars(x[1..]) <= BodyVars(x)
  {
  }

  /** `b` is `a` with each variable replaced by its position in `final`. */
  ghost predicate RanksOf(final: seq<Var>, a: Atom, b: Atom) {
    match a
    case Class(c, v) => b.Class? && b.cls == c && b.v < |final| && final[b.v] == v
    case Edge(r, u, w) => b.Edge? && b.role == r && b.u < |final| && final[b.u] == u && b.w < |final| && final[b.w] == w
    case _ => true
  }

  ghost predicate AllRanks(final: seq<Var>, atoms: Body, r: Body) {
    |r| == |atoms| && forall k :: 0 <= k < |atoms| ==> RanksOf(final, atoms[k], r[k])
  }

  lemma {:induction false} RenumberRanks(atoms: Body, order: seq<Var>)
    requires Plain(atoms) && Distinct(order)
    ensures AllRanks(FinalOrder(atoms, order), atoms, RenumberFrom(atoms, order))
    decreases atoms
  {
    if atoms != [] {
      var a, next := atoms[0], SeenAtom(order, atoms[0]);
      assert a in atoms;
      SeenAtomExtends(order, a);
      FinalExtends(atoms[1..], next);
      RenumberRanks(atoms[1..], next);
      AtomRanks(order, a, FinalOrder(atoms, order));
      forall k | 0 <= k < |atoms| ensures RanksOf(FinalOrder(atoms, order), atoms[k], RenumberFrom(atoms, order)[k]) {
        if k > 0 { assert atoms[k] == atoms[1..][k - 1]; }
      }
    }
  }

  lemma AtomRanks(order: seq<Var>, a: Atom, final: seq<Var>)
    requires (a.Class? || a.Edge?) && Distinct(order) && SeenAtom(order, a) <= final
    ensures RanksOf(final, a, RenameAtom(order, a))
  {
    match a
    case Class(_, v) => SeenExtends(order, v);
    case Edge(_, u, w) =>
      SeenExtends(order, u);
      SeenExtends(Seen(order, u), w);
    case _ =>
  }

  /** What the variable at a position of one order is called at that position of the other. */
  function Across(left: seq<Var>, right: seq<Var>): Var -> Var {
    v => if v in left && IndexOf(left, v) < |right| then right[IndexOf(left, v)] else v
  }

  lemma AcrossAt(left: seq<Var>, right: seq<Var>, k: nat)
    requires Distinct(left) && k < |left| && k < |right|
    ensures IndexOf(left, left[k]) == k && Across(left, right)(left[k]) == right[k]
  {
    assert IndexOf(left, left[k]) == k;
  }

  /** The canonical form tells branches apart exactly up to renaming: two bodies get one form, and so one
      name, iff they are the same atom by atom up to a one-to-one renaming of their variables. */
  lemma RenumberCanonical(x: Body, root: Var, y: Body, other: Var)
    requires Plain(x) && Plain(y)
    ensures Renumber(x, root) == Renumber(y, other) <==> exists f :: SameUpTo(f, x, root, y, other)
  {
    if f :| SameUpTo(f, x, root, y, other) {
      RenumberMapped(f, x, y, [root], BodyVars(x) + {root});
      assert MapVars(f, [root]) == [other];
    }
    if Renumber(x, root) == Renumber(y, other) { SharedForm(x, root, y, other); }
  }

  lemma SharedForm(x: Body, root: Var, y: Body, other: Var)
    requires Plain(x) && Plain(y) && Renumber(x, root) == Renumber(y, other)
    ensures exists f :: SameUpTo(f, x, root, y, other)
  {
    var left, right := FinalOrder(x, [root]), FinalOrder(y, [other]);
    FinalExtends(x, [root]);
    FinalExtends(y, [other]);
    RenumberRanks(x, [root]);
    RenumberRanks(y, [other]);
    AcrossMaps(left, right, x, y, Renumber(x, root));
    AcrossInjects(left, right, x, y, Renumber(x, root), root);
    AcrossAt(left, right, 0);
    assert SameUpTo(Across(left, right), x, root, y, other);
  }

  lemma AcrossMaps(left: seq<Var>, right: seq<Var>, x: Body, y: Body, r: Body)
    requires Distinct(left) && Plain(x) && AllRanks(left, x, r) && Plain(y) && AllRanks(right, y, r)
    ensures Maps(Across(left, right), x, y)
  {
    forall k | 0 <= k < |x| ensures y[k] == MapAtom(Across(left, right), x[k]) {
      assert x[k] in x && y[k] in y;
      AtomAcross(left, right, x[k], y[k], r[k]);
    }
  }

  lemma AcrossInjects(left: seq<Var>, right: seq<Var>, x: Body, y: Body, r: Body, root: Var)
    requires Distinct(left) && Distinct(right) && |left| > 0 && left[0] == root && |right| > 0
    requires Plain(x) && AllRanks(left, x, r) && Plain(y) && AllRanks(right, y, r)
    ensures Injects(Across(left, right), BodyVars(x) + {root})
  {
    var f := Across(left, right);
    forall u, v | u in BodyVars(x) + {root} && v in BodyVars(x) + {root} && f(u) == f(v) ensures u == v {
      VarPosition(left, right, x, y, r, root, u);
      VarPosition(left, right, x, y, r, root, v);
      var i, j := IndexOf(left, u), IndexOf(left, v);
      assert right[i] == right[j];
    }
  }

  lemma VarPosition(left: seq<Var>, right: seq<Var>, x: Body, y: Body, r: Body, root: Var, u: Var)
    requires Distinct(left) && |left| > 0 && left[0] == root && |right| > 0
    requires Plain(x) && AllRanks(left, x, r) && Plain(y) && AllRanks(right, y, r) && u in BodyVars(x) + {root}
    ensures u in left && IndexOf(left, u) < |right|
  {
    if u in BodyVars(x) {
      var a :| a in x && u in AtomVars(a);
      var k :| 0 <= k < |x| && x[k] == a;
      assert y[k] in y;
      AtomPosition(left, right, a, y[k], r[k], u);
    } else {
      AcrossAt(left, right, 0);
    }
  }

  lemma AtomPosition(left: seq<Var>, right: seq<Var>, a: Atom, b: Atom, r: Atom, u: Var)
    requires Distinct(left) && (a.Class? || a.Edge?) && (b.Class? || b.Edge?) && u in AtomVars(a)
    requires RanksOf(left, a, r) && RanksOf(right, b, r)
    ensures u in left && IndexOf(left, u) < |right|
  {
    var p := if a.Class? then r.v else if u == a.u then r.u else r.w;
    assert left[p] == u && p < |right|;
    AcrossAt(left, right, p);
  }

  lemma AtomAcross(left: seq<Var>, right: seq<Var>, a: Atom, b: Atom, r: Atom)
    requires Distinct(left) && RanksOf(left, a, r) && RanksOf(right, b, r)
    requires (a.Class? || a.Edge?) && (b.Class? || b.Edge?)
    ensures b == MapAtom(Across(left, right), a)
  {
    match a
    case Class(_, _) => AcrossAt(left, right, r.v);
    case Edge(_, _, _) =>
      AcrossAt(left, right, r.u);
      AcrossAt(left, right, r.w);
    case _ =>
  }

  ghost predicate Canonical(body: Body) {
    Plain(body) && Renumber(body, X) == body
  }

  lemma RanksPlain(final: seq<Var>, atoms: Body, r: Body)
    requires Plain(atoms) && AllRanks(final, atoms, r)
    ensures Plain(r) && forall v :: v in BodyVars(r) ==> v < |final|
  {
    forall b | b in r ensures (b.Class? || b.Edge?) && forall v :: v in AtomVars(b) ==> v < |final| {
      var k :| 0 <= k < |r| && r[k] == b;
      assert atoms[k] in atoms && RanksOf(final, atoms[k], b);
    }
  }

  function Back(final: seq<Var>, root: Var): Var -> Var {
    k => if 0 <= k < |final| then final[k] else root
  }

  lemma BackMaps(final: seq<Var>, root: Var, atoms: Body, r: Body)
    requires Plain(atoms) && AllRanks(final, atoms, r)
    ensures Maps(Back(final, root), r, atoms)
  {
    forall k | 0 <= k < |r| ensures atoms[k] == MapAtom(Back(final, root), r[k]) {
      assert atoms[k] in atoms && RanksOf(final, atoms[k], r[k]);
    }
  }

  /** A renumbered body is its own canonical form. */
  lemma RenumberTwice(atoms: Body, root: Var)
    requires Plain(atoms)
    ensures Canonical(Renumber(atoms, root))
  {
    var r, final := Renumber(atoms, root), FinalOrder(atoms, [root]);
    FinalExtends(atoms, [root]);
    RenumberRanks(atoms, [root]);
    RanksPlain(final, atoms, r);
    BackMaps(final, root, atoms, r);
    assert SameUpTo(Back(final, root), r, X, atoms, root);
    RenumberCanonical(r, X, atoms, root);
  }

  /** Different canonical bodies are not the same up to renaming. */
  lemma CanonicalApart(x: Body, y: Body, f: Var -> Var)
    requires Canonical(x) && Canonical(y) && x != y
    ensures !SameUpTo(f, x, X, y, X)
  {
    RenumberCanonical(x, X, y, X);
  }
}
