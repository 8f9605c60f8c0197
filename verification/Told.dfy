/** Told subsumption and disjointness between named classes. */
module ToldTables {
  import opened Dl
  import opened Graphs

  // ----- what an axiom tells -----

  /** `a ⊑ b` stated between classes. */
  function AxiomEdges(ax: Axiom): set<(ClassId, ClassId)> {
    match ax
    case SubClassOf(Atomic(a), Atomic(b)) => {(a, b)}
    case EquivalentClasses(ms) =>
      set i, j | 0 <= i < |ms| && 0 <= j < |ms| && i != j && ms[i].Atomic? && ms[j].Atomic? :: (ms[i].cls, ms[j].cls)
    case DisjointUnion(p, ms) => set i | 0 <= i < |ms| && ms[i].Atomic? :: (ms[i].cls, p)
    case _ => {}
  }

  function AtomPairs(ms: seq<Concept>): set<(ClassId, ClassId)> {
    set i, j | 0 <= i < |ms| && 0 <= j < |ms| && i != j && ms[i].Atomic? && ms[j].Atomic? :: (ms[i].cls, ms[j].cls)
  }

  /** `a ⊓ b ⊑ ⊥` stated between classes, in both directions. */
  function AxiomDisjoint(ax: Axiom): set<(ClassId, ClassId)> {
    match ax
    case SubClassOf(Atomic(a), Not(Atomic(b))) => {(a, b), (b, a)}
    case SubClassOf(And(ops), Bot) => if |ops| == 2 then AtomPairs(ops) else {}
    case DisjointClasses(ms) => AtomPairs(ms)
    case DisjointUnion(_, ms) => AtomPairs(ms)
    case _ => {}
  }

  function ToldEdges(axioms: seq<Axiom>): (r: set<(ClassId, ClassId)>)
    ensures forall e :: e in r <==> exists ax :: ax in axioms && e in AxiomEdges(ax)
  {
    set ax, e | ax in axioms && e in AxiomEdges(ax) :: e
  }

  function ToldDisjoint(axioms: seq<Axiom>): (r: set<(ClassId, ClassId)>)
    ensures forall e :: e in r <==> exists ax :: ax in axioms && e in AxiomDisjoint(ax)
  {
    set ax, e | ax in axioms && e in AxiomDisjoint(ax) :: e
  }

  // ----- told from the stated shapes -----

  ghost predicate StatesBelow(ax: Axiom, a: ClassId, b: ClassId) {
    match ax
    case SubClassOf(c, d) => c == Atomic(a) && d == Atomic(b)
    case EquivalentClasses(ms) => exists i, j :: 0 <= i < |ms| && 0 <= j < |ms| && i != j && ms[i] == Atomic(a) && ms[j] == Atomic(b)
    case DisjointUnion(p, ms) => p == b && Atomic(a) in ms
    case _ => false
  }

  ghost predicate TwoOf(ms: seq<Concept>, a: ClassId, b: ClassId) {
    exists i, j :: 0 <= i < |ms| && 0 <= j < |ms| && i != j && ms[i] == Atomic(a) && ms[j] == Atomic(b)
  }

  ghost predicate StatesApart(ax: Axiom, a: ClassId, b: ClassId) {
    match ax
    case SubClassOf(c, d) =>
      || (c == Atomic(a) && d == Not(Atomic(b))) || (c == Atomic(b) && d == Not(Atomic(a)))
      || (d == Bot && (c == And([Atomic(a), Atomic(b)]) || c == And([Atomic(b), Atomic(a)])))
    case DisjointClasses(ms) => TwoOf(ms, a, b)
    case DisjointUnion(_, ms) => TwoOf(ms, a, b)
    case _ => false
  }

  /** The told edges are exactly the stated inclusions between classes. */
  lemma ToldEdgesExact(axioms: seq<Axiom>, a: ClassId, b: ClassId)
    ensures (a, b) in ToldEdges(axioms) <==> exists ax :: ax in axioms && StatesBelow(ax, a, b)
  {
    forall ax ensures (a, b) in AxiomEdges(ax) <==> StatesBelow(ax, a, b) { EdgeStated(ax, a, b); }
  }

  lemma EdgeStated(ax: Axiom, a: ClassId, b: ClassId)
    ensures (a, b) in AxiomEdges(ax) <==> StatesBelow(ax, a, b)
  {
    if ax.DisjointUnion? && Atomic(a) in ax.members && ax.cls == b {
      var i :| 0 <= i < |ax.members| && ax.members[i] == Atomic(a);
      assert (ax.members[i].cls, b) in AxiomEdges(ax);
    }
    if ax.EquivalentClasses? && StatesBelow(ax, a, b) {
      var ms := ax.members;
      var i, j :| 0 <= i < |ms| && 0 <= j < |ms| && i != j && ms[i] == Atomic(a) && ms[j] == Atomic(b);
      assert (ms[i].cls, ms[j].cls) in AxiomEdges(ax);
    }
  }

  lemma AtomPairStated(ms: seq<Concept>, a: ClassId, b: ClassId)
    ensures (a, b) in AtomPairs(ms) <==> TwoOf(ms, a, b)
  {
    if TwoOf(ms, a, b) {
      var i, j :| 0 <= i < |ms| && 0 <= j < |ms| && i != j && ms[i] == Atomic(a) && ms[j] == Atomic(b);
      assert (ms[i].cls, ms[j].cls) in AtomPairs(ms);
    }
  }

  /** The told disjoint pairs are exactly those stated, in both directions. */
  lemma ToldDisjointExact(axioms: seq<Axiom>, a: ClassId, b: ClassId)
    ensures (a, b) in ToldDisjoint(axioms) <==> exists ax :: ax in axioms && StatesApart(ax, a, b)
  {
    forall ax ensures (a, b) in AxiomDisjoint(ax) <==> StatesApart(ax, a, b) { PairStated(ax, a, b); }
  }

  lemma PairStated(ax: Axiom, a: ClassId, b: ClassId)
    ensures (a, b) in AxiomDisjoint(ax) <==> StatesApart(ax, a, b)
  {
    match ax
    case SubClassOf(And(ops), Bot) =>
      AtomPairStated(ops, a, b);
      if |ops| == 2 { assert ops == [ops[0], ops[1]]; }
    case DisjointClasses(ms) => AtomPairStated(ms, a, b);
    case DisjointUnion(_, ms) => AtomPairStated(ms, a, b);
    case _ =>
  }

  // ----- told facts are true -----

  ghost predicate Below<E(!new)>(I: Interp<E>, a: ClassId, b: ClassId) {
    forall x :: I.cls(a, x) ==> I.cls(b, x)
  }

  ghost predicate Apart<E(!new)>(I: Interp<E>, a: ClassId, b: ClassId) {
    forall x :: !(I.cls(a, x) && I.cls(b, x))
  }

  lemma EdgeHolds<E(!new)>(I: Interp<E>, ax: Axiom, a: ClassId, b: ClassId)
    requires Holds(I, ax) && (a, b) in AxiomEdges(ax)
    ensures Below(I, a, b)
  {
    forall x | I.cls(a, x) ensures I.cls(b, x) {
      assert Sat(I, Atomic(a), x);
      match ax
      case SubClassOf(_, _) => assert Sat(I, Atomic(b), x);
      case EquivalentClasses(ms) =>
        var i, j :| 0 <= i < |ms| && 0 <= j < |ms| && ms[i] == Atomic(a) && ms[j] == Atomic(b);
        assert Subsumed(I, ms[i], ms[j]);
        assert Sat(I, ms[j], x);
      case DisjointUnion(p, ms) =>
        var i :| 0 <= i < |ms| && ms[i] == Atomic(a);
        assert Sat(I, Or(ms), x);
    }
  }

  lemma PairHolds<E(!new)>(I: Interp<E>, ms: seq<Concept>, a: ClassId, b: ClassId)
    requires PairwiseDisjoint(I, ms) && (a, b) in AtomPairs(ms)
    ensures Apart(I, a, b)
  {
    var i, j :| 0 <= i < |ms| && 0 <= j < |ms| && i != j && ms[i] == Atomic(a) && ms[j] == Atomic(b);
    assert Disjoint(I, ms[if i < j then i else j], ms[if i < j then j else i]);
    forall x ensures !(I.cls(a, x) && I.cls(b, x)) {
      assert I.cls(a, x) <==> Sat(I, ms[i], x);
      assert I.cls(b, x) <==> Sat(I, ms[j], x);
    }
  }

  lemma DisjointHolds<E(!new)>(I: Interp<E>, ax: Axiom, a: ClassId, b: ClassId)
    requires Holds(I, ax) && (a, b) in AxiomDisjoint(ax)
    ensures Apart(I, a, b)
  {
    match ax
    case SubClassOf(Atomic(c), Not(Atomic(d))) =>
      forall x ensures !(I.cls(a, x) && I.cls(b, x)) {
        assert I.cls(c, x) <==> Sat(I, Atomic(c), x);
        assert I.cls(d, x) <==> Sat(I, Atomic(d), x);
        assert Sat(I, Atomic(c), x) ==> Sat(I, Not(Atomic(d)), x);
      }
    case SubClassOf(And(ops), Bot) => ConjunctionDenied(I, ops, a, b);
    case DisjointClasses(ms) => PairHolds(I, ms, a, b);
    case DisjointUnion(_, ms) => PairHolds(I, ms, a, b);
  }

  lemma ConjunctionDenied<E(!new)>(I: Interp<E>, ops: seq<Concept>, a: ClassId, b: ClassId)
    requires Subsumed(I, And(ops), Bot) && |ops| == 2 && (a, b) in AtomPairs(ops)
    ensures Apart(I, a, b)
  {
    forall x ensures !(I.cls(a, x) && I.cls(b, x)) {
      assert Sat(I, And(ops), x) ==> Sat(I, Bot, x);
      assert forall c :: c in ops <==> c == ops[0] || c == ops[1];
      assert I.cls(a, x) <==> Sat(I, Atomic(a), x);
      assert I.cls(b, x) <==> Sat(I, Atomic(b), x);
    }
  }

  /** What is told, transitively, holds in every model. */
  lemma ToldSubHolds<E(!new)>(I: Interp<E>, axioms: seq<Axiom>, a: ClassId, b: ClassId)
    requires Models(I, axioms) && Reaches(ToldEdges(axioms), a, b)
    ensures Below(I, a, b)
  {
    var p :| PathFromTo(ToldEdges(axioms), p, a, b);
    ToldPathHolds(I, axioms, p, |p| - 1);
  }

  lemma {:induction false} ToldPathHolds<E(!new)>(I: Interp<E>, axioms: seq<Axiom>, p: seq<ClassId>, k: nat)
    requires Models(I, axioms) && IsPath(ToldEdges(axioms), p) && k < |p|
    ensures Below(I, p[0], p[k])
  {
    if k > 0 {
      ToldPathHolds(I, axioms, p, k - 1);
      assert (p[k - 1], p[k]) in ToldEdges(axioms);
      var ax :| ax in axioms && (p[k - 1], p[k]) in AxiomEdges(ax);
      EdgeHolds(I, ax, p[k - 1], p[k]);
    }
  }

  lemma ToldDisjointHolds<E(!new)>(I: Interp<E>, axioms: seq<Axiom>, a: ClassId, b: ClassId)
    requires Models(I, axioms) && (a, b) in ToldDisjoint(axioms)
    ensures Apart(I, a, b)
  {
    var ax :| ax in axioms && (a, b) in AxiomDisjoint(ax);
    DisjointHolds(I, ax, a, b);
  }

  // ----- the tables -----

  datatype Told = Told(supers: seq<seq<ClassId>>, subs: seq<seq<ClassId>>, disjoint: seq<seq<ClassId>>)

  ghost predicate Ascending(v: seq<ClassId>) {
    forall i, j :: 0 <= i < j < |v| ==> v[i] < v[j]
  }

  lemma FirstIn<T>(v: seq<T>)
    ensures v == [] || v[0] in v
  {
  }

  /** An ascending list is determined by its members. */
  lemma {:induction false} AscendingUnique(u: seq<ClassId>, v: seq<ClassId>)
    requires Ascending(u) && Ascending(v) && forall x: ClassId :: x in u <==> x in v
    ensures u == v
    decreases u
  {
    FirstIn(v);
    if u != [] {
      FirstLeast(u);
      assert v != [] by { assert u[0] in v; }
      FirstLeast(v);
      assert u[0] == v[0];
      AscendingUnique(u[1..], v[1..]);
      assert u == [u[0]] + u[1..] && v == [v[0]] + v[1..];
    }
  }

  /** The tables of an ontology: reflexive-transitive told subsumption upward and downward, and told
      disjointness, each row ascending. */
  ghost predicate IsTold(n: nat, axioms: seq<Axiom>, t: Told) {
    && |t.supers| == |t.disjoint| == n && SubsTo(n, ToldEdges(axioms), t.subs, n)
    && (forall a :: 0 <= a < n ==> RowIs(ToldEdges(axioms), a, t.supers[a]) && Ascending(t.disjoint[a]))
    && (forall a, b: ClassId :: 0 <= a < n ==> (b in t.disjoint[a] <==> (a, b) in ToldDisjoint(axioms)))
  }

  /** Two builds for the same axioms give equal tables. */
  lemma ToldUnique(n: nat, axioms: seq<Axiom>, t: Told, u: Told)
    requires IsTold(n, axioms, t) && IsTold(n, axioms, u)
    ensures t == u
  {
    forall a | 0 <= a < n ensures t.supers[a] == u.supers[a] && t.subs[a] == u.subs[a] && t.disjoint[a] == u.disjoint[a] {
      AscendingUnique(t.supers[a], u.supers[a]);
      AscendingUnique(t.subs[a], u.subs[a]);
      AscendingUnique(t.disjoint[a], u.disjoint[a]);
    }
    assert t.supers == u.supers && t.subs == u.subs && t.disjoint == u.disjoint;
  }

  /** The classes before `c` that reach each class, ascending. */
  ghost predicate SubsTo(n: nat, edges: set<(ClassId, ClassId)>, subs: seq<seq<ClassId>>, c: nat) {
    |subs| == n && forall b :: 0 <= b < n ==> DownRow(edges, b, subs[b], c)
  }

  ghost predicate DownRow(edges: set<(ClassId, ClassId)>, b: ClassId, row: seq<ClassId>, c: nat) {
    Ascending(row) && forall d: ClassId :: d in row <==> d < c && Reaches(edges, d, b)
  }

  // ----- building them -----

  /** Every told edge and pair is between known classes. */
  ghost predicate EdgesBelow(n: nat, axioms: seq<Axiom>) {
    && (forall a: ClassId, b: ClassId :: (a, b) in ToldEdges(axioms) ==> a < n && b < n)
    && (forall a: ClassId, b: ClassId :: (a, b) in ToldDisjoint(axioms) ==> a < n && b < n)
  }

  /** The classes below `n` that `a` is paired with, ascending. */
  function RowOf(n: nat, pairs: set<(ClassId, ClassId)>, a: ClassId): (r: seq<ClassId>)
    ensures Ascending(r) && forall b: ClassId :: b in r <==> b < n && (a, b) in pairs
  {
    if n == 0 then []
    else
      var rest := RowOf(n - 1, pairs, a);
      assert forall i :: 0 <= i < |rest| ==> rest[i] in rest;
      rest + if (a, n - 1) in pairs then [n - 1] else []
  }

  function InsertId(x: ClassId, v: seq<ClassId>): (r: seq<ClassId>)
    ensures forall y :: y in r <==> y == x || y in v
  {
    if v == [] || x <= v[0] then [x] + v
    else
      assert v == [v[0]] + v[1..];
      [v[0]] + InsertId(x, v[1..])
  }

  lemma {:induction false} InsertAscending(x: ClassId, v: seq<ClassId>)
    requires Ascending(v) && x !in v
    ensures Ascending(InsertId(x, v))
    decreases v
  {
    if v == [] {
    } else if x <= v[0] {
      FirstLeast(v);
    } else {
      InsertAscending(x, v[1..]);
      FirstLeast(v);
      var rest := InsertId(x, v[1..]);
      forall i | 0 <= i < |rest| ensures v[0] < rest[i] {
        assert rest[i] in rest;
        assert rest[i] == x || rest[i] in v[1..];
      }
    }
  }

  lemma FirstLeast(v: seq<ClassId>)
    requires v != [] && Ascending(v)
    ensures Ascending(v[1..]) && v[0] in v && v[0] !in v[1..]
    ensures forall x: ClassId :: x in v ==> v[0] <= x
    ensures forall x: ClassId :: x in v[1..] ==> v[0] < x
    ensures forall x: ClassId :: x in v <==> x == v[0] || x in v[1..]
  {
    assert v == [v[0]] + v[1..];
  }

  function SortIds(v: seq<ClassId>): (r: seq<ClassId>)
    requires forall i, j :: 0 <= i < j < |v| ==> v[i] != v[j]
    ensures Ascending(r) && forall y :: y in r <==> y in v
  {
    if v == [] then []
    else
      assert v == [v[0]] + v[1..];
      assert v[0] !in SortIds(v[1..]);
      InsertAscending(v[0], SortIds(v[1..]));
      InsertId(v[0], SortIds(v[1..]))
  }

  ghost predicate Adjacent(direct: seq<seq<ClassId>>, edges: set<(ClassId, ClassId)>) {
    forall a: ClassId, b: ClassId :: (a, b) in edges <==> a < |direct| && b in direct[a]
  }

  /** What the search has found and what it still has to look at. */
  ghost predicate Searching(edges: set<(ClassId, ClassId)>, c: ClassId, ups: seq<ClassId>, queue: seq<ClassId>) {
    && (forall d: ClassId :: d in ups || d in queue ==> Reaches(edges, c, d))
    && (c in ups || c in queue)
    && (forall a: ClassId, b: ClassId :: a in ups && (a, b) in edges ==> b in ups || b in queue)
  }

  lemma SearchDone(edges: set<(ClassId, ClassId)>, c: ClassId, ups: seq<ClassId>)
    requires Searching(edges, c, ups, [])
    ensures forall d: ClassId :: d in ups <==> Reaches(edges, c, d)
  {
    var s := set d | d in ups;
    forall d | Reaches(edges, c, d) ensures d in ups { ClosedReaches(edges, s, c, d); }
  }

  lemma SearchStep(edges: set<(ClassId, ClassId)>, c: ClassId, ups: seq<ClassId>, queue: seq<ClassId>, next: seq<ClassId>)
    requires queue != [] && Searching(edges, c, ups, queue) && forall b: ClassId :: b in next <==> (queue[0], b) in edges
    ensures Searching(edges, c, ups + [queue[0]], queue[1..] + next)
  {
    assert queue == [queue[0]] + queue[1..];
    forall d | d in next ensures Reaches(edges, c, d) { ReachesStep(edges, c, queue[0], d); }
    forall a, b | a in ups + [queue[0]] && (a, b) in edges ensures b in ups + [queue[0]] || b in queue[1..] + next {
      if a in ups { assert b in ups || b in queue; }
    }
  }

  /** The marks are on exactly the listed classes. */
  ghost predicate Marked(visited: array<bool>, ups: seq<ClassId>)
    reads visited
  {
    forall i :: 0 <= i < visited.Length ==> (visited[i] <==> i in ups)
  }

  ghost predicate Distinct(ups: seq<ClassId>) {
    forall i, j :: 0 <= i < j < |ups| ==> ups[i] != ups[j]
  }

  ghost predicate InRange(n: nat, v: seq<ClassId>) {
    forall d: ClassId :: d in v ==> d < n
  }

  /** Breadth-first search from one class, which marks what it finds. */
  method Search(direct: seq<seq<ClassId>>, ghost edges: set<(ClassId, ClassId)>, c: ClassId, visited: array<bool>)
    returns (ups: seq<ClassId>)
    requires c < |direct| == visited.Length && Adjacent(direct, edges) && Marked(visited, [])
    requires forall a: ClassId, b: ClassId :: (a, b) in edges ==> b < |direct|
    modifies visited
    ensures Marked(visited, ups) && Distinct(ups) && InRange(|direct|, ups)
    ensures forall d: ClassId :: d in ups <==> Reaches(edges, c, d)
  {
    ups := [];
    var queue := [c];
    ReachesSelf(edges, c);
    ghost var all := IdsBelow(|direct|);
    while queue != []
      invariant Searching(edges, c, ups, queue) && InRange(|direct|, ups) && InRange(|direct|, queue)
      invariant Marked(visited, ups) && Distinct(ups)
      decreases |all - Members(ups)|, |queue|
    {
      var curr := queue[0];
      assert curr in queue;
      if visited[curr] {
        SearchSkip(edges, c, ups, queue);
        InRangeStep(|direct|, queue, []);
        assert queue[1..] + [] == queue[1..];
        queue := queue[1..];
        continue;
      }
      SearchStep(edges, c, ups, queue, direct[curr]);
      MarkShrinks(all, ups, curr);
      assert InRange(|direct|, direct[curr]) by { assert forall b: ClassId :: b in direct[curr] ==> (curr, b) in edges; }
      visited[curr] := true;
      ups := ups + [curr];
      InRangeStep(|direct|, queue, direct[curr]);
      queue := queue[1..] + direct[curr];
    }
    SearchDone(edges, c, ups);
  }

  lemma InRangeStep(n: nat, queue: seq<ClassId>, next: seq<ClassId>)
    requires queue != [] && InRange(n, queue) && InRange(n, next)
    ensures InRange(n, queue[1..] + next)
  {
    forall d: ClassId | d in queue[1..] + next ensures d < n { assert d in queue || d in next; }
  }

  lemma SearchSkip(edges: set<(ClassId, ClassId)>, c: ClassId, ups: seq<ClassId>, queue: seq<ClassId>)
    requires queue != [] && queue[0] in ups && Searching(edges, c, ups, queue)
    ensures Searching(edges, c, ups, queue[1..])
  {
    assert queue == [queue[0]] + queue[1..];
  }

  /** Takes the marks of one search off again. */
  method Unmark(ups: seq<ClassId>, visited: array<bool>)
    requires Marked(visited, ups) && Distinct(ups) && InRange(visited.Length, ups)
    modifies visited
    ensures Marked(visited, [])
  {
    for k := 0 to |ups|
      invariant Marked(visited, ups[k..])
    {
      assert ups[k..] == [ups[k]] + ups[k + 1..];
      assert ups[k] !in ups[k + 1..] && ups[k] in ups;
      visited[ups[k]] := false;
    }
  }

  /** The classes above one class. The shared marks come in clear and go out clear. */
  method SuperClassesOf(direct: seq<seq<ClassId>>, ghost edges: set<(ClassId, ClassId)>, c: ClassId, visited: array<bool>)
    returns (ups: seq<ClassId>)
    requires c < |direct| == visited.Length && Adjacent(direct, edges) && Marked(visited, [])
    requires forall a: ClassId, b: ClassId :: (a, b) in edges ==> b < |direct|
    modifies visited
    ensures Marked(visited, []) && RowIs(edges, c, ups)
  {
    var found := Search(direct, edges, c, visited);
    Unmark(found, visited);
    ups := SortIds(found);
  }

  /** The row of the closure for `c`. */
  ghost predicate RowIs(edges: set<(ClassId, ClassId)>, c: ClassId, row: seq<ClassId>) {
    Ascending(row) && forall d: ClassId :: d in row <==> Reaches(edges, c, d)
  }

  function IdsBelow(n: nat): (r: set<ClassId>)
    ensures forall i: ClassId :: i in r <==> i < n
  {
    if n == 0 then {} else IdsBelow(n - 1) + {n - 1}
  }

  function Members(v: seq<ClassId>): set<ClassId> {
    set x | x in v
  }

  lemma MarkShrinks(all: set<ClassId>, ups: seq<ClassId>, x: ClassId)
    requires x in all && x !in ups
    ensures |all - Members(ups + [x])| < |all - Members(ups)|
  {
    assert all - Members(ups + [x]) == (all - Members(ups)) - {x};
  }

  lemma ReachedBelow(n: nat, edges: set<(ClassId, ClassId)>, c: ClassId, ups: seq<ClassId>)
    requires c < n && RowIs(edges, c, ups) && forall a: ClassId, b: ClassId :: (a, b) in edges ==> a < n && b < n
    ensures InRange(n, ups)
  {
    forall d: ClassId | d in ups ensures d < n { ClosedReaches(edges, IdsBelow(n), c, d); }
  }

  /** Enters `c` in the row of every class it reaches. */
  method EnterBelow(n: nat, ghost edges: set<(ClassId, ClassId)>, c: ClassId, ups: seq<ClassId>, subs: seq<seq<ClassId>>)
    returns (r: seq<seq<ClassId>>)
    requires c < n && RowIs(edges, c, ups) && InRange(n, ups) && SubsTo(n, edges, subs, c)
    ensures SubsTo(n, edges, r, c + 1)
  {
    r := subs;
    for k := 0 to |ups|
      invariant |r| == n && forall b :: 0 <= b < n ==> r[b] == if b in ups[..k] then subs[b] + [c] else subs[b]
    {
      assert ups[k] in ups && ups[..k + 1] == ups[..k] + [ups[k]];
      assert ups[k] !in ups[..k];
      r := r[ups[k] := r[ups[k]] + [c]];
    }
    assert ups[..|ups|] == ups;
    forall b | 0 <= b < n ensures DownRow(edges, b, r[b], c + 1) { assert DownRow(edges, b, subs[b], c); DownStep(edges, b, subs[b], c, r[b]); }
  }

  lemma DownStep(edges: set<(ClassId, ClassId)>, b: ClassId, row: seq<ClassId>, c: ClassId, row': seq<ClassId>)
    requires DownRow(edges, b, row, c) && row' == if Reaches(edges, c, b) then row + [c] else row
    ensures DownRow(edges, b, row', c + 1)
  {
    assert forall i :: 0 <= i < |row| ==> row[i] in row;
  }

  /** The told tables of an ontology over `n` classes. */
  method BuildToldTables(n: nat, axioms: seq<Axiom>) returns (t: Told)
    requires EdgesBelow(n, axioms)
    ensures IsTold(n, axioms, t)
  {
    var edges := ToldEdges(axioms);
    var direct := seq(n, a requires 0 <= a => RowOf(n, edges, a));
    var supers: seq<seq<ClassId>> := [];
    var subs: seq<seq<ClassId>> := seq(n, _ => []);
    var visited := new bool[n](_ => false);
    for c := 0 to n
      invariant Marked(visited, []) && |supers| == c && SubsTo(n, edges, subs, c)
      invariant forall a :: 0 <= a < c ==> RowIs(edges, a, supers[a])
    {
      var ups := SuperClassesOf(direct, edges, c, visited);
      assert InRange(n, ups) by { ReachedBelow(n, edges, c, ups); }
      supers := supers + [ups];
      subs := EnterBelow(n, edges, c, ups, subs);
    }
    t := Told(supers, subs, seq(n, a requires 0 <= a => RowOf(n, ToldDisjoint(axioms), a)));
  }
}
