/** The clausifier object, whose methods compute the functions of `Clausify` in place. */
module ClausifierObject {
  import opened Dl
  import opened Clauses
  import opened Clausify
  import opened Consequents
  import opened Faithfulness

  class Clausifier {
    const cfg: Config
    var clauses: seq<DlClause>
    var nextFresh: ClassId
    var nextVar: Var
    var deferred: nat
    ghost var names: seq<Concept>  // what the fresh classes stand for

    ghost predicate Valid()
      reads this
    {
      nextFresh == cfg.firstFresh + |names|
    }

    ghost function St(): State
      reads this
    {
      State(clauses, names, nextVar, deferred)
    }

    constructor (cfg: Config)
      ensures this.cfg == cfg && Valid() && St() == START
    {
      this.cfg := cfg;
      clauses, nextFresh, nextVar, deferred, names := [], cfg.firstFresh, X + 1, 0, [];
    }

    method Defer()
      modifies this`deferred
      ensures St() == old(St()).Defer()
    {
      deferred := deferred + 1;
    }

    method Push(body: Body, head: seq<Atom>)
      modifies this`clauses
      ensures St() == old(St()).Push(body, head)
    {
      clauses := clauses + [DlClause(body, head)];
    }

    method FreshVar() returns (v: Var)
      modifies this`nextVar
      ensures v == old(nextVar) && nextVar == v + 1
    {
      v := nextVar;
      nextVar := nextVar + 1;
    }

    /** A structural name for `c`. */
    method FreshClass(ghost c: Concept) returns (q: ClassId)
      requires Valid()
      modifies this`nextFresh, this`names
      ensures Valid() && q == NextFresh(cfg, old(St())) && St() == old(St()).(names := old(names) + [c])
    {
      q := nextFresh;
      nextFresh := nextFresh + 1;
      names := names + [c];
    }

    // ----- antecedents -----

    method EncodeAntecedent(c: Concept, v: Var) returns (alts: Option<seq<Body>>)
      modifies this`nextVar
      ensures Encoding(alts, nextVar) == Encode(cfg, c, v, old(nextVar))
      decreases c
    {
      if ClassIdOf(cfg, c).Some? {
        return Some([[Class(ClassIdOf(cfg, c).value, v)]]);
      }
      match c
      case Top => alts := Some([[]]);
      case And(parts) =>
        var acc: seq<Body> := [[]];
        for k := 0 to |parts|
          invariant Encode(cfg, c, v, old(nextVar)) == EncodeAnd(cfg, parts[k..], acc, v, nextVar)
        {
          var child := EncodeAntecedent(parts[k], v);
          assert parts[k..][1..] == parts[k + 1..];
          if child.None? {
            return None;
          }
          var next := Join(acc, child.value);
          if |next| > ANTECEDENT_DNF_CAP {
            return None;
          }
          acc := next;
        }
        alts := Some(acc);
      case Or(parts) =>
        var out: seq<Body> := [];
        for k := 0 to |parts|
          invariant Encode(cfg, c, v, old(nextVar)) == EncodeOr(cfg, parts[k..], out, v, nextVar)
        {
          var child := EncodeAntecedent(parts[k], v);
          assert parts[k..][1..] == parts[k + 1..];
          if child.None? {
            return None;
          }
          out := out + child.value;
          if |out| > ANTECEDENT_DNF_CAP {
            return None;
          }
        }
        alts := Some(out);
      case SomeOf(r, f) =>
        var y := FreshVar();
        var inner := EncodeAntecedent(f, y);
        if inner.None? {
          return None;
        }
        var out := Join([[Edge(Canon(cfg.canon, r), v, y)]], inner.value);
        assert Cross([[Edge(Canon(cfg.canon, r), v, y)]], inner.value) == Extend([Edge(Canon(cfg.canon, r), v, y)], inner.value);
        alts := Some(out);
      case _ => alts := None;
    }

    /** The cross product of two lists of bodies. */
    static method Join(acc: seq<Body>, child: seq<Body>) returns (r: seq<Body>)
      ensures r == Cross(acc, child)
    {
      r := [];
      for i := 0 to |acc|
        invariant Cross(acc, child) == r + Cross(acc[i..], child)
      {
        assert acc[i..][1..] == acc[i + 1..];
        var row := JoinOne(acc[i], child);
        r := r + row;
      }
    }

    static method JoinOne(b: Body, child: seq<Body>) returns (r: seq<Body>)
      ensures r == Extend(b, child)
    {
      r := [];
      for j := 0 to |child|
        invariant |r| == j && forall k :: 0 <= k < j ==> r[k] == b + child[k]
      {
        r := r + [b + child[j]];
      }
    }

    // ----- consequents -----

    method EmitHead(body: Body, c: Concept, v: Var)
      requires Valid()
      modifies this
      ensures Valid() && St() == Emit(cfg, old(St()), body, c, v)
      decreases c, 0
    {
      match c
      case Top =>
      case Bot => Push(body, []);
      case Atomic(a) => Push(body, [Class(a, v)]);
      case Nominal(i) => Push(body, [Class(cfg.nominalBase + i, v)]);
      case And(parts) =>
        for k := 0 to |parts|
          invariant Valid() && Emit(cfg, old(St()), body, c, v) == EmitAll(cfg, St(), body, parts[k..], v)
        {
          EmitHead(body, parts[k], v);
          assert parts[k..][1..] == parts[k + 1..];
        }
      case Or(parts) =>
        var head: seq<Atom> := [];
        for k := 0 to |parts|
          invariant Valid() && HeadAtoms(cfg, old(St()), parts, [], v) == HeadAtoms(cfg, St(), parts[k..], head, v)
        {
          var a := HeadAtomFor(parts[k], v);
          assert parts[k..][1..] == parts[k + 1..];
          if a.None? {
            Defer();
            return;
          }
          head := head + [a.value];
        }
        Push(body, head);
      case SomeOf(r, f) =>
        var q := AtomicNameOf(f);
        Push(body, [Exists(Canon(cfg.canon, r), q, v)]);
      case AllOf(r, f) =>
        var y := FreshVar();
        EmitHead(body + [Edge(Canon(cfg.canon, r), v, y)], f, y);
      case Not(x) =>
        if ClassIdOf(cfg, x).Some? {
          Push(body + [Class(ClassIdOf(cfg, x).value, v)], []);
        } else if x.HasSelf? {
          Push(body + [Edge(Canon(cfg.canon, x.role), v, v)], []);
        } else {
          Defer();
        }
      case Min(n, r, f) =>
        if n == 0 {
          return;
        }
        var q := CardinalityQualifier(f);
        if q.Some? && q.value in cfg.dkeys {
          return;
        }
        Push(body, [AtLeast(Canon(cfg.canon, r), q, n, v)]);
      case Max(n, r, f) =>
        var q := CardinalityQualifier(f);
        if q.Some? && q.value in cfg.dkeys {
          return;
        }
        Push(body, [AtMost(Canon(cfg.canon, r), q, n, v)]);
      case HasSelf(r) => Push(body, [Edge(Canon(cfg.canon, r), v, v)]);
    }

    method CardinalityQualifier(f: Concept) returns (q: Option<ClassId>)
      requires Valid()
      modifies this
      ensures Valid() && (q, St()) == QualifierOf(cfg, old(St()), f)
      decreases f, 2
    {
      if f.Top? {
        return None;
      }
      var name := AtomicNameOf(f);
      q := Some(name);
    }

    method AtomicNameOf(c: Concept) returns (q: ClassId)
      requires Valid()
      modifies this
      ensures Valid() && (q, St()) == NameOf(cfg, old(St()), c)
      decreases c, 1
    {
      if ClassIdOf(cfg, c).Some? {
        return ClassIdOf(cfg, c).value;
      }
      q := FreshClass(c);
      EmitHead([Class(q, X)], c, X);
    }

    method HeadAtomFor(c: Concept, v: Var) returns (a: Option<Atom>)
      requires Valid()
      modifies this
      ensures Valid() && (a, St()) == HeadAtom(cfg, old(St()), c, v)
      decreases c, 3
    {
      if ClassIdOf(cfg, c).Some? {
        assert NameOf(cfg, St(), c) == (ClassIdOf(cfg, c).value, St());
        assert HeadAtom(cfg, St(), c, v) == NameAtom(cfg, St(), c, v);
        return Some(Class(ClassIdOf(cfg, c).value, v));
      } else if c.SomeOf? {
        var q := AtomicNameOf(c.filler);
        return Some(Exists(Canon(cfg.canon, c.role), q, v));
      } else if c.Not? {
        if ClassIdOf(cfg, c.arg).Some? {
          var q := FreshClass(c);
          Push([Class(q, X), Class(ClassIdOf(cfg, c.arg).value, X)], []);
          return Some(Class(q, v));
        } else if c.arg.HasSelf? {
          var q := FreshClass(c);
          Push([Class(q, X), Edge(Canon(cfg.canon, c.arg.role), X, X)], []);
          return Some(Class(q, v));
        }
        return None;
      } else if c.Max? && cfg.cardAtoms && !IsDkey(cfg, c.filler) {
        var q := CardinalityQualifier(c.filler);
        return Some(AtMost(Canon(cfg.canon, c.role), q, c.n, v));
      } else if c.Min? && cfg.cardAtoms && c.n != 0 && !IsDkey(cfg, c.filler) {
        var q := CardinalityQualifier(c.filler);
        return Some(AtLeast(Canon(cfg.canon, c.role), q, c.n, v));
      }
      assert HeadAtom(cfg, St(), c, v) == NameAtom(cfg, St(), c, v);
      var q := AtomicNameOf(c);
      a := Some(Class(q, v));
    }

    // ----- axioms -----

    method EmitForAll(bodies: seq<Body>, c: Concept, v: Var)
      requires Valid()
      modifies this
      ensures Valid() && St() == EmitBodies(cfg, old(St()), bodies, c, v)
    {
      for k := 0 to |bodies|
        invariant Valid() && EmitBodies(cfg, old(St()), bodies, c, v) == EmitBodies(cfg, St(), bodies[k..], c, v)
      {
        EmitHead(bodies[k], c, v);
        assert bodies[k..][1..] == bodies[k + 1..];
      }
    }

    /** Splits conjuncts into those that encode and those that do not. */
    method SplitSoft(parts: seq<Concept>) returns (soft: seq<Concept>, hard: seq<Concept>)
      modifies this`nextVar
      ensures soft == Soft(cfg, parts) && hard == Hard(cfg, parts)
    {
      soft, hard := [], [];
      for k := 0 to |parts|
        invariant Soft(cfg, parts) == soft + Soft(cfg, parts[k..])
        invariant Hard(cfg, parts) == hard + Hard(cfg, parts[k..])
      {
        nextVar := X + 1;
        SplitStep(cfg, parts, k, soft, hard);
        var e := EncodeAntecedent(parts[k], X);
        if e.Some? {
          soft := soft + [parts[k]];
        } else {
          hard := hard + [parts[k]];
        }
      }
    }

    static lemma SplitStep(cfg: Config, parts: seq<Concept>, k: nat, soft: seq<Concept>, hard: seq<Concept>)
      requires k < |parts|
      ensures IsSoft(cfg, parts[k]) ==>
        soft + Soft(cfg, parts[k..]) == soft + [parts[k]] + Soft(cfg, parts[k + 1..]) && Hard(cfg, parts[k..]) == Hard(cfg, parts[k + 1..])
      ensures !IsSoft(cfg, parts[k]) ==>
        hard + Hard(cfg, parts[k..]) == hard + [parts[k]] + Hard(cfg, parts[k + 1..]) && Soft(cfg, parts[k..]) == Soft(cfg, parts[k + 1..])
    {
      assert parts[k..][1..] == parts[k + 1..];
      assert [] + Soft(cfg, parts[k + 1..]) == Soft(cfg, parts[k + 1..]);
      assert [] + Hard(cfg, parts[k + 1..]) == Hard(cfg, parts[k + 1..]);
    }

    method AbsorbHardAntecedent(sub: Concept, sup: Concept)
      requires Valid()
      modifies this
      ensures Valid() && St() == AbsorbHard(cfg, old(St()), sub, sup)
    {
      var soft, hard := SplitSoft(if sub.And? then sub.args else [sub]);
      nextVar := X + 1;
      if soft == [] {
        EmitHead([], MkOr(cfg.ord, [Complement(cfg.ord, sub), sup]), X);
        return;
      }
      var head := MkOr(cfg.ord, ComplementAll(cfg.ord, hard) + [sup]);
      var softAnd := if |soft| == 1 then soft[0] else MkAnd(cfg.ord, soft);
      assert softAnd == SoftPart(cfg, sub) && head == HardHead(cfg, sub, sup);
      var e := EncodeAntecedent(softAnd, X);
      if e.Some? {
        EmitForAll(e.value, head, X);
      } else {
        Defer();
      }
    }

    method ClausifyGci(sub: Concept, sup: Concept)
      requires Valid()
      modifies this
      ensures Valid() && St() == Gci(cfg, old(St()), sub, sup)
    {
      nextVar := X + 1;
      var e := EncodeAntecedent(sub, X);
      if e.Some? {
        EmitForAll(e.value, sup, X);
      } else {
        ForgetVar(cfg, old(St()), nextVar, sub, sup);
        AbsorbHardAntecedent(sub, sup);
      }
    }

    /** Partial absorption resets the variable counter. */
    static lemma ForgetVar(cfg: Config, st: State, nv: Var, sub: Concept, sup: Concept)
      ensures AbsorbHard(cfg, st.(nextVar := nv), sub, sup) == AbsorbHard(cfg, st, sub, sup)
    {
    }

    method DenyPair(c: Concept, d: Concept, counted: bool)
      requires Valid()
      modifies this
      ensures Valid() && St() == Deny(cfg, old(St()), c, d, counted)
    {
      nextVar := X + 1;
      var a := EncodeAntecedent(c, X);
      var b := EncodeAntecedent(d, X);
      if a.None? || b.None? {
        if counted {
          Defer();
        }
        return;
      }
      var bodies := Join(a.value, b.value);
      for k := 0 to |bodies|
        invariant Valid() && Deny(cfg, old(St()), c, d, counted) == Denials(St(), bodies[k..])
      {
        Push(bodies[k], []);
        assert bodies[k..][1..] == bodies[k + 1..];
      }
    }

    method DenyPairs(cs: seq<Concept>, counted: bool)
      requires Valid()
      modifies this
      ensures Valid() && St() == DenyFrom(cfg, old(St()), cs, 0, 1, counted)
    {
      for i := 0 to |cs|
        invariant Valid() && DenyFrom(cfg, old(St()), cs, 0, 1, counted) == DenyFrom(cfg, St(), cs, i, i + 1, counted)
      {
        for j := i + 1 to |cs|
          invariant Valid() && DenyFrom(cfg, old(St()), cs, 0, 1, counted) == DenyFrom(cfg, St(), cs, i, j, counted)
        {
          DenyPair(cs[i], cs[j], counted);
        }
      }
    }

    method ClausifyEquivalence(cs: seq<Concept>)
      requires Valid()
      modifies this
      ensures Valid() && St() == EquivFrom(cfg, old(St()), cs, 0, 0)
    {
      for i := 0 to |cs|
        invariant Valid() && EquivFrom(cfg, old(St()), cs, 0, 0) == EquivFrom(cfg, St(), cs, i, 0)
      {
        for j := 0 to |cs|
          invariant Valid() && EquivFrom(cfg, old(St()), cs, 0, 0) == EquivFrom(cfg, St(), cs, i, j)
        {
          if i != j {
            ClausifyGci(cs[i], cs[j]);
          }
        }
      }
    }

    method ClausifyDisjointUnion(cls: ClassId, members: seq<Concept>)
      requires Valid()
      modifies this
      ensures Valid() && St() == AxiomClauses(cfg, old(St()), DisjointUnion(cls, members))
    {
      DenyPairs(members, false);
      ghost var st1 := St();
      for k := 0 to |members|
        invariant Valid() && MembersBelow(cfg, st1, members, cls) == MembersBelow(cfg, St(), members[k..], cls)
      {
        ghost var before := St();
        nextVar := X + 1;
        var e := EncodeAntecedent(members[k], X);
        assert members[k..][1..] == members[k + 1..];
        if e.Some? {
          for b := 0 to |e.value|
            invariant Valid() && Implications(before.(nextVar := Encode(cfg, members[k], X, X + 1).nextVar), e.value, cls)
              == Implications(St(), e.value[b..], cls)
          {
            Push(e.value[b], [Class(cls, X)]);
            assert e.value[b..][1..] == e.value[b + 1..];
          }
        } else {
          Defer();
        }
      }
      nextVar := X + 1;
      var head: seq<Atom> := [];
      for k := 0 to |members|
        invariant Valid() && St() == MembersBelow(cfg, st1, members, cls).(nextVar := X + 1)
        invariant CoverHead(cfg, members, []) == CoverHead(cfg, members[k..], head)
      {
        assert members[k..][1..] == members[k + 1..];
        if ClassIdOf(cfg, members[k]).None? {
          Defer();
          return;
        }
        head := head + [Class(ClassIdOf(cfg, members[k]).value, X)];
      }
      Push([Class(cls, X)], head);
    }

    method DenyRolePairs(rs: seq<Role>)
      requires Valid()
      modifies this
      ensures Valid() && St() == DenyRolesFrom(cfg, old(St()), rs, 0, 1)
    {
      for i := 0 to |rs|
        invariant Valid() && DenyRolesFrom(cfg, old(St()), rs, 0, 1) == DenyRolesFrom(cfg, St(), rs, i, i + 1)
      {
        for j := i + 1 to |rs|
          invariant Valid() && DenyRolesFrom(cfg, old(St()), rs, 0, 1) == DenyRolesFrom(cfg, St(), rs, i, j)
        {
          if rs[i] == rs[j] {
            continue;
          }
          nextVar := X + 1;
          var y := FreshVar();
          Push([Edge(Canon(cfg.canon, rs[i]), X, y), Edge(Canon(cfg.canon, rs[j]), X, y)], []);
        }
      }
    }

    method ClausifyAxiom(ax: Axiom)
      requires Valid()
      modifies this
      ensures Valid() && St() == AxiomClauses(cfg, old(St()), ax)
    {
      match ax
      case SubClassOf(c, d) => ClausifyGci(c, d);
      case EquivalentClasses(cs) => ClausifyEquivalence(cs);
      case DisjointClasses(cs) => DenyPairs(cs, true);
      case DisjointUnion(a, cs) => ClausifyDisjointUnion(a, cs);
      case PropertyDomain(r, c) =>
        nextVar := X + 1;
        var y := FreshVar();
        EmitHead([Edge(Canon(cfg.canon, r), X, y)], c, X);
      case PropertyRange(r, c) =>
        nextVar := X + 1;
        var y := FreshVar();
        EmitHead([Edge(Canon(cfg.canon, r), X, y)], c, y);
      case SubChain(parts, s) =>
        if |parts| == 2 {
          nextVar := X + 1;
          var y := FreshVar();
          var z := FreshVar();
          Push([Edge(Canon(cfg.canon, parts[0]), X, y), Edge(Canon(cfg.canon, parts[1]), y, z)], [Edge(Canon(cfg.canon, s), X, z)]);
        } else {
          Defer();
        }
      case TransitiveRole(r) =>
        nextVar := X + 1;
        var y := FreshVar();
        var z := FreshVar();
        var k := Canon(cfg.canon, r);
        Push([Edge(k, X, y), Edge(k, y, z)], [Edge(k, X, z)]);
      case IrreflexiveRole(r) => Push([Edge(Canon(cfg.canon, r), X, X)], []);
      case AsymmetricRole(r) =>
        nextVar := X + 1;
        var y := FreshVar();
        var k := Canon(cfg.canon, r);
        Push([Edge(k, X, y), Edge(k, y, X)], []);
      case DisjointProperties(rs) => DenyRolePairs(rs);
      case _ =>
    }

    method ClausifyAxioms(axioms: seq<Axiom>)
      requires Valid()
      modifies this
      ensures Valid() && St() == ClausifyAll(cfg, old(St()), axioms)
    {
      for k := 0 to |axioms|
        invariant Valid() && ClausifyAll(cfg, old(St()), axioms) == ClausifyAll(cfg, St(), axioms[k..])
      {
        ClausifyAxiom(axioms[k]);
        assert axioms[k..][1..] == axioms[k + 1..];
      }
    }
  }
}
