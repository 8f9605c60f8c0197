/** The normal form of interned intersections and unions: which operands they hold, in which order, and
    that expressions with the same operands are interned as one. */
module Interning {
  import opened Dl

  /** Distinct concepts have distinct ids. */
  ghost predicate Injective(ord: Order) {
    forall c, d :: ord(c) == ord(d) ==> c == d
  }

  /** `x` is an operand of the intersection of `args`: listed there and no ⊤, ⊥ or intersection, or an
      operand of an intersection listed there. */
  ghost predicate MeetMember(args: seq<Concept>, x: Concept) {
    || (x in args && !x.Top? && !x.Bot? && !x.And?)
    || exists inner :: And(inner) in args && x in inner
  }

  ghost predicate JoinMember(args: seq<Concept>, x: Concept) {
    || (x in args && !x.Top? && !x.Bot? && !x.Or?)
    || exists inner :: Or(inner) in args && x in inner
  }

  /** In the order of their ids, none twice. */
  ghost predicate Strict(ord: Order, v: seq<Concept>) {
    forall i, j :: 0 <= i < j < |v| ==> ord(v[i]) < ord(v[j])
  }

  lemma {:induction false} FlattenMembers(args: seq<Concept>, x: Concept)
    ensures x in FlattenAnd(args) <==> MeetMember(args, x)
    ensures x in FlattenOr(args) <==> JoinMember(args, x)
  {
    if args != [] {
      FlattenMembers(args[1..], x);
      assert args == [args[0]] + args[1..];
      if args[0].And? { assert forall inner :: And(inner) in args <==> inner == args[0].args || And(inner) in args[1..]; }
      if args[0].Or? { assert forall inner :: Or(inner) in args <==> inner == args[0].args || Or(inner) in args[1..]; }
    }
  }

  lemma {:induction false} DedupStrict(ord: Order, v: seq<Concept>)
    requires Injective(ord) && Sorted(ord, v)
    ensures Strict(ord, Dedup(v))
  {
    if |v| > 1 {
      DedupStrict(ord, v[1..]);
      if v[0] != v[1] {
        var rest := Dedup(v[1..]);
        forall j | 0 <= j < |rest| ensures ord(v[0]) < ord(rest[j]) {
          assert rest[j] in v[1..];
          var k :| 1 <= k < |v| && v[k] == rest[j];
          assert ord(v[0]) <= ord(v[1]) <= ord(v[k]) && ord(v[0]) != ord(v[1]);
        }
      }
    }
  }

  lemma FirstLeast(ord: Order, v: seq<Concept>, x: Concept)
    requires Strict(ord, v) && x in v
    ensures x == v[0] || ord(v[0]) < ord(x)
  {
    var k :| 0 <= k < |v| && v[k] == x;
  }

  lemma FirstIn(v: seq<Concept>)
    ensures v == [] || v[0] in v
  {
  }

  /** Strictly ordered lists of the same concepts are equal. */
  lemma {:induction false} OperandsUnique(ord: Order, v: seq<Concept>, w: seq<Concept>)
    requires Strict(ord, v) && Strict(ord, w) && forall x :: x in v <==> x in w
    ensures v == w
    decreases |v|
  {
    FirstIn(v);
    FirstIn(w);
    if v != [] {
      FirstLeast(ord, v, w[0]);
      FirstLeast(ord, w, v[0]);
      forall x ensures x in v[1..] <==> x in w[1..] {
        assert x in v[1..] <==> x in v && x != v[0];
        assert x in w[1..] <==> x in w && x != w[0];
      }
      OperandsUnique(ord, v[1..], w[1..]);
      assert v == [v[0]] + v[1..] && w == [w[0]] + w[1..];
    }
  }

  /** An interned intersection is ⊥ when an operand is, and otherwise holds exactly its operands, in the
      order of their ids and none twice; none gives ⊤ and one gives that one. */
  lemma MkAndShape(ord: Order, args: seq<Concept>) returns (v: seq<Concept>)
    requires Injective(ord)
    ensures Strict(ord, v) && forall x :: x in v <==> MeetMember(args, x)
    ensures MkAnd(ord, args) == if Bot in args then Bot else if v == [] then Top else if |v| == 1 then v[0] else And(v)
  {
    v := Dedup(Sort(ord, FlattenAnd(args)));
    DedupStrict(ord, Sort(ord, FlattenAnd(args)));
    forall x ensures x in v <==> MeetMember(args, x) { FlattenMembers(args, x); }
  }

  lemma MkOrShape(ord: Order, args: seq<Concept>) returns (v: seq<Concept>)
    requires Injective(ord)
    ensures Strict(ord, v) && forall x :: x in v <==> JoinMember(args, x)
    ensures MkOr(ord, args) == if Top in args then Top else if v == [] then Bot else if |v| == 1 then v[0] else Or(v)
  {
    v := Dedup(Sort(ord, FlattenOr(args)));
    DedupStrict(ord, Sort(ord, FlattenOr(args)));
    forall x ensures x in v <==> JoinMember(args, x) { FlattenMembers(args, x); }
  }

  /** Intersections with the same operands are interned as one, however they are written. */
  lemma MkAndCollides(ord: Order, left: seq<Concept>, right: seq<Concept>)
    requires Injective(ord) && (Bot in left <==> Bot in right)
    requires forall x :: MeetMember(left, x) <==> MeetMember(right, x)
    ensures MkAnd(ord, left) == MkAnd(ord, right)
  {
    var v := MkAndShape(ord, left);
    var w := MkAndShape(ord, right);
    OperandsUnique(ord, v, w);
  }

  lemma MkOrCollides(ord: Order, left: seq<Concept>, right: seq<Concept>)
    requires Injective(ord) && (Top in left <==> Top in right)
    requires forall x :: JoinMember(left, x) <==> JoinMember(right, x)
    ensures MkOr(ord, left) == MkOr(ord, right)
  {
    var v := MkOrShape(ord, left);
    var w := MkOrShape(ord, right);
    OperandsUnique(ord, v, w);
  }
}
