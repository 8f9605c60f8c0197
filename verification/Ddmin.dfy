/** Delta debugging: a smaller list that still fails, with no axiom to spare. */
module Ddmin {
  import opened Sequences

  /** `cur` without the `chunk` members from `i` on. */
  function Without<T>(cur: seq<T>, i: nat, chunk: nat): (r: seq<T>)
    requires i < |cur| && chunk > 0
    ensures |r| < |cur|
  {
    cur[..i] + if i + chunk <= |cur| then cur[i + chunk..] else []
  }

  lemma WithoutSubsequence<T>(cur: seq<T>, i: nat, chunk: nat)
    requires i < |cur| && chunk > 0
    ensures Subsequence(Without(cur, i, chunk), cur)
  {
    var r := Without(cur, i, chunk);
    var ix: seq<nat> := seq(|r|, k requires 0 <= k < |r| => if k < i then k else k + chunk);
    assert Picks(ix, r, cur);
  }

  /** Every single removal makes the test fail, or there is nothing left to remove. */
  ghost predicate OneMinimal<T>(test: seq<T> -> bool, cur: seq<T>) {
    |cur| <= 1 || forall i: nat :: i < |cur| ==> !test(Without(cur, i, 1))
  }

  /** No trial at `i`, `i + chunk`, `i + 2 chunk` and so on passes. */
  ghost predicate AllFail<T>(test: seq<T> -> bool, cur: seq<T>, chunk: nat, i: nat)
    requires chunk > 0
    decreases |cur| - i
  {
    i < |cur| ==> !Passes(test, cur, i, chunk) && AllFail(test, cur, chunk, i + chunk)
  }

  predicate Passes<T>(test: seq<T> -> bool, cur: seq<T>, i: nat, chunk: nat)
    requires i < |cur| && chunk > 0
  {
    Without(cur, i, chunk) != [] && test(Without(cur, i, chunk))
  }

  function Max1(n: nat): nat {
    if n < 1 then 1 else n
  }

  lemma FirstTrial<T>(cur: seq<T>, i: nat, chunk: nat, input: seq<T>)
    requires i < |cur| && chunk > 0
    ensures cur == input && i == 0 && chunk < |input| ==> Without(cur, i, chunk) == input[chunk..]
    ensures Subsequence(Without(cur, i, chunk), Without(cur, i, chunk))
  {
    SubsequenceSelf(Without(cur, i, chunk));
  }

  /** One pass of removals with a fixed chunk, started over after each success. */
  method Pass<T>(input: seq<T>, test: seq<T> -> bool, chunk: nat) returns (cur: seq<T>, progressed: bool)
    requires chunk > 0 && input != []
    ensures Subsequence(cur, input) && cur != [] && (test(input) ==> test(cur))
    ensures progressed ==> |cur| < |input| && test(cur)
    ensures !progressed ==> cur == input && AllFail(test, cur, chunk, 0)
    ensures chunk < |input| && test(input[chunk..]) ==> Subsequence(cur, input[chunk..])
  {
    cur, progressed := input, false;
    var i := 0;
    SubsequenceSelf(input);
    while i < |cur|
      invariant Subsequence(cur, input) && cur != [] && (test(input) ==> test(cur))
      invariant progressed ==> |cur| < |input| && test(cur)
      invariant !progressed ==> cur == input && (AllFail(test, cur, chunk, i) ==> AllFail(test, cur, chunk, 0))
      invariant chunk < |input| && test(input[chunk..]) ==> (cur == input && i == 0) || Subsequence(cur, input[chunk..])
      decreases |cur|, |cur| - i
    {
      var trial := Without(cur, i, chunk);
      FirstTrial(cur, i, chunk, input);
      if trial != [] && test(trial) {
        WithoutSubsequence(cur, i, chunk);
        SubsequenceTrans(trial, cur, input);
        if chunk < |input| && test(input[chunk..]) && !(cur == input && i == 0) {
          SubsequenceTrans(trial, cur, input[chunk..]);
        }
        cur, progressed := trial, true;
        i := 0;
        continue;
      }
      i := i + chunk;
    }
  }

  /** With single-member chunks a pass that made no progress shows 1-minimality. */
  lemma FailedSingles<T>(test: seq<T> -> bool, cur: seq<T>)
    requires |cur| > 1 && AllFail(test, cur, 1, 0)
    ensures OneMinimal(test, cur)
  {
    forall i: nat | i < |cur| ensures !test(Without(cur, i, 1)) {
      SingleFails(test, cur, 0, i);
      assert |Without(cur, i, 1)| == |cur| - 1;
    }
  }

  lemma {:induction false} SingleFails<T>(test: seq<T> -> bool, cur: seq<T>, from: nat, i: nat)
    requires from <= i < |cur| && AllFail(test, cur, 1, from)
    ensures !Passes(test, cur, i, 1)
    decreases i - from
  {
    if from < i { SingleFails(test, cur, from + 1, i); }
  }

  lemma SmallChunk(len: nat, n: nat)
    requires 0 < len <= n
    ensures Max1(len / n) == 1
  {
    if len < n { assert len / n == 0; } else { assert len / n == 1; }
  }

  ghost predicate HalfPasses<T>(test: seq<T> -> bool, input: seq<T>) {
    |input| >= 2 && test(input[|input| / 2..])
  }

  /** The reduction loop, for any deterministic test, monotone or not. The coarsest removal comes first:
      when the second half passes, all that is left comes from it. */
  method Reduce<T>(input: seq<T>, test: seq<T> -> bool) returns (cur: seq<T>)
    ensures Subsequence(cur, input) && (test(input) ==> test(cur)) && OneMinimal(test, cur)
    ensures input != [] ==> cur != []
    ensures HalfPasses(test, input) ==> Subsequence(cur, input[|input| / 2..])
  {
    cur := input;
    var n := 2;
    SubsequenceSelf(input);
    while |cur| > 1
      invariant Subsequence(cur, input) && (test(input) ==> test(cur)) && n >= 2 && (input != [] ==> cur != [])
      invariant HalfPasses(test, input) ==> (cur == input && n == 2) || Subsequence(cur, input[|input| / 2..])
      decreases |cur|, |cur| - n
    {
      var chunk := Max1(|cur| / n);
      var before := cur;
      var progressed;
      cur, progressed := Pass(before, test, chunk);
      SubsequenceTrans(cur, before, input);
      if HalfPasses(test, input) && !(before == input && n == 2) { SubsequenceTrans(cur, before, input[|input| / 2..]); }
      if progressed {
        n := 2;
      } else if n >= |cur| {
        SmallChunk(|cur|, n);
        FailedSingles(test, cur);
        return;
      } else {
        n := if |cur| < n * 2 then |cur| else n * 2;
      }
    }
  }
}
