/** Candidate selection shared by both passes of lib/super_replace.rb: the
    glob's results minus the results of every ignore glob, with Ruby's
    `Array#-` (order kept, every copy of an ignored path removed). */
module Candidates {

  /** Resolves a glob pattern against the working tree, in the order the
      platform lists it. The globbing itself is not part of this model. */
  type Glob = string -> seq<string>

  /** Ruby's `a - b`: the elements of `a` that do not occur in `b`, in
      their order in `a`, duplicates included. */
  function Subtract(a: seq<string>, b: seq<string>): seq<string>
  {
    if a == [] then []
    else if a[0] in b then Subtract(a[1..], b)
    else [a[0]] + Subtract(a[1..], b)
  }

  /** Everything the ignore patterns resolve to, pattern after pattern. */
  function Ignored(patterns: seq<string>, glob: Glob): seq<string>
  {
    if patterns == [] then [] else Ignored(patterns[..|patterns| - 1], glob) + glob(patterns[|patterns| - 1])
  }

  lemma IgnoredMembers(patterns: seq<string>, glob: Glob)
    ensures forall x :: x in Ignored(patterns, glob) <==>
              exists i :: 0 <= i < |patterns| && x in glob(patterns[i])
  {
    if patterns != [] {
      var init := patterns[..|patterns| - 1];
      IgnoredMembers(init, glob);
      forall x | x in Ignored(patterns, glob)
        ensures exists i :: 0 <= i < |patterns| && x in glob(patterns[i])
      {
        if x in Ignored(init, glob) {
          var i :| 0 <= i < |init| && x in glob(init[i]);
          assert patterns[i] == init[i];
        }
      }
      forall x, i | 0 <= i < |patterns| && x in glob(patterns[i])
        ensures x in Ignored(patterns, glob)
      {
        if i < |init| { assert patterns[i] == init[i]; }
      }
    }
  }

  /** Nothing but the subtracted paths is dropped: every path keeps as many
      copies as it had, unless it is subtracted, and then none is left. */
  lemma {:induction false} SubtractCounts(a: seq<string>, b: seq<string>)
    ensures forall x :: multiset(Subtract(a, b))[x] == if x in b then 0 else multiset(a)[x]
  {
    if a != [] {
      SubtractCounts(a[1..], b);
      assert a == [a[0]] + a[1..];
      assert multiset(a) == multiset{a[0]} + multiset(a[1..]);
    }
  }

  /** Membership in the difference, both directions. */
  lemma SubtractMembers(a: seq<string>, b: seq<string>)
    ensures forall x :: x in Subtract(a, b) <==> x in a && x !in b
  {
    SubtractCounts(a, b);
    forall x ensures x in Subtract(a, b) <==> x in a && x !in b {
      assert x in Subtract(a, b) <==> multiset(Subtract(a, b))[x] > 0;
      assert x in a <==> multiset(a)[x] > 0;
    }
  }

  /** Order is kept: the difference of a concatenation is the concatenation
      of the differences. */
  lemma {:induction false} SubtractAppend(a1: seq<string>, a2: seq<string>, b: seq<string>)
    ensures Subtract(a1 + a2, b) == Subtract(a1, b) + Subtract(a2, b)
  {
    if a1 != [] {
      assert (a1 + a2)[1..] == a1[1..] + a2;
      SubtractAppend(a1[1..], a2, b);
    } else {
      assert a1 + a2 == a2;
    }
  }

  /** Subtracting one list after another is subtracting their union. */
  lemma {:induction false} SubtractTwice(a: seq<string>, b: seq<string>, c: seq<string>)
    ensures Subtract(Subtract(a, b), c) == Subtract(a, b + c)
  {
    if a != [] {
      SubtractTwice(a[1..], b, c);
      if a[0] !in b {
        assert Subtract(a, b) == [a[0]] + Subtract(a[1..], b);
      }
    }
  }

  /** Subtracting nothing keeps everything. */
  lemma {:induction false} SubtractNothing(a: seq<string>)
    ensures Subtract(a, []) == a
  {
    if a != [] {
      SubtractNothing(a[1..]);
      assert [a[0]] + a[1..] == a;
    }
  }

  /** No path is listed twice. */
  predicate Distinct(a: seq<string>)
  {
    forall i, j :: 0 <= i < j < |a| ==> a[i] != a[j]
  }

  /** The difference of a list without repeats has no repeats. */
  lemma {:induction false} SubtractDistinct(a: seq<string>, b: seq<string>)
    requires Distinct(a)
    ensures Distinct(Subtract(a, b))
  {
    if a != [] {
      assert Distinct(a[1..]);
      SubtractDistinct(a[1..], b);
      SubtractMembers(a[1..], b);
      assert a[0] !in a[1..];
    }
  }

  /** The ignore loop of replace_paths and replace_contents: `candidates -=
      glob(pattern)` for each ignore pattern in turn. The result is the
      candidates minus everything any ignore pattern resolves to. */
  method FilterCandidates(candidates: seq<string>, ignorePatterns: seq<string>, glob: Glob)
    returns (kept: seq<string>)
    ensures kept == Subtract(candidates, Ignored(ignorePatterns, glob))
  {
    kept := candidates;
    SubtractNothing(candidates);
    for i := 0 to |ignorePatterns|
      invariant kept == Subtract(candidates, Ignored(ignorePatterns[..i], glob))
    {
      var ignore := glob(ignorePatterns[i]);
      SubtractTwice(candidates, Ignored(ignorePatterns[..i], glob), ignore);
      kept := Subtract(kept, ignore);
      assert ignorePatterns[..i + 1][..i] == ignorePatterns[..i];
    }
    assert ignorePatterns[..|ignorePatterns|] == ignorePatterns;
  }

  /** What the filter keeps, in terms of the patterns: exactly the candidates
      that no ignore pattern lists. */
  lemma FilterKeeps(candidates: seq<string>, ignorePatterns: seq<string>, glob: Glob)
    ensures forall x :: x in Subtract(candidates, Ignored(ignorePatterns, glob)) <==>
              x in candidates && forall i :: 0 <= i < |ignorePatterns| ==> x !in glob(ignorePatterns[i])
  {
    SubtractMembers(candidates, Ignored(ignorePatterns, glob));
    IgnoredMembers(ignorePatterns, glob);
  }
}
