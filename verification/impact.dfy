/** The per-file figure the report colours by: how many pull requests touch
    the file, and `1 - count / total` as an exact rational. */
module Impact {
  import opened TouchedLines
  import opened Aggregate
  import opened Sets

  /** The pull requests whose line map has `path` as a key. */
  function TouchingPrs(path: Path, lookup: Lookup): (s: set<nat>)
    ensures s <= lookup.Keys
    ensures forall n :: n in s <==> n in lookup && path in lookup[n]
  {
    set n | n in lookup && path in lookup[n]
  }

  /** The number of pull requests touching `path`; never more than there are. */
  function TouchCount(path: Path, lookup: Lookup): (c: nat)
    ensures c <= |lookup|
    ensures c == 0 <==> forall n :: n in lookup ==> path !in lookup[n]
    ensures c == |lookup| <==> forall n :: n in lookup ==> path in lookup[n]
  {
    TouchingBounds(path, lookup);
    |TouchingPrs(path, lookup)|
  }

  /** The touching set is as large as the lookup only when it is all of it. */
  lemma TouchingBounds(path: Path, lookup: Lookup)
    ensures |TouchingPrs(path, lookup)| <= |lookup|
    ensures |TouchingPrs(path, lookup)| == |lookup| <==> TouchingPrs(path, lookup) == lookup.Keys
  {
    var s := TouchingPrs(path, lookup);
    SubsetCardinality(s, lookup.Keys);
    if |s| == |lookup.Keys| {
      SubsetSameCardinality(s, lookup.Keys);
    }
  }

  /** The summation the program performs: one pass over the lookup adding one
      for each line map that contains `path`. */
  method CountTouching(path: Path, lookup: Lookup) returns (count: nat)
    ensures count == |TouchingPrs(path, lookup)|
    ensures count <= |lookup|
  {
    count := 0;
    var pending := lookup.Keys;
    while pending != {}
      invariant pending <= lookup.Keys
      invariant count == |TouchingPrs(path, lookup) - pending|
      decreases pending
    {
      var n :| n in pending;
      CountStep(TouchingPrs(path, lookup), pending, n);
      if path in lookup[n] {
        count := count + 1;
      }
      pending := pending - {n};
    }
    assert TouchingPrs(path, lookup) - pending == TouchingPrs(path, lookup);
    SubsetCardinality(TouchingPrs(path, lookup), lookup.Keys);
  }

  /** Taking `n` out of the pending set adds `n` to the counted part of `s`
      exactly when `n` is in `s`. */
  lemma CountStep(s: set<nat>, pending: set<nat>, n: nat)
    requires n in pending
    ensures |s - (pending - {n})| == |s - pending| + (if n in s then 1 else 0)
  {
    if n in s {
      assert s - (pending - {n}) == (s - pending) + {n};
    } else {
      assert s - (pending - {n}) == s - pending;
    }
  }

  /** The impact fraction of `path`: 1 when no pull request touches it (the
      coldest colour), 0 when every one does (the hottest). The program divides
      by the number of pull requests, so an empty lookup is excluded. */
  function Fraction(path: Path, lookup: Lookup): (f: real)
    requires |lookup| > 0
    ensures 0.0 <= f <= 1.0
    ensures f == 1.0 <==> forall n :: n in lookup ==> path !in lookup[n]
    ensures f == 0.0 <==> forall n :: n in lookup ==> path in lookup[n]
  {
    var c := TouchCount(path, lookup) as real;
    var t := |lookup| as real;
    RatioBounds(c, t);
    1.0 - c / t
  }

  /** A count out of a positive total is a ratio in [0,1], at its ends exactly
      for none and for all. */
  lemma RatioBounds(c: real, t: real)
    requires 0.0 < t && 0.0 <= c <= t
    ensures 0.0 <= c / t <= 1.0
    ensures c / t == 1.0 <==> c == t
    ensures c / t == 0.0 <==> c == 0.0
  {
    assert c / t * t == c;
  }

  /** A file touched by more pull requests than another is at least as hot. */
  lemma FractionAntitone(p: Path, q: Path, lookup: Lookup)
    requires |lookup| > 0
    requires TouchCount(p, lookup) <= TouchCount(q, lookup)
    ensures Fraction(q, lookup) <= Fraction(p, lookup)
  {
    var t := |lookup| as real;
    var cp := TouchCount(p, lookup) as real;
    var cq := TouchCount(q, lookup) as real;
    assert cp <= cq;
    assert cq / t - cp / t == (cq - cp) / t;
  }

  /** The share of the pull requests that do not touch `path`. */
  function UntouchedShare(path: Path, lookup: Lookup): real
    requires |lookup| > 0
  {
    (|lookup.Keys - TouchingPrs(path, lookup)| as real) / (|lookup| as real)
  }

  /** The fraction is the share of pull requests that leave the file alone. */
  lemma FractionIsUntouchedShare(path: Path, lookup: Lookup)
    requires |lookup| > 0
    ensures Fraction(path, lookup) == UntouchedShare(path, lookup)
  {
    var s := TouchingPrs(path, lookup);
    assert |lookup.Keys - s| == |lookup.Keys| - |s| by {
      assert (lookup.Keys - s) + s == lookup.Keys;
      assert (lookup.Keys - s) * s == {};
    }
    Complement(|s| as real, |lookup| as real);
  }

  /** One minus a ratio is the ratio of the complement. */
  lemma Complement(c: real, t: real)
    requires 0.0 < t
    ensures 1.0 - c / t == (t - c) / t
  {
    assert t / t == 1.0;
    assert (t - c) / t == t / t - c / t;
  }

  /** A file touched by strictly more pull requests than another is strictly
      hotter. */
  lemma FractionStrictlyAntitone(p: Path, q: Path, lookup: Lookup)
    requires |lookup| > 0
    requires TouchCount(p, lookup) < TouchCount(q, lookup)
    ensures Fraction(q, lookup) < Fraction(p, lookup)
  {
    var t := |lookup| as real;
    var cp := TouchCount(p, lookup) as real;
    var cq := TouchCount(q, lookup) as real;
    assert cq / t - cp / t == (cq - cp) / t;
  }

  /** A pull request whose diff has no hunks touches no file. */
  lemma EmptyDiffTouchesNothing(path: Path, lookup: Lookup, n: nat)
    requires n in lookup && lookup[n] == Collect([])
    ensures n !in TouchingPrs(path, lookup)
  {
  }

  /** Two pull requests, #1 touching `b.txt` and #2 touching nothing: `a.txt`
      scores 1 and `b.txt` scores one half. */
  lemma TwoPullRequestScenario()
    ensures Fraction("a.txt", map[1 := map["b.txt" := [3]], 2 := map[]]) == 1.0
    ensures Fraction("b.txt", map[1 := map["b.txt" := [3]], 2 := map[]]) == 0.5
  {
    var lookup: Lookup := map[1 := map["b.txt" := [3]], 2 := map[]];
    assert "a.txt"[0] != "b.txt"[0];
    assert TouchingPrs("b.txt", lookup) == {1};
    assert |lookup.Keys| == 2 by {
      assert lookup.Keys == {1, 2};
    }
  }
}
