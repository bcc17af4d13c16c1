/** The aggregation loop: for each considered pull request, the diff between
    the merge base and the head is turned into a line map and stored under the
    pull request's number. Resolving commits, trees, the merge base and the
    diff itself happens outside this model; `diffOf` stands for all of it and
    either yields the hunks or the error that aborts the run. */
module Aggregate {
  import opened Wrappers
  import opened PullRequests
  import opened TouchedLines
  import opened Sets

  /** Why the repository could not produce a pull request's diff. */
  datatype RepoError =
    | InvalidOid(text: string)
    | CommitNotFound(id: CommitId)
    | RefNotFound(name: string)
    | MergeBaseNotFound
    | DiffFailed

  /** Line maps per pull request number. */
  type Lookup = map<nat, LineMap>

  /** The repository's answer for one pull request: its diff hunks from the
      merge base with the target branch to the head commit, or an error. */
  type DiffSource = PullRequest -> Result<seq<Hunk>, RepoError>

  /** The loop over `prs` in order; the first error stops it. */
  function AggregateAll(prs: seq<PullRequest>, diffOf: DiffSource): (r: Result<Lookup, RepoError>)
    ensures r.Success? ==> forall n, p :: n in r.value && p in r.value[n] ==> p !in IgnoredFiles
  {
    if |prs| == 0 then Success(map[])
    else
      match AggregateAll(prs[..|prs| - 1], diffOf)
      case Failure(e) => Failure(e)
      case Success(acc) =>
        var pr := prs[|prs| - 1];
        match diffOf(pr)
        case Failure(e) => Failure(e)
        case Success(hunks) => Success(acc[pr.number := Collect(hunks)])
  }

  /** The lookup the program builds from the JSON's pull requests. */
  function BuildLookup(prs: seq<PullRequest>, diffOf: DiffSource): (r: Result<Lookup, RepoError>)
    ensures r.Success? <==> forall i :: 0 <= i < |prs| && i < PrLimit ==> diffOf(prs[i]).Success?
  {
    var ps := Considered(prs);
    AggregateSucceeds(ps, diffOf);
    assert forall i :: 0 <= i < |ps| ==> ps[i] == prs[i];
    AggregateAll(ps, diffOf)
  }

  /** The loop completes exactly when every diff can be produced. */
  lemma {:induction false} AggregateSucceeds(prs: seq<PullRequest>, diffOf: DiffSource)
    ensures AggregateAll(prs, diffOf).Success? <==> forall i :: 0 <= i < |prs| ==> diffOf(prs[i]).Success?
  {
    if |prs| > 0 {
      var init := prs[..|prs| - 1];
      AggregateSucceeds(init, diffOf);
      if !AggregateAll(init, diffOf).Success? {
        var i :| 0 <= i < |init| && !diffOf(init[i]).Success?;
        assert !diffOf(prs[i]).Success?;
      }
      if forall i :: 0 <= i < |prs| ==> diffOf(prs[i]).Success? {
        assert forall i :: 0 <= i < |init| ==> init[i] == prs[i];
      }
    }
  }

  /** A failed loop reports the error of the first pull request whose diff
      cannot be produced. */
  lemma {:induction false} AggregateFirstError(prs: seq<PullRequest>, diffOf: DiffSource)
    requires AggregateAll(prs, diffOf).Failure?
    ensures exists i ::
              && 0 <= i < |prs|
              && diffOf(prs[i]) == Failure(AggregateAll(prs, diffOf).error)
              && forall j :: 0 <= j < i ==> diffOf(prs[j]).Success?
  {
    var init := prs[..|prs| - 1];
    var last := |prs| - 1;
    if AggregateAll(init, diffOf).Failure? {
      AggregateFirstError(init, diffOf);
      var i :| 0 <= i < |init|
        && diffOf(init[i]) == Failure(AggregateAll(init, diffOf).error)
        && forall j :: 0 <= j < i ==> diffOf(init[j]).Success?;
      assert forall j :: 0 <= j <= i ==> init[j] == prs[j];
    } else {
      AggregateSucceeds(init, diffOf);
      assert forall j :: 0 <= j < last ==> init[j] == prs[j];
      assert diffOf(prs[last]) == Failure(AggregateAll(prs, diffOf).error);
    }
  }

  /** The keys of the lookup are exactly the numbers of the pull requests
      processed. */
  lemma {:induction false} AggregateKeys(prs: seq<PullRequest>, diffOf: DiffSource)
    requires AggregateAll(prs, diffOf).Success?
    ensures forall n :: n in AggregateAll(prs, diffOf).value <==> exists i :: 0 <= i < |prs| && prs[i].number == n
  {
    if |prs| > 0 {
      var init := prs[..|prs| - 1];
      AggregateKeys(init, diffOf);
      var lookup := AggregateAll(prs, diffOf).value;
      forall n
        ensures n in lookup <==> exists i :: 0 <= i < |prs| && prs[i].number == n
      {
        if n in AggregateAll(init, diffOf).value {
          var i :| 0 <= i < |init| && init[i].number == n;
          assert prs[i].number == n;
        }
        if exists i :: 0 <= i < |prs| && prs[i].number == n {
          var i :| 0 <= i < |prs| && prs[i].number == n;
          if i < |init| {
            assert init[i].number == n;
          }
        }
      }
    }
  }

  /** When numbers repeat, the entry of the later pull request wins: the value
      under a number is the line map of the last pull request carrying it. */
  lemma {:induction false} AggregateLastWins(prs: seq<PullRequest>, diffOf: DiffSource, i: nat)
    requires AggregateAll(prs, diffOf).Success?
    requires i < |prs|
    requires forall j :: i < j < |prs| ==> prs[j].number != prs[i].number
    ensures diffOf(prs[i]).Success? && prs[i].number in AggregateAll(prs, diffOf).value
    ensures AggregateAll(prs, diffOf).value[prs[i].number] == Collect(diffOf(prs[i]).value)
  {
    AggregateSucceeds(prs, diffOf);
    var init := prs[..|prs| - 1];
    if i < |init| {
      AggregateLastWins(init, diffOf, i);
    }
  }

  /** The lookup's keys are exactly the numbers of the first hundred pull
      requests, so it has at most a hundred entries. */
  lemma LookupBounded(prs: seq<PullRequest>, diffOf: DiffSource)
    requires BuildLookup(prs, diffOf).Success?
    ensures |BuildLookup(prs, diffOf).value| <= PrLimit
    ensures forall n :: n in BuildLookup(prs, diffOf).value <==>
      exists i :: 0 <= i < |prs| && i < PrLimit && prs[i].number == n
  {
    var ps := Considered(prs);
    AggregateKeys(ps, diffOf);
    assert forall i :: 0 <= i < |ps| ==> ps[i] == prs[i];
    var lookup := BuildLookup(prs, diffOf).value;
    assert lookup.Keys <= set i | 0 <= i < |ps| :: ps[i].number;
    CardinalityOfNumbers(ps);
    SubsetCardinality(lookup.Keys, set i | 0 <= i < |ps| :: ps[i].number);
  }

  lemma {:induction false} CardinalityOfNumbers(ps: seq<PullRequest>)
    ensures |set i | 0 <= i < |ps| :: ps[i].number| <= |ps|
  {
    if |ps| > 0 {
      var init := ps[..|ps| - 1];
      CardinalityOfNumbers(init);
      assert (set i | 0 <= i < |ps| :: ps[i].number)
          == (set i | 0 <= i < |init| :: init[i].number) + {ps[|ps| - 1].number};
    }
  }
}
