/** The three stages in the order the program runs them: sync the branches,
    build the lookup, and compute the report's rows. */
module Pipeline {
  import opened Wrappers
  import opened PullRequests
  import opened Aggregate
  import opened Sync
  import opened Report
  import opened Impact

  /** A run's error. A failed fetch carries the branches the sync loop left;
      a repository error comes after the whole sync stage, so it carries the
      synced branches. */
  datatype RunError = SyncFailed(sync: SyncError) | RepoFailed(repo: RepoError, branches: BranchTable)

  /** The local branches after a run, whatever its outcome. */
  function BranchesLeft(r: Result<(BranchTable, seq<Row>), RunError>): BranchTable {
    match r
    case Success((branches, _)) => branches
    case Failure(SyncFailed(e)) => e.branches
    case Failure(RepoFailed(_, branches)) => branches
  }

  /** A run's outcome: the local branches afterwards and the report's rows.
      With no pull requests the program divides by zero, so at least one is
      required. */
  function Run(branches: BranchTable, prs: seq<PullRequest>, remote: Remote,
               diffOf: DiffSource, walk: seq<WalkEntry>): (r: Result<(BranchTable, seq<Row>), RunError>)
    requires |prs| > 0
    ensures r.Success? <==> SyncBranches(branches, prs, remote).Success? && BuildLookup(prs, diffOf).Success?
    ensures SyncBranches(branches, prs, remote).Failure? ==>
      r == Failure(SyncFailed(SyncBranches(branches, prs, remote).error))
    ensures SyncBranches(branches, prs, remote).Success? && BuildLookup(prs, diffOf).Failure? ==>
      r == Failure(RepoFailed(BuildLookup(prs, diffOf).error, SyncBranches(branches, prs, remote).value.branches))
    ensures branches.Keys <= BranchesLeft(r).Keys
    ensures r.Success? ==> r.value.0 == SyncBranches(branches, prs, remote).value.branches
    ensures r.Success? ==> RowsReport(r.value.1, walk, BuildLookup(prs, diffOf).value)
  {
    match SyncBranches(branches, prs, remote)
    case Failure(e) => Failure(SyncFailed(e))
    case Success(st) =>
      match BuildLookup(prs, diffOf)
      case Failure(e) => Failure(RepoFailed(e, st.branches))
      case Success(lookup) =>
        AggregateKeys(Considered(prs), diffOf);
        assert prs[0].number in lookup;
        Success((st.branches, ReportRows(walk, lookup)))
  }

  /** Both stages walk the same first hundred pull requests, so every number
      in the lookup has a local branch once the sync stage has succeeded. */
  lemma LookupBranchesExist(branches: BranchTable, prs: seq<PullRequest>, remote: Remote, diffOf: DiffSource)
    requires SyncBranches(branches, prs, remote).Success?
    requires BuildLookup(prs, diffOf).Success?
    ensures forall n :: n in BuildLookup(prs, diffOf).value ==>
      BranchName(n) in SyncBranches(branches, prs, remote).value.branches
  {
    var ps := Considered(prs);
    AggregateKeys(ps, diffOf);
    SyncCreatesBranches(SyncState(branches, []), ps, remote);
  }
}
