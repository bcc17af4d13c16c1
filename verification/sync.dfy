/** The branch sync loop: each considered pull request's head is kept in a
    local branch `pull-request-<number>`, and `git fetch` is run only when that
    branch is missing or points at another commit. The fetch itself is
    external; `remote` stands for it and yields the commit the branch points at
    afterwards, or `None` when the command exits with a failure status. */
module Sync {
  import opened Wrappers
  import opened PullRequests
  import Decimal

  /** Local branches by name, each with the commit id of its tip. */
  type BranchTable = map<string, CommitId>

  const BranchPrefix: string := "pull-request-"

  /** The local branch a pull request is fetched into. */
  function BranchName(n: nat): (name: string)
    ensures BranchPrefix <= name
    ensures ParseBranchName(name) == Some(n)
  {
    var name := BranchPrefix + Decimal.Show(n);
    assert name[..|BranchPrefix|] == BranchPrefix;
    assert name[|BranchPrefix|..] == Decimal.Show(n);
    Decimal.ParseShow(n);
    name
  }

  /** Recovers the number from a pull request branch name. */
  function ParseBranchName(s: string): Option<nat> {
    if |s| >= |BranchPrefix| && s[..|BranchPrefix|] == BranchPrefix
    then Decimal.ParseNat(s[|BranchPrefix|..])
    else None
  }

  /** Every name `ParseBranchName` accepts is the branch name of its number. */
  lemma ParseBranchNameSound(s: string, n: nat)
    requires ParseBranchName(s) == Some(n)
    ensures BranchName(n) == s
  {
    Decimal.ShowParse(s[|BranchPrefix|..], n);
    assert s == s[..|BranchPrefix|] + s[|BranchPrefix|..];
  }

  /** Two pull requests share a local branch only if they share a number. */
  lemma BranchNameInjective(n: nat, m: nat)
    ensures BranchName(n) == BranchName(m) ==> n == m
  {
  }

  /** The arguments of one `git fetch <origin> <refspec>` invocation. */
  datatype FetchRequest = FetchRequest(origin: string, refspec: string)

  const OriginPrefix: string := "git@github.com:"

  /** The SSH remote of a fork, `git@github.com:<user>/<repo>`. The owner and
      the repository can be read back from it, since a GitHub login has no
      `/` in it. */
  function Origin(user: string, repoName: string): (origin: string)
    ensures OriginPrefix <= origin
    ensures '/' !in user ==> ParseOrigin(origin) == Some((user, repoName))
  {
    OriginRoundTrip(user, repoName);
    OriginPrefix + user + "/" + repoName
  }

  /** Reads the owner and the repository back from an SSH remote. */
  function ParseOrigin(s: string): Option<(string, string)> {
    if |s| >= |OriginPrefix| && s[..|OriginPrefix|] == OriginPrefix then
      var rest := s[|OriginPrefix|..];
      match FirstIndex(rest, '/')
      case None => None
      case Some(i) => Some((rest[..i], rest[i + 1..]))
    else None
  }

  lemma OriginRoundTrip(user: string, repoName: string)
    ensures '/' !in user ==> ParseOrigin(OriginPrefix + user + "/" + repoName) == Some((user, repoName))
  {
    if '/' !in user {
      var origin := OriginPrefix + user + "/" + repoName;
      assert origin[..|OriginPrefix|] == OriginPrefix;
      var rest := origin[|OriginPrefix|..];
      assert rest == user + ['/'] + repoName;
      SplitAtFirst(user, repoName, '/');
      assert rest[..|user|] == user && rest[|user| + 1..] == repoName;
    }
  }

  /** The refspec `<from>:<to>` fetching remote branch `from` into local `to`. */
  function Refspec(from: string, to: string): string {
    from + ":" + to
  }

  /** The position of the first `c` in `s`, if any. */
  function FirstIndex(s: string, c: char): (r: Option<nat>)
    ensures r.Some? ==> r.value < |s| && s[r.value] == c && forall j :: 0 <= j < r.value ==> s[j] != c
    ensures r.None? ==> c !in s
  {
    if |s| == 0 then None
    else if s[0] == c then Some(0)
    else match FirstIndex(s[1..], c)
      case None => None
      case Some(i) => Some(i + 1)
  }

  /** Joining two texts with a separator absent from the first puts the first
      separator right after the first text. */
  lemma SplitAtFirst(a: string, b: string, c: char)
    requires c !in a
    ensures FirstIndex(a + [c] + b, c) == Some(|a|)
  {
    var s := a + [c] + b;
    var i := FirstIndex(s, c).value;
    assert i == |a| by {
      assert s[|a|] == c;
      assert forall j :: 0 <= j < |a| ==> s[j] == a[j];
    }
  }

  /** Splits a refspec into its source and destination at the first `:`. */
  function SplitRefspec(s: string): Option<(string, string)> {
    match FirstIndex(s, ':')
    case None => None
    case Some(i) => Some((s[..i], s[i + 1..]))
  }

  /** A refspec determines its two sides when its source side has no `:` (git
      forbids `:` in branch names). */
  lemma RefspecRoundTrip(from: string, to: string)
    ensures ':' !in from ==> SplitRefspec(Refspec(from, to)) == Some((from, to))
  {
    if ':' !in from {
      var s := Refspec(from, to);
      assert s == from + [':'] + to;
      SplitAtFirst(from, to, ':');
      assert s[..|from|] == from && s[|from| + 1..] == to;
    }
  }

  /** The fetch the program runs for a pull request: from the head
      repository's owner and name, the head branch into `pull-request-<n>`. */
  function RequestFor(pr: PullRequest): (req: FetchRequest)
    ensures '/' !in pr.headRepositoryOwnerLogin ==>
      ParseOrigin(req.origin) == Some((pr.headRepositoryOwnerLogin, pr.headRepositoryName))
    ensures ':' !in pr.headRefName ==>
      SplitRefspec(req.refspec) == Some((pr.headRefName, BranchName(pr.number)))
  {
    RefspecRoundTrip(pr.headRefName, BranchName(pr.number));
    FetchRequest(
        Origin(pr.headRepositoryOwnerLogin, pr.headRepositoryName),
        Refspec(pr.headRefName, BranchName(pr.number)))
  }

  /** The tip of branch `b`, if the branch exists. */
  function Tip(branches: BranchTable, b: string): Option<CommitId> {
    if b in branches then Some(branches[b]) else None
  }

  /** A fetch is needed when the local branch is absent or its tip is not the
      pull request's head commit: it is skipped exactly when the branch
      already holds the head. */
  function NeedsFetch(branches: BranchTable, pr: PullRequest): (needed: bool)
    ensures !needed <==> Tip(branches, BranchName(pr.number)) == Some(pr.headRefOid)
  {
    var b := BranchName(pr.number);
    b !in branches || branches[b] != pr.headRefOid
  }

  /** What git reports after `git fetch`: the fetched branch's new tip, or
      `None` for a non-zero exit status. */
  type Remote = FetchRequest -> Option<CommitId>

  /** A failed fetch, with the local branches as the loop leaves them: the
      fetches before it have already moved their branches. */
  datatype SyncError = FetchFailed(request: FetchRequest, branches: BranchTable)

  /** The local branches, and the fetches run so far, in order. */
  datatype SyncState = SyncState(branches: BranchTable, fetches: seq<FetchRequest>)

  /** One iteration of the sync loop. */
  function SyncStep(st: SyncState, pr: PullRequest, remote: Remote): (r: Result<SyncState, SyncError>)
    ensures r.Failure? ==> NeedsFetch(st.branches, pr) && r.error == FetchFailed(RequestFor(pr), st.branches)
    ensures r.Failure? <==> NeedsFetch(st.branches, pr) && remote(RequestFor(pr)).None?
    ensures r.Success? ==>
      && (r.value.fetches == st.fetches + [RequestFor(pr)] <==> NeedsFetch(st.branches, pr))
      && (r.value.fetches == st.fetches <==> !NeedsFetch(st.branches, pr))
      && BranchName(pr.number) in r.value.branches
      && r.value.branches.Keys == st.branches.Keys + {BranchName(pr.number)}
      && forall b :: b in st.branches && b != BranchName(pr.number) ==> r.value.branches[b] == st.branches[b]
    ensures !NeedsFetch(st.branches, pr) ==> r == Success(st)
    ensures r.Success? && NeedsFetch(st.branches, pr) ==>
      remote(RequestFor(pr)).Some? && r.value.branches[BranchName(pr.number)] == remote(RequestFor(pr)).value
  {
    if NeedsFetch(st.branches, pr) then
      var req := RequestFor(pr);
      match remote(req)
      case None => Failure(FetchFailed(req, st.branches))
      case Some(tip) => Success(SyncState(st.branches[BranchName(pr.number) := tip], st.fetches + [req]))
    else Success(st)
  }

  /** The sync loop over `prs` in order; the first failing fetch stops it. */
  function SyncAll(st: SyncState, prs: seq<PullRequest>, remote: Remote): (r: Result<SyncState, SyncError>)
    ensures r.Success? ==> st.branches.Keys <= r.value.branches.Keys
    ensures r.Success? ==> st.fetches <= r.value.fetches
    ensures r.Success? ==> |r.value.fetches| <= |st.fetches| + |prs|
    ensures r.Failure? ==> st.branches.Keys <= r.error.branches.Keys
    decreases |prs|
  {
    if |prs| == 0 then Success(st)
    else
      match SyncStep(st, prs[0], remote)
      case Failure(e) => Failure(e)
      case Success(st') => SyncAll(st', prs[1..], remote)
  }

  /** The loop completes when every fetch it might need exits successfully. */
  lemma {:induction false} SyncSucceeds(st: SyncState, prs: seq<PullRequest>, remote: Remote)
    requires forall i :: 0 <= i < |prs| ==> remote(RequestFor(prs[i])).Some?
    ensures SyncAll(st, prs, remote).Success?
    decreases |prs|
  {
    if |prs| > 0 {
      assert forall i :: 0 <= i < |prs[1..]| ==> prs[1..][i] == prs[i + 1];
      SyncSucceeds(SyncStep(st, prs[0], remote).value, prs[1..], remote);
    }
  }

  /** A failed loop stops at its first failing step: the loop over the pull
      requests before it succeeds, that step fails (so its fetch was needed and
      its command failed), and the error names its request and the branches
      the earlier steps left. */
  lemma {:induction false} SyncFirstError(st: SyncState, prs: seq<PullRequest>, remote: Remote)
    requires SyncAll(st, prs, remote).Failure?
    ensures exists i ::
      && 0 <= i < |prs|
      && SyncAll(st, prs[..i], remote).Success?
      && SyncStep(SyncAll(st, prs[..i], remote).value, prs[i], remote).Failure?
      && SyncAll(st, prs, remote).error == FetchFailed(RequestFor(prs[i]), SyncAll(st, prs[..i], remote).value.branches)
    decreases |prs|
  {
    match SyncStep(st, prs[0], remote)
    case Failure(e) =>
      assert prs[..0] == [];
    case Success(st') =>
      SyncFirstError(st', prs[1..], remote);
      var i :|
        && 0 <= i < |prs[1..]|
        && SyncAll(st', prs[1..][..i], remote).Success?
        && SyncStep(SyncAll(st', prs[1..][..i], remote).value, prs[1..][i], remote).Failure?
        && SyncAll(st', prs[1..], remote).error
             == FetchFailed(RequestFor(prs[1..][i]), SyncAll(st', prs[1..][..i], remote).value.branches);
      PrefixUnfold(st, st', prs, remote, i);
      assert prs[i + 1] == prs[1..][i];
  }

  /** The loop over the first i + 1 pull requests is its first step followed by
      the loop over the next i. */
  lemma PrefixUnfold(st: SyncState, st': SyncState, prs: seq<PullRequest>, remote: Remote, i: nat)
    requires i < |prs| && SyncStep(st, prs[0], remote) == Success(st')
    ensures SyncAll(st, prs[..i + 1], remote) == SyncAll(st', prs[1..][..i], remote)
  {
    assert prs[..i + 1][0] == prs[0] && prs[..i + 1][1..] == prs[1..][..i];
  }

  /** The sync stage as the program runs it, from the local branches as found. */
  function SyncBranches(branches: BranchTable, prs: seq<PullRequest>, remote: Remote): (r: Result<SyncState, SyncError>)
    ensures r.Success? ==> branches.Keys <= r.value.branches.Keys
    ensures r.Success? ==> |r.value.fetches| <= PrLimit
    ensures r.Failure? ==> branches.Keys <= r.error.branches.Keys
  {
    SyncAll(SyncState(branches, []), Considered(prs), remote)
  }

  /** Every pull request's branch exists and points at its head commit. */
  predicate AllSynced(branches: BranchTable, prs: seq<PullRequest>) {
    forall i :: 0 <= i < |prs| ==> !NeedsFetch(branches, prs[i])
  }

  /** Pull requests sharing a number also share a head commit. */
  predicate ConsistentNumbers(prs: seq<PullRequest>) {
    forall i, j :: 0 <= i < |prs| && 0 <= j < |prs| && prs[i].number == prs[j].number ==>
      prs[i].headRefOid == prs[j].headRefOid
  }

  /** Every fetch succeeds and leaves the branch at the pull request's head. */
  predicate FaithfulRemote(remote: Remote, prs: seq<PullRequest>) {
    forall i :: 0 <= i < |prs| ==> remote(RequestFor(prs[i])) == Some(prs[i].headRefOid)
  }

  /** The fetch decision stated through the branch names: no fetch is needed
      exactly when some local branch whose name reads as this pull request's
      number already holds its head commit. */
  lemma NeedsFetchByParse(branches: BranchTable, pr: PullRequest)
    ensures !NeedsFetch(branches, pr) <==>
      exists b :: b in branches && ParseBranchName(b) == Some(pr.number) && branches[b] == pr.headRefOid
  {
    if exists b :: b in branches && ParseBranchName(b) == Some(pr.number) && branches[b] == pr.headRefOid {
      var b :| b in branches && ParseBranchName(b) == Some(pr.number) && branches[b] == pr.headRefOid;
      ParseBranchNameSound(b, pr.number);
    }
  }

  /** When every branch is already up to date, the loop fetches nothing and
      changes nothing. */
  lemma {:induction false} SyncedFetchesNothing(st: SyncState, prs: seq<PullRequest>, remote: Remote)
    requires AllSynced(st.branches, prs)
    ensures SyncAll(st, prs, remote) == Success(st)
    decreases |prs|
  {
    if |prs| > 0 {
      assert !NeedsFetch(st.branches, prs[0]);
      assert AllSynced(st.branches, prs[1..]) by {
        forall i | 0 <= i < |prs[1..]|
          ensures !NeedsFetch(st.branches, prs[1..][i])
        {
          assert prs[1..][i] == prs[i + 1];
        }
      }
      SyncedFetchesNothing(st, prs[1..], remote);
    }
  }

  /** Only pull request branches move: a branch no considered pull request
      maps to keeps its tip. */
  lemma {:induction false} SyncLeavesOtherBranches(st: SyncState, prs: seq<PullRequest>, remote: Remote, b: string)
    requires SyncAll(st, prs, remote).Success?
    requires b in st.branches
    requires forall i :: 0 <= i < |prs| ==> BranchName(prs[i].number) != b
    ensures SyncAll(st, prs, remote).value.branches[b] == st.branches[b]
    decreases |prs|
  {
    if |prs| > 0 {
      var st' := SyncStep(st, prs[0], remote).value;
      assert forall i :: 0 <= i < |prs[1..]| ==> prs[1..][i] == prs[i + 1];
      SyncLeavesOtherBranches(st', prs[1..], remote, b);
    }
  }

  /** After a successful loop every considered pull request has its branch. */
  lemma {:induction false} SyncCreatesBranches(st: SyncState, prs: seq<PullRequest>, remote: Remote)
    requires SyncAll(st, prs, remote).Success?
    ensures forall i :: 0 <= i < |prs| ==> BranchName(prs[i].number) in SyncAll(st, prs, remote).value.branches
    decreases |prs|
  {
    if |prs| > 0 {
      var st' := SyncStep(st, prs[0], remote).value;
      var keys := SyncAll(st', prs[1..], remote).value.branches.Keys;
      assert SyncAll(st, prs, remote).value.branches.Keys == keys;
      assert BranchName(prs[0].number) in st'.branches && st'.branches.Keys <= keys;
      SyncCreatesBranches(st', prs[1..], remote);
      forall i | 1 <= i < |prs|
        ensures BranchName(prs[i].number) in keys
      {
        assert prs[i] == prs[1..][i - 1];
      }
    }
  }

  /** A branch already at commit `c` stays there while every remaining pull
      request with its number also has head `c`. */
  lemma {:induction false} SyncKeepsTip(st: SyncState, prs: seq<PullRequest>, remote: Remote, n: nat, c: CommitId)
    requires SyncAll(st, prs, remote).Success?
    requires BranchName(n) in st.branches && st.branches[BranchName(n)] == c
    requires forall i :: 0 <= i < |prs| && prs[i].number == n ==> prs[i].headRefOid == c
    ensures BranchName(n) in SyncAll(st, prs, remote).value.branches
    ensures SyncAll(st, prs, remote).value.branches[BranchName(n)] == c
    decreases |prs|
  {
    if |prs| > 0 {
      var pr := prs[0];
      var st' := SyncStep(st, pr, remote).value;
      BranchNameInjective(pr.number, n);
      assert st'.branches[BranchName(n)] == c;
      assert forall i :: 0 <= i < |prs[1..]| ==> prs[1..][i] == prs[i + 1];
      SyncKeepsTip(st', prs[1..], remote, n, c);
    }
  }

  /** With a remote that delivers each head and no number reused for two heads,
      the loop succeeds and leaves every branch up to date. */
  lemma {:induction false} SyncEstablishes(st: SyncState, prs: seq<PullRequest>, remote: Remote)
    requires FaithfulRemote(remote, prs)
    requires ConsistentNumbers(prs)
    ensures SyncAll(st, prs, remote).Success?
    ensures AllSynced(SyncAll(st, prs, remote).value.branches, prs)
    decreases |prs|
  {
    if |prs| > 0 {
      var pr := prs[0];
      var rest := prs[1..];
      assert forall i :: 0 <= i < |rest| ==> rest[i] == prs[i + 1];
      assert remote(RequestFor(pr)) == Some(pr.headRefOid);
      var st' := SyncStep(st, pr, remote).value;
      assert st'.branches[BranchName(pr.number)] == pr.headRefOid;
      SyncEstablishes(st', rest, remote);
      SyncKeepsTip(st', rest, remote, pr.number, pr.headRefOid);
      var result := SyncAll(st, prs, remote).value;
      assert result == SyncAll(st', rest, remote).value;
      forall i | 0 <= i < |prs|
        ensures !NeedsFetch(result.branches, prs[i])
      {
        if i > 0 {
          assert rest[i - 1] == prs[i];
        }
      }
    }
  }

  /** Running the sync stage a second time, with nothing changed upstream,
      runs no fetch and moves no branch. */
  lemma SyncIdempotent(branches: BranchTable, prs: seq<PullRequest>, remote: Remote)
    requires FaithfulRemote(remote, Considered(prs))
    requires ConsistentNumbers(Considered(prs))
    ensures SyncBranches(branches, prs, remote).Success?
    ensures var again := SyncBranches(SyncBranches(branches, prs, remote).value.branches, prs, remote);
      again.Success? && again.value.fetches == []
      && again.value.branches == SyncBranches(branches, prs, remote).value.branches
  {
    var ps := Considered(prs);
    SyncEstablishes(SyncState(branches, []), ps, remote);
    var first := SyncBranches(branches, prs, remote).value;
    SyncedFetchesNothing(SyncState(first.branches, []), ps, remote);
  }
}
