/** The pull request descriptor read from the JSON input, and the cap on how
    many descriptors both the branch sync and the diff aggregation consider. */
module PullRequests {

  /** A commit id, as the 40-hex text the JSON input carries. */
  type CommitId = string

  datatype PullRequest = PullRequest(
    id: string,
    number: nat,
    baseRefName: string,
    headRefName: string,
    headRefOid: CommitId,
    headRepositoryName: string,
    headRepositoryOwnerLogin: string)

  /** Only this many pull requests are processed; the rest are ignored. */
  const PrLimit: nat := 100

  /** The pull requests both loops iterate over, `data.iter().take(100)`. */
  function Considered(prs: seq<PullRequest>): (r: seq<PullRequest>)
    ensures |r| == if |prs| < PrLimit then |prs| else PrLimit
    ensures r <= prs
  {
    if |prs| <= PrLimit then prs else prs[..PrLimit]
  }
}
