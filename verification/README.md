# public-relations, modelled in Dafny

`public-relations` draws a heat map of a repository: for every non-hidden
file in the working tree it shows how many of the open pull requests touch
that file. The program runs in
three stages, and this project models the logic of each one as pure functions
over immutable data:

1. **Branch sync.** Each pull request's head is kept in a local branch
   `pull-request-<number>`. `git fetch <origin> <head>:pull-request-<number>`
   runs only when that branch is missing or points at another commit. Only the
   first 100 pull requests are considered.
2. **Diff aggregation.** For each of those pull requests, the diff from the
   merge base to the head is walked hunk by hunk. Every hunk with an old-side
   path and a non-empty old-side range, on a file other than `Cargo.lock`,
   appends the line numbers `start .. start + count - 1` to that file's entry.
   The per-pull-request maps are stored by pull request number, and a later
   pull request with the same number overwrites an earlier one.
3. **Report.** The working tree is walked, skipping entries whose name starts
   with `.` and everything below them. Every remaining non-directory entry is
   listed, tracked by git or not. Each file gets the fraction
   `1 - touching / total`: 1 for a file no pull request touches, 0 for a file
   every pull request touches.

Modules (one file each): `Wrappers` (Option, Result), `Decimal` (Rust's `{}`
rendering of an unsigned number and its inverse), `PullRequests` (the input
record and the 100 cap), `TouchedLines` (the hunk callback as a fold),
`Aggregate` (the per-pull-request loop), `Impact` (touch count and fraction),
`Sync` (fetch decision, branch names, refspecs, the sync loop), `Report`
(hidden-entry filter and rows), `Pipeline` (the stages in order), and `Sets`
(two cardinality lemmas).

The repository's external collaborators are parameters. `DiffSource` stands
for commit lookup, merge base and tree diff, and yields either the hunks or an
error. `Remote` stands for `git fetch`, and yields either the fetched tip or
`None` for a failing exit status. The directory walk is given as its sequence
of entries.

## Model

| member | source | states |
|---|---|---|
| `PullRequests.Considered` | src/main.rs:62 | both loops see a prefix of the input of length min(100, number of pull requests) |
| `Decimal.ParseShow` | src/main.rs:66 | the decimal text of a pull request number parses back to the same number |
| `Decimal.ShowParse` | src/main.rs:66 | every text the parser accepts is the canonical rendering of its value (no leading zeros) |
| `Decimal.ShowInjective` | src/main.rs:66 | different numbers render to different texts |
| `Sync.BranchName` | src/main.rs:66 | the local branch name starts with `pull-request-` and is recognised as the branch of exactly that number |
| `Sync.ParseBranchNameSound` | src/main.rs:66 | any name recognised as the branch of n is exactly `pull-request-<n>` |
| `Sync.BranchNameInjective` | src/main.rs:66 | two pull requests share a local branch only if they share a number |
| `Sync.Origin` | src/main.rs:245 | the remote starts with `git@github.com:`, and owner and repository read back from it when the owner has no `/` |
| `Sync.RequestFor` | src/main.rs:63-66 | the fetch for a pull request names its head repository's owner and name as the remote, and its head branch into `pull-request-<n>` as the refspec |
| `Sync.NeedsFetchByParse` | src/main.rs:68-82 | the fetch is skipped exactly when some local branch is recognised as the branch of the pull request's number and already has its head commit as tip |
| `Sync.RefspecRoundTrip` | src/main.rs:246 | the refspec `<from>:<to>` splits back into from and to when from has no colon |
| `Sync.SyncStep` | src/main.rs:68-82 | a fetch is issued iff the branch is absent or its tip differs from the head commit; without a fetch nothing changes; the step fails iff a fetch is needed and its command fails, and then reports that request and the unchanged branches; a successful fetch leaves the branch at the fetched commit, and no other branch changes |
| `Sync.SyncAll` | src/main.rs:62-83 | the loop never deletes a branch, whether it completes or stops at a failed fetch (the error carries the branches the earlier fetches left); on success it keeps the fetches already issued as a prefix, and issues at most one fetch per pull request |
| `Sync.SyncSucceeds` | src/main.rs:62-83 | the loop completes when every fetch it may issue succeeds |
| `Sync.SyncFirstError` | src/main.rs:62-83 | a failed loop stops at its first failing step: the loop over the pull requests before it succeeds, that step's fetch was needed and its command failed, and the error names that request and the branches the earlier steps left |
| `Sync.SyncBranches` | src/main.rs:62-83 | the sync stage never deletes a branch, whether it succeeds or fails, and issues at most 100 fetches |
| `Sync.SyncedFetchesNothing` | src/main.rs:76-79 | if every branch is already at its head commit, the loop issues no fetch and changes nothing |
| `Sync.SyncLeavesOtherBranches` | src/main.rs:62-83 | a branch that is not the branch of any considered pull request keeps its tip |
| `Sync.SyncCreatesBranches` | src/main.rs:68-82 | after a successful loop every considered pull request has its local branch |
| `Sync.SyncKeepsTip` | src/main.rs:68-79 | in any successful loop, a branch already at c stays at c while every later pull request with its number has head c, whatever the other fetches deliver |
| `Sync.SyncEstablishes` | src/main.rs:62-83 | with fetches that deliver the head commits and no number used for two heads, the loop succeeds and leaves every branch up to date |
| `Sync.SyncIdempotent` | src/main.rs:62-83 | running the sync stage twice with nothing changed upstream issues zero fetches the second time and moves no branch |
| `TouchedLines.Range` | src/main.rs:125-128 | the recorded range has exactly count elements, start + i at position i, and contains x iff start <= x < start + count |
| `TouchedLines.AddHunk` | src/main.rs:113-133 | a hunk without old path, with zero old lines or on an ignored file changes nothing; otherwise its path's entry becomes the old entry followed by the range, no other entry changes and only its path can be added as a key; a line is in an entry afterwards iff it was before or this hunk covers it |
| `TouchedLines.Collect` | src/main.rs:107-137 | no ignored file is ever a key of a pull request's line map |
| `TouchedLines.CollectTouched` | src/main.rs:107-139 | the loop over the hunks with one mutable map computes the fold |
| `TouchedLines.CollectKeys` | src/main.rs:113-133 | a path is a key iff some hunk has that old path, a non-zero old-line count and a path not on the ignore list |
| `TouchedLines.CollectCoversSound` | src/main.rs:125-133 | every line in a path's entry is covered by some recorded hunk of that path |
| `TouchedLines.CollectCoversComplete` | src/main.rs:125-133 | every line a recorded hunk of a path covers is in that path's entry |
| `TouchedLines.CollectCovers` | src/main.rs:125-133 | a line is in a path's entry iff some recorded hunk of that path covers it |
| `TouchedLines.CollectEntries` | src/main.rs:127-133 | a path's entry is the ranges of its recorded hunks concatenated in diff order, without merging or deduplication |
| `TouchedLines.SkippedHunkChangesNothing` | src/main.rs:113-119 | appending a skipped hunk to the diff leaves the line map unchanged |
| `TouchedLines.IgnoredNeverRecorded` | src/main.rs:117-119 | `Cargo.lock` is never a key, whatever the diff holds |
| `TouchedLines.RecordsOldSideRange` | src/main.rs:125-133 | the hunk `-10,3` records lines 10, 11, 12; the same hunk twice records them twice |
| `TouchedLines.InsertionRecordsNothing` | src/main.rs:114 | a hunk with no old-side lines records nothing |
| `Aggregate.AggregateAll` | src/main.rs:92-142 | no ignored file appears in any pull request's line map |
| `Aggregate.BuildLookup` | src/main.rs:92 | the lookup is built iff the diff of each of the first 100 pull requests can be produced; later pull requests cannot fail it |
| `Aggregate.AggregateSucceeds` | src/main.rs:93-105 | the aggregation completes iff every considered pull request's diff can be produced |
| `Aggregate.AggregateFirstError` | src/main.rs:93-105 | a failed aggregation reports the error of the first pull request whose diff fails |
| `Aggregate.AggregateKeys` | src/main.rs:141 | the lookup's keys are exactly the numbers of the processed pull requests |
| `Aggregate.AggregateLastWins` | src/main.rs:141 | the entry under a number is the line map of the last pull request carrying that number |
| `Aggregate.LookupBounded` | src/main.rs:92 | the lookup's keys are exactly the numbers among the first min(100, n) pull requests, so it has at most 100 entries |
| `Impact.TouchCount` | src/main.rs:209-214 | the count lies in 0..total; it is 0 iff no pull request touches the path and total iff every one does |
| `Impact.CountTouching` | src/main.rs:211-214 | one pass over the lookup adding one per line map containing the path yields the number of touching pull requests |
| `Impact.Fraction` | src/main.rs:216 | with at least one pull request the fraction lies in [0,1]; it is 1 iff no pull request touches the file and 0 iff every one does |
| `Impact.FractionIsUntouchedShare` | src/main.rs:209-216 | the fraction equals the number of pull requests not touching the file divided by the number of pull requests |
| `Impact.FractionStrictlyAntitone` | src/main.rs:216 | a file touched by strictly more pull requests than another gets a strictly smaller fraction |
| `Impact.FractionAntitone` | src/main.rs:216 | a file touched by at least as many pull requests as another never gets a larger fraction |
| `Impact.EmptyDiffTouchesNothing` | src/main.rs:213 | a pull request with an empty diff counts for no file |
| `Impact.TwoPullRequestScenario` | src/main.rs:209-216 | with two pull requests, one touching `b.txt`: `a.txt` scores 1 and `b.txt` scores 0.5 |
| `Report.IsHidden` | src/main.rs:150-156 | an entry is hidden iff its name is valid Unicode and has `.` as a prefix |
| `Report.ReportPaths` | src/main.rs:162-177 | the report never lists more paths than the walk has entries |
| `Report.ReportPathsEmpty` | src/main.rs:162-177 | the report lists nothing iff no entry is a non-directory with no name from the root down starting with `.` |
| `Report.ReportPathsAllListed` | src/main.rs:162-177 | when every entry is listed, the report lists every entry's path in walk order |
| `Report.ReportPathsAppend` | src/main.rs:162-177 | listing keeps the walk's order: the listing of a concatenated walk is the concatenation of the listings |
| `Report.DotRootListsNothing` | src/main.rs:164 | a walk whose root is named `.` lists nothing, because the root itself counts as hidden |
| `Report.ReportPathsListed` | src/main.rs:162-177 | a path is listed iff some non-directory entry with that path has no hidden name from the root down |
| `Report.ReportRows` | src/main.rs:197-198 | one row per listed file in walk order; each fraction is the share of pull requests not touching the file, lies in [0,1], is 1 iff no pull request touches the file and 0 iff every one does; a file touched by at least as many pull requests as another never has a larger fraction |
| `Pipeline.Run` | src/main.rs:62-144 | a run succeeds iff both the sync stage and the aggregation succeed; a sync error is reported before any diff error, and a diff error carries the synced branches; no outcome deletes a branch; on success the branches are the synced ones and the rows are the report's rows for the lookup: listed paths in walk order, each fraction the untouched share, 1 iff untouched, 0 iff touched by all, antitone in the touch count |
| `Pipeline.LookupBranchesExist` | src/main.rs:62-141 | every number in the lookup has a local branch once the sync stage has succeeded |

## Left out

- Repository access through `git2` (`find_branch`, `find_commit`, `tree`, `merge_base`, `diff_tree_to_tree`, `diff.foreach`; src/main.rs:93-105, :109-139): these are foreign library calls, so `DiffSource` stands for them. The diff's file and line callbacks do nothing and are not modelled.
- Running `git fetch` (src/main.rs:248-256) is an external process, so `Remote` stands for it. Only the request built for it (origin and refspec) is modelled.
- Sync.SyncStep: the fetch's outcome is a function of the request alone. Because the refspec has no leading `+` (src/main.rs:246), git refuses a non-fast-forward update of an existing `pull-request-<n>` after a force-push, so the real outcome also depends on the local branch's tip; the model cannot express that dependence.
- The sync loop's own errors are not modelled: `peel_to_commit` on an existing branch (src/main.rs:69-72) and `Oid::from_str` on the JSON id (src/main.rs:74). Commit ids are compared as text, not as parsed object ids.
- Argument handling, opening the repository, reading the JSON and serde parsing (src/main.rs:44-58), and writing `prmap.html` (src/main.rs:144-145) are I/O.
- The `WalkDir` traversal, its sorting by file name, `strip_prefix` and dropping of unreadable entries (src/main.rs:162-177) are filesystem I/O. The walk's output is an input sequence of entries; only the hidden and directory filters are modelled.
- The `colorgrad` gradient lookup and the RGB float formatting (src/main.rs:217-225) are floating point over an external library.
- The `maud` HTML markup (src/main.rs:179-205, :229-235) is presentation.
- Progress messages printed to the console are left out.
- u32 arithmetic: pull request numbers and line numbers are `nat`. The overflow of `start + line_count` (src/main.rs:128) is not modelled.
- Impact.Fraction: computed with exact rationals instead of `f64`. It requires at least one pull request, because the program divides by zero on an empty lookup.
- Paths are strings compared by equality. `PathBuf`'s component-wise comparison is not modelled; git reports normalised repository-relative paths.
- Sync.SyncEstablishes: assumes every fetch delivers the pull request's head commit and no number appears with two heads. A fetch that lands elsewhere, or conflicting duplicates, would make the next run fetch again.
- Sync.SyncIdempotent: under the same two assumptions as Sync.SyncEstablishes.
- The fetch origin is `git@github.com:<owner>/<repo>` (src/main.rs:245). The ignore list is exactly the root path `Cargo.lock` (src/main.rs:90), so a lock file in a subdirectory is recorded.
