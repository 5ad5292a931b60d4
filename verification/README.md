# Verified model of the security information service

The repository collects security information about a set of GitHub repositories: it scans their
dependencies and code, judges dependency pull requests, watches commits and settings, tracks
deadlines and exceptions, and serves the results over an API. Underneath are several small state
machines and algorithms whose guarantees concern whole runs. This project models them in Dafny and
proves those guarantees; `dafny verify dfyconfig.toml` checks everything.

| file | what it models |
|---|---|
| `RateLimiter.dfy`, `RateLimiterRuns.dfy`, `RateLimiterLockout.dfy` | the sliding-window rate limiter with lockout and bounded maps, its promises over runs of calls, and what eviction does to lockout |
| `PrLog.dfy`, `PrLogRetention.dfy`, `PrLogRetentionLaws.dfy` | the log of judged pull requests, its maintenance passes, and what they leave of the unresolved view |
| `PrLogRepository.dfy`, `PrLogRepositoryLaws.dfy`, `DepsopsRunner.dfy` | recording a run, finding pull requests resolved elsewhere, and a whole run of the job |
| `FindingExceptions.dfy`, `ExceptionRuns.dfy`, `ExceptionMatching.dfy`, `ExceptionLifecycle.dfy` | exceptions for findings: the table, all runs of it, the lookups, the nightly job |
| `CommitWatch.dfy` | watching a branch by its last checked commit |
| `FindingTable.dfy`, `CodeFindings.dfy`, `DependencyFindings.dfy`, `SqlLike.dfy`, `GithubAlerts.dfy` | bringing a table of findings up to date with a scan |
| `RepoAudit.dfy` | merging and comparing snapshots of who and what has access |
| `Versions.dfy`, `FindingBuilder.dfy` | the order on versions, inferred fixes, and the caches of the builder |
| `Purl.dfy`, `Sbom.dfy` | package URLs and the two bill-of-materials exports |
| `RuntimeStatus.dfy`, `RuntimeAlerts.dfy`, `RuntimeAlertRuns.dfy` | states of runtime versions, alerts about them, and the daily runs that send each alert once |
| `McpTokens.dfy`, `OAuthClients.dfy` | the ledger of tokens and the registration of clients, with their limits |
| `FlutterReleases.dfy`, `Cvss.dfy`, `Sla.dfy` | the reduction of release lists, base scores, the deadline report |
| `Prelude.dfy` | small shared definitions and sorting |

How it is modelled:

- A database table is a sequence of rows in a class; a committed method is one atomic step. Sessions
  do not flush before a query (`app/core/database.py` sets `autoflush=False`), so the lookups inside
  `record` see committed rows only. Where the source orders by time alone, ties are broken by id, as
  its other queries do.
- Each method is proved equal to a specification function of the old state; the promises are lemmas
  about those functions, over all sequences of calls.
- The specification functions are in turn pinned by laws that do not name them: what a row, an item,
  an alert or a score holds is stated in its fields, with the source's own constants.
- Time is an explicit argument that does not go back. The rate limiter reads its clock before it
  takes its lock; the model takes calls to be atomic and in clock order. Its lock table has no bound,
  in the source or here.
- Services (GitHub, OSV, registries, chat) are arguments: a reply or a failure. The verdict on a
  pull request and the signs of a suspicious commit are replies too. What GitHub guarantees about a
  listing (a number is listed once, a repository is a target once) is the predicate `WellListed`.

Where the code does not do what its documentation or a first reading suggests, the code is kept and
the exact condition is proved:

- A limit below 1 makes a check raise, and then the request map is not bounded
  (`RaisesExactlyWithoutPositiveLimit`, `NoCapWithoutPositiveLimit`).
- A client that the bounded failure map drops is not locked by failures that it had before
  (`EvictionForgetsFailures`); clients that the map keeps are locked exactly by the documented rule
  (`LockedExactlyWhileKept`, `KeptClientsFollowTheRule`), and `LockedAfterEnoughFailures` says exactly
  what locks in every case.
- Recording a batch can leave two equal adjacent rows: exactly when, among the flagged items that say
  something new, one says again what the last one before it about the same pull request says
  (`RecordingRepeatsExactly`).
- The lookups for exceptions agree exactly for open findings without the separator in certain parts
  of the key (`LookupAgreesExactly`); keys tell findings apart exactly where no part contains it
  (`CollidesExactly`).
- `LIKE 'owner/%'` means the owner's repositories exactly for owners without `_` and `%`, without
  backslash on PostgreSQL, and without ASCII letters on SQLite, which ignores their case
  (`LikeMeansOwnedBy`, `LikeMeansSamePrefix`).
- The counter of resolved GitHub alerts is short by the number reopened
  (`ReportedResolvedIsShortByReopened`, `ReportedResolvedIsRightExactly`).
- A package name with an empty namespace has the package URL of the name without it
  (`NamesConfusedExactly`).
- The recommended runtime cycle can fall as days pass (`NeverFallsExactly` says exactly when not).

The base score is monotone in every metric for all vectors that the code accepts
(`ScoresOfVectorsAreMonotone`). That is a fact about the tables: for arbitrary weights the formula with
changed scope is monotone exactly up to a certain sub-score (`ChangedImpactMonotoneExactly`).

## Model

| member | source | states |
|---|---|---|
| `RateLimiting.RateLimiter.Check` | app/core/net/rate_limit.py:62-78 | the new state and the answer of one check, deque operation by deque operation, are those of the specification function `Checked`; the lemmas on runs below are about that function |
| `RateLimiting.RateLimiter.RecordFailure` | app/core/net/rate_limit.py:80-93 | the same for a recorded failure and `Failed` |
| `RateLimiting.RateLimiter.PopExpired` | app/core/net/rate_limit.py:67-71 | popping from the left while the head has left the window stores exactly the unexpired rest |
| `RateLimiting.RateLimiter.DropOldest` | app/core/net/rate_limit.py:96-99 | deleting first-inserted clients one by one ends in the bounded table |
| `RateLimiting.AtMostOneEvicted` | app/core/net/rate_limit.py:70-99 | storing a deque evicts at most one client, the one inserted first, only when the table was full, and never the client stored |
| `RateLimiting.CheckEffect` | app/core/net/rate_limit.py:62-78 | a check keeps the tables valid and bounded, leaves the other clients' deques alone, and admits exactly an unlocked client with fewer than `per_minute` unexpired entries |
| `RateLimiting.FailureEffect` | app/core/net/rate_limit.py:80-93 | a failure keeps the tables valid and bounded, locks exactly when the window holds enough failures, and then empties the deque |
| `RateLimiting.ExpireKeepsTheRecentPart` | app/core/net/rate_limit.py:67-71 | expiry removes exactly a prefix of entries at or before the cutoff; the next entry, if any, is after it |
| `RateLimitRuns.TablesStayBounded` | app/core/net/rate_limit.py:62-99 | after any run of calls both maps hold at most 10,000 clients, and no call evicts the client that makes it |
| `RateLimitRuns.DequeTracksHistory` | app/core/net/rate_limit.py:62-78 | after any run in clock order the stored deque is the sorted recent end of the client's true admission history since it was last untracked, and that history is spaced as the limit demands |
| `RateLimitRuns.TenureEndsHistory` | app/core/net/rate_limit.py:62-78 | the history since the client was last untracked is a suffix of all its admissions |
| `RateLimitRuns.TenureOfNeverEvicted` | app/core/net/rate_limit.py:62-99 | for a client never evicted it is all of them |
| `RateLimitRuns.AtMostPerMinute` | app/core/net/rate_limit.py:62-78 | every interval (t-60, t], for every real t, holds at most `per_minute` admissions of a client that was not evicted meanwhile |
| `RateLimitRuns.FailuresStayBounded` | app/core/net/rate_limit.py:80-99 | for every request limit, after any run the failure map holds at most the cap, and no failure evicts its own client |
| `RateLimitRuns.FailureDequeTracksHistory` | app/core/net/rate_limit.py:80-93 | for every request limit, the failure deque is the recent end of the failures since the last lock or eviction |
| `RateLimitRuns.LockedAfterEnoughFailures` | app/core/net/rate_limit.py:80-93 | a failure locks exactly when, with itself, `lockout_failures` failures since the client's last lock, or since the failure map last dropped the client, fall in the failure window |
| `RateLimitRuns.LockedWhileLastLockIsYoung` | app/core/net/rate_limit.py:64-66 | a client is locked exactly while its last lock is less than `lockout_seconds` old |
| `RateLimitRuns.LockNeverShortened` | app/core/net/rate_limit.py:62-93 | no call ends a lock that is in force early |
| `RateLimitRuns.HintWithinASecond` | app/core/net/rate_limit.py:74-75 | the retry hint of a window refusal is at least 1 and otherwise the whole seconds until the oldest stored request is 60 seconds old |
| `RateLimitRuns.LockHintWithinASecond` | app/core/net/rate_limit.py:65-68 | over any run a locked client is refused with at least 1 and otherwise the whole seconds left until `lockout_seconds` after its last lock, and the call changes nothing |
| `RateLimiting.CheckForgetsEndedLock` | app/core/net/rate_limit.py:65-70 | a check forgets the lock of its client exactly when it is over, and no other lock |
| `RateLimitRuns.RefusedUntilOldestExpires` | app/core/net/rate_limit.py:62-78 | a client refused by the window and still tracked is admitted, when not locked, exactly from the moment its oldest stored request is 60 seconds old, however many calls of any clients come in between, as long as none of its own is admitted from that moment on |
| `RateLimitRuns.RaisesExactlyWithoutPositiveLimit` | app/core/net/rate_limit.py:72-73 | with a limit below 1 a check raises exactly when the client is unlocked and nothing unexpired is stored |
| `RateLimitRuns.NoCapWithoutPositiveLimit` | app/core/net/rate_limit.py:62-78 | and then the request map is unbounded: n clients, calling in clock order, leave n entries, for every n |
| `RateLimitLockout.TenureIsSinceLock` | app/core/net/rate_limit.py:80-99 | for a client that the failure map keeps, what the map counts are all its failures since its last lock |
| `RateLimitLockout.NoLockWithoutFailures` | app/core/net/rate_limit.py:80-93 | no failure locks a client without `lockout_failures` failures since its last lock in the failure window, whatever is evicted |
| `RateLimitLockout.LockedExactlyWhileKept` | app/core/net/rate_limit.py:80-99 | while the failure map keeps the client, exactly those lock it |
| `RateLimitLockout.KeptClientsFollowTheRule` | app/core/net/rate_limit.py:80-99 | for such a client, over any run, the failures since its last lock are those of the documented rule, which is told without any table |
| `RateLimitLockout.EvictionForgetsFailures` | app/core/net/rate_limit.py:80-99 | without that condition not: a client with one failure of two, evicted by as many other clients as the map holds, is not locked by its second failure in the same window |
| `PrLogRetention.PrLogTable.DeleteExpired` | app/depsops/pr_log_retention.py:25-41 | deletes exactly the rows older than the cutoff and returns their number |
| `PrLogRetention.PrLogTable.PurgeLegacyClosed` | app/depsops/pr_log_retention.py:43-80 | deletes exactly the rows of pull requests whose latest row says closed |
| `PrLogRetention.PrLogTable.CollapseDuplicateFlagged` | app/depsops/pr_log_retention.py:82-126 | the single loop with `previous` deletes exactly the rows followed by an equal flagged row of the same pull request, and returns how many rows are gone |
| `PrLogRetention.PrLogTable.DeleteInChunks` | app/depsops/pr_log_retention.py:120-124 | deleting by chunks of 500 ids equals one deletion |
| `PrLogRetention.PrLogTable.Cleanup` | app/depsops/pr_log_retention.py:128-132 | the three passes in order |
| `PrLogRetention.LatestByPr` | app/depsops/pr_log_retention.py:54-64 | the newest-first loop finds the latest row of every pull request |
| `PrLogRetentionLaws.RunIsReducedToItsLast` | app/depsops/pr_log_retention.py:82-126 | every deleted row lies in a run of equal flagged rows whose last row is kept and whose rows in between are deleted as well |
| `PrLogRetentionLaws.CollapseLeavesNoRepetition` | app/depsops/pr_log_retention.py:82-126 | afterwards no flagged row is followed by one that repeats it |
| `PrLogRetentionLaws.CollapseIsIdempotent` | app/depsops/pr_log_retention.py:82-126 | a second pass removes nothing |
| `PrLogRetentionLaws.CollapseKeepsLatest` | app/depsops/pr_log_retention.py:82-126 | every pull request keeps its latest row, so the unresolved view is unchanged |
| `PrLogRetentionLaws.PurgeKeepsOtherLatest` | app/depsops/pr_log_retention.py:43-80 | the purge leaves the latest row of every pull request that is not closed, and no row of one that is |
| `PrLogRetentionLaws.ExpiryKeepsRecentLatest` | app/depsops/pr_log_retention.py:25-41 | expiry leaves the latest row of a pull request exactly if it is not older than the cutoff |
| `PrLogRetentionLaws.CleanupKeepsLatest` | app/depsops/pr_log_retention.py:128-132 | the whole cleanup leaves the latest row of a pull request, or no row at all if that row is closed or expired |
| `PrLogRetentionLaws.CleanupKeepsUnresolved` | app/depsops/router.py:122-143 | a pull request is unresolved after the cleanup exactly when it was before and its latest row is not older than the cutoff |
| `PrLog.UnresolvedExactly` | app/depsops/router.py:122-143 | a pull request is unresolved exactly when its newest row, by time and then id, is flagged |
| `PrLogRetentionLaws.CollapsedExactly` | app/depsops/pr_log_retention.py:82-126 | the collapsing pass keeps exactly the rows that the next row of the pull request does not repeat: flagged, same reason, same security |
| `PrLogRetentionLaws.ExpiryAndPurgeExactly` | app/depsops/pr_log_retention.py:25-80 | expiry keeps exactly the rows not older than the cutoff, the purge exactly those of pull requests whose newest row does not say closed |
| `PrLogRepository.Record` | app/depsops/pr_log_repository.py:24-87 | recording one run, in the source's order, when the commit succeeds: the specified table; every merge has a new row with its title, security and badge and no reason; every flagged item that says something new has a row of its own, and every flagged item that is not deleted a row with its reason and security, all of the time of the run |
| `PrLogRepository.RecordFlagged` | app/depsops/pr_log_repository.py:47-78 | a flagged pull request that repeats its latest committed row refreshes that row, any other gets a new row |
| `PrLogRepository.DeletePrs` | app/depsops/pr_log_repository.py:82-86 | deletes exactly the rows of the resolved pull requests |
| `PrLogRepository.FindResolvedFlagged` | app/depsops/pr_log_repository.py:89-123 | returns exactly the repository's pull requests whose latest row is flagged and that are not listed as open, once each |
| `PrLogRepository.FoundTells` | app/depsops/pr_log_repository.py:105-123 | a found item has the title, security and badge of the newest row of its pull request |
| `PrLogRepositoryLaws.RecordedLatest` | app/depsops/pr_log_repository.py:24-87 | the latest row of any pull request after recording any batch |
| `PrLogRepositoryLaws.RecordedUnresolved` | app/depsops/pr_log_repository.py:24-87 | in the recorded table a pull request is unresolved exactly when a flagged item says something new about it, or it was unresolved and was neither merged nor found resolved |
| `PrLogRepositoryLaws.RecordedUnresolvedByList` | app/depsops/pr_log_repository.py:24-87 | when no pull request is in two lists: exactly those flagged now, and those left alone that were unresolved before |
| `PrLogRepositoryLaws.RefreshedRowsAreKept` | app/depsops/pr_log_repository.py:59-68 | when no pull request is both flagged and found resolved, the deletion spares every refreshed row, so that the commit updates rows that exist |
| `PrLogRepositoryLaws.RecordingRepeatsExactly` | app/depsops/pr_log_repository.py:47-78 | recording leaves a flagged row that repeats its predecessor exactly when, among the flagged items that say something new, one says again what the last one before it about its pull request says |
| `PrLogRepositoryLaws.RecordingAddsNoRepetition` | app/depsops/pr_log_repository.py:47-78 | so a batch that flags each pull request at most once adds none |
| `PrLogRepositoryLaws.RepetitionFromRepeatedItem` | app/depsops/pr_log_repository.py:47-78 | and an unknown pull request flagged twice in the same words leaves two equal adjacent rows |
| `DepsopsRunner.ProcessRepo` | app/depsops/runner.py:39-114 | the merged, flagged, found-resolved and error results of one repository, including the failure to list and the failure of single judgements |
| `DepsopsRunner.ScanTargetRepos` | app/depsops/runner.py:117-135 | the results of all repositories, in order, or the abort of the run |
| `DepsopsRunner.ListsTell` | app/depsops/runner.py:94-114 | the merged and flagged lists of a run hold exactly the items of the verdicts, with number, title, reason, security and badge |
| `DepsopsRunner.ErrorsExactly` | app/depsops/runner.py:64-114 | the error count is the number of lists that could not be fetched plus that of pull requests whose judging failed |
| `DepsopsRunner.GoneMeansUnlisted` | app/depsops/runner.py:64-77 | in a repository whose list was fetched, what is found resolved is what was unresolved and got no verdict or error |
| `DepsopsRunner.RunSettlesUnresolved` | app/depsops/runner.py:64-114 | after a recorded run: where the list was fetched, unresolved are exactly the pull requests flagged now and those unresolved before whose judging failed or was skipped; elsewhere exactly what was unresolved before |
| `DepsopsRunner.UnresolvedAreListed` | app/depsops/runner.py:64-114 | so where the list was fetched every unresolved pull request is one just listed as open |
| `DepsopsRunner.ListsDisjoint` | app/depsops/runner.py:64-114 | in a run no pull request is flagged and merged, or flagged and found resolved |
| `DepsopsRunner.RunTime` | app/depsops/pr_log_repository.py:47-78 | of the pull requests unresolved after a run, those flagged now have a latest row of the time of the run, and the others keep the time they had |
| `DepsopsRunner.RunThenCleanup` | app/depsops/runner.py:153-170 | the unresolved view after recording and cleanup together |
| `DepsopsRunner.CleanupLeavesNoRepetition` | app/depsops/pr_log_retention.py:128-132 | after the cleanup no flagged row repeats its predecessor, whatever the table was |
| `DepsopsRunner.Execute` | app/depsops/runner.py:153-170 | one run of the job: its results, no repetition left, the unresolved view as stated, and an untouched table when it aborts |
| `FindingExceptions.ExceptionTable.UpsertActive` | app/finding_exceptions/repository.py:23-49 | updates the active exception of the finding in place or appends a new one; the id returned is that row's |
| `FindingExceptions.ExceptionTable.End` | app/finding_exceptions/repository.py:54-60 | sets the end and the reason of one row and changes nothing else |
| `FindingExceptions.ExceptionTable.ExpireDue` | app/finding_exceptions/repository.py:78-90 | ends exactly the due rows, at the given time and as expired, and lists exactly those |
| `FindingExceptions.ExceptionTable.DueSoon` | app/finding_exceptions/repository.py:92-109 | marks and lists exactly the active rows that expire within the given days and had no notice |
| `FindingExceptions.ExceptionTable.ActiveAccepted` | app/finding_exceptions/repository.py:111-117 | lists exactly the active accepted rows of the kind |
| `ExceptionRuns.AtMostOneActive` | app/finding_exceptions/repository.py:23-60 | in every table reachable by register, update, revoke, end, expiry and notice with a clock that does not go back, a finding has at most one active exception, now and at every later time |
| `ExceptionRuns.SeveralUnendedPossible` | app/finding_exceptions/repository.py:23-49 | but two unended rows of one finding can exist: a concrete run |
| `ExceptionRuns.ExpiryStoresWhatTheClockSays` | app/finding_exceptions/repository.py:78-90 | expiry changes no exception's being active, at that time or later, and makes not ended coincide with active |
| `ExceptionRuns.ExpiryIsIdempotent` | app/finding_exceptions/repository.py:78-90 | a second expiry at the same time changes and lists nothing |
| `ExceptionRuns.OneNoticePerTerms` | app/finding_exceptions/repository.py:92-109 | over any run an exception gets at most one expiry notice for each time its terms were set |
| `ExceptionRuns.TermsMakePending` | app/finding_exceptions/repository.py:36-44 | setting the terms of an exception makes its notice due again |
| `ExceptionRuns.PendingExactly` | app/finding_exceptions/repository.py:92-109 | over any run the notice of an exception is pending exactly when none was sent since its terms were last set |
| `ExceptionRuns.NoticeReachesExactly` | app/finding_exceptions/repository.py:92-109 | over any run the notices reach exactly the accepted, unended exceptions that expire within the days given and had no notice since their terms were last set |
| `ExceptionRuns.RegisterSetsTerms` | app/finding_exceptions/repository.py:23-49 | a registration gives its terms to the exception of the finding that has neither ended nor expired, or to a new one if there is none, with no notice sent, and leaves the others alone |
| `ExceptionRuns.OtherStepsExactly` | app/finding_exceptions/repository.py:54-109 | which exceptions revocation, a published fix, expiry and notices change, in which fields, with which time and reason |
| `ExceptionMatching.SplitIffJoined` | app/finding_exceptions/matching.py:28-30 | splitting at the separator gives three parts exactly when the key joins them and none contains the separator |
| `ExceptionMatching.SplitLastIffJoined` | app/finding_exceptions/matching.py:33-35 | splitting at the last separator gives path and rule exactly when the key joins them and the rule contains no separator |
| `ExceptionMatching.CoversExactly` | app/finding_exceptions/matching.py:138-159 | the per-exception lookup finds a finding exactly when the exception carries the finding's own key, the finding is open, and the key can be split back |
| `ExceptionMatching.FilterAgreesWithQuery` | app/finding_exceptions/matching.py:65-107 | the snapshot filter returns exactly what the query form keeps, as often and in that order, for every table and every list of one kind |
| `ExceptionMatching.NotExceptedExactly` | app/finding_exceptions/matching.py:76-92 | the query leaves out exactly the findings whose kind, repository and key some exception has that has neither ended nor expired |
| `ExceptionMatching.KeysAre` | app/finding_exceptions/matching.py:28-45 | how the keys are written |
| `ExceptionMatching.LookupAgreesExactly` | app/finding_exceptions/matching.py:76-159 | the lookup agrees with the query for every table and time exactly for open findings whose key can be split back |
| `ExceptionMatching.SeparableKeysAreInjective` | app/finding_exceptions/matching.py:28-45 | keys that can be split back tell findings apart |
| `ExceptionMatching.CollidesExactly` | app/finding_exceptions/matching.py:28-45 | a finding shares its key with another of its kind and repository exactly when some part of it contains the separator |
| `ExceptionMatching.InseparableKeysCollide` | app/finding_exceptions/matching.py:33-35 | for example two rules in different files |
| `ExceptionLifecycle.RunLifecycle` | app/finding_exceptions/lifecycle.py:46-75 | the state of every row after the nightly job, and exactly which exceptions are listed as fixed, expired and soon; none is in two lists |
| `ExceptionLifecycle.NightlyExactly` | app/finding_exceptions/lifecycle.py:46-75 | what the job does to an exception, in its fields: which are ended as fixed, which as expired, which are marked, and that nothing else changes |
| `ExceptionLifecycle.FixPublishedExactly` | app/finding_exceptions/lifecycle.py:41-43 | a fix is published for a risk exactly when an open dependency finding with its key has a fixed version |
| `ExceptionLifecycle.HasFindingsExactly` | app/finding_exceptions/lifecycle.py:57-60 | an exception is about open findings exactly when some open finding has its key |
| `ExceptionLifecycle.EndAll` | app/finding_exceptions/lifecycle.py:52-56 | ending the fixed ones one by one changes exactly those rows |
| `ExceptionLifecycle.NoFixedRiskStaysActive` | app/finding_exceptions/lifecycle.py:41-56 | after the job no accepted risk with a published fix is active, then or later |
| `ExceptionLifecycle.NightlyKeepsOneActive` | app/finding_exceptions/lifecycle.py:46-75 | the job keeps at most one active exception for each finding, from its time on, and leaves exactly those active at its time unended |
| `CommitWatch.InspectRepo` | app/commit_watch/crawler.py:70-110 | fails exactly when the comparison or the files of one of the first hundred commits fail; otherwise raises a rewritten alert alone, or exactly an alert for each of these commits that is not trusted, or risky, or not read in full, and one for what was cut off |
| `CommitWatch.CommitWatchJob.Execute` | app/commit_watch/crawler.py:124-152 | the loop over repositories leaves the cursors, alerts and count of visiting them one by one |
| `CommitWatch.RunVisitsRepo` | app/commit_watch/crawler.py:124-152 | a repository visited once ends with that visit's cursor, and its alerts are in the job's alerts |
| `CommitWatch.CursorIsLastHead` | app/commit_watch/crawler.py:124-152 | a failed check moves nothing and reports nothing, a successful one moves the cursor to the head it was told: the next base is the previous head |
| `CommitWatch.CheckMovesExactly` | app/commit_watch/crawler.py:124-152 | a check moves the cursor to the head it is told exactly when nothing interrupts it; the first check and one with an unmoved head report nothing, any other what the comparison has to report |
| `CommitWatch.RunTotals` | app/commit_watch/crawler.py:124-152 | a run raises the alerts of its visits, in order, and counts those that succeed |
| `CommitWatch.LastCheckAccounts` | app/commit_watch/crawler.py:70-110 | a commit that comes into the cursor's history by a check was examined by it, or the check raised a rewritten or truncated alert |
| `CommitWatch.NoCommitSkippedSilently` | app/commit_watch/crawler.py:70-152 | over any pushes, rewrites, failures and checks, every commit between the first baseline and the current cursor is accounted for by one of the checks |
| `CommitWatch.CommitAlertsContents` | app/commit_watch/crawler.py:84-102 | a commit is reported exactly when it was examined and is suspicious |
| `FindingTable.SyncedOpenSet` | app/codescan/repository.py:46-145 | after a sync a key is open exactly when it is in the new records, or was open and spared; other rows are untouched; keys stay unique |
| `FindingTable.SyncConservesOpen` | app/codescan/repository.py:61-145 | open after = open before + inserted + reopened - resolved |
| `FindingTable.SyncIsIdempotent` | app/codescan/repository.py:46-145 | repeating the sync at any later time inserts, reopens, resolves and changes nothing |
| `FindingTable.SyncedRowOfRecord` | app/codescan/repository.py:79-115 | after a sync the row of a reported key is open and holds the content of the first record with the key, refreshed if the key was open |
| `FindingTable.NewRecordsExactly` | app/codescan/repository.py:79-100 | the snapshots are exactly the first records of keys without a row |
| `FindingTable.NewRecordsUnique` | app/codescan/repository.py:79-100 | each key once |
| `CodeFindings.CodeFindingRepository.Upsert` | app/codescan/repository.py:61-117 | the rows after the loop, and the snapshots: the first occurrence of each key that had no row |
| `CodeFindings.CodeFindingRepository.ResolveMissing` | app/codescan/repository.py:119-145 | resolves exactly the open findings of the repository that are not reported and whose tool did not fail, and counts them |
| `CodeFindings.CodeFindingRepository.Sync` | app/codescan/repository.py:46-117 | after a scan a key is open exactly when it was reported, or was open and belongs to another repository or a failed tool; counts are conserved; the row of every reported key has message, severity, end line, CWE ids, categories, snippet, score, vector and tool of the first record with the key, and keeps its detection time exactly when it was open |
| `CodeFindings.CodeFindingRepository.DeleteOldResolved` | app/codescan/repository.py:147-163 | deletes exactly the findings resolved before the cutoff and counts them |
| `CodeFindings.RepeatedCodeSync` | app/codescan/repository.py:46-145 | a repeated scan is a no-op |
| `CodeFindings.WithoutOldKeepsOpen` | app/codescan/repository.py:147-163 | that deletion keeps keys unique and every open finding |
| `DependencyFindings.DependencyFindingRepository.Upsert` | app/depscan/repository.py:65-121 | the same loop for dependencies, keeping a known fix when the new record has none |
| `DependencyFindings.DependencyFindingRepository.ResolveMissing` | app/depscan/repository.py:123-155 | resolves exactly the open findings in the owner's scope that are not reported; returns the affected repositories |
| `DependencyFindings.DependencyFindingRepository.Sync` | app/depscan/repository.py:49-121 | after a scan a key is open exactly when it was reported, or was open outside the scope; counts are conserved; an open finding takes reachability, visibility, CVE ids and known fixes of the first record and keeps the rest, any other takes all of it; the repositories returned are exactly those with a finding that was closed |
| `DependencyFindings.RepeatedDependencySync` | app/depscan/repository.py:49-155 | a repeated scan is a no-op |
| `DependencyFindings.KnownFixStaysKnown` | app/depscan/repository.py:102-118 | an open finding with known fixed versions keeps some, whatever is reported |
| `SqlLike.LikeMeansSamePrefix` | app/depscan/repository.py:143-144 | for an owner without wildcard or escape, `LIKE 'owner/%'` selects the owner's repositories, up to ASCII case on SQLite |
| `SqlLike.LikeMeansOwnedBy` | app/depscan/repository.py:143-144 | it selects exactly the owner's repositories, for all repository names, if and only if the owner's name has no wildcard, no backslash on PostgreSQL, and no ASCII letter on SQLite |
| `GithubAlerts.AlertTable.Sync` | app/github_alerts/repository.py:28-60 | the rows after the loop, the alerts added, and the unique-key failure that undoes the sync |
| `GithubAlerts.FailsExactlyOnRepeatedNewAlert` | app/github_alerts/repository.py:43-50 | the sync fails exactly when an alert without a row is listed twice |
| `GithubAlerts.SyncedOpenSet` | app/github_alerts/repository.py:28-60 | the open alerts of the kind and repository are exactly those reported; all others are open if they were |
| `GithubAlerts.SyncedRows` | app/github_alerts/repository.py:28-60 | every row after a sync that does not fail: reported rows have the content of the last item about them and are open, open rows no longer reported are resolved now, all others are untouched; new rows follow; keys stay unique |
| `GithubAlerts.ReportedRowsTell` | app/github_alerts/repository.py:43-55 | the row of each reported alert has severity, title, URL and detail of the last item about it, is open, and keeps the detection time it had |
| `GithubAlerts.OtherRowsStay` | app/github_alerts/repository.py:56-58 | the row of any other alert is as it was, except that one of the kind and repository that was open is resolved now |
| `GithubAlerts.SyncConservesOpen` | app/github_alerts/repository.py:28-60 | open after = open before + new + reopened - resolved |
| `GithubAlerts.SyncIsIdempotent` | app/github_alerts/repository.py:28-60 | repeating the sync at any later time adds, reopens, resolves and changes nothing |
| `GithubAlerts.ReportedResolvedIsShortByReopened` | app/github_alerts/crawler.py:60-66 | the job's counter is the number of alerts resolved minus the number reopened, at least 0 |
| `GithubAlerts.ReportedResolvedIsRightExactly` | app/github_alerts/crawler.py:60-66 | it is right exactly when none was reopened or none resolved |
| `RepoAudit.DiffSnapshot` | app/repo_audit/checks.py:214-231 | the changes, kind by kind, additions before removals, each sorted |
| `RepoAudit.AuditRow.Audit` | app/repo_audit/crawler.py:39-53 | one audit stores the merged snapshot and reports the difference to the stored one |
| `RepoAudit.ChangesTelescope` | app/repo_audit/checks.py:204-231 | over any audits, with any kinds unavailable in any of them, applying the reported changes in order to the first known set gives the last known set; every addition was absent and every removal present |
| `RepoAudit.UnavailableChangesNothing` | app/repo_audit/checks.py:204-231 | audits in which a kind was unavailable report of it as if they had not happened |
| `RepoAudit.StoredExactly` | app/repo_audit/checks.py:204-211 | after any audits the stored snapshot has of each kind what was observed of it last |
| `RepoAudit.DiffExactly` | app/repo_audit/checks.py:214-231 | one audit reports exactly the names that differ, of the kinds that both snapshots have |
| `RepoAudit.SortedMissingInOrder` | app/repo_audit/checks.py:227-230 | and the names of each part in order |
| `RepoAudit.SortedMissingContents` | app/repo_audit/checks.py:227-230 | the reported names are exactly the set difference, each once |
| `Versions.NewerIsGreaterForever` | app/depscan/registry_client.py:80-93 | `is_newer_version` compares the sequences extended with zeros without end: the padding width of a pair never matters |
| `Versions.Trichotomy` | app/depscan/registry_client.py:86-93 | of two numeric versions exactly one is greater, or they are the same in every place |
| `Versions.NewerIsStrictWeakOrder` | app/depscan/registry_client.py:86-93 | it is irreflexive and transitive, and what is neither newer nor older is the same version |
| `Versions.TrailingZerosIgnored` | app/depscan/registry_client.py:86-93 | trailing zeros are ignored |
| `Versions.NewerThanAllIsNewerThanGreatest` | app/depscan/finding_builder.py:42-68 | newer than all last affected versions is newer than a greatest of them |
| `FindingBuilding.InferredExactly` | app/depscan/finding_builder.py:42-68 | a fix is inferred exactly when there is a last affected version, the latest release is known, all are numeric, and the latest release exceeds their maximum |
| `FindingBuilding.RecordedFixesExactly` | app/depscan/finding_builder.py:97-105 | when fixed versions are recorded, they are the result: all of them, each once, in order |
| `FindingBuilding.LastAffectedContents` | app/depscan/finding_builder.py:26-39 | the last affected versions are those of the package in its ecosystem, up to normalisation |
| `FindingBuilding.OtherwiseInferred` | app/depscan/finding_builder.py:104-106 | when none is recorded, the result is the inferred one |
| `FindingBuilding.RecordsExactly` | app/depscan/finding_builder.py:125-158 | there is a record exactly for every advisory of a hit that could be fetched and every place of its package, with CRITICAL for malicious packages |
| `FindingBuilding.FindingBuilder.GetVuln` | app/depscan/finding_builder.py:83-91 | the cache always answers as the service does |
| `FindingBuilding.FindingBuilder.GetFixedVersions` | app/depscan/finding_builder.py:93-106 | recorded fixed versions, else the inferred one; the registry is not asked when there are recorded ones |
| `FindingBuilding.FindingBuilder.Build` | app/depscan/finding_builder.py:117-160 | with its two caches, the builder returns the records that a cache-free specification gives |
| `FindingBuilding.FindingBuilder.BuildKey` | app/depscan/finding_builder.py:117-160 | the same for the advisories of one package |
| `Purl.QuoteInjective` | app/depscan/sbom.py:57-61 | percent-encoding is reversible |
| `Purl.QuoteCharacters` | app/depscan/sbom.py:57-61 | encoded text holds no `/`, `@` or `:` |
| `Purl.QuotedByteReads` | app/depscan/sbom.py:57-61 | letters, digits and _ . - ~ stand for themselves, any other byte becomes % and two upper-case hexadecimal digits that read as the byte |
| `Purl.UnquoteQuote` | app/depscan/sbom.py:57-61 | unquoting gives the text back |
| `Purl.PurlReadsBack` | app/depscan/sbom.py:35-62 | a package URL reads back as the type, namespace, name and version |
| `Purl.PurlTypes` | app/depscan/sbom.py:22-33 | the types of the ecosystems |
| `Purl.NamespacesExactly` | app/depscan/sbom.py:47-55 | what is namespace and what is name, for each ecosystem |
| `Purl.NormalizedEqualExactly` | app/depscan/sbom.py:53-55 | PyPI normalisation identifies names exactly up to case and the choice of _ . - |
| `Purl.NormalizedIsLower` | app/depscan/sbom.py:53-55 | a normalised name is in lower case, with - for _ and . |
| `Purl.PurlExactly` | app/depscan/sbom.py:35-62 | within an ecosystem two package URLs are equal exactly when namespace, name and version are |
| `Purl.NamesConfusedExactly` | app/depscan/sbom.py:47-55 | outside PyPI two different names are confused exactly when one is the other with an empty namespace in front |
| `Purl.PurlInjective` | app/depscan/sbom.py:35-62 | so `build_purl` is injective on names without empty namespaces, and versions |
| `Purl.SplitShape` | app/depscan/sbom.py:47-52 | a name is its namespace, the separator and its name joined |
| `BillOfMaterials.AddComponent` | app/depscan/sbom.py:65-80 | adds the component of a new key only, and returns the reference of the key's component |
| `BillOfMaterials.BuildCycloneDx` | app/depscan/sbom.py:103-137 | one component for each key in order of first occurrence; one vulnerability for each finding, whose reference is that of the component holding the finding's key |
| `Prelude.FirstOccurrencesInOrder` | app/depscan/sbom.py:103-108 | components stand in the order in which their keys first occur |
| `BillOfMaterials.BuildSpdx` | app/depscan/sbom.py:166-188 | one package for each key in order of first occurrence, with dense ids |
| `BillOfMaterials.SpdxIdsDenseAndDistinct` | app/depscan/sbom.py:166-188 | ids are 0, 1, 2, ..., each package has the package URL of its key, no key is listed twice, and exactly the given keys are listed |
| `Sbom.RefsTellComponentsApart` | app/depscan/sbom.py:65-80 | different components of an ecosystem other than PyPI, without empty namespaces, have different references |
| `Sbom.PyPIRefsSharedExactly` | app/depscan/sbom.py:53-55 | PyPI components share a reference exactly when name normalisation identifies them |
| `RuntimeStatus.GreatestIsGreatest` | app/runtimes/status.py:70 | `max` by cycle: no release of the list has a greater cycle |
| `RuntimeStatus.RecommendedExactly` | app/runtimes/status.py:55-70 | there is a recommendation exactly when there is a candidate; it is a greatest settled candidate, or a greatest candidate if none has settled |
| `RuntimeStatus.UpdateIsStrictlyNewer` | app/runtimes/status.py:82-95 | an update is reported only for a pinned, known, supported cycle and only to a supported cycle of the runtime that is strictly newer |
| `RuntimeStatus.StatesOnlyAge` | app/runtimes/status.py:73-95 | with fixed releases a version never leaves eol, and leaves eol_soon only for eol |
| `RuntimeStatus.NeverFallsExactly` | app/runtimes/status.py:55-70 | the recommendation never falls on any later day exactly when some candidate has settled already, or no candidate settles before the greatest does |
| `RuntimeStatus.UpdateStaysDue` | app/runtimes/status.py:73-95 | once some candidate has settled, a reported update stays due until the end of support is near |
| `RuntimeStatus.StatusExactly` | app/runtimes/status.py:73-105 | every field of the status of a pinned, known cycle, and its state: ended, within 180 days of it, outdated, or latest |
| `RuntimeStatus.OtherStates` | app/runtimes/status.py:86-89 | reference when not pinned, unknown without a release |
| `RuntimeStatus.CandidateExactly` | app/runtimes/status.py:62-65 | which releases may be recommended |
| `RuntimeStatus.SettledExactly` | app/runtimes/status.py:66-69 | a release settles 180 days after its day |
| `RuntimeStatus.TupleLessExactly` | app/runtimes/status.py:47-52 | cycles compare at the first place where they differ |
| `RuntimeAlerts.FindAlerts` | app/runtimes/alerts.py:72-114 | the loops over rows, pinned cycles and releases give the specified sorted list |
| `RuntimeAlerts.Group` | app/runtimes/alerts.py:76-85 | the three dictionaries: repositories by pinned cycle, repositories by runtime, state by cycle |
| `RuntimeAlerts.AlertsExactly` | app/runtimes/alerts.py:72-114 | the list holds exactly the alerts that are due, each once, sorted |
| `RuntimeAlerts.SupportAlertTells` | app/runtimes/alerts.py:87-99 | when an alert about the end of support is due, and every field of it |
| `RuntimeAlerts.ReleaseAlertTells` | app/runtimes/alerts.py:101-113 | when an alert about a release of the last 90 days is due, and every field of it |
| `RuntimeAlerts.AlertLessExactly` | app/runtimes/alerts.py:114 | alerts stand in the order of kind, runtime and cycle |
| `RuntimeAlerts.KeyExamples` | app/runtimes/alerts.py:55-57 | how keys are written |
| `RuntimeAlerts.OneAlertPerCell` | app/runtimes/alerts.py:72-114 | two alerts of a list differ in kind, runtime or cycle |
| `RuntimeAlerts.KeysTellApart` | app/runtimes/alerts.py:55-57 | keys are equal exactly for the same kind, runtime and cycle, and none is the mark of the first run |
| `RuntimeAlertRuns.AlertTable.Send` | app/runtimes/alerts.py:127-153 | one daily run: what is delivered, what is recorded, and that the unique key is never violated |
| `RuntimeAlertRuns.FoundAlertsAreOneEach` | app/runtimes/alerts.py:72-114 | one batch never repeats a key |
| `RuntimeAlertRuns.SentExactly` | app/runtimes/alerts.py:127-153 | over any runs a key is recorded exactly when it was live in the first run or in a run that could send |
| `RuntimeAlertRuns.DeliversExactly` | app/runtimes/alerts.py:127-153 | a run delivers a key exactly when it is not the first, can send, the key is live, and it was not live in the first run nor in any earlier run that could send |
| `RuntimeAlertRuns.DeliveredAtMostOnce` | app/runtimes/alerts.py:127-153 | no key is delivered twice |
| `RuntimeAlertRuns.SupportKeyLiveExactly` | app/runtimes/alerts.py:90-99 | the key of a support alert is live exactly while the pinned cycle is in that state |
| `RuntimeAlertRuns.EndOfSupportIsReported` | app/runtimes/alerts.py:127-153 | once support has ended, with fixed tables, every later run that can send settles the key |
| `RuntimeAlertRuns.SoonBeforeEnded` | app/runtimes/alerts.py:127-153 | with fixed tables, ends soon is never delivered after has ended |
| `McpTokens.TokenStore.IssueToken` | app/mcp_server/mcp_token_store.py:55-77 | the result and the rows: bad days, too many (the purge is rolled back), or issued |
| `McpTokens.TokenStore.IssueOAuthToken` | app/mcp_server/mcp_token_store.py:89-106 | purges and adds the token, whatever the number |
| `McpTokens.TokenStore.PurgeStale` | app/mcp_server/mcp_token_store.py:109-119 | removes exactly the user's rows revoked or expired for over 30 days |
| `McpTokens.TokenStore.RevokeToken` | app/mcp_server/mcp_token_store.py:133-144 | marks the user's own unrevoked token; true exactly if the user has such a token |
| `McpTokens.TokenStore.RevokeOAuthTokens` | app/mcp_server/mcp_token_store.py:163-182 | marks exactly the user's unrevoked tokens of the client and counts them |
| `McpTokens.ReachableIsValid` | app/mcp_server/mcp_token_store.py:55-182 | identifiers stay unique in every reachable ledger |
| `McpTokens.ActiveAfterStepExactly` | app/mcp_server/mcp_token_store.py:46-182 | after any call the active tokens, at any later time, are those active before that the call does not revoke, and the one it issues: no purge removes an active token, nothing else makes one active |
| `McpTokens.NeverActiveAgain` | app/mcp_server/mcp_token_store.py:46-182 | a token that was issued and is not active is never active again |
| `McpTokens.AtMostTenActive` | app/mcp_server/mcp_token_store.py:55-86 | in every reachable ledger and at every later time a user has at most 10 active tokens issued by hand |
| `McpTokens.IssueExactly` | app/mcp_server/mcp_token_store.py:64-73 | issuing for allowed days is refused exactly when the user has 10 active tokens, otherwise the user has one more |
| `McpTokens.IssuedExactly` | app/mcp_server/mcp_token_store.py:55-106 | every field of an issued token: by hand for 7, 30 or 90 days below ten active ones, to a client for the time it asks for |
| `McpTokens.LeftAfterIssue` | app/mcp_server/mcp_token_store.py:66-119 | issuing leaves the new token and what the purge leaves; a refusal leaves the ledger as it was |
| `McpTokens.PurgedExactly` | app/mcp_server/mcp_token_store.py:109-119 | a purge takes exactly the user's tokens revoked or expired over thirty days ago |
| `McpTokens.RevokedExactly` | app/mcp_server/mcp_token_store.py:133-182 | a revocation marks, at its time, the user's unrevoked token with the id, or those of the client |
| `McpTokens.CountedExactly` | app/mcp_server/mcp_token_store.py:80-86 | what counts against the limit: the user's own, issued by hand, neither revoked nor expired |
| `McpTokens.StatusExactly` | app/mcp_server/mcp_token_store.py:46-52 | revoked before expired before active |
| `OAuthClients.ClientTable.SaveClient` | app/mcp_server/oauth/clients.py:81-104 | the outcome and the rows; a refused registration has purged, an invalid one has not |
| `OAuthClients.ClientTable.PurgeUnused` | app/mcp_server/oauth/clients.py:63-78 | removes exactly the unused clients older than 30 days and counts them |
| `OAuthClients.ClientTable.TouchClient` | app/mcp_server/oauth/clients.py:115-120 | sets the last use of that client only |
| `OAuthClients.RecentIsTheTrueCount` | app/mcp_server/oauth/clients.py:89-93 | the rows the hourly limit counts are all registrations of the last hour, although the table is purged |
| `OAuthClients.AtMostSixtyAnHour` | app/mcp_server/oauth/clients.py:81-104 | over any run no hour (t-1h, t], for any t, holds more than 60 accepted registrations |
| `OAuthClients.AtMostThousandClients` | app/mcp_server/oauth/clients.py:94-98 | there are never more than 1000 clients |
| `OAuthClients.UsedIsKept` | app/mcp_server/oauth/clients.py:63-78 | a client that was used is never removed, by whatever calls follow |
| `OAuthClients.RemovedExactly` | app/mcp_server/oauth/clients.py:63-88 | a call removes a client exactly if it purges and the client was never used and is over 30 days old |
| `OAuthClients.AcceptedExactly` | app/mcp_server/oauth/clients.py:81-104 | over any run a registration is accepted exactly when it is valid, fewer than 60 were accepted in the hour before, and fewer than 1000 clients are left by the purge |
| `OAuthClients.PurgedExactly` | app/mcp_server/oauth/clients.py:63-78 | a purge takes exactly the clients never used and over 30 days old |
| `OAuthClients.StepExactly` | app/mcp_server/oauth/clients.py:63-120 | what each call leaves, in fields |
| `FlutterReleases.Reduce` | app/runtimes/eol_client.py:86-120 | the nested loops give, for each runtime and cycle, the greatest version triple and the earliest known day over all stable releases |
| `FlutterReleases.ObservationsExactly` | app/runtimes/eol_client.py:90-99 | what counts: Flutter and Dart versions of stable releases from major version 3 on, each for its own cycle |
| `FlutterReleases.GreaterExactly` | app/runtimes/eol_client.py:108 | versions compare part by part |
| `FlutterReleases.Add` | app/runtimes/eol_client.py:94-111 | one observation: the entry of its cycle stays the greatest and the earliest, other entries stay |
| `FlutterReleases.OrderDoesNotMatter` | app/runtimes/eol_client.py:90-120 | any permutation, and any repetition, of the list gives the same result |
| `FlutterReleases.MoreReleasesOnlyImprove` | app/runtimes/eol_client.py:90-120 | with more releases no cycle is lost, no version falls and no first day moves later |
| `Cvss.RoundIsNearest` | app/codescan/cvss.py:46 | `round` gives a nearest integer, of two the even one |
| `Cvss.RoundupIsLeast` | app/codescan/cvss.py:40-49 | `_roundup` is the least number of tenths not below the value rounded to five decimals |
| `Cvss.RoundupMonotone` | app/codescan/cvss.py:40-49 | it is monotone |
| `Cvss.KeepsTenthsExactly` | app/codescan/cvss.py:40-49 | it keeps exactly the numbers of tenths |
| `Cvss.RoundupIsIdempotent` | app/codescan/cvss.py:40-49 | it is idempotent |
| `Cvss.ScoreInTenths` | app/codescan/cvss.py:84-105 | for all weights in [0, 1] and either scope the base score is a number of tenths from 0 to 10 |
| `Cvss.UnchangedScopeIsMonotone` | app/codescan/cvss.py:89-105 | with unchanged scope the score is monotone in every weight |
| `Cvss.ChangedImpactMonotoneExactly` | app/codescan/cvss.py:92-93 | with changed scope the impact is monotone on the sub-scores from 0 to y, for every y from 0.04, exactly when 48.75 (y - 0.02)^14 is at most 7.52 |
| `Cvss.ChangedImpactMonotone` | app/codescan/cvss.py:92-93 | so it is monotone up to a sub-score of 0.89 |
| `Cvss.ChangedScopeIsNotMonotone` | app/codescan/cvss.py:92-103 | a remark on the formula off the tables: raising an impact weight from 0.48, which no vector has, to 0.56 lowers the score from 7.1 to 7.0 |
| `Cvss.ScoresOfVectorsAreMonotone` | app/codescan/cvss.py:80-105 | for the vectors of the tables, the score is monotone in every metric whether the scope is changed or not |
| `Cvss.WorseMetricsScoreNoLess` | app/codescan/cvss.py:21-29 | of two vectors of one scope, one at least as bad in every metric scores no less |
| `Cvss.PublishedScore1` | app/codescan/cvss.py:84-105 | AV:N/AC:L/PR:N/UI:N/S:U/C:H/I:H/A:H scores 9.8 |
| `Cvss.PublishedScore2` | app/codescan/cvss.py:84-105 | AV:L/AC:L/PR:L/UI:N/S:U/C:H/I:H/A:H scores 7.8 |
| `Cvss.PublishedScore3` | app/codescan/cvss.py:84-105 | AV:N/AC:H/PR:N/UI:N/S:U/C:N/I:N/A:H scores 5.9 |
| `Cvss.PublishedScore4` | app/codescan/cvss.py:84-105 | AV:A/AC:L/PR:H/UI:R/S:U/C:H/I:L/A:N scores 4.9 |
| `Cvss.PublishedScore5` | app/codescan/cvss.py:84-105 | AV:P/AC:H/PR:L/UI:R/S:U/C:H/I:N/A:N scores 3.9 |
| `Cvss.PublishedScore6` | app/codescan/cvss.py:84-105 | AV:N/AC:H/PR:H/UI:R/S:U/C:N/I:H/A:L scores 4.8 |
| `Cvss.PublishedScore7` | app/codescan/cvss.py:84-105 | AV:N/AC:L/PR:N/UI:R/S:C/C:L/I:L/A:N scores 6.1 |
| `Cvss.PublishedScore8` | app/codescan/cvss.py:84-105 | AV:N/AC:L/PR:L/UI:N/S:C/C:H/I:H/A:N scores 9.6 |
| `Cvss.PublishedScore9` | app/codescan/cvss.py:84-105 | AV:P/AC:L/PR:H/UI:N/S:C/C:L/I:N/A:N scores 2.2 |
| `Cvss.HighestScore` | app/codescan/cvss.py:84-105 | AV:N/AC:L/PR:N/UI:N/S:C/C:H/I:H/A:H scores 10.0 |
| `Cvss.NoImpactNoScore` | app/codescan/cvss.py:100-101 | without impact the score is 0 |
| `Sla.BuildReport` | app/sla/report.py:178-227 | the numbers agree: overdue in the summary, over severities, over repositories and in the list; resolved likewise; open over both groupings; overdue is at most open with a deadline, at most open; the list is sorted by days |
| `Sla.ToItems` | app/sla/report.py:75-102 | open excepted findings are left out, resolved ones stay |
| `Sla.SeverityStats` | app/sla/report.py:105-124 | one row of counts for each severity present, most severe first |
| `Sla.RepoStats` | app/sla/report.py:127-142 | one row of counts for each repository, most overdue first |
| `Sla.GroupsAddUp` | app/sla/report.py:105-142 | both groupings add up to the totals of all items |
| `Sla.StatsInOrder` | app/sla/report.py:105-142 | severities once each, most severe first; the repositories' rows a permutation sorted by overdue, then open, then name |
| `Sla.OverdueListExactly` | app/sla/report.py:145-165 | the list is a permutation of the overdue items, longest overdue first |
| `Sla.KevNeverLengthens` | app/sla/policy.py:31-47 | a listed finding has a deadline, never a later one; the deadline changes exactly if there was none or a longer one |
| `Sla.StaysOverdue` | app/sla/report.py:44-60 | an open overdue item stays overdue, and no fewer days |
| `Sla.LateExactly` | app/sla/policy.py:31-47 | a finding is overdue exactly when it is open, not excepted, and past the deadline of its severity, or past that of exploited findings if it is listed |
| `Sla.LateCount` | app/sla/report.py:75-102 | the totals count exactly these findings, the open ones with a deadline, and the resolved ones |
| `Sla.ItemsExactly` | app/sla/report.py:75-102 | the items are the findings that are resolved, or open and not excepted, with their names and times |
| `Sla.SelectedExactly` | app/sla/report.py:193-201 | the findings of the report are the open ones and those resolved within the window |
| `Sla.OverdueDaysExactly` | app/sla/report.py:51-56 | the days are the whole days since the item was due |
| `Sla.SeveritiesInOrder` | app/sla/report.py:109-113 | CRITICAL, HIGH, MEDIUM, LOW, then the rest |
| `Sla.ReposInOrder` | app/sla/report.py:142 | by overdue, then open, then name |
| `Sla.OverdueInOrder` | app/sla/report.py:148 | by days, then repository, then package |
| `Sla.StatsCount` | app/sla/report.py:114-141 | each row counts the open, overdue and resolved items of its name |
| `Sla.ListOnlyGrows` | app/sla/report.py:145-165 | without changes to the findings the overdue list never gets shorter |

## Left out

- Routers, schemas, configuration, scheduling, migrations, the dashboard, notifiers, message texts,
  log texts and status codes: no state of their own.
- `client_id` and the middleware around the rate limiter: reading headers and sending responses.
- Concurrency inside one process: calls are atomic steps.
- The exceptions of recording a run (the job logs them) and of requests other than HTTP errors.
- PrLogRepository.Record: when a pull request is both refreshed and deleted as resolved, the commit has to update a row that is gone, which may raise, depending on the driver; the contract gives the table of a commit that succeeds. `PrLogRepositoryLaws.RefreshedRowsAreKept` and `DepsopsRunner.ListsDisjoint` show that no run of the job comes to this.
- PrLogRepositoryLaws.RecordedUnresolved: is about the table of a commit that succeeds, as above.
- Commit watch: the text analysis of a diff and the signature check are given facts; identifiers are not shortened to 7 characters. The job advances its cursor before the notification is sent, and a failed notification is not repeated; the theorem is about the alerts raised, not those delivered.
- Exceptions: filing issues again, the filter on administrators' repositories, notice texts, and the validation of the router. `.first()` is the first matching row.
- DependencyFindings.DependencyFindingRepository.ResolveMissing: the scope is what the LIKE query selects; `SqlLike.LikeMeansOwnedBy` says when that is the owner's repositories.
- DEPSCAN's deletion of old resolved findings: the same as CODESCAN's, which is modelled.
- GitHub alerts: the state of each source, and the comparison with DEPSCAN's findings, which is plain set algebra on two lists.
- Repository audit: the checks themselves and the score, independent conditions on one reply. An empty stored snapshot counts as none in the source; here it is None.
- Versions: what `\d` accepts besides ASCII digits; such versions are `Other`.
- FindingBuilding.FindingBuilder.Build: the descriptive fields of a record are given by the world it reads from.
- Package URLs: lower-casing outside ASCII; texts are their UTF-8 bytes.
- Bills of materials: document metadata and the descriptive fields of a vulnerability.
- Runtimes: reading a cycle as numbers (`cycle_key`) is given with each release; endoflife.date's reply is copied field by field and not modelled.
- FlutterReleases.Reduce: the sorting of the result and the pattern that finds three numbers; the result is the dictionary.
- Tokens: the signed token itself, the check of a presented token and its last use, listing, and the notice before expiry.
- OAuth clients: the validation of redirect URIs is one given outcome; the stored JSON is opaque.
- Cvss: IEEE rounding of the arithmetic; the model computes over the reals, with `round` to the nearest integer, halves to even. The parsing of vector strings.
- Sla: the mean time to resolve, a floating-point average; upper-casing of severities; the query filters other than the window.
