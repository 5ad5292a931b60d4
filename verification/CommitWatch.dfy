/** The commit watch (app/commit_watch/crawler.py): per repository a cursor, the last head seen of
  the default branch, and alerts about what lies between the cursor and the new head. GitHub's
  replies are inputs; a reply may fail at any point. */
module CommitWatch {
  import opened Prelude

  type Sha = string

  const MAX_COMMITS: nat := 100

  /** What the analysis says about a commit, or that fetching its files failed. */
  datatype Facts = FetchFailed | Facts(trusted: bool, risky: bool, incomplete: bool)

  datatype Commit = Commit(sha: Sha, facts: Facts)

  datatype Status = Ahead | Identical | Behind | Diverged

  /** The reply to compare(base, head): an HTTP error, a missing base, or a comparison. */
  datatype Comparison =
    | CompareFailed
    | BaseMissing
    | Compared(status: Status, commits: seq<Commit>, total: nat)

  datatype Reply = HeadFailed | NoHead | Head(sha: Sha, compare: Sha -> Comparison)

  datatype Target = Target(repo: string, reply: Reply)

  datatype Alert =
    | CommitAlert(repo: string, sha: Sha)
    | Rewritten(repo: string, base: Sha, head: Sha)
    | Truncated(repo: string, head: Sha, total: nat, shown: nat)

  predicate Suspicious(f: Facts) {
    f.Facts? && (!f.trusted || f.risky || f.incomplete)
  }

  function Shown(commits: seq<Commit>): seq<Commit> {
    commits[..Min(|commits|, MAX_COMMITS)]
  }

  function CommitAlerts(repo: string, commits: seq<Commit>): seq<Alert> {
    if commits == [] then []
    else CommitAlerts(repo, Front(commits))
         + (if Suspicious(Last(commits).facts) then [CommitAlert(repo, Last(commits).sha)] else [])
  }

  predicate FilesFetched(commits: seq<Commit>) {
    forall c | c in commits :: !c.facts.FetchFailed?
  }

  /** The alerts about the commits from `base` to `head`, or None when an HTTP error interrupts. */
  function Inspected(repo: string, base: Sha, head: Sha, comparison: Comparison): Option<seq<Alert>> {
    match comparison
    case CompareFailed => None
    case BaseMissing => Some([Rewritten(repo, base, head)])
    case Compared(status, commits, total) =>
      if !status.Ahead? && !status.Identical? then Some([Rewritten(repo, base, head)])
      else
        var shown := Shown(commits);
        if !FilesFetched(shown) then None
        else Some(CommitAlerts(repo, shown)
                  + (if total > |shown| then [Truncated(repo, head, total, |shown|)] else []))
  }

  /** An HTTP error interrupts: of the comparison, or of the files of one of the commits it looks at. */
  predicate Interrupted(comparison: Comparison) {
    || comparison.CompareFailed?
    || (&& comparison.Compared? && (comparison.status == Ahead || comparison.status == Identical)
        && exists n | 0 <= n < Min(|comparison.commits|, 100) :: comparison.commits[n].facts.FetchFailed?)
  }

  /** One of the first hundred commits has this name, and is not trusted, or is risky, or could not be
    read in full. */
  ghost predicate NeedsReport(commits: seq<Commit>, sha: Sha) {
    exists n :: 0 <= n < Min(|commits|, 100) && commits[n].sha == sha && commits[n].facts.Facts?
      && (!commits[n].facts.trusted || commits[n].facts.risky || commits[n].facts.incomplete)
  }

  /** What a comparison has to report, alert by alert. */
  ghost predicate Reports(repo: string, base: Sha, head: Sha, comparison: Comparison, alerts: seq<Alert>)
    requires !Interrupted(comparison)
  {
    if !comparison.Compared? || comparison.status == Behind || comparison.status == Diverged then
      alerts == [Rewritten(repo, base, head)]
    else
      var shown := Min(|comparison.commits|, 100);
      forall a :: a in alerts <==>
        match a
        case CommitAlert(r, sha) => r == repo && NeedsReport(comparison.commits, sha)
        case Rewritten(_, _, _) => false
        case Truncated(r, h, total, n) =>
          r == repo && h == head && total == comparison.total && n == shown && total > shown
  }

  lemma InspectedExactly(repo: string, base: Sha, head: Sha, comparison: Comparison)
    ensures Inspected(repo, base, head, comparison).None? <==> Interrupted(comparison)
    ensures !Interrupted(comparison) ==>
      Reports(repo, base, head, comparison, Inspected(repo, base, head, comparison).value)
  {
    if comparison.Compared? {
      var shown := Shown(comparison.commits);
      forall n | 0 <= n < |shown| ensures shown[n] in shown && shown[n] == comparison.commits[n] {
      }
      if (comparison.status.Ahead? || comparison.status.Identical?) && !Interrupted(comparison) {
        assert FilesFetched(shown);
        forall sha ensures CommitAlert(repo, sha) in CommitAlerts(repo, shown) <==> NeedsReport(comparison.commits, sha) {
          CommitAlertsContents(repo, shown, sha);
        }
        OnlyCommitAlerts(repo, shown);
      }
    }
  }

  lemma {:induction false} OnlyCommitAlerts(repo: string, commits: seq<Commit>)
    ensures forall a :: a in CommitAlerts(repo, commits) ==> a.CommitAlert? && a.repo == repo
  {
    if commits != [] {
      OnlyCommitAlerts(repo, Front(commits));
    }
  }

  method InspectRepo(repo: string, base: Sha, head: Sha, comparison: Comparison)
    returns (result: Option<seq<Alert>>)
    ensures result == Inspected(repo, base, head, comparison)
    ensures result.None? <==> Interrupted(comparison)
    ensures result.Some? ==> Reports(repo, base, head, comparison, result.value)
  {
    InspectedExactly(repo, base, head, comparison);
    if comparison.CompareFailed? {
      return None;
    }
    if comparison.BaseMissing? || (!comparison.status.Ahead? && !comparison.status.Identical?) {
      return Some([Rewritten(repo, base, head)]);
    }
    var alerts: seq<Alert> := [];
    var commits := Shown(comparison.commits);
    for i := 0 to |commits|
      invariant FilesFetched(commits[..i])
      invariant alerts == CommitAlerts(repo, commits[..i])
    {
      assert Front(commits[..i + 1]) == commits[..i] && commits[..i + 1] == commits[..i] + [commits[i]];
      if commits[i].facts.FetchFailed? {
        return None;
      }
      if commits[i].facts.trusted && !commits[i].facts.risky && !commits[i].facts.incomplete {
        continue;
      }
      alerts := alerts + [CommitAlert(repo, commits[i].sha)];
    }
    assert commits[..|commits|] == commits;
    if comparison.total > |commits| {
      alerts := alerts + [Truncated(repo, head, comparison.total, |commits|)];
    } else {
      assert alerts + [] == alerts;
    }
    return Some(alerts);
  }

  /** The effect of one check of one repository: the new cursor and the alerts raised, or None
    when the repository is skipped. */
  function Visit(repo: string, cursor: Option<Sha>, reply: Reply): Option<(Sha, seq<Alert>)> {
    match reply
    case HeadFailed => None
    case NoHead => None
    case Head(head, compare) =>
      if cursor.None? || cursor.value == head then Some((head, []))
      else
        match Inspected(repo, cursor.value, head, compare(cursor.value))
        case None => None
        case Some(alerts) => Some((head, alerts))
  }

  function CursorOf(states: map<string, Sha>, repo: string): Option<Sha> {
    if repo in states then Some(states[repo]) else None
  }

  datatype JobState = JobState(states: map<string, Sha>, alerts: seq<Alert>, checked: nat)

  function VisitTarget(s: JobState, t: Target): JobState {
    match Visit(t.repo, CursorOf(s.states, t.repo), t.reply)
    case None => s
    case Some((head, alerts)) => JobState(s.states[t.repo := head], s.alerts + alerts, s.checked + 1)
  }

  function VisitAll(s: JobState, targets: seq<Target>): JobState {
    if targets == [] then s else VisitTarget(VisitAll(s, Front(targets)), Last(targets))
  }

  /** One run of the job; `states` is the stored table. */
  class CommitWatchJob {
    var states: map<string, Sha>
    var alerts: seq<Alert>
    var checked: nat

    constructor (states: map<string, Sha>)
      ensures this.states == states && alerts == [] && checked == 0
    {
      this.states, alerts, checked := states, [], 0;
    }

    method Execute(targets: seq<Target>)
      modifies this
      ensures JobState(states, alerts, checked) == VisitAll(old(JobState(states, alerts, checked)), targets)
    {
      for i := 0 to |targets|
        invariant JobState(states, alerts, checked) == VisitAll(old(JobState(states, alerts, checked)), targets[..i])
      {
        assert Front(targets[..i + 1]) == targets[..i];
        var repo, reply := targets[i].repo, targets[i].reply;
        if reply.HeadFailed? || reply.NoHead? {
          continue;
        }
        var head := reply.sha;
        if repo in states && states[repo] != head {
          var result := InspectRepo(repo, states[repo], head, reply.compare(states[repo]));
          if result.None? {
            continue;
          }
          alerts := alerts + result.value;
        }
        states := states[repo := head];
        checked := checked + 1;
      }
      assert targets[..|targets|] == targets;
    }
  }

  // ----------------------------------------------------- one repository over many runs

  /** A repository that a run visits once ends with the cursor and the alerts of that visit, and the
    other repositories of the run do not touch its cursor. */
  lemma {:induction false} RunVisitsRepo(s: JobState, targets: seq<Target>, n: nat)
    requires n < |targets| && EachOnce(targets)
    ensures var repo := targets[n].repo;
      var visit := Visit(repo, CursorOf(s.states, repo), targets[n].reply);
      CursorOf(VisitAll(s, targets).states, repo)
        == if visit.None? then CursorOf(s.states, repo) else Some(visit.value.0)
    ensures var visit := Visit(targets[n].repo, CursorOf(s.states, targets[n].repo), targets[n].reply);
      visit.Some? ==> forall a :: a in visit.value.1 ==> a in VisitAll(s, targets).alerts
  {
    if n == |targets| - 1 {
      RunLeavesOthers(s, Front(targets), targets[n].repo);
    } else {
      RunVisitsRepo(s, Front(targets), n);
    }
  }

  /** The alerts of these visits, one after the other, and how many of them succeed. */
  function AlertsOfVisits(states: map<string, Sha>, targets: seq<Target>): seq<Alert> {
    if targets == [] then []
    else
      var visit := Visit(Last(targets).repo, CursorOf(states, Last(targets).repo), Last(targets).reply);
      AlertsOfVisits(states, Front(targets)) + (if visit.None? then [] else visit.value.1)
  }

  function SuccessfulVisits(states: map<string, Sha>, targets: seq<Target>): nat {
    if targets == [] then 0
    else
      SuccessfulVisits(states, Front(targets))
      + (if Visit(Last(targets).repo, CursorOf(states, Last(targets).repo), Last(targets).reply).Some? then 1 else 0)
  }

  ghost predicate EachOnce(targets: seq<Target>) {
    forall i, j :: 0 <= i < j < |targets| ==> targets[i].repo != targets[j].repo
  }

  lemma LastIsOther(targets: seq<Target>)
    requires EachOnce(targets) && targets != []
    ensures EachOnce(Front(targets)) && forall t :: t in Front(targets) ==> t.repo != Last(targets).repo
  {
    forall t | t in Front(targets) ensures t.repo != Last(targets).repo {
      var i :| 0 <= i < |Front(targets)| && Front(targets)[i] == t;
      assert targets[i].repo != targets[|targets| - 1].repo;
    }
  }

  lemma TotalsStep(s: JobState, before: JobState, t: Target)
    requires CursorOf(before.states, t.repo) == CursorOf(s.states, t.repo)
    ensures var visit := Visit(t.repo, CursorOf(s.states, t.repo), t.reply);
      && VisitTarget(before, t).alerts == before.alerts + (if visit.None? then [] else visit.value.1)
      && VisitTarget(before, t).checked == before.checked + (if visit.Some? then 1 else 0)
  {
    assert before.alerts + [] == before.alerts;
  }

  /** When each repository is visited once, a run raises the alerts of its visits and counts those that
    succeed. */
  lemma {:induction false} RunTotals(s: JobState, targets: seq<Target>)
    requires EachOnce(targets)
    ensures VisitAll(s, targets).alerts == s.alerts + AlertsOfVisits(s.states, targets)
    ensures VisitAll(s, targets).checked == s.checked + SuccessfulVisits(s.states, targets)
  {
    if targets != [] {
      LastIsOther(targets);
      RunTotals(s, Front(targets));
      RunLeavesOthers(s, Front(targets), Last(targets).repo);
      TotalsStep(s, VisitAll(s, Front(targets)), Last(targets));
    }
  }

  lemma {:induction false} RunLeavesOthers(s: JobState, targets: seq<Target>, repo: string)
    requires forall t :: t in targets ==> t.repo != repo
    ensures CursorOf(VisitAll(s, targets).states, repo) == CursorOf(s.states, repo)
  {
    if targets != [] {
      RunLeavesOthers(s, Front(targets), repo);
    }
  }

  /** The cursor of a repository after checks with these replies, from no cursor at all. */
  function Cursor(repo: string, replies: seq<Reply>): Option<Sha> {
    if replies == [] then None
    else
      var before := Cursor(repo, Front(replies));
      var visit := Visit(repo, before, Last(replies));
      if visit.None? then before else Some(visit.value.0)
  }

  /** The alerts of the `i`-th check. */
  function AlertsOf(repo: string, replies: seq<Reply>, i: nat): seq<Alert>
    requires i < |replies|
  {
    var visit := Visit(repo, Cursor(repo, replies[..i]), replies[i]);
    if visit.None? then [] else visit.value.1
  }

  /** The first head that was recorded. */
  function Baseline(repo: string, replies: seq<Reply>): Option<Sha> {
    if replies == [] then None
    else
      var before := Baseline(repo, Front(replies));
      if before.Some? then before else Cursor(repo, replies)
  }

  /** `history(h)` is every commit reachable from `h`, itself included. What the documentation of
    GitHub's compare promises: "ahead" and "identical" mean that the base is in the history of the
    head; the commits listed are distinct ones that the head has and the base lacks, and `total`
    counts them all. */
  ghost predicate Honest(history: Sha -> set<Sha>, reply: Reply) {
    reply.Head? ==> forall base ::
      var c := reply.compare(base);
      c.Compared? && (c.status.Ahead? || c.status.Identical?) ==>
        && history(base) <= history(reply.sha)
        && (forall i, j :: 0 <= i < j < |c.commits| ==> c.commits[i].sha != c.commits[j].sha)
        && (forall x :: x in c.commits ==> x.sha in history(reply.sha) - history(base))
        && c.total == |history(reply.sha) - history(base)|
  }

  /** The `i`-th check accounts for commit `c`: it moved the cursor over `c`, and either looked at
    `c`, raising an alert exactly if `c` is suspicious, or raised an alert that the history was
    rewritten or that commits were left unseen. */
  ghost predicate Accounts(repo: string, history: Sha -> set<Sha>, replies: seq<Reply>, i: nat, c: Sha)
    requires i < |replies|
  {
    var base, reply, alerts := Cursor(repo, replies[..i]), replies[i], AlertsOf(repo, replies, i);
    && base.Some? && reply.Head? && Cursor(repo, replies[..i + 1]) == Some(reply.sha)
    && c in history(reply.sha) && c !in history(base.value)
    && (|| (exists x :: x in Examined(reply.compare(base.value)) && x.sha == c
              && x.facts.Facts? && (CommitAlert(repo, c) in alerts <==> !x.facts.trusted || x.facts.risky || x.facts.incomplete))
        || Rewritten(repo, base.value, reply.sha) in alerts
        || (exists total, shown :: Truncated(repo, reply.sha, total, shown) in alerts && shown < total))
  }

  function Examined(comparison: Comparison): seq<Commit> {
    if comparison.Compared? then Shown(comparison.commits) else []
  }

  lemma {:induction false} CommitAlertsContents(repo: string, commits: seq<Commit>, c: Sha)
    ensures CommitAlert(repo, c) in CommitAlerts(repo, commits)
       <==> exists x :: x in commits && x.sha == c && Suspicious(x.facts)
    ensures forall a :: a in CommitAlerts(repo, commits) ==> a.CommitAlert?
  {
    if commits != [] {
      CommitAlertsContents(repo, Front(commits), c);
      assert commits == Front(commits) + [Last(commits)];
    }
  }

  function Shas(commits: seq<Commit>): set<Sha> {
    set c | c in commits :: c.sha
  }

  lemma {:induction false} DistinctShas(commits: seq<Commit>)
    requires forall i, j :: 0 <= i < j < |commits| ==> commits[i].sha != commits[j].sha
    ensures |Shas(commits)| == |commits|
  {
    if commits != [] {
      DistinctShas(Front(commits));
      assert commits == Front(commits) + [Last(commits)];
      assert Last(commits).sha !in Shas(Front(commits));
      assert Shas(commits) == Shas(Front(commits)) + {Last(commits).sha};
    }
  }

  lemma {:induction false} LargeSubsetIsAll<T>(part: set<T>, whole: set<T>)
    requires part <= whole && |part| >= |whole|
    ensures part == whole
  {
    if part != {} {
      var x :| x in part;
      LargeSubsetIsAll(part - {x}, whole - {x});
    } else {
      assert |whole| == 0;
    }
  }

  /** When as many commits were looked at as there are, every new commit was looked at. */
  lemma AllExamined(history: Sha -> set<Sha>, reply: Reply, base: Sha, c: Sha) returns (x: Commit)
    requires Honest(history, reply) && reply.Head?
    requires var comparison := reply.compare(base);
      comparison.Compared? && (comparison.status.Ahead? || comparison.status.Identical?)
      && comparison.total <= |Shown(comparison.commits)|
    requires c in history(reply.sha) && c !in history(base)
    ensures x in Examined(reply.compare(base)) && x.sha == c
  {
    var comparison := reply.compare(base);
    var shown := Shown(comparison.commits);
    DistinctShas(shown);
    LargeSubsetIsAll(Shas(shown), history(reply.sha) - history(base));
    assert c in Shas(shown);
    x :| x in shown && x.sha == c;
  }

  lemma SameShaSameCommit(commits: seq<Commit>, x: Commit, y: Commit)
    requires forall i, j :: 0 <= i < j < |commits| ==> commits[i].sha != commits[j].sha
    requires x in commits && y in commits && x.sha == y.sha
    ensures x == y
  {
  }

  lemma LastCheckAccounts(repo: string, history: Sha -> set<Sha>, replies: seq<Reply>, c: Sha)
    requires replies != [] && Honest(history, Last(replies))
    requires Cursor(repo, Front(replies)).Some? && Cursor(repo, replies).Some?
    requires c in history(Cursor(repo, replies).value) && c !in history(Cursor(repo, Front(replies)).value)
    ensures Accounts(repo, history, replies, |replies| - 1, c)
  {
    var n := |replies| - 1;
    var base, reply := Cursor(repo, Front(replies)).value, Last(replies);
    assert replies[..n] == Front(replies) && replies[..n + 1] == replies;
    var visit := Visit(repo, Some(base), reply);
    assert visit.Some? && reply.Head? && reply.sha != base;
    var comparison := reply.compare(base);
    var alerts := visit.value.1;
    assert alerts == Inspected(repo, base, reply.sha, comparison).value;
    if comparison.BaseMissing? || (!comparison.status.Ahead? && !comparison.status.Identical?) {
      assert alerts[0] == Rewritten(repo, base, reply.sha);
    } else {
      var shown := Shown(comparison.commits);
      if comparison.total > |shown| {
        assert alerts[|alerts| - 1] == Truncated(repo, reply.sha, comparison.total, |shown|);
      } else {
        var x := AllExamined(history, reply, base, c);
        CommitAlertsContents(repo, shown, c);
        if CommitAlert(repo, c) in alerts {
          var y :| y in shown && y.sha == c && Suspicious(y.facts);
          SameShaSameCommit(comparison.commits, x, y);
        }
      }
    }
  }

  /** A check moves the cursor to the head it was told exactly when nothing interrupts it; the first
    check, and one that finds the head unmoved, report nothing. */
  lemma CheckMovesExactly(repo: string, replies: seq<Reply>)
    requires replies != []
    ensures var before, reply := Cursor(repo, Front(replies)), Last(replies);
      Cursor(repo, replies)
        == if reply.Head? && (before == None || before.value == reply.sha || !Interrupted(reply.compare(before.value)))
           then Some(reply.sha) else before
    ensures var before, reply, alerts := Cursor(repo, Front(replies)), Last(replies), AlertsOf(repo, replies, |replies| - 1);
      if !reply.Head? || before == None || before.value == reply.sha || Interrupted(reply.compare(before.value))
      then alerts == [] else Reports(repo, before.value, reply.sha, reply.compare(before.value), alerts)
  {
    assert replies[..|replies| - 1] == Front(replies);
    var before, reply := Cursor(repo, Front(replies)), Last(replies);
    if reply.Head? && before.Some? {
      InspectedExactly(repo, before.value, reply.sha, reply.compare(before.value));
    }
  }

  /** A check that fails moves nothing, and a check that succeeds moves the cursor to the head it
    was told of; so the base of every check is the head of the last one that succeeded. */
  lemma CursorIsLastHead(repo: string, replies: seq<Reply>)
    requires replies != []
    ensures var cursor, before := Cursor(repo, replies), Cursor(repo, Front(replies));
      || (cursor == before && AlertsOf(repo, replies, |replies| - 1) == [])
      || (Last(replies).Head? && cursor == Some(Last(replies).sha))
  {
    assert replies[..|replies| - 1] == Front(replies);
  }

  lemma {:induction false} AccountsInPrefix(repo: string, history: Sha -> set<Sha>, replies: seq<Reply>, i: nat, c: Sha)
    requires replies != [] && i < |replies| - 1 && Accounts(repo, history, Front(replies), i, c)
    ensures Accounts(repo, history, replies, i, c)
  {
    assert Front(replies)[..i] == replies[..i] && Front(replies)[..i + 1] == replies[..i + 1];
  }

  /** No commit is skipped silently: over any sequence of pushes, rewrites, failures and checks,
    every commit in the history of the cursor that was not in the history of the first head
    recorded is accounted for by one of the checks. */
  lemma {:induction false} NoCommitSkippedSilently(
      repo: string, history: Sha -> set<Sha>, replies: seq<Reply>, c: Sha)
    requires forall r :: r in replies ==> Honest(history, r)
    requires Cursor(repo, replies).Some? && c in history(Cursor(repo, replies).value)
    ensures Baseline(repo, replies).Some?
    ensures c in history(Baseline(repo, replies).value)
      || exists i :: 0 <= i < |replies| && Accounts(repo, history, replies, i, c)
  {
    var front := Front(replies);
    BaselineExists(repo, front);
    if Cursor(repo, front).Some? {
      if c in history(Cursor(repo, front).value) {
        NoCommitSkippedSilently(repo, history, front, c);
        if i :| 0 <= i < |front| && Accounts(repo, history, front, i, c) {
          AccountsInPrefix(repo, history, replies, i, c);
        }
      } else {
        LastCheckAccounts(repo, history, replies, c);
      }
    }
  }

  lemma {:induction false} BaselineExists(repo: string, replies: seq<Reply>)
    ensures Baseline(repo, replies).Some? <==> Cursor(repo, replies).Some?
  {
    if replies != [] {
      BaselineExists(repo, Front(replies));
    }
  }
}
