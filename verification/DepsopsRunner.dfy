/** One DEPSOPS run (app/depsops/runner.py): list and judge the open pull requests of each target
  repository, record the verdicts, clean the log. GitHub's replies and the judge are inputs. */
module DepsopsRunner {
  import opened Prelude
  import opened PrLog
  import opened PrLogRetention
  import opened PrLogRepository
  import opened PrLogRetentionLaws
  import opened PrLogRepositoryLaws

  datatype Verdict =
    | Merge(title: string, security: Option<bool>, badge: Option<string>)
    | Flag(title: string, reason: string, security: Option<bool>, badge: Option<string>)
    | Skip
    | Error

  datatype OpenPr = OpenPr(number: int, verdict: Verdict)

  /** `ciFails`: asking whether the repository has CI raises, which nothing catches. */
  datatype Reply = ListFailed | Listed(prs: seq<OpenPr>, ciFails: bool)

  datatype Target = Target(repo: string, reply: Reply)

  datatype Scan = Scan(merged: seq<Item>, flagged: seq<Item>, resolved: seq<Item>, errors: nat)

  function Numbers(prs: seq<OpenPr>): set<int> {
    set p | p in prs :: p.number
  }

  function MergedItems(repo: string, prs: seq<OpenPr>): seq<Item> {
    if prs == [] then []
    else
      var p := Last(prs);
      MergedItems(repo, Front(prs)) + (
        if p.verdict.Merge?
        then [Item(PrKey(repo, p.number), p.verdict.title, None, p.verdict.security, p.verdict.badge)]
        else [])
  }

  function FlaggedItems(repo: string, prs: seq<OpenPr>): seq<Item> {
    if prs == [] then []
    else
      var p := Last(prs);
      FlaggedItems(repo, Front(prs)) + (
        if p.verdict.Flag?
        then [Item(PrKey(repo, p.number), p.verdict.title, Some(p.verdict.reason), p.verdict.security, p.verdict.badge)]
        else [])
  }

  function ErrorCount(prs: seq<OpenPr>): nat {
    if prs == [] then 0 else ErrorCount(Front(prs)) + (if Last(prs).verdict.Error? then 1 else 0)
  }

  predicate Aborts(t: Target) {
    t.reply.Listed? && t.reply.prs != [] && t.reply.ciFails
  }

  ghost predicate ScanOf(rows: seq<Row>, t: Target, scan: Scan) {
    match t.reply
    case ListFailed => scan == Scan([], [], [], 1)
    case Listed(prs, _) =>
      && scan.merged == MergedItems(t.repo, prs) && scan.flagged == FlaggedItems(t.repo, prs)
      && scan.errors == ErrorCount(prs)
      && ResolvedElsewhere(rows, t.repo, Numbers(prs), scan.resolved)
  }

  method ProcessRepo(log: PrLogTable, t: Target) returns (aborted: bool, scan: Scan)
    requires log.Valid()
    ensures aborted <==> Aborts(t)
    ensures !aborted ==> ScanOf(log.rows, t, scan)
  {
    scan := Scan([], [], [], 0);
    if t.reply.ListFailed? {
      return false, scan.(errors := 1);
    }
    var prs := t.reply.prs;
    var resolved := FindResolvedFlagged(log, t.repo, Numbers(prs));
    if prs == [] {
      return false, scan.(resolved := resolved);
    }
    if t.reply.ciFails {
      return true, scan;
    }
    var merged, flagged, errors := [], [], 0;
    for i := 0 to |prs|
      invariant merged == MergedItems(t.repo, prs[..i]) && flagged == FlaggedItems(t.repo, prs[..i])
      invariant errors == ErrorCount(prs[..i])
    {
      assert Front(prs[..i + 1]) == prs[..i];
      var key := PrKey(t.repo, prs[i].number);
      match prs[i].verdict
      case Error => errors := errors + 1;
      case Merge(title, security, badge) => merged := merged + [Item(key, title, None, security, badge)];
      case Flag(title, reason, security, badge) =>
        flagged := flagged + [Item(key, title, Some(reason), security, badge)];
      case Skip =>
    }
    assert prs[..|prs|] == prs;
    return false, Scan(merged, flagged, resolved, errors);
  }

  // -------------------------------------------------------- all target repositories

  function PrsOf(t: Target): seq<OpenPr> {
    if t.reply.Listed? then t.reply.prs else []
  }

  function AllMerged(targets: seq<Target>): seq<Item> {
    if targets == [] then [] else AllMerged(Front(targets)) + MergedItems(Last(targets).repo, PrsOf(Last(targets)))
  }

  function AllFlagged(targets: seq<Target>): seq<Item> {
    if targets == [] then [] else AllFlagged(Front(targets)) + FlaggedItems(Last(targets).repo, PrsOf(Last(targets)))
  }

  /** Lists that could not be fetched and pull requests that could not be judged. */
  function AllErrors(targets: seq<Target>): nat {
    if targets == [] then 0
    else AllErrors(Front(targets)) + (if Last(targets).reply.ListFailed? then 1 else ErrorCount(PrsOf(Last(targets))))
  }

  /** Listed by a target, no longer open there, and still unresolved in the log. */
  ghost predicate GoneFrom(rows: seq<Row>, t: Target, k: PrKey) {
    t.reply.Listed? && t.repo == k.repo && k.number !in Numbers(t.reply.prs) && Unresolved(rows, k)
  }

  ghost predicate GoneFromSome(rows: seq<Row>, targets: seq<Target>, k: PrKey) {
    exists t :: t in targets && GoneFrom(rows, t, k)
  }

  ghost predicate ResolvedOverall(rows: seq<Row>, targets: seq<Target>, resolved: seq<Item>) {
    forall k :: k in Keys(resolved) <==> GoneFromSome(rows, targets, k)
  }

  method ScanTargetRepos(log: PrLogTable, targets: seq<Target>) returns (aborted: bool, scan: Scan)
    requires log.Valid()
    ensures aborted <==> exists t :: t in targets && Aborts(t)
    ensures !aborted ==> scan.merged == AllMerged(targets) && scan.flagged == AllFlagged(targets)
    ensures !aborted ==> scan.errors == AllErrors(targets)
    ensures !aborted ==> ResolvedOverall(log.rows, targets, scan.resolved)
  {
    scan := Scan([], [], [], 0);
    for i := 0 to |targets|
      invariant forall t :: t in targets[..i] ==> !Aborts(t)
      invariant scan.merged == AllMerged(targets[..i]) && scan.flagged == AllFlagged(targets[..i])
      invariant scan.errors == AllErrors(targets[..i])
      invariant ResolvedOverall(log.rows, targets[..i], scan.resolved)
    {
      assert Front(targets[..i + 1]) == targets[..i] && targets[..i + 1] == targets[..i] + [targets[i]];
      var repoAborted, repoScan := ProcessRepo(log, targets[i]);
      if repoAborted {
        return true, scan;
      }
      ExtendResolved(log.rows, targets[..i], targets[i], scan.resolved, repoScan);
      scan := Scan(scan.merged + repoScan.merged, scan.flagged + repoScan.flagged,
                   scan.resolved + repoScan.resolved, scan.errors + repoScan.errors);
    }
    assert targets[..|targets|] == targets;
    aborted := false;
  }

  lemma ExtendResolved(rows: seq<Row>, targets: seq<Target>, t: Target, resolved: seq<Item>, scan: Scan)
    requires ResolvedOverall(rows, targets, resolved) && ScanOf(rows, t, scan)
    ensures ResolvedOverall(rows, targets + [t], resolved + scan.resolved)
  {
    KeysConcat(resolved, scan.resolved);
    forall k ensures k in Keys(resolved + scan.resolved) <==> GoneFromSome(rows, targets + [t], k) {
      assert k in Keys(scan.resolved) <==> GoneFrom(rows, t, k);
      if GoneFromSome(rows, targets, k) {
        var u :| u in targets && GoneFrom(rows, u, k);
        assert u in targets + [t];
      }
      if GoneFrom(rows, t, k) {
        assert t in targets + [t];
      }
    }
  }

  lemma KeysConcat(a: seq<Item>, b: seq<Item>)
    ensures Keys(a + b) == Keys(a) + Keys(b)
  {
  }

  // ------------------------------------------------------------ the verdicts by key

  ghost predicate Judged(t: Target, p: OpenPr, k: PrKey) {
    t.repo == k.repo && p in PrsOf(t) && p.number == k.number
  }

  ghost predicate FlaggedIn(t: Target, k: PrKey) {
    exists p :: Judged(t, p, k) && p.verdict.Flag?
  }

  ghost predicate MergedIn(t: Target, k: PrKey) {
    exists p :: Judged(t, p, k) && p.verdict.Merge?
  }

  /** Listed as open, but the judge failed or skipped it. */
  ghost predicate UnjudgedIn(t: Target, k: PrKey) {
    exists p :: Judged(t, p, k) && !p.verdict.Flag? && !p.verdict.Merge?
  }

  ghost predicate FlaggedNow(targets: seq<Target>, k: PrKey) {
    exists t :: t in targets && FlaggedIn(t, k)
  }

  ghost predicate MergedNow(targets: seq<Target>, k: PrKey) {
    exists t :: t in targets && MergedIn(t, k)
  }

  ghost predicate UnjudgedNow(targets: seq<Target>, k: PrKey) {
    exists t :: t in targets && UnjudgedIn(t, k)
  }

  ghost predicate Fetched(targets: seq<Target>, repo: string) {
    exists t :: t in targets && t.repo == repo && t.reply.Listed?
  }

  /** What GitHub guarantees: each repository once, each pull request number once in a listing. */
  ghost predicate WellListed(targets: seq<Target>) {
    && (forall i, j :: 0 <= i < j < |targets| ==> targets[i].repo != targets[j].repo)
    && (forall t :: t in targets ==> forall i, j :: 0 <= i < j < |PrsOf(t)| ==> PrsOf(t)[i].number != PrsOf(t)[j].number)
  }

  lemma {:induction false} ItemsKeys(repo: string, prs: seq<OpenPr>, k: PrKey)
    ensures k in Keys(MergedItems(repo, prs))
       <==> k.repo == repo && exists p :: p in prs && p.number == k.number && p.verdict.Merge?
    ensures k in Keys(FlaggedItems(repo, prs))
       <==> k.repo == repo && exists p :: p in prs && p.number == k.number && p.verdict.Flag?
  {
    if prs != [] {
      var front, p := Front(prs), Last(prs);
      ItemsKeys(repo, front, k);
      assert prs == front + [p];
      if p.verdict.Merge? {
        KeysAppend(MergedItems(repo, front), Last(MergedItems(repo, prs)));
        assert MergedItems(repo, prs) == MergedItems(repo, front) + [Last(MergedItems(repo, prs))];
      }
      if p.verdict.Flag? {
        KeysAppend(FlaggedItems(repo, front), Last(FlaggedItems(repo, prs)));
        assert FlaggedItems(repo, prs) == FlaggedItems(repo, front) + [Last(FlaggedItems(repo, prs))];
      }
    }
  }

  lemma TargetKeys(t: Target, k: PrKey)
    ensures k in Keys(MergedItems(t.repo, PrsOf(t))) <==> MergedIn(t, k)
    ensures k in Keys(FlaggedItems(t.repo, PrsOf(t))) <==> FlaggedIn(t, k)
  {
    ItemsKeys(t.repo, PrsOf(t), k);
    if MergedIn(t, k) {
      var p :| Judged(t, p, k) && p.verdict.Merge?;
      assert p in PrsOf(t);
    }
    if FlaggedIn(t, k) {
      var p :| Judged(t, p, k) && p.verdict.Flag?;
      assert p in PrsOf(t);
    }
    if p :| k.repo == t.repo && p in PrsOf(t) && p.number == k.number {
      assert Judged(t, p, k);
    }
  }

  lemma {:induction false} AllMergedKeys(targets: seq<Target>, k: PrKey)
    ensures k in Keys(AllMerged(targets)) <==> MergedNow(targets, k)
  {
    if targets != [] {
      var front, t := Front(targets), Last(targets);
      AllMergedKeys(front, k);
      TargetKeys(t, k);
      assert targets == front + [t];
      KeysConcat(AllMerged(front), MergedItems(t.repo, PrsOf(t)));
    }
  }

  lemma {:induction false} AllFlaggedKeys(targets: seq<Target>, k: PrKey)
    ensures k in Keys(AllFlagged(targets)) <==> FlaggedNow(targets, k)
  {
    if targets != [] {
      var front, t := Front(targets), Last(targets);
      AllFlaggedKeys(front, k);
      TargetKeys(t, k);
      assert targets == front + [t];
      KeysConcat(AllFlagged(front), FlaggedItems(t.repo, PrsOf(t)));
    }
  }

  /** Under GitHub's guarantees a pull request has one verdict in a run. */
  lemma OneVerdict(targets: seq<Target>, t: Target, u: Target, p: OpenPr, q: OpenPr, k: PrKey)
    requires WellListed(targets) && t in targets && u in targets && Judged(t, p, k) && Judged(u, q, k)
    ensures t == u && p == q
  {
    var i :| 0 <= i < |targets| && targets[i] == t;
    var j :| 0 <= j < |targets| && targets[j] == u;
    assert i == j;
    var m :| 0 <= m < |PrsOf(t)| && PrsOf(t)[m] == p;
    var n :| 0 <= n < |PrsOf(t)| && PrsOf(t)[n] == q;
    assert m == n;
  }

  lemma VerdictsExclude(targets: seq<Target>, k: PrKey)
    requires WellListed(targets)
    ensures !(FlaggedNow(targets, k) && MergedNow(targets, k))
    ensures !(UnjudgedNow(targets, k) && (FlaggedNow(targets, k) || MergedNow(targets, k)))
  {
    forall t, u, p, q | t in targets && u in targets && Judged(t, p, k) && Judged(u, q, k) ensures p == q {
      OneVerdict(targets, t, u, p, q, k);
    }
  }

  /** In a repository whose list was fetched, what is found resolved is what was unresolved and has
    no verdict; in any other nothing is judged or found. */
  lemma GoneMeansUnlisted(rows: seq<Row>, targets: seq<Target>, k: PrKey)
    requires WellListed(targets)
    ensures GoneFromSome(rows, targets, k) <==>
      Fetched(targets, k.repo) && Unresolved(rows, k)
      && !FlaggedNow(targets, k) && !MergedNow(targets, k) && !UnjudgedNow(targets, k)
    ensures !Fetched(targets, k.repo) ==> !FlaggedNow(targets, k) && !MergedNow(targets, k)
  {
    forall t, u | t in targets && u in targets && t.repo == u.repo ensures t == u {
      var i :| 0 <= i < |targets| && targets[i] == t;
      var j :| 0 <= j < |targets| && targets[j] == u;
      assert i == j;
    }
    forall t | t in targets && t.repo == k.repo
      ensures (exists p :: Judged(t, p, k)) <==> FlaggedIn(t, k) || MergedIn(t, k) || UnjudgedIn(t, k)
    {
    }
    if Fetched(targets, k.repo) {
      var t :| t in targets && t.repo == k.repo && t.reply.Listed?;
      assert k.number in Numbers(t.reply.prs) <==> exists p :: Judged(t, p, k) by {
        if k.number in Numbers(t.reply.prs) {
          var p :| p in t.reply.prs && p.number == k.number;
          assert Judged(t, p, k);
        }
      }
    }
  }

  // ------------------------------------------------------------------- the whole run

  lemma {:induction false} RefreshedLatest(rows: seq<Row>, flagged: seq<Item>, at: int, item: Item)
    requires UniqueIds(rows) && JudgedBy(rows, at) && item in flagged && !Novel(rows, item)
    ensures var latest := Latest(Touched(rows, flagged, at), item.key);
            latest.Some? && latest.value.at == at
  {
    var front, last := Front(flagged), Last(flagged);
    var before := Touched(rows, front, at);
    assert flagged == front + [last];
    TouchedIsTouchedFrom(rows, front, at);
    TouchedIsTouchedFrom(rows, flagged, at);
    TouchedLatest(rows, before, at, item.key);
    TouchedLatest(rows, Touched(rows, flagged, at), at, item.key);
    if item in front {
      RefreshedLatest(rows, front, at, item);
    }
    if !Novel(rows, last) {
      TouchAt(before, Latest(rows, last.key).value.id, last, at);
      TouchedTime(rows, before, Touched(rows, flagged, at), Latest(rows, last.key).value.id, at, item.key);
    }
  }

  /** Touching a row can only move the latest row's time to `at`. */
  lemma TouchedTime(rows: seq<Row>, before: seq<Row>, after: seq<Row>, id: nat, at: int, k: PrKey)
    requires UniqueIds(rows) && JudgedBy(rows, at) && TouchedFrom(rows, before, at) && TouchedFrom(rows, after, at)
    requires forall i :: 0 <= i < |rows| ==>
      if before[i].id == id then after[i].at == at else after[i] == before[i]
    requires Latest(rows, k).Some?
    ensures Latest(before, k).Some? && Latest(after, k).Some?
    ensures Latest(before, k).value.at == at || Latest(rows, k).value.id == id ==> Latest(after, k).value.at == at
  {
    TouchedLatest(rows, before, at, k);
    TouchedLatest(rows, after, at, k);
    var l := Latest(rows, k).value;
    var i :| 0 <= i < |rows| && rows[i] == l;
    TouchedIndex(rows, before, at, i, Latest(before, k).value);
    TouchedIndex(rows, after, at, i, Latest(after, k).value);
  }

  /** Touching keeps ids in place. */
  lemma TouchedIndex(rows: seq<Row>, touched: seq<Row>, at: int, i: nat, r: Row)
    requires UniqueIds(rows) && TouchedFrom(rows, touched, at)
    requires i < |rows| && r in touched && r.id == rows[i].id
    ensures touched[i] == r
  {
    var m :| 0 <= m < |touched| && touched[m] == r;
    assert rows[m].id == rows[i].id;
  }

  /** Unresolved after a run was recorded: in a repository whose list was fetched, exactly the pull
    requests flagged now, and those unresolved before whose judging failed or was skipped; in any
    other repository, exactly what was unresolved before. */
  lemma RunSettlesUnresolved(rows: seq<Row>, nextId: nat, targets: seq<Target>, at: int, resolved: seq<Item>, k: PrKey)
    requires IdsBelow(rows, nextId) && JudgedBy(rows, at) && WellListed(targets)
    requires ResolvedOverall(rows, targets, resolved)
    ensures Unresolved(Recorded(rows, nextId, AllMerged(targets), AllFlagged(targets), at, resolved), k)
      <==> if Fetched(targets, k.repo)
           then FlaggedNow(targets, k) || (UnjudgedNow(targets, k) && Unresolved(rows, k))
           else Unresolved(rows, k)
  {
    ListsDisjoint(rows, targets, resolved);
    RecordedUnresolvedByList(rows, nextId, AllMerged(targets), AllFlagged(targets), at, resolved, k);
    AllMergedKeys(targets, k);
    AllFlaggedKeys(targets, k);
    GoneMeansUnlisted(rows, targets, k);
    VerdictsExclude(targets, k);
  }

  /** Listed as open by a target of the run. */
  ghost predicate ListedNow(targets: seq<Target>, k: PrKey) {
    exists t :: t in targets && t.repo == k.repo && k.number in Numbers(PrsOf(t))
  }

  /** So in a repository whose list was fetched every unresolved pull request is one just listed. */
  lemma UnresolvedAreListed(rows: seq<Row>, nextId: nat, targets: seq<Target>, at: int, resolved: seq<Item>, k: PrKey)
    requires IdsBelow(rows, nextId) && JudgedBy(rows, at) && WellListed(targets)
    requires ResolvedOverall(rows, targets, resolved) && Fetched(targets, k.repo)
    requires Unresolved(Recorded(rows, nextId, AllMerged(targets), AllFlagged(targets), at, resolved), k)
    ensures ListedNow(targets, k)
  {
    RunSettlesUnresolved(rows, nextId, targets, at, resolved, k);
    assert exists t, p :: t in targets && Judged(t, p, k);
    var t, p :| t in targets && Judged(t, p, k);
    assert p in PrsOf(t);
  }

  lemma ListsDisjoint(rows: seq<Row>, targets: seq<Target>, resolved: seq<Item>)
    requires WellListed(targets) && ResolvedOverall(rows, targets, resolved)
    ensures Keys(AllFlagged(targets)) !! Keys(AllMerged(targets))
    ensures Keys(AllFlagged(targets)) !! Keys(resolved)
  {
    forall k | k in Keys(AllFlagged(targets)) ensures k !in Keys(AllMerged(targets)) && k !in Keys(resolved) {
      AllMergedKeys(targets, k);
      AllFlaggedKeys(targets, k);
      VerdictsExclude(targets, k);
      GoneMeansUnlisted(rows, targets, k);
    }
  }

  lemma UntouchedLatest(rows: seq<Row>, flagged: seq<Item>, at: int, k: PrKey)
    requires UniqueIds(rows) && JudgedBy(rows, at) && k !in Keys(flagged)
    ensures Latest(Touched(rows, flagged, at), k) == Latest(rows, k)
  {
    var t := Touched(rows, flagged, at);
    UntouchedRows(rows, flagged, at);
    TouchedIsTouchedFrom(rows, flagged, at);
    TouchedLatest(rows, t, at, k);
    LatestIsLatest(rows, k);
    if Latest(rows, k).Some? {
      var n :| 0 <= n < |t| && t[n] == Latest(t, k).value;
      SameIdSameRow(rows, rows[n], Latest(rows, k).value);
    }
  }

  /** When the latest row of an unresolved pull request was judged: in this run if it is flagged
    now, and otherwise when it was before. */
  lemma RunTime(rows: seq<Row>, nextId: nat, targets: seq<Target>, at: int, resolved: seq<Item>, k: PrKey)
    requires IdsBelow(rows, nextId) && JudgedBy(rows, at) && WellListed(targets)
    requires ResolvedOverall(rows, targets, resolved)
    requires Unresolved(Recorded(rows, nextId, AllMerged(targets), AllFlagged(targets), at, resolved), k)
    ensures var after := Recorded(rows, nextId, AllMerged(targets), AllFlagged(targets), at, resolved);
      if FlaggedNow(targets, k) then Latest(after, k).value.at == at
      else Latest(rows, k).Some? && Latest(after, k).value.at == Latest(rows, k).value.at
  {
    var merged, flagged := AllMerged(targets), AllFlagged(targets);
    AllFlaggedKeys(targets, k);
    ListsDisjoint(rows, targets, resolved);
    RecordedLatest(rows, nextId, merged, flagged, at, resolved, k);
    PendingLatest(rows, nextId, merged, flagged, at, k);
    PendingIds(rows, nextId, merged, flagged, at);
    NovelItemsContents(rows, flagged);
    if FlaggedNow(targets, k) {
      if k !in Keys(NovelItems(rows, flagged)) {
        var item :| item in flagged && item.key == k;
        RefreshedLatest(rows, flagged, at, item);
      }
    } else {
      UntouchedLatest(rows, flagged, at, k);
    }
  }

  /** Whether a pull request is unresolved after a run that started at `at` and whose cleanup used
    `cutoff`, told by the log before it and the verdicts of the run. */
  ghost predicate UnresolvedAfterRun(rows: seq<Row>, targets: seq<Target>, at: int, cutoff: int, k: PrKey) {
    if FlaggedNow(targets, k) then at >= cutoff
    else
      && (Fetched(targets, k.repo) ==> UnjudgedNow(targets, k))
      && Unresolved(rows, k) && Latest(rows, k).value.at >= cutoff
  }

  lemma RunThenCleanup(rows: seq<Row>, nextId: nat, targets: seq<Target>, at: int, resolved: seq<Item>,
                       cutoff: int, k: PrKey)
    requires IdsBelow(rows, nextId) && JudgedBy(rows, at) && WellListed(targets)
    requires ResolvedOverall(rows, targets, resolved)
    ensures var after := Recorded(rows, nextId, AllMerged(targets), AllFlagged(targets), at, resolved);
      Unresolved(Cleaned(after, cutoff), k) <==> UnresolvedAfterRun(rows, targets, at, cutoff, k)
  {
    var after := Recorded(rows, nextId, AllMerged(targets), AllFlagged(targets), at, resolved);
    RecordedIds(rows, nextId, AllMerged(targets), AllFlagged(targets), at, resolved);
    CleanupKeepsUnresolved(after, cutoff, k);
    RunSettlesUnresolved(rows, nextId, targets, at, resolved, k);
    GoneMeansUnlisted(rows, targets, k);
    if Unresolved(after, k) {
      RunTime(rows, nextId, targets, at, resolved, k);
    }
  }

  ghost predicate RunView(before: seq<Row>, after: seq<Row>, targets: seq<Target>, at: int, cutoff: int) {
    forall k :: Unresolved(after, k) <==> UnresolvedAfterRun(before, targets, at, cutoff, k)
  }

  lemma RunThenCleanupForAll(rows: seq<Row>, nextId: nat, targets: seq<Target>, at: int, resolved: seq<Item>,
                             cutoff: int)
    requires IdsBelow(rows, nextId) && JudgedBy(rows, at) && WellListed(targets)
    requires ResolvedOverall(rows, targets, resolved)
    ensures var after := Recorded(rows, nextId, AllMerged(targets), AllFlagged(targets), at, resolved);
      RunView(rows, Cleaned(after, cutoff), targets, at, cutoff)
  {
    var after := Recorded(rows, nextId, AllMerged(targets), AllFlagged(targets), at, resolved);
    forall k ensures Unresolved(Cleaned(after, cutoff), k) <==> UnresolvedAfterRun(rows, targets, at, cutoff, k) {
      RunThenCleanup(rows, nextId, targets, at, resolved, cutoff, k);
    }
  }

  /** Deleting old rows brings no two rows together that were apart. */
  lemma CleanupLeavesNoRepetition(rows: seq<Row>, cutoff: int)
    requires UniqueIds(rows)
    ensures NoRepetition(Cleaned(rows, cutoff))
  {
    var purged := Purged(rows);
    var collapsed := Collapsed(purged);
    WithoutContents(rows, ClosedIds(rows));
    CollapseContents(purged);
    WithoutContents(collapsed, ExpiredIds(collapsed, cutoff));
    var left := Unexpired(collapsed, cutoff);
    forall r, s | r in left && s in left ensures !Repeats(left, r, s) {
      CollapseLeavesNoRepetition(purged, r);
      assert !Repeats(collapsed, r, s);
      assert r.at >= cutoff;
      forall x | x in collapsed && Later(x, r) ensures x in left {
        ExpiryAndPurgeExactly(collapsed, cutoff, x);
      }
    }
  }

  /** What a recorded and cleaned run leaves. */
  ghost predicate RunEnds(before: seq<Row>, after: seq<Row>, targets: seq<Target>, at: int, cutoff: int) {
    && NoRepetition(after)
    && (JudgedBy(before, at) && WellListed(targets) ==> RunView(before, after, targets, at, cutoff))
  }

  lemma RunConclusion(rows: seq<Row>, nextId: nat, targets: seq<Target>, at: int, resolved: seq<Item>, cutoff: int)
    requires IdsBelow(rows, nextId) && ResolvedOverall(rows, targets, resolved)
    ensures var after := Recorded(rows, nextId, AllMerged(targets), AllFlagged(targets), at, resolved);
      RunEnds(rows, Cleaned(after, cutoff), targets, at, cutoff)
  {
    RecordedIds(rows, nextId, AllMerged(targets), AllFlagged(targets), at, resolved);
    CleanupLeavesNoRepetition(Recorded(rows, nextId, AllMerged(targets), AllFlagged(targets), at, resolved), cutoff);
    if JudgedBy(rows, at) && WellListed(targets) {
      RunThenCleanupForAll(rows, nextId, targets, at, resolved, cutoff);
    }
  }

  /** Records the scan at time `at` and cleans the log. */
  method RecordRun(log: PrLogTable, targets: seq<Target>, scan: Scan, at: int, now: int, retention: int)
    requires log.Valid()
    requires scan.merged == AllMerged(targets) && scan.flagged == AllFlagged(targets)
    requires ResolvedOverall(log.rows, targets, scan.resolved)
    modifies log
    ensures log.Valid() && RunEnds(old(log.rows), log.rows, targets, at, now - retention)
  {
    RunConclusion(log.rows, log.nextId, targets, at, scan.resolved, now - retention);
    Record(log, scan.merged, scan.flagged, at, scan.resolved);
    log.Cleanup(now, retention);
  }

  /** The job. `startedAt` is read before the scan and `now` at the cleanup. When asking for the CI
    of a repository fails, the run aborts and the log stays as it was. */
  method Execute(log: PrLogTable, targets: seq<Target>, startedAt: int, now: int, retention: int)
    returns (aborted: bool, scan: Scan)
    requires log.Valid()
    modifies log
    ensures log.Valid()
    ensures aborted <==> exists t :: t in targets && t.reply.Listed? && t.reply.prs != [] && t.reply.ciFails
    ensures aborted ==> log.rows == old(log.rows)
    ensures !aborted ==> scan.merged == AllMerged(targets) && scan.flagged == AllFlagged(targets)
    ensures !aborted ==> ResolvedOverall(old(log.rows), targets, scan.resolved)
    ensures !aborted ==> RunEnds(old(log.rows), log.rows, targets, startedAt, now - retention)
  {
    aborted, scan := ScanTargetRepos(log, targets);
    if !aborted {
      RecordRun(log, targets, scan, startedAt, now, retention);
    }
  }

  // ------------------------------------------------------------ the lists, in fields

  /** What the judge said about a pull request is what the item says. */
  predicate TellsMerge(i: Item, repo: string, p: OpenPr) {
    && p.verdict.Merge? && i.key == PrKey(repo, p.number) && i.title == p.verdict.title && i.reason == None
    && i.security == p.verdict.security && i.badge == p.verdict.badge
  }

  predicate TellsFlag(i: Item, repo: string, p: OpenPr) {
    && p.verdict.Flag? && i.key == PrKey(repo, p.number) && i.title == p.verdict.title
    && i.reason == Some(p.verdict.reason) && i.security == p.verdict.security && i.badge == p.verdict.badge
  }

  /** Some pull request was judged to be merged as the item tells. */
  ghost predicate MergeTold(repo: string, prs: seq<OpenPr>, i: Item) {
    exists p :: p in prs && TellsMerge(i, repo, p)
  }

  ghost predicate FlagTold(repo: string, prs: seq<OpenPr>, i: Item) {
    exists p :: p in prs && TellsFlag(i, repo, p)
  }

  lemma ItemsStep(repo: string, prs: seq<OpenPr>, i: Item)
    requires prs != []
    ensures i in MergedItems(repo, prs) <==> i in MergedItems(repo, Front(prs)) || TellsMerge(i, repo, Last(prs))
    ensures i in FlaggedItems(repo, prs) <==> i in FlaggedItems(repo, Front(prs)) || TellsFlag(i, repo, Last(prs))
  {
    var p := Last(prs);
    match p.verdict
    case Merge(title, security, badge) =>
      var item := Item(PrKey(repo, p.number), title, None, security, badge);
      assert MergedItems(repo, prs) == MergedItems(repo, Front(prs)) + [item];
    case Flag(title, reason, security, badge) =>
      var item := Item(PrKey(repo, p.number), title, Some(reason), security, badge);
      assert FlaggedItems(repo, prs) == FlaggedItems(repo, Front(prs)) + [item];
    case _ =>
  }

  lemma ToldStep(repo: string, prs: seq<OpenPr>, i: Item)
    requires prs != []
    ensures MergeTold(repo, prs, i) <==> MergeTold(repo, Front(prs), i) || TellsMerge(i, repo, Last(prs))
    ensures FlagTold(repo, prs, i) <==> FlagTold(repo, Front(prs), i) || TellsFlag(i, repo, Last(prs))
  {
    assert prs == Front(prs) + [Last(prs)];
  }

  lemma {:induction false} ItemsTell(repo: string, prs: seq<OpenPr>, i: Item)
    ensures i in MergedItems(repo, prs) <==> MergeTold(repo, prs, i)
    ensures i in FlaggedItems(repo, prs) <==> FlagTold(repo, prs, i)
  {
    if prs != [] {
      ItemsTell(repo, Front(prs), i);
      ItemsStep(repo, prs, i);
      ToldStep(repo, prs, i);
    }
  }

  /** The merged list of a run tells exactly the merges in its targets, the flagged list exactly the
    flags. */
  lemma {:induction false} ListsTell(targets: seq<Target>, i: Item)
    ensures i in AllMerged(targets) <==> exists t :: t in targets && MergeTold(t.repo, PrsOf(t), i)
    ensures i in AllFlagged(targets) <==> exists t :: t in targets && FlagTold(t.repo, PrsOf(t), i)
  {
    if targets != [] {
      var front, t := Front(targets), Last(targets);
      ListsTell(front, i);
      ItemsTell(t.repo, PrsOf(t), i);
      assert targets == front + [t];
      if MergeTold(t.repo, PrsOf(t), i) || FlagTold(t.repo, PrsOf(t), i) {
        assert t in targets;
      }
    }
  }

  function AllPrs(targets: seq<Target>): seq<OpenPr> {
    if targets == [] then [] else AllPrs(Front(targets)) + PrsOf(Last(targets))
  }

  lemma {:induction false} FilterConcat<T>(p: T -> bool, a: seq<T>, b: seq<T>)
    ensures Filter(p, a + b) == Filter(p, a) + Filter(p, b)
  {
    if b == [] {
      assert a + b == a;
    } else {
      assert Front(a + b) == a + Front(b);
      FilterConcat(p, a, Front(b));
    }
  }

  lemma {:induction false} ErrorCountIs(prs: seq<OpenPr>)
    ensures ErrorCount(prs) == |Filter((p: OpenPr) => p.verdict.Error?, prs)|
  {
    if prs != [] {
      ErrorCountIs(Front(prs));
    }
  }

  /** The errors of a run are the lists that could not be fetched and the pull requests whose judging
    failed. */
  lemma {:induction false} ErrorsExactly(targets: seq<Target>)
    ensures AllErrors(targets)
         == |Filter((t: Target) => t.reply.ListFailed?, targets)| + |Filter((p: OpenPr) => p.verdict.Error?, AllPrs(targets))|
  {
    if targets != [] {
      var front, last := Front(targets), Last(targets);
      ErrorsExactly(front);
      FilterConcat((p: OpenPr) => p.verdict.Error?, AllPrs(front), PrsOf(last));
      ErrorCountIs(PrsOf(last));
    }
  }
}
