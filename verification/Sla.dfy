/** How findings stand against their deadlines (app/sla/report.py, app/sla/policy.py). Times are
  microseconds. */
module Sla {
  import opened Prelude
  import opened Ordering

  const DAY := 86_400_000_000

  datatype Policy = Policy(criticalDays: int, highDays: int, mediumDays: int, kevDays: int) {

    /** `severity` is in upper case; None stands for a missing one. */
    function DaysForSeverity(severity: Option<string>): Option<int> {
      if severity == Some("CRITICAL") then Some(criticalDays)
      else if severity == Some("HIGH") then Some(highDays)
      else if severity == Some("MEDIUM") then Some(mediumDays)
      else None
    }

    function DeadlineDays(severity: Option<string>, isKev: bool): Option<int> {
      var bySeverity := DaysForSeverity(severity);
      if !isKev then bySeverity
      else if bySeverity.None? then Some(kevDays)
      else Some(Min(bySeverity.value, kevDays))
    }
  }

  /** A finding in the database, with what the report looks up about it. */
  datatype Finding = Finding(
    repo: string, package: string, severity: Option<string>, detectedAt: int, resolvedAt: Option<int>,
    isKev: bool, excepted: bool)

  datatype Item = Item(
    repo: string, package: string, severity: string, detectedAt: int, resolvedAt: Option<int>, deadlineDays: Option<int>)

  const UNKNOWN_SEVERITY := "N/A"

  predicate IsOpen(i: Item) {
    i.resolvedAt.None?
  }

  predicate IsResolved(i: Item) {
    i.resolvedAt.Some?
  }

  function DueAt(i: Item): Option<int> {
    if i.deadlineDays.None? then None else Some(i.detectedAt + i.deadlineDays.value * DAY)
  }

  predicate IsOverdue(i: Item, now: int) {
    i.resolvedAt.None? && DueAt(i).Some? && now > DueAt(i).value
  }

  function OverdueDays(i: Item, now: int): int {
    if i.resolvedAt.Some? || DueAt(i).None? || now <= DueAt(i).value then 0
    else Max((now - DueAt(i).value) / DAY, 0)
  }

  // ------------------------------------------------------------------------- items

  function ItemOf(f: Finding, policy: Policy): Item {
    Item(f.repo, f.package, if f.severity.Some? && f.severity.value != "" then f.severity.value else UNKNOWN_SEVERITY, f.detectedAt, f.resolvedAt,
         policy.DeadlineDays(f.severity, f.isKev))
  }

  predicate Reported(f: Finding) {
    f.resolvedAt.Some? || !f.excepted
  }

  function ItemsOf(findings: seq<Finding>, policy: Policy): seq<Item> {
    if findings == [] then []
    else ItemsOf(Front(findings), policy) + (if Reported(Last(findings)) then [ItemOf(Last(findings), policy)] else [])
  }

  method ToItems(findings: seq<Finding>, policy: Policy) returns (items: seq<Item>)
    ensures items == ItemsOf(findings, policy)
  {
    items := [];
    for n := 0 to |findings|
      invariant items == ItemsOf(findings[..n], policy)
    {
      assert Front(findings[..n + 1]) == findings[..n];
      if findings[n].resolvedAt.None? && findings[n].excepted {
        continue;
      }
      items := items + [ItemOf(findings[n], policy)];
    }
    assert findings[..|findings|] == findings;
  }

  // ------------------------------------------------------------------------ counting

  function Count(p: Item -> bool, items: seq<Item>): nat {
    |Filter(p, items)|
  }

  datatype Stat = Stat(name: string, open: nat, overdue: nat, resolved: nat)

  function StatOf(name: string, group: seq<Item>, now: int): Stat {
    Stat(name, Count(IsOpen, group), Count(i => IsOverdue(i, now), group), Count(IsResolved, group))
  }

  /** The items with this name, by severity or by repository. */
  function Group(key: Item -> string, items: seq<Item>, name: string): seq<Item> {
    Filter(i => key(i) == name, items)
  }

  function StatsOf(key: Item -> string, items: seq<Item>, names: seq<string>, now: int): seq<Stat> {
    if names == [] then []
    else StatsOf(key, items, Front(names), now) + [StatOf(Last(names), Group(key, items, Last(names)), now)]
  }

  function Names(key: Item -> string, items: seq<Item>): seq<string> {
    if items == [] then [] else Names(key, Front(items)) + [key(Last(items))]
  }

  function Sum(f: Stat -> nat, stats: seq<Stat>): nat {
    if stats == [] then 0 else Sum(f, Front(stats)) + f(Last(stats))
  }

  function SeverityOf(i: Item): string {
    i.severity
  }

  function RepoOf(i: Item): string {
    i.repo
  }

  function SeverityRank(severity: string): nat {
    if severity == "CRITICAL" then 0
    else if severity == "HIGH" then 1
    else if severity == "MEDIUM" then 2
    else if severity == "LOW" then 3
    else 4
  }

  predicate MoreSevere(a: string, b: string) {
    SeverityRank(a) < SeverityRank(b)
  }

  predicate MoreUrgent(a: Stat, b: Stat) {
    a.overdue > b.overdue
    || (a.overdue == b.overdue && (a.open > b.open || (a.open == b.open && StringLess(a.name, b.name))))
  }

  function SeverityNames(items: seq<Item>): seq<string> {
    Sort(MoreSevere, FirstOccurrences(Names(SeverityOf, items)))
  }

  method SeverityStats(items: seq<Item>, now: int) returns (stats: seq<Stat>)
    ensures stats == StatsOf(SeverityOf, items, SeverityNames(items), now)
  {
    var severities := SeverityNames(items);
    stats := [];
    for n := 0 to |severities|
      invariant stats == StatsOf(SeverityOf, items, severities[..n], now)
    {
      assert Front(severities[..n + 1]) == severities[..n];
      stats := stats + [StatOf(severities[n], Group(SeverityOf, items, severities[n]), now)];
    }
    assert severities[..|severities|] == severities;
  }

  ghost predicate GroupedByRepo(groups: map<string, seq<Item>>, items: seq<Item>) {
    && (forall name :: name in groups <==> name in Names(RepoOf, items))
    && (forall name :: name in groups ==> groups[name] == Group(RepoOf, items, name))
  }

  method GroupByRepo(items: seq<Item>) returns (order: seq<string>, groups: map<string, seq<Item>>)
    ensures order == FirstOccurrences(Names(RepoOf, items)) && GroupedByRepo(groups, items)
  {
    order, groups := [], map[];
    for n := 0 to |items|
      invariant order == FirstOccurrences(Names(RepoOf, items[..n]))
      invariant GroupedByRepo(groups, items[..n])
    {
      var item := items[n];
      GroupStep(groups, items[..n], item);
      assert items[..n + 1] == items[..n] + [item] && Front(items[..n + 1]) == items[..n];
      assert Front(Names(RepoOf, items[..n + 1])) == Names(RepoOf, items[..n]);
      if item.repo !in groups {
        order := order + [item.repo];
      }
      groups := groups[item.repo := (if item.repo in groups then groups[item.repo] else []) + [item]];
    }
    assert items[..|items|] == items;
  }

  lemma GroupStep(groups: map<string, seq<Item>>, items: seq<Item>, item: Item)
    requires GroupedByRepo(groups, items)
    ensures GroupedByRepo(
      groups[item.repo := (if item.repo in groups then groups[item.repo] else []) + [item]], items + [item])
  {
    assert Front(items + [item]) == items;
    if item.repo !in groups {
      NoneInGroup(RepoOf, items, item.repo);
    }
    forall name ensures Group(RepoOf, items + [item], name)
                     == Group(RepoOf, items, name) + if item.repo == name then [item] else [] {
      GroupAppend(RepoOf, items, item, name);
    }
  }

  lemma {:induction false} NoneInGroup(key: Item -> string, items: seq<Item>, name: string)
    requires name !in Names(key, items)
    ensures Group(key, items, name) == []
  {
    if items != [] {
      NoneInGroup(key, Front(items), name);
    }
  }

  method RepoStats(items: seq<Item>, now: int) returns (stats: seq<Stat>)
    ensures stats == Sort(MoreUrgent, StatsOf(RepoOf, items, FirstOccurrences(Names(RepoOf, items)), now))
  {
    var order, groups := GroupByRepo(items);
    FirstOccurrencesContents(Names(RepoOf, items));
    stats := [];
    for n := 0 to |order|
      invariant stats == StatsOf(RepoOf, items, order[..n], now)
    {
      assert Front(order[..n + 1]) == order[..n];
      assert order[n] in order;
      stats := stats + [StatOf(order[n], groups[order[n]], now)];
    }
    assert order[..|order|] == order;
    stats := Sort(MoreUrgent, stats);
  }

  // --------------------------------------------------------- the groups add up

  /** The part of a count that falls to each of the names. */
  function Shares(p: Item -> bool, key: Item -> string, items: seq<Item>, names: seq<string>): nat {
    if names == [] then 0
    else Shares(p, key, items, Front(names)) + Count(p, Group(key, items, Last(names)))
  }

  lemma CountAppend(p: Item -> bool, items: seq<Item>, i: Item)
    ensures Count(p, items + [i]) == Count(p, items) + if p(i) then 1 else 0
  {
    assert Front(items + [i]) == items;
  }

  lemma GroupAppend(key: Item -> string, items: seq<Item>, i: Item, name: string)
    ensures Group(key, items + [i], name) == Group(key, items, name) + if key(i) == name then [i] else []
  {
    assert Front(items + [i]) == items;
  }

  lemma {:induction false} SharesStep(p: Item -> bool, key: Item -> string, items: seq<Item>, i: Item, names: seq<string>)
    requires Distinct(names)
    ensures Shares(p, key, items + [i], names)
         == Shares(p, key, items, names) + if p(i) && key(i) in names then 1 else 0
  {
    if names != [] {
      var name := Last(names);
      SharesStep(p, key, items, i, Front(names));
      GroupAppend(key, items, i, name);
      CountAppend(p, Group(key, items, name), i);
      assert names == Front(names) + [name];
      assert name !in Front(names);
      assert Group(key, items, name) + [] == Group(key, items, name);
    }
  }

  lemma {:induction false} SharesOfNothing(p: Item -> bool, key: Item -> string, names: seq<string>)
    ensures Shares(p, key, [], names) == 0
  {
    if names != [] {
      SharesOfNothing(p, key, Front(names));
    }
  }

  lemma {:induction false} SharesAddUp(p: Item -> bool, key: Item -> string, items: seq<Item>, names: seq<string>)
    requires Distinct(names) && forall n :: n in Names(key, items) ==> n in names
    ensures Shares(p, key, items, names) == Count(p, items)
  {
    if items == [] {
      SharesOfNothing(p, key, names);
    } else {
      SharesAddUp(p, key, Front(items), names);
      SharesStep(p, key, Front(items), Last(items), names);
      CountAppend(p, Front(items), Last(items));
      assert items == Front(items) + [Last(items)];
      assert key(Last(items)) in Names(key, items);
    }
  }

  ghost predicate Totals(stats: seq<Stat>, items: seq<Item>, now: int) {
    && Sum((s: Stat) => s.open, stats) == Count(IsOpen, items)
    && Sum((s: Stat) => s.overdue, stats) == Count(i => IsOverdue(i, now), items)
    && Sum((s: Stat) => s.resolved, stats) == Count(IsResolved, items)
  }

  lemma {:induction false} SumsAreShares(key: Item -> string, items: seq<Item>, names: seq<string>, now: int)
    ensures var stats := StatsOf(key, items, names, now);
      && Sum((s: Stat) => s.open, stats) == Shares(IsOpen, key, items, names)
      && Sum((s: Stat) => s.overdue, stats) == Shares(i => IsOverdue(i, now), key, items, names)
      && Sum((s: Stat) => s.resolved, stats) == Shares(IsResolved, key, items, names)
  {
    if names != [] {
      SumsAreShares(key, items, Front(names), now);
      var stats := StatsOf(key, items, names, now);
      assert Front(stats) == StatsOf(key, items, Front(names), now);
    }
  }

  lemma {:induction false} SumInsert(f: Stat -> nat, less: (Stat, Stat) -> bool, s: Stat, stats: seq<Stat>)
    ensures Sum(f, Insert(less, s, stats)) == Sum(f, stats) + f(s)
  {
    if stats == [] {
      assert Front([s]) == [];
    } else if !less(stats[0], s) {
      SumFirst(f, [s] + stats);
      assert ([s] + stats)[1..] == stats;
    } else {
      SumInsert(f, less, s, stats[1..]);
      SumFirst(f, stats);
      var r := [stats[0]] + Insert(less, s, stats[1..]);
      SumFirst(f, r);
      assert r[1..] == Insert(less, s, stats[1..]);
    }
  }

  lemma {:induction false} SumFirst(f: Stat -> nat, stats: seq<Stat>)
    requires stats != []
    ensures Sum(f, stats) == f(stats[0]) + Sum(f, stats[1..])
  {
    if |stats| > 1 {
      SumFirst(f, Front(stats));
      assert Front(stats)[1..] == Front(stats[1..]);
    } else {
      assert Front(stats) == [];
    }
  }

  lemma {:induction false} SumSort(f: Stat -> nat, less: (Stat, Stat) -> bool, stats: seq<Stat>)
    ensures Sum(f, Sort(less, stats)) == Sum(f, stats)
  {
    if stats != [] {
      SumSort(f, less, stats[1..]);
      SumInsert(f, less, stats[0], Sort(less, stats[1..]));
      SumFirst(f, stats);
    }
  }

  /** The severities, and the repositories, each add up to the same totals. */
  lemma GroupsAddUp(items: seq<Item>, now: int)
    ensures Totals(StatsOf(SeverityOf, items, SeverityNames(items), now), items, now)
    ensures Totals(Sort(MoreUrgent, StatsOf(RepoOf, items, FirstOccurrences(Names(RepoOf, items)), now)), items, now)
  {
    var severities := FirstOccurrences(Names(SeverityOf, items));
    FirstOccurrencesContents(Names(SeverityOf, items));
    SortKeepsDistinct(MoreSevere, severities);
    SortContents(MoreSevere, severities);
    NamedAddUp(SeverityOf, items, SeverityNames(items), now);
    var repos := FirstOccurrences(Names(RepoOf, items));
    FirstOccurrencesContents(Names(RepoOf, items));
    NamedAddUp(RepoOf, items, repos, now);
    var stats := StatsOf(RepoOf, items, repos, now);
    SumSort((s: Stat) => s.open, MoreUrgent, stats);
    SumSort((s: Stat) => s.overdue, MoreUrgent, stats);
    SumSort((s: Stat) => s.resolved, MoreUrgent, stats);
  }

  /** Severities are listed once each, the most severe first; repositories once each, those with most
    overdue items first. */
  lemma StatsInOrder(items: seq<Item>, now: int)
    ensures SortedBy(MoreSevere, SeverityNames(items)) && Distinct(SeverityNames(items))
    ensures forall s :: s in SeverityNames(items) <==> s in Names(SeverityOf, items)
    ensures var stats := StatsOf(RepoOf, items, FirstOccurrences(Names(RepoOf, items)), now);
      SortedBy(MoreUrgent, Sort(MoreUrgent, stats)) && multiset(Sort(MoreUrgent, stats)) == multiset(stats)
  {
    var severities := FirstOccurrences(Names(SeverityOf, items));
    FirstOccurrencesContents(Names(SeverityOf, items));
    SortSorts(MoreSevere, severities);
    SortKeepsDistinct(MoreSevere, severities);
    SortContents(MoreSevere, severities);
    var stats := StatsOf(RepoOf, items, FirstOccurrences(Names(RepoOf, items)), now);
    MoreUrgentIsOrder();
    SortSorts(MoreUrgent, stats);
    SortContents(MoreUrgent, stats);
  }

  lemma MoreUrgentIsOrder()
    ensures IsOrder(MoreUrgent)
  {
    forall x, y | MoreUrgent(x, y) ensures !MoreUrgent(y, x) {
      StringLessTotal(x.name, y.name);
    }
    forall x, y, z | MoreUrgent(x, z) ensures MoreUrgent(x, y) || MoreUrgent(y, z) {
      NamesWeakOrder(x.name, y.name, z.name);
    }
  }

  lemma NamedAddUp(key: Item -> string, items: seq<Item>, names: seq<string>, now: int)
    requires Distinct(names) && forall n :: n in Names(key, items) ==> n in names
    ensures Totals(StatsOf(key, items, names, now), items, now)
  {
    SumsAreShares(key, items, names, now);
    SharesAddUp(IsOpen, key, items, names);
    SharesAddUp(i => IsOverdue(i, now), key, items, names);
    SharesAddUp(IsResolved, key, items, names);
  }

  lemma {:induction false} CountsNest(items: seq<Item>, now: int)
    ensures Count(i => IsOverdue(i, now), items) <= Count((i: Item) => IsOpen(i) && i.deadlineDays.Some?, items)
    ensures Count((i: Item) => IsOpen(i) && i.deadlineDays.Some?, items) <= Count(IsOpen, items)
    ensures Count(IsOpen, items) + Count(IsResolved, items) == |items|
  {
    if items != [] {
      CountsNest(Front(items), now);
    }
  }

  // ------------------------------------------------------------------ the overdue list

  ghost predicate OverdueFirst(list: seq<Item>, now: int) {
    forall m, n :: 0 <= m < n < |list| ==> OverdueDays(list[m], now) >= OverdueDays(list[n], now)
  }

  predicate LongerOverdue(now: int, a: Item, b: Item) {
    var x, y := OverdueDays(a, now), OverdueDays(b, now);
    x > y || (x == y && (StringLess(a.repo, b.repo) || (a.repo == b.repo && StringLess(a.package, b.package))))
  }

  function OverdueItems(items: seq<Item>, now: int): seq<Item> {
    Sort((a, b) => LongerOverdue(now, a, b), Filter(i => IsOverdue(i, now), items))
  }

  lemma LongerOverdueIsOrder(now: int)
    ensures IsOrder((a, b) => LongerOverdue(now, a, b))
  {
    forall x, y | LongerOverdue(now, x, y) ensures !LongerOverdue(now, y, x) {
      StringLessTotal(x.repo, y.repo);
      StringLessTotal(x.package, y.package);
    }
    forall x, y, z | LongerOverdue(now, x, z) ensures LongerOverdue(now, x, y) || LongerOverdue(now, y, z) {
      NamesWeakOrder(x.repo, y.repo, z.repo);
      NamesWeakOrder(x.package, y.package, z.package);
      StringLessTotal(x.repo, y.repo);
      StringLessTotal(y.repo, z.repo);
    }
  }

  lemma NamesWeakOrder(x: string, y: string, z: string)
    ensures StringLess(x, z) ==> StringLess(x, y) || StringLess(y, z)
  {
    StringLessTotal(x, y);
    StringLessTotal(y, z);
    if StringLess(y, x) && StringLess(x, z) {
      StringLessTransitive(y, x, z);
    }
  }

  /** The list holds each overdue item as often as the findings do, the longest overdue first, and
    it is as long as the total says. */
  lemma OverdueListExactly(items: seq<Item>, now: int)
    ensures multiset(OverdueItems(items, now)) == multiset(Filter(i => IsOverdue(i, now), items))
    ensures |OverdueItems(items, now)| == Count(i => IsOverdue(i, now), items)
    ensures OverdueFirst(OverdueItems(items, now), now)
  {
    var overdue := Filter(i => IsOverdue(i, now), items);
    var less := (a, b) => LongerOverdue(now, a, b);
    SortContents(less, overdue);
    LongerOverdueIsOrder(now);
    SortSorts(less, overdue);
    var list := OverdueItems(items, now);
    forall m, n | 0 <= m < n < |list| ensures OverdueDays(list[m], now) >= OverdueDays(list[n], now) {
      assert !less(list[n], list[m]);
    }
  }

  // -------------------------------------------------------------------------- the report

  datatype Summary = Summary(openWithDeadline: nat, overdue: nat, resolved: nat)

  datatype Report = Report(summary: Summary, bySeverity: seq<Stat>, byRepo: seq<Stat>, overdue: seq<Item>)

  /** All open findings, and those resolved since the cutoff. */
  function Selected(findings: seq<Finding>, cutoff: int): seq<Finding> {
    Filter((f: Finding) => f.resolvedAt.None?, findings)
    + Filter((f: Finding) => f.resolvedAt.Some? && f.resolvedAt.value >= cutoff, findings)
  }

  /** The numbers of a report agree with each other. */
  ghost predicate Consistent(r: Report, now: int) {
    && r.summary.overdue == |r.overdue|
    && r.summary.overdue == Sum((s: Stat) => s.overdue, r.bySeverity)
    && r.summary.overdue == Sum((s: Stat) => s.overdue, r.byRepo)
    && r.summary.resolved == Sum((s: Stat) => s.resolved, r.bySeverity)
    && r.summary.resolved == Sum((s: Stat) => s.resolved, r.byRepo)
    && Sum((s: Stat) => s.open, r.bySeverity) == Sum((s: Stat) => s.open, r.byRepo)
    && r.summary.overdue <= r.summary.openWithDeadline <= Sum((s: Stat) => s.open, r.byRepo)
    && OverdueFirst(r.overdue, now)
  }

  method BuildReport(findings: seq<Finding>, policy: Policy, windowDays: int, now: int) returns (r: Report)
    ensures Consistent(r, now)
    ensures var items := ItemsOf(Selected(findings, now - windowDays * DAY), policy);
      && r.bySeverity == StatsOf(SeverityOf, items, SeverityNames(items), now)
      && r.byRepo == Sort(MoreUrgent, StatsOf(RepoOf, items, FirstOccurrences(Names(RepoOf, items)), now))
      && r.summary.openWithDeadline == Count((i: Item) => IsOpen(i) && i.deadlineDays.Some?, items)
    ensures r.overdue == OverdueItems(ItemsOf(Selected(findings, now - windowDays * DAY), policy), now)
  {
    var items := ToItems(Selected(findings, now - windowDays * DAY), policy);
    var summary := Summary(
      Count((i: Item) => IsOpen(i) && i.deadlineDays.Some?, items),
      Count(i => IsOverdue(i, now), items), Count(IsResolved, items));
    var bySeverity := SeverityStats(items, now);
    var byRepo := RepoStats(items, now);
    GroupsAddUp(items, now);
    CountsNest(items, now);
    OverdueListExactly(items, now);
    r := Report(summary, bySeverity, byRepo, OverdueItems(items, now));
  }

  // ------------------------------------------------------------------------ deadlines

  /** Whether an item is overdue for a deadline, however the deadline came about. */
  predicate Late(detectedAt: int, days: Option<int>, now: int) {
    days.Some? && now > detectedAt + days.value * DAY
  }

  /** Being listed as exploited never gives more time: whatever was overdue stays so. It changes the
    deadline exactly if there was none, or a longer one than for exploited findings. */
  lemma KevNeverLengthens(policy: Policy, severity: Option<string>, detectedAt: int, now: int)
    ensures policy.DeadlineDays(severity, true).Some?
    ensures Late(detectedAt, policy.DeadlineDays(severity, false), now) ==>
      Late(detectedAt, policy.DeadlineDays(severity, true), now)
    ensures policy.DeadlineDays(severity, true) != policy.DeadlineDays(severity, false) <==>
      policy.DaysForSeverity(severity).None? || policy.DaysForSeverity(severity).value > policy.kevDays
  {
  }

  /** An open item that is overdue stays overdue, and no fewer days. */
  lemma StaysOverdue(i: Item, now: int, later: int)
    requires now <= later && IsOverdue(i, now)
    ensures IsOverdue(i, later) && OverdueDays(i, later) >= OverdueDays(i, now)
  {
    assert (later - DueAt(i).value) / DAY >= (now - DueAt(i).value) / DAY;
  }

  lemma ListOnlyGrows(items: seq<Item>, now: int, later: int)
    requires now <= later
    ensures |OverdueItems(items, now)| <= |OverdueItems(items, later)|
  {
    OverdueListExactly(items, now);
    OverdueListExactly(items, later);
    CountGrows(items, now, later);
  }

  lemma {:induction false} CountGrows(items: seq<Item>, now: int, later: int)
    requires now <= later
    ensures Count(i => IsOverdue(i, now), items) <= Count(i => IsOverdue(i, later), items)
  {
    if items != [] {
      CountGrows(Front(items), now, later);
    }
  }

  // ----------------------------------------------------------- the report by findings

  /** A finding that counts as overdue: it is open, is not excepted, and has passed the deadline of its
    severity, or the deadline of exploited findings if it is listed. LOW and unknown severities have no
    deadline of their own. */
  predicate IsLate(f: Finding, policy: Policy, now: int) {
    && f.resolvedAt == None && !f.excepted
    && (|| (f.severity == Some("CRITICAL") && now > f.detectedAt + policy.criticalDays * 86_400_000_000)
        || (f.severity == Some("HIGH") && now > f.detectedAt + policy.highDays * 86_400_000_000)
        || (f.severity == Some("MEDIUM") && now > f.detectedAt + policy.mediumDays * 86_400_000_000)
        || (f.isKev && now > f.detectedAt + policy.kevDays * 86_400_000_000))
  }

  predicate HasDeadline(f: Finding) {
    f.severity == Some("CRITICAL") || f.severity == Some("HIGH") || f.severity == Some("MEDIUM") || f.isKev
  }

  lemma LateExactly(f: Finding, policy: Policy, now: int)
    ensures Reported(f) && IsOverdue(ItemOf(f, policy), now) <==> IsLate(f, policy, now)
    ensures ItemOf(f, policy).deadlineDays.Some? <==> HasDeadline(f)
  {
  }

  /** Every finding that is resolved, or open and not excepted, is one item, with its names and times. */
  lemma {:induction false} ItemsExactly(findings: seq<Finding>, policy: Policy)
    ensures forall f :: f in findings && (f.resolvedAt.Some? || !f.excepted) ==>
      exists i :: i in ItemsOf(findings, policy) && Describes(i, f, policy)
    ensures forall i :: i in ItemsOf(findings, policy) ==>
      exists f :: f in findings && (f.resolvedAt.Some? || !f.excepted) && Describes(i, f, policy)
  {
    if findings != [] {
      var front, last := Front(findings), Last(findings);
      ItemsExactly(front, policy);
      assert findings == front + [last];
      var items := ItemsOf(front, policy);
      if Reported(last) {
        assert Describes(ItemOf(last, policy), last, policy);
        assert ItemOf(last, policy) in items + [ItemOf(last, policy)];
      }
    }
  }

  predicate Describes(i: Item, f: Finding, policy: Policy) {
    && i.repo == f.repo && i.package == f.package && i.detectedAt == f.detectedAt && i.resolvedAt == f.resolvedAt
    && (f.severity.Some? && f.severity.value != "" ==> i.severity == f.severity.value)
    && (f.severity == None || f.severity == Some("") ==> i.severity == "N/A")
    && i.deadlineDays == policy.DeadlineDays(f.severity, f.isKev)
  }

  lemma {:induction false} LateCount(findings: seq<Finding>, policy: Policy, now: int)
    ensures Count(i => IsOverdue(i, now), ItemsOf(findings, policy)) == |Filter(f => IsLate(f, policy, now), findings)|
    ensures Count((i: Item) => IsOpen(i) && i.deadlineDays.Some?, ItemsOf(findings, policy))
         == |Filter((f: Finding) => f.resolvedAt == None && !f.excepted && HasDeadline(f), findings)|
    ensures Count(IsResolved, ItemsOf(findings, policy)) == |Filter((f: Finding) => f.resolvedAt.Some?, findings)|
  {
    if findings != [] {
      LateCount(Front(findings), policy, now);
      LateExactly(Last(findings), policy, now);
      var items := ItemsOf(Front(findings), policy);
      if Reported(Last(findings)) {
        var i := ItemOf(Last(findings), policy);
        CountAppend(j => IsOverdue(j, now), items, i);
        CountAppend((j: Item) => IsOpen(j) && j.deadlineDays.Some?, items, i);
        CountAppend(IsResolved, items, i);
      } else {
        assert items + [] == items;
      }
    }
  }

  /** The findings of the report are the open ones and those resolved within the window. */
  lemma SelectedExactly(findings: seq<Finding>, cutoff: int)
    ensures forall f :: f in Selected(findings, cutoff) <==>
      f in findings && (f.resolvedAt == None || f.resolvedAt.value >= cutoff)
  {
    FilterContents((f: Finding) => f.resolvedAt.None?, findings);
    FilterContents((f: Finding) => f.resolvedAt.Some? && f.resolvedAt.value >= cutoff, findings);
  }

  /** The days of an overdue item are the whole days since it was due. */
  lemma OverdueDaysExactly(i: Item, now: int)
    ensures OverdueDays(i, now) >= 0
    ensures !IsOverdue(i, now) ==> OverdueDays(i, now) == 0
    ensures IsOverdue(i, now) ==>
      var due, days := i.detectedAt + i.deadlineDays.value * 86_400_000_000, OverdueDays(i, now);
      due + days * 86_400_000_000 <= now < due + (days + 1) * 86_400_000_000
  {
    if IsOverdue(i, now) {
      var late := now - DueAt(i).value;
      assert late == late / DAY * DAY + late % DAY;
    }
  }

  /** `a` may stand before `b`: CRITICAL before HIGH before MEDIUM before LOW before everything else. */
  predicate SeverityBefore(a: string, b: string) {
    && b != "CRITICAL"
    && (b == "HIGH" ==> a == "CRITICAL")
    && (b == "MEDIUM" ==> a == "CRITICAL" || a == "HIGH")
    && (b == "LOW" ==> a == "CRITICAL" || a == "HIGH" || a == "MEDIUM")
  }

  lemma SeverityPair(a: string, b: string)
    requires a != b && !MoreSevere(b, a)
    ensures SeverityBefore(a, b)
  {
  }

  lemma SeveritiesInOrder(items: seq<Item>)
    ensures var names := SeverityNames(items); forall m, n :: 0 <= m < n < |names| ==> SeverityBefore(names[m], names[n])
  {
    StatsInOrder(items, 0);
    var names := SeverityNames(items);
    forall m, n | 0 <= m < n < |names| ensures SeverityBefore(names[m], names[n]) {
      SeverityPair(names[m], names[n]);
    }
  }

  /** `s` may stand before `t`: more overdue items, then more open ones, then by name. */
  predicate RepoBefore(s: Stat, t: Stat) {
    if s.overdue != t.overdue then s.overdue > t.overdue
    else if s.open != t.open then s.open > t.open
    else !StringLess(t.name, s.name)
  }

  lemma ReposInOrder(items: seq<Item>, now: int)
    ensures var stats := Sort(MoreUrgent, StatsOf(RepoOf, items, FirstOccurrences(Names(RepoOf, items)), now));
      forall m, n :: 0 <= m < n < |stats| ==> RepoBefore(stats[m], stats[n])
  {
    StatsInOrder(items, now);
    var stats := Sort(MoreUrgent, StatsOf(RepoOf, items, FirstOccurrences(Names(RepoOf, items)), now));
    forall m, n | 0 <= m < n < |stats| ensures RepoBefore(stats[m], stats[n]) {
      assert !MoreUrgent(stats[n], stats[m]);
    }
  }

  /** `a` may stand before `b` in the overdue list: more days, then by repository and package. */
  predicate LaterBefore(now: int, a: Item, b: Item) {
    if OverdueDays(a, now) != OverdueDays(b, now) then OverdueDays(a, now) > OverdueDays(b, now)
    else if a.repo != b.repo then !StringLess(b.repo, a.repo)
    else !StringLess(b.package, a.package)
  }

  lemma OverdueInOrder(items: seq<Item>, now: int)
    ensures var list := OverdueItems(items, now); forall m, n :: 0 <= m < n < |list| ==> LaterBefore(now, list[m], list[n])
  {
    var less := (a, b) => LongerOverdue(now, a, b);
    var overdue := Filter(i => IsOverdue(i, now), items);
    LongerOverdueIsOrder(now);
    SortSorts(less, overdue);
    var list := OverdueItems(items, now);
    forall m, n | 0 <= m < n < |list| ensures LaterBefore(now, list[m], list[n]) {
      assert !less(list[n], list[m]);
    }
  }

  function CountNamed(p: Item -> bool, key: Item -> string, items: seq<Item>, name: string): nat {
    |Filter(i => key(i) == name && p(i), items)|
  }

  /** Each row of a grouping counts the items of its name. */
  lemma {:induction false} StatsCount(key: Item -> string, items: seq<Item>, names: seq<string>, now: int, n: nat)
    requires n < |names|
    ensures |StatsOf(key, items, names, now)| == |names|
    ensures var s := StatsOf(key, items, names, now)[n];
      && s.name == names[n]
      && s.open == CountNamed(IsOpen, key, items, names[n])
      && s.overdue == CountNamed(i => IsOverdue(i, now), key, items, names[n])
      && s.resolved == CountNamed(IsResolved, key, items, names[n])
  {
    StatsLength(key, items, names, now);
    if n < |names| - 1 {
      StatsLength(key, items, Front(names), now);
      StatsCount(key, items, Front(names), now, n);
    } else {
      StatsLength(key, items, Front(names), now);
      CountOfGroup(IsOpen, key, items, names[n]);
      CountOfGroup(i => IsOverdue(i, now), key, items, names[n]);
      CountOfGroup(IsResolved, key, items, names[n]);
    }
  }

  lemma {:induction false} StatsLength(key: Item -> string, items: seq<Item>, names: seq<string>, now: int)
    ensures |StatsOf(key, items, names, now)| == |names|
  {
    if names != [] {
      StatsLength(key, items, Front(names), now);
    }
  }

  lemma {:induction false} CountOfGroup(p: Item -> bool, key: Item -> string, items: seq<Item>, name: string)
    ensures Count(p, Group(key, items, name)) == CountNamed(p, key, items, name)
  {
    if items != [] {
      CountOfGroup(p, key, Front(items), name);
      var group, last := Group(key, Front(items), name), Last(items);
      CountAppend(p, group, last);
      assert group + [] == group;
    }
  }
}
