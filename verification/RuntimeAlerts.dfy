/** Finding what to report about runtimes, and reporting each of it once (app/runtimes/alerts.py). */
module RuntimeAlerts {
  import opened Prelude
  import opened Ordering
  import opened RuntimeStatus

  const NEW_RELEASE_WINDOW_DAYS := 90

  const INITIALIZED_KEY := "initialized"

  /** A runtime in use by an active repository. */
  datatype RepoRuntime = RepoRuntime(repo: string, runtime: Runtime, cycle: string, pinned: bool)

  datatype Cell = Cell(runtime: Runtime, cycle: string)

  datatype Kind = KindEol | KindEolSoon | KindNewRelease

  datatype Alert = Alert(
    kind: Kind, cell: Cell, latestVersion: string, eolDate: Option<int>, daysToEol: Option<int>, repos: set<string>)

  function RuntimeName(r: Runtime): string {
    match r
    case Dart => "dart"
    case Flutter => "flutter"
    case NodeJs => "nodejs"
    case Python => "python"
  }

  function KindName(k: Kind): string {
    match k
    case KindEol => "eol"
    case KindEolSoon => "eol_soon"
    case KindNewRelease => "new_release"
  }

  function KeyOf(a: Alert): string {
    KindName(a.kind) + ":" + (RuntimeName(a.cell.runtime) + ":" + a.cell.cycle)
  }

  function CellOf(row: RepoRuntime): Cell {
    Cell(row.runtime, row.cycle)
  }

  function ReleaseCell(r: Release): Cell {
    Cell(r.runtime, r.cycle)
  }

  /** The table's unique key. */
  ghost predicate UniqueCells(releases: seq<Release>) {
    forall i, j :: 0 <= i < j < |releases| ==> ReleaseCell(releases[i]) != ReleaseCell(releases[j])
  }

  // ------------------------------------------------------- what there is to report

  /** The states of pinned cycles. */
  type States = Cell -> State

  function StatesOf(releases: seq<Release>, today: int): States {
    (cell: Cell) => Evaluate(cell.runtime, cell.cycle, true, releases, today).state
  }

  function Lookup(releases: seq<Release>, cell: Cell): Option<Release> {
    if releases == [] then None
    else if ReleaseCell(Last(releases)) == cell then Some(Last(releases))
    else Lookup(Front(releases), cell)
  }

  function PinnedRepos(rows: seq<RepoRuntime>, cell: Cell): set<string> {
    set row | row in rows && row.pinned && CellOf(row) == cell :: row.repo
  }

  function Users(rows: seq<RepoRuntime>, runtime: Runtime): set<string> {
    set row | row in rows && row.runtime == runtime :: row.repo
  }

  function StateKind(s: State): Option<Kind> {
    match s
    case Eol => Some(KindEol)
    case EolSoon => Some(KindEolSoon)
    case _ => None
  }

  /** The alert about the support of a pinned cycle, if there is one. */
  function SupportAlert(releases: seq<Release>, cell: Cell, repos: set<string>, state: State, today: int): Option<Alert> {
    var release := Lookup(releases, cell);
    if StateKind(state).None? || release.None? then None
    else
      var eolDate := release.value.eolDate;
      Some(Alert(StateKind(state).value, cell, release.value.latestVersion, eolDate,
                 if eolDate.Some? then Some(eolDate.value - today) else None, repos))
  }

  /** The alert about a new release, if there is one. */
  function ReleaseAlert(r: Release, users: set<string>, today: int): Option<Alert> {
    if users == {} || r.isEol || r.releaseDate.None? || r.releaseDate.value < today - NEW_RELEASE_WINDOW_DAYS then None
    else Some(Alert(KindNewRelease, ReleaseCell(r), r.latestVersion, r.eolDate, None, users))
  }

  function AsSeq<T>(o: Option<T>): seq<T> {
    if o.Some? then [o.value] else []
  }

  function PinnedCells(rows: seq<RepoRuntime>): seq<Cell> {
    if rows == [] then []
    else
      var before, row := PinnedCells(Front(rows)), Last(rows);
      if row.pinned && CellOf(row) !in before then before + [CellOf(row)] else before
  }

  function SupportAlerts(
    stateOf: States, releases: seq<Release>, rows: seq<RepoRuntime>, cells: seq<Cell>, today: int): seq<Alert>
  {
    if cells == [] then []
    else
      var cell := Last(cells);
      SupportAlerts(stateOf, releases, rows, Front(cells), today)
      + AsSeq(SupportAlert(releases, cell, PinnedRepos(rows, cell), stateOf(cell), today))
  }

  function ReleaseAlerts(releases: seq<Release>, rows: seq<RepoRuntime>, today: int): seq<Alert> {
    if releases == [] then []
    else
      ReleaseAlerts(Front(releases), rows, today)
      + AsSeq(ReleaseAlert(Last(releases), Users(rows, Last(releases).runtime), today))
  }

  function Rank(k: Kind): nat {
    match k
    case KindEol => 0
    case KindEolSoon => 1
    case KindNewRelease => 2
  }

  function RuntimeRank(r: Runtime): nat {
    match r
    case Dart => 0
    case Flutter => 1
    case NodeJs => 2
    case Python => 3
  }

  /** By kind, runtime and cycle. */
  predicate AlertLess(a: Alert, b: Alert) {
    Rank(a.kind) < Rank(b.kind)
    || (a.kind == b.kind
        && (RuntimeRank(a.cell.runtime) < RuntimeRank(b.cell.runtime)
            || (a.cell.runtime == b.cell.runtime && StringLess(a.cell.cycle, b.cell.cycle))))
  }

  function Alerts(stateOf: States, releases: seq<Release>, rows: seq<RepoRuntime>, today: int): seq<Alert> {
    Sort(AlertLess, SupportAlerts(stateOf, releases, rows, PinnedCells(rows), today) + ReleaseAlerts(releases, rows, today))
  }

  /** The tables that the first loop fills. */
  ghost predicate PinnedTable(rows: seq<RepoRuntime>, pinned: map<Cell, set<string>>) {
    && (forall c :: c in pinned <==> c in PinnedCells(rows))
    && (forall c :: c in pinned ==> pinned[c] == PinnedRepos(rows, c))
  }

  ghost predicate UserTable(rows: seq<RepoRuntime>, users: map<Runtime, set<string>>) {
    forall r :: Users(rows, r) == At(users, r)
  }

  ghost predicate StateTable(stateOf: States, pinned: map<Cell, set<string>>, states: map<Cell, State>) {
    forall c :: c in pinned ==> c in states && states[c] == stateOf(c)
  }

  /** The entry of a key, empty if it has none. */
  function At<K>(table: map<K, set<string>>, k: K): set<string> {
    if k in table then table[k] else {}
  }

  method Group(stateOf: States, rows: seq<RepoRuntime>)
    returns (order: seq<Cell>, pinned: map<Cell, set<string>>, users: map<Runtime, set<string>>, states: map<Cell, State>)
    ensures order == PinnedCells(rows)
    ensures PinnedTable(rows, pinned) && UserTable(rows, users) && StateTable(stateOf, pinned, states)
  {
    order, pinned, users, states := [], map[], map[], map[];
    for n := 0 to |rows|
      invariant order == PinnedCells(rows[..n])
      invariant PinnedTable(rows[..n], pinned)
      invariant UserTable(rows[..n], users)
      invariant StateTable(stateOf, pinned, states)
    {
      var row := rows[n];
      var cell := CellOf(row);
      assert rows[..n + 1] == rows[..n] + [row];
      UserStep(rows[..n], row, users);
      PinnedStep(rows[..n], row, pinned);
      users := users[row.runtime := At(users, row.runtime) + {row.repo}];
      if row.pinned {
        if cell !in pinned {
          order := order + [cell];
        }
        pinned := pinned[cell := At(pinned, cell) + {row.repo}];
        states := states[cell := stateOf(cell)];
      }
    }
    assert rows[..|rows|] == rows;
  }

  lemma UserStep(rows: seq<RepoRuntime>, row: RepoRuntime, users: map<Runtime, set<string>>)
    requires UserTable(rows, users)
    ensures UserTable(rows + [row], users[row.runtime := At(users, row.runtime) + {row.repo}])
  {
    forall r ensures Users(rows + [row], r) == if r == row.runtime then Users(rows, r) + {row.repo} else Users(rows, r) {
    }
  }

  lemma PinnedStep(rows: seq<RepoRuntime>, row: RepoRuntime, pinned: map<Cell, set<string>>)
    requires PinnedTable(rows, pinned)
    ensures var cell := CellOf(row);
      && PinnedCells(rows + [row]) == (if row.pinned && cell !in pinned then PinnedCells(rows) + [cell] else PinnedCells(rows))
      && PinnedTable(rows + [row], if row.pinned then pinned[cell := At(pinned, cell) + {row.repo}] else pinned)
  {
    var cell := CellOf(row);
    assert Front(rows + [row]) == rows;
    PinnedCellsContents(rows);
    assert cell !in pinned ==> PinnedRepos(rows, cell) == {};
    forall c
      ensures PinnedRepos(rows + [row], c)
           == if row.pinned && c == cell then PinnedRepos(rows, c) + {row.repo} else PinnedRepos(rows, c)
    {
    }
  }

  lemma {:induction false} PinnedCellsContents(rows: seq<RepoRuntime>)
    ensures Distinct(PinnedCells(rows))
    ensures forall c :: c in PinnedCells(rows) <==> exists row :: row in rows && row.pinned && CellOf(row) == c
  {
    if rows != [] {
      PinnedCellsContents(Front(rows));
      assert rows == Front(rows) + [Last(rows)];
    }
  }

  method FindAlerts(stateOf: States, releases: seq<Release>, rows: seq<RepoRuntime>, today: int)
    returns (alerts: seq<Alert>)
    ensures alerts == Alerts(stateOf, releases, rows, today)
  {
    var order, pinned, users, states := Group(stateOf, rows);
    alerts := [];
    for n := 0 to |order|
      invariant alerts == SupportAlerts(stateOf, releases, rows, order[..n], today)
    {
      assert Front(order[..n + 1]) == order[..n];
      var cell := order[n];
      alerts := alerts + AsSeq(SupportAlert(releases, cell, pinned[cell], states[cell], today));
    }
    assert order[..|order|] == order;
    var new' := FindNew(releases, rows, users, today);
    alerts := Sort(AlertLess, alerts + new');
  }

  method FindNew(releases: seq<Release>, ghost rows: seq<RepoRuntime>, users: map<Runtime, set<string>>, today: int)
    returns (alerts: seq<Alert>)
    requires UserTable(rows, users)
    ensures alerts == ReleaseAlerts(releases, rows, today)
  {
    alerts := [];
    for n := 0 to |releases|
      invariant alerts == ReleaseAlerts(releases[..n], rows, today)
    {
      assert Front(releases[..n + 1]) == releases[..n];
      var r := releases[n];
      alerts := alerts + AsSeq(ReleaseAlert(r, At(users, r.runtime), today));
    }
    assert releases[..|releases|] == releases;
  }

  // ------------------------------------------------------------- alerts and their keys

  ghost predicate DueForSupport(stateOf: States, releases: seq<Release>, rows: seq<RepoRuntime>, today: int, a: Alert) {
    && (exists row :: row in rows && row.pinned && CellOf(row) == a.cell)
    && SupportAlert(releases, a.cell, PinnedRepos(rows, a.cell), stateOf(a.cell), today) == Some(a)
  }

  ghost predicate DueForRelease(releases: seq<Release>, rows: seq<RepoRuntime>, today: int, a: Alert) {
    exists r :: r in releases && ReleaseAlert(r, Users(rows, r.runtime), today) == Some(a)
  }

  lemma {:induction false} SupportAlertsContents(
      stateOf: States, releases: seq<Release>, rows: seq<RepoRuntime>, cells: seq<Cell>, today: int)
    requires Distinct(cells)
    ensures Distinct(SupportAlerts(stateOf, releases, rows, cells, today))
    ensures forall a :: a in SupportAlerts(stateOf, releases, rows, cells, today) <==>
      a.cell in cells
      && SupportAlert(releases, a.cell, PinnedRepos(rows, a.cell), stateOf(a.cell), today) == Some(a)
  {
    if cells != [] {
      SupportAlertsContents(stateOf, releases, rows, Front(cells), today);
      assert cells == Front(cells) + [Last(cells)];
      assert Last(cells) !in Front(cells);
    }
  }

  lemma {:induction false} ReleaseAlertsContents(releases: seq<Release>, rows: seq<RepoRuntime>, today: int)
    requires UniqueCells(releases)
    ensures Distinct(ReleaseAlerts(releases, rows, today))
    ensures forall a :: a in ReleaseAlerts(releases, rows, today) <==> DueForRelease(releases, rows, today, a)
  {
    if releases != [] {
      var before, r := Front(releases), Last(releases);
      ReleaseAlertsContents(before, rows, today);
      assert releases == before + [r];
      var last := ReleaseAlert(r, Users(rows, r.runtime), today);
      forall a | a in ReleaseAlerts(before, rows, today) ensures a.cell != ReleaseCell(r) {
        var s :| s in before && ReleaseAlert(s, Users(rows, s.runtime), today) == Some(a);
        assert ReleaseCell(s) != ReleaseCell(r);
      }
      forall a ensures a in ReleaseAlerts(releases, rows, today) <==> DueForRelease(releases, rows, today, a) {
        assert a in ReleaseAlerts(releases, rows, today) <==>
          a in ReleaseAlerts(before, rows, today) || last == Some(a);
      }
    }
  }

  /** Different alerts of one batch differ in kind or cell. */
  lemma OneAlertPerCell(
      stateOf: States, releases: seq<Release>, rows: seq<RepoRuntime>, today: int, a: Alert, b: Alert)
    requires UniqueCells(releases) && a.kind == b.kind && a.cell == b.cell
    requires DueForSupport(stateOf, releases, rows, today, a) || DueForRelease(releases, rows, today, a)
    requires DueForSupport(stateOf, releases, rows, today, b) || DueForRelease(releases, rows, today, b)
    ensures a == b
  {
    if DueForRelease(releases, rows, today, a) && DueForRelease(releases, rows, today, b) {
      var r :| r in releases && ReleaseAlert(r, Users(rows, r.runtime), today) == Some(a);
      var s :| s in releases && ReleaseAlert(s, Users(rows, s.runtime), today) == Some(b);
      assert ReleaseCell(r) == ReleaseCell(s);
    }
  }

  /** A batch holds exactly the alerts that are due, in order of kind, runtime and cycle. */
  lemma AlertsExactly(stateOf: States, releases: seq<Release>, rows: seq<RepoRuntime>, today: int)
    requires UniqueCells(releases)
    ensures forall a :: a in Alerts(stateOf, releases, rows, today) <==>
      DueForSupport(stateOf, releases, rows, today, a) || DueForRelease(releases, rows, today, a)
    ensures SortedBy(AlertLess, Alerts(stateOf, releases, rows, today))
    ensures Distinct(Alerts(stateOf, releases, rows, today))
  {
    var support := SupportAlerts(stateOf, releases, rows, PinnedCells(rows), today);
    var new' := ReleaseAlerts(releases, rows, today);
    UnsortedExactly(stateOf, releases, rows, today);
    SortContents(AlertLess, support + new');
    AlertLessIsOrder();
    SortSorts(AlertLess, support + new');
    SortKeepsDistinct(AlertLess, support + new');
  }

  lemma UnsortedExactly(stateOf: States, releases: seq<Release>, rows: seq<RepoRuntime>, today: int)
    requires UniqueCells(releases)
    ensures var found := SupportAlerts(stateOf, releases, rows, PinnedCells(rows), today) + ReleaseAlerts(releases, rows, today);
      && Distinct(found)
      && forall a :: a in found <==>
           DueForSupport(stateOf, releases, rows, today, a) || DueForRelease(releases, rows, today, a)
  {
    PinnedCellsContents(rows);
    SupportAlertsContents(stateOf, releases, rows, PinnedCells(rows), today);
    ReleaseAlertsContents(releases, rows, today);
    KindsDiffer(SupportAlerts(stateOf, releases, rows, PinnedCells(rows), today), ReleaseAlerts(releases, rows, today));
  }

  lemma KindsDiffer(support: seq<Alert>, new': seq<Alert>)
    requires Distinct(support) && Distinct(new')
    requires forall a :: a in support ==> a.kind != KindNewRelease
    requires forall a :: a in new' ==> a.kind == KindNewRelease
    ensures Distinct(support + new')
  {
    forall i, j | 0 <= i < j < |support + new'|
      ensures (support + new')[i] != (support + new')[j]
    {
      if i < |support| <= j {
        assert support[i] in support && new'[j - |support|] in new';
      }
    }
  }

  lemma AlertLessIsOrder()
    ensures IsOrder(AlertLess)
  {
    forall x, y | AlertLess(x, y) ensures !AlertLess(y, x) {
      StringLessTotal(x.cell.cycle, y.cell.cycle);
    }
    forall x, y, z | AlertLess(x, z) ensures AlertLess(x, y) || AlertLess(y, z) {
      StringLessTotal(x.cell.cycle, y.cell.cycle);
      StringLessTotal(y.cell.cycle, z.cell.cycle);
      if StringLess(y.cell.cycle, x.cell.cycle) && StringLess(x.cell.cycle, z.cell.cycle) {
        StringLessTransitive(y.cell.cycle, x.cell.cycle, z.cell.cycle);
      }
    }
  }

  lemma NamesHaveNoColon(k: Kind, r: Runtime)
    ensures ':' !in KindName(k) && ':' !in RuntimeName(r)
  {
  }

  lemma NamesTellApart(j: Kind, k: Kind, r: Runtime, s: Runtime)
    ensures KindName(j) == KindName(k) ==> j == k
    ensures RuntimeName(r) == RuntimeName(s) ==> r == s
  {
    assert KindName(j)[0] != KindName(k)[0] || |KindName(j)| != |KindName(k)| || j == k;
    assert RuntimeName(r)[0] != RuntimeName(s)[0] || r == s;
  }

  /** Two alerts share a key exactly when they are about the same kind, runtime and cycle; and no
    alert's key is the mark of the first run. */
  lemma KeysTellApart(a: Alert, b: Alert)
    ensures KeyOf(a) == KeyOf(b) <==> a.kind == b.kind && a.cell == b.cell
    ensures KeyOf(a) != INITIALIZED_KEY
  {
    NamesHaveNoColon(a.kind, a.cell.runtime);
    NamesHaveNoColon(b.kind, b.cell.runtime);
    NamesTellApart(a.kind, b.kind, a.cell.runtime, b.cell.runtime);
    var x, y := RuntimeName(a.cell.runtime) + ":" + a.cell.cycle, RuntimeName(b.cell.runtime) + ":" + b.cell.cycle;
    assert KeyOf(a)[|KindName(a.kind)|] == ':';
    assert KeyOf(a) == KindName(a.kind) + [':'] + x && KeyOf(b) == KindName(b.kind) + [':'] + y;
    if KeyOf(a) == KeyOf(b) {
      CutOnce(KindName(a.kind), x, KindName(b.kind), y, ':');
      CutOnce(RuntimeName(a.cell.runtime), a.cell.cycle, RuntimeName(b.cell.runtime), b.cell.cycle, ':');
    }
  }

  // ----------------------------------------------------------------- in fields

  /** A release of the table tells what the alert about its cycle tells. */
  predicate TellsRelease(a: Alert, r: Release) {
    a.cell == Cell(r.runtime, r.cycle) && a.latestVersion == r.latestVersion && a.eolDate == r.eolDate
  }

  lemma {:induction false} LookupFinds(releases: seq<Release>, cell: Cell)
    ensures Lookup(releases, cell).Some? ==>
      Lookup(releases, cell).value in releases && ReleaseCell(Lookup(releases, cell).value) == cell
    ensures Lookup(releases, cell).None? ==> forall r :: r in releases ==> ReleaseCell(r) != cell
  {
    if releases != [] && ReleaseCell(Last(releases)) != cell {
      LookupFinds(Front(releases), cell);
      assert releases == Front(releases) + [Last(releases)];
    }
  }

  /** An alert about the end of support is due exactly for a cycle that some active repository pins and
    the table knows, in that state; it names all repositories that pin it. */
  lemma SupportAlertTells(stateOf: States, releases: seq<Release>, rows: seq<RepoRuntime>, today: int, a: Alert)
    requires UniqueCells(releases)
    ensures DueForSupport(stateOf, releases, rows, today, a) <==>
      && (a.kind == KindEol || a.kind == KindEolSoon)
      && (exists row :: row in rows && row.pinned && row.runtime == a.cell.runtime && row.cycle == a.cell.cycle)
      && stateOf(a.cell) == (if a.kind == KindEol then Eol else EolSoon)
      && (exists r :: r in releases && TellsRelease(a, r))
      && a.daysToEol == (if a.eolDate.Some? then Some(a.eolDate.value - today) else None)
      && forall repo :: repo in a.repos <==> exists row :: row in rows && Pins(row, repo, a.cell)
  {
    LookupFinds(releases, a.cell);
    var release := Lookup(releases, a.cell);
    forall r | r in releases && TellsRelease(a, r) ensures release == Some(r) {
      var i :| 0 <= i < |releases| && releases[i] == r;
      var j :| 0 <= j < |releases| && releases[j] == release.value;
      assert i == j;
    }
    forall repo ensures repo in PinnedRepos(rows, a.cell) <==> exists row :: row in rows && Pins(row, repo, a.cell) {
    }
    if DueForSupport(stateOf, releases, rows, today, a) {
      assert TellsRelease(a, release.value);
    }
    if (exists r :: r in releases && TellsRelease(a, r))
       && forall repo :: repo in a.repos <==> exists row :: row in rows && Pins(row, repo, a.cell) {
      assert a.repos == PinnedRepos(rows, a.cell);
    }
  }

  predicate Pins(row: RepoRuntime, repo: string, cell: Cell) {
    row.pinned && row.repo == repo && row.runtime == cell.runtime && row.cycle == cell.cycle
  }

  predicate Uses(row: RepoRuntime, repo: string, runtime: Runtime) {
    row.repo == repo && row.runtime == runtime
  }

  /** An alert about a new release is due exactly for a supported release of the last 90 days, or of a
    day to come, of a runtime that some active repository uses; it names all that use it. */
  lemma ReleaseAlertTells(releases: seq<Release>, rows: seq<RepoRuntime>, today: int, a: Alert)
    ensures DueForRelease(releases, rows, today, a) <==>
      && a.kind == KindNewRelease && a.daysToEol == None
      && (exists r :: r in releases && TellsRelease(a, r) && IsNew(r, today))
      && (exists row :: row in rows && row.runtime == a.cell.runtime)
      && forall repo :: repo in a.repos <==> exists row :: row in rows && Uses(row, repo, a.cell.runtime)
  {
    var users := Users(rows, a.cell.runtime);
    forall repo ensures repo in users <==> exists row :: row in rows && Uses(row, repo, a.cell.runtime) {
    }
    if row :| row in rows && row.runtime == a.cell.runtime {
      assert row.repo in users;
    }
    if DueForRelease(releases, rows, today, a) {
      var r :| r in releases && ReleaseAlert(r, Users(rows, r.runtime), today) == Some(a);
      assert TellsRelease(a, r) && IsNew(r, today);
      var repo :| repo in users;
      var row :| row in rows && Uses(row, repo, a.cell.runtime);
    }
    if forall repo :: repo in a.repos <==> exists row :: row in rows && Uses(row, repo, a.cell.runtime) {
      assert a.repos == users;
    }
  }

  predicate IsNew(r: Release, today: int) {
    !r.isEol && r.releaseDate.Some? && today - 90 <= r.releaseDate.value
  }

  /** How keys are written, for example. */
  lemma KeyExamples(a: Alert)
    ensures a.kind == KindEolSoon && a.cell == Cell(Python, "3.11") ==> KeyOf(a) == "eol_soon:python:3.11"
    ensures a.kind == KindEol && a.cell == Cell(NodeJs, "18") ==> KeyOf(a) == "eol:nodejs:18"
    ensures a.kind == KindNewRelease && a.cell == Cell(Flutter, "3.9") ==> KeyOf(a) == "new_release:flutter:3.9"
    ensures a.kind == KindNewRelease && a.cell == Cell(Dart, "3.1") ==> KeyOf(a) == "new_release:dart:3.1"
  {
  }

  /** Alerts stand in the order of the names of their kinds, then of their runtimes, then of the cycles. */
  lemma AlertLessExactly(a: Alert, b: Alert)
    ensures AlertLess(a, b) <==>
      || StringLess(KindName(a.kind), KindName(b.kind))
      || (a.kind == b.kind
          && (StringLess(RuntimeName(a.cell.runtime), RuntimeName(b.cell.runtime))
              || (a.cell.runtime == b.cell.runtime && StringLess(a.cell.cycle, b.cell.cycle))))
  {
    KindsInOrder(a.kind, b.kind);
    RuntimesInOrder(a.cell.runtime, b.cell.runtime);
  }

  lemma KindsInOrder(j: Kind, k: Kind)
    ensures Rank(j) < Rank(k) <==> StringLess(KindName(j), KindName(k))
  {
    assert StringLess("eol", "eol_soon") && StringLess("eol", "new_release") && StringLess("eol_soon", "new_release");
    StringLessTotal(KindName(j), KindName(k));
  }

  lemma RuntimesInOrder(r: Runtime, s: Runtime)
    ensures RuntimeRank(r) < RuntimeRank(s) <==> StringLess(RuntimeName(r), RuntimeName(s))
  {
    StringLessTotal(RuntimeName(r), RuntimeName(s));
  }
}
