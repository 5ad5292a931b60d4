/** The daily runs that send runtime alerts and remember what was sent (app/runtimes/alerts.py). */
module RuntimeAlertRuns {
  import opened Prelude
  import opened RuntimeStatus
  import opened RuntimeAlerts

  function Keys(alerts: seq<Alert>): seq<string> {
    Mapped(KeyOf, alerts)
  }

  /** The alerts whose key is not in `sent`. */
  function Unsent(alerts: seq<Alert>, sent: seq<string>): seq<Alert> {
    Filter((a: Alert) => KeyOf(a) !in sent, alerts)
  }

  /** What a run puts into the message and, if it could be sent, into the table. */
  function Batch(sent: seq<string>, alerts: seq<Alert>): seq<Alert> {
    if INITIALIZED_KEY !in sent then [] else Unsent(alerts, sent)
  }

  function SentAfter(sent: seq<string>, alerts: seq<Alert>, accepted: bool): seq<string> {
    if INITIALIZED_KEY !in sent then sent + [INITIALIZED_KEY] + Keys(alerts)
    else if accepted then sent + Keys(Unsent(alerts, sent))
    else sent
  }

  /** Alerts as `FindAlerts` returns them: no two with the same key. */
  ghost predicate OneEach(alerts: seq<Alert>) {
    Distinct(Keys(alerts))
  }

  class AlertTable {
    var sent: seq<string>

    ghost predicate Valid()
      reads this
    {
      Distinct(sent) && (sent != [] ==> INITIALIZED_KEY in sent)
    }

    constructor ()
      ensures Valid() && sent == []
    {
      sent := [];
    }

    /** `accepted` is whether the message, if there is one, could be sent; what is returned is what
      was delivered. The table's unique key is never violated. */
    method Send(releases: seq<Release>, rows: seq<RepoRuntime>, today: int, accepted: bool)
      returns (delivered: seq<Alert>)
      requires Valid() && UniqueCells(releases)
      modifies this
      ensures Valid()
      ensures var alerts := Alerts(StatesOf(releases, today), releases, rows, today);
        && sent == SentAfter(old(sent), alerts, accepted)
        && delivered == if accepted then Batch(old(sent), alerts) else []
    {
      var alerts := FindAlerts(StatesOf(releases, today), releases, rows, today);
      FoundAlertsAreOneEach(releases, rows, today);
      SentStaysDistinct(sent, alerts, accepted);
      delivered := [];
      if INITIALIZED_KEY !in sent {
        Record([INITIALIZED_KEY] + Keys(alerts));
        return;
      }
      var unsent := Unsent(alerts, sent);
      if unsent == [] {
        return;
      }
      if !accepted {
        return;
      }
      Record(Keys(unsent));
      delivered := unsent;
    }

    method Record(keys: seq<string>)
      modifies this
      ensures sent == old(sent) + keys
    {
      for n := 0 to |keys|
        invariant sent == old(sent) + keys[..n]
      {
        sent := sent + [keys[n]];
      }
    }
  }

  lemma KeysContents(alerts: seq<Alert>)
    ensures |Keys(alerts)| == |alerts| && forall i :: 0 <= i < |alerts| ==> Keys(alerts)[i] == KeyOf(alerts[i])
  {
    MappedContents(KeyOf, alerts);
  }

  lemma FoundAlertsAreOneEach(releases: seq<Release>, rows: seq<RepoRuntime>, today: int)
    requires UniqueCells(releases)
    ensures OneEach(Alerts(StatesOf(releases, today), releases, rows, today))
    ensures INITIALIZED_KEY !in Keys(Alerts(StatesOf(releases, today), releases, rows, today))
  {
    var stateOf := StatesOf(releases, today);
    var alerts := Alerts(stateOf, releases, rows, today);
    AlertsExactly(stateOf, releases, rows, today);
    KeysContents(alerts);
    forall i, j | 0 <= i < j < |alerts| ensures KeyOf(alerts[i]) != KeyOf(alerts[j]) {
      KeysTellApart(alerts[i], alerts[j]);
      if alerts[i].kind == alerts[j].kind && alerts[i].cell == alerts[j].cell {
        OneAlertPerCell(stateOf, releases, rows, today, alerts[i], alerts[j]);
      }
    }
    forall i | 0 <= i < |alerts| ensures KeyOf(alerts[i]) != INITIALIZED_KEY {
      KeysTellApart(alerts[i], alerts[i]);
    }
  }

  lemma UnsentStep(alerts: seq<Alert>, sent: seq<string>)
    requires alerts != []
    ensures Keys(Unsent(alerts, sent))
         == Keys(Unsent(Front(alerts), sent)) + if KeyOf(Last(alerts)) !in sent then [KeyOf(Last(alerts))] else []
  {
    var rest := Unsent(Front(alerts), sent);
    assert Front(rest + [Last(alerts)]) == rest;
    assert rest + [] == rest && Keys(rest) + [] == Keys(rest);
  }

  lemma {:induction false} UnsentKeys(alerts: seq<Alert>, sent: seq<string>)
    ensures forall k :: k in Keys(Unsent(alerts, sent)) <==> k in Keys(alerts) && k !in sent
  {
    if alerts != [] {
      UnsentKeys(Front(alerts), sent);
      UnsentStep(alerts, sent);
      assert Keys(alerts) == Keys(Front(alerts)) + [KeyOf(Last(alerts))];
    }
  }

  lemma {:induction false} UnsentOneEach(alerts: seq<Alert>, sent: seq<string>)
    requires OneEach(alerts)
    ensures OneEach(Unsent(alerts, sent))
  {
    if alerts != [] {
      var before, k := Keys(Front(alerts)), KeyOf(Last(alerts));
      FrontDistinct(before, k);
      UnsentOneEach(Front(alerts), sent);
      UnsentKeys(Front(alerts), sent);
      UnsentStep(alerts, sent);
    }
  }

  lemma FrontDistinct<T>(s: seq<T>, x: T)
    requires Distinct(s + [x])
    ensures Distinct(s) && x !in s
  {
    var all := s + [x];
    forall i, j | 0 <= i < j < |s| ensures s[i] != s[j] {
      assert all[i] == s[i] && all[j] == s[j];
    }
    forall i | 0 <= i < |s| ensures s[i] != x {
      assert all[i] == s[i] && all[|s|] == x;
    }
  }

  lemma SentStaysDistinct(sent: seq<string>, alerts: seq<Alert>, accepted: bool)
    requires Distinct(sent) && (sent != [] ==> INITIALIZED_KEY in sent)
    requires OneEach(alerts) && INITIALIZED_KEY !in Keys(alerts)
    ensures Distinct(SentAfter(sent, alerts, accepted))
    ensures INITIALIZED_KEY in SentAfter(sent, alerts, accepted)
  {
    UnsentKeys(alerts, sent);
    UnsentOneEach(alerts, sent);
    AppendDistinct(sent, Keys(Unsent(alerts, sent)));
    AppendDistinct([INITIALIZED_KEY], Keys(alerts));
    assert sent == [] ==> sent + [INITIALIZED_KEY] + Keys(alerts) == [INITIALIZED_KEY] + Keys(alerts);
  }

  lemma AppendDistinct(a: seq<string>, b: seq<string>)
    requires Distinct(a) && Distinct(b) && forall k :: k in a ==> k !in b
    ensures Distinct(a + b)
  {
    forall i, j | 0 <= i < j < |a + b|
      ensures (a + b)[i] != (a + b)[j]
    {
      if i < |a| <= j {
        assert a[i] in a && b[j - |a|] in b;
      }
    }
  }

  // ---------------------------------------------------------------- sequences of runs

  /** One run: the alerts there were, and whether a message could be sent. */
  datatype Run = Run(alerts: seq<Alert>, accepted: bool)

  function SentBy(runs: seq<Run>): seq<string> {
    if runs == [] then []
    else SentAfter(SentBy(Front(runs)), Last(runs).alerts, Last(runs).accepted)
  }

  predicate Live(run: Run, k: string) {
    k in Keys(run.alerts)
  }

  /** Run `n` delivers an alert with this key. */
  predicate Delivers(runs: seq<Run>, n: nat, k: string)
    requires n < |runs|
  {
    runs[n].accepted && k in Keys(Batch(SentBy(runs[..n]), runs[n].alerts))
  }

  /** The key was live in the first run, or in a run that could send. */
  ghost predicate Settled(runs: seq<Run>, k: string) {
    exists m: nat :: m < |runs| && SettlesAt(runs, m, k)
  }

  lemma {:induction false} SentExactly(runs: seq<Run>, k: string)
    requires k != INITIALIZED_KEY
    ensures k in SentBy(runs) <==> Settled(runs, k)
    ensures INITIALIZED_KEY in SentBy(runs) <==> runs != []
  {
    if runs != [] {
      var before, last := Front(runs), Last(runs);
      SentExactly(before, k);
      UnsentKeys(last.alerts, SentBy(before));
      InitializedIsSent(before);
      SettledStep(runs, k);
      assert before == [] ==> SentBy(before) == [];
    }
  }

  lemma {:induction false} InitializedIsSent(runs: seq<Run>)
    ensures INITIALIZED_KEY in SentBy(runs) <==> runs != []
  {
    if runs != [] {
      InitializedIsSent(Front(runs));
      UnsentKeys(Last(runs).alerts, SentBy(Front(runs)));
    }
  }

  /** Run `m` settles the key. */
  predicate SettlesAt(runs: seq<Run>, m: nat, k: string)
    requires m < |runs|
  {
    Live(runs[m], k) && (m == 0 || runs[m].accepted)
  }

  lemma SettledStep(runs: seq<Run>, k: string)
    requires runs != []
    ensures Settled(runs, k) <==> Settled(Front(runs), k) || SettlesAt(runs, |runs| - 1, k)
  {
    var before := Front(runs);
    assert forall m: nat :: m < |before| ==> SettlesAt(before, m, k) == SettlesAt(runs, m, k);
  }

  /** A run delivers a key exactly when it is not the first, can send, the key is live in it, was
    not live in the first run, and was never live in an earlier run that could send. So the first
    run is silent, what could not be sent is tried again while it is live, and nothing is delivered
    twice. */
  lemma DeliversExactly(runs: seq<Run>, n: nat, k: string)
    requires n < |runs| && k != INITIALIZED_KEY
    ensures Delivers(runs, n, k) <==>
      n > 0 && runs[n].accepted && Live(runs[n], k) && !Settled(runs[..n], k)
  {
    var before := runs[..n];
    SentExactly(before, k);
    UnsentKeys(runs[n].alerts, SentBy(before));
  }

  lemma SettledWithin(runs: seq<Run>, m: nat, n: nat, k: string)
    requires m < n <= |runs| && SettlesAt(runs, m, k)
    ensures Settled(runs[..n], k)
  {
    assert runs[..n][m] == runs[m];
    assert SettlesAt(runs[..n], m, k);
  }

  lemma DeliveredAtMostOnce(runs: seq<Run>, m: nat, n: nat, k: string)
    requires m < n < |runs| && k != INITIALIZED_KEY && Delivers(runs, m, k)
    ensures !Delivers(runs, n, k)
  {
    DeliversExactly(runs, m, k);
    DeliversExactly(runs, n, k);
    SettledWithin(runs, m, n, k);
  }

  // ------------------------------------------------- while the tables stay the same

  /** A daily run on fixed tables. */
  datatype Day = Day(today: int, accepted: bool)

  ghost predicate InOrder(days: seq<Day>) {
    forall i, j :: 0 <= i <= j < |days| ==> days[i].today <= days[j].today
  }

  function RunOf(releases: seq<Release>, rows: seq<RepoRuntime>, day: Day): Run {
    Run(Alerts(StatesOf(releases, day.today), releases, rows, day.today), day.accepted)
  }

  function RunsOf(releases: seq<Release>, rows: seq<RepoRuntime>, days: seq<Day>): (runs: seq<Run>)
    ensures |runs| == |days|
  {
    if days == [] then [] else RunsOf(releases, rows, Front(days)) + [RunOf(releases, rows, Last(days))]
  }

  lemma {:induction false} RunAt(releases: seq<Release>, rows: seq<RepoRuntime>, days: seq<Day>, n: nat)
    requires n < |days|
    ensures RunsOf(releases, rows, days)[n] == RunOf(releases, rows, days[n])
  {
    if n < |days| - 1 {
      RunAt(releases, rows, Front(days), n);
    }
  }

  function SupportKey(kind: Kind, cell: Cell): string {
    KindName(kind) + ":" + (RuntimeName(cell.runtime) + ":" + cell.cycle)
  }

  /** A cycle that an active repository pins and that the release table knows. */
  ghost predicate Watched(releases: seq<Release>, rows: seq<RepoRuntime>, cell: Cell) {
    (exists row :: row in rows && row.pinned && CellOf(row) == cell) && Lookup(releases, cell).Some?
  }

  /** There is an alert about the support of a watched cycle exactly while it is in that state. */
  lemma SupportAlertExactly(
      stateOf: States, releases: seq<Release>, rows: seq<RepoRuntime>, today: int, kind: Kind, cell: Cell)
    requires UniqueCells(releases) && Watched(releases, rows, cell) && kind != KindNewRelease
    ensures StateKind(stateOf(cell)) == Some(kind) <==>
      exists a :: a in Alerts(stateOf, releases, rows, today) && a.kind == kind && a.cell == cell
  {
    AlertsExactly(stateOf, releases, rows, today);
    if StateKind(stateOf(cell)) == Some(kind) {
      var a := SupportAlert(releases, cell, PinnedRepos(rows, cell), stateOf(cell), today).value;
      assert DueForSupport(stateOf, releases, rows, today, a);
      assert a in Alerts(stateOf, releases, rows, today);
    }
  }

  lemma KeyInKeys(alerts: seq<Alert>, kind: Kind, cell: Cell)
    ensures SupportKey(kind, cell) in Keys(alerts) <==> exists a :: a in alerts && a.kind == kind && a.cell == cell
  {
    KeysContents(alerts);
    var example := Alert(kind, cell, "", None, None, {});
    if SupportKey(kind, cell) in Keys(alerts) {
      var i :| 0 <= i < |alerts| && KeyOf(alerts[i]) == SupportKey(kind, cell);
      KeysTellApart(alerts[i], example);
      assert alerts[i] in alerts;
    }
    if a :| a in alerts && a.kind == kind && a.cell == cell {
      InKeys(alerts, a);
    }
  }

  /** The key of a support alert is live exactly while a watched cycle is in that state. */
  lemma SupportKeyLiveExactly(
      stateOf: States, releases: seq<Release>, rows: seq<RepoRuntime>, today: int, kind: Kind, cell: Cell)
    requires UniqueCells(releases) && Watched(releases, rows, cell) && kind != KindNewRelease
    ensures SupportKey(kind, cell) in Keys(Alerts(stateOf, releases, rows, today)) <==>
      StateKind(stateOf(cell)) == Some(kind)
  {
    SupportAlertExactly(stateOf, releases, rows, today, kind, cell);
    KeyInKeys(Alerts(stateOf, releases, rows, today), kind, cell);
  }

  lemma InKeys(alerts: seq<Alert>, a: Alert)
    requires a in alerts
    ensures KeyOf(a) in Keys(alerts)
  {
    KeysContents(alerts);
    var i :| 0 <= i < |alerts| && alerts[i] == a;
    assert Keys(alerts)[i] == KeyOf(a);
  }

  lemma LiveOnDay(releases: seq<Release>, rows: seq<RepoRuntime>, days: seq<Day>, n: nat, kind: Kind, cell: Cell)
    requires UniqueCells(releases) && Watched(releases, rows, cell) && kind != KindNewRelease && n < |days|
    ensures Live(RunsOf(releases, rows, days)[n], SupportKey(kind, cell)) <==>
      StateKind(Evaluate(cell.runtime, cell.cycle, true, releases, days[n].today).state) == Some(kind)
  {
    RunAt(releases, rows, days, n);
    SupportKeyLiveExactly(StatesOf(releases, days[n].today), releases, rows, days[n].today, kind, cell);
  }

  predicate Ended(releases: seq<Release>, cell: Cell, today: int) {
    Evaluate(cell.runtime, cell.cycle, true, releases, today).state == Eol
  }

  lemma EndedStaysEnded(releases: seq<Release>, cell: Cell, today: int, later: int)
    requires today <= later && Ended(releases, cell, today)
    ensures Ended(releases, cell, later)
  {
    StatesOnlyAge(cell.runtime, cell.cycle, true, releases, today, later);
  }

  lemma LiveOnceEnded(releases: seq<Release>, rows: seq<RepoRuntime>, days: seq<Day>, n: nat, cell: Cell)
    requires UniqueCells(releases) && Watched(releases, rows, cell)
    requires n < |days| && Ended(releases, cell, days[n].today)
    ensures Live(RunsOf(releases, rows, days)[n], SupportKey(KindEol, cell))
  {
    LiveOnDay(releases, rows, days, n, KindEol, cell);
  }

  /** Once the support of a watched cycle has ended, the key stays live, and the next run that can
    send settles it. */
  lemma EndOfSupportIsReported(
      releases: seq<Release>, rows: seq<RepoRuntime>, days: seq<Day>, cell: Cell, m: nat, n: nat)
    requires UniqueCells(releases) && Watched(releases, rows, cell) && InOrder(days)
    requires m <= n < |days| && days[n].accepted && Ended(releases, cell, days[m].today)
    ensures SettlesAt(RunsOf(releases, rows, days), n, SupportKey(KindEol, cell))
  {
    EndedStaysEnded(releases, cell, days[m].today, days[n].today);
    LiveOnceEnded(releases, rows, days, n, cell);
    RunAt(releases, rows, days, n);
  }

  lemma SupportKeyIsNoMark(kind: Kind, cell: Cell)
    ensures SupportKey(kind, cell) != INITIALIZED_KEY
  {
    var example := Alert(kind, cell, "", None, None, {});
    KeysTellApart(example, example);
  }

  /** "Ends soon" is never delivered after "has ended". */
  lemma SoonBeforeEnded(
      releases: seq<Release>, rows: seq<RepoRuntime>, days: seq<Day>, cell: Cell, m: nat, n: nat)
    requires UniqueCells(releases) && Watched(releases, rows, cell) && InOrder(days)
    requires m < |days| && n < |days|
    requires Delivers(RunsOf(releases, rows, days), m, SupportKey(KindEolSoon, cell))
    requires Delivers(RunsOf(releases, rows, days), n, SupportKey(KindEol, cell))
    ensures m < n
  {
    var runs := RunsOf(releases, rows, days);
    SupportKeyIsNoMark(KindEolSoon, cell);
    SupportKeyIsNoMark(KindEol, cell);
    RunAt(releases, rows, days, m);
    RunAt(releases, rows, days, n);
    DeliversExactly(runs, m, SupportKey(KindEolSoon, cell));
    DeliversExactly(runs, n, SupportKey(KindEol, cell));
    LiveOnDay(releases, rows, days, m, KindEolSoon, cell);
    LiveOnDay(releases, rows, days, n, KindEol, cell);
    if n <= m {
      StatesOnlyAge(cell.runtime, cell.cycle, true, releases, days[n].today, days[m].today);
    }
  }
}
