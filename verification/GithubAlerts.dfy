/** Storing the security alerts that GitHub reports (app/github_alerts/repository.py), and the
  count of resolved alerts that the job reports (app/github_alerts/crawler.py). */
module GithubAlerts {
  import opened Prelude
  import opened FindingTable

  datatype AlertKey = AlertKey(kind: string, repo: string, number: int)

  datatype Content = Content(severity: Option<string>, title: string, url: string, detail: string)

  /** What a sync replaces, and the day of detection, which it keeps. */
  datatype Alert = Alert(content: Content, detectedAt: int)

  type AlertRow = Row<AlertKey, Alert>

  datatype Item = Item(number: int, content: Content, detectedAt: int)

  predicate InScope(r: AlertRow, kind: string, repo: string) {
    r.key.kind == kind && r.key.repo == repo
  }

  function Numbers(items: seq<Item>): set<int> {
    set i | i in items :: i.number
  }

  predicate Known(rows: seq<AlertRow>, k: AlertKey) {
    IndexOf(rows, k) < |rows|
  }

  // ------------------------------------------------------------------ operations

  function NewRow(kind: string, repo: string, item: Item): AlertRow {
    Row(AlertKey(kind, repo, item.number), Alert(item.content, item.detectedAt), None)
  }

  /** The rows added for items whose alert was unknown before the sync. */
  function NewRows(rows: seq<AlertRow>, kind: string, repo: string, items: seq<Item>): seq<AlertRow> {
    if items == [] then []
    else
      var before, item := NewRows(rows, kind, repo, Front(items)), Last(items);
      if Known(rows, AlertKey(kind, repo, item.number)) then before else before + [NewRow(kind, repo, item)]
  }

  /** A known row that is reported: the new content, and open again. */
  function Reported(r: AlertRow, item: Item): AlertRow {
    r.(content := r.content.(content := item.content), resolved := None)
  }

  /** The rows known before, each that is reported as `Reported` by the last item about it. */
  function Applied(rows: seq<AlertRow>, kind: string, repo: string, items: seq<Item>): seq<AlertRow> {
    if items == [] then rows
    else
      var before, item := Applied(rows, kind, repo, Front(items)), Last(items);
      var i := IndexOf(rows, AlertKey(kind, repo, item.number));
      if i < |rows| && i < |before| then before[i := Reported(before[i], item)]
      else before
  }

  predicate Gone(r: AlertRow, kind: string, repo: string, items: seq<Item>) {
    InScope(r, kind, repo) && r.resolved.None? && r.key.number !in Numbers(items)
  }

  function ResolveIfGone(r: AlertRow, kind: string, repo: string, items: seq<Item>, now: int): AlertRow {
    if Gone(r, kind, repo, items) then r.(resolved := Some(now)) else r
  }

  function WithGoneResolved(rows: seq<AlertRow>, kind: string, repo: string, items: seq<Item>, now: int): seq<AlertRow> {
    seq(|rows|, i requires 0 <= i < |rows| => ResolveIfGone(rows[i], kind, repo, items, now))
  }

  function SyncedAlerts(rows: seq<AlertRow>, kind: string, repo: string, items: seq<Item>, now: int): seq<AlertRow> {
    WithGoneResolved(Applied(rows, kind, repo, items), kind, repo, items, now)
    + NewRows(rows, kind, repo, items)
  }

  class AlertTable {
    var rows: seq<AlertRow>

    ghost predicate Valid()
      reads this
    {
      UniqueKeys(rows)
    }

    constructor ()
      ensures Valid() && rows == []
    {
      rows := [];
    }

    /** `failed` is the violation of the unique key at the commit, which undoes the sync. */
    method Sync(kind: string, repo: string, items: seq<Item>, now: int) returns (failed: bool, added: seq<AlertRow>)
      requires Valid()
      modifies this
      ensures Valid()
      ensures failed <==> !UniqueKeys(NewRows(old(rows), kind, repo, items))
      ensures failed ==> rows == old(rows)
      ensures !failed ==> rows == SyncedAlerts(old(rows), kind, repo, items, now)
      ensures added == NewRows(old(rows), kind, repo, items)
    {
      var existing := rows;
      var updated := rows;
      added := [];
      for n := 0 to |items|
        invariant updated == Applied(existing, kind, repo, items[..n]) && |updated| == |existing|
        invariant added == NewRows(existing, kind, repo, items[..n])
      {
        assert Front(items[..n + 1]) == items[..n];
        var item := items[n];
        var i := IndexOf(existing, AlertKey(kind, repo, item.number));
        if i == |existing| {
          added := added + [NewRow(kind, repo, item)];
          continue;
        }
        updated := updated[i := Reported(updated[i], item)];
      }
      assert items[..|items|] == items;
      ghost var applied := updated;
      for i := 0 to |existing|
        invariant |updated| == |existing| && |applied| == |existing|
        invariant forall j :: 0 <= j < i ==> updated[j] == ResolveIfGone(applied[j], kind, repo, items, now)
        invariant forall j :: i <= j < |existing| ==> updated[j] == applied[j]
      {
        var row := updated[i];
        if InScope(row, kind, repo) && row.key.number !in Numbers(items) && row.resolved.None? {
          updated := updated[i := row.(resolved := Some(now))];
        }
      }
      assert updated == WithGoneResolved(applied, kind, repo, items, now);
      SyncedKeys(existing, kind, repo, items, now);
      failed := exists i, j | 0 <= i < j < |added| :: added[i].key == added[j].key;
      if !failed {
        rows := updated + added;
      }
    }
  }

  // ------------------------------------------------------------------- what it means

  lemma {:induction false} NewRowsContents(rows: seq<AlertRow>, kind: string, repo: string, items: seq<Item>)
    ensures forall r :: r in NewRows(rows, kind, repo, items) ==>
      InScope(r, kind, repo) && r.resolved.None? && r.key.number in Numbers(items) && !Known(rows, r.key)
    ensures forall n :: n in Numbers(items) && !Known(rows, AlertKey(kind, repo, n)) ==>
      exists r :: r in NewRows(rows, kind, repo, items) && r.key == AlertKey(kind, repo, n)
  {
    if items != [] {
      var front, item := Front(items), Last(items);
      NewRowsContents(rows, kind, repo, front);
      assert items == front + [item];
      assert Numbers(items) == Numbers(front) + {item.number};
      if !Known(rows, AlertKey(kind, repo, item.number)) {
        assert NewRows(rows, kind, repo, items) == NewRows(rows, kind, repo, front) + [NewRow(kind, repo, item)];
        assert NewRow(kind, repo, item) in NewRows(rows, kind, repo, items);
      }
    }
  }

  ghost predicate RepeatsOnlyKnown(rows: seq<AlertRow>, kind: string, repo: string, items: seq<Item>) {
    forall i, j :: 0 <= i < j < |items| && items[i].number == items[j].number
      ==> Known(rows, AlertKey(kind, repo, items[i].number))
  }

  lemma RepeatsStep(rows: seq<AlertRow>, kind: string, repo: string, items: seq<Item>)
    requires items != []
    ensures RepeatsOnlyKnown(rows, kind, repo, items)
       <==> RepeatsOnlyKnown(rows, kind, repo, Front(items))
            && (Last(items).number in Numbers(Front(items)) ==> Known(rows, AlertKey(kind, repo, Last(items).number)))
  {
    var front, item := Front(items), Last(items);
    assert forall i :: 0 <= i < |front| ==> front[i] == items[i];
    if item.number in Numbers(front) {
      var x :| x in front && x.number == item.number;
      var i :| 0 <= i < |front| && front[i] == x;
      assert items[i].number == items[|front|].number;
    }
  }

  lemma UniqueAppend(rows: seq<AlertRow>, r: AlertRow)
    ensures UniqueKeys(rows + [r]) <==> UniqueKeys(rows) && forall x :: x in rows ==> x.key != r.key
  {
    var all := rows + [r];
    assert forall i :: 0 <= i < |rows| ==> all[i] == rows[i];
    if UniqueKeys(all) {
      forall x | x in rows ensures x.key != r.key {
        var i :| 0 <= i < |rows| && rows[i] == x;
        assert all[i].key != all[|rows|].key;
      }
    }
  }

  /** A sync can only fail, and then does fail, when an alert that is not yet known is listed twice. */
  lemma {:induction false} FailsExactlyOnRepeatedNewAlert(rows: seq<AlertRow>, kind: string, repo: string, items: seq<Item>)
    ensures UniqueKeys(NewRows(rows, kind, repo, items)) <==> RepeatsOnlyKnown(rows, kind, repo, items)
  {
    if items != [] {
      var front, item := Front(items), Last(items);
      var before, k := NewRows(rows, kind, repo, front), AlertKey(kind, repo, item.number);
      FailsExactlyOnRepeatedNewAlert(rows, kind, repo, front);
      RepeatsStep(rows, kind, repo, items);
      NewRowsContents(rows, kind, repo, front);
      if !Known(rows, k) {
        UniqueAppend(before, NewRow(kind, repo, item));
      }
    }
  }

  /** The last item with this number: its content is the one that stays. */
  function LastAbout(items: seq<Item>, n: int): Item
    requires n in Numbers(items)
  {
    if Last(items).number == n then Last(items)
    else
      assert items == Front(items) + [Last(items)];
      LastAbout(Front(items), n)
  }

  function AppliedRow(r: AlertRow, kind: string, repo: string, items: seq<Item>): AlertRow {
    if InScope(r, kind, repo) && r.key.number in Numbers(items)
    then Reported(r, LastAbout(items, r.key.number))
    else r
  }

  lemma {:induction false} AppliedRows(rows: seq<AlertRow>, kind: string, repo: string, items: seq<Item>)
    requires UniqueKeys(rows)
    ensures |Applied(rows, kind, repo, items)| == |rows|
    ensures forall i :: 0 <= i < |rows| ==>
      Applied(rows, kind, repo, items)[i] == AppliedRow(rows[i], kind, repo, items)
  {
    if items != [] {
      var front, item := Front(items), Last(items);
      AppliedRows(rows, kind, repo, front);
      assert items == front + [item];
      assert Numbers(items) == Numbers(front) + {item.number};
    }
  }

  lemma SyncedKeys(rows: seq<AlertRow>, kind: string, repo: string, items: seq<Item>, now: int)
    requires UniqueKeys(rows)
    ensures UniqueKeys(NewRows(rows, kind, repo, items)) ==> UniqueKeys(SyncedAlerts(rows, kind, repo, items, now))
  {
    AppliedRows(rows, kind, repo, items);
    NewRowsContents(rows, kind, repo, items);
    var added := NewRows(rows, kind, repo, items);
    forall i, j | 0 <= i < |rows| && 0 <= j < |added| ensures rows[i].key != added[j].key {
      assert added[j] in added;
    }
  }

  /** After a sync the open alerts of the repository and kind are exactly those reported, and the
    others are open exactly if they were (`SyncedRows` says that their rows are untouched). */
  lemma SyncedOpenSet(rows: seq<AlertRow>, kind: string, repo: string, items: seq<Item>, now: int, k: AlertKey)
    requires UniqueKeys(rows)
    ensures Open(SyncedAlerts(rows, kind, repo, items, now), k)
       <==> if k.kind == kind && k.repo == repo then k.number in Numbers(items) else Open(rows, k)
  {
    var applied, added := Applied(rows, kind, repo, items), NewRows(rows, kind, repo, items);
    var resolved := WithGoneResolved(applied, kind, repo, items, now);
    AppliedRows(rows, kind, repo, items);
    LookupInParts(resolved, added, k);
    SameKeysSameIndex(rows, resolved, k);
    if !Known(rows, k) {
      NewRowsContents(rows, kind, repo, items);
    }
  }

  lemma {:induction false} LookupInParts(a: seq<AlertRow>, b: seq<AlertRow>, k: AlertKey)
    ensures Lookup(a + b, k) == if Lookup(a, k).Some? then Lookup(a, k) else Lookup(b, k)
  {
    if a == [] {
      assert a + b == b;
    } else if a[0].key != k {
      LookupInParts(a[1..], b, k);
      assert (a + b)[1..] == a[1..] + b;
    }
  }

  lemma SameKeysSameIndex(rows: seq<AlertRow>, rows': seq<AlertRow>, k: AlertKey)
    requires UniqueKeys(rows) && |rows| == |rows'|
    requires forall i :: 0 <= i < |rows| ==> rows'[i].key == rows[i].key
    ensures IndexOf(rows', k) == IndexOf(rows, k)
  {
    var i, j := IndexOf(rows, k), IndexOf(rows', k);
    assert i < |rows| ==> rows'[i].key == k;
    assert j < |rows| ==> rows[j].key == k;
  }

  /** What a sync makes of a known row. */
  function SyncedRow(r: AlertRow, kind: string, repo: string, items: seq<Item>, now: int): AlertRow {
    ResolveIfGone(AppliedRow(r, kind, repo, items), kind, repo, items, now)
  }

  /** After a sync that does not fail a known row has the content of the last item about it and is
    open, or was open and is resolved now, or is as it was; rows of other kinds and repositories
    are as they were; the new rows follow, each with the content of the item about it. */
  lemma SyncedRows(rows: seq<AlertRow>, kind: string, repo: string, items: seq<Item>, now: int)
    requires UniqueKeys(rows) && RepeatsOnlyKnown(rows, kind, repo, items)
    ensures var after, added := SyncedAlerts(rows, kind, repo, items, now), NewRows(rows, kind, repo, items);
      && UniqueKeys(after) && |after| == |rows| + |added|
      && (forall i :: 0 <= i < |rows| ==> after[i] == SyncedRow(rows[i], kind, repo, items, now))
      && (forall i :: |rows| <= i < |after| ==> after[i] == added[i - |rows|])
      && (forall r :: r in added ==> IsNewRow(r, kind, repo, items))
  {
    AppliedRows(rows, kind, repo, items);
    FailsExactlyOnRepeatedNewAlert(rows, kind, repo, items);
    SyncedKeys(rows, kind, repo, items, now);
    NewRowsAreLast(rows, kind, repo, items);
  }

  /** The `n`-th item is the last with its number. */
  ghost predicate LastAt(items: seq<Item>, n: int) {
    0 <= n < |items| && forall m :: n < m < |items| ==> items[m].number != items[n].number
  }

  /** The row tells what the item does, and is open. */
  predicate Tells(r: AlertRow, item: Item) {
    && r.resolved == None && r.content.content.severity == item.content.severity
    && r.content.content.title == item.content.title && r.content.content.url == item.content.url
    && r.content.content.detail == item.content.detail
  }

  lemma {:induction false} LastAboutIs(items: seq<Item>, n: int)
    requires LastAt(items, n)
    ensures items[n].number in Numbers(items) && LastAbout(items, items[n].number) == items[n]
  {
    assert items[n] in items;
    if n < |items| - 1 {
      LastAboutIs(Front(items), n);
    }
  }

  /** After a sync that does not fail, the row of each reported alert tells what the last item about it
    does and has the detection time it had, or that of the item if it is new. */
  lemma ReportedRowsTell(rows: seq<AlertRow>, kind: string, repo: string, items: seq<Item>, now: int, n: int)
    requires UniqueKeys(rows) && RepeatsOnlyKnown(rows, kind, repo, items) && LastAt(items, n)
    ensures var k, after := AlertKey(kind, repo, items[n].number), SyncedAlerts(rows, kind, repo, items, now);
      && Lookup(after, k).Some? && Tells(Lookup(after, k).value, items[n])
      && Lookup(after, k).value.content.detectedAt
           == if Lookup(rows, k).Some? then Lookup(rows, k).value.content.detectedAt else items[n].detectedAt
  {
    var k, after := AlertKey(kind, repo, items[n].number), SyncedAlerts(rows, kind, repo, items, now);
    LastAboutIs(items, n);
    SyncedRows(rows, kind, repo, items, now);
    if Known(rows, k) {
      LookupIs(after, IndexOf(rows, k));
    } else {
      NewRowsContents(rows, kind, repo, items);
      var r :| r in NewRows(rows, kind, repo, items) && r.key == k;
      var i :| 0 <= i < |NewRows(rows, kind, repo, items)| && NewRows(rows, kind, repo, items)[i] == r;
      assert after[|rows| + i] == r;
      LookupIs(after, |rows| + i);
    }
  }

  /** And the row of any other alert is as it was, except that one of this kind and repository that was
    open is resolved now. */
  lemma OtherRowsStay(rows: seq<AlertRow>, kind: string, repo: string, items: seq<Item>, now: int, k: AlertKey)
    requires UniqueKeys(rows) && !(k.kind == kind && k.repo == repo && k.number in Numbers(items))
    ensures Lookup(SyncedAlerts(rows, kind, repo, items, now), k)
         == if k.kind == kind && k.repo == repo && Open(rows, k)
            then Some(Lookup(rows, k).value.(resolved := Some(now))) else Lookup(rows, k)
  {
    var applied, added := Applied(rows, kind, repo, items), NewRows(rows, kind, repo, items);
    var resolved := WithGoneResolved(applied, kind, repo, items, now);
    AppliedRows(rows, kind, repo, items);
    LookupInParts(resolved, added, k);
    SameKeysSameIndex(rows, resolved, k);
    NewRowsContents(rows, kind, repo, items);
  }

  predicate IsNewRow(r: AlertRow, kind: string, repo: string, items: seq<Item>) {
    r.key.number in Numbers(items) && r == NewRow(kind, repo, LastAbout(items, r.key.number))
  }

  lemma {:induction false} NewRowsAreLast(rows: seq<AlertRow>, kind: string, repo: string, items: seq<Item>)
    requires RepeatsOnlyKnown(rows, kind, repo, items)
    ensures forall r :: r in NewRows(rows, kind, repo, items) ==> IsNewRow(r, kind, repo, items)
  {
    if items != [] {
      var front, item := Front(items), Last(items);
      RepeatsStep(rows, kind, repo, items);
      NewRowsAreLast(rows, kind, repo, front);
      NewRowsContents(rows, kind, repo, front);
      assert items == front + [item];
      assert Numbers(items) == Numbers(front) + {item.number};
    }
  }

  /** A repeated sync, at any later time, adds and resolves nothing and leaves the table as it is. */
  lemma SyncIsIdempotent(rows: seq<AlertRow>, kind: string, repo: string, items: seq<Item>, now: int, later: int)
    requires UniqueKeys(rows) && RepeatsOnlyKnown(rows, kind, repo, items)
    ensures var after := SyncedAlerts(rows, kind, repo, items, now);
      && NewRows(after, kind, repo, items) == []
      && Reopened(after, kind, repo, items) == {} && ResolvedNow(after, kind, repo, items) == {}
      && SyncedAlerts(after, kind, repo, items, later) == after
  {
    var after := SyncedAlerts(rows, kind, repo, items, now);
    SyncedRows(rows, kind, repo, items, now);
    forall r | r in after ensures SyncedRow(r, kind, repo, items, later) == r {
      var i :| 0 <= i < |after| && after[i] == r;
      SettledRow(if i < |rows| then rows[i] else r, kind, repo, items, now, later);
    }
    AllReportedKnown(rows, kind, repo, items, now);
    NothingNew(after, kind, repo, items);
    AppliedRows(after, kind, repo, items);
    NothingLeftToDo(after, kind, repo, items, later);
    forall i | 0 <= i < |after|
      ensures WithGoneResolved(Applied(after, kind, repo, items), kind, repo, items, later)[i] == after[i]
    {
      assert after[i] in after;
    }
    assert WithGoneResolved(Applied(after, kind, repo, items), kind, repo, items, later) == after;
  }

  /** A row after a sync, or a new row, is left alone by the next. */
  lemma SettledRow(r: AlertRow, kind: string, repo: string, items: seq<Item>, now: int, later: int)
    ensures var s := SyncedRow(r, kind, repo, items, now); SyncedRow(s, kind, repo, items, later) == s
    ensures IsNewRow(r, kind, repo, items) ==> SyncedRow(r, kind, repo, items, later) == r
  {
  }

  lemma NothingLeftToDo(rows: seq<AlertRow>, kind: string, repo: string, items: seq<Item>, now: int)
    requires forall r :: r in rows ==> SyncedRow(r, kind, repo, items, now) == r
    ensures Reopened(rows, kind, repo, items) == {} && ResolvedNow(rows, kind, repo, items) == {}
  {
    forall r | r in rows && InScope(r, kind, repo)
      ensures r.resolved.Some? ==> r.key.number !in Numbers(items)
      ensures r.resolved.None? ==> r.key.number in Numbers(items)
    {
      assert SyncedRow(r, kind, repo, items, now) == r;
    }
  }

  lemma AllReportedKnown(rows: seq<AlertRow>, kind: string, repo: string, items: seq<Item>, now: int)
    requires UniqueKeys(rows)
    ensures forall i :: i in items ==> Known(SyncedAlerts(rows, kind, repo, items, now), AlertKey(kind, repo, i.number))
  {
    forall i | i in items ensures Known(SyncedAlerts(rows, kind, repo, items, now), AlertKey(kind, repo, i.number)) {
      SyncedOpenSet(rows, kind, repo, items, now, AlertKey(kind, repo, i.number));
    }
  }

  lemma {:induction false} NothingNew(rows: seq<AlertRow>, kind: string, repo: string, items: seq<Item>)
    requires forall i :: i in items ==> Known(rows, AlertKey(kind, repo, i.number))
    ensures NewRows(rows, kind, repo, items) == []
  {
    if items != [] {
      assert forall i :: i in Front(items) ==> i in items;
      NothingNew(rows, kind, repo, Front(items));
      assert Last(items) in items;
    }
  }

  // ---------------------------------------------------------------- counting

  function OpenInScope(rows: seq<AlertRow>, kind: string, repo: string): set<int> {
    set r | r in rows && InScope(r, kind, repo) && r.resolved.None? :: r.key.number
  }

  /** Reported alerts that were known and resolved before the sync. */
  function Reopened(rows: seq<AlertRow>, kind: string, repo: string, items: seq<Item>): set<int> {
    set r | r in rows && InScope(r, kind, repo) && r.resolved.Some? && r.key.number in Numbers(items) :: r.key.number
  }

  function ResolvedNow(rows: seq<AlertRow>, kind: string, repo: string, items: seq<Item>): set<int> {
    OpenInScope(rows, kind, repo) - Numbers(items)
  }

  /** What the job adds to its `deleted` counter. */
  function ReportedResolved(rows: seq<AlertRow>, kind: string, repo: string, items: seq<Item>): int {
    Max(0, |OpenInScope(rows, kind, repo)| + |NewRows(rows, kind, repo, items)| - |items|)
  }

  ghost predicate DistinctNumbers(items: seq<Item>) {
    forall i, j :: 0 <= i < j < |items| ==> items[i].number != items[j].number
  }

  lemma {:induction false} DistinctNumbersCount(items: seq<Item>)
    requires DistinctNumbers(items)
    ensures |Numbers(items)| == |items|
  {
    if items != [] {
      DistinctNumbersCount(Front(items));
      assert items == Front(items) + [Last(items)];
      assert Numbers(items) == Numbers(Front(items)) + {Last(items).number};
      assert Last(items).number !in Numbers(Front(items));
    }
  }

  function KnownNumbers(rows: seq<AlertRow>, kind: string, repo: string): set<int> {
    set r | r in rows && InScope(r, kind, repo) :: r.key.number
  }

  lemma {:induction false} NewRowsCount(rows: seq<AlertRow>, kind: string, repo: string, items: seq<Item>)
    requires RepeatsOnlyKnown(rows, kind, repo, items)
    ensures |NewRows(rows, kind, repo, items)| == |Numbers(items) - KnownNumbers(rows, kind, repo)|
  {
    if items != [] {
      var front, item := Front(items), Last(items);
      RepeatsStep(rows, kind, repo, items);
      NewRowsCount(rows, kind, repo, front);
      NumbersStep(items);
      KnownExactly(rows, kind, repo, item.number);
      OneMore(Numbers(front), KnownNumbers(rows, kind, repo), item.number);
    }
  }

  lemma NumbersStep(items: seq<Item>)
    requires items != []
    ensures Numbers(items) == Numbers(Front(items)) + {Last(items).number}
  {
    assert items == Front(items) + [Last(items)];
  }

  lemma OneMore(numbers: set<int>, known: set<int>, n: int)
    requires n in numbers ==> n in known
    ensures |numbers + {n} - known| == |numbers - known| + if n in known then 0 else 1
  {
    if n in known {
      assert numbers + {n} - known == numbers - known;
    } else {
      assert numbers + {n} - known == (numbers - known) + {n};
    }
  }

  lemma KnownExactly(rows: seq<AlertRow>, kind: string, repo: string, n: int)
    ensures Known(rows, AlertKey(kind, repo, n)) <==> n in KnownNumbers(rows, kind, repo)
  {
  }

  lemma OpenExactly(rows: seq<AlertRow>, kind: string, repo: string, n: int)
    requires UniqueKeys(rows)
    ensures Open(rows, AlertKey(kind, repo, n)) <==> n in OpenInScope(rows, kind, repo)
  {
    var k := AlertKey(kind, repo, n);
    if n in OpenInScope(rows, kind, repo) {
      var r :| r in rows && InScope(r, kind, repo) && r.resolved.None? && r.key.number == n;
      var i :| 0 <= i < |rows| && rows[i] == r;
      assert r.key == k && IndexOf(rows, k) == i;
    }
  }

  /** Open alerts are conserved: new and reopened ones come, resolved ones go. */
  lemma SyncConservesOpen(rows: seq<AlertRow>, kind: string, repo: string, items: seq<Item>, now: int)
    requires UniqueKeys(rows) && RepeatsOnlyKnown(rows, kind, repo, items)
    ensures |OpenInScope(SyncedAlerts(rows, kind, repo, items, now), kind, repo)|
         == |OpenInScope(rows, kind, repo)| + |NewRows(rows, kind, repo, items)|
            + |Reopened(rows, kind, repo, items)| - |ResolvedNow(rows, kind, repo, items)|
  {
    var after := SyncedAlerts(rows, kind, repo, items, now);
    SyncedRows(rows, kind, repo, items, now);
    forall n ensures n in OpenInScope(after, kind, repo) <==> n in Numbers(items) {
      SyncedOpenSet(rows, kind, repo, items, now, AlertKey(kind, repo, n));
      OpenExactly(after, kind, repo, n);
    }
    assert OpenInScope(after, kind, repo) == Numbers(items);
    NewRowsCount(rows, kind, repo, items);
    ReportedSplit(rows, kind, repo, items);
    CountSplit(Numbers(items), KnownNumbers(rows, kind, repo), OpenInScope(rows, kind, repo),
               Reopened(rows, kind, repo, items));
  }

  /** The counter of the job is too small by the number of alerts that were reopened. */
  lemma ReportedResolvedIsShortByReopened(rows: seq<AlertRow>, kind: string, repo: string, items: seq<Item>)
    requires UniqueKeys(rows) && DistinctNumbers(items)
    ensures ReportedResolved(rows, kind, repo, items)
         == Max(0, |ResolvedNow(rows, kind, repo, items)| - |Reopened(rows, kind, repo, items)|)
  {
    DistinctNumbersCount(items);
    NewRowsCount(rows, kind, repo, items);
    ReportedSplit(rows, kind, repo, items);
    CountSplit(Numbers(items), KnownNumbers(rows, kind, repo), OpenInScope(rows, kind, repo),
               Reopened(rows, kind, repo, items));
  }

  /** A reported alert is new, was open, or is reopened. */
  lemma ReportedSplit(rows: seq<AlertRow>, kind: string, repo: string, items: seq<Item>)
    requires UniqueKeys(rows)
    ensures OpenInScope(rows, kind, repo) !! Reopened(rows, kind, repo, items)
    ensures Numbers(items) * KnownNumbers(rows, kind, repo)
         == OpenInScope(rows, kind, repo) * Numbers(items) + Reopened(rows, kind, repo, items)
  {
    forall n | n in OpenInScope(rows, kind, repo) ensures n !in Reopened(rows, kind, repo, items) {
      var r :| r in rows && InScope(r, kind, repo) && r.resolved.None? && r.key.number == n;
      forall x | x in rows && InScope(x, kind, repo) && x.key.number == n ensures x == r {
        assert x.key == r.key;
      }
    }
  }

  lemma CountSplit(numbers: set<int>, known: set<int>, open: set<int>, reopened: set<int>)
    requires open !! reopened && numbers * known == open * numbers + reopened
    ensures |open| + |numbers - known| - |numbers| == |open - numbers| - |reopened|
  {
    assert numbers == (numbers - known) + numbers * known;
    assert open == (open - numbers) + open * numbers;
    assert (open * numbers) !! reopened;
    assert |numbers * known| == |open * numbers| + |reopened|;
  }

  /** So it is right exactly when no alert was reopened or none was resolved. */
  lemma ReportedResolvedIsRightExactly(rows: seq<AlertRow>, kind: string, repo: string, items: seq<Item>)
    requires UniqueKeys(rows) && DistinctNumbers(items)
    ensures ReportedResolved(rows, kind, repo, items) == |ResolvedNow(rows, kind, repo, items)|
       <==> Reopened(rows, kind, repo, items) == {} || ResolvedNow(rows, kind, repo, items) == {}
  {
    ReportedResolvedIsShortByReopened(rows, kind, repo, items);
  }
}
