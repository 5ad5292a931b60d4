/** Recording a run in the pull request log, and finding the pull requests that were resolved
  elsewhere (app/depsops/pr_log_repository.py).

  The session does not flush before queries (app/core/database.py), so while `Record` runs, its
  lookups see the rows that were committed before; the rows it adds get their ids at the commit. */
module PrLogRepository {
  import opened Prelude
  import opened Ordering
  import opened PrLog
  import opened PrLogRetention

  datatype Item = Item(
    key: PrKey, title: string, reason: Option<string>, security: Option<bool>, badge: Option<string>)

  /** The item does not repeat the latest committed row of its pull request. */
  predicate Novel(committed: seq<Row>, item: Item) {
    var latest := Latest(committed, item.key);
    !(latest.Some? && latest.value.action.Flagged?
      && latest.value.reason == item.reason && latest.value.security == item.security)
  }

  function MergedRow(item: Item, id: nat, at: int): Row {
    Row(id, item.key, item.title, Merged, None, item.security, item.badge, at)
  }

  function FlaggedRow(item: Item, id: nat, at: int): Row {
    Row(id, item.key, item.title, Flagged, item.reason, item.security, item.badge, at)
  }

  function MergedRows(merged: seq<Item>, id: nat, at: int): seq<Row> {
    if merged == [] then []
    else MergedRows(Front(merged), id, at) + [MergedRow(Last(merged), id + |merged| - 1, at)]
  }

  function FlaggedRows(items: seq<Item>, id: nat, at: int): seq<Row> {
    if items == [] then []
    else FlaggedRows(Front(items), id, at) + [FlaggedRow(Last(items), id + |items| - 1, at)]
  }

  function NovelItems(committed: seq<Row>, flagged: seq<Item>): seq<Item> {
    if flagged == [] then []
    else NovelItems(committed, Front(flagged)) + (if Novel(committed, Last(flagged)) then [Last(flagged)] else [])
  }

  ghost function Keys(items: seq<Item>): set<PrKey> {
    set i | i in items :: i.key
  }

  /** The row `id` with the newest title, badge and judging time. */
  function Touch(rows: seq<Row>, id: nat, item: Item, at: int): seq<Row> {
    if rows == [] then []
    else
      [if rows[0].id == id then rows[0].(title := item.title, badge := item.badge, at := at) else rows[0]]
      + Touch(rows[1..], id, item, at)
  }

  function Touched(rows: seq<Row>, flagged: seq<Item>, at: int): seq<Row> {
    if flagged == [] then rows
    else
      var before, item := Touched(rows, Front(flagged), at), Last(flagged);
      if Novel(rows, item) then before else Touch(before, Latest(rows, item.key).value.id, item, at)
  }

  function WithoutPrs(rows: seq<Row>, resolved: seq<Item>): seq<Row> {
    if resolved == [] then rows
    else
      var before := WithoutPrs(rows, Front(resolved));
      Without(before, KeyIds(before, Last(resolved).key))
  }

  function Pending(
      rows: seq<Row>, nextId: nat, merged: seq<Item>, flagged: seq<Item>, at: int): seq<Row> {
    MergedRows(merged, nextId, at) + FlaggedRows(NovelItems(rows, flagged), nextId + |merged|, at)
  }

  function Recorded(rows: seq<Row>, nextId: nat, merged: seq<Item>, flagged: seq<Item>, at: int,
                    resolved: seq<Item>): seq<Row> {
    WithoutPrs(Touched(rows, flagged, at), resolved) + Pending(rows, nextId, merged, flagged, at)
  }

  // ----------------------------------------------- what is stored about each item

  /** The row `id` tells of the merge. */
  ghost predicate TellsMerged(rows: seq<Row>, id: nat, item: Item, at: int) {
    exists r :: r in rows && r.id == id && r.key == item.key && r.title == item.title && r.action == Merged
      && r.reason == None && r.security == item.security && r.badge == item.badge && r.at == at
  }

  /** Some row, judged at `at`, is flagged as the item says. */
  ghost predicate TellsFlagged(rows: seq<Row>, item: Item, at: int) {
    exists r :: r in rows && r.key == item.key && r.action == Flagged
      && r.reason == item.reason && r.security == item.security && r.at == at
  }

  /** Such a row has the title and the badge of the item as well. */
  ghost predicate TellsAll(rows: seq<Row>, item: Item, at: int) {
    exists r :: r in rows && r.key == item.key && r.action == Flagged && r.title == item.title
      && r.reason == item.reason && r.security == item.security && r.badge == item.badge && r.at == at
  }

  /** The latest committed row of the pull request is flagged with this reason and security. */
  ghost predicate SaidBefore(committed: seq<Row>, item: Item) {
    exists l :: Latest(committed, item.key) == Some(l)
      && l.action == Flagged && l.reason == item.reason && l.security == item.security
  }

  /** No later item of the list says the same of this pull request. */
  ghost predicate LastToSay(flagged: seq<Item>, n: nat)
    requires n < |flagged|
  {
    forall m :: n < m < |flagged| ==>
      !(flagged[m].key == flagged[n].key && flagged[m].reason == flagged[n].reason
        && flagged[m].security == flagged[n].security)
  }

  /** Every merge is told by a new row, in order; every flagged item by some row; by one of its own
    if it says something new, and with its title and badge if no later item says the same. Flagged
    pull requests that are resolved as well may lose rows that were there before. */
  ghost predicate TellsBatch(
    committed: seq<Row>, nextId: nat, after: seq<Row>, merged: seq<Item>, flagged: seq<Item>, at: int,
    resolved: seq<Item>)
  {
    && (forall n :: 0 <= n < |merged| ==> TellsMerged(after, nextId + n, merged[n], at))
    && (forall i :: i in flagged && !SaidBefore(committed, i) ==> TellsAll(after, i, at))
    && (forall i :: i in flagged && i.key !in Keys(resolved) ==> TellsFlagged(after, i, at))
    && (forall n :: 0 <= n < |flagged| && flagged[n].key !in Keys(resolved) && LastToSay(flagged, n)
          ==> TellsAll(after, flagged[n], at))
  }

  lemma NovelIsNotSaidBefore(committed: seq<Row>, item: Item)
    ensures Novel(committed, item) <==> !SaidBefore(committed, item)
  {
  }

  lemma {:induction false} MergedRowsTell(merged: seq<Item>, id: nat, at: int, n: nat)
    requires n < |merged|
    ensures TellsMerged(MergedRows(merged, id, at), id + n, merged[n], at)
  {
    var front, last := MergedRows(Front(merged), id, at), MergedRow(Last(merged), id + |merged| - 1, at);
    assert MergedRows(merged, id, at) == front + [last];
    if n < |merged| - 1 {
      MergedRowsTell(Front(merged), id, at, n);
    } else {
      assert last in front + [last];
    }
  }

  lemma {:induction false} FlaggedRowsTell(items: seq<Item>, id: nat, at: int, item: Item)
    requires item in items
    ensures TellsAll(FlaggedRows(items, id, at), item, at)
  {
    var front, last := FlaggedRows(Front(items), id, at), FlaggedRow(Last(items), id + |items| - 1, at);
    assert FlaggedRows(items, id, at) == front + [last] && items == Front(items) + [Last(items)];
    if item == Last(items) {
      assert last in front + [last];
    } else {
      FlaggedRowsTell(Front(items), id, at, item);
    }
  }

  /** The row that the last item with these words refreshed has its title and badge. */
  lemma {:induction false} LastRefreshStays(rows: seq<Row>, flagged: seq<Item>, at: int, n: nat) returns (i: nat)
    requires UniqueIds(rows) && n < |flagged| && SaidBefore(rows, flagged[n]) && LastToSay(flagged, n)
    ensures i < |rows| && |Touched(rows, flagged, at)| == |rows| && Some(rows[i]) == Latest(rows, flagged[n].key)
    ensures Touched(rows, flagged, at)[i] == rows[i].(title := flagged[n].title, badge := flagged[n].badge, at := at)
  {
    var front, last := Front(flagged), Last(flagged);
    var before, l := Touched(rows, front, at), Latest(rows, flagged[n].key).value;
    i :| 0 <= i < |rows| && rows[i] == l;
    TouchedIsTouchedFrom(rows, front, at);
    if n < |front| {
      i := LastRefreshStays(rows, front, at, n);
      if SaidBefore(rows, last) {
        var other := Latest(rows, last.key).value;
        TouchAt(before, other.id, last, at);
        assert last.key != flagged[n].key;
        DifferentRows(rows, l, other);
      }
    } else {
      TouchAt(before, l.id, last, at);
    }
  }

  lemma DifferentRows(rows: seq<Row>, r: Row, s: Row)
    requires UniqueIds(rows) && r in rows && s in rows && r.key != s.key
    ensures r.id != s.id
  {
    if r.id == s.id {
      SameIdSameRow(rows, r, s);
    }
  }

  /** What `Record` stores tells of the whole batch. */
  lemma RecordedTellsBatch(
      rows: seq<Row>, nextId: nat, merged: seq<Item>, flagged: seq<Item>, at: int, resolved: seq<Item>)
    requires IdsBelow(rows, nextId)
    ensures TellsBatch(rows, nextId, Recorded(rows, nextId, merged, flagged, at, resolved), merged, flagged, at, resolved)
  {
    var after := Recorded(rows, nextId, merged, flagged, at, resolved);
    forall n | 0 <= n < |merged| ensures TellsMerged(after, nextId + n, merged[n], at) {
      MergedRowsTell(merged, nextId, at, n);
    }
    forall i | i in flagged && !SaidBefore(rows, i) ensures TellsAll(after, i, at) {
      NovelItemsContents(rows, flagged);
      FlaggedRowsTell(NovelItems(rows, flagged), nextId + |merged|, at, i);
    }
    forall n | 0 <= n < |flagged| && flagged[n].key !in Keys(resolved) && LastToSay(flagged, n)
      ensures TellsAll(after, flagged[n], at)
    {
      if SaidBefore(rows, flagged[n]) {
        RefreshedTells(rows, flagged, at, resolved, n);
      }
    }
    forall i | i in flagged && i.key !in Keys(resolved) ensures TellsFlagged(after, i, at) {
      var n := LastToSaySo(flagged, i);
    }
  }

  lemma RefreshedTells(rows: seq<Row>, flagged: seq<Item>, at: int, resolved: seq<Item>, n: nat)
    requires UniqueIds(rows) && n < |flagged| && SaidBefore(rows, flagged[n]) && LastToSay(flagged, n)
    requires flagged[n].key !in Keys(resolved)
    ensures TellsAll(WithoutPrs(Touched(rows, flagged, at), resolved), flagged[n], at)
  {
    var touched := Touched(rows, flagged, at);
    var i := LastRefreshStays(rows, flagged, at, n);
    TouchedIsTouchedFrom(rows, flagged, at);
    TouchedKeepsUnique(rows, touched, at);
    WithoutPrsContents(touched, resolved);
    assert touched[i] in touched;
  }

  lemma TouchedKeepsUnique(rows: seq<Row>, touched: seq<Row>, at: int)
    requires UniqueIds(rows) && TouchedFrom(rows, touched, at)
    ensures UniqueIds(touched)
  {
    forall i, j | 0 <= i < j < |touched| ensures touched[i].id != touched[j].id {
      assert rows[i].id != rows[j].id;
    }
  }

  /** The last item that says what `i` says. */
  lemma {:induction false} LastToSaySo(flagged: seq<Item>, i: Item) returns (n: nat)
    requires i in flagged
    ensures n < |flagged| && LastToSay(flagged, n)
    ensures flagged[n].key == i.key && flagged[n].reason == i.reason && flagged[n].security == i.security
  {
    var last := Last(flagged);
    if last.key == i.key && last.reason == i.reason && last.security == i.security {
      n := |flagged| - 1;
    } else {
      assert flagged == Front(flagged) + [last];
      n := LastToSaySo(Front(flagged), i);
    }
  }

  method Record(log: PrLogTable, merged: seq<Item>, flagged: seq<Item>, at: int, resolved: seq<Item>)
    requires log.Valid()
    modifies log
    ensures log.Valid()
    ensures log.rows == Recorded(old(log.rows), old(log.nextId), merged, flagged, at, resolved)
    ensures log.nextId == old(log.nextId) + |Pending(old(log.rows), old(log.nextId), merged, flagged, at)|
    ensures TellsBatch(old(log.rows), old(log.nextId), log.rows, merged, flagged, at, resolved)
  {
    ghost var committed := log.rows;
    var mergedRows := AddMerged(merged, at, log.nextId);
    var flaggedRows := RecordFlagged(log, flagged, at, log.nextId + |merged|);
    DeletePrs(log, resolved);
    var pending := mergedRows + flaggedRows;
    log.rows := log.rows + pending;
    log.nextId := log.nextId + |pending|;
    assert pending == Pending(committed, old(log.nextId), merged, flagged, at);
    assert log.rows == Recorded(committed, old(log.nextId), merged, flagged, at, resolved);
    RecordedIds(committed, old(log.nextId), merged, flagged, at, resolved);
    RecordedTellsBatch(committed, old(log.nextId), merged, flagged, at, resolved);
  }

  method AddMerged(merged: seq<Item>, at: int, firstId: nat) returns (pending: seq<Row>)
    ensures pending == MergedRows(merged, firstId, at)
  {
    pending := [];
    for i := 0 to |merged|
      invariant |pending| == i && pending == MergedRows(merged[..i], firstId, at)
    {
      assert Front(merged[..i + 1]) == merged[..i];
      pending := pending + [MergedRow(merged[i], firstId + |pending|, at)];
    }
    assert merged[..|merged|] == merged;
  }

  /** A flagged pull request that repeats its latest committed row refreshes that row; any other
    gets a new row. */
  method RecordFlagged(log: PrLogTable, flagged: seq<Item>, at: int, firstId: nat) returns (pending: seq<Row>)
    modifies log`rows
    ensures log.rows == Touched(old(log.rows), flagged, at)
    ensures pending == FlaggedRows(NovelItems(old(log.rows), flagged), firstId, at)
  {
    var committed := log.rows;
    pending := [];
    ghost var novel: seq<Item> := [];
    for i := 0 to |flagged|
      invariant log.rows == Touched(committed, flagged[..i], at)
      invariant novel == NovelItems(committed, flagged[..i])
      invariant |pending| == |novel| && pending == FlaggedRows(novel, firstId, at)
    {
      assert Front(flagged[..i + 1]) == flagged[..i];
      var item := flagged[i];
      var latest := Latest(committed, item.key);
      if latest.Some? && latest.value.action.Flagged?
         && latest.value.reason == item.reason && latest.value.security == item.security {
        log.rows := Touch(log.rows, latest.value.id, item, at);
      } else {
        assert Front(novel + [item]) == novel;
        pending := pending + [FlaggedRow(item, firstId + |pending|, at)];
        novel := novel + [item];
      }
    }
    assert flagged[..|flagged|] == flagged;
  }

  method DeletePrs(log: PrLogTable, resolved: seq<Item>)
    modifies log`rows
    ensures log.rows == WithoutPrs(old(log.rows), resolved)
  {
    for i := 0 to |resolved|
      invariant log.rows == WithoutPrs(old(log.rows), resolved[..i])
    {
      assert Front(resolved[..i + 1]) == resolved[..i];
      log.rows := Without(log.rows, KeyIds(log.rows, resolved[i].key));
    }
    assert resolved[..|resolved|] == resolved;
  }

  function ResolvedItem(row: Row): Item {
    Item(row.key, row.title, Some("resolved outside DEPSOPS"), row.security, row.badge)
  }

  /** The items name exactly the pull requests of `repo` that the log has as unresolved and that
    are not open, each once, with what their latest rows say. */
  ghost predicate ResolvedElsewhere(rows: seq<Row>, repo: string, open: set<int>, found: seq<Item>) {
    && (forall k :: k in Keys(found) <==> k.repo == repo && k.number !in open && Unresolved(rows, k))
    && (forall i :: i in found ==> Latest(rows, i.key).Some? && i == ResolvedItem(Latest(rows, i.key).value))
    && (forall i, j :: 0 <= i < j < |found| ==> found[i].key != found[j].key)
  }

  method FindResolvedFlagged(log: PrLogTable, repo: string, open: set<int>) returns (found: seq<Item>)
    requires log.Valid()
    ensures ResolvedElsewhere(log.rows, repo, open, found)
  {
    var ofRepo := OfRepo(log.rows, repo);
    OfRepoContents(log.rows, repo);
    var latest, keys := LatestByPr(ofRepo);
    found := [];
    for n := 0 to |keys|
      invariant Keys(found) == StillFlagged(keys[..n], latest, open)
      invariant forall i :: i in found ==> i.key in latest && i == ResolvedItem(latest[i.key])
      invariant forall i, j :: 0 <= i < j < |found| ==> found[i].key != found[j].key
    {
      var k := keys[n];
      assert k !in keys[..n] && keys[..n + 1] == keys[..n] + [k];
      if latest[k].action.Flagged? && k.number !in open {
        assert latest[k].key == k;
        assert k !in Keys(found);
        assert forall i :: 0 <= i < |found| ==> found[i].key in Keys(found);
        KeysAppend(found, ResolvedItem(latest[k]));
        found := found + [ResolvedItem(latest[k])];
      }
    }
    assert keys[..|keys|] == keys;
    forall k {
      LatestOfRepo(log.rows, repo, k);
    }
  }

  ghost function StillFlagged(keys: seq<PrKey>, latest: map<PrKey, Row>, open: set<int>): set<PrKey> {
    set k | k in keys && k in latest && latest[k].action.Flagged? && k.number !in open
  }

  lemma KeysAppend(items: seq<Item>, item: Item)
    ensures Keys(items + [item]) == Keys(items) + {item.key}
  {
    assert forall i :: i in items + [item] <==> i in items || i == item;
  }

  function OfRepo(rows: seq<Row>, repo: string): seq<Row> {
    if rows == [] then []
    else (if rows[0].key.repo == repo then [rows[0]] else []) + OfRepo(rows[1..], repo)
  }

  lemma {:induction false} OfRepoContents(rows: seq<Row>, repo: string)
    ensures forall r :: r in OfRepo(rows, repo) <==> r in rows && r.key.repo == repo
    ensures UniqueIds(rows) ==> UniqueIds(OfRepo(rows, repo))
  {
    if rows != [] {
      var tail := rows[1..];
      OfRepoContents(tail, repo);
      assert rows == [rows[0]] + tail;
      if UniqueIds(rows) {
        assert forall x :: x in tail ==> x.id != rows[0].id;
      }
    }
  }

  lemma LatestOfRepo(rows: seq<Row>, repo: string, k: PrKey)
    requires UniqueIds(rows)
    ensures Latest(OfRepo(rows, repo), k) == if k.repo == repo then Latest(rows, k) else None
  {
    OfRepoContents(rows, repo);
    LatestIsLatest(rows, k);
    if k.repo == repo && Latest(rows, k).Some? {
      LatestUnique(OfRepo(rows, repo), k, Latest(rows, k).value);
    } else {
      NoRowNoLatest(OfRepo(rows, repo), k);
    }
  }

  // --------------------------------------------------- the parts of a recorded table

  /** `t` is `rows` with some latest rows touched at time `at`. */
  ghost predicate TouchedFrom(rows: seq<Row>, t: seq<Row>, at: int) {
    && |t| == |rows|
    && forall i :: 0 <= i < |rows| ==>
         && t[i] == rows[i].(title := t[i].title, badge := t[i].badge, at := t[i].at)
         && (t[i] == rows[i] || (t[i].at == at && Latest(rows, rows[i].key) == Some(rows[i])))
  }

  lemma {:induction false} TouchAt(rows: seq<Row>, id: nat, item: Item, at: int)
    ensures |Touch(rows, id, item, at)| == |rows|
    ensures forall i :: 0 <= i < |rows| && rows[i].id != id ==> Touch(rows, id, item, at)[i] == rows[i]
    ensures forall i :: 0 <= i < |rows| && rows[i].id == id ==>
      Touch(rows, id, item, at)[i] == rows[i].(title := item.title, badge := item.badge, at := at)
  {
    if rows != [] {
      TouchAt(rows[1..], id, item, at);
    }
  }

  lemma {:induction false} TouchedIsTouchedFrom(rows: seq<Row>, flagged: seq<Item>, at: int)
    requires UniqueIds(rows)
    ensures TouchedFrom(rows, Touched(rows, flagged, at), at)
  {
    if flagged != [] {
      var before, item := Touched(rows, Front(flagged), at), Last(flagged);
      TouchedIsTouchedFrom(rows, Front(flagged), at);
      if !Novel(rows, item) {
        var latest := Latest(rows, item.key).value;
        TouchAt(before, latest.id, item, at);
        forall i | 0 <= i < |rows| && rows[i].id == latest.id ensures rows[i] == latest {
          SameIdSameRow(rows, rows[i], latest);
        }
      }
    }
  }

  lemma {:induction false} WithoutPrsContents(rows: seq<Row>, resolved: seq<Item>)
    requires UniqueIds(rows)
    ensures UniqueIds(WithoutPrs(rows, resolved))
    ensures forall r :: r in WithoutPrs(rows, resolved) <==> r in rows && r.key !in Keys(resolved)
  {
    if resolved != [] {
      var before, item := WithoutPrs(rows, Front(resolved)), Last(resolved);
      WithoutPrsContents(rows, Front(resolved));
      WithoutContents(before, KeyIds(before, item.key));
      assert resolved == Front(resolved) + [item];
      KeysAppend(Front(resolved), item);
      forall r | r in before ensures r.id in KeyIds(before, item.key) <==> r.key == item.key {
        if r.id in KeyIds(before, item.key) {
          var x :| x in before && x.key == item.key && x.id == r.id;
          SameIdSameRow(before, x, r);
        }
      }
    }
  }

  /** Rows added at `at`, with ids from `id` up in order. */
  ghost predicate AddedFrom(rows: seq<Row>, id: nat, at: int) {
    forall i :: 0 <= i < |rows| ==> rows[i].at == at && rows[i].id == id + i
  }

  lemma {:induction false} MergedRowsContents(merged: seq<Item>, id: nat, at: int)
    ensures |MergedRows(merged, id, at)| == |merged| && AddedFrom(MergedRows(merged, id, at), id, at)
    ensures forall n :: 0 <= n < |merged| ==>
      MergedRows(merged, id, at)[n].key == merged[n].key && MergedRows(merged, id, at)[n].action.Merged?
  {
    if merged != [] {
      MergedRowsContents(Front(merged), id, at);
    }
  }

  lemma {:induction false} FlaggedRowsContents(items: seq<Item>, id: nat, at: int)
    ensures |FlaggedRows(items, id, at)| == |items|
    ensures forall n :: 0 <= n < |items| ==> FlaggedRows(items, id, at)[n] == FlaggedRow(items[n], id + n, at)
  {
    if items != [] {
      FlaggedRowsContents(Front(items), id, at);
    }
  }

  lemma {:induction false} NovelItemsContents(committed: seq<Row>, flagged: seq<Item>)
    ensures forall i :: i in NovelItems(committed, flagged) <==> i in flagged && Novel(committed, i)
  {
    if flagged != [] {
      NovelItemsContents(committed, Front(flagged));
      assert flagged == Front(flagged) + [Last(flagged)];
    }
  }

  lemma RecordedIds(rows: seq<Row>, nextId: nat, merged: seq<Item>, flagged: seq<Item>, at: int,
                    resolved: seq<Item>)
    requires IdsBelow(rows, nextId)
    ensures IdsBelow(Recorded(rows, nextId, merged, flagged, at, resolved),
                     nextId + |Pending(rows, nextId, merged, flagged, at)|)
  {
    var touched := Touched(rows, flagged, at);
    var live := WithoutPrs(touched, resolved);
    TouchedIsTouchedFrom(rows, flagged, at);
    WithoutPrsContents(touched, resolved);
    forall r | r in live ensures r.id < nextId {
      var i :| 0 <= i < |touched| && touched[i] == r;
      assert rows[i] in rows;
    }
    PendingIds(rows, nextId, merged, flagged, at);
  }

  lemma PendingIds(rows: seq<Row>, nextId: nat, merged: seq<Item>, flagged: seq<Item>, at: int)
    ensures AddedFrom(Pending(rows, nextId, merged, flagged, at), nextId, at)
  {
    MergedRowsContents(merged, nextId, at);
    FlaggedRowsContents(NovelItems(rows, flagged), nextId + |merged|, at);
  }

  /** What is found resolved tells of the newest row of its pull request, which is flagged. */
  lemma FoundTells(rows: seq<Row>, repo: string, open: set<int>, found: seq<Item>, i: Item)
    requires UniqueIds(rows) && ResolvedElsewhere(rows, repo, open, found) && i in found
    ensures exists r :: r in rows && NewestOfPr(rows, r) && TellsFound(i, r)
  {
    LatestIsLatest(rows, i.key);
    var r := Latest(rows, i.key).value;
    assert i.key in Keys(found);
    assert NewestOfPr(rows, r) && TellsFound(i, r);
  }

  predicate TellsFound(i: Item, r: Row) {
    r.action == Flagged && i.key == r.key && i.title == r.title && i.security == r.security && i.badge == r.badge
  }
}
