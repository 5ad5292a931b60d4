/** What syncing a table of findings with the records of a scan means: insert or update each record
  once, then resolve open findings that the scan no longer reports. CODESCAN and DEPSCAN share this
  shape and differ in the key, in what an update of an open finding refreshes, and in which
  findings the resolving step spares. */
module FindingTable {
  import opened Prelude

  datatype Row<K, C> = Row(key: K, content: C, resolved: Option<int>)

  datatype Record<K, C> = Record(key: K, content: C)

  ghost predicate UniqueKeys<K, C>(rows: seq<Row<K, C>>) {
    forall i, j :: 0 <= i < j < |rows| ==> rows[i].key != rows[j].key
  }

  /** The index of the row with a key, or the number of rows. */
  function IndexOf<K(==), C>(rows: seq<Row<K, C>>, k: K): (i: nat)
    ensures i <= |rows|
    ensures i < |rows| ==> rows[i].key == k
    ensures i == |rows| ==> forall j :: 0 <= j < |rows| ==> rows[j].key != k
  {
    if rows == [] || rows[0].key == k then 0 else 1 + IndexOf(rows[1..], k)
  }

  function Lookup<K(==), C>(rows: seq<Row<K, C>>, k: K): Option<Row<K, C>> {
    var i := IndexOf(rows, k);
    if i < |rows| then Some(rows[i]) else None
  }

  predicate Open<K(==), C>(rows: seq<Row<K, C>>, k: K) {
    var r := Lookup(rows, k);
    r.Some? && r.value.resolved.None?
  }

  function RecordKeys<K(==), C>(records: seq<Record<K, C>>): set<K> {
    set i | 0 <= i < |records| :: records[i].key
  }

  /** The first record with a key. */
  function FirstFor<K(==), C>(records: seq<Record<K, C>>, k: K): Option<C> {
    if records == [] then None
    else
      var before := FirstFor(Front(records), k);
      if before.None? && Last(records).key == k then Some(Last(records).content) else before
  }

  lemma RecordKeysAppend<K, C>(records: seq<Record<K, C>>, n: nat)
    requires n < |records|
    ensures RecordKeys(records[..n + 1]) == RecordKeys(records[..n]) + {records[n].key}
  {
    var part := records[..n + 1];
    forall k ensures k in RecordKeys(part) <==> k in RecordKeys(records[..n]) + {records[n].key} {
      if k in RecordKeys(records[..n]) {
        var i :| 0 <= i < n && records[..n][i].key == k;
        assert part[i].key == k;
      }
      assert part[n].key == records[n].key;
    }
  }

  // ------------------------------------------------------------------ operations

  function UpsertOne<K(==), C>(rows: seq<Row<K, C>>, rec: Record<K, C>, refresh: (C, C) -> C): seq<Row<K, C>> {
    var i := IndexOf(rows, rec.key);
    if i == |rows| then rows + [Row(rec.key, rec.content, None)]
    else if rows[i].resolved.Some? then rows[i := Row(rec.key, rec.content, None)]
    else rows[i := rows[i].(content := refresh(rows[i].content, rec.content))]
  }

  /** Each key once: later records with a key already seen are skipped. */
  function Upserted<K(==), C>(rows: seq<Row<K, C>>, records: seq<Record<K, C>>, refresh: (C, C) -> C): seq<Row<K, C>> {
    if records == [] then rows
    else
      var before := Upserted(rows, Front(records), refresh);
      if Last(records).key in RecordKeys(Front(records)) then before else UpsertOne(before, Last(records), refresh)
  }

  /** The first records of keys that the table does not have. */
  function NewRecords<K(==), C>(rows: seq<Row<K, C>>, records: seq<Record<K, C>>): seq<Record<K, C>> {
    if records == [] then []
    else
      var before, rec := NewRecords(rows, Front(records)), Last(records);
      if rec.key !in RecordKeys(Front(records)) && Lookup(rows, rec.key).None? then before + [rec] else before
  }

  predicate Stale<K(==), C>(r: Row<K, C>, current: set<K>, spared: Row<K, C> -> bool) {
    r.resolved.None? && !spared(r) && r.key !in current
  }

  function ResolveRow<K(==), C>(r: Row<K, C>, current: set<K>, spared: Row<K, C> -> bool, now: int): Row<K, C> {
    if Stale(r, current, spared) then r.(resolved := Some(now)) else r
  }

  function ResolveStale<K(==), C>(
      rows: seq<Row<K, C>>, current: set<K>, spared: Row<K, C> -> bool, now: int): seq<Row<K, C>> {
    if rows == [] then []
    else ResolveStale(Front(rows), current, spared, now) + [ResolveRow(Last(rows), current, spared, now)]
  }

  function StaleCount<K(==), C>(rows: seq<Row<K, C>>, current: set<K>, spared: Row<K, C> -> bool): nat {
    if rows == [] then 0
    else StaleCount(Front(rows), current, spared) + (if Stale(Last(rows), current, spared) then 1 else 0)
  }

  function Synced<K(==), C>(rows: seq<Row<K, C>>, records: seq<Record<K, C>>, refresh: (C, C) -> C,
                            spared: Row<K, C> -> bool, now: int): seq<Row<K, C>> {
    ResolveStale(Upserted(rows, records, refresh), RecordKeys(records), spared, now)
  }

  // ------------------------------------------------- what a sync does to each key

  /** The row of a key after its record was applied. */
  function UpsertedRow<K, C>(r: Option<Row<K, C>>, k: K, content: C, refresh: (C, C) -> C): Row<K, C> {
    if r.Some? && r.value.resolved.None? then r.value.(content := refresh(r.value.content, content))
    else Row(k, content, None)
  }

  lemma LookupIs<K, C>(rows: seq<Row<K, C>>, i: nat)
    requires UniqueKeys(rows) && i < |rows|
    ensures Lookup(rows, rows[i].key) == Some(rows[i])
  {
  }

  lemma UpsertOneRow<K, C>(rows: seq<Row<K, C>>, rec: Record<K, C>, refresh: (C, C) -> C, k: K)
    requires UniqueKeys(rows)
    ensures UniqueKeys(UpsertOne(rows, rec, refresh))
    ensures Lookup(UpsertOne(rows, rec, refresh), k)
         == if k == rec.key then Some(UpsertedRow(Lookup(rows, k), k, rec.content, refresh)) else Lookup(rows, k)
  {
    var i, j := IndexOf(rows, rec.key), IndexOf(rows, k);
    var after := UpsertOne(rows, rec, refresh);
    if k == rec.key {
      LookupIs(after, i);
    } else if j < |rows| {
      LookupIs(after, j);
    }
  }

  lemma {:induction false} FirstForKey<K, C>(records: seq<Record<K, C>>, k: K)
    ensures FirstFor(records, k).Some? <==> k in RecordKeys(records)
  {
    if records != [] {
      FirstForKey(Front(records), k);
      assert records == Front(records) + [Last(records)];
    }
  }

  lemma {:induction false} UpsertedRows<K, C>(rows: seq<Row<K, C>>, records: seq<Record<K, C>>, refresh: (C, C) -> C, k: K)
    requires UniqueKeys(rows)
    ensures UniqueKeys(Upserted(rows, records, refresh))
    ensures var first := FirstFor(records, k);
      Lookup(Upserted(rows, records, refresh), k)
        == if first.None? then Lookup(rows, k) else Some(UpsertedRow(Lookup(rows, k), k, first.value, refresh))
  {
    if records != [] {
      var front, rec := Front(records), Last(records);
      UpsertedRows(rows, front, refresh, k);
      FirstForKey(front, k);
      if rec.key !in RecordKeys(front) {
        UpsertOneRow(Upserted(rows, front, refresh), rec, refresh, k);
      }
    }
  }

  lemma {:induction false} ResolveStaleAt<K, C>(rows: seq<Row<K, C>>, current: set<K>, spared: Row<K, C> -> bool, now: int)
    ensures var after := ResolveStale(rows, current, spared, now);
      |after| == |rows| && forall i :: 0 <= i < |rows| ==> after[i] == ResolveRow(rows[i], current, spared, now)
  {
    if rows != [] {
      ResolveStaleAt(Front(rows), current, spared, now);
    }
  }

  lemma ResolveStaleKeys<K, C>(rows: seq<Row<K, C>>, current: set<K>, spared: Row<K, C> -> bool, now: int)
    requires UniqueKeys(rows)
    ensures UniqueKeys(ResolveStale(rows, current, spared, now))
  {
    ResolveStaleAt(rows, current, spared, now);
  }

  lemma ResolveStaleRow<K, C>(rows: seq<Row<K, C>>, current: set<K>, spared: Row<K, C> -> bool, now: int, k: K)
    requires UniqueKeys(rows)
    ensures UniqueKeys(ResolveStale(rows, current, spared, now))
    ensures Lookup(ResolveStale(rows, current, spared, now), k)
         == var r := Lookup(rows, k); if r.None? then None else Some(ResolveRow(r.value, current, spared, now))
  {
    var after := ResolveStale(rows, current, spared, now);
    ResolveStaleAt(rows, current, spared, now);
    var i := IndexOf(rows, k);
    if i < |rows| {
      LookupIs(after, i);
    }
  }

  /** After a sync a key is open exactly when it is in the new records, or was open and spared; its
    row is otherwise untouched unless the sync resolved it; and keys stay unique. */
  lemma SyncedOpenSet<K, C>(rows: seq<Row<K, C>>, records: seq<Record<K, C>>, refresh: (C, C) -> C,
                            spared: Row<K, C> -> bool, now: int, k: K)
    requires UniqueKeys(rows)
    ensures var after := Synced(rows, records, refresh, spared, now);
      && UniqueKeys(after)
      && (Open(after, k) <==> k in RecordKeys(records) || (Open(rows, k) && spared(Lookup(rows, k).value)))
      && (k in RecordKeys(records) || (Open(rows, k) && !spared(Lookup(rows, k).value))
          || Lookup(after, k) == Lookup(rows, k))
      && (k !in RecordKeys(records) && Open(rows, k) && !spared(Lookup(rows, k).value)
          ==> Lookup(after, k) == Some(Lookup(rows, k).value.(resolved := Some(now))))
  {
    FirstForKey(records, k);
    UpsertedRows(rows, records, refresh, k);
    ResolveStaleRow(Upserted(rows, records, refresh), RecordKeys(records), spared, now, k);
  }

  /** The `n`-th record is the first with its key. */
  ghost predicate FirstAt<K, C>(records: seq<Record<K, C>>, n: int) {
    0 <= n < |records| && forall m :: 0 <= m < n ==> records[m].key != records[n].key
  }

  lemma {:induction false} FirstForIs<K, C>(records: seq<Record<K, C>>, n: nat)
    requires FirstAt(records, n)
    ensures FirstFor(records, records[n].key) == Some(records[n].content)
  {
    if n < |records| - 1 {
      FirstForIs(Front(records), n);
    } else {
      FirstForKey(Front(records), records[n].key);
    }
  }

  /** The row of a reported key is open, and its content is that of the first record with the key,
    refreshed if the key was open before. */
  lemma SyncedRowOfRecord<K, C>(rows: seq<Row<K, C>>, records: seq<Record<K, C>>, refresh: (C, C) -> C,
                                spared: Row<K, C> -> bool, now: int, n: nat)
    requires UniqueKeys(rows) && FirstAt(records, n)
    ensures var k, scanned := records[n].key, records[n].content;
      Lookup(Synced(rows, records, refresh, spared, now), k)
        == Some(Row(k, if Open(rows, k) then refresh(Lookup(rows, k).value.content, scanned) else scanned, None))
  {
    var k := records[n].key;
    FirstForIs(records, n);
    FirstForKey(records, k);
    UpsertedRows(rows, records, refresh, k);
    ResolveStaleRow(Upserted(rows, records, refresh), RecordKeys(records), spared, now, k);
  }

  /** The new records are exactly the first ones of keys without a row, each key once. */
  lemma {:induction false} NewRecordsExactly<K, C>(rows: seq<Row<K, C>>, records: seq<Record<K, C>>)
    ensures forall rec :: rec in NewRecords(rows, records) <==>
      FirstFor(records, rec.key) == Some(rec.content) && Lookup(rows, rec.key).None?
  {
    if records != [] {
      NewRecordsExactly(rows, Front(records));
      FirstForKey(Front(records), Last(records).key);
    }
  }

  lemma {:induction false} NewRecordsUnique<K, C>(rows: seq<Row<K, C>>, records: seq<Record<K, C>>)
    ensures UniqueRecords(NewRecords(rows, records))
    ensures forall i :: 0 <= i < |NewRecords(rows, records)| ==> NewRecords(rows, records)[i].key in RecordKeys(records)
  {
    if records != [] {
      NewRecordsUnique(rows, Front(records));
      RecordKeysAppend(records, |records| - 1);
      assert records[..|records|] == records;
    }
  }

  ghost predicate UniqueRecords<K, C>(records: seq<Record<K, C>>) {
    forall i, j :: 0 <= i < j < |records| ==> records[i].key != records[j].key
  }

  // ----------------------------------------------------------- conservation

  function OpenCount<K, C>(rows: seq<Row<K, C>>): nat {
    if rows == [] then 0 else OpenCount(Front(rows)) + (if Last(rows).resolved.None? then 1 else 0)
  }

  /** How many records bring back a resolved finding. */
  function ReopenedCount<K(==), C>(rows: seq<Row<K, C>>, records: seq<Record<K, C>>): nat {
    if records == [] then 0
    else
      var rec := Last(records);
      ReopenedCount(rows, Front(records))
      + (if rec.key !in RecordKeys(Front(records)) && Lookup(rows, rec.key).Some? && !Open(rows, rec.key) then 1 else 0)
  }

  lemma {:induction false} OpenCountUpdate<K, C>(rows: seq<Row<K, C>>, i: nat, r: Row<K, C>)
    requires i < |rows|
    ensures OpenCount(rows[i := r])
         == OpenCount(rows) - (if rows[i].resolved.None? then 1 else 0) + (if r.resolved.None? then 1 else 0)
  {
    if i < |rows| - 1 {
      OpenCountUpdate(Front(rows), i, r);
      assert Front(rows[i := r]) == Front(rows)[i := r];
    } else {
      assert Front(rows[i := r]) == Front(rows);
    }
  }

  lemma {:induction false} UpsertedOpenCount<K, C>(rows: seq<Row<K, C>>, records: seq<Record<K, C>>, refresh: (C, C) -> C)
    requires UniqueKeys(rows)
    ensures OpenCount(Upserted(rows, records, refresh))
         == OpenCount(rows) + |NewRecords(rows, records)| + ReopenedCount(rows, records)
  {
    if records != [] {
      var front, rec := Front(records), Last(records);
      UpsertedOpenCount(rows, front, refresh);
      if rec.key !in RecordKeys(front) {
        var before := Upserted(rows, front, refresh);
        FirstForKey(front, rec.key);
        UpsertedRows(rows, front, refresh, rec.key);
        var i := IndexOf(before, rec.key);
        if i < |before| {
          OpenCountUpdate(before, i, UpsertOne(before, rec, refresh)[i]);
        } else {
          assert Front(before + [Row(rec.key, rec.content, None)]) == before;
        }
      }
    }
  }

  lemma {:induction false} ResolvedOpenCount<K, C>(rows: seq<Row<K, C>>, current: set<K>, spared: Row<K, C> -> bool, now: int)
    ensures OpenCount(ResolveStale(rows, current, spared, now)) == OpenCount(rows) - StaleCount(rows, current, spared)
    ensures StaleCount(rows, current, spared) <= OpenCount(rows)
  {
    if rows != [] {
      ResolvedOpenCount(Front(rows), current, spared, now);
      var before := ResolveStale(Front(rows), current, spared, now);
      assert Front(before + [ResolveRow(Last(rows), current, spared, now)]) == before;
    }
  }

  /** Open findings are conserved: inserted and reopened ones come, resolved ones go. */
  lemma SyncConservesOpen<K, C>(rows: seq<Row<K, C>>, records: seq<Record<K, C>>, refresh: (C, C) -> C,
                                spared: Row<K, C> -> bool, now: int)
    requires UniqueKeys(rows)
    ensures OpenCount(Synced(rows, records, refresh, spared, now))
         == OpenCount(rows) + |NewRecords(rows, records)| + ReopenedCount(rows, records)
            - StaleCount(Upserted(rows, records, refresh), RecordKeys(records), spared)
  {
    UpsertedOpenCount(rows, records, refresh);
    ResolvedOpenCount(Upserted(rows, records, refresh), RecordKeys(records), spared, now);
  }

  // ------------------------------------------------------------- repetition

  /** Applying a record again to what it already refreshed changes nothing. */
  ghost predicate Settles<C(!new)>(refresh: (C, C) -> C) {
    && (forall c :: refresh(c, c) == c)
    && (forall c, d :: refresh(refresh(c, d), d) == refresh(c, d))
  }

  lemma {:induction false} UpsertSettled<K, C>(rows: seq<Row<K, C>>, records: seq<Record<K, C>>, refresh: (C, C) -> C)
    requires UniqueKeys(rows)
    requires forall k :: k in RecordKeys(records) ==>
      var r, first := Lookup(rows, k), FirstFor(records, k);
      r.Some? && r.value.resolved.None? && first.Some? && refresh(r.value.content, first.value) == r.value.content
    ensures Upserted(rows, records, refresh) == rows && NewRecords(rows, records) == []
    ensures ReopenedCount(rows, records) == 0
  {
    if records != [] {
      var front, rec := Front(records), Last(records);
      assert records == front + [rec];
      forall k | k in RecordKeys(front) ensures FirstFor(front, k) == FirstFor(records, k) {
        FirstForKey(front, k);
      }
      UpsertSettled(rows, front, refresh);
      FirstForKey(front, rec.key);
      assert rec.key in RecordKeys(records);
    }
  }

  /** Repeating a sync, at any later time, inserts, reopens and resolves nothing and leaves the
    table as it is. */
  lemma SyncIsIdempotent<K, C(!new)>(rows: seq<Row<K, C>>, records: seq<Record<K, C>>, refresh: (C, C) -> C,
                                     spared: Row<K, C> -> bool, now: int, later: int)
    requires UniqueKeys(rows) && Settles(refresh)
    ensures var after := Synced(rows, records, refresh, spared, now);
      && Synced(after, records, refresh, spared, later) == after
      && NewRecords(after, records) == [] && ReopenedCount(after, records) == 0
      && StaleCount(after, RecordKeys(records), spared) == 0
  {
    var after := Synced(rows, records, refresh, spared, now);
    var current := RecordKeys(records);
    forall k | k in current
      ensures var r, first := Lookup(after, k), FirstFor(records, k);
        r.Some? && r.value.resolved.None? && first.Some? && refresh(r.value.content, first.value) == r.value.content
    {
      FirstForKey(records, k);
      UpsertedRows(rows, records, refresh, k);
      ResolveStaleRow(Upserted(rows, records, refresh), current, spared, now, k);
    }
    SyncedUnique(rows, records, refresh, spared, now);
    UpsertSettled(after, records, refresh);
    ResolveStaleAt(Upserted(rows, records, refresh), current, spared, now);
    NothingStale(after, current, spared, later);
  }

  lemma SyncedUnique<K, C>(rows: seq<Row<K, C>>, records: seq<Record<K, C>>, refresh: (C, C) -> C,
                           spared: Row<K, C> -> bool, now: int)
    requires UniqueKeys(rows)
    ensures UniqueKeys(Synced(rows, records, refresh, spared, now))
  {
    var after := Synced(rows, records, refresh, spared, now);
    if after != [] {
      SyncedOpenSet(rows, records, refresh, spared, now, after[0].key);
    }
  }

  ghost predicate NoneStale<K, C>(rows: seq<Row<K, C>>, current: set<K>, spared: Row<K, C> -> bool) {
    forall i :: 0 <= i < |rows| ==> !Stale(rows[i], current, spared)
  }

  lemma NothingStale<K, C>(rows: seq<Row<K, C>>, current: set<K>, spared: Row<K, C> -> bool, now: int)
    requires NoneStale(rows, current, spared)
    ensures ResolveStale(rows, current, spared, now) == rows && StaleCount(rows, current, spared) == 0
  {
    ResolveStaleAt(rows, current, spared, now);
    NoneStaleNoneCounted(rows, current, spared);
  }

  lemma {:induction false} NoneStaleNoneCounted<K, C>(rows: seq<Row<K, C>>, current: set<K>, spared: Row<K, C> -> bool)
    requires NoneStale(rows, current, spared)
    ensures StaleCount(rows, current, spared) == 0
  {
    if rows != [] {
      assert NoneStale(Front(rows), current, spared);
      NoneStaleNoneCounted(Front(rows), current, spared);
    }
  }
}
