/** The maintenance passes over the pull request log (app/depsops/pr_log_retention.py): each pass,
  the row set it deletes, and what it does to the unresolved view. */
module PrLogRetention {
  import opened Prelude
  import opened Ordering
  import opened PrLog

  const DELETE_CHUNK: nat := 500

  // ------------------------------------------------------ what each pass deletes

  /** `s` is the row right after `r` in the history of their pull request, and repeats it. */
  ghost predicate Repeats(rows: seq<Row>, r: Row, s: Row) {
    && s in rows && s.key == r.key && Later(s, r) && SameFinding(r, s)
    && forall x :: x in rows && x.key == r.key && Later(x, r) ==> x == s || Later(x, s)
  }

  ghost predicate Superseded(rows: seq<Row>, r: Row) {
    exists s :: Repeats(rows, r, s)
  }

  ghost function SupersededIds(rows: seq<Row>): set<nat> {
    set r | r in rows && Superseded(rows, r) :: r.id
  }

  ghost predicate LatestClosed(rows: seq<Row>, k: PrKey) {
    Latest(rows, k).Some? && Latest(rows, k).value.action.Closed?
  }

  ghost function ClosedIds(rows: seq<Row>): set<nat> {
    set r | r in rows && LatestClosed(rows, r.key) :: r.id
  }

  function ExpiredIds(rows: seq<Row>, cutoff: int): set<nat> {
    set r | r in rows && r.at < cutoff :: r.id
  }

  function KeyIds(rows: seq<Row>, k: PrKey): set<nat> {
    set r | r in rows && r.key == k :: r.id
  }

  ghost function Purged(rows: seq<Row>): seq<Row> {
    Without(rows, ClosedIds(rows))
  }

  ghost function Collapsed(rows: seq<Row>): seq<Row> {
    Without(rows, SupersededIds(rows))
  }

  ghost function Unexpired(rows: seq<Row>, cutoff: int): seq<Row> {
    Without(rows, ExpiredIds(rows, cutoff))
  }

  ghost function Cleaned(rows: seq<Row>, cutoff: int): seq<Row> {
    Unexpired(Collapsed(Purged(rows)), cutoff)
  }

  // -------------------------------------------------------------------- the table

  /** The table with the operations of `PrLogRetention`; PrLogRepository adds the recording. */
  class PrLogTable {
    var rows: seq<Row>
    var nextId: nat

    ghost predicate Valid()
      reads this
    {
      IdsBelow(rows, nextId)
    }

    constructor ()
      ensures Valid() && rows == []
    {
      rows, nextId := [], 1;
    }

    method DeleteExpired(cutoff: int) returns (deleted: nat)
      requires Valid()
      modifies this`rows
      ensures Valid() && rows == Unexpired(old(rows), cutoff)
      ensures deleted == |old(rows)| - |rows|
    {
      WithoutContents(rows, ExpiredIds(rows, cutoff));
      WithoutLength(rows, ExpiredIds(rows, cutoff));
      var before := |rows|;
      rows := Without(rows, ExpiredIds(rows, cutoff));
      deleted := before - |rows|;
    }

    method PurgeLegacyClosed() returns (deleted: nat)
      requires Valid()
      modifies this`rows
      ensures Valid() && rows == Purged(old(rows))
      ensures deleted == |old(rows)| - |rows|
    {
      var latest, keys := LatestByPr(rows);
      ghost var gone: set<nat> := {};
      var before := |rows|;
      deleted := 0;
      WithoutNothing(rows, {});
      for i := 0 to |keys|
        invariant rows == Without(old(rows), gone) && deleted == before - |rows|
        invariant GoneWith(old(rows), gone, ClosedAmong(keys[..i], latest))
      {
        PurgeStep(old(rows), gone, keys, latest, i);
        var k := keys[i];
        if latest[k].action.Closed? {
          var size := |rows|;
          WithoutLength(rows, KeyIds(rows, k));
          gone := gone + KeyIds(old(rows), k);
          rows := Without(rows, KeyIds(rows, k));
          deleted := deleted + (size - |rows|);
        }
      }
      PurgeDone(old(rows), gone, keys, latest);
    }

    method CollapseDuplicateFlagged() returns (deleted: nat)
      requires Valid()
      modifies this`rows
      ensures Valid() && rows == Collapsed(old(rows))
      ensures deleted == |old(rows)| - |rows|
    {
      var ordered := Sort(HistoryOrder, rows);
      var deleteIds: seq<nat> := [];
      var previous: Option<Row> := None;
      for i := 0 to |ordered|
        invariant previous == if i == 0 then None else Some(ordered[i - 1])
        invariant deleteIds == RepeatedIds(ordered, i)
      {
        var row := ordered[i];
        if previous.Some? && previous.value.key == row.key && SameFinding(previous.value, row) {
          deleteIds := deleteIds + [previous.value.id];
        }
        previous := Some(row);
      }
      RepeatedIdsAreSuperseded(rows);
      WithoutContents(rows, SupersededIds(rows));
      WithoutLength(rows, SupersededIds(rows));
      DeleteInChunks(deleteIds);
      deleted := |deleteIds|;
    }

    /** Deletes the listed rows, `DELETE_CHUNK` ids a statement. */
    method DeleteInChunks(ids: seq<nat>)
      modifies this`rows
      ensures rows == Without(old(rows), IdSet(ids))
    {
      WithoutNothing(rows, {});
      assert IdSet(ids[..0]) == {};
      var start := 0;
      while start < |ids|
        invariant rows == Without(old(rows), IdSet(ids[..Min(start, |ids|)]))
        invariant start >= 0
      {
        ChunkDeleted(old(rows), ids, start);
        rows := Without(rows, IdSet(ids[start..Min(start + DELETE_CHUNK, |ids|)]));
        start := start + DELETE_CHUNK;
      }
      assert ids[..|ids|] == ids;
    }

    /** `now` is the clock and `retention` the configured period. */
    method Cleanup(now: int, retention: int)
      requires Valid()
      modifies this`rows
      ensures Valid() && rows == Cleaned(old(rows), now - retention)
    {
      var purged := PurgeLegacyClosed();
      var collapsed := CollapseDuplicateFlagged();
      var expired := DeleteExpired(now - retention);
    }
  }

  /** The first row of each pull request in newest-first order (a dictionary and its keys). */
  method LatestByPr(rows: seq<Row>) returns (latest: map<PrKey, Row>, keys: seq<PrKey>)
    requires UniqueIds(rows)
    ensures Distinct(keys) && (forall k :: k in keys <==> k in latest)
    ensures forall k :: k in latest <==> Latest(rows, k).Some?
    ensures forall k :: k in latest ==> latest[k] == Latest(rows, k).value
  {
    var ordered := Sort(NewestFirst, rows);
    NewestFirstIsOrder();
    SortSorts(NewestFirst, rows);
    SortContents(NewestFirst, rows);
    latest, keys := map[], [];
    for i := 0 to |ordered|
      invariant Distinct(keys) && (forall k :: k in keys <==> k in latest)
      invariant forall j :: 0 <= j < i ==> ordered[j].key in latest
      invariant forall k :: k in latest ==> IsLatest(rows, k, latest[k])
    {
      var row := ordered[i];
      if row.key !in latest {
        FirstIsLatest(rows, ordered, i);
        latest := latest[row.key := row];
        keys := keys + [row.key];
      }
    }
    forall k ensures k in latest <==> Latest(rows, k).Some? {
      SomeLatestExactly(rows, k);
    }
    forall k | k in latest ensures latest[k] == Latest(rows, k).value {
      LatestUnique(rows, k, latest[k]);
    }
  }

  lemma SomeLatestExactly(rows: seq<Row>, k: PrKey)
    requires UniqueIds(rows)
    ensures Latest(rows, k).Some? <==> exists r :: r in rows && r.key == k
  {
    LatestIsLatest(rows, k);
  }

  lemma FirstIsLatest(rows: seq<Row>, ordered: seq<Row>, i: nat)
    requires UniqueIds(rows) && i < |ordered| && SortedBy(NewestFirst, ordered)
    requires forall r :: r in ordered <==> r in rows
    requires forall j :: 0 <= j < i ==> ordered[j].key != ordered[i].key
    ensures IsLatest(rows, ordered[i].key, ordered[i])
  {
    forall x | x in rows && x.key == ordered[i].key && x != ordered[i] ensures Later(ordered[i], x) {
      var j :| 0 <= j < |ordered| && ordered[j] == x;
      assert !NewestFirst(ordered[j], ordered[i]);
      if x.id == ordered[i].id {
        SameIdSameRow(rows, x, ordered[i]);
      }
    }
  }

  lemma {:induction false} SameDeletions(rows: seq<Row>, a: set<nat>, b: set<nat>)
    requires forall r :: r in rows ==> (r.id in a <==> r.id in b)
    ensures Without(rows, a) == Without(rows, b)
  {
    if rows != [] {
      SameDeletions(rows[1..], a, b);
    }
  }

  function ClosedAmong(keys: seq<PrKey>, latest: map<PrKey, Row>): set<PrKey> {
    set k | k in keys && k in latest && latest[k].action.Closed?
  }

  /** Among the ids of `rows`, `gone` holds those of the pull requests `keys`. */
  ghost predicate GoneWith(rows: seq<Row>, gone: set<nat>, keys: set<PrKey>) {
    forall r :: r in rows ==> (r.id in gone <==> r.key in keys)
  }

  lemma ExtendGone(rows: seq<Row>, gone: set<nat>, keys: set<PrKey>, k: PrKey)
    requires UniqueIds(rows) && GoneWith(rows, gone, keys)
    ensures GoneWith(rows, gone + KeyIds(rows, k), keys + {k})
  {
    forall r | r in rows && r.id in KeyIds(rows, k) ensures r.key == k {
      var x :| x in rows && x.key == k && x.id == r.id;
      SameIdSameRow(rows, x, r);
    }
  }

  lemma DeletePr(rows: seq<Row>, gone: set<nat>, k: PrKey)
    requires UniqueIds(rows)
    ensures var left := Without(rows, gone);
      UniqueIds(left) && Without(left, KeyIds(left, k)) == Without(rows, gone + KeyIds(rows, k))
  {
    var left := Without(rows, gone);
    WithoutContents(rows, gone);
    WithoutTwice(rows, gone, KeyIds(left, k));
    forall r | r in rows ensures r.id in gone + KeyIds(left, k) <==> r.id in gone + KeyIds(rows, k) {
      if r.id in KeyIds(rows, k) && r.id !in gone {
        var x :| x in rows && x.key == k && x.id == r.id;
        assert x in left;
      }
    }
    SameDeletions(rows, gone + KeyIds(left, k), gone + KeyIds(rows, k));
  }

  lemma PurgeStep(rows: seq<Row>, gone: set<nat>, keys: seq<PrKey>, latest: map<PrKey, Row>, i: nat)
    requires UniqueIds(rows) && i < |keys| && keys[i] in latest
    requires GoneWith(rows, gone, ClosedAmong(keys[..i], latest))
    ensures var k, left := keys[i], Without(rows, gone);
      && UniqueIds(left)
      && (if latest[k].action.Closed? then
            && Without(left, KeyIds(left, k)) == Without(rows, gone + KeyIds(rows, k))
            && GoneWith(rows, gone + KeyIds(rows, k), ClosedAmong(keys[..i + 1], latest))
          else
            GoneWith(rows, gone, ClosedAmong(keys[..i + 1], latest)))
  {
    var k := keys[i];
    assert keys[..i + 1] == keys[..i] + [k];
    WithoutContents(rows, gone);
    if latest[k].action.Closed? {
      DeletePr(rows, gone, k);
      ExtendGone(rows, gone, ClosedAmong(keys[..i], latest), k);
      assert ClosedAmong(keys[..i + 1], latest) == ClosedAmong(keys[..i], latest) + {k};
    } else {
      assert ClosedAmong(keys[..i + 1], latest) == ClosedAmong(keys[..i], latest);
    }
  }

  lemma PurgeDone(rows: seq<Row>, gone: set<nat>, keys: seq<PrKey>, latest: map<PrKey, Row>)
    requires UniqueIds(rows) && GoneWith(rows, gone, ClosedAmong(keys[..|keys|], latest))
    requires forall k :: k in keys <==> k in latest
    requires forall k :: k in latest <==> Latest(rows, k).Some?
    requires forall k :: k in latest ==> latest[k] == Latest(rows, k).value
    ensures Without(rows, gone) == Purged(rows) && UniqueIds(Purged(rows))
    ensures forall r :: r in Purged(rows) ==> r in rows
  {
    assert keys[..|keys|] == keys;
    forall r | r in rows ensures r.id in gone <==> r.id in ClosedIds(rows) {
      if r.id in ClosedIds(rows) {
        var x :| x in rows && LatestClosed(rows, x.key) && x.id == r.id;
        SameIdSameRow(rows, x, r);
      }
    }
    SameDeletions(rows, gone, ClosedIds(rows));
    WithoutContents(rows, gone);
  }

  lemma ChunkDeleted(rows: seq<Row>, ids: seq<nat>, start: nat)
    requires start < |ids|
    ensures var end := Min(start + DELETE_CHUNK, |ids|);
      Without(Without(rows, IdSet(ids[..start])), IdSet(ids[start..end])) == Without(rows, IdSet(ids[..end]))
  {
    var end := Min(start + DELETE_CHUNK, |ids|);
    WithoutTwice(rows, IdSet(ids[..start]), IdSet(ids[start..end]));
    IdSetOfConcat(ids[..start], ids[start..end]);
    assert ids[..start] + ids[start..end] == ids[..end];
  }

  function IdSet(ids: seq<nat>): set<nat> {
    set id | id in ids
  }

  lemma IdSetOfConcat(a: seq<nat>, b: seq<nat>)
    ensures IdSet(a + b) == IdSet(a) + IdSet(b)
  {
  }

  /** The ids collected in the first `n` steps of the collapse loop. */
  ghost function RepeatedIds(ordered: seq<Row>, n: nat): seq<nat>
    requires n <= |ordered|
  {
    if n < 2 then []
    else
      var found := RepeatedIds(ordered, n - 1);
      var a, b := ordered[n - 2], ordered[n - 1];
      if a.key == b.key && SameFinding(a, b) then found + [a.id] else found
  }

  lemma OrderedFacts(rows: seq<Row>)
    requires UniqueIds(rows)
    ensures var ordered := Sort(HistoryOrder, rows);
      && SortedBy(HistoryOrder, ordered) && UniqueIds(ordered) && |ordered| == |rows|
      && forall r :: r in ordered <==> r in rows
  {
    var ordered := Sort(HistoryOrder, rows);
    HistoryOrderIsOrder();
    SortSorts(HistoryOrder, rows);
    SortContents(HistoryOrder, rows);
    assert Distinct(rows);
    SortKeepsDistinct(HistoryOrder, rows);
    forall i, j | 0 <= i < j < |ordered| ensures ordered[i].id != ordered[j].id {
      assert ordered[i] in rows && ordered[j] in rows;
      if ordered[i].id == ordered[j].id {
        SameIdSameRow(rows, ordered[i], ordered[j]);
      }
    }
  }

  /** In history order, rows of one pull request stand together, oldest first. */
  lemma OrderWithinPr(ordered: seq<Row>, i: nat, j: nat)
    requires SortedBy(HistoryOrder, ordered) && UniqueIds(ordered) && i < j < |ordered|
    requires ordered[i].key == ordered[j].key
    ensures Later(ordered[j], ordered[i])
    ensures forall m :: i <= m <= j ==> ordered[m].key == ordered[i].key
  {
    assert !HistoryOrder(ordered[j], ordered[i]);
    forall m | i < m < j ensures ordered[m].key == ordered[i].key {
      assert !HistoryOrder(ordered[m], ordered[i]) && !HistoryOrder(ordered[j], ordered[m]);
      StringLessTotal(ordered[m].key.repo, ordered[i].key.repo);
    }
  }

  predicate RepeatedAt(ordered: seq<Row>, j: nat)
    requires j < |ordered|
  {
    j + 1 < |ordered| && ordered[j].key == ordered[j + 1].key && SameFinding(ordered[j], ordered[j + 1])
  }

  lemma RepeatedIsSuperseded(rows: seq<Row>, ordered: seq<Row>, j: nat)
    requires SortedBy(HistoryOrder, ordered) && UniqueIds(ordered)
    requires forall r :: r in ordered <==> r in rows
    requires j < |ordered| && RepeatedAt(ordered, j)
    ensures Superseded(rows, ordered[j])
  {
    var r, s := ordered[j], ordered[j + 1];
    OrderWithinPr(ordered, j, j + 1);
    forall x | x in rows && x.key == r.key ensures Later(x, r) ==> x == s || Later(x, s) {
      var m :| 0 <= m < |ordered| && ordered[m] == x;
      if m < j {
        OrderWithinPr(ordered, m, j);
      } else if m > j + 1 {
        OrderWithinPr(ordered, j + 1, m);
      }
    }
    assert Repeats(rows, r, s);
  }

  lemma UnrepeatedIsNotSuperseded(rows: seq<Row>, ordered: seq<Row>, j: nat)
    requires SortedBy(HistoryOrder, ordered) && UniqueIds(ordered)
    requires forall r :: r in ordered <==> r in rows
    requires j < |ordered| && !RepeatedAt(ordered, j)
    ensures !Superseded(rows, ordered[j])
  {
    var r := ordered[j];
    forall s ensures !Repeats(rows, r, s) {
      if s in rows && s.key == r.key {
        var m :| 0 <= m < |ordered| && ordered[m] == s;
        if m < j {
          OrderWithinPr(ordered, m, j);
        } else if m > j + 1 {
          OrderWithinPr(ordered, j, m);
          OrderWithinPr(ordered, j, j + 1);
          OrderWithinPr(ordered, j + 1, m);
          assert ordered[j + 1] in rows && ordered[j + 1] != s;
        }
      }
    }
  }

  ghost predicate RepeatedBefore(ordered: seq<Row>, n: nat, id: nat)
    requires n <= |ordered|
  {
    exists j :: 0 <= j < n - 1 && RepeatedAt(ordered, j) && ordered[j].id == id
  }

  lemma {:induction false} RepeatedIdsInOrder(ordered: seq<Row>, n: nat)
    requires UniqueIds(ordered) && n <= |ordered|
    ensures forall id :: id in RepeatedIds(ordered, n) <==> RepeatedBefore(ordered, n, id)
    ensures Distinct(RepeatedIds(ordered, n))
  {
    if n >= 2 {
      RepeatedIdsInOrder(ordered, n - 1);
      var found, a := RepeatedIds(ordered, n - 1), ordered[n - 2];
      assert !RepeatedBefore(ordered, n - 1, a.id);
      forall id ensures id in RepeatedIds(ordered, n) <==> RepeatedBefore(ordered, n, id) {
        if id in found {
          var j :| 0 <= j < n - 2 && RepeatedAt(ordered, j) && ordered[j].id == id;
        }
        if RepeatedAt(ordered, n - 2) && id == a.id {
          assert id in RepeatedIds(ordered, n);
        }
      }
    }
  }

  lemma {:induction false} IdSetSize(ids: seq<nat>)
    requires Distinct(ids)
    ensures |IdSet(ids)| == |ids|
  {
    if ids != [] {
      IdSetSize(ids[1..]);
      assert ids == [ids[0]] + ids[1..];
      IdSetOfConcat([ids[0]], ids[1..]);
      assert IdSet([ids[0]]) == {ids[0]} && ids[0] !in IdSet(ids[1..]);
    }
  }

  lemma RepeatedIdIsSuperseded(rows: seq<Row>, ordered: seq<Row>, id: nat)
    requires UniqueIds(rows) && ordered == Sort(HistoryOrder, rows) && RepeatedBefore(ordered, |ordered|, id)
    ensures id in SupersededIds(rows)
  {
    var j :| 0 <= j < |ordered| - 1 && RepeatedAt(ordered, j) && ordered[j].id == id;
    OrderedFacts(rows);
    RepeatedIsSuperseded(rows, ordered, j);
    assert ordered[j] in ordered;
  }

  lemma SupersededIdIsRepeated(rows: seq<Row>, ordered: seq<Row>, id: nat)
    requires UniqueIds(rows) && ordered == Sort(HistoryOrder, rows) && id in SupersededIds(rows)
    ensures RepeatedBefore(ordered, |ordered|, id)
  {
    var r :| r in rows && Superseded(rows, r) && r.id == id;
    OrderedFacts(rows);
    assert r in ordered;
    var j :| 0 <= j < |ordered| && ordered[j] == r;
    if !RepeatedAt(ordered, j) {
      UnrepeatedIsNotSuperseded(rows, ordered, j);
    }
  }

  lemma RepeatedIdsAreSuperseded(rows: seq<Row>)
    requires UniqueIds(rows)
    ensures var ordered := Sort(HistoryOrder, rows);
      && |ordered| == |rows|
      && var ids := RepeatedIds(ordered, |ordered|);
      && IdSet(ids) == SupersededIds(rows)
      && |ids| == |SupersededIds(rows) * Ids(rows)|
  {
    var ordered := Sort(HistoryOrder, rows);
    var ids := RepeatedIds(ordered, |ordered|);
    OrderedFacts(rows);
    RepeatedIdsInOrder(ordered, |ordered|);
    IdSetSize(ids);
    forall id ensures id in IdSet(ids) <==> id in SupersededIds(rows) {
      if id in ids {
        RepeatedIdIsSuperseded(rows, ordered, id);
      }
      if id in SupersededIds(rows) {
        SupersededIdIsRepeated(rows, ordered, id);
      }
    }
    assert SupersededIds(rows) * Ids(rows) == SupersededIds(rows);
  }
}
