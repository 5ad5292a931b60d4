/** What recording a run does to the unresolved view and to the history of a pull request. */
module PrLogRepositoryLaws {
  import opened Prelude
  import opened PrLog
  import opened PrLogRetention
  import opened PrLogRepository

  /** No row was judged after `at`: the clock does not run backwards. */
  ghost predicate JudgedBy(rows: seq<Row>, at: int) {
    forall r :: r in rows ==> r.at <= at
  }

  lemma TouchedLatest(rows: seq<Row>, t: seq<Row>, at: int, k: PrKey)
    requires UniqueIds(rows) && JudgedBy(rows, at) && TouchedFrom(rows, t, at)
    ensures UniqueIds(t)
    ensures var l, m := Latest(rows, k), Latest(t, k);
      if l.None? then m.None?
      else m.Some? && m.value == l.value.(title := m.value.title, badge := m.value.badge, at := m.value.at)
  {
    var l := Latest(rows, k);
    LatestIsLatest(rows, k);
    if l.None? {
      forall r | r in t ensures r.key != k {
        var i :| 0 <= i < |t| && t[i] == r;
        assert rows[i] in rows;
      }
      NoRowNoLatest(t, k);
    } else {
      var i :| 0 <= i < |rows| && rows[i] == l.value;
      forall x | x in t && x.key == k && x != t[i] ensures Later(t[i], x) {
        var j :| 0 <= j < |t| && t[j] == x;
        assert rows[j] in rows && rows[i] in rows && j != i;
        assert rows[i].id != rows[j].id;
      }
      assert IsLatest(t, k, t[i]);
      LatestUnique(t, k, t[i]);
    }
  }

  /** Rows added with the newest time and the largest ids decide the latest row of their pull
    requests and leave the others alone. */
  lemma AddedLatest(rows: seq<Row>, id: nat, added: seq<Row>, at: int, k: PrKey)
    requires IdsBelow(rows, id) && JudgedBy(rows, at) && AddedFrom(added, id, at)
    ensures UniqueIds(rows + added)
    ensures Latest(rows + added, k) == if Latest(added, k).Some? then Latest(added, k) else Latest(rows, k)
  {
    var all := rows + added;
    LatestIsLatest(rows, k);
    LatestIsLatest(added, k);
    assert forall r :: r in added ==> r.at == at && r.id >= id;
    AddedStaysUnique(rows, id, added, at);
    if Latest(added, k).Some? {
      assert IsLatest(all, k, Latest(added, k).value);
      LatestUnique(all, k, Latest(added, k).value);
    } else if Latest(rows, k).Some? {
      assert IsLatest(all, k, Latest(rows, k).value);
      LatestUnique(all, k, Latest(rows, k).value);
    } else {
      NoRowNoLatest(all, k);
    }
  }

  lemma AddedStaysUnique(rows: seq<Row>, id: nat, added: seq<Row>, at: int)
    requires IdsBelow(rows, id) && AddedFrom(added, id, at)
    ensures UniqueIds(rows + added)
  {
  }

  lemma LiveLatest(rows: seq<Row>, resolved: seq<Item>, k: PrKey)
    requires UniqueIds(rows)
    ensures Latest(WithoutPrs(rows, resolved), k) == if k in Keys(resolved) then None else Latest(rows, k)
  {
    WithoutPrsContents(rows, resolved);
    LatestIsLatest(rows, k);
    if k !in Keys(resolved) && Latest(rows, k).Some? {
      LatestUnique(WithoutPrs(rows, resolved), k, Latest(rows, k).value);
    } else {
      NoRowNoLatest(WithoutPrs(rows, resolved), k);
    }
  }

  /** Of the rows a run adds for a pull request, flagged ones come after merged ones. */
  lemma PendingLatest(rows: seq<Row>, nextId: nat, merged: seq<Item>, flagged: seq<Item>, at: int, k: PrKey)
    ensures var latest := Latest(Pending(rows, nextId, merged, flagged, at), k);
      if k in Keys(NovelItems(rows, flagged)) then latest.Some? && latest.value.action.Flagged?
      else if k in Keys(merged) then latest.Some? && latest.value.action.Merged?
      else latest.None?
  {
    var ms := MergedRows(merged, nextId, at);
    var fs := FlaggedRows(NovelItems(rows, flagged), nextId + |merged|, at);
    LatestOfMerged(merged, nextId, at, k);
    LatestOfFlagged(NovelItems(rows, flagged), nextId + |merged|, at, k);
    AddedLatest(ms, nextId + |merged|, fs, at, k);
  }

  lemma LatestOfMerged(merged: seq<Item>, id: nat, at: int, k: PrKey)
    ensures var rows := MergedRows(merged, id, at);
      && |rows| == |merged| && AddedFrom(rows, id, at) && IdsBelow(rows, id + |rows|) && JudgedBy(rows, at)
      && (if k in Keys(merged) then Latest(rows, k).Some? && Latest(rows, k).value.action.Merged?
          else Latest(rows, k).None?)
  {
    var rows := MergedRows(merged, id, at);
    MergedRowsContents(merged, id, at);
    AddedAreUnique(rows, id, at);
    LatestIsLatest(rows, k);
    KeysOfRows(merged, rows, k);
  }

  lemma LatestOfFlagged(flagged: seq<Item>, id: nat, at: int, k: PrKey)
    ensures var rows := FlaggedRows(flagged, id, at);
      && AddedFrom(rows, id, at)
      && (if k in Keys(flagged) then Latest(rows, k).Some? && Latest(rows, k).value.action.Flagged?
          else Latest(rows, k).None?)
  {
    var rows := FlaggedRows(flagged, id, at);
    FlaggedRowsContents(flagged, id, at);
    AddedAreUnique(rows, id, at);
    LatestIsLatest(rows, k);
    KeysOfRows(flagged, rows, k);
  }

  lemma AddedAreUnique(rows: seq<Row>, id: nat, at: int)
    requires AddedFrom(rows, id, at)
    ensures IdsBelow(rows, id + |rows|) && JudgedBy(rows, at)
  {
  }

  lemma KeysOfRows(items: seq<Item>, rows: seq<Row>, k: PrKey)
    requires |rows| == |items| && forall n :: 0 <= n < |items| ==> rows[n].key == items[n].key
    ensures k in Keys(items) <==> exists r :: r in rows && r.key == k
  {
    if k in Keys(items) {
      var i :| i in items && i.key == k;
      var n :| 0 <= n < |items| && items[n] == i;
      assert rows[n] in rows;
    }
    if r :| r in rows && r.key == k {
      var n :| 0 <= n < |rows| && rows[n] == r;
      assert items[n] in items;
    }
  }

  /** The latest row of a pull request after a run was recorded. */
  lemma RecordedLatest(rows: seq<Row>, nextId: nat, merged: seq<Item>, flagged: seq<Item>, at: int,
                       resolved: seq<Item>, k: PrKey)
    requires IdsBelow(rows, nextId) && JudgedBy(rows, at)
    ensures var after := Recorded(rows, nextId, merged, flagged, at, resolved);
      var added := Latest(Pending(rows, nextId, merged, flagged, at), k);
      Latest(after, k)
        == if added.Some? then added
           else if k in Keys(resolved) then None
           else Latest(Touched(rows, flagged, at), k)
  {
    var touched := Touched(rows, flagged, at);
    var live := WithoutPrs(touched, resolved);
    TouchedIsTouchedFrom(rows, flagged, at);
    TouchedLatest(rows, touched, at, k);
    LiveLatest(touched, resolved, k);
    PendingIds(rows, nextId, merged, flagged, at);
    LiveRows(rows, nextId, flagged, at, resolved);
    AddedLatest(live, nextId, Pending(rows, nextId, merged, flagged, at), at, k);
  }

  lemma LiveRows(rows: seq<Row>, nextId: nat, flagged: seq<Item>, at: int, resolved: seq<Item>)
    requires IdsBelow(rows, nextId) && JudgedBy(rows, at)
    ensures var live := WithoutPrs(Touched(rows, flagged, at), resolved);
      IdsBelow(live, nextId) && JudgedBy(live, at)
  {
    var touched := Touched(rows, flagged, at);
    TouchedIsTouchedFrom(rows, flagged, at);
    WithoutPrsContents(touched, resolved);
    forall r | r in touched ensures r.id < nextId && r.at <= at {
      var i :| 0 <= i < |touched| && touched[i] == r;
      assert rows[i] in rows;
    }
  }

  /** Exactly when a pull request is unresolved after a batch was recorded:
    some flagged item says something new about it; or it was unresolved before, was not merged and
    was not found resolved. */
  lemma RecordedUnresolved(rows: seq<Row>, nextId: nat, merged: seq<Item>, flagged: seq<Item>, at: int,
                           resolved: seq<Item>, k: PrKey)
    requires IdsBelow(rows, nextId) && JudgedBy(rows, at)
    ensures Unresolved(Recorded(rows, nextId, merged, flagged, at, resolved), k)
       <==> k in Keys(NovelItems(rows, flagged))
            || (k !in Keys(merged) && k !in Keys(resolved) && Unresolved(rows, k))
  {
    RecordedLatest(rows, nextId, merged, flagged, at, resolved, k);
    PendingLatest(rows, nextId, merged, flagged, at, k);
    TouchedIsTouchedFrom(rows, flagged, at);
    TouchedLatest(rows, Touched(rows, flagged, at), at, k);
  }

  /** A flagged item that is not new repeats an unresolved row; so, when no pull request is in two
    lists of the batch, the unresolved ones are those flagged now and those left alone. */
  lemma RecordedUnresolvedByList(rows: seq<Row>, nextId: nat, merged: seq<Item>, flagged: seq<Item>, at: int,
                                 resolved: seq<Item>, k: PrKey)
    requires IdsBelow(rows, nextId) && JudgedBy(rows, at)
    requires Keys(flagged) !! Keys(merged) && Keys(flagged) !! Keys(resolved)
    ensures Unresolved(Recorded(rows, nextId, merged, flagged, at, resolved), k)
       <==> k in Keys(flagged) || (k !in Keys(merged) && k !in Keys(resolved) && Unresolved(rows, k))
  {
    RecordedUnresolved(rows, nextId, merged, flagged, at, resolved, k);
    NovelItemsContents(rows, flagged);
    if k in Keys(flagged) && k !in Keys(NovelItems(rows, flagged)) {
      var i :| i in flagged && i.key == k;
      assert !Novel(rows, i);
    }
  }

  lemma {:induction false} UntouchedRows(rows: seq<Row>, flagged: seq<Item>, at: int)
    requires UniqueIds(rows)
    ensures var t := Touched(rows, flagged, at);
      |t| == |rows| && forall i :: 0 <= i < |rows| && rows[i].key !in Keys(flagged) ==> t[i] == rows[i]
  {
    if flagged != [] {
      var front, last := Front(flagged), Last(flagged);
      UntouchedRows(rows, front, at);
      TouchedIsTouchedFrom(rows, front, at);
      assert flagged == front + [last];
      KeysAppend(front, last);
      if !Novel(rows, last) {
        var latest := Latest(rows, last.key).value;
        TouchAt(Touched(rows, front, at), latest.id, last, at);
        forall i | 0 <= i < |rows| && rows[i].id == latest.id ensures rows[i].key == last.key {
          SameIdSameRow(rows, rows[i], latest);
        }
      }
    }
  }

  /** When no pull request is both flagged and found resolved, as in every run of the job, the
    deletion spares every row that was refreshed. (Otherwise the commit would have to update a row
    that is gone.) */
  lemma RefreshedRowsAreKept(rows: seq<Row>, flagged: seq<Item>, at: int, resolved: seq<Item>, i: nat)
    requires UniqueIds(rows) && Keys(flagged) !! Keys(resolved) && i < |rows|
    ensures var touched := Touched(rows, flagged, at);
      |touched| == |rows| && (touched[i] != rows[i] ==> touched[i] in WithoutPrs(touched, resolved))
  {
    var touched := Touched(rows, flagged, at);
    UntouchedRows(rows, flagged, at);
    TouchedIsTouchedFrom(rows, flagged, at);
    LiveContents(rows, touched, at, resolved);
  }

  lemma LiveContents(rows: seq<Row>, touched: seq<Row>, at: int, resolved: seq<Item>)
    requires UniqueIds(rows) && TouchedFrom(rows, touched, at)
    ensures forall r :: r in WithoutPrs(touched, resolved) <==> r in touched && r.key !in Keys(resolved)
  {
    TouchedKeepsUnique(rows, touched, at);
    WithoutPrsContents(touched, resolved);
  }

  // ------------------------------------------------- recording adds no repetition

  ghost predicate NoRepetition(rows: seq<Row>) {
    forall r, s :: r in rows && s in rows ==> !Repeats(rows, r, s)
  }

  ghost predicate DistinctKeys(items: seq<Item>) {
    forall i, j :: 0 <= i < j < |items| ==> items[i].key != items[j].key
  }

  lemma {:induction false} NovelItemsDistinct(committed: seq<Row>, flagged: seq<Item>)
    requires DistinctKeys(flagged)
    ensures DistinctKeys(NovelItems(committed, flagged))
  {
    if flagged != [] {
      NovelItemsDistinct(committed, Front(flagged));
      NovelItemsContents(committed, Front(flagged));
      forall i | i in Front(flagged) ensures i.key != Last(flagged).key {
        var n :| 0 <= n < |Front(flagged)| && Front(flagged)[n] == i;
        assert flagged[n] == i;
      }
    }
  }

  lemma TouchKeepsOrder(rows: seq<Row>, t: seq<Row>, at: int, m: nat, j: nat)
    requires UniqueIds(rows) && JudgedBy(rows, at) && TouchedFrom(rows, t, at)
    requires m < |rows| && j < |rows| && m != j && rows[m].key == rows[j].key
    ensures Later(t[m], t[j]) <==> Later(rows[m], rows[j])
  {
    LatestIsLatest(rows, rows[m].key);
    assert rows[m] in rows && rows[j] in rows && rows[m].id != rows[j].id;
  }

  /** Touching only latest rows, with a time no earlier than any, changes no row's successor. */
  lemma TouchedRepeats(rows: seq<Row>, t: seq<Row>, at: int, live: seq<Row>, r: Row, s: Row)
    requires UniqueIds(rows) && JudgedBy(rows, at) && TouchedFrom(rows, t, at)
    requires r in t && forall x :: x in t && x.key == r.key ==> x in live
    requires forall x :: x in live ==> x in t
    requires s in live && Repeats(live, r, s)
    ensures !NoRepetition(rows)
  {
    var i :| 0 <= i < |t| && t[i] == r;
    var j :| 0 <= j < |t| && t[j] == s;
    assert i != j;
    TouchKeepsOrder(rows, t, at, j, i);
    forall x | x in rows && x.key == r.key && Later(x, rows[i]) ensures x == rows[j] || Later(x, rows[j]) {
      var m :| 0 <= m < |rows| && rows[m] == x;
      if m != j && m != i {
        TouchKeepsOrder(rows, t, at, m, i);
        TouchKeepsOrder(rows, t, at, m, j);
        assert t[m] in live && t[m].id != t[j].id;
      }
    }
    assert rows[i] in rows && rows[j] in rows;
    assert Repeats(rows, rows[i], rows[j]);
  }

  lemma NovelDoesNotRepeat(rows: seq<Row>, item: Item, r: Row, s: Row)
    requires Novel(rows, item) && Latest(rows, item.key).Some?
    requires var l := Latest(rows, item.key).value;
      r.action == l.action && r.reason == l.reason && r.security == l.security
    requires s.reason == item.reason && s.security == item.security
    ensures !SameFinding(r, s)
  {
  }

  lemma LiveThenAdded(rows: seq<Row>, nextId: nat, merged: seq<Item>, flagged: seq<Item>, at: int,
                      resolved: seq<Item>, r: Row, s: Row)
    requires IdsBelow(rows, nextId) && JudgedBy(rows, at)
    requires r in WithoutPrs(Touched(rows, flagged, at), resolved)
    requires s in Pending(rows, nextId, merged, flagged, at)
    ensures !Repeats(Recorded(rows, nextId, merged, flagged, at, resolved), r, s)
  {
    var touched := Touched(rows, flagged, at);
    var live := WithoutPrs(touched, resolved);
    var after := Recorded(rows, nextId, merged, flagged, at, resolved);
    var k := r.key;
    LiveRows(rows, nextId, flagged, at, resolved);
    PendingIds(rows, nextId, merged, flagged, at);
    if Repeats(after, r, s) {
      TouchedIsTouchedFrom(rows, flagged, at);
      TouchedLatest(rows, touched, at, k);
      WithoutPrsContents(touched, resolved);
      LiveLatest(touched, resolved, k);
      LatestIsLatest(live, k);
      assert Latest(live, k) == Some(r) by {
        var l := Latest(live, k).value;
        assert l in after;
        assert Later(s, l);
      }
      var n := FlaggedPendingIsNovel(rows, nextId, merged, flagged, at, s);
      var item := NovelItems(rows, flagged)[n];
      NovelItemsContents(rows, flagged);
      assert item in NovelItems(rows, flagged);
      NovelDoesNotRepeat(rows, item, r, s);
    }
  }

  lemma FlaggedPendingIsNovel(rows: seq<Row>, nextId: nat, merged: seq<Item>, flagged: seq<Item>, at: int, s: Row)
    returns (n: nat)
    requires s in Pending(rows, nextId, merged, flagged, at) && s.action.Flagged?
    ensures n < |NovelItems(rows, flagged)|
    ensures s == FlaggedRow(NovelItems(rows, flagged)[n], nextId + |merged| + n, at)
  {
    var ms, fs := MergedRows(merged, nextId, at), FlaggedRows(NovelItems(rows, flagged), nextId + |merged|, at);
    MergedRowsContents(merged, nextId, at);
    FlaggedRowsContents(NovelItems(rows, flagged), nextId + |merged|, at);
    assert Pending(rows, nextId, merged, flagged, at) == ms + fs;
    assert s in fs;
    n :| 0 <= n < |fs| && fs[n] == s;
  }

  /** Item `n` says again what item `m` says, with no other item about their pull request between. */
  ghost predicate SaysAgain(items: seq<Item>, m: nat, n: nat) {
    && m < n < |items| && items[m].key == items[n].key
    && items[m].reason == items[n].reason && items[m].security == items[n].security
    && forall j :: m < j < n ==> items[j].key != items[n].key
  }

  ghost predicate NothingSaidAgain(items: seq<Item>) {
    forall m, n :: !SaysAgain(items, m, n)
  }

  lemma FlaggedPendingAt(rows: seq<Row>, nextId: nat, merged: seq<Item>, flagged: seq<Item>, at: int, n: nat)
    requires n < |NovelItems(rows, flagged)|
    ensures FlaggedRow(NovelItems(rows, flagged)[n], nextId + |merged| + n, at)
         in Pending(rows, nextId, merged, flagged, at)
  {
    var ms, fs := MergedRows(merged, nextId, at), FlaggedRows(NovelItems(rows, flagged), nextId + |merged|, at);
    FlaggedRowsContents(NovelItems(rows, flagged), nextId + |merged|, at);
    assert fs[n] in ms + fs;
  }

  /** Of two added rows one repeats the other only if its item says again what the other's says. */
  lemma AddedThenAdded(rows: seq<Row>, nextId: nat, merged: seq<Item>, flagged: seq<Item>, at: int,
                       after: seq<Row>, r: Row, s: Row)
    requires NothingSaidAgain(NovelItems(rows, flagged))
    requires r in Pending(rows, nextId, merged, flagged, at) && s in Pending(rows, nextId, merged, flagged, at)
    requires forall x :: x in Pending(rows, nextId, merged, flagged, at) ==> x in after
    ensures !Repeats(after, r, s)
  {
    if Repeats(after, r, s) {
      var items := NovelItems(rows, flagged);
      var m := FlaggedPendingIsNovel(rows, nextId, merged, flagged, at, r);
      var n := FlaggedPendingIsNovel(rows, nextId, merged, flagged, at, s);
      forall j | m < j < n ensures items[j].key != items[n].key {
        FlaggedPendingAt(rows, nextId, merged, flagged, at, j);
        var x := FlaggedRow(items[j], nextId + |merged| + j, at);
        assert x in after && !Later(x, s) && x != s;
      }
      assert SaysAgain(items, m, n);
    }
  }

  /** When an item says again what an earlier one says, its row repeats the earlier row. */
  lemma SaidAgainRepeats(rows: seq<Row>, nextId: nat, merged: seq<Item>, flagged: seq<Item>, at: int,
                         resolved: seq<Item>, m: nat, n: nat)
    requires IdsBelow(rows, nextId) && JudgedBy(rows, at) && SaysAgain(NovelItems(rows, flagged), m, n)
    ensures !NoRepetition(Recorded(rows, nextId, merged, flagged, at, resolved))
  {
    var items, after := NovelItems(rows, flagged), Recorded(rows, nextId, merged, flagged, at, resolved);
    var r := FlaggedRow(items[m], nextId + |merged| + m, at);
    var s := FlaggedRow(items[n], nextId + |merged| + n, at);
    FlaggedPendingAt(rows, nextId, merged, flagged, at, m);
    FlaggedPendingAt(rows, nextId, merged, flagged, at, n);
    forall x | x in after && x.key == r.key && Later(x, r) ensures x == s || Later(x, s) {
      var j := LaterThanAdded(rows, nextId, merged, flagged, at, resolved, m, x);
    }
    assert Repeats(after, r, s);
  }

  /** What is later than an added row was added by a later item. */
  lemma LaterThanAdded(rows: seq<Row>, nextId: nat, merged: seq<Item>, flagged: seq<Item>, at: int,
                       resolved: seq<Item>, m: nat, x: Row)
    returns (j: nat)
    requires IdsBelow(rows, nextId) && JudgedBy(rows, at) && m < |NovelItems(rows, flagged)|
    requires x in Recorded(rows, nextId, merged, flagged, at, resolved)
    requires Later(x, FlaggedRow(NovelItems(rows, flagged)[m], nextId + |merged| + m, at))
    ensures m < j < |NovelItems(rows, flagged)|
    ensures x == FlaggedRow(NovelItems(rows, flagged)[j], nextId + |merged| + j, at)
  {
    var ms, fs := MergedRows(merged, nextId, at), FlaggedRows(NovelItems(rows, flagged), nextId + |merged|, at);
    LiveRows(rows, nextId, flagged, at, resolved);
    MergedRowsContents(merged, nextId, at);
    FlaggedRowsContents(NovelItems(rows, flagged), nextId + |merged|, at);
    assert x in ms + fs;
    assert x !in ms;
    j :| 0 <= j < |fs| && fs[j] == x;
  }

  /** Recording leaves a row that repeats its predecessor exactly when an item about which there is
    something new says again what the last such item about its pull request says: the lookup of
    the later one does not see the row of the earlier one, which is not committed yet. */
  lemma RecordingRepeatsExactly(rows: seq<Row>, nextId: nat, merged: seq<Item>, flagged: seq<Item>, at: int,
                                resolved: seq<Item>)
    requires IdsBelow(rows, nextId) && JudgedBy(rows, at) && NoRepetition(rows)
    ensures NoRepetition(Recorded(rows, nextId, merged, flagged, at, resolved))
       <==> NothingSaidAgain(NovelItems(rows, flagged))
  {
    if NothingSaidAgain(NovelItems(rows, flagged)) {
      NothingAgainNoRepetition(rows, nextId, merged, flagged, at, resolved);
    } else {
      var m, n :| SaysAgain(NovelItems(rows, flagged), m, n);
      SaidAgainRepeats(rows, nextId, merged, flagged, at, resolved, m, n);
    }
  }

  lemma NothingAgainNoRepetition(rows: seq<Row>, nextId: nat, merged: seq<Item>, flagged: seq<Item>, at: int,
                                 resolved: seq<Item>)
    requires IdsBelow(rows, nextId) && JudgedBy(rows, at) && NoRepetition(rows)
    requires NothingSaidAgain(NovelItems(rows, flagged))
    ensures NoRepetition(Recorded(rows, nextId, merged, flagged, at, resolved))
  {
    var touched := Touched(rows, flagged, at);
    var live := WithoutPrs(touched, resolved);
    var pending := Pending(rows, nextId, merged, flagged, at);
    var after := Recorded(rows, nextId, merged, flagged, at, resolved);
    TouchedIsTouchedFrom(rows, flagged, at);
    WithoutPrsContents(touched, resolved);
    LiveRows(rows, nextId, flagged, at, resolved);
    PendingIds(rows, nextId, merged, flagged, at);
    forall r, s | r in after && s in after ensures !Repeats(after, r, s) {
      if Repeats(after, r, s) {
        if r in live && s in live {
          assert Repeats(live, r, s);
          TouchedRepeats(rows, touched, at, live, r, s);
        } else if r in live {
          LiveThenAdded(rows, nextId, merged, flagged, at, resolved, r, s);
        } else if s in pending {
          AddedThenAdded(rows, nextId, merged, flagged, at, after, r, s);
        }
      }
    }
  }

  /** So a batch that flags each pull request at most once adds no such row. */
  lemma RecordingAddsNoRepetition(rows: seq<Row>, nextId: nat, merged: seq<Item>, flagged: seq<Item>, at: int,
                                  resolved: seq<Item>)
    requires IdsBelow(rows, nextId) && JudgedBy(rows, at) && NoRepetition(rows) && DistinctKeys(flagged)
    ensures NoRepetition(Recorded(rows, nextId, merged, flagged, at, resolved))
  {
    NovelItemsDistinct(rows, flagged);
    RecordingRepeatsExactly(rows, nextId, merged, flagged, at, resolved);
  }

  /** And an unknown pull request that is flagged twice in the same words gets two equal rows. */
  lemma RepetitionFromRepeatedItem(item: Item, at: int)
    ensures !NoRepetition(Recorded([], 1, [], [item, item], at, []))
  {
    var batch := [item, item];
    assert Front(batch) == [item] && Front([item]) == [];
    assert Novel([], item);
    assert NovelItems([], [item]) == [item] && NovelItems([], batch) == batch;
    assert SaysAgain(batch, 0, 1);
    RecordingRepeatsExactly([], 1, [], batch, at, []);
  }
}
