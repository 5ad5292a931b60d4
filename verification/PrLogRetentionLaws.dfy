/** What the maintenance passes keep: each run of equal flagged rows is reduced to its last row,
  no repetition is left, a second pass changes nothing, and the unresolved view changes only by
  the retention cutoff. */
module PrLogRetentionLaws {
  import opened Prelude
  import opened PrLog
  import opened PrLogRetention

  ghost function LaterRows(rows: seq<Row>, r: Row): set<Row> {
    set x | x in rows && x.key == r.key && Later(x, r)
  }

  lemma {:induction false} Earliest(rows: seq<Row>, s: set<Row>) returns (first: Row)
    requires UniqueIds(rows) && s != {} && forall x :: x in s ==> x in rows
    ensures first in s && forall x :: x in s ==> x == first || Later(x, first)
    decreases |s|
  {
    var x :| x in s;
    if s == {x} {
      first := x;
    } else {
      var rest := s - {x};
      assert rest != {};
      var other := Earliest(rows, rest);
      first := if Later(other, x) then x else other;
      assert x != other && x in rows && other in rows;
      assert x.id != other.id;
      forall y | y in s ensures y == first || Later(y, first) {
        assert y == x || y in rest;
      }
    }
  }

  lemma NotSuperseded(rows: seq<Row>, r: Row)
    requires UniqueIds(rows) && r in rows
    ensures r.id in SupersededIds(rows) <==> Superseded(rows, r)
  {
    if r.id in SupersededIds(rows) {
      var x :| x in rows && Superseded(rows, x) && x.id == r.id;
      SameIdSameRow(rows, x, r);
    }
  }

  lemma CollapseContents(rows: seq<Row>)
    requires UniqueIds(rows)
    ensures UniqueIds(Collapsed(rows))
    ensures forall r :: r in Collapsed(rows) <==> r in rows && !Superseded(rows, r)
  {
    WithoutContents(rows, SupersededIds(rows));
    forall r | r in rows ensures r.id in SupersededIds(rows) <==> Superseded(rows, r) {
      NotSuperseded(rows, r);
    }
  }

  /** Every deleted row belongs to a run of equal flagged rows whose last row `end` is kept, and
    every row between the two belongs to that run and is deleted as well. */
  lemma {:induction false} RunIsReducedToItsLast(rows: seq<Row>, r: Row) returns (end: Row)
    requires UniqueIds(rows) && r in rows && Superseded(rows, r)
    ensures end in Collapsed(rows) && end.key == r.key && Later(end, r) && SameFinding(r, end)
    ensures forall x :: x in LaterRows(rows, r) && Later(end, x) ==> SameFinding(r, x) && Superseded(rows, x)
    decreases |LaterRows(rows, r)|
  {
    var next :| Repeats(rows, r, next);
    CollapseContents(rows);
    if Superseded(rows, next) {
      assert LaterRows(rows, next) <= LaterRows(rows, r) - {next};
      ProperSubsetIsSmaller(LaterRows(rows, next), LaterRows(rows, r), next);
      end := RunIsReducedToItsLast(rows, next);
    } else {
      end := next;
    }
  }

  lemma ProperSubsetIsSmaller(a: set<Row>, b: set<Row>, x: Row)
    requires a <= b - {x} && x in b
    ensures |a| < |b|
  {
    SubsetSize(a, b - {x});
  }

  /** After the pass no flagged row is followed by one that repeats it. */
  lemma CollapseLeavesNoRepetition(rows: seq<Row>, r: Row)
    requires UniqueIds(rows) && r in Collapsed(rows)
    ensures !Superseded(Collapsed(rows), r)
  {
    CollapseContents(rows);
    forall s ensures !Repeats(Collapsed(rows), r, s) {
      if s in Collapsed(rows) && s.key == r.key && Later(s, r) && SameFinding(r, s) {
        assert s in LaterRows(rows, r);
        var next := Earliest(rows, LaterRows(rows, r));
        assert !Repeats(rows, r, next);
        assert !SameFinding(r, next);
        if Superseded(rows, next) {
          var end := RunIsReducedToItsLast(rows, next);
          SameFindingTransitive(r, s, next, end);
          assert s != end;
          assert s == next || Later(s, next);
          assert Later(s, end) || !Later(end, s);
        }
      }
    }
  }

  lemma SameFindingTransitive(r: Row, s: Row, next: Row, end: Row)
    requires SameFinding(r, s) && SameFinding(next, end) && !SameFinding(r, next)
    ensures !SameFinding(r, end) && !SameFinding(next, s)
  {
  }

  lemma CollapseIsIdempotent(rows: seq<Row>)
    requires UniqueIds(rows)
    ensures Collapsed(Collapsed(rows)) == Collapsed(rows)
  {
    CollapseContents(rows);
    forall r | r in Collapsed(rows) ensures r.id !in SupersededIds(Collapsed(rows)) {
      CollapseLeavesNoRepetition(rows, r);
      NotSuperseded(Collapsed(rows), r);
    }
    WithoutNothing(Collapsed(rows), SupersededIds(Collapsed(rows)));
  }

  lemma CollapseKeepsLatest(rows: seq<Row>, k: PrKey)
    requires UniqueIds(rows)
    ensures Latest(Collapsed(rows), k) == Latest(rows, k)
  {
    LatestIsLatest(rows, k);
    if Latest(rows, k).Some? {
      NotSuperseded(rows, Latest(rows, k).value);
    }
    LatestSurvives(rows, SupersededIds(rows), k);
  }

  lemma PurgeKeepsOtherLatest(rows: seq<Row>, k: PrKey)
    requires UniqueIds(rows)
    ensures UniqueIds(Purged(rows))
    ensures Latest(Purged(rows), k) == if LatestClosed(rows, k) then None else Latest(rows, k)
  {
    WithoutContents(rows, ClosedIds(rows));
    LatestIsLatest(rows, k);
    if LatestClosed(rows, k) {
      assert forall r :: r in rows && r.key == k ==> r.id in ClosedIds(rows);
      NoRowNoLatest(Purged(rows), k);
    } else {
      if Latest(rows, k).Some? && Latest(rows, k).value.id in ClosedIds(rows) {
        var x :| x in rows && LatestClosed(rows, x.key) && x.id == Latest(rows, k).value.id;
        SameIdSameRow(rows, x, Latest(rows, k).value);
      }
      LatestSurvives(rows, ClosedIds(rows), k);
    }
  }

  lemma ExpiryKeepsRecentLatest(rows: seq<Row>, cutoff: int, k: PrKey)
    requires UniqueIds(rows)
    ensures UniqueIds(Unexpired(rows, cutoff))
    ensures var latest := Latest(rows, k);
      Latest(Unexpired(rows, cutoff), k) == if latest.Some? && latest.value.at < cutoff then None else latest
  {
    var latest := Latest(rows, k);
    WithoutContents(rows, ExpiredIds(rows, cutoff));
    LatestIsLatest(rows, k);
    if latest.Some? && latest.value.at < cutoff {
      assert forall r :: r in rows && r.key == k ==> r.id in ExpiredIds(rows, cutoff);
      NoRowNoLatest(Unexpired(rows, cutoff), k);
    } else {
      LatestSurvives(rows, ExpiredIds(rows, cutoff), k);
    }
  }

  /** The whole cleanup leaves the latest row of a pull request, unless that row says "closed" or
    is older than the cutoff; then it leaves no row of that pull request. */
  lemma CleanupKeepsLatest(rows: seq<Row>, cutoff: int, k: PrKey)
    requires UniqueIds(rows)
    ensures UniqueIds(Cleaned(rows, cutoff))
    ensures var latest := Latest(rows, k);
      Latest(Cleaned(rows, cutoff), k)
        == if latest.Some? && (latest.value.action.Closed? || latest.value.at < cutoff) then None else latest
  {
    PurgeKeepsOtherLatest(rows, k);
    CollapseContents(Purged(rows));
    CollapseKeepsLatest(Purged(rows), k);
    ExpiryKeepsRecentLatest(Collapsed(Purged(rows)), cutoff, k);
  }

  /** So a pull request is unresolved after the cleanup exactly when it was before and its latest
    row is not older than the cutoff. */
  lemma CleanupKeepsUnresolved(rows: seq<Row>, cutoff: int, k: PrKey)
    requires UniqueIds(rows)
    ensures Unresolved(Cleaned(rows, cutoff), k)
       <==> Unresolved(rows, k) && Latest(rows, k).value.at >= cutoff
  {
    CleanupKeepsLatest(rows, cutoff, k);
  }

  // ------------------------------------------------------------- the passes, in fields

  /** `s` comes after `r` in the history of one pull request. */
  predicate After(s: Row, r: Row) {
    s.key == r.key && (s.at > r.at || (s.at == r.at && s.id > r.id))
  }

  /** Some row right after `r` in the history of its pull request is flagged with the same reason and
    security, as `r` is. */
  ghost predicate RepeatedNext(rows: seq<Row>, r: Row) {
    r.action == Flagged &&
    exists s :: s in rows && After(s, r) && s.action == Flagged && s.reason == r.reason && s.security == r.security
      && forall x :: x in rows && After(x, r) ==> x == s || After(x, s)
  }

  /** The collapsing pass keeps exactly the rows that the next row does not repeat. */
  lemma CollapsedExactly(rows: seq<Row>, r: Row)
    requires UniqueIds(rows)
    ensures r in Collapsed(rows) <==> r in rows && !RepeatedNext(rows, r)
  {
    CollapseContents(rows);
    if r in rows {
      if RepeatedNext(rows, r) {
        var s :| s in rows && After(s, r) && s.action == Flagged && s.reason == r.reason && s.security == r.security
          && forall x :: x in rows && After(x, r) ==> x == s || After(x, s);
        assert Repeats(rows, r, s);
      }
      if s :| Repeats(rows, r, s) {
        assert After(s, r);
      }
    }
  }

  /** Expiry keeps exactly the rows that are not older than the cutoff, and the purge those of pull
    requests whose newest row does not say closed. */
  lemma ExpiryAndPurgeExactly(rows: seq<Row>, cutoff: int, r: Row)
    requires UniqueIds(rows)
    ensures r in Unexpired(rows, cutoff) <==> r in rows && r.at >= cutoff
    ensures r in Purged(rows) <==>
      r in rows && !(exists l :: l in rows && l.key == r.key && l.action == Closed && NewestOfPr(rows, l))
  {
    WithoutContents(rows, ExpiredIds(rows, cutoff));
    WithoutContents(rows, ClosedIds(rows));
    if r in rows {
      IdTells(rows, r);
      LatestIsLatest(rows, r.key);
      if l :| l in rows && l.key == r.key && l.action == Closed && NewestOfPr(rows, l) {
        NewestIsLatest(rows, l);
      }
    }
  }

  lemma NewestIsLatest(rows: seq<Row>, l: Row)
    requires UniqueIds(rows) && l in rows && NewestOfPr(rows, l)
    ensures Latest(rows, l.key) == Some(l)
  {
    forall x | x in rows && x.key == l.key && x != l ensures Later(l, x) {
      if x.id == l.id {
        SameIdSameRow(rows, x, l);
      }
    }
    LatestUnique(rows, l.key, l);
  }

  lemma IdTells(rows: seq<Row>, r: Row)
    requires UniqueIds(rows) && r in rows
    ensures forall x :: x in rows && x.id == r.id ==> x == r
  {
    forall x | x in rows && x.id == r.id ensures x == r {
      SameIdSameRow(rows, x, r);
    }
  }
}
