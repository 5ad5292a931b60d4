/** The table of judged Dependabot pull requests (app/depsops/models.py) and the view that the
  statistics and the dashboard take of it: a pull request is unresolved when its latest row,
  by judging time and then row id, says "flagged" (app/depsops/router.py). */
module PrLog {
  import opened Prelude
  import opened Ordering

  datatype Action = Merged | Flagged | Closed

  datatype PrKey = PrKey(repo: string, number: int)

  datatype Row = Row(
    id: nat, key: PrKey, title: string, action: Action, reason: Option<string>,
    security: Option<bool>, badge: Option<string>, at: int)

  ghost predicate UniqueIds(rows: seq<Row>) {
    forall i, j :: 0 <= i < j < |rows| ==> rows[i].id != rows[j].id
  }

  /** Row ids are unique, and `nextId` has not been given out. */
  ghost predicate IdsBelow(rows: seq<Row>, nextId: nat) {
    UniqueIds(rows) && forall r :: r in rows ==> r.id < nextId
  }

  predicate Later(a: Row, b: Row) {
    a.at > b.at || (a.at == b.at && a.id > b.id)
  }

  /** Flagged rows that say the same thing. */
  predicate SameFinding(a: Row, b: Row) {
    a.action.Flagged? && b.action.Flagged? && a.reason == b.reason && a.security == b.security
  }

  /** The latest row of a pull request. */
  function Latest(rows: seq<Row>, k: PrKey): (latest: Option<Row>)
    ensures latest.Some? ==> latest.value in rows && latest.value.key == k
  {
    if rows == [] then None
    else
      var rest := Latest(rows[1..], k);
      if rows[0].key == k && (rest.None? || Later(rows[0], rest.value)) then Some(rows[0]) else rest
  }

  predicate Unresolved(rows: seq<Row>, k: PrKey) {
    var latest := Latest(rows, k);
    latest.Some? && latest.value.action.Flagged?
  }

  ghost predicate IsLatest(rows: seq<Row>, k: PrKey, r: Row) {
    && r in rows && r.key == k
    && forall x :: x in rows && x.key == k && x != r ==> Later(r, x)
  }

  lemma {:induction false} LatestIsLatest(rows: seq<Row>, k: PrKey)
    requires UniqueIds(rows)
    ensures var latest := Latest(rows, k);
      if latest.None? then forall x :: x in rows ==> x.key != k else IsLatest(rows, k, latest.value)
  {
    if rows != [] {
      var tail := rows[1..];
      LatestIsLatest(tail, k);
      assert rows == [rows[0]] + tail;
      assert forall x :: x in tail ==> exists j :: 1 <= j < |rows| && rows[j] == x;
    }
  }

  lemma LatestUnique(rows: seq<Row>, k: PrKey, r: Row)
    requires UniqueIds(rows) && IsLatest(rows, k, r)
    ensures Latest(rows, k) == Some(r)
  {
    LatestIsLatest(rows, k);
    assert Latest(rows, k).Some?;
  }

  lemma NoRowNoLatest(rows: seq<Row>, k: PrKey)
    requires forall x :: x in rows ==> x.key != k
    ensures Latest(rows, k) == None
  {
  }

  lemma SameIdSameRow(rows: seq<Row>, a: Row, b: Row)
    requires UniqueIds(rows) && a in rows && b in rows && a.id == b.id
    ensures a == b
  {
  }

  // ------------------------------------------------------------------ deletions

  /** The rows whose id is not among `ids`. */
  function Without(rows: seq<Row>, ids: set<nat>): seq<Row> {
    if rows == [] then []
    else (if rows[0].id in ids then [] else [rows[0]]) + Without(rows[1..], ids)
  }

  ghost function Ids(rows: seq<Row>): set<nat> {
    set r | r in rows :: r.id
  }

  lemma {:induction false} WithoutContents(rows: seq<Row>, ids: set<nat>)
    ensures forall r :: r in Without(rows, ids) <==> r in rows && r.id !in ids
    ensures UniqueIds(rows) ==> UniqueIds(Without(rows, ids))
  {
    if rows != [] {
      var tail := rows[1..];
      WithoutContents(tail, ids);
      assert rows == [rows[0]] + tail;
      if UniqueIds(rows) {
        assert forall x :: x in tail ==> x.id != rows[0].id;
      }
    }
  }

  lemma {:induction false} WithoutTwice(rows: seq<Row>, first: set<nat>, second: set<nat>)
    ensures Without(Without(rows, first), second) == Without(rows, first + second)
  {
    if rows != [] {
      WithoutTwice(rows[1..], first, second);
      var kept := Without(rows[1..], first);
      if rows[0].id in first {
        assert Without(rows, first) == kept;
        assert Without(rows, first + second) == Without(rows[1..], first + second);
      } else {
        assert Without(rows, first) == [rows[0]] + kept;
        assert ([rows[0]] + kept)[1..] == kept;
      }
    }
  }

  lemma {:induction false} WithoutNothing(rows: seq<Row>, ids: set<nat>)
    requires forall r :: r in rows ==> r.id !in ids
    ensures Without(rows, ids) == rows
  {
    if rows != [] {
      WithoutNothing(rows[1..], ids);
    }
  }

  lemma IdsStep(rows: seq<Row>)
    requires UniqueIds(rows) && rows != []
    ensures UniqueIds(rows[1..])
    ensures Ids(rows) == {rows[0].id} + Ids(rows[1..]) && rows[0].id !in Ids(rows[1..])
  {
    assert rows == [rows[0]] + rows[1..];
  }

  lemma {:induction false} WithoutLength(rows: seq<Row>, ids: set<nat>)
    requires UniqueIds(rows)
    ensures |Without(rows, ids)| == |rows| - |ids * Ids(rows)|
  {
    if rows == [] {
      assert ids * Ids(rows) == {};
    } else {
      var r, tail := rows[0], rows[1..];
      WithoutLength(tail, ids);
      IdsStep(rows);
      if r.id in ids {
        assert ids * Ids(rows) == {r.id} + ids * Ids(tail);
      } else {
        assert ids * Ids(rows) == ids * Ids(tail);
      }
    }
  }

  /** Deleting rows that are not the latest of their pull request leaves every latest row. */
  lemma LatestSurvives(rows: seq<Row>, ids: set<nat>, k: PrKey)
    requires UniqueIds(rows)
    requires Latest(rows, k).Some? ==> Latest(rows, k).value.id !in ids
    ensures Latest(Without(rows, ids), k) == Latest(rows, k)
  {
    WithoutContents(rows, ids);
    LatestIsLatest(rows, k);
    if Latest(rows, k).None? {
      NoRowNoLatest(Without(rows, ids), k);
    } else {
      LatestUnique(Without(rows, ids), k, Latest(rows, k).value);
    }
  }

  // ----------------------------------------------------------------- query order

  /** ORDER BY repo_full_name, pr_number, processed_at, id. */
  predicate HistoryOrder(a: Row, b: Row) {
    if a.key.repo != b.key.repo then StringLess(a.key.repo, b.key.repo)
    else if a.key.number != b.key.number then a.key.number < b.key.number
    else Later(b, a)
  }

  lemma HistoryOrderIsOrder()
    ensures IsOrder(HistoryOrder)
  {
    forall x: Row, y: Row | HistoryOrder(x, y) ensures !HistoryOrder(y, x) {
      StringLessTotal(x.key.repo, y.key.repo);
    }
    forall x: Row, y: Row, z: Row | HistoryOrder(x, z) ensures HistoryOrder(x, y) || HistoryOrder(y, z) {
      StringLessTotal(x.key.repo, y.key.repo);
      if x.key.repo != z.key.repo && y.key.repo != x.key.repo && StringLess(y.key.repo, x.key.repo) {
        StringLessTransitive(y.key.repo, x.key.repo, z.key.repo);
      }
    }
  }

  /** Newest first: ORDER BY processed_at DESC, id DESC. */
  predicate NewestFirst(a: Row, b: Row) {
    Later(a, b)
  }

  lemma NewestFirstIsOrder()
    ensures IsOrder(NewestFirst)
  {
  }

  // ------------------------------------------------------------ the view, in fields

  /** A pull request is unresolved exactly when one of its rows is flagged and every other row of it is
    older, or as old with a smaller id. */
  lemma UnresolvedExactly(rows: seq<Row>, k: PrKey)
    requires UniqueIds(rows)
    ensures Unresolved(rows, k) <==>
      exists r :: r in rows && r.key == k && r.action == Flagged && NewestOfPr(rows, r)
  {
    LatestIsLatest(rows, k);
    if r :| r in rows && r.key == k && r.action == Flagged && NewestOfPr(rows, r) {
      assert IsLatest(rows, k, r) by {
        forall x | x in rows && x.key == k && x != r ensures Later(r, x) {
          if x.id == r.id {
            SameIdSameRow(rows, x, r);
          }
        }
      }
      LatestUnique(rows, k, r);
    }
  }

  ghost predicate NewestOfPr(rows: seq<Row>, r: Row) {
    forall x :: x in rows && x.key == r.key ==> x.at < r.at || (x.at == r.at && x.id <= r.id)
  }
}
