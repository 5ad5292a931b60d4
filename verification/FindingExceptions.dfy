/** Exceptions to findings: accepted risks, false positives and the like
  (app/finding_exceptions/repository.py). Whether an exception is active is computed from the
  clock and never stored; endings are stored by hand, by a published fix, or by the nightly job. */
module FindingExceptions {
  import opened Prelude

  datatype Kind = Dependency | Code
  datatype Status = Accepted | FalsePositive | NotAffected
  datatype EndReason = Expired | FixAvailable | Revoked
  datatype Ending = Ending(at: int, reason: EndReason)

  /** What an exception is about: a finding by kind, repository and identity key. */
  datatype Target = Target(kind: Kind, repo: string, key: string)

  datatype Terms = Terms(status: Status, reason: string, expires: Option<int>, approver: string)

  datatype Row = Row(
    id: nat, target: Target, terms: Terms, ended: Option<Ending>, notified: Option<int>)

  predicate Active(r: Row, now: int) {
    r.ended.None? && (r.terms.expires.None? || r.terms.expires.value > now)
  }

  // ------------------------------------------------------------------ operations

  predicate ActiveOn(r: Row, t: Target, now: int) {
    r.target == t && Active(r, now)
  }

  /** The index of the first active exception of a target, or the number of rows. */
  function FirstActive(rows: seq<Row>, t: Target, now: int): (i: nat)
    ensures i <= |rows|
    ensures i < |rows| ==> ActiveOn(rows[i], t, now)
    ensures forall j :: 0 <= j < i ==> !ActiveOn(rows[j], t, now)
  {
    if rows == [] || ActiveOn(rows[0], t, now) then 0 else 1 + FirstActive(rows[1..], t, now)
  }

  /** Registers an exception, or changes the terms of the active one. */
  function Upserted(rows: seq<Row>, nextId: nat, t: Target, terms: Terms, now: int): seq<Row> {
    var i := FirstActive(rows, t, now);
    if i < |rows| then rows[i := rows[i].(terms := terms, notified := None)]
    else rows + [Row(nextId, t, terms, None, None)]
  }

  function EndRow(r: Row, id: nat, reason: EndReason, now: int): Row {
    if r.id == id then r.(ended := Some(Ending(now, reason))) else r
  }

  function WithEnded(rows: seq<Row>, id: nat, reason: EndReason, now: int): seq<Row> {
    seq(|rows|, i requires 0 <= i < |rows| => EndRow(rows[i], id, reason, now))
  }

  predicate Due(r: Row, now: int) {
    r.ended.None? && r.terms.expires.Some? && r.terms.expires.value <= now
  }

  function ExpireRow(r: Row, now: int): Row {
    if Due(r, now) then r.(ended := Some(Ending(now, Expired))) else r
  }

  function WithExpired(rows: seq<Row>, now: int): seq<Row> {
    seq(|rows|, i requires 0 <= i < |rows| => ExpireRow(rows[i], now))
  }

  predicate Soon(r: Row, now: int, limit: int) {
    && r.ended.None? && r.terms.status.Accepted? && r.notified.None?
    && r.terms.expires.Some? && now < r.terms.expires.value <= limit
  }

  function NoticeRow(r: Row, now: int, limit: int): Row {
    if Soon(r, now, limit) then r.(notified := Some(now)) else r
  }

  function WithNoticed(rows: seq<Row>, now: int, limit: int): seq<Row> {
    seq(|rows|, i requires 0 <= i < |rows| => NoticeRow(rows[i], now, limit))
  }

  ghost predicate UniqueIds(rows: seq<Row>) {
    forall i, j :: 0 <= i < j < |rows| ==> rows[i].id != rows[j].id
  }

  ghost predicate IdsBelow(rows: seq<Row>, nextId: nat) {
    UniqueIds(rows) && forall i :: 0 <= i < |rows| ==> rows[i].id < nextId
  }

  function Find(rows: seq<Row>, id: nat): (i: nat)
    ensures i <= |rows|
    ensures i < |rows| ==> rows[i].id == id
    ensures forall j :: 0 <= j < i ==> rows[j].id != id
  {
    if rows == [] || rows[0].id == id then 0 else 1 + Find(rows[1..], id)
  }

  function IdsOf(ids: seq<nat>): set<nat> {
    set id | id in ids
  }

  /** The three queries of the nightly job. */
  datatype Query = DueBy(now: int) | SoonBy(now: int, limit: int) | AcceptedAt(kind: Kind, now: int)

  predicate Selects(q: Query, r: Row) {
    match q
    case DueBy(now) => Due(r, now)
    case SoonBy(now, limit) => Soon(r, now, limit)
    case AcceptedAt(kind, now) => r.target.kind == kind && r.terms.status.Accepted? && Active(r, now)
  }

  ghost function Selected(q: Query, rows: seq<Row>): set<nat> {
    set r | r in rows && Selects(q, r) :: r.id
  }

  lemma SelectedStep(q: Query, rows: seq<Row>, i: nat, ids: seq<nat>)
    requires i < |rows| && IdsOf(ids) == Selected(q, rows[..i])
    ensures IdsOf(if Selects(q, rows[i]) then ids + [rows[i].id] else ids) == Selected(q, rows[..i + 1])
  {
    var r := rows[i];
    assert rows[..i + 1] == rows[..i] + [r];
    assert IdsOf(ids + [r.id]) == IdsOf(ids) + {r.id};
    assert Selected(q, rows[..i + 1]) == Selected(q, rows[..i]) + (if Selects(q, r) then {r.id} else {});
  }

  /** The repository class over the table. */
  class ExceptionTable {
    var rows: seq<Row>
    var nextId: nat

    ghost predicate Valid()
      reads this
    {
      IdsBelow(rows, nextId)
    }

    constructor ()
      ensures Valid() && rows == [] && nextId == 1
    {
      rows, nextId := [], 1;
    }

    method UpsertActive(t: Target, terms: Terms, now: int) returns (id: nat)
      requires Valid()
      modifies this
      ensures Valid()
      ensures rows == Upserted(old(rows), old(nextId), t, terms, now)
      ensures nextId == if |rows| == |old(rows)| then old(nextId) else old(nextId) + 1
      ensures exists r :: r in rows && r.id == id && r.target == t && r.terms == terms && r.ended.None?
    {
      var i := FirstActive(rows, t, now);
      if i < |rows| {
        id := rows[i].id;
        rows := rows[i := rows[i].(terms := terms, notified := None)];
        assert rows[i] in rows;
      } else {
        id := nextId;
        rows := rows + [Row(nextId, t, terms, None, None)];
        nextId := nextId + 1;
        assert Last(rows) in rows;
      }
    }

    method End(id: nat, reason: EndReason, now: int)
      requires Valid() && Find(rows, id) < |rows|
      modifies this`rows
      ensures Valid()
      ensures rows == WithEnded(old(rows), id, reason, now)
    {
      var i := Find(rows, id);
      rows := rows[i := rows[i].(ended := Some(Ending(now, reason)))];
      assert rows == WithEnded(old(rows), id, reason, now);
    }

    method ExpireDue(now: int) returns (due: seq<nat>)
      requires Valid()
      modifies this`rows
      ensures Valid()
      ensures rows == WithExpired(old(rows), now)
      ensures IdsOf(due) == Selected(DueBy(now), old(rows))
    {
      due := [];
      ghost var before := rows;
      for i := 0 to |rows|
        invariant |rows| == |before|
        invariant forall j :: 0 <= j < i ==> rows[j] == ExpireRow(before[j], now)
        invariant forall j :: i <= j < |rows| ==> rows[j] == before[j]
        invariant IdsOf(due) == Selected(DueBy(now), before[..i])
      {
        SelectedStep(DueBy(now), before, i, due);
        if Due(rows[i], now) {
          due := due + [rows[i].id];
          rows := rows[i := rows[i].(ended := Some(Ending(now, Expired)))];
        }
      }
      assert before[..|before|] == before;
    }

    method DueSoon(now: int, days: int) returns (soon: seq<nat>)
      requires Valid()
      modifies this`rows
      ensures Valid()
      ensures rows == WithNoticed(old(rows), now, now + days)
      ensures IdsOf(soon) == Selected(SoonBy(now, now + days), old(rows))
    {
      soon := [];
      ghost var before := rows;
      for i := 0 to |rows|
        invariant |rows| == |before|
        invariant forall j :: 0 <= j < i ==> rows[j] == NoticeRow(before[j], now, now + days)
        invariant forall j :: i <= j < |rows| ==> rows[j] == before[j]
        invariant IdsOf(soon) == Selected(SoonBy(now, now + days), before[..i])
      {
        SelectedStep(SoonBy(now, now + days), before, i, soon);
        if Soon(rows[i], now, now + days) {
          soon := soon + [rows[i].id];
          rows := rows[i := rows[i].(notified := Some(now))];
        }
      }
      assert before[..|before|] == before;
    }

    method ActiveAccepted(kind: Kind, now: int) returns (ids: seq<nat>)
      requires Valid()
      ensures IdsOf(ids) == Selected(AcceptedAt(kind, now), rows)
    {
      ids := [];
      for i := 0 to |rows|
        invariant IdsOf(ids) == Selected(AcceptedAt(kind, now), rows[..i])
      {
        SelectedStep(AcceptedAt(kind, now), rows, i, ids);
        if rows[i].target.kind == kind && rows[i].terms.status.Accepted? && Active(rows[i], now) {
          ids := ids + [rows[i].id];
        }
      }
      assert rows[..|rows|] == rows;
    }
  }
}
