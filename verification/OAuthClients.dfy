/** The registration of OAuth clients (app/mcp_server/oauth/clients.py). Times are seconds. */
module OAuthClients {
  import opened Prelude

  const MAX_REGISTRATIONS_PER_HOUR := 60
  const MAX_CLIENTS := 1000
  const HOUR := 3600
  const UNUSED_RETENTION := 30 * 24 * HOUR

  datatype Client = Client(id: string, createdAt: int, lastUsedAt: Option<int>)

  datatype SaveOutcome = Saved | Invalid | TooManyRegistrations

  predicate IsUnused(c: Client, now: int) {
    c.lastUsedAt.None? && c.createdAt < now - UNUSED_RETENTION
  }

  function Purged(rows: seq<Client>, now: int): seq<Client> {
    Filter(c => !IsUnused(c, now), rows)
  }

  function Recent(rows: seq<Client>, now: int): seq<Client> {
    Filter((c: Client) => c.createdAt > now - HOUR, rows)
  }

  function SaveResult(rows: seq<Client>, valid: bool, now: int): SaveOutcome {
    var purged := Purged(rows, now);
    if !valid then Invalid
    else if |Recent(purged, now)| >= MAX_REGISTRATIONS_PER_HOUR || |purged| >= MAX_CLIENTS then TooManyRegistrations
    else Saved
  }

  /** A refused registration has purged all the same; an invalid one has not. */
  function AfterSave(rows: seq<Client>, id: string, valid: bool, now: int): seq<Client> {
    match SaveResult(rows, valid, now)
    case Invalid => rows
    case TooManyRegistrations => Purged(rows, now)
    case Saved => Purged(rows, now) + [Client(id, now, None)]
  }

  function AfterTouch(rows: seq<Client>, id: string, now: int): seq<Client> {
    if rows == [] then []
    else AfterTouch(Front(rows), id, now)
         + [if Last(rows).id == id then Last(rows).(lastUsedAt := Some(now)) else Last(rows)]
  }

  ghost predicate UniqueIds(rows: seq<Client>) {
    forall i, j :: 0 <= i < j < |rows| ==> rows[i].id != rows[j].id
  }

  class ClientTable {
    var rows: seq<Client>

    ghost predicate Valid()
      reads this
    {
      UniqueIds(rows) && |rows| <= MAX_CLIENTS
    }

    constructor ()
      ensures Valid() && rows == []
    {
      rows := [];
    }

    method PurgeUnused(now: int) returns (count: nat)
      requires Valid()
      modifies this
      ensures Valid() && rows == Purged(old(rows), now)
      ensures count == |old(rows)| - |rows|
    {
      var kept := [];
      count := 0;
      for n := 0 to |rows|
        invariant rows == old(rows)
        invariant kept == Purged(rows[..n], now) && count == n - |kept|
      {
        assert Front(rows[..n + 1]) == rows[..n];
        if IsUnused(rows[n], now) {
          count := count + 1;
        } else {
          kept := kept + [rows[n]];
        }
      }
      assert rows[..|rows|] == rows;
      PurgeKeepsUnique(rows, now);
      rows := kept;
    }

    /** `valid` is the outcome of the validation of the redirect URIs; `id` is new. */
    method SaveClient(id: string, valid: bool, now: int) returns (result: SaveOutcome)
      requires Valid() && forall c :: c in rows ==> c.id != id
      modifies this
      ensures Valid()
      ensures result == SaveResult(old(rows), valid, now)
      ensures rows == AfterSave(old(rows), id, valid, now)
    {
      if !valid {
        return Invalid;
      }
      FilterContents(c => !IsUnused(c, now), rows);
      var _ := PurgeUnused(now);
      var recent := Recent(rows, now);
      if |recent| >= MAX_REGISTRATIONS_PER_HOUR || |rows| >= MAX_CLIENTS {
        return TooManyRegistrations;
      }
      rows := rows + [Client(id, now, None)];
      result := Saved;
    }

    method TouchClient(id: string, now: int)
      requires Valid()
      modifies this
      ensures Valid() && rows == AfterTouch(old(rows), id, now)
    {
      TouchAt(rows, id, now);
      ghost var after := AfterTouch(rows, id, now);
      for n := 0 to |rows|
        invariant rows == old(rows)
        invariant forall m :: 0 <= m < n ==> rows[m].id != id
      {
        if rows[n].id == id {
          rows := rows[n := rows[n].(lastUsedAt := Some(now))];
          assert rows == after;
          return;
        }
      }
      assert rows == after;
    }
  }

  lemma {:induction false} PurgeKeepsUnique(rows: seq<Client>, now: int)
    requires UniqueIds(rows)
    ensures UniqueIds(Purged(rows, now)) && |Purged(rows, now)| <= |rows|
  {
    if rows != [] {
      PurgeKeepsUnique(Front(rows), now);
      var kept := Purged(Front(rows), now);
      FilterContents(c => !IsUnused(c, now), Front(rows));
      forall c | c in kept ensures c.id != Last(rows).id {
        var i :| 0 <= i < |Front(rows)| && Front(rows)[i] == c;
        assert rows[i].id != rows[|rows| - 1].id;
      }
    }
  }

  lemma {:induction false} TouchAt(rows: seq<Client>, id: string, now: int)
    ensures |AfterTouch(rows, id, now)| == |rows|
    ensures forall i :: 0 <= i < |rows| ==>
      AfterTouch(rows, id, now)[i] == if rows[i].id == id then rows[i].(lastUsedAt := Some(now)) else rows[i]
  {
    if rows != [] {
      TouchAt(Front(rows), id, now);
    }
  }

  // ---------------------------------------------------------------- sequences of calls

  datatype Event =
    | Save(id: string, valid: bool, now: int)
    | Touch(id: string, now: int)
    | Purge(now: int)

  function Step(rows: seq<Client>, e: Event): seq<Client> {
    match e
    case Save(id, valid, now) => AfterSave(rows, id, valid, now)
    case Touch(id, now) => AfterTouch(rows, id, now)
    case Purge(now) => Purged(rows, now)
  }

  function Run(events: seq<Event>): seq<Client> {
    if events == [] then [] else Step(Run(Front(events)), Last(events))
  }

  /** The times of all registrations that were accepted. */
  function Accepted(events: seq<Event>): seq<int> {
    if events == [] then []
    else
      var before, e := Accepted(Front(events)), Last(events);
      if e.Save? && SaveResult(Run(Front(events)), e.valid, e.now).Saved? then before + [e.now] else before
  }

  /** How many of these times are in the hour that ends at `t`. */
  function InHour(times: seq<int>, t: int): nat {
    |Filter(u => t - HOUR < u <= t, times)|
  }

  /** The clock does not go back. */
  ghost predicate InOrder(events: seq<Event>) {
    forall i, j :: 0 <= i <= j < |events| ==> events[i].now <= events[j].now
  }

  ghost predicate Earlier(events: seq<Event>, now: int) {
    forall e :: e in events ==> e.now <= now
  }

  /** Those created after `since`. */
  function CreatedAfter(rows: seq<Client>, since: int): nat {
    |Filter((c: Client) => c.createdAt > since, rows)|
  }

  function After(times: seq<int>, since: int): nat {
    |Filter(u => u > since, times)|
  }

  lemma {:induction false} PurgeKeepsYoung(rows: seq<Client>, now: int, since: int)
    requires since >= now - HOUR
    ensures CreatedAfter(Purged(rows, now), since) == CreatedAfter(rows, since)
  {
    if rows != [] {
      PurgeKeepsYoung(Front(rows), now, since);
      var kept := Purged(Front(rows), now);
      assert Front(kept + [Last(rows)]) == kept;
      assert kept + [] == kept;
    }
  }

  lemma {:induction false} TouchKeepsTimes(rows: seq<Client>, id: string, now: int, since: int)
    ensures CreatedAfter(AfterTouch(rows, id, now), since) == CreatedAfter(rows, since)
  {
    if rows != [] {
      TouchKeepsTimes(Front(rows), id, now, since);
      var touched := AfterTouch(rows, id, now);
      assert Front(touched) == AfterTouch(Front(rows), id, now);
    }
  }

  lemma CreatedAfterAppend(rows: seq<Client>, c: Client, since: int)
    ensures CreatedAfter(rows + [c], since) == CreatedAfter(rows, since) + if c.createdAt > since then 1 else 0
  {
    assert Front(rows + [c]) == rows;
  }

  lemma AfterAppend(times: seq<int>, t: int, since: int)
    ensures After(times + [t], since) == After(times, since) + if t > since then 1 else 0
  {
    assert Front(times + [t]) == times;
  }

  /** The rows that the hourly limit counts are all the registrations of the last hour, although the
    table is purged. */
  lemma {:induction false} RecentIsTheTrueCount(events: seq<Event>, since: int)
    requires forall e :: e in events ==> e.now - HOUR <= since
    ensures CreatedAfter(Run(events), since) == After(Accepted(events), since)
  {
    if events != [] {
      var before, e := Front(events), Last(events);
      assert e in events;
      RecentIsTheTrueCount(before, since);
      var rows := Run(before);
      match e {
        case Save(id, valid, now) =>
          PurgeKeepsYoung(rows, now, since);
          CreatedAfterAppend(Purged(rows, now), Client(id, now, None), since);
          AfterAppend(Accepted(before), now, since);
        case Touch(id, now) => TouchKeepsTimes(rows, id, now, since);
        case Purge(now) => PurgeKeepsYoung(rows, now, since);
      }
    }
  }

  lemma {:induction false} AcceptedInOrder(events: seq<Event>, now: int)
    requires Earlier(events, now)
    ensures forall u :: u in Accepted(events) ==> u <= now
  {
    if events != [] {
      assert Last(events) in events;
      AcceptedInOrder(Front(events), now);
    }
  }

  lemma {:induction false} HourWithin(times: seq<int>, t: int, now: int)
    requires (forall u :: u in times ==> u <= now) && now <= t
    ensures InHour(times, t) <= After(times, now - HOUR)
  {
    if times != [] {
      assert forall u :: u in Front(times) ==> u in times;
      assert Last(times) in times;
      HourWithin(Front(times), t, now);
    }
  }

  lemma InHourAppend(times: seq<int>, u: int, t: int)
    ensures InHour(times + [u], t) == InHour(times, t) + if t - HOUR < u <= t then 1 else 0
  {
    assert Front(times + [u]) == times;
  }

  /** Whatever the calls, no hour at all, past or present, holds more than sixty accepted
    registrations. */
  lemma {:induction false} AtMostSixtyAnHour(events: seq<Event>, t: int)
    requires InOrder(events)
    ensures InHour(Accepted(events), t) <= MAX_REGISTRATIONS_PER_HOUR
  {
    if events != [] {
      var before, e := Front(events), Last(events);
      AtMostSixtyAnHour(before, t);
      if e.Save? && SaveResult(Run(before), e.valid, e.now).Saved? {
        InHourAppend(Accepted(before), e.now, t);
        if e.now <= t {
          EarlierThanLast(events);
          RoomInTheHour(before, e, t);
        }
      }
    }
  }

  lemma RoomInTheHour(before: seq<Event>, e: Event, t: int)
    requires Earlier(before, e.now) && e.now <= t
    requires e.Save? && SaveResult(Run(before), e.valid, e.now).Saved?
    ensures InHour(Accepted(before), t) < MAX_REGISTRATIONS_PER_HOUR
  {
    AcceptedInOrder(before, e.now);
    HourWithin(Accepted(before), t, e.now);
    AllRecent(before, e.now);
    SavedMeansRoom(Run(before), e.valid, e.now);
  }

  lemma SavedMeansRoom(rows: seq<Client>, valid: bool, now: int)
    requires SaveResult(rows, valid, now).Saved?
    ensures CreatedAfter(rows, now - HOUR) < MAX_REGISTRATIONS_PER_HOUR
  {
    PurgeKeepsYoung(rows, now, now - HOUR);
  }

  lemma AllRecent(events: seq<Event>, now: int)
    requires Earlier(events, now)
    ensures CreatedAfter(Run(events), now - HOUR) == After(Accepted(events), now - HOUR)
  {
    RecentIsTheTrueCount(events, now - HOUR);
  }

  lemma EarlierThanLast(events: seq<Event>)
    requires InOrder(events) && events != []
    ensures Earlier(Front(events), Last(events).now)
  {
    forall e | e in Front(events) ensures e.now <= Last(events).now {
      var i :| 0 <= i < |Front(events)| && Front(events)[i] == e;
      assert events[i].now <= events[|events| - 1].now;
    }
  }

  /** There are never more than a thousand clients. */
  lemma {:induction false} AtMostThousandClients(events: seq<Event>)
    ensures |Run(events)| <= MAX_CLIENTS
  {
    if events != [] {
      var rows, e := Run(Front(events)), Last(events);
      AtMostThousandClients(Front(events));
      PurgeShrinks(rows, e.now);
      if e.Touch? {
        TouchAt(rows, e.id, e.now);
      }
    }
  }

  lemma {:induction false} PurgeShrinks(rows: seq<Client>, now: int)
    ensures |Purged(rows, now)| <= |rows|
  {
    if rows != [] {
      PurgeShrinks(Front(rows), now);
    }
  }

  ghost predicate Present(rows: seq<Client>, id: string) {
    exists c :: c in rows && c.id == id
  }

  ghost predicate Used(rows: seq<Client>, id: string) {
    exists c :: c in rows && c.id == id && c.lastUsedAt.Some?
  }

  /** A client that has been used is never removed, whatever calls follow. */
  lemma {:induction false} UsedIsKept(events: seq<Event>, n: nat, id: string)
    requires n <= |events| && Used(Run(events[..n]), id)
    ensures Used(Run(events), id)
    decreases |events|
  {
    if n == |events| {
      assert events[..n] == events;
    } else {
      assert Front(events)[..n] == events[..n];
      UsedIsKept(Front(events), n, id);
      StepKeepsUsed(Run(Front(events)), Last(events), id);
    }
  }

  lemma StepKeepsUsed(rows: seq<Client>, e: Event, id: string)
    requires Used(rows, id)
    ensures Used(Step(rows, e), id)
  {
    var c :| c in rows && c.id == id && c.lastUsedAt.Some?;
    FilterContents(d => !IsUnused(d, e.now), rows);
    if e.Touch? {
      TouchAt(rows, e.id, e.now);
      var i :| 0 <= i < |rows| && rows[i] == c;
      assert AfterTouch(rows, e.id, e.now)[i].id == id;
    } else {
      assert c in Step(rows, e);
    }
  }

  /** A call removes a client only by a purge, when it was never used and is over thirty days old. */
  lemma RemovedExactly(rows: seq<Client>, e: Event, c: Client)
    requires UniqueIds(rows) && c in rows
    requires e.Save? ==> e.id != c.id
    ensures !Present(Step(rows, e), c.id) <==>
      (e.Purge? || (e.Save? && e.valid)) && c.lastUsedAt.None? && c.createdAt < e.now - UNUSED_RETENTION
  {
    FilterContents(d => !IsUnused(d, e.now), rows);
    if e.Touch? {
      TouchAt(rows, e.id, e.now);
      var i :| 0 <= i < |rows| && rows[i] == c;
      assert AfterTouch(rows, e.id, e.now)[i].id == c.id;
    } else {
      var i :| 0 <= i < |rows| && rows[i] == c;
      forall d | d in rows && d.id == c.id ensures d == c {
        var j :| 0 <= j < |rows| && rows[j] == d;
      }
    }
  }

  // ------------------------------------------------------------------ in fields

  lemma SavedExactly(rows: seq<Client>, valid: bool, now: int)
    ensures SaveResult(rows, valid, now) == Invalid <==> !valid
    ensures SaveResult(rows, valid, now) == Saved <==>
      valid && CreatedAfter(rows, now - 3600) < 60 && |Purged(rows, now)| < 1000
  {
    PurgeKeepsYoung(rows, now, now - 3600);
  }

  /** A registration is accepted exactly when it is valid, fewer than sixty were accepted in the hour
    before it, and, after the purge, there are fewer than a thousand clients. */
  lemma AcceptedExactly(events: seq<Event>, id: string, valid: bool, now: int)
    requires Earlier(events, now)
    ensures SaveResult(Run(events), valid, now) == Saved <==>
      valid && After(Accepted(events), now - 3600) < 60 && |Purged(Run(events), now)| < 1000
  {
    SavedExactly(Run(events), valid, now);
    RecentIsTheTrueCount(events, now - 3600);
  }

  /** A purge takes exactly the clients that were never used and are over thirty days old. */
  lemma PurgedExactly(rows: seq<Client>, now: int, c: Client)
    ensures c in Purged(rows, now) <==> c in rows && !(c.lastUsedAt == None && c.createdAt + 2_592_000 < now)
  {
    FilterContents(d => !IsUnused(d, now), rows);
  }

  /** What a call leaves: an accepted registration adds its client, unused and created now; a valid one
    has purged; a use marks its client, at its time. */
  lemma StepExactly(rows: seq<Client>, e: Event)
    ensures e.Purge? ==> Step(rows, e) == Purged(rows, e.now)
    ensures e.Save? ==>
      Step(rows, e) == if !e.valid then rows
                       else Purged(rows, e.now)
                            + if SaveResult(rows, e.valid, e.now) == Saved then [Client(e.id, e.now, None)] else []
    ensures e.Touch? ==> |Step(rows, e)| == |rows| && forall i :: 0 <= i < |rows| ==>
      Step(rows, e)[i] == if rows[i].id == e.id then Client(e.id, rows[i].createdAt, Some(e.now)) else rows[i]
  {
    if e.Touch? {
      TouchAt(rows, e.id, e.now);
    }
    assert Purged(rows, e.now) + [] == Purged(rows, e.now);
  }
}
