/** The ledger of MCP tokens (app/mcp_server/mcp_token_store.py). Times are seconds. */
module McpTokens {
  import opened Prelude

  const DAY := 86400
  const RETENTION := 30 * DAY
  const MAX_ACTIVE_TOKENS := 10
  const ALLOWED_DAYS: set<int> := {7, 30, 90}

  /** `client` is None for a token that its user issued by hand. */
  datatype Token = Token(
    id: string, username: string, client: Option<string>, expiresAt: int, revokedAt: Option<int>)

  datatype TokenStatus = Revoked | Expired | Active

  datatype Issued = Token_(token: Token) | BadDays | TooMany

  function StatusOf(t: Token, now: int): TokenStatus {
    if t.revokedAt.Some? then Revoked else if t.expiresAt <= now then Expired else Active
  }

  predicate IsStale(t: Token, username: string, now: int) {
    && t.username == username
    && ((t.revokedAt.Some? && t.revokedAt.value < now - RETENTION) || t.expiresAt < now - RETENTION)
  }

  function Purged(rows: seq<Token>, username: string, now: int): seq<Token> {
    Filter(t => !IsStale(t, username, now), rows)
  }

  predicate OwnActive(t: Token, username: string, now: int) {
    t.username == username && t.client.None? && StatusOf(t, now) == Active
  }

  function ActiveList(rows: seq<Token>, username: string, now: int): seq<Token> {
    Filter(t => OwnActive(t, username, now), rows)
  }

  /** The tokens that `Revoke` and `RevokeClient` mark. */
  predicate Chosen(t: Token, username: string, id: string) {
    t.id == id && t.username == username && t.revokedAt.None?
  }

  predicate OfClient(t: Token, username: string, client: string) {
    t.username == username && t.client == Some(client) && t.revokedAt.None?
  }

  function Mark(p: Token -> bool, rows: seq<Token>, now: int): seq<Token> {
    if rows == [] then []
    else Mark(p, Front(rows), now) + [if p(Last(rows)) then Last(rows).(revokedAt := Some(now)) else Last(rows)]
  }

  ghost predicate UniqueIds(rows: seq<Token>) {
    forall i, j :: 0 <= i < j < |rows| ==> rows[i].id != rows[j].id
  }

  ghost predicate FreshId(rows: seq<Token>, id: string) {
    forall t :: t in rows ==> t.id != id
  }

  /** What issuing by hand leaves, and its result; a refusal undoes the purge. */
  function IssueResult(rows: seq<Token>, username: string, days: int, id: string, now: int): Issued {
    if days !in ALLOWED_DAYS then BadDays
    else if |ActiveList(Purged(rows, username, now), username, now)| >= MAX_ACTIVE_TOKENS then TooMany
    else Token_(Token(id, username, None, now + days * DAY, None))
  }

  function AfterIssue(rows: seq<Token>, username: string, days: int, id: string, now: int): seq<Token> {
    var result := IssueResult(rows, username, days, id, now);
    if result.Token_? then Purged(rows, username, now) + [result.token] else rows
  }

  function AfterOAuth(rows: seq<Token>, username: string, client: string, lifetime: int, id: string, now: int): seq<Token> {
    Purged(rows, username, now) + [Token(id, username, Some(client), now + lifetime, None)]
  }

  class TokenStore {
    var rows: seq<Token>

    ghost predicate Valid()
      reads this
    {
      UniqueIds(rows)
    }

    constructor ()
      ensures Valid() && rows == []
    {
      rows := [];
    }

    method PurgeStale(username: string, now: int)
      requires Valid()
      modifies this
      ensures Valid() && rows == Purged(old(rows), username, now)
    {
      FilterKeepsUnique(t => !IsStale(t, username, now), rows);
      rows := Filter(t => !IsStale(t, username, now), rows);
    }

    /** `id` is a new identifier (a random UUID in the program). */
    method IssueToken(username: string, days: int, id: string, now: int) returns (result: Issued)
      requires Valid() && FreshId(rows, id)
      modifies this
      ensures Valid()
      ensures result == IssueResult(old(rows), username, days, id, now)
      ensures rows == AfterIssue(old(rows), username, days, id, now)
    {
      if days !in ALLOWED_DAYS {
        return BadDays;
      }
      var committed := rows;
      PurgeStale(username, now);
      FilterContents(t => !IsStale(t, username, now), committed);
      if |ActiveList(rows, username, now)| >= MAX_ACTIVE_TOKENS {
        rows := committed;
        return TooMany;
      }
      var row := Token(id, username, None, now + days * DAY, None);
      rows := rows + [row];
      result := Token_(row);
    }

    method IssueOAuthToken(username: string, client: string, lifetime: int, id: string, now: int)
      returns (row: Token)
      requires Valid() && FreshId(rows, id)
      modifies this
      ensures Valid() && rows == AfterOAuth(old(rows), username, client, lifetime, id, now)
      ensures row == Token(id, username, Some(client), now + lifetime, None)
    {
      FilterContents(t => !IsStale(t, username, now), rows);
      PurgeStale(username, now);
      row := Token(id, username, Some(client), now + lifetime, None);
      rows := rows + [row];
    }

    /** False if the user has no such token; a token revoked before stays as it was. */
    method RevokeToken(username: string, id: string, now: int) returns (found: bool)
      requires Valid()
      modifies this
      ensures Valid()
      ensures found <==> exists t :: t in old(rows) && t.id == id && t.username == username
      ensures rows == Mark(t => Chosen(t, username, id), old(rows), now)
    {
      MarkAt(t => Chosen(t, username, id), rows, now);
      ghost var marked := Mark(t => Chosen(t, username, id), rows, now);
      for n := 0 to |rows|
        invariant rows == old(rows)
        invariant forall m :: 0 <= m < n ==> !(rows[m].id == id && rows[m].username == username)
      {
        var row := rows[n];
        if row.id == id && row.username == username {
          if row.revokedAt.None? {
            rows := rows[n := row.(revokedAt := Some(now))];
          }
          assert rows == marked;
          return true;
        }
      }
      assert rows == marked;
      found := false;
    }

    method RevokeOAuthTokens(username: string, client: string, now: int) returns (count: nat)
      requires Valid()
      modifies this
      ensures Valid()
      ensures rows == Mark(t => OfClient(t, username, client), old(rows), now)
      ensures count == |Filter(t => OfClient(t, username, client), old(rows))|
    {
      var updated: seq<Token> := [];
      count := 0;
      for n := 0 to |rows|
        invariant rows == old(rows)
        invariant updated == Mark(t => OfClient(t, username, client), rows[..n], now)
        invariant count == |Filter(t => OfClient(t, username, client), rows[..n])|
      {
        assert Front(rows[..n + 1]) == rows[..n];
        var row := rows[n];
        if OfClient(row, username, client) {
          row := row.(revokedAt := Some(now));
          count := count + 1;
        }
        updated := updated + [row];
      }
      assert rows[..|rows|] == rows;
      MarkAt(t => OfClient(t, username, client), rows, now);
      rows := updated;
    }
  }

  lemma {:induction false} FilterKeepsUnique(p: Token -> bool, rows: seq<Token>)
    requires UniqueIds(rows)
    ensures UniqueIds(Filter(p, rows))
  {
    if rows != [] {
      FilterKeepsUnique(p, Front(rows));
      FilterContents(p, Front(rows));
      var kept := Filter(p, Front(rows));
      forall t | t in kept ensures t.id != Last(rows).id {
        var i :| 0 <= i < |Front(rows)| && Front(rows)[i] == t;
        assert rows[i].id != rows[|rows| - 1].id;
      }
    }
  }

  lemma {:induction false} MarkAt(p: Token -> bool, rows: seq<Token>, now: int)
    ensures |Mark(p, rows, now)| == |rows|
    ensures forall i :: 0 <= i < |rows| ==>
      Mark(p, rows, now)[i] == if p(rows[i]) then rows[i].(revokedAt := Some(now)) else rows[i]
  {
    if rows != [] {
      MarkAt(p, Front(rows), now);
    }
  }

  // --------------------------------------------------------------- sequences of calls

  datatype Event =
    | Issue(username: string, days: int, id: string, now: int)
    | IssueOAuth(username: string, client: string, lifetime: int, id: string, now: int)
    | Revoke(username: string, id: string, now: int)
    | RevokeClient(username: string, client: string, now: int)

  function Step(rows: seq<Token>, e: Event): seq<Token> {
    match e
    case Issue(username, days, id, now) => AfterIssue(rows, username, days, id, now)
    case IssueOAuth(username, client, lifetime, id, now) => AfterOAuth(rows, username, client, lifetime, id, now)
    case Revoke(username, id, now) => Mark(t => Chosen(t, username, id), rows, now)
    case RevokeClient(username, client, now) => Mark(t => OfClient(t, username, client), rows, now)
  }

  function Run(events: seq<Event>): seq<Token> {
    if events == [] then [] else Step(Run(Front(events)), Last(events))
  }

  /** The identifier that an event gives to a token, if it issues one. */
  function IdOf(e: Event): Option<string> {
    if e.Issue? || e.IssueOAuth? then Some(e.id) else None
  }

  ghost predicate Earlier(events: seq<Event>, now: int) {
    forall e :: e in events ==> e.now <= now
  }

  ghost predicate Unused(events: seq<Event>, id: string) {
    forall e :: e in events ==> IdOf(e) != Some(id)
  }

  /** The clock does not go back, and no identifier is given twice. */
  ghost predicate Proper(events: seq<Event>) {
    events == [] ||
    (&& Proper(Front(events))
     && Earlier(Front(events), Last(events).now)
     && (IdOf(Last(events)).Some? ==> Unused(Front(events), IdOf(Last(events)).value)))
  }

  predicate Revokes(e: Event, t: Token) {
    match e
    case Revoke(username, id, _) => t.username == username && t.id == id
    case RevokeClient(username, client, _) => t.username == username && t.client == Some(client)
    case _ => false
  }

  /** The token that an event puts into the ledger. */
  function NewToken(rows: seq<Token>, e: Event): Option<Token> {
    match e
    case Issue(username, days, id, now) =>
      var result := IssueResult(rows, username, days, id, now);
      if result.Token_? then Some(result.token) else None
    case IssueOAuth(username, client, lifetime, id, now) =>
      Some(Token(id, username, Some(client), now + lifetime, None))
    case _ => None
  }

  predicate IsActive(t: Token, now: int) {
    StatusOf(t, now) == Active
  }

  lemma {:induction false} MarkContents(p: Token -> bool, rows: seq<Token>, now: int)
    ensures forall t: Token :: t.revokedAt.None? ==> (t in Mark(p, rows, now) <==> t in rows && !p(t))
  {
    if rows != [] {
      MarkContents(p, Front(rows), now);
      assert rows == Front(rows) + [Last(rows)];
    }
  }

  /** A step leaves the active tokens as they are, except that those it revokes are gone and the one
    it issues is there. So a purge removes no active token, and nothing else makes one active. */
  lemma ActiveAfterStepExactly(rows: seq<Token>, e: Event, t: Token, later: int)
    requires e.now <= later && IsActive(t, later)
    ensures t in Step(rows, e) <==> (t in rows && !Revokes(e, t)) || NewToken(rows, e) == Some(t)
  {
    match e {
      case Issue(username, days, id, now) => FilterContents(u => !IsStale(u, username, now), rows);
      case IssueOAuth(username, client, lifetime, id, now) => FilterContents(u => !IsStale(u, username, now), rows);
      case Revoke(username, id, now) => MarkContents(u => Chosen(u, username, id), rows, now);
      case RevokeClient(username, client, now) => MarkContents(u => OfClient(u, username, client), rows, now);
    }
  }

  ghost predicate ActiveId(rows: seq<Token>, id: string, now: int) {
    exists t :: t in rows && t.id == id && IsActive(t, now)
  }

  lemma StepIds(rows: seq<Token>, e: Event, t: Token)
    requires t in Step(rows, e)
    ensures IdOf(e) == Some(t.id) || !FreshId(rows, t.id)
  {
    match e {
      case Issue(username, days, id, now) => FilterContents(u => !IsStale(u, username, now), rows);
      case IssueOAuth(username, client, lifetime, id, now) => FilterContents(u => !IsStale(u, username, now), rows);
      case Revoke(username, id, now) => MarkAt(u => Chosen(u, username, id), rows, now);
      case RevokeClient(username, client, now) => MarkAt(u => OfClient(u, username, client), rows, now);
    }
  }

  lemma StepKeepsUnique(rows: seq<Token>, e: Event)
    requires UniqueIds(rows) && (IdOf(e).Some? ==> FreshId(rows, IdOf(e).value))
    ensures UniqueIds(Step(rows, e))
  {
    match e {
      case Issue(username, days, id, now) =>
        FilterKeepsUnique(u => !IsStale(u, username, now), rows);
        FilterContents(u => !IsStale(u, username, now), rows);
      case IssueOAuth(username, client, lifetime, id, now) =>
        FilterKeepsUnique(u => !IsStale(u, username, now), rows);
        FilterContents(u => !IsStale(u, username, now), rows);
      case Revoke(username, id, now) => MarkAt(u => Chosen(u, username, id), rows, now);
      case RevokeClient(username, client, now) => MarkAt(u => OfClient(u, username, client), rows, now);
    }
  }

  /** In every reachable ledger identifiers are unique and were given by some call, so that a new
    one is fresh. */
  lemma {:induction false} ReachableIsValid(events: seq<Event>)
    requires Proper(events)
    ensures UniqueIds(Run(events))
    ensures forall id :: Unused(events, id) ==> FreshId(Run(events), id)
  {
    if events != [] {
      var before, e := Front(events), Last(events);
      ReachableIsValid(before);
      StepKeepsUnique(Run(before), e);
      assert events == before + [e];
      forall id | Unused(events, id) ensures FreshId(Run(events), id) {
        assert Unused(before, id) && e in events;
        forall t | t in Run(events) ensures t.id != id {
          StepIds(Run(before), e, t);
        }
      }
    }
  }

  /** A token that was issued and is not active is never active again. */
  lemma {:induction false} NeverActiveAgain(events: seq<Event>, n: nat, id: string, now: int, later: int)
    requires Proper(events) && n <= |events| && !Unused(events[..n], id)
    requires !ActiveId(Run(events[..n]), id, now)
    requires now <= later && (forall m :: n <= m < |events| ==> now <= events[m].now) && Earlier(events, later)
    ensures !ActiveId(Run(events), id, later)
    decreases |events|
  {
    if n == |events| {
      assert events[..n] == events;
      assert forall t: Token :: IsActive(t, later) ==> IsActive(t, now);
    } else {
      var before, e := Front(events), Last(events);
      assert before[..n] == events[..n];
      assert e in events && now <= e.now;
      NeverActiveAgain(before, n, id, now, later);
      var f :| f in events[..n] && IdOf(f) == Some(id);
      assert f in before;
      forall t: Token | t.id == id && IsActive(t, later) ensures t !in Run(events) {
        ActiveAfterStepExactly(Run(before), e, t, later);
      }
    }
  }

  // ------------------------------------------------------------------------- the limit

  function ActiveSet(rows: seq<Token>, username: string, now: int): set<Token> {
    set t | t in rows && OwnActive(t, username, now)
  }

  lemma ActiveSetStep(rows: seq<Token>, username: string, now: int)
    requires rows != []
    ensures var rest := ActiveSet(Front(rows), username, now);
      && ActiveSet(rows, username, now) == (if OwnActive(Last(rows), username, now) then rest + {Last(rows)} else rest)
      && (UniqueIds(rows) ==> Last(rows) !in rest)
  {
    assert rows == Front(rows) + [Last(rows)];
    if UniqueIds(rows) {
      forall i | 0 <= i < |Front(rows)| ensures Front(rows)[i] != Last(rows) {
        assert rows[i].id != rows[|rows| - 1].id;
      }
    }
  }

  lemma {:induction false} ActiveListSize(rows: seq<Token>, username: string, now: int)
    ensures |ActiveSet(rows, username, now)| <= |ActiveList(rows, username, now)|
    ensures UniqueIds(rows) ==> |ActiveSet(rows, username, now)| == |ActiveList(rows, username, now)|
  {
    if rows == [] {
      assert ActiveSet(rows, username, now) == {};
    } else {
      ActiveListSize(Front(rows), username, now);
      ActiveSetStep(rows, username, now);
    }
  }

  /** Whatever the calls, at every moment after them a user has at most ten active tokens that were
    issued by hand. */
  lemma {:induction false} AtMostTenActive(events: seq<Event>, username: string, now: int)
    requires Proper(events) && Earlier(events, now)
    ensures |ActiveSet(Run(events), username, now)| <= MAX_ACTIVE_TOKENS
  {
    if events == [] {
      assert ActiveSet(Run(events), username, now) == {};
    } else {
      var before, e := Front(events), Last(events);
      assert e in events;
      AtMostTenActive(before, username, e.now);
      var now0, rows, rows' := e.now, Run(before), Run(events);
      SetShrinks(rows, username, now0, now);
      forall t | t in ActiveSet(rows', username, now)
        ensures t in ActiveSet(rows, username, now0) || NewToken(rows, e) == Some(t)
      {
        ActiveAfterStepExactly(rows, e, t, now);
      }
      LimitStep(rows, e, rows', username, now);
    }
  }

  lemma SetShrinks(rows: seq<Token>, username: string, now: int, later: int)
    requires now <= later
    ensures ActiveSet(rows, username, later) <= ActiveSet(rows, username, now)
  {
  }

  lemma LimitStep(rows: seq<Token>, e: Event, rows': seq<Token>, username: string, now: int)
    requires |ActiveSet(rows, username, e.now)| <= MAX_ACTIVE_TOKENS
    requires forall t :: t in ActiveSet(rows', username, now) ==>
      t in ActiveSet(rows, username, e.now) || NewToken(rows, e) == Some(t)
    ensures |ActiveSet(rows', username, now)| <= MAX_ACTIVE_TOKENS
  {
    var before, after := ActiveSet(rows, username, e.now), ActiveSet(rows', username, now);
    var new' := NewToken(rows, e);
    if new'.Some? && new'.value in after && new'.value !in before {
      assert e.Issue? && e.username == username;
      PurgeKeepsActive(rows, username, e.now);
      ActiveListSize(Purged(rows, username, e.now), username, e.now);
      assert |before| < MAX_ACTIVE_TOKENS;
      SubsetSize(after, before + {new'.value});
    } else {
      SubsetSize(after, before);
    }
  }

  lemma PurgeKeepsActive(rows: seq<Token>, username: string, now: int)
    ensures ActiveSet(Purged(rows, username, now), username, now) == ActiveSet(rows, username, now)
  {
    FilterContents(t => !IsStale(t, username, now), rows);
  }

  /** Issuing by hand for an allowed number of days is refused exactly when the user has ten active
    tokens; otherwise the user has one more. */
  lemma IssueExactly(rows: seq<Token>, username: string, days: int, id: string, now: int)
    requires UniqueIds(rows) && FreshId(rows, id) && days in ALLOWED_DAYS
    ensures var before, after := ActiveSet(rows, username, now), ActiveSet(AfterIssue(rows, username, days, id, now), username, now);
      if |before| >= MAX_ACTIVE_TOKENS then
        IssueResult(rows, username, days, id, now) == TooMany && after == before
      else
        IssueResult(rows, username, days, id, now).Token_? && |after| == |before| + 1
  {
    var purged := Purged(rows, username, now);
    FilterKeepsUnique(t => !IsStale(t, username, now), rows);
    PurgeKeepsActive(rows, username, now);
    ActiveListSize(purged, username, now);
    var result := IssueResult(rows, username, days, id, now);
    if result.Token_? {
      var before := ActiveSet(rows, username, now);
      assert result.token !in before;
      assert ActiveSet(purged + [result.token], username, now) == before + {result.token};
    }
  }

  // ------------------------------------------------------------------ in fields

  /** Revoked comes before expired, and expired means that the time has come. */
  lemma StatusExactly(t: Token, now: int)
    ensures StatusOf(t, now) == Revoked <==> t.revokedAt.Some?
    ensures StatusOf(t, now) == Expired <==> t.revokedAt == None && t.expiresAt <= now
    ensures StatusOf(t, now) == Active <==> t.revokedAt == None && now < t.expiresAt
  {
  }

  /** A purge takes exactly the user's tokens that were revoked, or expired, over thirty days ago. */
  lemma PurgedExactly(rows: seq<Token>, username: string, now: int, t: Token)
    ensures t in Purged(rows, username, now) <==>
      && t in rows
      && !(t.username == username
           && ((t.revokedAt.Some? && t.revokedAt.value + 2_592_000 < now) || t.expiresAt + 2_592_000 < now))
  {
    FilterContents(u => !IsStale(u, username, now), rows);
  }

  /** What is issued: by hand for 7, 30 or 90 days while the user has fewer than ten active tokens, and
    to a client for the time it asks for, whatever the number. */
  lemma IssuedExactly(rows: seq<Token>, e: Event)
    requires UniqueIds(rows)
    ensures e.Issue? ==>
      NewToken(rows, e)
        == if (e.days == 7 || e.days == 30 || e.days == 90) && |ActiveSet(rows, e.username, e.now)| < 10
           then Some(Token(e.id, e.username, None, e.now + e.days * 86400, None)) else None
    ensures e.Issue? ==>
      (IssueResult(rows, e.username, e.days, e.id, e.now) == BadDays <==> e.days != 7 && e.days != 30 && e.days != 90)
    ensures e.IssueOAuth? ==>
      NewToken(rows, e) == Some(Token(e.id, e.username, Some(e.client), e.now + e.lifetime, None))
    ensures e.Revoke? || e.RevokeClient? ==> NewToken(rows, e) == None
  {
    if e.Issue? {
      FilterKeepsUnique(t => !IsStale(t, e.username, e.now), rows);
      PurgeKeepsActive(rows, e.username, e.now);
      ActiveListSize(Purged(rows, e.username, e.now), e.username, e.now);
    }
  }

  /** Those that count are the user's own, issued by hand. */
  lemma CountedExactly(rows: seq<Token>, username: string, now: int, t: Token)
    ensures t in ActiveSet(rows, username, now) <==>
      t in rows && t.username == username && t.client == None && t.revokedAt == None && now < t.expiresAt
  {
  }

  /** A revocation leaves the tokens in place and marks, at its time, the user's unrevoked token with the
    identifier, or all unrevoked tokens that the user gave the client. */
  lemma RevokedExactly(rows: seq<Token>, e: Event, i: nat)
    requires i < |rows| && (e.Revoke? || e.RevokeClient?)
    ensures |Step(rows, e)| == |rows|
    ensures Step(rows, e)[i] ==
      if rows[i].username == e.username && rows[i].revokedAt == None
         && (if e.Revoke? then rows[i].id == e.id else rows[i].client == Some(e.client))
      then rows[i].(revokedAt := Some(e.now)) else rows[i]
  {
    match e
    case Revoke(username, id, now) => MarkAt(t => Chosen(t, username, id), rows, now);
    case RevokeClient(username, client, now) => MarkAt(t => OfClient(t, username, client), rows, now);
  }

  /** A call that issues a token leaves it and the tokens that the user's purge leaves; one that is
    refused leaves the ledger as it was. */
  lemma LeftAfterIssue(rows: seq<Token>, e: Event, t: Token)
    requires e.Issue? || e.IssueOAuth?
    ensures t in Step(rows, e) <==>
      if NewToken(rows, e) == None then t in rows
      else
        || NewToken(rows, e) == Some(t)
        || (t in rows
            && !(t.username == e.username
                 && ((t.revokedAt.Some? && t.revokedAt.value + 2_592_000 < e.now) || t.expiresAt + 2_592_000 < e.now)))
  {
    PurgedExactly(rows, e.username, e.now, t);
  }
}
