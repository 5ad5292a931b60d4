/** Failures since the last lock, told by the calls alone, and what eviction does to them. */
module RateLimitLockout {
  import opened Prelude
  import opened RateLimiting
  import opened RateLimitRuns

  predicate IsFailureOf(e: Event, c: Client) {
    e.Failure? && e.client == c
  }

  /** The failures of `c` since it was last locked, whether the table remembers them or not. */
  function SinceLock(cfg: Config, events: seq<Event>, c: Client): seq<real> {
    if events == [] then []
    else if Locks(cfg, After(cfg, Front(events)), Last(events), c) then []
    else SinceLock(cfg, Front(events), c) + (if IsFailureOf(Last(events), c) then [Last(events).at] else [])
  }

  /** The rule as it is documented, without any table: enough failures in the window lock, and a
    lock starts the count afresh. */
  function Counted(cfg: Config, events: seq<Event>, c: Client): seq<real> {
    if events == [] then []
    else
      var before, e := Counted(cfg, Front(events), c), Last(events);
      if !IsFailureOf(e, c) then before
      else if Enough(cfg, before, e.at) then []
      else before + [e.at]
  }

  /** The failure table never drops `c` once it has an entry. */
  ghost predicate FailuresKept(cfg: Config, events: seq<Event>, c: Client) {
    forall i :: 0 <= i < |events| && c in After(cfg, events[..i]).failures.deques
      ==> c in After(cfg, events[..i + 1]).failures.deques
  }

  lemma KeptInFront(cfg: Config, events: seq<Event>, c: Client)
    requires events != [] && FailuresKept(cfg, events, c)
    ensures FailuresKept(cfg, Front(events), c)
    ensures c in After(cfg, Front(events)).failures.deques ==> c in After(cfg, events).failures.deques
  {
    var front, n := Front(events), |events| - 1;
    forall i | 0 <= i < n && c in After(cfg, front[..i]).failures.deques
      ensures c in After(cfg, front[..i + 1]).failures.deques
    {
      assert front[..i] == events[..i] && front[..i + 1] == events[..i + 1];
    }
    assert events[..n] == front && events[..n + 1] == events;
  }

  /** While the table keeps the client, what it counts are all failures since the last lock. */
  lemma {:induction false} TenureIsSinceLock(cfg: Config, events: seq<Event>, c: Client)
    requires FailuresKept(cfg, events, c)
    ensures FailureTenure(cfg, events, c) == SinceLock(cfg, events, c)
    ensures c !in After(cfg, events).failures.deques ==> SinceLock(cfg, events, c) == []
  {
    if events != [] {
      KeptInFront(cfg, events, c);
      TenureIsSinceLock(cfg, Front(events), c);
      FailuresStayBounded(cfg, events);
    }
  }

  /** In any case it counts the last of them. */
  lemma {:induction false} TenureEndsSinceLock(cfg: Config, events: seq<Event>, c: Client) returns (n: nat)
    ensures n <= |SinceLock(cfg, events, c)|
    ensures FailureTenure(cfg, events, c) == SinceLock(cfg, events, c)[n..]
  {
    n := 0;
    if events != [] {
      var before := SinceLock(cfg, Front(events), c);
      n := TenureEndsSinceLock(cfg, Front(events), c);
      if FailureTenure(cfg, events, c) == [] {
        n := |SinceLock(cfg, events, c)|;
      }
    }
  }

  lemma {:induction false} CountOfEnd(times: seq<real>, n: nat, lo: real, hi: real)
    requires n <= |times|
    ensures CountIn(times[n..], lo, hi) <= CountIn(times, lo, hi)
  {
    if n == 0 {
      assert times[0..] == times;
    } else {
      CountOfEnd(times[1..], n - 1, lo, hi);
      assert times[1..][n - 1..] == times[n..];
    }
  }

  lemma CountsCompare(cfg: Config, events: seq<Event>, c: Client, lo: real, hi: real)
    ensures CountIn(FailureTenure(cfg, events, c), lo, hi) <= CountIn(SinceLock(cfg, events, c), lo, hi)
  {
    var n := TenureEndsSinceLock(cfg, events, c);
    CountOfEnd(SinceLock(cfg, events, c), n, lo, hi);
  }

  lemma EnoughOfAll(cfg: Config, events: seq<Event>, c: Client, now: real)
    requires Enough(cfg, FailureTenure(cfg, events, c), now)
    ensures Enough(cfg, SinceLock(cfg, events, c), now)
  {
    CountsCompare(cfg, events, c, now - cfg.failureWindow, now);
  }

  /** No client is locked without `lockoutFailures` failures since its last lock in the failure
    window. */
  lemma NoLockWithoutFailures(cfg: Config, events: seq<Event>, c: Client, now: real)
    requires InClockOrder(events + [Failure(c, now)])
    requires Locks(cfg, After(cfg, events), Failure(c, now), c)
    ensures Enough(cfg, SinceLock(cfg, events, c), now)
  {
    LockedAfterEnoughFailures(cfg, events, c, now);
    EnoughOfAll(cfg, events, c, now);
  }

  lemma SameWhileKept(cfg: Config, events: seq<Event>, c: Client, now: real)
    requires FailuresKept(cfg, events, c)
    ensures Enough(cfg, FailureTenure(cfg, events, c), now) == Enough(cfg, SinceLock(cfg, events, c), now)
  {
    TenureIsSinceLock(cfg, events, c);
  }

  /** While the table keeps the client, exactly those lock it. */
  lemma LockedExactlyWhileKept(cfg: Config, events: seq<Event>, c: Client, now: real)
    requires InClockOrder(events + [Failure(c, now)]) && FailuresKept(cfg, events, c)
    ensures Locks(cfg, After(cfg, events), Failure(c, now), c) <==> Enough(cfg, SinceLock(cfg, events, c), now)
  {
    SameWhileKept(cfg, events, c, now);
    LockedAfterEnoughFailures(cfg, events, c, now);
  }

  /** So for such a client the limiter follows the documented rule. */
  lemma {:induction false} KeptClientsFollowTheRule(cfg: Config, events: seq<Event>, c: Client)
    requires InClockOrder(events) && FailuresKept(cfg, events, c)
    ensures SinceLock(cfg, events, c) == Counted(cfg, events, c)
  {
    if events != [] {
      var front, e := Front(events), Last(events);
      FrontInOrder(events);
      assert front + [e] == events;
      KeptInFront(cfg, events, c);
      KeptClientsFollowTheRule(cfg, front, c);
      if IsFailureOf(e, c) {
        FailureIs(e, c);
        LockedExactlyWhileKept(cfg, front, c, e.at);
      }
    }
  }

  lemma FailureIs(e: Event, c: Client)
    requires IsFailureOf(e, c)
    ensures e == Failure(c, e.at)
  {
  }

  // ------------------------------------------------------------- eviction forgets

  /** `first` fails, and then n other clients, at one time. */
  function OthersFail(n: nat): seq<Event> {
    if n == 0 then [Failure("", 0.0)] else OthersFail(n - 1) + [Failure(seq(n, _ => 'x'), 0.0)]
  }

  /** The table holds the first client, and n others that each failed once. */
  ghost predicate FirstAndOthers(s: State, n: nat) {
    && s.failures.Valid() && |s.failures.order| == n + 1 && s.failures.order[0] == ""
    && (forall c :: c in s.failures.deques ==> |c| <= n)
  }

  lemma FirstFailureIsStored(cfg: Config, s: State, c: Client)
    requires cfg.lockoutFailures >= 2 && c !in s.failures.deques
    ensures Step(cfg, s, Failure(c, 0.0)).failures == Bound(s.failures.Put(c, [0.0]))
  {
    assert Expire(s.failures.Get(c), 0.0 - cfg.failureWindow) + [0.0] == [0.0];
  }

  lemma OneMoreFails(cfg: Config, s: State, n: nat, c: Client)
    requires cfg.lockoutFailures >= 2 && FirstAndOthers(s, n) && |c| == n + 1
    ensures n + 2 <= MAX_TRACKED_CLIENTS ==> FirstAndOthers(Step(cfg, s, Failure(c, 0.0)), n + 1)
    ensures n + 2 == MAX_TRACKED_CLIENTS + 1 ==> "" !in Step(cfg, s, Failure(c, 0.0)).failures.deques
  {
    var stored := s.failures.Put(c, [0.0]);
    FirstFailureIsStored(cfg, s, c);
    PutKeepsValid(s.failures, c, [0.0]);
    if n + 2 == MAX_TRACKED_CLIENTS + 1 {
      assert Bound(stored.RemoveOldest()) == stored.RemoveOldest();
    }
  }

  lemma OtherFailureLeaves(cfg: Config, events: seq<Event>, d: Client, at: real, c: Client)
    requires c != d
    ensures SinceLock(cfg, events + [Failure(d, at)], c) == SinceLock(cfg, events, c)
  {
    assert Front(events + [Failure(d, at)]) == events;
  }

  lemma {:induction false} FirstHasFailed(cfg: Config, n: nat)
    requires cfg.lockoutFailures >= 2
    ensures SinceLock(cfg, OthersFail(n), "") == [0.0]
  {
    if n == 0 {
      FirstCounts(cfg);
    } else {
      FirstHasFailed(cfg, n - 1);
      OtherFailureLeaves(cfg, OthersFail(n - 1), seq(n, _ => 'x'), 0.0, "");
    }
  }

  lemma FirstCounts(cfg: Config)
    requires cfg.lockoutFailures >= 2
    ensures SinceLock(cfg, [Failure("", 0.0)], "") == [0.0]
  {
    assert Front([Failure("", 0.0)]) == [];
    assert !Locks(cfg, INITIAL, Failure("", 0.0), "");
  }

  lemma {:induction false} FailuresAtZero(n: nat)
    ensures forall e :: e in OthersFail(n) ==> e.at == 0.0
  {
    if n > 0 {
      FailuresAtZero(n - 1);
    }
  }

  lemma FirstAlone(cfg: Config)
    requires cfg.lockoutFailures >= 2
    ensures FirstAndOthers(After(cfg, OthersFail(0)), 0)
  {
    assert Front([Failure("", 0.0)]) == [] && Last([Failure("", 0.0)]) == Failure("", 0.0);
    FirstFailureIsStored(cfg, INITIAL, "");
  }

  lemma {:induction false} OthersFillTheTable(cfg: Config, n: nat)
    requires cfg.lockoutFailures >= 2 && n < MAX_TRACKED_CLIENTS
    ensures FirstAndOthers(After(cfg, OthersFail(n)), n)
  {
    if n == 0 {
      FirstAlone(cfg);
    } else {
      OthersFillTheTable(cfg, n - 1);
      var before, c := OthersFail(n - 1), seq(n, _ => 'x');
      AnotherFails(cfg, before, n - 1, c);
    }
  }

  lemma AnotherFails(cfg: Config, events: seq<Event>, n: nat, c: Client)
    requires cfg.lockoutFailures >= 2 && FirstAndOthers(After(cfg, events), n) && |c| == n + 1
    ensures var s := After(cfg, events + [Failure(c, 0.0)]);
      && (n + 2 <= MAX_TRACKED_CLIENTS ==> FirstAndOthers(s, n + 1))
      && (n + 2 == MAX_TRACKED_CLIENTS + 1 ==> "" !in s.failures.deques)
  {
    OneMoreFails(cfg, After(cfg, events), n, c);
    AfterOneMore(cfg, events, Failure(c, 0.0));
  }

  lemma FirstIsEvicted(cfg: Config, n: nat)
    requires cfg.lockoutFailures >= 2 && n == MAX_TRACKED_CLIENTS
    ensures "" !in After(cfg, OthersFail(n)).failures.deques
  {
    var before, c := OthersFail(n - 1), seq(n, _ => 'x');
    OthersFillTheTable(cfg, n - 1);
    AnotherFails(cfg, before, n - 1, c);
  }

  /** A client with one failure of two, that as many others as the table holds evict, is not locked
    by its second failure in the same window. */
  lemma EvictionForgetsFailures(cfg: Config, n: nat)
    requires cfg.lockoutFailures == 2 && cfg.failureWindow > 0.0 && n == MAX_TRACKED_CLIENTS
    ensures InClockOrder(OthersFail(n))
    ensures Enough(cfg, SinceLock(cfg, OthersFail(n), ""), 0.0)
    ensures !Locks(cfg, After(cfg, OthersFail(n)), Failure("", 0.0), "")
  {
    FirstIsEvicted(cfg, n);
    FirstHasFailed(cfg, n);
    assert CountIn([0.0], 0.0 - cfg.failureWindow, 0.0) == 1;
    FailuresAtZero(n);
    AtOneTime(OthersFail(n));
  }
}
