/** What the rate limiter promises over whole runs of calls on a fresh limiter: the limit itself,
  when a refused client is admitted again, when a client is locked, and the bound on memory. */
module RateLimitRuns {
  import opened Prelude
  import opened RateLimiting

  datatype Event = Request(client: Client, at: real) | Failure(client: Client, at: real)

  function Step(cfg: Config, s: State, e: Event): State {
    match e
    case Request(c, now) => Checked(cfg, s, c, now).0
    case Failure(c, now) => Failed(cfg, s, c, now).0
  }

  /** The state after a run of calls on a fresh limiter. */
  function After(cfg: Config, events: seq<Event>): State {
    if events == [] then INITIAL
    else Step(cfg, After(cfg, Front(events)), Last(events))
  }

  /** Calls happen in clock order. The source reads the clock before it takes its lock, so this
    is the assumption that calls do not overlap. */
  ghost predicate InClockOrder(events: seq<Event>) {
    forall i, j :: 0 <= i < j < |events| ==> events[i].at <= events[j].at
  }

  predicate Admits(cfg: Config, s: State, e: Event, c: Client) {
    e.Request? && e.client == c && Checked(cfg, s, c, e.at).1.Admitted?
  }

  /** Every admission of `c` in the run, in order. */
  function Admissions(cfg: Config, events: seq<Event>, c: Client): seq<real> {
    if events == [] then []
    else
      var before := Admissions(cfg, Front(events), c);
      if Admits(cfg, After(cfg, Front(events)), Last(events), c) then before + [Last(events).at]
      else before
  }

  function NextTenure(cfg: Config, s: State, e: Event, c: Client, history: seq<real>): seq<real> {
    if c !in Step(cfg, s, e).requests.deques then []
    else if Admits(cfg, s, e, c) then history + [e.at]
    else history
  }

  /** The admissions of `c` since the last time the table did not track it. */
  function Tenure(cfg: Config, events: seq<Event>, c: Client): seq<real> {
    if events == [] then []
    else NextTenure(cfg, After(cfg, Front(events)), Last(events), c, Tenure(cfg, Front(events), c))
  }

  ghost predicate NeverEvicted(cfg: Config, events: seq<Event>, c: Client) {
    forall i :: 0 <= i < |events| && c in After(cfg, events[..i]).requests.deques
      ==> c in After(cfg, events[..i + 1]).requests.deques
  }

  /** How many of the times lie in the half-open interval (lo, hi]. */
  function CountIn(times: seq<real>, lo: real, hi: real): nat {
    if times == [] then 0
    else (if lo < times[0] <= hi then 1 else 0) + CountIn(times[1..], lo, hi)
  }

  ghost predicate Sorted(times: seq<real>) {
    forall i, j :: 0 <= i < j < |times| ==> times[i] <= times[j]
  }

  /** Any `n + 1` consecutive times span at least one window. */
  ghost predicate Spaced(times: seq<real>, n: nat) {
    forall i :: 0 <= i && i + n < |times| ==> times[i] + WINDOW_SECONDS <= times[i + n]
  }

  /** No run exceeds the cap, and no call evicts the client that makes it. */
  lemma {:induction false} TablesStayBounded(cfg: Config, events: seq<Event>)
    requires cfg.perMinute >= 1
    ensures After(cfg, events).Valid() && |After(cfg, events).requests.deques| <= 10_000
    ensures events != [] ==>
      var e, s := Last(events), After(cfg, events);
      && (e.Failure? ==> e.client in s.failures.deques)
      && (Admits(cfg, After(cfg, Front(events)), e, e.client) ==> e.client in s.requests.deques)
  {
    if events != [] {
      TablesStayBounded(cfg, Front(events));
      var s, e := After(cfg, Front(events)), Last(events);
      match e
      case Request(c, now) => CheckEffect(cfg, s, c, now);
      case Failure(c, now) => FailureEffect(cfg, s, c, now);
    }
    OneDequeEach(After(cfg, events).requests);
  }

  // ------------------------------------------- at most `perMinute` in any window

  function Clock(events: seq<Event>): real {
    if events == [] then 0.0 else Last(events).at
  }

  lemma RecentPartComposes(part: seq<real>, middle: seq<real>, all: seq<real>, early: real, late: real)
    requires early <= late
    requires RecentPart(middle, all, early) && RecentPart(part, middle, late)
    ensures RecentPart(part, all, late)
  {
    var n := |all| - |middle|;
    forall i | 0 <= i < |all| - |part| ensures all[i] <= late {
      if n <= i {
        assert all[i] == middle[i - n];
      }
    }
  }

  lemma RecentPartExtends(part: seq<real>, all: seq<real>, cutoff: real, x: real)
    requires RecentPart(part, all, cutoff)
    ensures RecentPart(part + [x], all + [x], cutoff)
  {
  }

  /** What the stored deque of `c` says about the true admission history of `c`. */
  ghost predicate Tracks(cfg: Config, deque: seq<real>, history: seq<real>, now: real)
    requires cfg.perMinute >= 1
  {
    && RecentPart(deque, history, now - WINDOW_SECONDS)
    && |deque| <= cfg.perMinute
    && Sorted(history) && (forall i :: 0 <= i < |history| ==> history[i] <= now)
    && Spaced(history, cfg.perMinute)
  }

  lemma TracksAfterExpiry(cfg: Config, deque: seq<real>, history: seq<real>, before: real, now: real)
    requires cfg.perMinute >= 1 && before <= now && Tracks(cfg, deque, history, before)
    ensures Tracks(cfg, Expire(deque, now - WINDOW_SECONDS), history, now)
    ensures Tracks(cfg, deque, history, now)
  {
    ExpireKeepsTheRecentPart(deque, now - WINDOW_SECONDS);
    RecentPartComposes(Expire(deque, now - WINDOW_SECONDS), deque, history,
                       before - WINDOW_SECONDS, now - WINDOW_SECONDS);
  }

  lemma TracksAfterAdmission(cfg: Config, window: seq<real>, history: seq<real>, now: real)
    requires cfg.perMinute >= 1 && Tracks(cfg, window, history, now) && |window| < cfg.perMinute
    ensures Tracks(cfg, window + [now], history + [now], now)
  {
    RecentPartExtends(window, history, now - WINDOW_SECONDS, now);
    var grown := history + [now];
    forall i | 0 <= i && i + cfg.perMinute < |grown|
      ensures grown[i] + WINDOW_SECONDS <= grown[i + cfg.perMinute]
    {
      if i + cfg.perMinute == |history| {
        assert i < |history| - |window|;
      }
    }
  }

  lemma StepTracksHistory(cfg: Config, s: State, e: Event, c: Client, history: seq<real>, before: real)
    requires cfg.perMinute >= 1 && s.Valid() && before <= e.at
    requires Tracks(cfg, s.requests.Get(c), history, before)
    ensures Tracks(cfg, Step(cfg, s, e).requests.Get(c), NextTenure(cfg, s, e, c, history), e.at)
  {
    TracksAfterExpiry(cfg, s.requests.Get(c), history, before, e.at);
    TracksNothing(cfg, e.at);
    match e
    case Request(d, now) =>
      if d == c {
        CheckTracksHistory(cfg, s, c, now, history);
      } else {
        CheckEffect(cfg, s, d, now);
      }
    case Failure(d, now) =>
      FailureEffect(cfg, s, d, now);
  }

  lemma CheckTracksHistory(cfg: Config, s: State, c: Client, now: real, history: seq<real>)
    requires cfg.perMinute >= 1 && s.Valid()
    requires Tracks(cfg, s.requests.Get(c), history, now)
    requires Tracks(cfg, Expire(s.requests.Get(c), now - WINDOW_SECONDS), history, now)
    ensures var e := Request(c, now);
      Tracks(cfg, Step(cfg, s, e).requests.Get(c), NextTenure(cfg, s, e, c, history), now)
  {
    CheckEffect(cfg, s, c, now);
    TracksNothing(cfg, now);
    if Admits(cfg, s, Request(c, now), c) {
      TracksAfterAdmission(cfg, Expire(s.requests.Get(c), now - WINDOW_SECONDS), history, now);
    }
  }

  /** The stored deque of any client is the recent end of its true admission history since it was
    last untracked; that history is sorted and its entries are spaced as the limit demands. */
  lemma {:induction false} DequeTracksHistory(cfg: Config, events: seq<Event>, c: Client)
    requires cfg.perMinute >= 1 && InClockOrder(events)
    ensures Tracks(cfg, After(cfg, events).requests.Get(c), Tenure(cfg, events, c), Clock(events))
  {
    if events == [] {
      TracksNothing(cfg, 0.0);
    } else {
      var front := Front(events);
      FrontInOrder(events);
      DequeTracksHistory(cfg, front, c);
      TablesStayBounded(cfg, front);
      if front == [] {
        TracksNothing(cfg, Clock(events));
        StepTracksHistory(cfg, INITIAL, Last(events), c, [], Clock(events));
      } else {
        StepTracksHistory(cfg, After(cfg, front), Last(events), c, Tenure(cfg, front, c), Clock(front));
      }
    }
  }

  lemma TracksNothing(cfg: Config, now: real)
    requires cfg.perMinute >= 1
    ensures Tracks(cfg, [], [], now)
  {
  }

  lemma FrontInOrder(events: seq<Event>)
    requires events != [] && InClockOrder(events)
    ensures InClockOrder(Front(events))
    ensures Front(events) != [] ==> Clock(Front(events)) <= Clock(events)
  {
  }

  lemma {:induction false} CountAtMostPrefix(times: seq<real>, lo: real, hi: real, n: nat)
    requires forall i :: n <= i < |times| ==> times[i] > hi
    ensures CountIn(times, lo, hi) <= n
  {
    if times != [] {
      if n == 0 {
        CountAtMostPrefix(times[1..], lo, hi, 0);
      } else {
        CountAtMostPrefix(times[1..], lo, hi, n - 1);
      }
    }
  }

  lemma {:induction false} SpacedMeansFew(times: seq<real>, n: nat, t: real)
    requires Sorted(times) && Spaced(times, n)
    ensures CountIn(times, t - WINDOW_SECONDS, t) <= n
  {
    if times != [] {
      if t - WINDOW_SECONDS < times[0] <= t {
        forall i | n <= i < |times| ensures times[i] > t {
          assert times[i - n] + WINDOW_SECONDS <= times[i - n + n];
        }
        CountAtMostPrefix(times, t - WINDOW_SECONDS, t, n);
      } else {
        var tail := times[1..];
        forall i | 0 <= i && i + n < |tail| ensures tail[i] + WINDOW_SECONDS <= tail[i + n] {
          assert times[i + 1] + WINDOW_SECONDS <= times[i + 1 + n];
        }
        SpacedMeansFew(tail, n, t);
      }
    }
  }

  /** `Tenure` is the end of the full history. */
  lemma {:induction false} TenureEndsHistory(cfg: Config, events: seq<Event>, c: Client)
    ensures exists n :: 0 <= n <= |Admissions(cfg, events, c)|
                     && Tenure(cfg, events, c) == Admissions(cfg, events, c)[n..]
  {
    var all := Admissions(cfg, events, c);
    if events == [] || c !in After(cfg, events).requests.deques {
      assert Tenure(cfg, events, c) == all[|all|..];
    } else {
      TenureEndsHistory(cfg, Front(events), c);
      var before := Admissions(cfg, Front(events), c);
      var n :| 0 <= n <= |before| && Tenure(cfg, Front(events), c) == before[n..];
      assert Tenure(cfg, events, c) == all[n..];
    }
  }

  lemma {:induction false} TenureOfNeverEvicted(cfg: Config, events: seq<Event>, c: Client)
    requires cfg.perMinute >= 1 && NeverEvicted(cfg, events, c)
    ensures Tenure(cfg, events, c) == Admissions(cfg, events, c)
    ensures c !in After(cfg, events).requests.deques ==> Admissions(cfg, events, c) == []
  {
    if events != [] {
      var front, n := Front(events), |events| - 1;
      forall i | 0 <= i < n && c in After(cfg, front[..i]).requests.deques
        ensures c in After(cfg, front[..i + 1]).requests.deques
      {
        assert front[..i] == events[..i] && front[..i + 1] == events[..i + 1];
      }
      TenureOfNeverEvicted(cfg, front, c);
      assert events[..n] == front && events[..n + 1] == events;
      TablesStayBounded(cfg, events);
    }
  }

  /** The limit: in every interval (t - 60, t] at most `perMinute` requests of a client were
    admitted while it stayed tracked, and altogether if it was never evicted. */
  lemma AtMostPerMinute(cfg: Config, events: seq<Event>, c: Client, t: real)
    requires cfg.perMinute >= 1 && InClockOrder(events)
    ensures CountIn(Tenure(cfg, events, c), t - 60.0, t) <= cfg.perMinute
    ensures NeverEvicted(cfg, events, c)
      ==> CountIn(Admissions(cfg, events, c), t - 60.0, t) <= cfg.perMinute
  {
    DequeTracksHistory(cfg, events, c);
    SpacedMeansFew(Tenure(cfg, events, c), cfg.perMinute, t);
    if NeverEvicted(cfg, events, c) {
      TenureOfNeverEvicted(cfg, events, c);
    }
  }

  // ------------------------------------------------------------------- lockout

  predicate Locks(cfg: Config, s: State, e: Event, c: Client) {
    e.Failure? && e.client == c && Failed(cfg, s, c, e.at).1
  }

  /** The failures of `c` since it was last locked or last untracked. */
  function FailureTenure(cfg: Config, events: seq<Event>, c: Client): seq<real> {
    if events == [] then []
    else NextFailures(cfg, After(cfg, Front(events)), Last(events), c,
                      FailureTenure(cfg, Front(events), c))
  }

  function NextFailures(cfg: Config, s: State, e: Event, c: Client, history: seq<real>): seq<real> {
    if c !in Step(cfg, s, e).failures.deques || Locks(cfg, s, e, c) then []
    else if e.Failure? && e.client == c then history + [e.at]
    else history
  }

  /** When `c` was last locked. */
  function LastLock(cfg: Config, events: seq<Event>, c: Client): Option<real> {
    if events == [] then None
    else if Locks(cfg, After(cfg, Front(events)), Last(events), c) then Some(Last(events).at)
    else LastLock(cfg, Front(events), c)
  }

  ghost predicate TracksFailures(cfg: Config, deque: seq<real>, history: seq<real>, now: real) {
    && RecentPart(deque, history, now - cfg.failureWindow)
    && Sorted(history) && (forall i :: 0 <= i < |history| ==> history[i] <= now)
  }

  lemma TracksAfterFailure(cfg: Config, deque: seq<real>, history: seq<real>, before: real, now: real)
    requires before <= now && TracksFailures(cfg, deque, history, before)
    ensures var recent := Expire(deque, now - cfg.failureWindow);
      && TracksFailures(cfg, recent, history, now)
      && TracksFailures(cfg, recent + [now], history + [now], now)
  {
    var cutoff := now - cfg.failureWindow;
    ExpireKeepsTheRecentPart(deque, cutoff);
    RecentPartComposes(Expire(deque, cutoff), deque, history, before - cfg.failureWindow, cutoff);
    TracksWithNow(cfg, Expire(deque, cutoff), history, now);
  }

  lemma TracksWithNow(cfg: Config, recent: seq<real>, history: seq<real>, now: real)
    requires TracksFailures(cfg, recent, history, now)
    ensures TracksFailures(cfg, recent + [now], history + [now], now)
  {
    RecentPartExtends(recent, history, now - cfg.failureWindow, now);
  }

  lemma TracksFailuresLater(cfg: Config, deque: seq<real>, history: seq<real>, before: real, now: real)
    requires before <= now && TracksFailures(cfg, deque, history, before)
    ensures TracksFailures(cfg, deque, history, now)
  {
  }

  lemma TracksNoFailures(cfg: Config, now: real)
    ensures TracksFailures(cfg, [], [], now)
  {
  }

  /** Whatever the request limit, the failure table keeps its cap, and no failure evicts its own
    client. */
  lemma {:induction false} FailuresStayBounded(cfg: Config, events: seq<Event>)
    ensures After(cfg, events).FailuresValid() && |After(cfg, events).failures.deques| <= 10_000
    ensures events != [] && Last(events).Failure? ==> Last(events).client in After(cfg, events).failures.deques
  {
    if events != [] {
      FailuresStayBounded(cfg, Front(events));
      var s, e := After(cfg, Front(events)), Last(events);
      match e
      case Request(d, now) => assert Checked(cfg, s, d, now).0.failures == s.failures;
      case Failure(d, now) => FailureEffect(cfg, s, d, now);
    }
    OneDequeEach(After(cfg, events).failures);
  }

  /** A call that is not a failure of `c` keeps the failures of `c`, or evicts them. */
  lemma OtherCallKeepsFailures(cfg: Config, s: State, e: Event, c: Client, history: seq<real>)
    requires s.FailuresValid() && !(e.Failure? && e.client == c)
    ensures var t := Step(cfg, s, e).failures;
      && t.Get(c) == (if c in t.deques then s.failures.Get(c) else [])
      && NextFailures(cfg, s, e, c, history) == if c in t.deques then history else []
  {
    match e
    case Request(d, now) => assert Checked(cfg, s, d, now).0.failures == s.failures;
    case Failure(d, now) => FailureEffect(cfg, s, d, now);
  }

  lemma OwnFailureIsAdded(cfg: Config, s: State, c: Client, now: real, history: seq<real>)
    requires s.FailuresValid()
    ensures var recent := Expire(s.failures.Get(c), now - cfg.failureWindow) + [now];
      var e := Failure(c, now);
      if Locks(cfg, s, e, c) then
        Step(cfg, s, e).failures.Get(c) == [] && NextFailures(cfg, s, e, c, history) == []
      else
        Step(cfg, s, e).failures.Get(c) == recent && NextFailures(cfg, s, e, c, history) == history + [now]
  {
    FailureEffect(cfg, s, c, now);
  }

  lemma StepTracksFailures(cfg: Config, s: State, e: Event, c: Client, history: seq<real>, before: real)
    requires s.FailuresValid() && before <= e.at
    requires TracksFailures(cfg, s.failures.Get(c), history, before)
    ensures TracksFailures(cfg, Step(cfg, s, e).failures.Get(c),
                           NextFailures(cfg, s, e, c, history), e.at)
  {
    if e.Failure? && e.client == c {
      OwnFailureTracks(cfg, s, c, e.at, history, before);
    } else {
      OtherCallTracks(cfg, s, e, c, history, before);
    }
  }

  lemma OwnFailureTracks(cfg: Config, s: State, c: Client, now: real, history: seq<real>, before: real)
    requires s.FailuresValid() && before <= now && TracksFailures(cfg, s.failures.Get(c), history, before)
    ensures var e := Failure(c, now);
      TracksFailures(cfg, Step(cfg, s, e).failures.Get(c), NextFailures(cfg, s, e, c, history), now)
  {
    TracksNoFailures(cfg, now);
    OwnFailureIsAdded(cfg, s, c, now, history);
    TracksAfterFailure(cfg, s.failures.Get(c), history, before, now);
  }

  lemma OtherCallTracks(cfg: Config, s: State, e: Event, c: Client, history: seq<real>, before: real)
    requires s.FailuresValid() && !(e.Failure? && e.client == c)
    requires before <= e.at && TracksFailures(cfg, s.failures.Get(c), history, before)
    ensures TracksFailures(cfg, Step(cfg, s, e).failures.Get(c), NextFailures(cfg, s, e, c, history), e.at)
  {
    TracksNoFailures(cfg, e.at);
    OtherCallKeepsFailures(cfg, s, e, c, history);
    TracksFailuresLater(cfg, s.failures.Get(c), history, before, e.at);
  }

  lemma {:induction false} FailureDequeTracksHistory(cfg: Config, events: seq<Event>, c: Client)
    requires InClockOrder(events)
    ensures TracksFailures(cfg, After(cfg, events).failures.Get(c), FailureTenure(cfg, events, c), Clock(events))
  {
    if events == [] {
      TracksNoFailures(cfg, 0.0);
    } else {
      var front := Front(events);
      FrontInOrder(events);
      FailureDequeTracksHistory(cfg, front, c);
      FailuresStayBounded(cfg, front);
      if front == [] {
        TracksNoFailures(cfg, Clock(events));
        StepTracksFailures(cfg, INITIAL, Last(events), c, [], Clock(events));
      } else {
        StepTracksFailures(cfg, After(cfg, front), Last(events), c, FailureTenure(cfg, front, c), Clock(front));
      }
    }
  }

  lemma {:induction false} RecentPartIsTheCount(part: seq<real>, all: seq<real>, cutoff: real, hi: real)
    requires RecentPart(part, all, cutoff) && Sorted(all)
    requires part != [] ==> part[0] > cutoff
    requires forall i :: 0 <= i < |all| ==> all[i] <= hi
    ensures |part| == CountIn(all, cutoff, hi)
  {
    if all != [] {
      var tail := all[1..];
      if |part| < |all| {
        assert part == tail[|tail| - |part|..];
        RecentPartIsTheCount(part, tail, cutoff, hi);
      } else {
        assert part == all && part[1..] == tail;
        RecentPartIsTheCount(tail, tail, cutoff, hi);
      }
    }
  }

  lemma RecentFailuresCounted(cfg: Config, deque: seq<real>, history: seq<real>, before: real, now: real)
    requires before <= now && TracksFailures(cfg, deque, history, before)
    ensures |Expire(deque, now - cfg.failureWindow)| == CountIn(history, now - cfg.failureWindow, now)
  {
    TracksAfterFailure(cfg, deque, history, before, now);
    ExpireKeepsTheRecentPart(deque, now - cfg.failureWindow);
    RecentPartIsTheCount(Expire(deque, now - cfg.failureWindow), history, now - cfg.failureWindow, now);
  }

  lemma OrderOfFront(events: seq<Event>, e: Event)
    requires InClockOrder(events + [e])
    ensures InClockOrder(events) && (events != [] ==> Clock(events) <= e.at)
  {
    var run := events + [e];
    assert forall i :: 0 <= i < |events| ==> run[i] == events[i];
    assert run[|events|] == e;
  }

  lemma LocksOnCount(cfg: Config, s: State, c: Client, now: real)
    ensures Locks(cfg, s, Failure(c, now), c)
       <==> |Expire(s.failures.Get(c), now - cfg.failureWindow)| + 1 >= cfg.lockoutFailures
  {
  }

  /** With a failure at `now`, enough failures since the last lock fall in the failure window. */
  predicate Enough(cfg: Config, since: seq<real>, now: real) {
    CountIn(since, now - cfg.failureWindow, now) + 1 >= cfg.lockoutFailures
  }

  /** A failure locks its client exactly when, with itself, `lockoutFailures` failures of that
    client since its last lock, or since the failure table last dropped it, fall in the failure
    window. Module RateLimitLockout tells the two apart. */
  lemma LockedAfterEnoughFailures(cfg: Config, events: seq<Event>, c: Client, now: real)
    requires InClockOrder(events + [Failure(c, now)])
    ensures Locks(cfg, After(cfg, events), Failure(c, now), c)
      <==> Enough(cfg, FailureTenure(cfg, events, c), now)
  {
    RecentFailuresAre(cfg, events, c, now);
    LocksOnEnough(cfg, After(cfg, events), c, now, FailureTenure(cfg, events, c));
  }

  lemma LocksOnEnough(cfg: Config, s: State, c: Client, now: real, history: seq<real>)
    requires |Expire(s.failures.Get(c), now - cfg.failureWindow)|
          == CountIn(history, now - cfg.failureWindow, now)
    ensures Locks(cfg, s, Failure(c, now), c) <==> Enough(cfg, history, now)
  {
    LocksOnCount(cfg, s, c, now);
  }

  lemma RecentFailuresAre(cfg: Config, events: seq<Event>, c: Client, now: real)
    requires InClockOrder(events + [Failure(c, now)])
    ensures |Expire(After(cfg, events).failures.Get(c), now - cfg.failureWindow)|
         == CountIn(FailureTenure(cfg, events, c), now - cfg.failureWindow, now)
  {
    OrderOfFront(events, Failure(c, now));
    FailureDequeTracksHistory(cfg, events, c);
    if events != [] {
      RecentFailuresCounted(cfg, After(cfg, events).failures.Get(c), FailureTenure(cfg, events, c), Clock(events), now);
    }
  }

  /** A client is locked at `now` exactly when its last lock is less than `lockoutSeconds` old. */
  lemma {:induction false} LockedWhileLastLockIsYoung(cfg: Config, events: seq<Event>, c: Client, now: real)
    requires InClockOrder(events) && (events != [] ==> Clock(events) <= now)
    ensures After(cfg, events).Locked(c, now)
      <==> var lock := LastLock(cfg, events, c); lock.Some? && now < lock.value + cfg.lockoutSeconds
  {
    if events != [] {
      LockedWhileLastLockIsYoung(cfg, Front(events), c, now);
      LockedWhileLastLockIsYoung(cfg, Front(events), c, Clock(events));
    }
  }

  /** A lock that is stored ends `lockoutSeconds` after the last lock. */
  lemma {:induction false} StoredLockEnds(cfg: Config, events: seq<Event>, c: Client)
    requires c in After(cfg, events).lockedUntil
    ensures var lock := LastLock(cfg, events, c);
      lock.Some? && After(cfg, events).lockedUntil[c] == lock.value + cfg.lockoutSeconds
  {
    var s, e := After(cfg, Front(events)), Last(events);
    if !Locks(cfg, s, e, c) {
      assert c in s.lockedUntil && After(cfg, events).lockedUntil[c] == s.lockedUntil[c];
      StoredLockEnds(cfg, Front(events), c);
    }
  }

  /** A whole number of seconds to wait: at least one, otherwise the wait without its fraction. */
  predicate IsHint(hint: int, wait: real) {
    hint >= 1 && hint as real > wait - 1.0 && (hint > 1 ==> hint as real <= wait)
  }

  /** A locked client is refused with the time that is left of its last lock, within a second, and
    the call changes nothing. */
  lemma LockHintWithinASecond(cfg: Config, events: seq<Event>, c: Client, now: real)
    requires After(cfg, events).Locked(c, now)
    ensures var (s, outcome) := Checked(cfg, After(cfg, events), c, now);
      var lock := LastLock(cfg, events, c);
      && s == After(cfg, events) && outcome.Refused? && lock.Some?
      && IsHint(outcome.retryAfter, lock.value + cfg.lockoutSeconds - now)
      && -1.0 < outcome.retryAfter as real - (lock.value + cfg.lockoutSeconds - now) < 1.0
  {
    StoredLockEnds(cfg, events, c);
  }

  /** No call shortens a lock that is in force. */
  lemma LockNeverShortened(cfg: Config, events: seq<Event>, e: Event, c: Client, later: real)
    requires InClockOrder(events + [e]) && e.at <= later
    requires After(cfg, events).Locked(c, later)
    ensures After(cfg, events + [e]).Locked(c, later)
  {
    var run := events + [e];
    OrderOfFront(events, e);
    assert Front(run) == events && Last(run) == e;
    LockedWhileLastLockIsYoung(cfg, events, c, later);
    LockedWhileLastLockIsYoung(cfg, run, c, later);
    LockedWhileLastLockIsYoung(cfg, events, c, e.at);
    if Locks(cfg, After(cfg, events), e, c) {
      LastLockInThePast(cfg, events, c);
    }
  }

  lemma {:induction false} LastLockInThePast(cfg: Config, events: seq<Event>, c: Client)
    requires InClockOrder(events)
    ensures LastLock(cfg, events, c).Some? ==> events != [] && LastLock(cfg, events, c).value <= Clock(events)
  {
    if events != [] {
      LastLockInThePast(cfg, Front(events), c);
    }
  }

  // ---------------------------------------------- when a refused client gets in again

  /** `c` stays tracked from the `n`-th call of the run on. */
  ghost predicate TrackedFrom(cfg: Config, events: seq<Event>, n: nat, c: Client) {
    forall i :: n <= i <= |events| ==> c in After(cfg, events[..i]).requests.deques
  }

  /** From the `n`-th call on, every request of `c` comes before `moment` or is not admitted. Other
    clients may call, and failures may be recorded, at any time. */
  ghost predicate WaitsFrom(cfg: Config, events: seq<Event>, n: nat, c: Client, moment: real) {
    forall i :: n <= i < |events| && events[i].Request? && events[i].client == c ==>
      events[i].at < moment || !Admits(cfg, After(cfg, events[..i]), events[i], c)
  }

  lemma WaitsInFront(cfg: Config, events: seq<Event>, n: nat, c: Client, moment: real)
    requires n < |events| && TrackedFrom(cfg, events, n, c) && WaitsFrom(cfg, events, n, c, moment)
    ensures TrackedFrom(cfg, Front(events), n, c) && WaitsFrom(cfg, Front(events), n, c, moment)
    ensures var e := Last(events);
      e.Request? && e.client == c ==> e.at < moment || !Admits(cfg, After(cfg, Front(events)), e, c)
  {
    var front := Front(events);
    assert events[..|front|] == front;
    forall i | 0 <= i <= |front| ensures front[..i] == events[..i] {
    }
  }

  /** A full window stays as it is while its client is refused or locked. */
  lemma RefusalKeepsWindow(cfg: Config, s: State, c: Client, now: real)
    requires cfg.perMinute >= 1 && s.Valid() && |s.requests.Get(c)| == cfg.perMinute
    requires now < s.requests.Get(c)[0] + WINDOW_SECONDS || !Checked(cfg, s, c, now).1.Admitted?
    ensures Checked(cfg, s, c, now).0.requests.Get(c) == s.requests.Get(c)
  {
    CheckEffect(cfg, s, c, now);
    ExpireShrinks(s.requests.Get(c), now - WINDOW_SECONDS);
  }

  lemma {:induction false} WaitingWindowUnchanged(
      cfg: Config, events: seq<Event>, n: nat, c: Client, window: seq<real>)
    requires cfg.perMinute >= 1 && n <= |events|
    requires |window| == cfg.perMinute && After(cfg, events[..n]).requests.Get(c) == window
    requires TrackedFrom(cfg, events, n, c) && WaitsFrom(cfg, events, n, c, window[0] + WINDOW_SECONDS)
    ensures After(cfg, events).requests.Get(c) == window
    decreases |events|
  {
    if n == |events| {
      assert events[..n] == events;
    } else {
      var front, e := Front(events), Last(events);
      assert front[..n] == events[..n];
      WaitsInFront(cfg, events, n, c, window[0] + WINDOW_SECONDS);
      WaitingWindowUnchanged(cfg, front, n, c, window);
      TablesStayBounded(cfg, front);
      assert events[..|events|] == events;
      match e
      case Request(d, now) =>
        if d == c {
          RefusalKeepsWindow(cfg, After(cfg, front), c, now);
        } else {
          CheckEffect(cfg, After(cfg, front), d, now);
        }
      case Failure(d, now) => FailureEffect(cfg, After(cfg, front), d, now);
    }
  }

  /** `c` is not locked, and its window is full of requests of which `oldest` is the first. */
  ghost predicate RefusedByWindow(cfg: Config, s: State, c: Client, now: real, oldest: real) {
    var window := Expire(s.requests.Get(c), now - WINDOW_SECONDS);
    !s.Locked(c, now) && |window| >= cfg.perMinute && window != [] && window[0] == oldest
  }

  /** The hint of such a refusal is positive and less than a second from the true wait. */
  lemma HintWithinASecond(cfg: Config, s: State, c: Client, now: real, oldest: real)
    requires RefusedByWindow(cfg, s, c, now, oldest)
    ensures var (_, outcome) := Checked(cfg, s, c, now);
      && outcome.Refused? && IsHint(outcome.retryAfter, oldest + 60.0 - now)
      && -1.0 < outcome.retryAfter as real - (oldest + 60.0 - now) < 1.0
  {
    ExpireKeepsTheRecentPart(s.requests.Get(c), now - WINDOW_SECONDS);
  }

  /** A client that the window refused, and that stays tracked, is admitted again (when it is not
    locked) exactly from the moment its oldest stored request is 60 seconds old, however many
    calls of any clients come in between, as long as none of its own is admitted from then on. */
  lemma RefusedUntilOldestExpires(
      cfg: Config, events: seq<Event>, c: Client, now: real, oldest: real,
      between: seq<Event>, again: real)
    requires cfg.perMinute >= 1
    requires InClockOrder(events + [Request(c, now)] + (between + [Request(c, again)]))
    requires RefusedByWindow(cfg, After(cfg, events), c, now, oldest)
    requires TrackedFrom(cfg, events + [Request(c, now)] + between, |events| + 1, c)
    requires WaitsFrom(cfg, events + [Request(c, now)] + between, |events| + 1, c, oldest + 60.0)
    ensures var s := After(cfg, events + [Request(c, now)] + between);
      Checked(cfg, s, c, again).1.Admitted? <==> !s.Locked(c, again) && again >= oldest + 60.0
  {
    var run := events + [Request(c, now)];
    var window := Expire(After(cfg, events).requests.Get(c), now - WINDOW_SECONDS);
    RefusalStoresFullWindow(cfg, events, c, now, oldest, between + [Request(c, again)]);
    StillWaiting(cfg, run, between, c, window);
    AdmittedOnceOldestExpires(cfg, After(cfg, run + between), c, window, again);
  }

  lemma StillWaiting(cfg: Config, run: seq<Event>, between: seq<Event>, c: Client, window: seq<real>)
    requires cfg.perMinute >= 1 && |window| == cfg.perMinute && After(cfg, run).requests.Get(c) == window
    requires TrackedFrom(cfg, run + between, |run|, c)
    requires WaitsFrom(cfg, run + between, |run|, c, window[0] + WINDOW_SECONDS)
    ensures After(cfg, run + between).Valid() && After(cfg, run + between).requests.Get(c) == window
  {
    var whole := run + between;
    assert whole[..|run|] == run;
    WaitingWindowUnchanged(cfg, whole, |run|, c, window);
    TablesStayBounded(cfg, whole);
  }

  lemma RefusalStoresFullWindow(
      cfg: Config, events: seq<Event>, c: Client, now: real, oldest: real, rest: seq<Event>)
    requires cfg.perMinute >= 1 && InClockOrder(events + [Request(c, now)] + rest)
    requires RefusedByWindow(cfg, After(cfg, events), c, now, oldest)
    ensures var window := Expire(After(cfg, events).requests.Get(c), now - WINDOW_SECONDS);
      && After(cfg, events + [Request(c, now)]).requests.Get(c) == window
      && |window| == cfg.perMinute && window[0] == oldest
  {
    var run := events + [Request(c, now)];
    WindowIsFull(cfg, events, c, now, rest);
    TablesStayBounded(cfg, events);
    CheckEffect(cfg, After(cfg, events), c, now);
    assert Front(run) == events && Last(run) == Request(c, now);
  }

  lemma AdmittedOnceOldestExpires(cfg: Config, s: State, c: Client, window: seq<real>, again: real)
    requires cfg.perMinute >= 1 && s.Valid() && s.requests.Get(c) == window && |window| == cfg.perMinute
    ensures Checked(cfg, s, c, again).1.Admitted?
       <==> !s.Locked(c, again) && again >= window[0] + WINDOW_SECONDS
  {
    ExpireShrinks(window, again - WINDOW_SECONDS);
  }

  lemma WindowIsFull(cfg: Config, events: seq<Event>, c: Client, now: real, rest: seq<Event>)
    requires cfg.perMinute >= 1 && InClockOrder(events + [Request(c, now)] + rest)
    ensures |Expire(After(cfg, events).requests.Get(c), now - WINDOW_SECONDS)| <= cfg.perMinute
  {
    var run := events + [Request(c, now)] + rest;
    assert forall i :: 0 <= i < |events| ==> run[i] == events[i];
    DequeTracksHistory(cfg, events, c);
    ExpireKeepsTheRecentPart(After(cfg, events).requests.Get(c), now - WINDOW_SECONDS);
  }

  lemma ExpireShrinks(window: seq<real>, cutoff: real)
    requires window != []
    ensures window[0] > cutoff ==> Expire(window, cutoff) == window
    ensures window[0] <= cutoff ==> |Expire(window, cutoff)| < |window|
  {
    if window[0] <= cutoff {
      ExpireKeepsTheRecentPart(window[1..], cutoff);
    }
  }

  // ------------------------------------------------- limits that are not positive

  /** With a limit below one, a call of an unlocked client raises instead of answering, exactly
    when nothing recent is stored for the client. */
  lemma RaisesExactlyWithoutPositiveLimit(cfg: Config, s: State, c: Client, now: real)
    ensures Checked(cfg, s, c, now).1.IndexError?
      <==> !s.Locked(c, now) && cfg.perMinute <= 0 && Expire(s.requests.Get(c), now - WINDOW_SECONDS) == []
  {
  }

  function DistinctClients(n: nat): seq<Event> {
    if n == 0 then [] else DistinctClients(n - 1) + [Request(seq(n, _ => 'x'), 0.0)]
  }

  /** A call of an unknown client then only adds an entry for it. */
  lemma UnknownClientIsAdded(cfg: Config, s: State, c: Client, now: real)
    requires cfg.perMinute <= 0 && c !in s.requests.deques && s.lockedUntil == map[]
    ensures Step(cfg, s, Request(c, now)) == s.(requests := s.requests.Put(c, []))
  {
    assert Expire(s.requests.Get(c), now - WINDOW_SECONDS) == [];
    assert s.lockedUntil - {c} == map[];
  }

  /** `n` entries, of clients whose names are at most `n` long. */
  ghost predicate Entries(s: State, n: nat) {
    && |s.requests.order| == n && s.lockedUntil == map[]
    && (forall c :: c in s.requests.deques ==> |c| <= n)
  }

  lemma OneEntryMore(cfg: Config, s: State, c: Client, n: nat)
    requires cfg.perMinute <= 0 && Entries(s, n) && |c| == n + 1
    ensures Entries(Step(cfg, s, Request(c, 0.0)), n + 1)
  {
    UnknownClientIsAdded(cfg, s, c, 0.0);
  }

  /** So the cap on tracked clients does not hold: a run of n clients, in clock order, leaves n
    entries. */
  lemma {:induction false} NoCapWithoutPositiveLimit(cfg: Config, n: nat)
    requires cfg.perMinute <= 0
    ensures InClockOrder(DistinctClients(n)) && Entries(After(cfg, DistinctClients(n)), n)
  {
    ClientsInClockOrder(n);
    if n > 0 {
      NoCapWithoutPositiveLimit(cfg, n - 1);
      var before, c := DistinctClients(n - 1), seq(n, _ => 'x');
      OneEntryMore(cfg, After(cfg, before), c, n - 1);
      AfterOneMore(cfg, before, Request(c, 0.0));
    }
  }

  lemma AfterOneMore(cfg: Config, events: seq<Event>, e: Event)
    ensures After(cfg, events + [e]) == Step(cfg, After(cfg, events), e)
  {
    assert Front(events + [e]) == events;
  }

  lemma ClientsInClockOrder(n: nat)
    ensures InClockOrder(DistinctClients(n))
  {
    AllAtZero(n);
    AtOneTime(DistinctClients(n));
  }

  lemma AtOneTime(events: seq<Event>)
    requires forall e :: e in events ==> e.at == 0.0
    ensures InClockOrder(events)
  {
    forall i, j | 0 <= i < j < |events| ensures events[i].at <= events[j].at {
      assert events[i] in events && events[j] in events;
    }
  }

  lemma {:induction false} AllAtZero(n: nat)
    ensures forall e :: e in DistinctClients(n) ==> e.at == 0.0
  {
    if n > 0 {
      AllAtZero(n - 1);
    }
  }
}
