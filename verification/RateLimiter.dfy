/** The sliding-window rate limiter with lockout (app/core/net/rate_limit.py).

  `Checked` and `Failed` say what one call does to the limiter's state; the class `RateLimiter` performs the
  same calls in place, one deque operation at a time. What the limiter promises over whole runs
  is in module RateLimitRuns. */
module RateLimiting {

  type Client = string

  const MAX_TRACKED_CLIENTS: nat := 10_000
  const WINDOW_SECONDS: real := 60.0

  datatype Config = Config(
    perMinute: int, lockoutFailures: int, lockoutSeconds: real, failureWindow: real)

  /** A Python dictionary of deques: `order` is the insertion order of its keys. */
  datatype Table = Table(order: seq<Client>, deques: map<Client, seq<real>>) {

    ghost predicate Valid() {
      && (forall c :: c in order <==> c in deques)
      && (forall i, j :: 0 <= i < j < |order| ==> order[i] != order[j])
    }

    function Get(c: Client): seq<real> {
      if c in deques then deques[c] else []
    }

    /** Stores a deque; a new key goes to the end of the insertion order. */
    function Put(c: Client, deque: seq<real>): Table {
      Table(if c in deques then order else order + [c], deques[c := deque])
    }

    function RemoveOldest(): Table
      requires order != []
    {
      Table(order[1..], deques - {order[0]})
    }
  }

  lemma PutTwice(t: Table, c: Client, first: seq<real>, second: seq<real>)
    ensures t.Put(c, first).Put(c, second) == t.Put(c, second)
  {
  }

  const EMPTY_TABLE := Table([], map[])

  /** Discards the clients inserted first until the cap holds. */
  function Bound(t: Table): Table
    decreases |t.order|
  {
    if |t.order| > MAX_TRACKED_CLIENTS then Bound(t.RemoveOldest()) else t
  }

  /** Pops timestamps from the left while they are at or before `cutoff`. */
  function Expire(deque: seq<real>, cutoff: real): seq<real> {
    if deque != [] && deque[0] <= cutoff then Expire(deque[1..], cutoff) else deque
  }

  /** `part` is what is left of `all` when only elements at or before `cutoff` are taken away. */
  ghost predicate RecentPart(part: seq<real>, all: seq<real>, cutoff: real) {
    && |part| <= |all|
    && part == all[|all| - |part|..]
    && forall i :: 0 <= i < |all| - |part| ==> all[i] <= cutoff
  }

  lemma {:induction false} ExpireKeepsTheRecentPart(deque: seq<real>, cutoff: real)
    ensures RecentPart(Expire(deque, cutoff), deque, cutoff)
    ensures Expire(deque, cutoff) != [] ==> Expire(deque, cutoff)[0] > cutoff
  {
    if deque != [] && deque[0] <= cutoff {
      var tail, rest := deque[1..], Expire(deque[1..], cutoff);
      ExpireKeepsTheRecentPart(tail, cutoff);
      assert rest == tail[|tail| - |rest|..] == deque[|deque| - |rest|..];
      forall i | 0 <= i < |deque| - |rest| ensures deque[i] <= cutoff {
        assert i > 0 ==> deque[i] == tail[i - 1];
      }
    }
  }

  datatype State = State(requests: Table, failures: Table, lockedUntil: map<Client, real>) {
    ghost predicate Valid() {
      requests.Valid() && |requests.order| <= MAX_TRACKED_CLIENTS && FailuresValid()
    }

    /** The failure side, which no request changes. */
    ghost predicate FailuresValid() {
      failures.Valid() && |failures.order| <= MAX_TRACKED_CLIENTS
    }

    predicate Locked(c: Client, now: real) {
      c in lockedUntil && now < lockedUntil[c]
    }
  }

  const INITIAL := State(EMPTY_TABLE, EMPTY_TABLE, map[])

  /** `IndexError` is the exception Python raises for the oldest entry of an empty deque. */
  datatype Outcome = Admitted | Refused(retryAfter: int) | IndexError

  function RetryAfter(wait: real): int {
    if wait.Floor < 1 then 1 else wait.Floor
  }

  function Checked(cfg: Config, s: State, c: Client, now: real): (State, Outcome) {
    if s.Locked(c, now) then
      (s, Refused(RetryAfter(s.lockedUntil[c] - now)))
    else
      var unlocked := s.(lockedUntil := s.lockedUntil - {c});
      var window := Expire(s.requests.Get(c), now - WINDOW_SECONDS);
      if |window| >= cfg.perMinute then
        (unlocked.(requests := s.requests.Put(c, window)),
         if window == [] then IndexError else Refused(RetryAfter(window[0] + WINDOW_SECONDS - now)))
      else
        (unlocked.(requests := Bound(s.requests.Put(c, window + [now]))), Admitted)
  }

  function Failed(cfg: Config, s: State, c: Client, now: real): (State, bool) {
    var recent := Expire(s.failures.Get(c), now - cfg.failureWindow) + [now];
    var failures := Bound(s.failures.Put(c, recent));
    if |recent| >= cfg.lockoutFailures then
      (s.(lockedUntil := s.lockedUntil[c := now + cfg.lockoutSeconds],
          failures := if c in failures.deques then failures.Put(c, []) else failures), true)
    else
      (s.(failures := failures), false)
  }

  // ---------------------------------------------------------------- the class

  class RateLimiter {
    const cfg: Config
    var requests: Table
    var failures: Table
    var lockedUntil: map<Client, real>

    ghost function Abstract(): State
      reads this
    {
      State(requests, failures, lockedUntil)
    }

    constructor (cfg: Config)
      ensures this.cfg == cfg && Abstract() == INITIAL
    {
      this.cfg := cfg;
      requests, failures, lockedUntil := EMPTY_TABLE, EMPTY_TABLE, map[];
    }

    method Check(client: Client, now: real) returns (outcome: Outcome)
      modifies this
      ensures (Abstract(), outcome) == Checked(cfg, old(Abstract()), client, now)
    {
      if client in lockedUntil {
        if now < lockedUntil[client] {
          return Refused(RetryAfter(lockedUntil[client] - now));
        }
        lockedUntil := lockedUntil - {client};
      }
      assert lockedUntil == old(lockedUntil) - {client};
      requests := PopExpired(requests, client, now - WINDOW_SECONDS);
      var window := requests.Get(client);
      assert window == Expire(old(requests).Get(client), now - WINDOW_SECONDS);
      assert Abstract() == State(old(requests).Put(client, window), old(failures), old(lockedUntil) - {client});
      if |window| >= cfg.perMinute {
        if window == [] {
          return IndexError;
        }
        return Refused(RetryAfter(window[0] + WINDOW_SECONDS - now));
      }
      PutTwice(old(requests), client, window, window + [now]);
      requests := requests.Put(client, window + [now]);
      requests := DropOldest(requests);
      outcome := Admitted;
    }

    method RecordFailure(client: Client, now: real) returns (locked: bool)
      modifies this
      ensures (Abstract(), locked) == Failed(cfg, old(Abstract()), client, now)
    {
      failures := PopExpired(failures, client, now - cfg.failureWindow);
      var recent := failures.Get(client) + [now];
      PutTwice(old(failures), client, failures.Get(client), recent);
      failures := failures.Put(client, recent);
      failures := DropOldest(failures);
      locked := |recent| >= cfg.lockoutFailures;
      if locked {
        lockedUntil := lockedUntil[client := now + cfg.lockoutSeconds];
        // `failures.clear()` empties the deque, which is still in the table
        if client in failures.deques {
          failures := failures.Put(client, []);
        }
      }
    }

    /** `setdefault`, then `popleft` while the head has left the window. */
    static method PopExpired(t: Table, client: Client, cutoff: real) returns (p: Table)
      ensures p == t.Put(client, Expire(t.Get(client), cutoff))
    {
      var deque := t.Get(client);
      p := t.Put(client, deque);
      while deque != [] && deque[0] <= cutoff
        invariant p == t.Put(client, deque)
        invariant Expire(deque, cutoff) == Expire(t.Get(client), cutoff)
        decreases |deque|
      {
        PutTwice(t, client, deque, deque[1..]);
        deque := deque[1..];
        p := p.Put(client, deque);
      }
    }

    static method DropOldest(t: Table) returns (b: Table)
      ensures b == Bound(t)
    {
      b := t;
      while |b.order| > MAX_TRACKED_CLIENTS
        invariant Bound(b) == Bound(t)
        decreases |b.order|
      {
        b := b.RemoveOldest();
      }
    }
  }

  // ------------------------------------------------------- the effect of one call

  lemma PutKeepsValid(t: Table, c: Client, deque: seq<real>)
    requires t.Valid()
    ensures t.Put(c, deque).Valid()
  {
    var p := t.Put(c, deque);
    forall d ensures d in p.order <==> d in p.deques {
    }
  }

  lemma RemoveOldestKeepsValid(t: Table)
    requires t.Valid() && t.order != []
    ensures t.RemoveOldest().Valid()
  {
    var r := t.RemoveOldest();
    assert t.order == [t.order[0]] + r.order;
    forall d ensures d in r.order <==> d in r.deques {
    }
  }

  /** The insertion order lists each client that has a deque, once. */
  lemma OneDequeEach(t: Table)
    requires t.Valid()
    ensures |t.deques| == |t.order|
  {
    assert t.deques.Keys == set c | c in t.order;
    DistinctSize(t.order);
    assert |t.deques.Keys| == |t.deques|;
  }

  lemma {:induction false} DistinctSize(s: seq<Client>)
    requires forall i, j :: 0 <= i < j < |s| ==> s[i] != s[j]
    ensures |set c | c in s| == |s|
  {
    if s != [] {
      DistinctSize(s[1..]);
      assert s == [s[0]] + s[1..];
      assert (set c | c in s) == {s[0]} + (set c | c in s[1..]);
    }
  }

  /** Storing a deque evicts at most the client inserted first, and never the one stored. */
  lemma AtMostOneEvicted(t: Table, c: Client, deque: seq<real>)
    requires t.Valid() && |t.order| <= MAX_TRACKED_CLIENTS
    ensures var b := Bound(t.Put(c, deque));
      && b.Valid() && |b.order| <= MAX_TRACKED_CLIENTS
      && c in b.deques && b.deques[c] == deque
      && (b.deques == t.deques[c := deque]
          || (c !in t.deques && |t.deques| == |t.order| == 10_000
              && b.deques == t.deques[c := deque] - {t.order[0]}))
  {
    var p := t.Put(c, deque);
    PutKeepsValid(t, c, deque);
    OneDequeEach(t);
    if |p.order| > MAX_TRACKED_CLIENTS {
      RemoveOldestKeepsValid(p);
      assert p.order == t.order + [c] && p.order[0] == t.order[0];
      assert t.order[0] in t.order;
      assert Bound(p.RemoveOldest()) == p.RemoveOldest();
    }
  }

  /** Every other client still tracked in `t'` was tracked in `t`, with the same deque. */
  ghost predicate OthersKept(t: Table, t': Table, c: Client) {
    forall d :: d != c && d in t'.deques ==> d in t.deques && t'.deques[d] == t.deques[d]
  }

  lemma OthersKeptTwice(t: Table, t': Table, t'': Table, c: Client)
    requires OthersKept(t, t', c) && OthersKept(t', t'', c)
    ensures OthersKept(t, t'', c)
  {
  }

  lemma StoreEffect(t: Table, c: Client, deque: seq<real>)
    requires t.Valid() && |t.order| <= MAX_TRACKED_CLIENTS
    ensures var b := Bound(t.Put(c, deque));
      && b.Valid() && |b.order| <= MAX_TRACKED_CLIENTS
      && c in b.deques && b.deques[c] == deque && OthersKept(t, b, c)
  {
    AtMostOneEvicted(t, c, deque);
  }

  lemma ClearEffect(t: Table, c: Client)
    requires t.Valid() && c in t.deques
    ensures var b := t.Put(c, []);
      b.Valid() && b.order == t.order && b.Get(c) == [] && OthersKept(t, b, c)
  {
    PutKeepsValid(t, c, []);
  }

  lemma CheckEffect(cfg: Config, s: State, c: Client, now: real)
    requires s.Valid() && cfg.perMinute >= 1
    ensures var (s', outcome) := Checked(cfg, s, c, now);
      var window := Expire(s.requests.Get(c), now - WINDOW_SECONDS);
      && s'.Valid() && s'.failures == s.failures && OthersKept(s.requests, s'.requests, c)
      && (c in s.requests.deques ==> c in s'.requests.deques)
      && (outcome.Admitted? <==> !s.Locked(c, now) && |window| < cfg.perMinute)
      && (outcome.Admitted? ==> c in s'.requests.deques)
      && s'.requests.Get(c) == if s.Locked(c, now) then s.requests.Get(c)
                               else if outcome.Admitted? then window + [now] else window
  {
    var window := Expire(s.requests.Get(c), now - WINDOW_SECONDS);
    if !s.Locked(c, now) {
      if |window| < cfg.perMinute {
        StoreEffect(s.requests, c, window + [now]);
      } else {
        assert c in s.requests.deques;
        PutKeepsValid(s.requests, c, window);
      }
    }
  }

  /** A check forgets the lock of its client once it is over, and no other lock. */
  lemma CheckForgetsEndedLock(cfg: Config, s: State, c: Client, now: real, d: Client)
    ensures var s' := Checked(cfg, s, c, now).0;
      && (d in s'.lockedUntil <==> d in s.lockedUntil && (d == c ==> now < s.lockedUntil[d]))
      && (d in s'.lockedUntil ==> s'.lockedUntil[d] == s.lockedUntil[d])
  {
  }

  lemma FailureEffect(cfg: Config, s: State, c: Client, now: real)
    requires s.FailuresValid()
    ensures var (s', locked) := Failed(cfg, s, c, now);
      var recent := Expire(s.failures.Get(c), now - cfg.failureWindow) + [now];
      && s'.FailuresValid() && s'.requests == s.requests && OthersKept(s.failures, s'.failures, c)
      && c in s'.failures.deques
      && (locked <==> |recent| >= cfg.lockoutFailures)
      && s'.failures.deques[c] == (if locked then [] else recent)
      && s'.lockedUntil == (if locked then s.lockedUntil[c := now + cfg.lockoutSeconds] else s.lockedUntil)
  {
    var recent := Expire(s.failures.Get(c), now - cfg.failureWindow) + [now];
    FailedIs(cfg, s, c, now, recent);
    CountThenClear(s.failures, c, recent);
    StoreEffect(s.failures, c, recent);
  }

  lemma FailedIs(cfg: Config, s: State, c: Client, now: real, recent: seq<real>)
    requires s.FailuresValid() && recent == Expire(s.failures.Get(c), now - cfg.failureWindow) + [now]
    ensures var counted := Bound(s.failures.Put(c, recent));
      Failed(cfg, s, c, now)
        == if |recent| >= cfg.lockoutFailures
           then (State(s.requests, counted.Put(c, []), s.lockedUntil[c := now + cfg.lockoutSeconds]), true)
           else (State(s.requests, counted, s.lockedUntil), false)
  {
    StoreEffect(s.failures, c, recent);
  }

  lemma CountThenClear(t: Table, c: Client, recent: seq<real>)
    requires t.Valid() && |t.order| <= MAX_TRACKED_CLIENTS
    ensures var counted := Bound(t.Put(c, recent));
      var cleared := counted.Put(c, []);
      && c in counted.deques && cleared.Valid() && |cleared.order| <= MAX_TRACKED_CLIENTS
      && c in cleared.deques && cleared.deques[c] == [] && OthersKept(t, cleared, c)
  {
    var counted := Bound(t.Put(c, recent));
    StoreEffect(t, c, recent);
    ClearEffect(counted, c);
    OthersKeptTwice(t, counted, counted.Put(c, []), c);
  }
}
