/** The state of the language and runtime versions in use (app/runtimes/status.py). Dates are day
  numbers. */
module RuntimeStatus {
  import opened Prelude
  import opened Ordering

  const EOL_SOON_DAYS := 180
  const RECOMMEND_MIN_AGE_DAYS := 180

  datatype Runtime = Dart | Flutter | NodeJs | Python

  /** `key` is the cycle as numbers that can be compared, [0] for a cycle that is not numeric. */
  datatype Release = Release(
    runtime: Runtime, cycle: string, key: seq<int>, latestVersion: string,
    releaseDate: Option<int>, eolDate: Option<int>, isEol: bool, isLts: bool)

  datatype State = Eol | EolSoon | UpdateAvailable | Latest | Reference | Unknown

  datatype Status = Status(
    state: State, latestVersion: Option<string>, recommendedCycle: Option<string>,
    recommendedVersion: Option<string>, eolDate: Option<int>, daysToEol: Option<int>)

  /** `max` by key: the first of the releases with the greatest key. */
  function Greatest(pool: seq<Release>): Option<Release> {
    if pool == [] then None
    else
      match Greatest(Front(pool))
      case None => Some(Last(pool))
      case Some(best) => Some(if TupleLess(best.key, Last(pool).key) then Last(pool) else best)
  }

  predicate IsCandidate(runtime: Runtime, r: Release) {
    r.runtime == runtime && !r.isEol && (r.isLts || runtime != NodeJs)
  }

  predicate IsSettled(r: Release, today: int) {
    r.releaseDate.None? || today - r.releaseDate.value >= RECOMMEND_MIN_AGE_DAYS
  }

  function Candidates(runtime: Runtime, releases: seq<Release>): seq<Release> {
    Filter(r => IsCandidate(runtime, r), releases)
  }

  function Settled(runtime: Runtime, releases: seq<Release>, today: int): seq<Release> {
    Filter(r => IsSettled(r, today), Candidates(runtime, releases))
  }

  function RecommendedRelease(runtime: Runtime, releases: seq<Release>, today: int): Option<Release> {
    var settled := Settled(runtime, releases, today);
    Greatest(if settled != [] then settled else Candidates(runtime, releases))
  }

  function Find(releases: seq<Release>, cycle: string): Option<Release> {
    if releases == [] then None
    else if releases[0].cycle == cycle then Some(releases[0])
    else Find(releases[1..], cycle)
  }

  function Own(runtime: Runtime, releases: seq<Release>): seq<Release> {
    Filter((r: Release) => r.runtime == runtime, releases)
  }

  function Evaluate(runtime: Runtime, cycle: string, pinned: bool, releases: seq<Release>, today: int): Status {
    var own := Own(runtime, releases);
    var used := Find(own, cycle);
    var recommended := RecommendedRelease(runtime, own, today);
    var eolDate := if used.Some? then used.value.eolDate else None;
    var daysToEol := if eolDate.Some? then Some(eolDate.value - today) else None;
    var state :=
      if !pinned then Reference
      else if used.None? then Unknown
      else if used.value.isEol || (daysToEol.Some? && daysToEol.value < 0) then Eol
      else if daysToEol.Some? && daysToEol.value <= EOL_SOON_DAYS then EolSoon
      else if recommended.Some? && TupleLess(used.value.key, recommended.value.key) then UpdateAvailable
      else Latest;
    Status(state, if used.Some? then Some(used.value.latestVersion) else None,
           if recommended.Some? then Some(recommended.value.cycle) else None,
           if recommended.Some? then Some(recommended.value.latestVersion) else None, eolDate, daysToEol)
  }

  // ------------------------------------------------------------ the recommended cycle

  ghost predicate NoneGreater(r: Release, pool: seq<Release>) {
    forall s :: s in pool ==> !TupleLess(r.key, s.key)
  }

  lemma {:induction false} GreatestIsGreatest(pool: seq<Release>)
    ensures Greatest(pool).None? <==> pool == []
    ensures Greatest(pool).Some? ==> Greatest(pool).value in pool && NoneGreater(Greatest(pool).value, pool)
  {
    if pool != [] {
      GreatestIsGreatest(Front(pool));
      assert pool == Front(pool) + [Last(pool)];
      TupleLessTotal(Last(pool).key, Last(pool).key);
      if Greatest(Front(pool)).Some? {
        var best := Greatest(Front(pool)).value;
        forall s | s in Front(pool)
          ensures !TupleLess(Greatest(pool).value.key, s.key)
        {
          if TupleLess(best.key, Last(pool).key) && TupleLess(Last(pool).key, s.key) {
            TupleLessTransitive(best.key, Last(pool).key, s.key);
          }
        }
      }
    }
  }

  /** A release is recommended exactly when there is a candidate; it is then a supported one (for
    Node.js with long-term support), settled if any candidate is settled, and no other release of
    those it is chosen from is greater. */
  lemma RecommendedExactly(runtime: Runtime, releases: seq<Release>, today: int)
    ensures var recommended := RecommendedRelease(runtime, releases, today);
      && (recommended.Some? <==> exists r :: r in releases && IsCandidate(runtime, r))
      && (recommended.Some? ==>
            var best := recommended.value;
            && best in releases && IsCandidate(runtime, best)
            && (IsSettled(best, today) ==>
                  forall r :: r in releases && IsCandidate(runtime, r) && IsSettled(r, today) ==> !TupleLess(best.key, r.key))
            && (!IsSettled(best, today) ==>
                  forall r :: r in releases && IsCandidate(runtime, r) ==>
                    !IsSettled(r, today) && !TupleLess(best.key, r.key)))
  {
    var candidates, settled := Candidates(runtime, releases), Settled(runtime, releases, today);
    FilterContents(r => IsCandidate(runtime, r), releases);
    FilterContents(r => IsSettled(r, today), candidates);
    GreatestIsGreatest(candidates);
    GreatestIsGreatest(settled);
    if candidates != [] {
      assert candidates[0] in releases && IsCandidate(runtime, candidates[0]);
    }
    if r :| r in releases && IsCandidate(runtime, r) {
      assert r in candidates;
      assert settled == [] ==> Greatest(candidates).Some?;
    }
  }

  lemma {:induction false} FindFinds(releases: seq<Release>, cycle: string)
    ensures Find(releases, cycle).Some? ==> Find(releases, cycle).value in releases && Find(releases, cycle).value.cycle == cycle
    ensures Find(releases, cycle).None? ==> forall r :: r in releases ==> r.cycle != cycle
  {
    if releases != [] && releases[0].cycle != cycle {
      FindFinds(releases[1..], cycle);
      assert releases == [releases[0]] + releases[1..];
    }
  }

  /** An update is reported only from a pinned, known, supported cycle, and only to a supported
    cycle of the same runtime that is strictly newer. */
  lemma UpdateIsStrictlyNewer(runtime: Runtime, cycle: string, pinned: bool, releases: seq<Release>, today: int)
    requires Evaluate(runtime, cycle, pinned, releases, today).state == UpdateAvailable
    ensures pinned
    ensures exists used, newer ::
      && used in releases && used.runtime == runtime && used.cycle == cycle && !used.isEol
      && newer in releases && IsCandidate(runtime, newer) && TupleLess(used.key, newer.key)
      && Evaluate(runtime, cycle, pinned, releases, today).recommendedCycle == Some(newer.cycle)
  {
    var own := Own(runtime, releases);
    FilterContents((r: Release) => r.runtime == runtime, releases);
    FindFinds(own, cycle);
    RecommendedExactly(runtime, own, today);
  }

  // --------------------------------------------------------------- as days go by

  predicate MayFollow(before: State, after: State) {
    match before
    case Eol => after == Eol
    case EolSoon => after == EolSoon || after == Eol
    case Reference => after == Reference
    case Unknown => after == Unknown
    case _ => after != Reference && after != Unknown
  }

  /** While the releases stay the same, a version never leaves Eol, and leaves EolSoon only for Eol. */
  lemma StatesOnlyAge(
      runtime: Runtime, cycle: string, pinned: bool, releases: seq<Release>, today: int, later: int)
    requires today <= later
    ensures MayFollow(Evaluate(runtime, cycle, pinned, releases, today).state,
                      Evaluate(runtime, cycle, pinned, releases, later).state)
  {
  }

  lemma SettledStaysSettled(runtime: Runtime, releases: seq<Release>, today: int, later: int)
    requires today <= later
    ensures forall r :: r in Settled(runtime, releases, today) ==> r in Settled(runtime, releases, later)
    ensures forall r :: r in Settled(runtime, releases, later) ==> r in Candidates(runtime, releases)
  {
    FilterContents(r => IsSettled(r, today), Candidates(runtime, releases));
    FilterContents(r => IsSettled(r, later), Candidates(runtime, releases));
  }

  /** The recommendation of `later` is below that of `today`. */
  ghost predicate Falls(runtime: Runtime, releases: seq<Release>, today: int, later: int) {
    var before := RecommendedRelease(runtime, releases, today);
    var after := RecommendedRelease(runtime, releases, later);
    before.Some? && after.Some? && TupleLess(after.value.key, before.value.key)
  }

  /** Some greatest candidate is no younger than `r`. */
  ghost predicate GreatestSettlesBefore(candidates: seq<Release>, r: Release) {
    exists g :: g in candidates && NoneGreater(g, candidates) && NoYounger(g, r)
  }

  predicate NoYounger(g: Release, r: Release) {
    g.releaseDate.Some? && r.releaseDate.Some? && g.releaseDate.value <= r.releaseDate.value
  }

  ghost predicate GreatestSettlesFirst(candidates: seq<Release>) {
    forall r {:trigger GreatestSettlesBefore(candidates, r)} :: r in candidates ==> GreatestSettlesBefore(candidates, r)
  }

  /** The recommendation never falls on a later day exactly when some candidate has settled
    already, or no candidate will settle before the greatest does. */
  lemma NeverFallsExactly(runtime: Runtime, releases: seq<Release>, today: int)
    ensures (forall later :: today <= later ==> !Falls(runtime, releases, today, later)) <==>
      Settled(runtime, releases, today) != []
      || GreatestSettlesFirst(Candidates(runtime, releases))
  {
    var candidates := Candidates(runtime, releases);
    if Settled(runtime, releases, today) != [] {
      forall later | today <= later ensures !Falls(runtime, releases, today, later) {
        SettledNeverFalls(runtime, releases, today, later);
      }
    } else if GreatestSettlesFirst(candidates) {
      forall later | today <= later ensures !Falls(runtime, releases, today, later) {
        EldestGreatestNeverFalls(runtime, releases, today, later);
      }
    } else {
      var r :| r in candidates && !GreatestSettlesBefore(candidates, r);
      FallsWhenSettled(runtime, releases, today, r);
    }
  }

  lemma SettledNeverFalls(runtime: Runtime, releases: seq<Release>, today: int, later: int)
    requires today <= later && Settled(runtime, releases, today) != []
    ensures !Falls(runtime, releases, today, later)
  {
    SettledStaysSettled(runtime, releases, today, later);
    GreatestIsGreatest(Settled(runtime, releases, today));
    GreatestIsGreatest(Settled(runtime, releases, later));
  }

  lemma EldestGreatestNeverFalls(runtime: Runtime, releases: seq<Release>, today: int, later: int)
    requires today <= later && Settled(runtime, releases, today) == []
    requires GreatestSettlesFirst(Candidates(runtime, releases))
    ensures !Falls(runtime, releases, today, later)
  {
    var candidates, settled := Candidates(runtime, releases), Settled(runtime, releases, later);
    GreatestIsGreatest(candidates);
    GreatestIsGreatest(settled);
    if settled != [] {
      FilterContents(r => IsSettled(r, later), candidates);
      var g := GreatestSettledWith(candidates, later, settled[0]);
      SameKey(candidates, Greatest(candidates).value, g);
      assert g in settled;
    } else if candidates != [] {
      TupleLessTotal(Greatest(candidates).value.key, Greatest(candidates).value.key);
    }
  }

  lemma SameKey(candidates: seq<Release>, g: Release, h: Release)
    requires g in candidates && h in candidates && NoneGreater(g, candidates) && NoneGreater(h, candidates)
    ensures g.key == h.key
  {
    TupleLessTotal(g.key, h.key);
  }

  lemma GreatestSettledWith(candidates: seq<Release>, later: int, r: Release) returns (g: Release)
    requires GreatestSettlesFirst(candidates) && r in candidates && IsSettled(r, later)
    ensures g in candidates && NoneGreater(g, candidates) && IsSettled(g, later)
  {
    assert GreatestSettlesBefore(candidates, r);
    g :| g in candidates && NoneGreater(g, candidates) && NoYounger(g, r);
  }

  lemma FallsWhenSettled(runtime: Runtime, releases: seq<Release>, today: int, r: Release)
    requires Settled(runtime, releases, today) == []
    requires r in Candidates(runtime, releases) && !GreatestSettlesBefore(Candidates(runtime, releases), r)
    ensures exists later :: today <= later && Falls(runtime, releases, today, later)
  {
    var candidates := Candidates(runtime, releases);
    FilterContents(r => IsSettled(r, today), candidates);
    assert !IsSettled(r, today);
    var later := r.releaseDate.value + RECOMMEND_MIN_AGE_DAYS;
    FilterContents(r => IsSettled(r, later), candidates);
    var settled := Settled(runtime, releases, later);
    assert r in settled;
    GreatestIsGreatest(candidates);
    GreatestIsGreatest(settled);
    var before, after := Greatest(candidates).value, Greatest(settled).value;
    TupleLessTotal(before.key, after.key);
    if before.key == after.key {
      assert !IsSettled(after, today);
      assert NoneGreater(after, candidates);
    }
    assert Falls(runtime, releases, today, later);
  }

  /** Once some candidate has settled, a reported update stays due until the end of support nears. */
  lemma UpdateStaysDue(runtime: Runtime, cycle: string, releases: seq<Release>, today: int, later: int)
    requires today <= later
    requires Settled(runtime, Own(runtime, releases), today) != []
    requires Evaluate(runtime, cycle, true, releases, today).state == UpdateAvailable
    ensures Evaluate(runtime, cycle, true, releases, later).state in {UpdateAvailable, EolSoon, Eol}
  {
    var own := Own(runtime, releases);
    SettledNeverFalls(runtime, own, today, later);
    RecommendedExactly(runtime, own, today);
    RecommendedExactly(runtime, own, later);
    var used := Find(own, cycle).value;
    var before, after := RecommendedRelease(runtime, own, today).value, RecommendedRelease(runtime, own, later).value;
    TupleLessTotal(before.key, after.key);
    if before.key != after.key {
      TupleLessTransitive(used.key, before.key, after.key);
    }
  }

  // ------------------------------------------------------------------ in fields

  /** A release that may be recommended: supported, and for Node.js with long-term support. */
  lemma CandidateExactly(runtime: Runtime, r: Release)
    ensures IsCandidate(runtime, r) <==>
      r.runtime == runtime && !r.isEol && (runtime == NodeJs ==> r.isLts)
  {
  }

  /** A release has settled 180 days after its day, or if that is not known. */
  lemma SettledExactly(r: Release, today: int)
    ensures IsSettled(r, today) <==> (r.releaseDate.Some? ==> r.releaseDate.value + 180 <= today)
  {
  }

  /** The release that a status is about: the first of the runtime with this cycle. */
  ghost predicate UsedAt(runtime: Runtime, cycle: string, releases: seq<Release>, n: int) {
    && 0 <= n < |releases| && releases[n].runtime == runtime && releases[n].cycle == cycle
    && forall m :: 0 <= m < n ==> !(releases[m].runtime == runtime && releases[m].cycle == cycle)
  }

  lemma {:induction false} FindIsUsed(runtime: Runtime, cycle: string, releases: seq<Release>, n: int)
    requires UsedAt(runtime, cycle, releases, n)
    ensures Find(Own(runtime, releases), cycle) == Some(releases[n])
  {
    var front := Front(releases);
    if n < |front| {
      assert UsedAt(runtime, cycle, front, n);
      FindIsUsed(runtime, cycle, front, n);
      FindInFirst(Own(runtime, front), if Last(releases).runtime == runtime then [Last(releases)] else [], cycle);
    } else {
      FilterContents((r: Release) => r.runtime == runtime, front);
      forall r | r in Own(runtime, front) ensures r.cycle != cycle {
        var m :| 0 <= m < |front| && front[m] == r;
        assert releases[m] == r;
      }
      FindInLast(Own(runtime, front), Last(releases));
    }
  }

  lemma {:induction false} FindInFirst(a: seq<Release>, b: seq<Release>, cycle: string)
    requires Find(a, cycle).Some?
    ensures Find(a + b, cycle) == Find(a, cycle)
  {
    assert (a + b)[1..] == a[1..] + b;
    if a[0].cycle != cycle {
      FindInFirst(a[1..], b, cycle);
    }
  }

  lemma {:induction false} FindInLast(a: seq<Release>, r: Release)
    requires forall s :: s in a ==> s.cycle != r.cycle
    ensures Find(a + [r], r.cycle) == Some(r)
  {
    if a != [] {
      assert (a + [r])[1..] == a[1..] + [r];
      FindInLast(a[1..], r);
    }
  }

  /** The status of a pinned cycle, from the release it is about: ended when the release says so or its
    end of support has passed, ending within 180 days, then due for an update when the recommended
    cycle is newer, and otherwise the latest. */
  lemma StatusExactly(runtime: Runtime, cycle: string, releases: seq<Release>, today: int, n: int)
    requires UsedAt(runtime, cycle, releases, n)
    ensures var used, status := releases[n], Evaluate(runtime, cycle, true, releases, today);
      var ended := used.isEol || (used.eolDate.Some? && used.eolDate.value < today);
      var soon := used.eolDate.Some? && used.eolDate.value <= today + 180;
      var recommended := RecommendedRelease(runtime, Own(runtime, releases), today);
      var newer := recommended.Some? && KeyIsLess(used.key, recommended.value.key);
      && (status.state == Eol <==> ended)
      && (status.state == EolSoon <==> !ended && soon)
      && (status.state == UpdateAvailable <==> !ended && !soon && newer)
      && (status.state == Latest <==> !ended && !soon && !newer)
      && status.latestVersion == Some(used.latestVersion) && status.eolDate == used.eolDate
      && status.daysToEol == (if used.eolDate.Some? then Some(used.eolDate.value - today) else None)
      && status.recommendedCycle == (if recommended.Some? then Some(recommended.value.cycle) else None)
      && status.recommendedVersion == (if recommended.Some? then Some(recommended.value.latestVersion) else None)
  {
    FindIsUsed(runtime, cycle, releases, n);
    if RecommendedRelease(runtime, Own(runtime, releases), today).Some? {
      TupleLessExactly(releases[n].key, RecommendedRelease(runtime, Own(runtime, releases), today).value.key);
    }
  }

  /** The first place where two cycles differ decides, and a cycle that goes on is greater. */
  ghost predicate DiffersAt(a: seq<int>, b: seq<int>, i: nat) {
    && i <= |a| && i < |b| && (forall j :: 0 <= j < i ==> a[j] == b[j])
    && (i == |a| || a[i] < b[i])
  }

  ghost predicate KeyIsLess(a: seq<int>, b: seq<int>) {
    exists i: nat :: DiffersAt(a, b, i)
  }

  lemma {:induction false} TupleLessExactly(a: seq<int>, b: seq<int>)
    ensures TupleLess(a, b) <==> KeyIsLess(a, b)
  {
    if a == [] || b == [] {
      assert b != [] ==> DiffersAt(a, b, 0);
    } else if a[0] != b[0] {
      assert a[0] < b[0] ==> DiffersAt(a, b, 0);
      assert forall i: nat :: DiffersAt(a, b, i) ==> i == 0;
    } else {
      TupleLessExactly(a[1..], b[1..]);
      if i: nat :| DiffersAt(a[1..], b[1..], i) {
        forall j | 0 <= j < i + 1 ensures a[j] == b[j] {
          assert j > 0 ==> a[1..][j - 1] == b[1..][j - 1];
        }
        assert DiffersAt(a, b, i + 1);
      }
      if i: nat :| DiffersAt(a, b, i) {
        assert DiffersAt(a[1..], b[1..], i - 1);
      }
    }
  }

  /** A cycle that is not pinned is for reference only, and one without release is unknown. */
  lemma OtherStates(runtime: Runtime, cycle: string, releases: seq<Release>, today: int)
    ensures Evaluate(runtime, cycle, false, releases, today).state == Reference
    ensures (forall r :: r in releases ==> !(r.runtime == runtime && r.cycle == cycle)) ==>
      Evaluate(runtime, cycle, true, releases, today).state == Unknown
  {
    FilterContents((r: Release) => r.runtime == runtime, releases);
    FindFinds(Own(runtime, releases), cycle);
  }
}
