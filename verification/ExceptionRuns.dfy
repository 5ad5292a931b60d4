/** Runs of the exception table: registrations, revocations, published fixes, expiry and notices,
  in clock order. Whatever happens, at most one exception of a finding is active at a time. */
module ExceptionRuns {
  import opened Prelude
  import opened FindingExceptions

  /** `at` is the clock when the operation happens; the nightly job reads its `asOf` earlier. */
  datatype Op =
    | Register(at: int, target: Target, terms: Terms)
    | Revoke(at: int, id: nat)
    | EndFixed(at: int, id: nat)
    | Expire(at: int, asOf: int)
    | Notice(at: int, asOf: int, days: int)

  datatype Table = Table(rows: seq<Row>, nextId: nat)

  function StepRegister(s: Table, target: Target, terms: Terms, at: int): Table {
    var rows := Upserted(s.rows, s.nextId, target, terms, at);
    Table(rows, if |rows| == |s.rows| then s.nextId else s.nextId + 1)
  }

  /** Revoking a missing or already ended exception is refused (app/finding_exceptions/router.py). */
  function StepEnd(s: Table, id: nat, reason: EndReason, at: int): Table {
    var i := Find(s.rows, id);
    if i < |s.rows| && s.rows[i].ended.None? then s.(rows := WithEnded(s.rows, id, reason, at)) else s
  }

  function Step(s: Table, op: Op): Table {
    match op
    case Register(at, target, terms) => StepRegister(s, target, terms, at)
    case Revoke(at, id) => StepEnd(s, id, Revoked, at)
    case EndFixed(at, id) => StepEnd(s, id, FixAvailable, at)
    case Expire(_, asOf) => s.(rows := WithExpired(s.rows, asOf))
    case Notice(_, asOf, days) => s.(rows := WithNoticed(s.rows, asOf, asOf + days))
  }

  function After(ops: seq<Op>): Table {
    if ops == [] then Table([], 1) else Step(After(Front(ops)), Last(ops))
  }

  ghost predicate InClockOrder(ops: seq<Op>) {
    && (forall i, j :: 0 <= i < j < |ops| ==> ops[i].at <= ops[j].at)
    && (forall i :: 0 <= i < |ops| && (ops[i].Expire? || ops[i].Notice?) ==> ops[i].asOf <= ops[i].at)
  }

  ghost predicate OneActiveAt(rows: seq<Row>, now: int) {
    forall i, j :: 0 <= i < j < |rows| && rows[i].target == rows[j].target
      ==> !(Active(rows[i], now) && Active(rows[j], now))
  }

  lemma OneActiveLater(rows: seq<Row>, now: int, later: int)
    requires OneActiveAt(rows, now) && now <= later
    ensures OneActiveAt(rows, later)
  {
  }

  lemma RegisterKeepsOneActive(s: Table, target: Target, terms: Terms, at: int)
    requires OneActiveAt(s.rows, at)
    ensures OneActiveAt(StepRegister(s, target, terms, at).rows, at)
  {
  }

  lemma ShrinkKeepsOneActive(rows: seq<Row>, rows': seq<Row>, now: int)
    requires OneActiveAt(rows, now) && |rows'| == |rows|
    requires forall i :: 0 <= i < |rows| ==>
      rows'[i].target == rows[i].target && (Active(rows'[i], now) ==> Active(rows[i], now))
    ensures OneActiveAt(rows', now)
  {
  }

  lemma StepKeepsOneActive(s: Table, op: Op)
    requires OneActiveAt(s.rows, op.at) && (op.Expire? || op.Notice? ==> op.asOf <= op.at)
    ensures OneActiveAt(Step(s, op).rows, op.at)
  {
    if op.Register? {
      RegisterKeepsOneActive(s, op.target, op.terms, op.at);
    } else {
      ShrinkKeepsOneActive(s.rows, Step(s, op).rows, op.at);
    }
  }

  /** In every reachable table, now and at any later time, a finding has at most one active
    exception. */
  lemma {:induction false} AtMostOneActive(ops: seq<Op>, now: int)
    requires InClockOrder(ops) && (ops != [] ==> Last(ops).at <= now)
    ensures OneActiveAt(After(ops).rows, now)
  {
    if ops != [] {
      var s, op := After(Front(ops)), Last(ops);
      AtMostOneActive(Front(ops), op.at);
      StepKeepsOneActive(s, op);
      OneActiveLater(After(ops).rows, op.at, now);
    }
  }

  /** But several exceptions of a finding may be unended: one that has expired, and the one
    registered before the nightly job ended the first. */
  lemma SeveralUnendedPossible(target: Target, terms: Terms)
    requires terms.expires == Some(5)
    ensures var ops := [Register(0, target, terms), Register(6, target, terms)];
      && InClockOrder(ops) && |After(ops).rows| == 2
      && After(ops).rows[0].ended.None? && After(ops).rows[1].ended.None?
      && After(ops).rows[0].target == After(ops).rows[1].target
  {
    var ops := [Register(0, target, terms), Register(6, target, terms)];
    assert Front(ops) == [Register(0, target, terms)] && Front(Front(ops)) == [];
    var one := StepRegister(Table([], 1), target, terms, 0);
    assert Upserted([], 1, target, terms, 0) == [Row(1, target, terms, None, None)];
    assert one == Table([Row(1, target, terms, None, None)], 2);
    assert After([]) == Table([], 1);
    assert After([Register(0, target, terms)]) == one;
    assert After(ops).rows == one.rows + [Row(2, target, terms, None, None)];
  }

  // --------------------------------------------------------------------- expiry

  /** Expiry at `now` changes no exception's being active at `now` or later, and afterwards the
    unended exceptions are exactly those active at `now`. */
  lemma ExpiryStoresWhatTheClockSays(rows: seq<Row>, now: int, later: int)
    requires now <= later
    ensures var expired := WithExpired(rows, now);
      && |expired| == |rows|
      && forall i :: 0 <= i < |rows| ==>
           && (Active(expired[i], later) <==> Active(rows[i], later))
           && (expired[i].ended.None? <==> Active(expired[i], now))
  {
  }

  lemma ExpiryIsIdempotent(rows: seq<Row>, now: int)
    ensures WithExpired(WithExpired(rows, now), now) == WithExpired(rows, now)
    ensures Selected(DueBy(now), WithExpired(rows, now)) == {}
  {
    var expired := WithExpired(rows, now);
    forall r | r in expired ensures !Due(r, now) {
    }
  }

  // -------------------------------------------------------------------- notices

  ghost predicate SendsNotice(s: Table, op: Op, id: nat) {
    op.Notice? && id in Selected(SoonBy(op.asOf, op.asOf + op.days), s.rows)
  }

  /** How often a notice for exception `id` was sent. */
  ghost function NoticeCount(ops: seq<Op>, id: nat): nat {
    if ops == [] then 0
    else NoticeCount(Front(ops), id) + (if SendsNotice(After(Front(ops)), Last(ops), id) then 1 else 0)
  }

  /** How often the terms of exception `id` were set. */
  function TermsCount(ops: seq<Op>, id: nat): nat {
    if ops == [] then 0
    else TermsCount(Front(ops), id) + (if SetsTerms(After(Front(ops)), Last(ops), id) then 1 else 0)
  }

  predicate SetsTerms(s: Table, op: Op, id: nat) {
    op.Register? &&
    var i := FirstActive(s.rows, op.target, op.at);
    if i < |s.rows| then s.rows[i].id == id else s.nextId == id
  }

  /** The exception exists and its notice has not been sent. */
  predicate Pending(rows: seq<Row>, id: nat) {
    var i := Find(rows, id);
    i < |rows| && rows[i].notified.None?
  }

  /** Everything but a registration leaves the rows in place, with their ids and terms. */
  lemma StepInPlace(s: Table, op: Op)
    requires !op.Register?
    ensures var s' := Step(s, op);
      && s'.nextId == s.nextId && |s'.rows| == |s.rows|
      && forall i :: 0 <= i < |s.rows| ==>
           && s'.rows[i].id == s.rows[i].id && s'.rows[i].target == s.rows[i].target
           && s'.rows[i].terms == s.rows[i].terms
           && (!op.Notice? ==> s'.rows[i].notified == s.rows[i].notified)
  {
  }

  lemma {:induction false} IdsStayUnique(ops: seq<Op>)
    ensures IdsBelow(After(ops).rows, After(ops).nextId)
  {
    if ops != [] {
      IdsStayUnique(Front(ops));
      var s, op := After(Front(ops)), Last(ops);
      if op.Register? {
        RegisterIds(s, op.target, op.terms, op.at);
      } else {
        StepInPlace(s, op);
      }
    }
  }

  lemma RegisterIds(s: Table, target: Target, terms: Terms, at: int)
    requires IdsBelow(s.rows, s.nextId)
    ensures var s' := StepRegister(s, target, terms, at); IdsBelow(s'.rows, s'.nextId)
  {
  }

  lemma FindIs(rows: seq<Row>, i: nat)
    requires UniqueIds(rows) && i < |rows|
    ensures Find(rows, rows[i].id) == i
  {
  }

  lemma FindSame(rows: seq<Row>, rows': seq<Row>, id: nat)
    requires |rows| == |rows'| && forall i :: 0 <= i < |rows| ==> rows[i].id == rows'[i].id
    ensures Find(rows, id) == Find(rows', id)
  {
  }

  lemma StepPending(s: Table, op: Op, id: nat)
    requires IdsBelow(s.rows, s.nextId)
    ensures SendsNotice(s, op, id) ==> Pending(s.rows, id) && !Pending(Step(s, op).rows, id)
    ensures Pending(Step(s, op).rows, id) ==> Pending(s.rows, id) || SetsTerms(s, op, id)
  {
    match op
    case Register(at, target, terms) => RegisterPending(s, target, terms, at, id);
    case Notice(at, asOf, days) => NoticePending(s.rows, asOf, asOf + days, id);
    case _ =>
      StepInPlace(s, op);
      FindSame(s.rows, Step(s, op).rows, id);
  }

  /** A notice is sent at most once for each time the terms of an exception were set. */
  lemma {:induction false} OneNoticePerTerms(ops: seq<Op>, id: nat)
    ensures NoticeCount(ops, id) + (if Pending(After(ops).rows, id) then 1 else 0) <= TermsCount(ops, id)
  {
    if ops != [] {
      OneNoticePerTerms(Front(ops), id);
      IdsStayUnique(Front(ops));
      StepPending(After(Front(ops)), Last(ops), id);
    }
  }

  lemma RegisterPending(s: Table, target: Target, terms: Terms, at: int, id: nat)
    requires IdsBelow(s.rows, s.nextId)
    ensures !SetsTerms(s, Register(at, target, terms), id) ==>
      (Pending(StepRegister(s, target, terms, at).rows, id) <==> Pending(s.rows, id))
  {
    var rows := StepRegister(s, target, terms, at).rows;
    var i := FirstActive(s.rows, target, at);
    if i < |s.rows| {
      FindSame(s.rows, rows, id);
    } else if Find(s.rows, id) < |s.rows| {
      FindIs(rows, Find(s.rows, id));
    }
  }

  lemma NoticePending(rows: seq<Row>, now: int, limit: int, id: nat)
    requires UniqueIds(rows)
    ensures id in Selected(SoonBy(now, limit), rows) ==> Pending(rows, id) && !Pending(WithNoticed(rows, now, limit), id)
    ensures Pending(WithNoticed(rows, now, limit), id) ==> Pending(rows, id)
  {
    FindSame(rows, WithNoticed(rows, now, limit), id);
    if id in Selected(SoonBy(now, limit), rows) {
      var r :| r in rows && Soon(r, now, limit) && r.id == id;
      var i :| 0 <= i < |rows| && rows[i] == r;
      FindIs(rows, i);
    }
  }

  /** New terms make the notice due again. */
  lemma TermsMakePending(s: Table, op: Op, id: nat)
    requires IdsBelow(s.rows, s.nextId) && SetsTerms(s, op, id)
    ensures Pending(Step(s, op).rows, id)
  {
    var rows, i := Step(s, op).rows, FirstActive(s.rows, op.target, op.at);
    RegisterIds(s, op.target, op.terms, op.at);
    FindIs(rows, i);
  }

  /** A notice was sent since the terms of the exception were last set. */
  ghost predicate NoticedSince(ops: seq<Op>, id: nat) {
    ops != [] &&
    var s, op := After(Front(ops)), Last(ops);
    !SetsTerms(s, op, id) && (SendsNotice(s, op, id) || NoticedSince(Front(ops), id))
  }

  lemma StepKeepsPending(s: Table, op: Op, id: nat)
    requires IdsBelow(s.rows, s.nextId) && Pending(s.rows, id) && !SendsNotice(s, op, id)
    ensures Pending(Step(s, op).rows, id)
  {
    match op
    case Register(at, target, terms) =>
      if SetsTerms(s, op, id) {
        TermsMakePending(s, op, id);
      } else {
        RegisterPending(s, target, terms, at, id);
      }
    case Notice(at, asOf, days) =>
      FindSame(s.rows, Step(s, op).rows, id);
      var i := Find(s.rows, id);
      assert s.rows[i] in s.rows;
      assert !Soon(s.rows[i], asOf, asOf + days);
    case _ =>
      StepInPlace(s, op);
      FindSame(s.rows, Step(s, op).rows, id);
  }

  predicate Present(rows: seq<Row>, id: nat) {
    Find(rows, id) < |rows|
  }

  lemma NewRowsAreSet(s: Table, op: Op, id: nat)
    requires IdsBelow(s.rows, s.nextId) && Present(Step(s, op).rows, id) && !SetsTerms(s, op, id)
    ensures Present(s.rows, id)
  {
    if op.Register? {
      var rows := Step(s, op).rows;
      var i := Find(rows, id);
      if i < |s.rows| {
        assert s.rows[i].id == id;
        FindIs(s.rows, i);
      }
    } else {
      StepInPlace(s, op);
      FindSame(s.rows, Step(s, op).rows, id);
    }
  }

  /** The notice of an exception is pending exactly when none was sent since its terms were last set. */
  lemma {:induction false} PendingExactly(ops: seq<Op>, id: nat)
    requires Present(After(ops).rows, id)
    ensures Pending(After(ops).rows, id) <==> !NoticedSince(ops, id)
  {
    if ops != [] {
      var s, op := After(Front(ops)), Last(ops);
      IdsStayUnique(Front(ops));
      if SetsTerms(s, op, id) {
        TermsMakePending(s, op, id);
      } else {
        NewRowsAreSet(s, op, id);
        PendingExactly(Front(ops), id);
        StepPending(s, op, id);
        if Pending(s.rows, id) && !SendsNotice(s, op, id) {
          StepKeepsPending(s, op, id);
        }
      }
    }
  }

  /** So, after any run, the nightly notices reach exactly the accepted exceptions that have not ended,
    expire within the days given, and had no notice since their terms were last set. */
  lemma NoticeReachesExactly(ops: seq<Op>, at: int, asOf: int, days: int, i: nat)
    requires i < |After(ops).rows|
    ensures var r := After(ops).rows[i];
      SendsNotice(After(ops), Notice(at, asOf, days), r.id) <==>
        && r.terms.status == Accepted && r.ended == None && r.terms.expires.Some?
        && asOf < r.terms.expires.value <= asOf + days && !NoticedSince(ops, r.id)
  {
    var rows := After(ops).rows;
    IdsStayUnique(ops);
    FindIs(rows, i);
    PendingExactly(ops, rows[i].id);
    forall r | r in rows && r.id == rows[i].id ensures r == rows[i] {
      var j :| 0 <= j < |rows| && rows[j] == r;
      assert i == j;
    }
    assert rows[i] in rows;
  }

  /** A registration gives the exception of the finding that is active, or a new one if none is, the
    terms of the registration, and leaves the others alone. */
  lemma RegisterSetsTerms(s: Table, op: Op)
    requires IdsBelow(s.rows, s.nextId) && op.Register?
    ensures exists i :: 0 <= i < |Step(s, op).rows| && RegisteredAt(s, op, i)
  {
    var i := FirstActive(s.rows, op.target, op.at);
    assert RegisteredAt(s, op, i);
  }

  ghost predicate RegisteredAt(s: Table, op: Op, i: nat)
    requires op.Register?
  {
    var rows := Step(s, op).rows;
    && |s.rows| <= |rows| <= |s.rows| + 1 && i < |rows|
    && rows[i].target == op.target && rows[i].terms == op.terms && rows[i].ended == None && rows[i].notified == None
    && (forall j :: 0 <= j < |s.rows| && j != i ==> rows[j] == s.rows[j])
    && (i < |s.rows| ==> |rows| == |s.rows| && rows[i].id == s.rows[i].id && InForce(s.rows[i], op.target, op.at))
    && (i == |s.rows| ==> rows[i].id == s.nextId)
    && (i == |s.rows| ==> forall j :: 0 <= j < |s.rows| ==> !InForce(s.rows[j], op.target, op.at))
  }

  /** An exception of the finding that has neither ended nor expired. */
  predicate InForce(r: Row, target: Target, now: int) {
    r.target == target && r.ended == None && (r.terms.expires == None || now < r.terms.expires.value)
  }

  /** The other operations only end exceptions and mark notices: revocation and a published fix end the
    named one, if it had not ended; expiry ends what has expired, at its own time; notices mark
    accepted exceptions that expire soon. */
  lemma OtherStepsExactly(s: Table, op: Op, i: nat)
    requires UniqueIds(s.rows) && !op.Register? && i < |s.rows|
    ensures var r, r' := s.rows[i], Step(s, op).rows[i];
      && r' == r.(ended := r'.ended, notified := r'.notified)
      && (r'.ended != r.ended <==>
            && r.ended == None
            && ((op.Revoke? && op.id == r.id) || (op.EndFixed? && op.id == r.id)
                || (op.Expire? && r.terms.expires.Some? && r.terms.expires.value <= op.asOf)))
      && (r'.ended != r.ended ==>
            r'.ended == Some(if op.Revoke? then Ending(op.at, Revoked)
                             else if op.EndFixed? then Ending(op.at, FixAvailable) else Ending(op.asOf, Expired)))
      && (r'.notified != r.notified <==>
            && op.Notice? && r.notified == None && r.ended == None && r.terms.status == Accepted
            && r.terms.expires.Some? && op.asOf < r.terms.expires.value <= op.asOf + op.days)
      && (r'.notified != r.notified ==> r'.notified == Some(op.asOf))
  {
    if op.Revoke? || op.EndFixed? {
      assert s.rows[i].id == op.id ==> Find(s.rows, op.id) == i by {
        if s.rows[i].id == op.id {
          FindIs(s.rows, i);
        }
      }
    }
  }
}
