/** The nightly job over the exceptions (app/finding_exceptions/lifecycle.py): end accepted risks
  for which a fix was published, end what has expired, and give notice of what expires soon. */
module ExceptionLifecycle {
  import opened Prelude
  import opened FindingExceptions
  import opened ExceptionRuns
  import opened ExceptionMatching

  predicate HasFindings(t: Target, findings: seq<Finding>) {
    FindingsFor(t, findings) != []
  }

  predicate FixPublished(t: Target, findings: seq<Finding>) {
    exists f | f in FindingsFor(t, findings) :: f.DependencyFinding? && f.fixed
  }

  /** An accepted dependency risk, active at `now`, for which a fix was published. */
  predicate Fixed(r: Row, findings: seq<Finding>, now: int) {
    Selects(AcceptedAt(Dependency, now), r) && FixPublished(r.target, findings)
  }

  function EndIfFixed(r: Row, findings: seq<Finding>, checkedAt: int, endedAt: int): Row {
    if Fixed(r, findings, checkedAt) then r.(ended := Some(Ending(endedAt, FixAvailable))) else r
  }

  /** What the job makes of one row. It reads the clock three times: `now` at the start, `checkedAt`
    when it looks for accepted risks, `endedAt` when it ends them. */
  function NightlyRow(r: Row, findings: seq<Finding>, now: int, checkedAt: int, endedAt: int, limit: int): Row {
    NoticeRow(ExpireRow(EndIfFixed(r, findings, checkedAt, endedAt), now), now, limit)
  }

  predicate Passes(t: Target, findings: seq<Finding>, fixedOnly: bool) {
    if fixedOnly then FixPublished(t, findings) else HasFindings(t, findings)
  }

  /** The listed exceptions that satisfy one of the two filters of the job. */
  function Keep(rows: seq<Row>, ids: seq<nat>, findings: seq<Finding>, fixedOnly: bool): seq<nat> {
    if ids == [] then []
    else
      var i := Find(rows, ids[0]);
      var keep := i < |rows| && Passes(rows[i].target, findings, fixedOnly);
      (if keep then [ids[0]] else []) + Keep(rows, ids[1..], findings, fixedOnly)
  }

  /** In the table `rows`, the list names exactly the rows that `q` selects and the filter keeps. */
  ghost predicate Lists(ids: seq<nat>, rows: seq<Row>, q: Query, findings: seq<Finding>, fixedOnly: bool) {
    forall i :: 0 <= i < |rows| ==>
      (rows[i].id in ids <==> Selects(q, rows[i]) && Passes(rows[i].target, findings, fixedOnly))
  }

  lemma {:induction false} KeepLists(rows: seq<Row>, ids: seq<nat>, findings: seq<Finding>, fixedOnly: bool, i: nat)
    requires UniqueIds(rows) && i < |rows|
    ensures rows[i].id in Keep(rows, ids, findings, fixedOnly)
       <==> rows[i].id in ids && Passes(rows[i].target, findings, fixedOnly)
    ensures forall id :: id in Keep(rows, ids, findings, fixedOnly) ==> Find(rows, id) < |rows|
  {
    FindIs(rows, i);
    if ids != [] {
      KeepLists(rows, ids[1..], findings, fixedOnly, i);
    }
  }

  lemma SelectedRow(q: Query, rows: seq<Row>, i: nat)
    requires UniqueIds(rows) && i < |rows|
    ensures rows[i].id in Selected(q, rows) <==> Selects(q, rows[i])
  {
    if rows[i].id in Selected(q, rows) {
      var r :| r in rows && Selects(q, r) && r.id == rows[i].id;
      var j :| 0 <= j < |rows| && rows[j] == r;
      assert i == j;
    }
  }

  lemma SelectedThenKept(rows: seq<Row>, q: Query, ids: seq<nat>, findings: seq<Finding>, fixedOnly: bool)
    requires UniqueIds(rows) && IdsOf(ids) == Selected(q, rows)
    ensures Lists(Keep(rows, ids, findings, fixedOnly), rows, q, findings, fixedOnly)
    ensures forall id :: id in Keep(rows, ids, findings, fixedOnly) ==> Find(rows, id) < |rows|
  {
    forall i | 0 <= i < |rows| ensures rows[i].id in ids <==> Selects(q, rows[i]) {
      SelectedRow(q, rows, i);
      assert rows[i].id in ids <==> rows[i].id in IdsOf(ids);
    }
    forall i | 0 <= i < |rows| {
      KeepLists(rows, ids, findings, fixedOnly, i);
    }
    if rows == [] {
      NothingKept(ids, findings, fixedOnly);
    } else {
      KeepLists(rows, ids, findings, fixedOnly, 0);
    }
  }

  lemma {:induction false} NothingKept(ids: seq<nat>, findings: seq<Finding>, fixedOnly: bool)
    ensures Keep([], ids, findings, fixedOnly) == []
  {
    if ids != [] {
      NothingKept(ids[1..], findings, fixedOnly);
    }
  }

  function EndIfIn(r: Row, ids: seq<nat>, endedAt: int): Row {
    if r.id in ids then r.(ended := Some(Ending(endedAt, FixAvailable))) else r
  }

  method EndAll(table: ExceptionTable, ids: seq<nat>, endedAt: int)
    requires table.Valid() && forall id :: id in ids ==> Find(table.rows, id) < |table.rows|
    modifies table`rows
    ensures table.Valid() && |table.rows| == |old(table.rows)|
    ensures forall j :: 0 <= j < |table.rows| ==> table.rows[j] == EndIfIn(old(table.rows)[j], ids, endedAt)
  {
    ghost var rows := table.rows;
    for i := 0 to |ids|
      invariant table.Valid() && |table.rows| == |rows|
      invariant forall j :: 0 <= j < |rows| ==> table.rows[j] == EndIfIn(rows[j], ids[..i], endedAt)
    {
      assert ids[..i + 1] == ids[..i] + [ids[i]];
      FindSame(rows, table.rows, ids[i]);
      table.End(ids[i], FixAvailable, endedAt);
    }
    assert ids[..|ids|] == ids;
  }

  /** Every row becomes its `NightlyRow`; and in terms of the table before the job, `fixed` names
    the rows ended for a fix, `expired` the others that expired and still have open findings, and
    `soon` the others that expire soon and still have open findings. */
  method RunLifecycle(
      table: ExceptionTable, findings: seq<Finding>, now: int, checkedAt: int, endedAt: int, days: int)
    returns (fixed: seq<nat>, expired: seq<nat>, soon: seq<nat>)
    requires table.Valid()
    modifies table`rows
    ensures table.Valid() && |table.rows| == |old(table.rows)|
    ensures forall i :: 0 <= i < |table.rows| ==>
      var r := old(table.rows)[i];
      && table.rows[i] == NightlyRow(r, findings, now, checkedAt, endedAt, now + days)
      && (r.id in fixed <==> Fixed(r, findings, checkedAt))
      && (r.id in expired <==> !Fixed(r, findings, checkedAt) && Due(r, now) && HasFindings(r.target, findings))
      && (r.id in soon <==> !Fixed(r, findings, checkedAt) && Soon(r, now, now + days) && HasFindings(r.target, findings))
      && !(r.id in fixed && r.id in expired) && !(r.id in fixed && r.id in soon) && !(r.id in expired && r.id in soon)
  {
    var accepted := table.ActiveAccepted(Dependency, checkedAt);
    SelectedThenKept(table.rows, AcceptedAt(Dependency, checkedAt), accepted, findings, true);
    fixed := Keep(table.rows, accepted, findings, true);
    EndAll(table, fixed, endedAt);
    ghost var afterFix := table.rows;
    assert forall i :: 0 <= i < |afterFix| ==> afterFix[i] == EndIfFixed(old(table.rows)[i], findings, checkedAt, endedAt);
    var due := table.ExpireDue(now);
    ghost var afterExpiry := table.rows;
    SelectedThenKept(afterFix, DueBy(now), due, findings, false);
    expired := Keep(table.rows, due, findings, false);
    KeepSame(afterFix, afterExpiry, due, findings);
    var near := table.DueSoon(now, days);
    SelectedThenKept(afterExpiry, SoonBy(now, now + days), near, findings, false);
    KeepSame(afterExpiry, table.rows, near, findings);
    soon := Keep(table.rows, near, findings, false);
  }

  lemma {:induction false} KeepSame(rows: seq<Row>, rows': seq<Row>, ids: seq<nat>, findings: seq<Finding>)
    requires |rows| == |rows'|
    requires forall i :: 0 <= i < |rows| ==> rows[i].id == rows'[i].id && rows[i].target == rows'[i].target
    ensures Keep(rows, ids, findings, false) == Keep(rows', ids, findings, false)
  {
    if ids != [] {
      FindSame(rows, rows', ids[0]);
      KeepSame(rows, rows', ids[1..], findings);
    }
  }

  /** After the job no accepted dependency risk with a published fix is active any more. */
  lemma NoFixedRiskStaysActive(r: Row, findings: seq<Finding>, now: int, checkedAt: int, endedAt: int, limit: int, later: int)
    requires checkedAt <= later
    ensures !Fixed(NightlyRow(r, findings, now, checkedAt, endedAt, limit), findings, later)
  {
  }

  /** The job keeps what ExceptionRuns says of every table: from `now` on, a finding has at most one
    active exception if it had at most one; and after it the exceptions that have not ended are
    exactly those active at `now`. */
  lemma NightlyKeepsOneActive(
      rows: seq<Row>, rows': seq<Row>, findings: seq<Finding>, now: int, checkedAt: int, endedAt: int, limit: int,
      later: int)
    requires OneActiveAt(rows, now) && now <= later && |rows'| == |rows|
    requires forall i :: 0 <= i < |rows| ==> rows'[i] == NightlyRow(rows[i], findings, now, checkedAt, endedAt, limit)
    ensures OneActiveAt(rows', later)
    ensures forall i :: 0 <= i < |rows'| ==> (rows'[i].ended.None? <==> Active(rows'[i], now))
  {
    ShrinkKeepsOneActive(rows, rows', now);
    OneActiveLater(rows', now, later);
  }

  lemma {:induction false} FindingsForContents(t: Target, findings: seq<Finding>)
    ensures forall f :: f in FindingsFor(t, findings) <==> f in findings && Covers(t, f)
  {
    if findings != [] {
      FindingsForContents(t, findings[1..]);
    }
  }

  /** An open dependency finding about which the exception is, by the parts of its key. */
  ghost predicate IsAbout(t: Target, f: Finding) {
    && f.DependencyFinding? && !f.resolved && t.kind == Dependency && t.repo == f.repo
    && t.key == f.ecosystem + "|" + f.package + "|" + f.osvId
    && '|' !in f.ecosystem && '|' !in f.package && '|' !in f.osvId
  }

  /** A fix is published for the risk exactly when an open dependency finding about which the exception
    is has a fixed version. */
  lemma FixPublishedExactly(t: Target, findings: seq<Finding>)
    ensures FixPublished(t, findings) <==> exists f :: f in findings && IsAbout(t, f) && f.fixed
  {
    FindingsForContents(t, findings);
    forall f | f in findings && f.DependencyFinding? ensures Covers(t, f) <==> IsAbout(t, f) {
      CoversExactly(t, f);
    }
  }

  /** An exception is about open findings exactly when some finding is open and has its key. */
  lemma HasFindingsExactly(t: Target, findings: seq<Finding>)
    ensures HasFindings(t, findings) <==>
      exists f :: f in findings && !f.resolved && Separable(f) && t == Target(KindOf(f), f.repo, KeyOf(f))
  {
    FindingsForContents(t, findings);
    forall f | f in findings
      ensures Covers(t, f) <==> !f.resolved && Separable(f) && t == Target(KindOf(f), f.repo, KeyOf(f))
    {
      CoversExactly(t, f);
    }
    if HasFindings(t, findings) {
      assert FindingsFor(t, findings)[0] in FindingsFor(t, findings);
    }
  }

  /** An accepted dependency risk that had neither ended nor expired, and has a published fix. */
  ghost predicate RiskWithFix(r: Row, findings: seq<Finding>, now: int) {
    && r.target.kind == Dependency && r.terms.status == Accepted
    && r.ended == None && (r.terms.expires == None || now < r.terms.expires.value)
    && exists f :: f in findings && IsAbout(r.target, f) && f.fixed
  }

  /** What the job does to an exception: it ends exactly the accepted risks with a published fix, as
    fixed, and of the others those that have expired, as expired; and marks exactly those left that
    are accepted, expire within the notice and had none. */
  lemma NightlyExactly(r: Row, findings: seq<Finding>, now: int, checkedAt: int, endedAt: int, limit: int)
    ensures var r' := NightlyRow(r, findings, now, checkedAt, endedAt, limit);
      var expired := r.ended == None && r.terms.expires.Some? && r.terms.expires.value <= now;
      && r' == r.(ended := r'.ended, notified := r'.notified)
      && r'.ended == (if RiskWithFix(r, findings, checkedAt) then Some(Ending(endedAt, FixAvailable))
                      else if expired then Some(Ending(now, Expired)) else r.ended)
      && (r'.notified != r.notified <==>
            && r'.ended == None && r.terms.status == Accepted && r.notified == None
            && r.terms.expires.Some? && now < r.terms.expires.value <= limit)
      && (r'.notified != r.notified ==> r'.notified == Some(now))
  {
    FixPublishedExactly(r.target, findings);
  }
}
