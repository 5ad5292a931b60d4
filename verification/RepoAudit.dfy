/** The repository audit's record of who and what has access (app/repo_audit/checks.py and
  crawler.py): each audit merges what it could observe into the stored snapshot and reports the
  changes since the last one. A kind that could not be observed is None. */
module RepoAudit {
  import opened Prelude
  import opened Ordering

  datatype Kind = DeployKeys | Hooks | Collaborators

  datatype Snapshot = Snapshot(
    keys: Option<seq<string>>, hooks: Option<seq<string>>, collaborators: Option<seq<string>>) {

    function Get(kind: Kind): Option<seq<string>> {
      match kind
      case DeployKeys => keys
      case Hooks => hooks
      case Collaborators => collaborators
    }
  }

  datatype Change = Change(kind: Kind, added: bool, name: string)

  function OrElse(observed: Option<seq<string>>, stored: Option<seq<string>>): Option<seq<string>> {
    if observed.Some? then observed else stored
  }

  function Merge(stored: Option<Snapshot>, observed: Snapshot): Snapshot {
    if stored.None? then observed
    else Snapshot(OrElse(observed.keys, stored.value.keys), OrElse(observed.hooks, stored.value.hooks),
                  OrElse(observed.collaborators, stored.value.collaborators))
  }

  /** The distinct names of `a` that are not in `b`. */
  function Missing(a: seq<string>, b: seq<string>): seq<string> {
    if a == [] then []
    else
      var rest := Missing(Front(a), b);
      if Last(a) in b || Last(a) in rest then rest else rest + [Last(a)]
  }

  function SortedMissing(a: seq<string>, b: seq<string>): seq<string> {
    Sort(StringLess, Missing(a, b))
  }

  function Changes(kind: Kind, added: bool, names: seq<string>): seq<Change> {
    if names == [] then [] else Changes(kind, added, Front(names)) + [Change(kind, added, Last(names))]
  }

  function KindChanges(kind: Kind, before: Option<seq<string>>, after: Option<seq<string>>): seq<Change> {
    if before.None? || after.None? then []
    else Changes(kind, true, SortedMissing(after.value, before.value))
         + Changes(kind, false, SortedMissing(before.value, after.value))
  }

  function Diff(stored: Option<Snapshot>, merged: Snapshot): seq<Change> {
    if stored.None? then []
    else KindChanges(DeployKeys, stored.value.keys, merged.keys)
         + KindChanges(Hooks, stored.value.hooks, merged.hooks)
         + KindChanges(Collaborators, stored.value.collaborators, merged.collaborators)
  }

  method DiffSnapshot(stored: Option<Snapshot>, merged: Snapshot) returns (changes: seq<Change>)
    ensures changes == Diff(stored, merged)
  {
    changes := [];
    if stored.None? {
      return;
    }
    var ofKeys := DiffKind(DeployKeys, stored.value.keys, merged.keys);
    var ofHooks := DiffKind(Hooks, stored.value.hooks, merged.hooks);
    var ofCollaborators := DiffKind(Collaborators, stored.value.collaborators, merged.collaborators);
    changes := ofKeys + ofHooks + ofCollaborators;
  }

  method DiffKind(kind: Kind, before: Option<seq<string>>, after: Option<seq<string>>) returns (changes: seq<Change>)
    ensures changes == KindChanges(kind, before, after)
  {
    changes := [];
    if before.None? || after.None? {
      return;
    }
    var appeared := SortedMissing(after.value, before.value);
    for n := 0 to |appeared|
      invariant changes == Changes(kind, true, appeared[..n])
    {
      assert Front(appeared[..n + 1]) == appeared[..n];
      changes := changes + [Change(kind, true, appeared[n])];
    }
    assert appeared[..|appeared|] == appeared;
    ghost var added := changes;
    var vanished := SortedMissing(before.value, after.value);
    for n := 0 to |vanished|
      invariant changes == added + Changes(kind, false, vanished[..n])
    {
      assert Front(vanished[..n + 1]) == vanished[..n];
      changes := changes + [Change(kind, false, vanished[n])];
    }
    assert vanished[..|vanished|] == vanished;
  }

  /** The stored row of one repository. */
  class AuditRow {
    var snapshot: Option<Snapshot>

    constructor ()
      ensures snapshot == None
    {
      snapshot := None;
    }

    method Audit(observed: Snapshot) returns (changes: seq<Change>)
      modifies this
      ensures snapshot == Some(Merge(old(snapshot), observed))
      ensures changes == Diff(old(snapshot), Merge(old(snapshot), observed))
    {
      var previous := snapshot;
      var merged := Merge(previous, observed);
      changes := DiffSnapshot(previous, merged);
      snapshot := Some(merged);
    }
  }

  // ---------------------------------------------------------- sequences of audits

  /** The snapshot stored after these observations, from none. */
  function Stored(observations: seq<Snapshot>): Option<Snapshot> {
    if observations == [] then None
    else Some(Merge(Stored(Front(observations)), Last(observations)))
  }

  function OfKind(kind: Kind, changes: seq<Change>): seq<Change> {
    if changes == [] then []
    else OfKind(kind, Front(changes)) + (if Last(changes).kind == kind then [Last(changes)] else [])
  }

  /** All changes of a kind that the audits reported, in order. */
  function Reported(kind: Kind, observations: seq<Snapshot>): seq<Change> {
    if observations == [] then []
    else Reported(kind, Front(observations))
         + OfKind(kind, Diff(Stored(Front(observations)), Stored(observations).value))
  }

  /** The first and the last observation of a kind. */
  function FirstKnown(kind: Kind, observations: seq<Snapshot>): Option<seq<string>> {
    if observations == [] then None
    else
      var before := FirstKnown(kind, Front(observations));
      if before.Some? then before else Last(observations).Get(kind)
  }

  function LastKnown(kind: Kind, observations: seq<Snapshot>): Option<seq<string>> {
    if observations == [] then None
    else OrElse(Last(observations).Get(kind), LastKnown(kind, Front(observations)))
  }

  function NameSet(names: seq<string>): set<string> {
    set n | n in names
  }

  function Apply(names: set<string>, changes: seq<Change>): set<string> {
    if changes == [] then names
    else
      var before, c := Apply(names, Front(changes)), Last(changes);
      if c.added then before + {c.name} else before - {c.name}
  }

  /** Every added name was absent when it was added, every removed one present. */
  predicate Truthful(names: set<string>, changes: seq<Change>) {
    changes == [] ||
    (Truthful(names, Front(changes))
     && var before, c := Apply(names, Front(changes)), Last(changes);
        c.added <==> c.name !in before)
  }

  lemma {:induction false} StoredIsLastKnown(kind: Kind, observations: seq<Snapshot>)
    requires observations != []
    ensures Stored(observations).value.Get(kind) == LastKnown(kind, observations)
  {
    if |observations| > 1 {
      StoredIsLastKnown(kind, Front(observations));
    } else {
      assert Front(observations) == [];
    }
  }

  lemma {:induction false} OfKindConcat(kind: Kind, a: seq<Change>, b: seq<Change>)
    ensures OfKind(kind, a + b) == OfKind(kind, a) + OfKind(kind, b)
  {
    if b == [] {
      assert a + b == a;
    } else {
      assert Front(a + b) == a + Front(b);
      OfKindConcat(kind, a, Front(b));
    }
  }

  lemma {:induction false} OfKindChanges(kind: Kind, other: Kind, added: bool, names: seq<string>)
    ensures OfKind(kind, Changes(other, added, names))
         == if kind == other then Changes(other, added, names) else []
  {
    if names != [] {
      OfKindChanges(kind, other, added, Front(names));
    }
  }

  lemma OfKindKindChanges(kind: Kind, other: Kind, before: Option<seq<string>>, after: Option<seq<string>>)
    ensures OfKind(kind, KindChanges(other, before, after))
         == if kind == other then KindChanges(other, before, after) else []
  {
    if before.Some? && after.Some? {
      var appeared, vanished := SortedMissing(after.value, before.value), SortedMissing(before.value, after.value);
      OfKindConcat(kind, Changes(other, true, appeared), Changes(other, false, vanished));
      OfKindChanges(kind, other, true, appeared);
      OfKindChanges(kind, other, false, vanished);
    }
  }

  lemma DiffOfKind(kind: Kind, stored: Option<Snapshot>, merged: Snapshot)
    ensures OfKind(kind, Diff(stored, merged))
         == if stored.None? then [] else KindChanges(kind, stored.value.Get(kind), merged.Get(kind))
  {
    if stored.Some? {
      var k := KindChanges(DeployKeys, stored.value.keys, merged.keys);
      var h := KindChanges(Hooks, stored.value.hooks, merged.hooks);
      var c := KindChanges(Collaborators, stored.value.collaborators, merged.collaborators);
      OfKindConcat(kind, k + h, c);
      OfKindConcat(kind, k, h);
      OfKindKindChanges(kind, DeployKeys, stored.value.keys, merged.keys);
      OfKindKindChanges(kind, Hooks, stored.value.hooks, merged.hooks);
      OfKindKindChanges(kind, Collaborators, stored.value.collaborators, merged.collaborators);
    }
  }

  /** What one more audit reports of a kind: the changes from the last known set to the new one. */
  lemma ReportedStep(kind: Kind, observations: seq<Snapshot>)
    requires observations != []
    ensures Reported(kind, observations) == Reported(kind, Front(observations))
      + KindChanges(kind, LastKnown(kind, Front(observations)), LastKnown(kind, observations))
  {
    var front := Front(observations);
    DiffOfKind(kind, Stored(front), Stored(observations).value);
    StoredIsLastKnown(kind, observations);
    if front != [] {
      StoredIsLastKnown(kind, front);
    }
  }

  // -------------------------------------------------------------- they telescope

  lemma {:induction false} MissingContents(a: seq<string>, b: seq<string>)
    ensures forall n :: n in Missing(a, b) <==> n in a && n !in b
    ensures Distinct(Missing(a, b))
  {
    if a != [] {
      MissingContents(Front(a), b);
      assert a == Front(a) + [Last(a)];
    }
  }

  lemma SortedMissingContents(a: seq<string>, b: seq<string>)
    ensures forall n :: n in SortedMissing(a, b) <==> n in a && n !in b
    ensures Distinct(SortedMissing(a, b))
  {
    MissingContents(a, b);
    SortContents(StringLess, Missing(a, b));
    SortKeepsDistinct(StringLess, Missing(a, b));
  }

  lemma {:induction false} ApplyConcat(names: set<string>, a: seq<Change>, b: seq<Change>)
    ensures Apply(names, a + b) == Apply(Apply(names, a), b)
    ensures Truthful(names, a + b) <==> Truthful(names, a) && Truthful(Apply(names, a), b)
  {
    if b == [] {
      assert a + b == a;
    } else {
      assert Front(a + b) == a + Front(b);
      ApplyConcat(names, a, Front(b));
    }
  }

  lemma NamesStep(names: seq<string>)
    requires Distinct(names) && names != []
    ensures Distinct(Front(names)) && Last(names) !in NameSet(Front(names))
    ensures NameSet(names) == NameSet(Front(names)) + {Last(names)}
    ensures forall n :: n in Front(names) ==> n in names
  {
    assert names == Front(names) + [Last(names)];
  }

  lemma ApplyStep(names: set<string>, changes: seq<Change>, c: Change)
    ensures var before := Apply(names, changes);
      && Apply(names, changes + [c]) == (if c.added then before + {c.name} else before - {c.name})
      && (Truthful(names, changes + [c]) <==> Truthful(names, changes) && (c.added <==> c.name !in before))
  {
    assert Front(changes + [c]) == changes;
  }

  lemma {:induction false} ApplyAdded(names: set<string>, kind: Kind, added: seq<string>)
    requires Distinct(added) && forall n :: n in added ==> n !in names
    ensures Apply(names, Changes(kind, true, added)) == names + NameSet(added)
    ensures Truthful(names, Changes(kind, true, added))
  {
    if added != [] {
      NamesStep(added);
      ApplyAdded(names, kind, Front(added));
      ApplyStep(names, Changes(kind, true, Front(added)), Change(kind, true, Last(added)));
    }
  }

  lemma {:induction false} ApplyRemoved(names: set<string>, kind: Kind, removed: seq<string>)
    requires Distinct(removed) && forall n :: n in removed ==> n in names
    ensures Apply(names, Changes(kind, false, removed)) == names - NameSet(removed)
    ensures Truthful(names, Changes(kind, false, removed))
  {
    if removed != [] {
      NamesStep(removed);
      ApplyRemoved(names, kind, Front(removed));
      ApplyStep(names, Changes(kind, false, Front(removed)), Change(kind, false, Last(removed)));
    }
  }

  lemma KindChangesApply(kind: Kind, before: seq<string>, after: seq<string>)
    ensures Apply(NameSet(before), KindChanges(kind, Some(before), Some(after))) == NameSet(after)
    ensures Truthful(NameSet(before), KindChanges(kind, Some(before), Some(after)))
  {
    var appeared, vanished := SortedMissing(after, before), SortedMissing(before, after);
    SortedMissingContents(after, before);
    SortedMissingContents(before, after);
    ApplyAdded(NameSet(before), kind, appeared);
    var union := NameSet(before) + NameSet(appeared);
    ApplyRemoved(union, kind, vanished);
    assert union - NameSet(vanished) == NameSet(after);
    ApplyConcat(NameSet(before), Changes(kind, true, appeared), Changes(kind, false, vanished));
  }

  /** Over any audits, whatever could be observed in each: applying the reported changes of a kind,
    in order, to the first set that was observed gives the set observed last; every change was true
    when it was reported; and nothing is reported before the kind was first observed. */
  lemma {:induction false} ChangesTelescope(kind: Kind, observations: seq<Snapshot>)
    ensures var first, last := FirstKnown(kind, observations), LastKnown(kind, observations);
      && (first.None? <==> last.None?)
      && (if first.None? then Reported(kind, observations) == []
          else Apply(NameSet(first.value), Reported(kind, observations)) == NameSet(last.value)
               && Truthful(NameSet(first.value), Reported(kind, observations)))
  {
    if observations != [] {
      var front := Front(observations);
      ChangesTelescope(kind, front);
      ReportedStep(kind, observations);
      var first, before, now := FirstKnown(kind, front), LastKnown(kind, front), LastKnown(kind, observations);
      if first.Some? {
        KindChangesApply(kind, before.value, now.value);
        ApplyConcat(NameSet(first.value), Reported(kind, front), KindChanges(kind, before, now));
      }
    }
  }

  /** The observations in which a kind was available. */
  function Available(kind: Kind, observations: seq<Snapshot>): seq<Snapshot> {
    if observations == [] then []
    else Available(kind, Front(observations)) + (if Last(observations).Get(kind).Some? then [Last(observations)] else [])
  }

  lemma {:induction false} NothingMissing(a: seq<string>, b: seq<string>)
    requires forall n :: n in a ==> n in b
    ensures Missing(a, b) == []
  {
    if a != [] {
      NothingMissing(Front(a), b);
      assert Last(a) in a;
    }
  }

  lemma NoChangeFromSame(kind: Kind, known: Option<seq<string>>)
    ensures KindChanges(kind, known, known) == []
  {
    if known.Some? {
      NothingMissing(known.value, known.value);
    }
  }

  lemma {:induction false} LastKnownIsAvailable(kind: Kind, observations: seq<Snapshot>)
    ensures LastKnown(kind, observations) == LastKnown(kind, Available(kind, observations))
  {
    if observations != [] {
      var front, last := Front(observations), Last(observations);
      LastKnownIsAvailable(kind, front);
      if last.Get(kind).Some? {
        assert Last(Available(kind, observations)) == last;
      } else {
        assert Available(kind, observations) == Available(kind, front);
      }
    }
  }

  /** Audits in which the kind was not available report the same as if they had not happened. */
  lemma {:induction false} UnavailableChangesNothing(kind: Kind, observations: seq<Snapshot>)
    ensures Reported(kind, observations) == Reported(kind, Available(kind, observations))
  {
    if observations != [] {
      var front, last := Front(observations), Last(observations);
      UnavailableChangesNothing(kind, front);
      ReportedStep(kind, observations);
      if last.Get(kind).Some? {
        var extended := Available(kind, front) + [last];
        assert Available(kind, observations) == extended && Front(extended) == Available(kind, front);
        ReportedStep(kind, extended);
        LastKnownIsAvailable(kind, front);
        LastKnownIsAvailable(kind, observations);
      } else {
        assert Available(kind, observations) == Available(kind, front);
        NoChangeFromSame(kind, LastKnown(kind, front));
      }
    }
  }

  // ------------------------------------------------------------- in terms of the audits

  /** The `n`-th audit was the last in which the kind could be observed. */
  ghost predicate LastSeenAt(kind: Kind, observations: seq<Snapshot>, n: int) {
    && 0 <= n < |observations| && observations[n].Get(kind).Some?
    && forall m :: n < m < |observations| ==> observations[m].Get(kind) == None
  }

  ghost predicate FirstSeenAt(kind: Kind, observations: seq<Snapshot>, n: int) {
    && 0 <= n < |observations| && observations[n].Get(kind).Some?
    && forall m :: 0 <= m < n ==> observations[m].Get(kind) == None
  }

  /** What is stored of a kind is its last observation, and nothing if there was none. */
  lemma {:induction false} LastKnownIs(kind: Kind, observations: seq<Snapshot>, n: int)
    requires LastSeenAt(kind, observations, n)
    ensures LastKnown(kind, observations) == observations[n].Get(kind)
  {
    if n < |observations| - 1 {
      assert LastSeenAt(kind, Front(observations), n);
      assert observations[|observations| - 1].Get(kind) == None;
      LastKnownIs(kind, Front(observations), n);
    }
  }

  lemma {:induction false} FirstKnownIs(kind: Kind, observations: seq<Snapshot>, n: int)
    requires FirstSeenAt(kind, observations, n)
    ensures FirstKnown(kind, observations) == observations[n].Get(kind)
  {
    if n < |observations| - 1 {
      assert FirstSeenAt(kind, Front(observations), n);
      FirstKnownIs(kind, Front(observations), n);
    } else {
      NeverSeen(kind, Front(observations));
    }
  }

  lemma {:induction false} NeverSeen(kind: Kind, observations: seq<Snapshot>)
    requires forall n :: 0 <= n < |observations| ==> observations[n].Get(kind) == None
    ensures FirstKnown(kind, observations) == None && LastKnown(kind, observations) == None
  {
    if observations != [] {
      NeverSeen(kind, Front(observations));
      assert observations[|observations| - 1].Get(kind) == None;
    }
  }

  /** After any audits the stored snapshot has of each kind what was observed of it last. */
  lemma StoredExactly(kind: Kind, observations: seq<Snapshot>, n: int)
    requires LastSeenAt(kind, observations, n)
    ensures Stored(observations).Some? && Stored(observations).value.Get(kind) == observations[n].Get(kind)
  {
    StoredIsLastKnown(kind, observations);
    LastKnownIs(kind, observations, n);
  }

  lemma {:induction false} ChangesContents(kind: Kind, added: bool, names: seq<string>)
    ensures forall c :: c in Changes(kind, added, names) <==> c.kind == kind && c.added == added && c.name in names
  {
    if names != [] {
      ChangesContents(kind, added, Front(names));
      assert names == Front(names) + [Last(names)];
    }
  }

  /** One audit reports exactly the differences of the kinds that both snapshots have. */
  lemma DiffExactly(stored: Option<Snapshot>, merged: Snapshot, c: Change)
    ensures c in Diff(stored, merged) <==>
      && stored.Some? && stored.value.Get(c.kind).Some? && merged.Get(c.kind).Some?
      && var before, after := stored.value.Get(c.kind).value, merged.Get(c.kind).value;
         if c.added then c.name in after && c.name !in before else c.name in before && c.name !in after
  {
    if stored.Some? {
      KindChangesExactly(DeployKeys, stored.value.keys, merged.keys, c);
      KindChangesExactly(Hooks, stored.value.hooks, merged.hooks, c);
      KindChangesExactly(Collaborators, stored.value.collaborators, merged.collaborators, c);
    }
  }

  lemma KindChangesExactly(kind: Kind, before: Option<seq<string>>, after: Option<seq<string>>, c: Change)
    ensures c in KindChanges(kind, before, after) <==>
      && before.Some? && after.Some? && c.kind == kind
      && if c.added then c.name in after.value && c.name !in before.value
         else c.name in before.value && c.name !in after.value
  {
    if before.Some? && after.Some? {
      ChangesContents(kind, true, SortedMissing(after.value, before.value));
      ChangesContents(kind, false, SortedMissing(before.value, after.value));
      SortedMissingContents(after.value, before.value);
      SortedMissingContents(before.value, after.value);
    }
  }

  /** The names of each part are in order. */
  lemma SortedMissingInOrder(a: seq<string>, b: seq<string>)
    ensures var names := SortedMissing(a, b); forall i, j :: 0 <= i < j < |names| ==> StringLess(names[i], names[j])
  {
    var names := SortedMissing(a, b);
    StringLessIsOrder();
    SortSorts(StringLess, Missing(a, b));
    SortedMissingContents(a, b);
    forall i, j | 0 <= i < j < |names| ensures StringLess(names[i], names[j]) {
      StringLessTotal(names[i], names[j]);
    }
  }
}
