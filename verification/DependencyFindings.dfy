/** Storing the findings of a dependency scan (app/depscan/repository.py). */
module DependencyFindings {
  import opened Prelude
  import opened FindingTable
  import opened SqlLike

  datatype DepKey = DepKey(repo: string, ecosystem: string, package: string, osvId: string)

  datatype DepContent = DepContent(
    installedVersion: string, severity: Option<string>, cvssScore: Option<real>, summary: string,
    fixedVersions: seq<string>, cveIds: seq<string>, manifestPath: string,
    reachability: Option<string>, repoVisibility: Option<string>, detectedAt: int)

  type DepRow = Row<DepKey, DepContent>
  type DepRecord = Record<DepKey, DepContent>

  /** A scan refreshes only part of an open finding, and never forgets a known fix. */
  function Refresh(stored: DepContent, scanned: DepContent): DepContent {
    stored.(reachability := scanned.reachability, repoVisibility := scanned.repoVisibility,
            cveIds := scanned.cveIds,
            fixedVersions := if scanned.fixedVersions != [] then scanned.fixedVersions else stored.fixedVersions)
  }

  predicate InScope(db: Database, repo: string, owner: Option<string>) {
    owner.None? || Like(db, owner.value + "/%", repo)
  }

  function Spared(db: Database, owner: Option<string>): DepRow -> bool {
    (r: DepRow) => !InScope(db, r.key.repo, owner)
  }

  ghost function ResolvedRepos(rows: seq<DepRow>, current: set<DepKey>, spared: DepRow -> bool): set<string> {
    set r | r in rows && Stale(r, current, spared) :: r.key.repo
  }

  /** What the row of a reported key holds after a scan: a new or reopened finding has all of the first
    record with the key. An open one has its reachability, visibility and CVE ids, and its fixed
    versions if it names any; the rest stays. */
  ghost predicate HoldsRecord(before: seq<DepRow>, after: seq<DepRow>, rec: DepRecord) {
    Lookup(after, rec.key).Some? &&
    var r, c := Lookup(after, rec.key).value, rec.content;
    && r.resolved == None && r.content.reachability == c.reachability
    && r.content.repoVisibility == c.repoVisibility && r.content.cveIds == c.cveIds
    && (c.fixedVersions != [] ==> r.content.fixedVersions == c.fixedVersions)
    && var kept := if Open(before, rec.key) then Lookup(before, rec.key).value.content else c;
       && r.content.installedVersion == kept.installedVersion && r.content.severity == kept.severity
       && r.content.cvssScore == kept.cvssScore && r.content.summary == kept.summary
       && r.content.manifestPath == kept.manifestPath && r.content.detectedAt == kept.detectedAt
       && (c.fixedVersions == [] ==> r.content.fixedVersions == kept.fixedVersions)
  }

  ghost predicate HoldsRecords(before: seq<DepRow>, after: seq<DepRow>, records: seq<DepRecord>) {
    forall n :: FirstAt(records, n) ==> HoldsRecord(before, after, records[n])
  }

  class DependencyFindingRepository {
    const db: Database
    var rows: seq<DepRow>

    ghost predicate Valid()
      reads this
    {
      UniqueKeys(rows)
    }

    constructor (db: Database)
      ensures Valid() && rows == [] && this.db == db
    {
      this.db := db;
      rows := [];
    }

    method Upsert(records: seq<DepRecord>) returns (inserted: nat, snapshots: seq<DepRecord>)
      requires Valid()
      modifies this
      ensures Valid() && rows == Upserted(old(rows), records, Refresh)
      ensures snapshots == NewRecords(old(rows), records) && inserted == |snapshots|
    {
      ghost var before := rows;
      inserted, snapshots := 0, [];
      var seen: set<DepKey> := {};
      for n := 0 to |records|
        invariant Valid() && rows == Upserted(before, records[..n], Refresh)
        invariant seen == RecordKeys(records[..n])
        invariant snapshots == NewRecords(before, records[..n]) && inserted == |snapshots|
      {
        var rec := records[n];
        assert Front(records[..n + 1]) == records[..n];
        RecordKeysAppend(records, n);
        if rec.key in seen {
          continue;
        }
        FirstForKey(records[..n], rec.key);
        UpsertedRows(before, records[..n], Refresh, rec.key);
        UpsertOneRow(rows, rec, Refresh, rec.key);
        seen := seen + {rec.key};
        var i := IndexOf(rows, rec.key);
        if i == |rows| {
          rows := rows + [Row(rec.key, rec.content, None)];
          inserted := inserted + 1;
          snapshots := snapshots + [rec];
        } else if rows[i].resolved.Some? {
          rows := rows[i := Row(rec.key, rec.content, None)];
        } else {
          var content := rows[i].content.(
            reachability := rec.content.reachability, repoVisibility := rec.content.repoVisibility,
            cveIds := rec.content.cveIds);
          if rec.content.fixedVersions != [] {
            content := content.(fixedVersions := rec.content.fixedVersions);
          }
          assert content == Refresh(rows[i].content, rec.content);
          rows := rows[i := rows[i].(content := content)];
        }
      }
      assert records[..|records|] == records;
    }

    method ResolveMissing(current: set<DepKey>, owner: Option<string>, now: int)
      returns (resolved: nat, repos: set<string>)
      requires Valid()
      modifies this
      ensures Valid() && rows == ResolveStale(old(rows), current, Spared(db, owner), now)
      ensures resolved == StaleCount(old(rows), current, Spared(db, owner))
      ensures repos == ResolvedRepos(old(rows), current, Spared(db, owner))
    {
      ghost var before := rows;
      ghost var spared := Spared(db, owner);
      ResolveStaleAt(before, current, spared, now);
      resolved, repos := 0, {};
      for n := 0 to |rows|
        invariant PartlyResolved(before, rows, n, current, spared, now)
        invariant resolved == StaleCount(before[..n], current, spared)
        invariant repos == ResolvedRepos(before[..n], current, spared)
      {
        assert Front(before[..n + 1]) == before[..n] && before[..n + 1] == before[..n] + [before[n]];
        var finding := rows[n];
        ReposStep(before, n, current, spared);
        if finding.resolved.None? && InScope(db, finding.key.repo, owner) && finding.key !in current {
          rows := rows[n := finding.(resolved := Some(now))];
          resolved := resolved + 1;
          repos := repos + {finding.key.repo};
        }
      }
      assert before[..|before|] == before;
      assert rows == ResolveStale(before, current, spared, now);
      ResolveStaleKeys(before, current, spared, now);
    }

    /** A scan of all repositories, or of one owner's. */
    method Sync(records: seq<DepRecord>, owner: Option<string>, now: int)
      returns (inserted: nat, snapshots: seq<DepRecord>, resolved: nat, repos: set<string>)
      requires Valid()
      modifies this
      ensures Valid() && rows == Synced(old(rows), records, Refresh, Spared(db, owner), now)
      ensures snapshots == NewRecords(old(rows), records) && inserted == |snapshots|
      ensures forall k :: Open(rows, k)
                     <==> k in RecordKeys(records) || (Open(old(rows), k) && !InScope(db, k.repo, owner))
      ensures OpenCount(rows) == OpenCount(old(rows)) + inserted + ReopenedCount(old(rows), records) - resolved
      ensures repos == ResolvedRepos(Upserted(old(rows), records, Refresh), RecordKeys(records), Spared(db, owner))
      ensures HoldsRecords(old(rows), rows, records) && Closed(old(rows), rows, repos)
    {
      ghost var before := rows;
      inserted, snapshots := Upsert(records);
      resolved, repos := ResolveMissing(RecordKeys(records), owner, now);
      SyncConservesOpen(before, records, Refresh, Spared(db, owner), now);
      forall k ensures Open(rows, k) <==> k in RecordKeys(records) || (Open(before, k) && !InScope(db, k.repo, owner)) {
        SyncedOpenSet(before, records, Refresh, Spared(db, owner), now, k);
      }
      RecordsAreHeld(before, records, Spared(db, owner), now);
      ReposAreThoseClosed(before, records, Spared(db, owner), now);
    }
  }

  /** The first `n` rows have been looked at. */
  ghost predicate PartlyResolved(
    before: seq<DepRow>, rows: seq<DepRow>, n: nat, current: set<DepKey>, spared: DepRow -> bool, now: int)
  {
    && |rows| == |before|
    && (forall j :: 0 <= j < |rows| ==> rows[j] == if j < n then ResolveRow(before[j], current, spared, now) else before[j])
  }

  /** A finding of the repository that was open and no longer is. */
  ghost predicate ClosedIn(before: seq<DepRow>, after: seq<DepRow>, repo: string, k: DepKey) {
    k.repo == repo && Open(before, k) && !Open(after, k)
  }

  ghost predicate Closed(before: seq<DepRow>, after: seq<DepRow>, repos: set<string>) {
    forall repo :: repo in repos <==> exists k :: ClosedIn(before, after, repo, k)
  }

  lemma RecordsAreHeld(rows: seq<DepRow>, records: seq<DepRecord>, spared: DepRow -> bool, now: int)
    requires UniqueKeys(rows)
    ensures HoldsRecords(rows, Synced(rows, records, Refresh, spared, now), records)
  {
    forall n | FirstAt(records, n)
      ensures HoldsRecord(rows, Synced(rows, records, Refresh, spared, now), records[n])
    {
      SyncedRowOfRecord(rows, records, Refresh, spared, now, n);
    }
  }

  lemma ReposAreThoseClosed(rows: seq<DepRow>, records: seq<DepRecord>, spared: DepRow -> bool, now: int)
    requires UniqueKeys(rows)
    ensures Closed(rows, Synced(rows, records, Refresh, spared, now),
                   ResolvedRepos(Upserted(rows, records, Refresh), RecordKeys(records), spared))
  {
    var upserted, after := Upserted(rows, records, Refresh), Synced(rows, records, Refresh, spared, now);
    forall repo
      ensures repo in ResolvedRepos(upserted, RecordKeys(records), spared) <==> exists k :: ClosedIn(rows, after, repo, k)
    {
      if repo in ResolvedRepos(upserted, RecordKeys(records), spared) {
        var r :| r in upserted && Stale(r, RecordKeys(records), spared) && r.key.repo == repo;
        StaleIsClosed(rows, records, spared, now, r);
      }
      if k :| ClosedIn(rows, after, repo, k) {
        ClosedIsStale(rows, records, spared, now, k);
      }
    }
  }

  lemma StaleIsClosed(rows: seq<DepRow>, records: seq<DepRecord>, spared: DepRow -> bool, now: int, r: DepRow)
    requires UniqueKeys(rows)
    requires r in Upserted(rows, records, Refresh) && Stale(r, RecordKeys(records), spared)
    ensures ClosedIn(rows, Synced(rows, records, Refresh, spared, now), r.key.repo, r.key)
  {
    var upserted := Upserted(rows, records, Refresh);
    UpsertedRows(rows, records, Refresh, r.key);
    FirstForKey(records, r.key);
    var i :| 0 <= i < |upserted| && upserted[i] == r;
    LookupIs(upserted, i);
    SyncedOpenSet(rows, records, Refresh, spared, now, r.key);
  }

  lemma ClosedIsStale(rows: seq<DepRow>, records: seq<DepRecord>, spared: DepRow -> bool, now: int, k: DepKey)
    requires UniqueKeys(rows) && ClosedIn(rows, Synced(rows, records, Refresh, spared, now), k.repo, k)
    ensures k.repo in ResolvedRepos(Upserted(rows, records, Refresh), RecordKeys(records), spared)
  {
    SyncedOpenSet(rows, records, Refresh, spared, now, k);
    UpsertedRows(rows, records, Refresh, k);
    FirstForKey(records, k);
    var r := Lookup(Upserted(rows, records, Refresh), k).value;
    assert r in Upserted(rows, records, Refresh) && Stale(r, RecordKeys(records), spared);
  }

  lemma ReposStep(rows: seq<DepRow>, n: nat, current: set<DepKey>, spared: DepRow -> bool)
    requires n < |rows|
    ensures ResolvedRepos(rows[..n + 1], current, spared)
         == ResolvedRepos(rows[..n], current, spared) + (if Stale(rows[n], current, spared) then {rows[n].key.repo} else {})
  {
    assert rows[..n + 1] == rows[..n] + [rows[n]];
  }

  /** A repeated scan changes nothing, and a fix once known stays known while the finding is open. */
  lemma RepeatedDependencySync(
      db: Database, rows: seq<DepRow>, records: seq<DepRecord>, owner: Option<string>, now: int, later: int)
    requires UniqueKeys(rows)
    ensures var after := Synced(rows, records, Refresh, Spared(db, owner), now);
      && Synced(after, records, Refresh, Spared(db, owner), later) == after
      && NewRecords(after, records) == []
      && StaleCount(after, RecordKeys(records), Spared(db, owner)) == 0
  {
    SyncIsIdempotent(rows, records, Refresh, Spared(db, owner), now, later);
  }

  lemma KnownFixStaysKnown(
      db: Database, rows: seq<DepRow>, records: seq<DepRecord>, owner: Option<string>, now: int, k: DepKey)
    requires UniqueKeys(rows) && Open(rows, k) && Lookup(rows, k).value.content.fixedVersions != []
    ensures var r := Lookup(Synced(rows, records, Refresh, Spared(db, owner), now), k);
      r.Some? && r.value.content.fixedVersions != []
  {
    UpsertedRows(rows, records, Refresh, k);
    ResolveStaleRow(Upserted(rows, records, Refresh), RecordKeys(records), Spared(db, owner), now, k);
  }
}
