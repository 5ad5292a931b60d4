/** Storing the findings of a code scan (app/codescan/repository.py). */
module CodeFindings {
  import opened Prelude
  import opened FindingTable

  datatype CodeKey = CodeKey(repo: string, path: string, rule: string, line: int)

  datatype CodeContent = CodeContent(
    message: string, severity: string, lineEnd: int, cweIds: seq<string>, owasp: seq<string>,
    snippet: string, cvssScore: Option<real>, cvssVector: Option<string>, tool: string, detectedAt: int)

  type CodeRow = Row<CodeKey, CodeContent>
  type CodeRecord = Record<CodeKey, CodeContent>

  /** A scan refreshes everything of an open finding but the time of its detection. */
  function Refresh(stored: CodeContent, scanned: CodeContent): CodeContent {
    scanned.(detectedAt := stored.detectedAt)
  }

  /** Findings of other repositories, and of tools that failed in this scan, are not resolved. */
  function Spared(fullName: string, failedTools: set<string>): CodeRow -> bool {
    (r: CodeRow) => r.key.repo != fullName || r.content.tool in failedTools
  }

  /** A finding is deleted when it has been resolved since before `cutoff`. */
  function WithoutOldResolved(rows: seq<CodeRow>, cutoff: int): seq<CodeRow> {
    if rows == [] then []
    else
      var r := Last(rows);
      WithoutOldResolved(Front(rows), cutoff)
      + (if r.resolved.Some? && r.resolved.value < cutoff then [] else [r])
  }

  /** Reported by the scan; or open before, and of another repository or of a tool that failed. */
  predicate OpenAfterScan(rows: seq<CodeRow>, fullName: string, records: seq<CodeRecord>,
                          failedTools: set<string>, k: CodeKey) {
    || k in RecordKeys(records)
    || (Open(rows, k) && (k.repo != fullName || Lookup(rows, k).value.content.tool in failedTools))
  }

  /** What the row of a reported key holds after a scan: all of the first record with the key, but an
    open finding keeps the time of its detection. */
  ghost predicate HoldsRecord(before: seq<CodeRow>, after: seq<CodeRow>, rec: CodeRecord) {
    Lookup(after, rec.key).Some? &&
    var r, c := Lookup(after, rec.key).value, rec.content;
    && r.resolved == None && r.content.message == c.message && r.content.severity == c.severity
    && r.content.lineEnd == c.lineEnd && r.content.cweIds == c.cweIds && r.content.owasp == c.owasp
    && r.content.snippet == c.snippet && r.content.cvssScore == c.cvssScore
    && r.content.cvssVector == c.cvssVector && r.content.tool == c.tool
    && r.content.detectedAt
         == if Open(before, rec.key) then Lookup(before, rec.key).value.content.detectedAt else c.detectedAt
  }

  ghost predicate HoldsRecords(before: seq<CodeRow>, after: seq<CodeRow>, records: seq<CodeRecord>) {
    forall n :: FirstAt(records, n) ==> HoldsRecord(before, after, records[n])
  }

  class CodeFindingRepository {
    var rows: seq<CodeRow>

    ghost predicate Valid()
      reads this
    {
      UniqueKeys(rows)
    }

    constructor ()
      ensures Valid() && rows == []
    {
      rows := [];
    }

    method Upsert(records: seq<CodeRecord>) returns (inserted: nat, snapshots: seq<CodeRecord>)
      requires Valid()
      modifies this
      ensures Valid() && rows == Upserted(old(rows), records, Refresh)
      ensures snapshots == NewRecords(old(rows), records) && inserted == |snapshots|
    {
      ghost var before := rows;
      inserted, snapshots := 0, [];
      var seen: set<CodeKey> := {};
      for n := 0 to |records|
        invariant Valid() && rows == Upserted(before, records[..n], Refresh)
        invariant seen == RecordKeys(records[..n])
        invariant snapshots == NewRecords(before, records[..n]) && inserted == |snapshots|
      {
        var rec := records[n];
        assert Front(records[..n + 1]) == records[..n];
        RecordKeysAppend(records, n);
        if rec.key in seen {
          continue;
        }
        FirstForKey(records[..n], rec.key);
        UpsertedRows(before, records[..n], Refresh, rec.key);
        UpsertOneRow(rows, rec, Refresh, rec.key);
        seen := seen + {rec.key};
        var i := IndexOf(rows, rec.key);
        if i == |rows| {
          rows := rows + [Row(rec.key, rec.content, None)];
          inserted := inserted + 1;
          snapshots := snapshots + [rec];
        } else if rows[i].resolved.Some? {
          rows := rows[i := Row(rec.key, rec.content, None)];
        } else {
          rows := rows[i := rows[i].(content := Refresh(rows[i].content, rec.content))];
        }
      }
      assert records[..|records|] == records;
    }

    method ResolveMissing(fullName: string, current: set<CodeKey>, failedTools: set<string>, now: int)
      returns (resolved: nat)
      requires Valid()
      modifies this
      ensures Valid() && rows == ResolveStale(old(rows), current, Spared(fullName, failedTools), now)
      ensures resolved == StaleCount(old(rows), current, Spared(fullName, failedTools))
    {
      ghost var before := rows;
      ghost var spared := Spared(fullName, failedTools);
      ResolveStaleAt(before, current, spared, now);
      resolved := 0;
      for n := 0 to |rows|
        invariant |rows| == |before|
        invariant forall j :: 0 <= j < n ==> rows[j] == ResolveRow(before[j], current, spared, now)
        invariant forall j :: n <= j < |rows| ==> rows[j] == before[j]
        invariant resolved == StaleCount(before[..n], current, spared)
      {
        assert Front(before[..n + 1]) == before[..n] && rows[n] == before[n];
        var finding := rows[n];
        if finding.key.repo != fullName || finding.resolved.Some? || finding.content.tool in failedTools {
          continue;
        }
        if finding.key !in current {
          rows := rows[n := finding.(resolved := Some(now))];
          resolved := resolved + 1;
        }
      }
      assert before[..|before|] == before;
      assert rows == ResolveStale(before, current, spared, now);
      ResolveStaleKeys(before, current, spared, now);
    }

    /** One repository's scan: `failedTools` did not run to the end. */
    method Sync(fullName: string, records: seq<CodeRecord>, failedTools: set<string>, now: int)
      returns (inserted: nat, snapshots: seq<CodeRecord>, resolved: nat)
      requires Valid()
      modifies this
      ensures Valid() && rows == Synced(old(rows), records, Refresh, Spared(fullName, failedTools), now)
      ensures snapshots == NewRecords(old(rows), records) && inserted == |snapshots|
      ensures forall k :: Open(rows, k) <==> OpenAfterScan(old(rows), fullName, records, failedTools, k)
      ensures OpenCount(rows) == OpenCount(old(rows)) + inserted + ReopenedCount(old(rows), records) - resolved
      ensures HoldsRecords(old(rows), rows, records)
    {
      ghost var before := rows;
      inserted, snapshots := Upsert(records);
      resolved := ResolveMissing(fullName, RecordKeys(records), failedTools, now);
      SyncConservesOpen(before, records, Refresh, Spared(fullName, failedTools), now);
      forall k ensures Open(rows, k) <==> OpenAfterScan(before, fullName, records, failedTools, k)
      {
        SyncedOpenSet(before, records, Refresh, Spared(fullName, failedTools), now, k);
      }
      forall n | FirstAt(records, n) ensures HoldsRecord(before, rows, records[n]) {
        SyncedRowOfRecord(before, records, Refresh, Spared(fullName, failedTools), now, n);
      }
    }

    method DeleteOldResolved(cutoff: int) returns (deleted: nat)
      requires Valid()
      modifies this
      ensures Valid() && rows == WithoutOldResolved(old(rows), cutoff)
      ensures deleted == |old(rows)| - |rows|
    {
      WithoutOldKeepsOpen(rows, cutoff);
      var size := |rows|;
      rows := WithoutOldResolved(rows, cutoff);
      deleted := size - |rows|;
    }
  }

  /** A repeated sync is a no-op: `Refresh` settles. */
  lemma RepeatedCodeSync(rows: seq<CodeRow>, fullName: string, records: seq<CodeRecord>,
                         failedTools: set<string>, now: int, later: int)
    requires UniqueKeys(rows)
    ensures var after := Synced(rows, records, Refresh, Spared(fullName, failedTools), now);
      && Synced(after, records, Refresh, Spared(fullName, failedTools), later) == after
      && NewRecords(after, records) == []
      && StaleCount(after, RecordKeys(records), Spared(fullName, failedTools)) == 0
  {
    SyncIsIdempotent(rows, records, Refresh, Spared(fullName, failedTools), now, later);
  }

  /** Deleting old resolved findings keeps the keys unique and every open finding's row. */
  lemma {:induction false} WithoutOldKeepsOpen(rows: seq<CodeRow>, cutoff: int)
    requires UniqueKeys(rows)
    ensures var left := WithoutOldResolved(rows, cutoff);
      && UniqueKeys(left) && |left| <= |rows|
      && forall r :: r in left <==> r in rows && !(r.resolved.Some? && r.resolved.value < cutoff)
  {
    if rows != [] {
      WithoutOldKeepsOpen(Front(rows), cutoff);
      assert rows == Front(rows) + [Last(rows)];
      assert forall r :: r in Front(rows) ==> r.key != Last(rows).key;
    }
  }
}
