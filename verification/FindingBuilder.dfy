/** Building the findings of a dependency scan from OSV hits (app/depscan/finding_builder.py). The
  builder caches what it fetches; its records are those of a builder without caches, and it fetches
  nothing twice. */
module FindingBuilding {
  import opened Prelude
  import opened Ordering
  import opened Versions

  /** A version as it is written, and as it compares. */
  datatype Release = Release(text: string, version: Version)

  datatype Affected = Affected(
    ecosystem: string, package: string, fixed: seq<string>, lastAffected: seq<Version>)

  datatype Vuln = Vuln(severity: Option<string>, affected: seq<Affected>)

  datatype DepKey = DepKey(ecosystem: string, package: string, version: string)

  datatype Place = Place(repo: string, manifest: string)

  datatype Hit = Hit(key: DepKey, osvIds: seq<string>)

  datatype Record = Record(
    key: DepKey, osvId: string, severity: Option<string>, fixedVersions: seq<string>, place: Place)

  /** The world as the builder asks it during one run: the advisory database, the package
    registries, and two classifications by name. */
  datatype World = World(
    vuln: string -> Option<Vuln>, latest: (string, string) -> Option<Release>,
    malicious: string -> bool, normalize: string -> string)

  // ------------------------------------------------------ the builder without caches

  function AllFixed(affected: seq<Affected>): seq<string> {
    if affected == [] then [] else AllFixed(Front(affected)) + Last(affected).fixed
  }

  function LastAffected(w: World, affected: seq<Affected>, ecosystem: string, package: string): seq<Version> {
    if affected == [] then []
    else
      var a := Last(affected);
      LastAffected(w, Front(affected), ecosystem, package)
      + (if a.ecosystem == ecosystem && w.normalize(a.package) == w.normalize(package) then a.lastAffected else [])
  }

  function InferredFrom(lasts: seq<Version>, latest: Option<Release>): seq<string> {
    if lasts == [] || latest.None? then []
    else if AllNewer(latest.value.version, lasts) then [latest.value.text] else []
  }

  function FixedVersions(w: World, v: Vuln, ecosystem: string, package: string): seq<string> {
    var fixed := Sort(StringLess, FirstOccurrences(AllFixed(v.affected)));
    if fixed != [] then fixed
    else InferredFrom(LastAffected(w, v.affected, ecosystem, package), w.latest(ecosystem, package))
  }

  function SeverityOf(w: World, osvId: string, v: Vuln): Option<string> {
    if w.malicious(osvId) then Some("CRITICAL") else v.severity
  }

  function PlaceRecords(key: DepKey, osvId: string, severity: Option<string>, fixed: seq<string>,
                        places: seq<Place>): seq<Record> {
    if places == [] then []
    else PlaceRecords(key, osvId, severity, fixed, Front(places))
         + [Record(key, osvId, severity, fixed, Last(places))]
  }

  function IdRecords(w: World, key: DepKey, osvId: string, places: seq<Place>): seq<Record> {
    var v := w.vuln(osvId);
    if v.None? then []
    else PlaceRecords(key, osvId, SeverityOf(w, osvId, v.value),
                      FixedVersions(w, v.value, key.ecosystem, key.package), places)
  }

  function KeyRecords(w: World, key: DepKey, osvIds: seq<string>, places: seq<Place>): seq<Record> {
    if osvIds == [] then []
    else KeyRecords(w, key, Front(osvIds), places) + IdRecords(w, key, Last(osvIds), places)
  }

  function Records(w: World, hits: seq<Hit>, places: map<DepKey, seq<Place>>): seq<Record>
    requires forall h :: h in hits ==> h.key in places
  {
    if hits == [] then []
    else
      var h := Last(hits);
      assert h in hits;
      assert forall g :: g in Front(hits) ==> g in hits;
      Records(w, Front(hits), places) + KeyRecords(w, h.key, h.osvIds, places[h.key])
  }

  // --------------------------------------------------------------- with the caches

  class FindingBuilder {
    const w: World
    var vulnCache: map<string, Option<Vuln>>
    var latestCache: map<(string, string), Option<Release>>
    ghost var vulnFetches: seq<string>
    ghost var latestFetches: seq<(string, string)>

    /** The caches hold what the world says, and each entry was fetched once. */
    ghost predicate Valid()
      reads this
    {
      && (forall id :: id in vulnCache ==> vulnCache[id] == w.vuln(id))
      && (forall k :: k in latestCache ==> latestCache[k] == w.latest(k.0, k.1))
      && Distinct(vulnFetches) && (forall id :: id in vulnFetches <==> id in vulnCache)
      && Distinct(latestFetches) && (forall k :: k in latestFetches <==> k in latestCache)
    }

    constructor (w: World)
      ensures Valid() && this.w == w && vulnFetches == [] && latestFetches == []
    {
      this.w := w;
      vulnCache, latestCache, vulnFetches, latestFetches := map[], map[], [], [];
    }

    method GetVuln(osvId: string) returns (v: Option<Vuln>)
      requires Valid()
      modifies this
      ensures Valid() && v == w.vuln(osvId)
    {
      if osvId !in vulnCache {
        vulnCache := vulnCache[osvId := w.vuln(osvId)];
        vulnFetches := vulnFetches + [osvId];
      }
      v := vulnCache[osvId];
    }

    method GetFixedVersions(v: Vuln, ecosystem: string, package: string) returns (fixed: seq<string>)
      requires Valid()
      modifies this
      ensures Valid() && fixed == FixedVersions(w, v, ecosystem, package)
      ensures fixed != [] && AllFixed(v.affected) != [] ==> latestFetches == old(latestFetches)
    {
      fixed := Sort(StringLess, FirstOccurrences(AllFixed(v.affected)));
      if fixed != [] {
        return;
      }
      FirstOccurrencesContents(AllFixed(v.affected));
      assert AllFixed(v.affected) != [] ==> AllFixed(v.affected)[0] in FirstOccurrences(AllFixed(v.affected));
      SortContents(StringLess, FirstOccurrences(AllFixed(v.affected)));
      var lasts := LastAffected(w, v.affected, ecosystem, package);
      if lasts == [] {
        return;
      }
      var key := (ecosystem, package);
      if key !in latestCache {
        latestCache := latestCache[key := w.latest(ecosystem, package)];
        latestFetches := latestFetches + [key];
      }
      fixed := InferredFrom(lasts, latestCache[key]);
    }

    method Build(hits: seq<Hit>, places: map<DepKey, seq<Place>>) returns (records: seq<Record>)
      requires Valid() && forall h :: h in hits ==> h.key in places
      modifies this
      ensures Valid() && records == Records(w, hits, places)
    {
      records := [];
      for n := 0 to |hits|
        invariant Valid() && forall h :: h in hits[..n] ==> h.key in places
        invariant records == Records(w, hits[..n], places)
      {
        assert Front(hits[..n + 1]) == hits[..n] && hits[n] in hits;
        var ofKey := BuildKey(hits[n].key, hits[n].osvIds, places[hits[n].key]);
        records := records + ofKey;
      }
      assert hits[..|hits|] == hits;
    }

    method BuildKey(key: DepKey, osvIds: seq<string>, places: seq<Place>) returns (records: seq<Record>)
      requires Valid()
      modifies this
      ensures Valid() && records == KeyRecords(w, key, osvIds, places)
    {
      records := [];
      for n := 0 to |osvIds|
        invariant Valid() && records == KeyRecords(w, key, osvIds[..n], places)
      {
        assert Front(osvIds[..n + 1]) == osvIds[..n];
        var osvId := osvIds[n];
        var vuln := GetVuln(osvId);
        if vuln.None? {
          continue;
        }
        var severity := if w.malicious(osvId) then Some("CRITICAL") else vuln.value.severity;
        var fixed := GetFixedVersions(vuln.value, key.ecosystem, key.package);
        ghost var before := records;
        for m := 0 to |places|
          invariant Valid()
          invariant records == before + PlaceRecords(key, osvId, severity, fixed, places[..m])
        {
          assert Front(places[..m + 1]) == places[..m];
          records := records + [Record(key, osvId, severity, fixed, places[m])];
        }
        assert places[..|places|] == places;
      }
      assert osvIds[..|osvIds|] == osvIds;
    }
  }

  /** A fix is inferred exactly when there is a last affected version, the latest release is known,
    all of them are numeric, and the latest release exceeds the greatest of them. */
  lemma InferredExactly(lasts: seq<Version>, latest: Option<Release>)
    ensures InferredFrom(lasts, latest) != [] <==>
      lasts != [] && latest.Some? && (forall v :: v in lasts ==> v.Numeric?)
      && IsNewer(latest.value.version, Greatest(lasts))
    ensures InferredFrom(lasts, latest) != [] ==> InferredFrom(lasts, latest) == [latest.value.text]
  {
    if lasts != [] && latest.Some? {
      if forall v :: v in lasts ==> v.Numeric? {
        NewerThanAllIsNewerThanGreatest(latest.value.version, lasts);
      }
    }
  }

  // -------------------------------------------------------------- the records, in fields

  lemma {:induction false} AllFixedContents(affected: seq<Affected>)
    ensures forall t :: t in AllFixed(affected) <==> exists a :: a in affected && t in a.fixed
  {
    if affected != [] {
      AllFixedContents(Front(affected));
      assert affected == Front(affected) + [Last(affected)];
    }
  }

  /** The last affected versions are those of the package, in its ecosystem, up to normalisation. */
  lemma {:induction false} LastAffectedContents(w: World, affected: seq<Affected>, ecosystem: string, package: string)
    ensures forall v :: v in LastAffected(w, affected, ecosystem, package) <==>
      exists a :: a in affected && a.ecosystem == ecosystem && w.normalize(a.package) == w.normalize(package) && v in a.lastAffected
  {
    if affected != [] {
      LastAffectedContents(w, Front(affected), ecosystem, package);
      assert affected == Front(affected) + [Last(affected)];
    }
  }

  /** When any fixed version is recorded, the fixed versions are all those recorded, each once, in
    order. */
  lemma RecordedFixesExactly(w: World, v: Vuln, ecosystem: string, package: string)
    requires exists a :: a in v.affected && a.fixed != []
    ensures var fixed := FixedVersions(w, v, ecosystem, package);
      && (forall t :: t in fixed <==> exists a :: a in v.affected && t in a.fixed)
      && Distinct(fixed) && (forall i, j :: 0 <= i < j < |fixed| ==> !StringLess(fixed[j], fixed[i]))
  {
    var all := AllFixed(v.affected);
    AllFixedContents(v.affected);
    FirstOccurrencesContents(all);
    SortContents(StringLess, FirstOccurrences(all));
    SortKeepsDistinct(StringLess, FirstOccurrences(all));
    StringLessIsOrder();
    SortSorts(StringLess, FirstOccurrences(all));
    var a :| a in v.affected && a.fixed != [];
    assert a.fixed[0] in all;
  }

  /** When none is, the latest release is the fix exactly if `InferredExactly` allows it for the last
    affected versions of the package. */
  lemma OtherwiseInferred(w: World, v: Vuln, ecosystem: string, package: string)
    requires forall a :: a in v.affected ==> a.fixed == []
    ensures FixedVersions(w, v, ecosystem, package)
         == InferredFrom(LastAffected(w, v.affected, ecosystem, package), w.latest(ecosystem, package))
  {
    NothingFixed(v.affected);
    assert FirstOccurrences(AllFixed(v.affected)) == [];
  }

  lemma {:induction false} NothingFixed(affected: seq<Affected>)
    requires forall a :: a in affected ==> a.fixed == []
    ensures AllFixed(affected) == []
  {
    if affected != [] {
      assert Last(affected) in affected;
      NothingFixed(Front(affected));
    }
  }

  /** The record of one advisory about one package at one place. */
  predicate IsRecord(w: World, r: Record, key: DepKey, osvId: string, place: Place) {
    && w.vuln(osvId).Some? && r.key == key && r.osvId == osvId && r.place == place
    && r.severity == (if w.malicious(osvId) then Some("CRITICAL") else w.vuln(osvId).value.severity)
    && r.fixedVersions == FixedVersions(w, w.vuln(osvId).value, key.ecosystem, key.package)
  }

  lemma {:induction false} PlaceRecordsContents(
      key: DepKey, osvId: string, severity: Option<string>, fixed: seq<string>, places: seq<Place>)
    ensures |PlaceRecords(key, osvId, severity, fixed, places)| == |places|
    ensures forall n :: 0 <= n < |places| ==>
      PlaceRecords(key, osvId, severity, fixed, places)[n] == Record(key, osvId, severity, fixed, places[n])
  {
    if places != [] {
      PlaceRecordsContents(key, osvId, severity, fixed, Front(places));
    }
  }

  lemma IdRecordsContents(w: World, key: DepKey, osvId: string, places: seq<Place>)
    ensures forall r :: r in IdRecords(w, key, osvId, places) <==> exists p :: p in places && IsRecord(w, r, key, osvId, p)
  {
    var v := w.vuln(osvId);
    if v.Some? {
      var severity, fixed := SeverityOf(w, osvId, v.value), FixedVersions(w, v.value, key.ecosystem, key.package);
      PlaceRecordsContents(key, osvId, severity, fixed, places);
      forall r ensures r in IdRecords(w, key, osvId, places) <==> exists p :: p in places && IsRecord(w, r, key, osvId, p) {
        if p :| p in places && IsRecord(w, r, key, osvId, p) {
          var n :| 0 <= n < |places| && places[n] == p;
          assert r == PlaceRecords(key, osvId, severity, fixed, places)[n];
        }
        if r in IdRecords(w, key, osvId, places) {
          var n :| 0 <= n < |places| && PlaceRecords(key, osvId, severity, fixed, places)[n] == r;
          assert places[n] in places && IsRecord(w, r, key, osvId, places[n]);
        }
      }
    }
  }

  lemma {:induction false} KeyRecordsContents(w: World, key: DepKey, osvIds: seq<string>, places: seq<Place>)
    ensures forall r :: r in KeyRecords(w, key, osvIds, places) <==>
      r.osvId in osvIds && r.place in places && IsRecord(w, r, key, r.osvId, r.place)
  {
    if osvIds != [] {
      KeyRecordsContents(w, key, Front(osvIds), places);
      IdRecordsContents(w, key, Last(osvIds), places);
      assert osvIds == Front(osvIds) + [Last(osvIds)];
    }
  }

  /** The records are exactly those of the hits: every advisory that could be fetched, for every place
    of its package. */
  lemma {:induction false} RecordsExactly(w: World, hits: seq<Hit>, places: map<DepKey, seq<Place>>)
    requires forall h :: h in hits ==> h.key in places
    ensures forall r :: r in Records(w, hits, places) <==>
      exists h :: h in hits && r.osvId in h.osvIds && r.place in places[h.key] && IsRecord(w, r, h.key, r.osvId, r.place)
  {
    if hits != [] {
      assert hits == Front(hits) + [Last(hits)];
      RecordsExactly(w, Front(hits), places);
      KeyRecordsContents(w, Last(hits).key, Last(hits).osvIds, places[Last(hits).key]);
    }
  }
}
