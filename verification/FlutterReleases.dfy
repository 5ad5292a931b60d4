/** Reducing the published Flutter releases to one entry for each Flutter and Dart cycle
  (app/runtimes/eol_client.py). */
module FlutterReleases {
  import opened Prelude

  const MIN_MAJOR := 3

  datatype Sdk = Flutter | Dart

  /** Three numbers of a version; a date is a day number. */
  datatype Triple = Triple(major: nat, minor: nat, patch: nat)

  /** A published release. A version is None if it does not start with three numbers. */
  datatype Published = Published(
    stable: bool, released: Option<int>, version: Option<Triple>, dartVersion: Option<Triple>)

  datatype Key = Key(sdk: Sdk, major: nat, minor: nat)

  datatype Entry = Entry(numbers: Triple, released: Option<int>)

  /** One version that counts, with the day it was published. */
  datatype Observation = Observation(key: Key, numbers: Triple, released: Option<int>)

  predicate Greater(a: Triple, b: Triple) {
    a.major > b.major || (a.major == b.major && (a.minor > b.minor || (a.minor == b.minor && a.patch > b.patch)))
  }

  function Earliest(a: Option<int>, b: Option<int>): Option<int> {
    if a.None? then b else if b.None? then a else Some(Min(a.value, b.value))
  }

  /** What one version of a release contributes. */
  function Observed(sdk: Sdk, version: Option<Triple>, released: Option<int>): seq<Observation> {
    if version.None? || version.value.major < MIN_MAJOR then []
    else [Observation(Key(sdk, version.value.major, version.value.minor), version.value, released)]
  }

  function ObservedIn(p: Published): seq<Observation> {
    if !p.stable then [] else Observed(Flutter, p.version, p.released) + Observed(Dart, p.dartVersion, p.released)
  }

  function Observations(releases: seq<Published>): seq<Observation> {
    if releases == [] then [] else Observations(Front(releases)) + ObservedIn(Last(releases))
  }

  /** The greatest version that was observed for a key. */
  ghost predicate IsGreatest(all: seq<Observation>, k: Key, t: Triple) {
    && (exists o :: o in all && o.key == k && o.numbers == t)
    && (forall o :: o in all && o.key == k ==> !Greater(o.numbers, t))
  }

  /** The earliest day that is known for a key, None if none is known. */
  ghost predicate IsEarliest(all: seq<Observation>, k: Key, day: Option<int>) {
    && (day.Some? ==> exists o :: o in all && o.key == k && o.released == day)
    && (forall o :: o in all && o.key == k && o.released.Some? ==> day.Some? && day.value <= o.released.value)
  }

  ghost predicate Summary(all: seq<Observation>, latest: map<Key, Entry>) {
    && (forall o :: o in all ==> o.key in latest)
    && (forall k :: k in latest ==> IsGreatest(all, k, latest[k].numbers) && IsEarliest(all, k, latest[k].released))
  }

  /** For each cycle the greatest version and the earliest known day over all stable releases. */
  method Reduce(releases: seq<Published>) returns (latest: map<Key, Entry>)
    ensures Summary(Observations(releases), latest)
  {
    latest := map[];
    for n := 0 to |releases|
      invariant Summary(Observations(releases[..n]), latest)
    {
      assert Front(releases[..n + 1]) == releases[..n];
      latest := AddRelease(releases[n], latest, Observations(releases[..n]));
    }
    assert releases[..|releases|] == releases;
  }

  method AddRelease(release: Published, before: map<Key, Entry>, ghost all: seq<Observation>)
    returns (latest: map<Key, Entry>)
    requires Summary(all, before)
    ensures Summary(all + ObservedIn(release), latest)
  {
    latest := before;
    if !release.stable {
      assert all + ObservedIn(release) == all;
      return;
    }
    ghost var withFlutter := all + Observed(Flutter, release.version, release.released);
    latest := Add(Flutter, release.version, release.released, latest, all);
    latest := Add(Dart, release.dartVersion, release.released, latest, withFlutter);
    assert withFlutter + Observed(Dart, release.dartVersion, release.released) == all + ObservedIn(release);
  }

  method Add(sdk: Sdk, version: Option<Triple>, released: Option<int>, before: map<Key, Entry>, ghost all: seq<Observation>)
    returns (latest: map<Key, Entry>)
    requires Summary(all, before)
    ensures Summary(all + Observed(sdk, version, released), latest)
  {
    latest := before;
    if version.None? || version.value.major < MIN_MAJOR {
      assert all + Observed(sdk, version, released) == all;
      return;
    }
    var numbers := version.value;
    var key := Key(sdk, numbers.major, numbers.minor);
    var o := Observation(key, numbers, released);
    var first := Earliest(released, if key in before then before[key].released else None);
    var greatest := if key !in before || Greater(numbers, before[key].numbers) then numbers else before[key].numbers;
    OthersUnchanged(all, o, before);
    GreatestStep(all, o, if key in before then Some(before[key]) else None, greatest, first);
    latest := before[key := Entry(greatest, first)];
  }

  lemma GreatestStep(all: seq<Observation>, o: Observation, current: Option<Entry>, greatest: Triple, first: Option<int>)
    requires current.None? ==> forall p :: p in all ==> p.key != o.key
    requires current.Some? ==> IsGreatest(all, o.key, current.value.numbers) && IsEarliest(all, o.key, current.value.released)
    requires greatest == if current.None? || Greater(o.numbers, current.value.numbers) then o.numbers else current.value.numbers
    requires first == Earliest(o.released, if current.Some? then current.value.released else None)
    ensures IsGreatest(all + [o], o.key, greatest) && IsEarliest(all + [o], o.key, first)
  {
    assert o in all + [o];
    if current.Some? {
      var p :| p in all && p.key == o.key && p.numbers == current.value.numbers;
      assert p in all + [o];
      if current.value.released.Some? {
        var q :| q in all && q.key == o.key && q.released == current.value.released;
        assert q in all + [o];
      }
    }
  }

  lemma OthersUnchanged(all: seq<Observation>, o: Observation, latest: map<Key, Entry>)
    requires Summary(all, latest)
    ensures forall k :: k in latest && k != o.key ==>
      IsGreatest(all + [o], k, latest[k].numbers) && IsEarliest(all + [o], k, latest[k].released)
  {
    forall k | k in latest && k != o.key
      ensures IsGreatest(all + [o], k, latest[k].numbers) && IsEarliest(all + [o], k, latest[k].released)
    {
      var p :| p in all && p.key == k && p.numbers == latest[k].numbers;
      assert p in all + [o];
      if latest[k].released.Some? {
        var q :| q in all && q.key == k && q.released == latest[k].released;
        assert q in all + [o];
      }
    }
  }

  // ------------------------------------------------------- the order does not matter

  lemma {:induction false} ObservationsOf(releases: seq<Published>)
    ensures forall o :: o in Observations(releases) <==> exists p :: p in releases && o in ObservedIn(p)
  {
    if releases != [] {
      ObservationsOf(Front(releases));
      assert releases == Front(releases) + [Last(releases)];
    }
  }

  /** Lists with the same releases, in any order and however often, have the same summary. */
  lemma OrderDoesNotMatter(
      releases: seq<Published>, releases': seq<Published>, latest: map<Key, Entry>, latest': map<Key, Entry>)
    requires forall p :: p in releases <==> p in releases'
    requires Summary(Observations(releases), latest) && Summary(Observations(releases'), latest')
    ensures latest == latest'
  {
    var all, all' := Observations(releases), Observations(releases');
    ObservationsOf(releases);
    ObservationsOf(releases');
    assert forall o :: o in all <==> o in all';
    SummaryIsWithin(all, all', latest, latest');
    SummaryIsWithin(all', all, latest', latest);
  }

  lemma SummaryIsWithin(
      all: seq<Observation>, all': seq<Observation>, latest: map<Key, Entry>, latest': map<Key, Entry>)
    requires forall o :: o in all <==> o in all'
    requires Summary(all, latest) && Summary(all', latest')
    ensures forall k :: k in latest ==> k in latest' && latest'[k] == latest[k]
  {
    forall k | k in latest ensures k in latest' && latest'[k] == latest[k] {
      var o :| o in all && o.key == k && o.numbers == latest[k].numbers;
      assert o in all' && k in latest';
      SameGreatest(all, all', k, latest[k].numbers, latest'[k].numbers);
      SameEarliest(all, all', k, latest[k].released, latest'[k].released);
    }
  }

  lemma SameGreatest(all: seq<Observation>, all': seq<Observation>, k: Key, t: Triple, t': Triple)
    requires forall o :: o in all <==> o in all'
    requires IsGreatest(all, k, t) && IsGreatest(all', k, t')
    ensures t == t'
  {
    var o :| o in all && o.key == k && o.numbers == t;
    var o' :| o' in all' && o'.key == k && o'.numbers == t';
    assert !Greater(o.numbers, t') && !Greater(o'.numbers, t);
  }

  lemma SameEarliest(all: seq<Observation>, all': seq<Observation>, k: Key, day: Option<int>, day': Option<int>)
    requires forall o :: o in all <==> o in all'
    requires IsEarliest(all, k, day) && IsEarliest(all', k, day')
    ensures day == day'
  {
    if day.Some? {
      var o :| o in all && o.key == k && o.released == day;
      assert o in all';
    }
    if day'.Some? {
      var o :| o in all' && o.key == k && o.released == day';
      assert o in all;
    }
  }

  /** A later release never lowers a cycle's version nor makes its first day later. */
  lemma MoreReleasesOnlyImprove(
      releases: seq<Published>, more: seq<Published>, latest: map<Key, Entry>, latest': map<Key, Entry>, k: Key)
    requires forall p :: p in releases ==> p in more
    requires Summary(Observations(releases), latest) && Summary(Observations(more), latest')
    requires k in latest
    ensures k in latest' && !Greater(latest[k].numbers, latest'[k].numbers)
    ensures latest[k].released.Some? ==>
      latest'[k].released.Some? && latest'[k].released.value <= latest[k].released.value
  {
    ObservationsOf(releases);
    ObservationsOf(more);
    assert forall o :: o in Observations(releases) ==> o in Observations(more);
    var o :| o in Observations(releases) && o.key == k && o.numbers == latest[k].numbers;
    assert o in Observations(more);
    if latest[k].released.Some? {
      var q :| q in Observations(releases) && q.key == k && q.released == latest[k].released;
      assert q in Observations(more);
    }
  }

  // ------------------------------------------------------------------ in fields

  /** The Flutter version, or the Dart version, of a stable release counts from major version 3 on,
    for its own major and minor version, with the day of the release. */
  predicate Counts(p: Published, o: Observation) {
    && p.stable && o.released == p.released
    && (if o.key.sdk == Flutter then p.version == Some(o.numbers) else p.dartVersion == Some(o.numbers))
    && o.numbers.major >= 3 && o.key.major == o.numbers.major && o.key.minor == o.numbers.minor
  }

  lemma ObservationsExactly(releases: seq<Published>, o: Observation)
    ensures o in Observations(releases) <==> exists p :: p in releases && Counts(p, o)
  {
    ObservationsOf(releases);
    forall p ensures o in ObservedIn(p) <==> Counts(p, o) {
    }
  }

  /** Versions compare as the numbers they make, part by part; parts have at most four digits. */
  lemma GreaterExactly(a: Triple, b: Triple)
    requires a.minor < 10000 && a.patch < 10000 && b.minor < 10000 && b.patch < 10000
    ensures Greater(a, b) <==> Number(a) > Number(b)
  {
  }

  function Number(t: Triple): nat {
    (t.major * 10000 + t.minor) * 10000 + t.patch
  }
}
