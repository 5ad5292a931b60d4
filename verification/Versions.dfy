/** The order on numeric versions (app/depscan/registry_client.py) and the fixed version that is
  inferred from it (app/depscan/finding_builder.py). */
module Versions {
  import opened Prelude
  import opened Ordering

  /** `Other` is any version that is not digits and dots only; such versions are not compared. */
  datatype Version = Numeric(parts: seq<nat>) | Other

  function Padded(a: seq<nat>, width: nat): seq<nat> {
    if |a| >= width then a else a + seq(width - |a|, _ => 0)
  }

  predicate IsNewer(candidate: Version, baseline: Version) {
    if candidate.Other? || baseline.Other? then false
    else
      var width := Max(|candidate.parts|, |baseline.parts|);
      TupleLess(Padded(baseline.parts, width), Padded(candidate.parts, width))
  }

  /** The `i`-th part of a version without end, all zeros after its last part. */
  function At(a: seq<nat>, i: nat): nat {
    if i < |a| then a[i] else 0
  }

  ghost predicate FirstDifference(a: seq<nat>, b: seq<nat>, i: nat) {
    At(a, i) > At(b, i) && forall j :: 0 <= j < i ==> At(a, j) == At(b, j)
  }

  ghost predicate GreaterForever(a: seq<nat>, b: seq<nat>) {
    exists i: nat :: FirstDifference(a, b, i)
  }

  lemma {:induction false} TupleLessIsFirstDifference(a: seq<nat>, b: seq<nat>)
    requires |a| == |b|
    ensures TupleLess(b, a) <==> exists i :: 0 <= i < |a| && FirstDifference(a, b, i)
  {
    if a != [] {
      var a', b' := a[1..], b[1..];
      TupleLessIsFirstDifference(a', b');
      assert forall i :: 0 <= i < |a'| ==> At(a', i) == At(a, i + 1) && At(b', i) == At(b, i + 1);
      if a[0] != b[0] {
        if i :| 0 <= i < |a| && FirstDifference(a, b, i) {
          assert i > 0 ==> At(a, 0) == At(b, 0);
        }
        assert a[0] > b[0] ==> FirstDifference(a, b, 0);
      } else {
        if i :| 0 <= i < |a'| && FirstDifference(a', b', i) {
          forall j | 0 <= j < i + 1 ensures At(a, j) == At(b, j) {
            assert j > 0 ==> At(a', j - 1) == At(b', j - 1);
          }
          assert FirstDifference(a, b, i + 1);
        }
        if i :| 0 <= i < |a| && FirstDifference(a, b, i) {
          assert i > 0;
          forall j | 0 <= j < i - 1 ensures At(a', j) == At(b', j) {
            assert At(a, j + 1) == At(b, j + 1);
          }
          assert FirstDifference(a', b', i - 1);
        }
      }
    }
  }

  /** The width to which a pair is padded never matters: comparing padded tuples is comparing the
    versions extended with zeros without end. */
  lemma NewerIsGreaterForever(a: seq<nat>, b: seq<nat>)
    ensures IsNewer(Numeric(a), Numeric(b)) <==> GreaterForever(a, b)
  {
    var width := Max(|a|, |b|);
    var p, q := Padded(a, width), Padded(b, width);
    TupleLessIsFirstDifference(p, q);
    assert forall i: nat :: At(p, i) == At(a, i) && At(q, i) == At(b, i);
    forall i: nat ensures FirstDifference(p, q, i) <==> FirstDifference(a, b, i) {
      assert forall j :: 0 <= j < i ==> At(p, j) == At(a, j) && At(q, j) == At(b, j);
    }
    if i: nat :| FirstDifference(a, b, i) {
      assert FirstDifference(p, q, i) && i < |p|;
    }
  }

  /** Versions that agree in every place, with zeros without end. */
  ghost predicate SameForever(a: seq<nat>, b: seq<nat>) {
    forall i :: 0 <= i < Max(|a|, |b|) ==> At(a, i) == At(b, i)
  }

  /** Exactly one of: same, greater, smaller. */
  lemma Trichotomy(a: seq<nat>, b: seq<nat>)
    ensures SameForever(a, b) || GreaterForever(a, b) || GreaterForever(b, a)
    ensures !(GreaterForever(a, b) && GreaterForever(b, a))
    ensures !(SameForever(a, b) && GreaterForever(a, b))
  {
    if !SameForever(a, b) {
      var n :| 0 <= n < Max(|a|, |b|) && At(a, n) != At(b, n);
      var i := EarliestDifference(a, b, n);
      assert FirstDifference(a, b, i) || FirstDifference(b, a, i);
    }
    if GreaterForever(a, b) {
      var i: nat :| FirstDifference(a, b, i);
      assert i < Max(|a|, |b|);
      forall j: nat ensures !FirstDifference(b, a, j) {
        assert j < i ==> At(a, j) == At(b, j);
        assert i < j ==> At(a, i) > At(b, i);
      }
    }
  }

  lemma {:induction false} EarliestDifference(a: seq<nat>, b: seq<nat>, n: nat) returns (i: nat)
    requires At(a, n) != At(b, n)
    ensures i <= n && At(a, i) != At(b, i) && forall j :: 0 <= j < i ==> At(a, j) == At(b, j)
  {
    if j :| 0 <= j < n && At(a, j) != At(b, j) {
      i := EarliestDifference(a, b, j);
    } else {
      i := n;
    }
  }

  lemma GreaterTransitive(a: seq<nat>, b: seq<nat>, c: seq<nat>)
    requires GreaterForever(a, b) && (GreaterForever(b, c) || SameForever(b, c))
    ensures GreaterForever(a, c)
  {
    var i: nat :| FirstDifference(a, b, i);
    if SameForever(b, c) {
      SameEverywhere(b, c);
      assert FirstDifference(a, c, i);
    } else {
      var k: nat :| FirstDifference(b, c, k);
      assert FirstDifference(a, c, if i < k then i else k);
    }
  }

  lemma SameEverywhere(a: seq<nat>, b: seq<nat>)
    requires SameForever(a, b)
    ensures forall i: nat :: At(a, i) == At(b, i)
  {
    forall i: nat ensures At(a, i) == At(b, i) {
      if i >= Max(|a|, |b|) {
        assert At(a, i) == 0 == At(b, i);
      }
    }
  }

  /** `IsNewer` is a strict weak order on numeric versions: irreflexive, transitive, and what is
    neither newer nor older is the same version. */
  lemma NewerIsStrictWeakOrder(a: seq<nat>, b: seq<nat>, c: seq<nat>)
    ensures !IsNewer(Numeric(a), Numeric(a))
    ensures IsNewer(Numeric(a), Numeric(b)) && IsNewer(Numeric(b), Numeric(c)) ==> IsNewer(Numeric(a), Numeric(c))
    ensures IsNewer(Numeric(a), Numeric(c)) ==> IsNewer(Numeric(a), Numeric(b)) || IsNewer(Numeric(b), Numeric(c))
    ensures !IsNewer(Numeric(a), Numeric(b)) && !IsNewer(Numeric(b), Numeric(a)) <==> SameForever(a, b)
  {
    NewerIsGreaterForever(a, a);
    NewerIsGreaterForever(a, b);
    NewerIsGreaterForever(b, a);
    NewerIsGreaterForever(b, c);
    NewerIsGreaterForever(a, c);
    Trichotomy(a, a);
    Trichotomy(a, b);
    Trichotomy(b, a);
    Trichotomy(b, c);
    if GreaterForever(a, b) && GreaterForever(b, c) {
      GreaterTransitive(a, b, c);
    }
    if GreaterForever(a, c) && !GreaterForever(a, b) && !GreaterForever(b, c) {
      if GreaterForever(c, b) {
        GreaterTransitive(a, c, b);
      } else {
        SameEverywhere(b, c);
        var i: nat :| FirstDifference(a, c, i);
        assert FirstDifference(a, b, i);
      }
    }
  }

  /** Trailing zeros are ignored. */
  lemma TrailingZerosIgnored(a: seq<nat>, zeros: nat)
    ensures SameForever(a, a + seq(zeros, _ => 0))
  {
  }

  // ------------------------------------------------------------ inferred fixes

  predicate AllNewer(latest: Version, lasts: seq<Version>) {
    forall v | v in lasts :: IsNewer(latest, v)
  }

  /** A greatest element of numeric versions. */
  function Greatest(lasts: seq<Version>): Version
    requires lasts != []
  {
    if |lasts| == 1 then lasts[0]
    else
      var rest := Greatest(lasts[1..]);
      if IsNewer(rest, lasts[0]) then rest else lasts[0]
  }

  lemma {:induction false} NewerThanAllIsNewerThanGreatest(latest: Version, lasts: seq<Version>)
    requires lasts != [] && forall v :: v in lasts ==> v.Numeric?
    ensures Greatest(lasts) in lasts
    ensures AllNewer(latest, lasts) <==> IsNewer(latest, Greatest(lasts))
  {
    if |lasts| == 1 {
      assert lasts == [lasts[0]];
    } else {
      var tail := lasts[1..];
      var rest := Greatest(tail);
      NewerThanAllIsNewerThanGreatest(latest, tail);
      assert lasts == [lasts[0]] + tail;
      if latest.Numeric? {
        NewerIsStrictWeakOrder(latest.parts, rest.parts, lasts[0].parts);
        NewerIsStrictWeakOrder(latest.parts, lasts[0].parts, rest.parts);
      }
    }
  }
}
