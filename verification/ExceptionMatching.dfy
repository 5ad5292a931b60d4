/** Which findings an exception is about (app/finding_exceptions/matching.py). Three pieces of code
  decide it independently: a query that joins the parts of a finding into its key, a filter over
  snapshots that looks the joined key up in a dictionary, and a lookup that splits the key of one
  exception back into parts. */
module ExceptionMatching {
  import opened Prelude
  import opened FindingExceptions

  const SEPARATOR: char := '|'

  datatype Finding =
    | DependencyFinding(repo: string, ecosystem: string, package: string, osvId: string,
                        fixed: bool, resolved: bool)
    | CodeFinding(repo: string, path: string, rule: string, line: int, resolved: bool)

  function KindOf(f: Finding): Kind {
    if f.DependencyFinding? then Dependency else Code
  }

  function Join3(a: string, b: string, c: string): string {
    a + [SEPARATOR] + b + [SEPARATOR] + c
  }

  function Join2(a: string, b: string): string {
    a + [SEPARATOR] + b
  }

  function KeyOf(f: Finding): string {
    match f
    case DependencyFinding(_, ecosystem, package, osvId, _, _) => Join3(ecosystem, package, osvId)
    case CodeFinding(_, path, rule, _, _) => Join2(path, rule)
  }

  /** `str.split` on the separator. */
  function Split(s: string): (parts: seq<string>)
    ensures parts != []
  {
    if s == [] then [[]]
    else if s[0] == SEPARATOR then [[]] + Split(s[1..])
    else
      var rest := Split(s[1..]);
      [[s[0]] + rest[0]] + rest[1..]
  }

  /** `str.rpartition`: what is before and after the last separator. */
  function SplitLast(s: string): Option<(string, string)> {
    if s == [] then None
    else if Last(s) == SEPARATOR then Some((Front(s), []))
    else
      match SplitLast(Front(s))
      case None => None
      case Some((head, tail)) => Some((head, tail + [Last(s)]))
  }

  // ------------------------------------------------------------- the three ways

  /** The query: no active exception has this finding's kind, repository and joined key. */
  predicate NotExcepted(rows: seq<Row>, f: Finding, now: int) {
    !ExceptedBy(rows, Target(KindOf(f), f.repo, KeyOf(f)), now)
  }

  predicate ExceptedBy(rows: seq<Row>, t: Target, now: int) {
    exists r | r in rows :: ActiveOn(r, t, now)
  }

  /** The dictionary of active exceptions of a kind in the named repositories. */
  function ExceptionMap(rows: seq<Row>, kind: Kind, repos: set<string>, now: int): map<(string, string), Row> {
    if rows == [] then map[]
    else
      var r, rest := Last(rows), ExceptionMap(Front(rows), kind, repos, now);
      if r.target.kind == kind && r.target.repo in repos && Active(r, now)
      then rest[(r.target.repo, r.target.key) := r] else rest
  }

  function Unlisted(excepted: map<(string, string), Row>, snapshots: seq<Finding>): seq<Finding> {
    if snapshots == [] then []
    else
      var f := Last(snapshots);
      Unlisted(excepted, Front(snapshots)) + (if (f.repo, KeyOf(f)) in excepted then [] else [f])
  }

  /** The filter that keeps the snapshots without an active exception. */
  function DropExcepted(rows: seq<Row>, kind: Kind, snapshots: seq<Finding>, now: int): seq<Finding> {
    if snapshots == [] then snapshots
    else
      var excepted := ExceptionMap(rows, kind, set f | f in snapshots :: f.repo, now);
      if excepted == map[] then snapshots else Unlisted(excepted, snapshots)
  }

  /** The lookup: the open findings an exception is about, by splitting its key. */
  predicate Covers(t: Target, f: Finding) {
    && f.repo == t.repo && !f.resolved
    && match t.kind
       case Dependency =>
         var parts := Split(t.key);
         f.DependencyFinding? && |parts| == 3
         && f.ecosystem == parts[0] && f.package == parts[1] && f.osvId == parts[2]
       case Code =>
         var parts := SplitLast(t.key);
         f.CodeFinding? && parts.Some? && f.path == parts.value.0 && f.rule == parts.value.1
  }

  function FindingsFor(t: Target, findings: seq<Finding>): seq<Finding> {
    if findings == [] then []
    else (if Covers(t, findings[0]) then [findings[0]] else []) + FindingsFor(t, findings[1..])
  }

  // -------------------------------------------------------------------- splitting

  predicate Clean(s: string) {
    SEPARATOR !in s
  }

  /** The parts of a finding whose key can be split back. */
  predicate Separable(f: Finding) {
    match f
    case DependencyFinding(_, ecosystem, package, osvId, _, _) =>
      Clean(ecosystem) && Clean(package) && Clean(osvId)
    case CodeFinding(_, _, rule, _, _) => Clean(rule)
  }

  lemma {:induction false} SplitClean(s: string)
    requires Clean(s)
    ensures Split(s) == [s]
  {
    if s != [] {
      var rest := Split(s[1..]);
      SplitClean(s[1..]);
      assert rest[1..] == [] && [s[0]] + rest[0] == s;
    }
  }

  lemma {:induction false} SplitAfterClean(a: string, rest: string)
    requires Clean(a)
    ensures Split(Join2(a, rest)) == [a] + Split(rest)
  {
    var s := Join2(a, rest);
    if a == [] {
      assert s[1..] == rest;
    } else {
      assert s[1..] == Join2(a[1..], rest);
      SplitAfterClean(a[1..], rest);
      assert [a[0]] + a[1..] == a;
      assert Split(s[1..])[1..] == Split(rest);
    }
  }

  lemma {:induction false} SplitFirst(s: string)
    ensures var parts := Split(s);
      && (forall i :: 0 <= i < |parts| ==> Clean(parts[i]))
      && (if |parts| == 1 then s == parts[0]
          else exists rest :: s == Join2(parts[0], rest) && Split(rest) == parts[1..])
  {
    if s != [] {
      var parts, rest := Split(s), Split(s[1..]);
      SplitFirst(s[1..]);
      if s[0] == SEPARATOR {
        assert s == Join2([], s[1..]) && parts[1..] == rest;
      } else if |rest| > 1 {
        var r :| s[1..] == Join2(rest[0], r) && Split(r) == rest[1..];
        assert s == [s[0]] + s[1..] == Join2(parts[0], r);
        assert parts[1..] == rest[1..];
      } else {
        assert s == [s[0]] + s[1..];
      }
    }
  }

  /** Splitting undoes joining exactly when no part contains the separator. */
  lemma SplitIffJoined(s: string, a: string, b: string, c: string)
    ensures Split(s) == [a, b, c] <==> s == Join3(a, b, c) && Clean(a) && Clean(b) && Clean(c)
  {
    if s == Join3(a, b, c) && Clean(a) && Clean(b) && Clean(c) {
      assert s == Join2(a, Join2(b, c));
      SplitAfterClean(a, Join2(b, c));
      SplitAfterClean(b, c);
      SplitClean(c);
    }
    if Split(s) == [a, b, c] {
      var parts := Split(s);
      SplitFirst(s);
      assert parts[0] == a && parts[1] == b && parts[2] == c;
      var rest :| s == Join2(a, rest) && Split(rest) == parts[1..];
      SplitFirst(rest);
      assert Split(rest) == [b, c];
      var rest' :| rest == Join2(b, rest') && Split(rest') == Split(rest)[1..];
      SplitFirst(rest');
      assert Split(rest') == [c];
      assert s == Join3(a, b, c);
    }
  }

  lemma LastOfJoin(head: string, tail: string)
    ensures Last(Join2(head, tail)) == if tail == [] then SEPARATOR else Last(tail)
    ensures tail == [] ==> Front(Join2(head, tail)) == head
  {
  }

  lemma {:induction false} SplitLastIffJoined(s: string, head: string, tail: string)
    ensures SplitLast(s) == Some((head, tail)) <==> s == Join2(head, tail) && Clean(tail)
  {
    if s != [] {
      var front, last := Front(s), Last(s);
      assert s == front + [last];
      if last == SEPARATOR {
        LastOfJoin(head, tail);
        assert s == Join2(head, tail) && Clean(tail) ==> front == head;
      } else if tail == [] {
        LastOfJoin(head, tail);
      } else {
        SplitLastIffJoined(front, head, Front(tail));
        assert tail == Front(tail) + [Last(tail)];
        if s == Join2(head, tail) {
          assert front == Join2(head, Front(tail));
        }
        if SplitLast(s) == Some((head, tail)) {
          var parts := SplitLast(front).value;
          assert parts.1 + [last] == tail;
          assert parts.1 == Front(tail);
        }
        if s == Join2(head, tail) && Clean(tail) {
          assert Clean(Front(tail));
        }
      }
    }
  }

  // ------------------------------------------------------------- they agree, when

  /** The lookup finds a finding exactly when the exception carries the finding's own key and that
    key can be split back. */
  lemma CoversExactly(t: Target, f: Finding)
    ensures Covers(t, f) <==> t == Target(KindOf(f), f.repo, KeyOf(f)) && !f.resolved && Separable(f)
  {
    match f
    case DependencyFinding(_, ecosystem, package, osvId, _, _) =>
      SplitIffJoined(t.key, ecosystem, package, osvId);
      var parts := Split(t.key);
      assert |parts| == 3 && parts[0] == ecosystem && parts[1] == package && parts[2] == osvId
        <==> parts == [ecosystem, package, osvId];
    case CodeFinding(_, path, rule, _, _) =>
      SplitLastIffJoined(t.key, path, rule);
  }

  lemma {:induction false} ExceptionMapKeys(rows: seq<Row>, kind: Kind, repos: set<string>, now: int, repo: string, key: string)
    ensures (repo, key) in ExceptionMap(rows, kind, repos, now)
       <==> repo in repos && ExceptedBy(rows, Target(kind, repo, key), now)
  {
    if rows != [] {
      var front, r, t := Front(rows), Last(rows), Target(kind, repo, key);
      ExceptionMapKeys(front, kind, repos, now, repo, key);
      assert rows == front + [r];
      assert ExceptedBy(rows, t, now) <==> ExceptedBy(front, t, now) || ActiveOn(r, t, now);
    }
  }

  lemma {:induction false} UnlistedIsFilter(
      excepted: map<(string, string), Row>, keep: Finding -> bool, snapshots: seq<Finding>)
    requires forall f :: f in snapshots ==> (keep(f) <==> (f.repo, KeyOf(f)) !in excepted)
    ensures Unlisted(excepted, snapshots) == Filter(keep, snapshots)
  {
    if snapshots != [] {
      assert forall f :: f in Front(snapshots) ==> f in snapshots;
      assert Last(snapshots) in snapshots;
      UnlistedIsFilter(excepted, keep, Front(snapshots));
    }
  }

  lemma {:induction false} NothingUnlisted(excepted: map<(string, string), Row>, snapshots: seq<Finding>)
    requires forall k :: k !in excepted
    ensures Unlisted(excepted, snapshots) == snapshots
  {
    if snapshots != [] {
      NothingUnlisted(excepted, Front(snapshots));
      assert snapshots == Front(snapshots) + [Last(snapshots)];
    }
  }

  /** The snapshot filter keeps exactly what the query keeps, as often and in that order. */
  lemma FilterAgreesWithQuery(rows: seq<Row>, kind: Kind, snapshots: seq<Finding>, now: int)
    requires forall f :: f in snapshots ==> KindOf(f) == kind
    ensures DropExcepted(rows, kind, snapshots, now) == Filter(f => NotExcepted(rows, f, now), snapshots)
  {
    var repos := set f | f in snapshots :: f.repo;
    var excepted := ExceptionMap(rows, kind, repos, now);
    forall f | f in snapshots ensures NotExcepted(rows, f, now) <==> (f.repo, KeyOf(f)) !in excepted {
      ExceptionMapKeys(rows, kind, repos, now, f.repo, KeyOf(f));
    }
    UnlistedIsFilter(excepted, f => NotExcepted(rows, f, now), snapshots);
    if excepted == map[] {
      NothingUnlisted(excepted, snapshots);
    }
  }

  /** The lookup agrees with the query on a finding, for every table of exceptions, exactly when
    the finding is open and its key can be split back. */
  lemma LookupAgreesExactly(f: Finding)
    ensures (forall rows, now :: AgreesOn(rows, f, now)) <==> (!f.resolved && Separable(f))
  {
    if !f.resolved && Separable(f) {
      forall rows: seq<Row>, now: int ensures AgreesOn(rows, f, now) {
        forall r | r in rows ensures Covers(r.target, f) <==> r.target == Target(KindOf(f), f.repo, KeyOf(f)) {
          CoversExactly(r.target, f);
        }
      }
    } else {
      var target := Target(KindOf(f), f.repo, KeyOf(f));
      var r := Row(0, target, Terms(FalsePositive, "", None, ""), None, None);
      CoversExactly(target, f);
      assert r in [r] && ActiveOn(r, target, 0);
      assert !AgreesOn([r], f, 0);
    }
  }

  /** Some active exception looks the finding up, if and only if the query excludes it. */
  ghost predicate AgreesOn(rows: seq<Row>, f: Finding, now: int) {
    (exists r :: r in rows && Active(r, now) && Covers(r.target, f)) <==> !NotExcepted(rows, f, now)
  }

  // ------------------------------------------------------------ when keys collide

  predicate SameParts(f: Finding, g: Finding) {
    match f
    case DependencyFinding(_, ecosystem, package, osvId, _, _) =>
      g.DependencyFinding? && g.ecosystem == ecosystem && g.package == package && g.osvId == osvId
    case CodeFinding(_, path, rule, _, _) => g.CodeFinding? && g.path == path && g.rule == rule
  }

  /** Separable findings of a kind in a repository share a key only if they agree in every part. */
  lemma SeparableKeysAreInjective(f: Finding, g: Finding)
    requires KindOf(f) == KindOf(g) && Separable(f) && Separable(g) && KeyOf(f) == KeyOf(g)
    ensures SameParts(f, g)
  {
    match f
    case DependencyFinding(_, ecosystem, package, osvId, _, _) =>
      SplitIffJoined(KeyOf(f), ecosystem, package, osvId);
      SplitIffJoined(KeyOf(g), g.ecosystem, g.package, g.osvId);
      assert [ecosystem, package, osvId][0] == [g.ecosystem, g.package, g.osvId][0];
      assert [ecosystem, package, osvId][1] == [g.ecosystem, g.package, g.osvId][1];
      assert [ecosystem, package, osvId][2] == [g.ecosystem, g.package, g.osvId][2];
    case CodeFinding(_, path, rule, _, _) =>
      SplitLastIffJoined(KeyOf(f), path, rule);
      SplitLastIffJoined(KeyOf(g), g.path, g.rule);
  }

  /** No part contains the separator. */
  predicate AllClean(f: Finding) {
    match f
    case DependencyFinding(_, ecosystem, package, osvId, _, _) =>
      Clean(ecosystem) && Clean(package) && Clean(osvId)
    case CodeFinding(_, path, rule, _, _) => Clean(path) && Clean(rule)
  }

  /** Another finding, of the same kind and repository, that has the same key. */
  ghost predicate Collides(f: Finding, g: Finding) {
    KindOf(g) == KindOf(f) && g.repo == f.repo && KeyOf(g) == KeyOf(f) && !SameParts(f, g)
  }

  /** A finding shares its key with no other exactly when no part of it contains the separator.
    Otherwise an exception for either takes both out of the query. */
  lemma CollidesExactly(f: Finding)
    ensures (exists g :: Collides(f, g)) <==> !AllClean(f)
  {
    if AllClean(f) {
      forall g ensures !Collides(f, g) {
        if f.DependencyFinding? && g.DependencyFinding? && KeyOf(f) == KeyOf(g) {
          JoinedOnce3(f.ecosystem, f.package, f.osvId, g.ecosystem, g.package, g.osvId);
        } else if f.CodeFinding? && g.CodeFinding? && KeyOf(f) == KeyOf(g) {
          JoinedOnce2(f.path, f.rule, g.path, g.rule);
        }
      }
    } else {
      var g := Collision(f);
    }
  }

  /** For example these two rules, in different files. */
  lemma InseparableKeysCollide(repo: string)
    ensures Collides(CodeFinding(repo, "a", "b|c", 1, false), CodeFinding(repo, "a|b", "c", 1, false))
  {
    assert Join2("a", "b|c") == "a|b|c" == Join2("a|b", "c");
  }

  lemma JoinedOnce2(a: string, b: string, c: string, d: string)
    requires Clean(a) && Clean(b) && Join2(a, b) == Join2(c, d)
    ensures a == c && b == d
  {
    var s := Join2(a, b);
    OnlySeparator2(a, b);
    assert s[|c|] == Join2(c, d)[|c|] == SEPARATOR;
    assert a == s[..|a|] && c == Join2(c, d)[..|c|];
    assert b == s[|a| + 1..] && d == Join2(c, d)[|c| + 1..];
  }

  lemma OnlySeparator2(a: string, b: string)
    requires Clean(a) && Clean(b)
    ensures forall i :: 0 <= i < |Join2(a, b)| ==> (Join2(a, b)[i] == SEPARATOR <==> i == |a|)
  {
    var s := Join2(a, b);
    assert forall i :: 0 <= i < |a| ==> s[i] == a[i] && a[i] in a;
    assert forall i :: |a| < i < |s| ==> s[i] == b[i - |a| - 1] && b[i - |a| - 1] in b;
  }

  lemma JoinedOnce3(a: string, b: string, c: string, a': string, b': string, c': string)
    requires Clean(a) && Clean(b) && Clean(c) && Join3(a, b, c) == Join3(a', b', c')
    ensures a == a' && b == b' && c == c'
  {
    var s, t := Join3(a, b, c), Join3(a', b', c');
    assert t[|a'|] == SEPARATOR && t[|a'| + 1 + |b'|] == SEPARATOR;
    OnlySeparators3(a, b, c);
    assert a == s[..|a|] && a' == t[..|a'|];
    assert b == s[|a| + 1..|a| + 1 + |b|] && b' == t[|a'| + 1..|a'| + 1 + |b'|];
    assert c == s[|a| + |b| + 2..] && c' == t[|a'| + |b'| + 2..];
  }

  lemma OnlySeparators3(a: string, b: string, c: string)
    requires Clean(a) && Clean(b) && Clean(c)
    ensures forall i :: 0 <= i < |Join3(a, b, c)| ==>
      (Join3(a, b, c)[i] == SEPARATOR <==> i == |a| || i == |a| + 1 + |b|)
  {
    var s := Join3(a, b, c);
    assert forall i :: 0 <= i < |a| ==> s[i] == a[i] && a[i] in a;
    assert forall i :: |a| < i < |a| + 1 + |b| ==> s[i] == b[i - |a| - 1] && b[i - |a| - 1] in b;
    assert forall i :: |a| + 1 + |b| < i < |s| ==> s[i] == c[i - |a| - |b| - 2] && c[i - |a| - |b| - 2] in c;
  }

  /** A text with a separator is two texts joined. */
  lemma Halves(s: string) returns (head: string, tail: string)
    requires !Clean(s)
    ensures s == Join2(head, tail) && head != s && tail != s
  {
    var i :| 0 <= i < |s| && s[i] == SEPARATOR;
    head, tail := s[..i], s[i + 1..];
  }

  lemma Collision(f: Finding) returns (g: Finding)
    requires !AllClean(f)
    ensures Collides(f, g)
  {
    match f
    case DependencyFinding(_, ecosystem, package, osvId, _, _) =>
      var a, b, c := Rejoin3(ecosystem, package, osvId);
      g := f.(ecosystem := a, package := b, osvId := c);
    case CodeFinding(_, path, rule, _, _) =>
      var a, b := Rejoin2(path, rule);
      g := f.(path := a, rule := b);
  }

  lemma Rejoin2(a: string, b: string) returns (a': string, b': string)
    requires !(Clean(a) && Clean(b))
    ensures Join2(a', b') == Join2(a, b) && a' != a
  {
    if !Clean(a) {
      var head, tail := Halves(a);
      a', b' := head, Join2(tail, b);
    } else {
      var head, tail := Halves(b);
      a', b' := Join2(a, head), tail;
      assert |a'| > |a|;
    }
    assert Join2(a', b') == Join2(a, b);
  }

  lemma Rejoin3(a: string, b: string, c: string) returns (a': string, b': string, c': string)
    requires !(Clean(a) && Clean(b) && Clean(c))
    ensures Join3(a', b', c') == Join3(a, b, c) && (a' != a || b' != b)
  {
    assert Join3(a, b, c) == Join2(Join2(a, b), c);
    if Clean(a) && Clean(b) {
      var head, tail := Halves(c);
      a', b', c' := a, Join2(b, head), tail;
      assert |b'| > |b|;
      assert Join3(a', b', c') == Join3(a, b, c);
    } else {
      a', b' := Rejoin2(a, b);
      c' := c;
      assert Join3(a', b', c') == Join2(Join2(a', b'), c);
    }
  }

  // ------------------------------------------------------------------ in fields

  /** The parts of a key are joined with "|", in this order. */
  lemma KeysAre(f: Finding)
    ensures f.DependencyFinding? ==> KeyOf(f) == f.ecosystem + "|" + f.package + "|" + f.osvId
    ensures f.CodeFinding? ==> KeyOf(f) == f.path + "|" + f.rule
  {
  }

  /** The query leaves out exactly the findings of the kind and repository whose key some exception has
    that has neither ended nor expired. */
  lemma NotExceptedExactly(rows: seq<Row>, f: Finding, now: int)
    ensures NotExcepted(rows, f, now) <==>
      !(exists r :: r in rows && r.target == Target(KindOf(f), f.repo, KeyOf(f))
          && r.ended == None && (r.terms.expires.Some? ==> now < r.terms.expires.value))
  {
  }
}
