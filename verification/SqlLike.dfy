/** SQL LIKE, as the dependency scan uses it to limit a sync to one owner's repositories, on the two
  databases that the program runs on. */
module SqlLike {
  /** PostgreSQL takes a backslash in a pattern as an escape. SQLite has no escape here, and ignores
    the case of ASCII letters. */
  datatype Database = PostgreSql | Sqlite

  predicate IsEscape(db: Database, c: char) {
    db.PostgreSql? && c == '\\'
  }

  predicate IsLetter(c: char) {
    'a' <= c <= 'z' || 'A' <= c <= 'Z'
  }

  /** A letter in the other case, anything else as it is. */
  function OtherCase(c: char): char {
    if 'a' <= c <= 'z' then (c as int - 32) as char else if 'A' <= c <= 'Z' then (c as int + 32) as char else c
  }

  predicate Same(db: Database, c: char, d: char) {
    c == d || (db.Sqlite? && OtherCase(c) == d)
  }

  predicate Like(db: Database, pattern: string, s: string) {
    if pattern == [] then s == []
    else if IsEscape(db, pattern[0]) then
      |pattern| > 1 && s != [] && Same(db, pattern[1], s[0]) && Like(db, pattern[2..], s[1..])
    else if pattern[0] == '%' then exists i | 0 <= i <= |s| :: Like(db, pattern[1..], s[i..])
    else s != [] && (pattern[0] == '_' || Same(db, pattern[0], s[0])) && Like(db, pattern[1..], s[1..])
  }

  /** Nothing that LIKE takes for something else. */
  predicate Plain(db: Database, s: string) {
    forall c | c in s :: c != '%' && c != '_' && !IsEscape(db, c)
  }

  predicate Literal(db: Database, s: string) {
    Plain(db, s) && (db.Sqlite? ==> forall c | c in s :: !IsLetter(c))
  }

  predicate OwnedBy(repo: string, owner: string) {
    owner + "/" <= repo
  }

  ghost predicate SamePrefix(db: Database, prefix: string, s: string) {
    |prefix| <= |s| && forall i :: 0 <= i < |prefix| ==> Same(db, prefix[i], s[i])
  }

  lemma LikeAnything(db: Database, s: string)
    ensures Like(db, "%", s)
  {
    assert Like(db, [], s[|s|..]);
    assert "%"[1..] == [];
  }

  lemma {:induction false} LikePlain(db: Database, prefix: string, pattern: string, s: string)
    requires Plain(db, prefix)
    ensures Like(db, prefix + pattern, s) <==> SamePrefix(db, prefix, s) && Like(db, pattern, s[|prefix|..])
  {
    if prefix == [] {
      assert prefix + pattern == pattern && s[0..] == s;
    } else {
      assert (prefix + pattern)[1..] == prefix[1..] + pattern && prefix[0] in prefix;
      assert forall c :: c in prefix[1..] ==> c in prefix;
      if s != [] {
        LikePlain(db, prefix[1..], pattern, s[1..]);
        if |prefix| <= |s| {
          assert s[1..][|prefix[1..]|..] == s[|prefix|..];
        }
        PrefixStep(db, prefix, s);
      }
    }
  }

  lemma PrefixStep(db: Database, prefix: string, s: string)
    requires prefix != [] && s != []
    ensures SamePrefix(db, prefix, s) <==> Same(db, prefix[0], s[0]) && SamePrefix(db, prefix[1..], s[1..])
  {
    if SamePrefix(db, prefix, s) {
      assert forall i :: 0 <= i < |prefix| - 1 ==> prefix[1..][i] == prefix[i + 1] && s[1..][i] == s[i + 1];
    }
    if Same(db, prefix[0], s[0]) && SamePrefix(db, prefix[1..], s[1..]) {
      forall i | 0 <= i < |prefix| ensures Same(db, prefix[i], s[i]) {
        assert i > 0 ==> prefix[1..][i - 1] == prefix[i] && s[1..][i - 1] == s[i];
      }
    }
  }

  /** For an owner without wildcard or escape, LIKE means "in a repository of the owner", up to case
    where the database ignores it. */
  lemma LikeMeansSamePrefix(db: Database, owner: string, repo: string)
    requires Plain(db, owner)
    ensures Like(db, owner + "/%", repo) <==> SamePrefix(db, owner + "/", repo)
  {
    assert owner + "/%" == (owner + "/") + "%";
    LikePlain(db, owner + "/", "%", repo);
    if |owner| < |repo| {
      LikeAnything(db, repo[|owner| + 1..]);
    }
  }

  // ------------------------------------------------------- what a pattern also matches

  /** A text that the pattern matches, as far as possible from the pattern itself. */
  function Match(db: Database, pattern: string): string {
    if pattern == [] then []
    else if IsEscape(db, pattern[0]) then
      if |pattern| == 1 then [] else [pattern[1]] + Match(db, pattern[2..])
    else if pattern[0] == '%' then Match(db, pattern[1..])
    else if pattern[0] == '_' then ['x'] + Match(db, pattern[1..])
    else [if db.Sqlite? then OtherCase(pattern[0]) else pattern[0]] + Match(db, pattern[1..])
  }

  /** No escape at the very end of the owner is without a character to escape. */
  lemma {:induction false} MatchIsLike(db: Database, head: string)
    ensures Like(db, head + "/%", Match(db, head + "/%"))
  {
    var pattern := head + "/%";
    var s := Match(db, pattern);
    if head == [] {
      assert pattern == "/%" && pattern[1..] == "%";
      assert Match(db, "%") == [] by { assert "%"[1..] == []; }
      LikeAnything(db, []);
      assert s[1..] == [];
    } else if IsEscape(db, head[0]) {
      if |head| == 1 {
        assert pattern[2..] == "%";
        assert Match(db, "%") == [] by { assert "%"[1..] == []; }
        LikeAnything(db, []);
        assert s[1..] == [];
      } else {
        assert pattern[2..] == head[2..] + "/%";
        MatchIsLike(db, head[2..]);
        assert s[1..] == Match(db, head[2..] + "/%");
      }
    } else {
      assert pattern[1..] == head[1..] + "/%";
      MatchIsLike(db, head[1..]);
      if head[0] == '%' {
        assert s[0..] == s;
      } else {
        assert s[1..] == Match(db, head[1..] + "/%");
      }
    }
  }

  predicate Shortens(db: Database, s: string) {
    exists c | c in s :: c == '%' || IsEscape(db, c)
  }

  lemma {:induction false} MatchLength(db: Database, head: string)
    ensures |Match(db, head + "/%")| <= |head| + 1
    ensures Shortens(db, head) ==> |Match(db, head + "/%")| <= |head|
  {
    var pattern := head + "/%";
    if head == [] {
      assert pattern == "/%" && pattern[1..] == "%";
      assert Match(db, "%") == [] by { assert "%"[1..] == []; }
    } else if IsEscape(db, head[0]) {
      if |head| == 1 {
        assert pattern[2..] == "%";
        assert Match(db, "%") == [] by { assert "%"[1..] == []; }
      } else {
        assert pattern[2..] == head[2..] + "/%";
        MatchLength(db, head[2..]);
      }
    } else {
      assert pattern[1..] == head[1..] + "/%";
      MatchLength(db, head[1..]);
      assert head == [head[0]] + head[1..];
    }
  }

  lemma {:induction false} MatchDiffers(db: Database, head: string, i: nat)
    requires !Shortens(db, head) && i < |head|
    requires head[i] == '_' || (db.Sqlite? && IsLetter(head[i]))
    ensures |Match(db, head + "/%")| > i && Match(db, head + "/%")[i] != head[i]
  {
    assert head[0] in head;
    assert (head + "/%")[1..] == head[1..] + "/%";
    if i > 0 {
      assert forall c :: c in head[1..] ==> c in head;
      MatchDiffers(db, head[1..], i - 1);
    }
  }

  /** `LIKE 'owner/%'` means "in a repository of the owner", for all repository names, exactly when
    the owner's name contains no wildcard, and no backslash on PostgreSQL, and no ASCII letter on
    SQLite. */
  lemma LikeMeansOwnedBy(db: Database, owner: string)
    ensures (forall repo :: Like(db, owner + "/%", repo) <==> OwnedBy(repo, owner)) <==> Literal(db, owner)
  {
    if Literal(db, owner) {
      forall repo: string ensures Like(db, owner + "/%", repo) <==> OwnedBy(repo, owner) {
        LikeMeansSamePrefix(db, owner, repo);
        LiteralPrefix(db, owner + "/", repo);
      }
    } else {
      var repo := Match(db, owner + "/%");
      MatchIsLike(db, owner);
      MatchLength(db, owner);
      if !Shortens(db, owner) {
        var i := Changed(db, owner);
        MatchDiffers(db, owner, i);
        assert (owner + "/")[i] == owner[i];
      }
      assert Like(db, owner + "/%", repo) && !OwnedBy(repo, owner);
    }
  }

  lemma Changed(db: Database, owner: string) returns (i: nat)
    requires !Literal(db, owner) && !Shortens(db, owner)
    ensures i < |owner| && (owner[i] == '_' || (db.Sqlite? && IsLetter(owner[i])))
  {
    var c :| c in owner && (c == '_' || (db.Sqlite? && IsLetter(c)));
    i :| 0 <= i < |owner| && owner[i] == c;
  }

  lemma LiteralPrefix(db: Database, prefix: string, s: string)
    requires Literal(db, prefix)
    ensures SamePrefix(db, prefix, s) <==> prefix <= s
  {
    forall i | 0 <= i < |prefix| && |prefix| <= |s| ensures Same(db, prefix[i], s[i]) <==> prefix[i] == s[i] {
      assert prefix[i] in prefix;
    }
  }
}
