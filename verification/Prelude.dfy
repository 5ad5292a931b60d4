/** Small definitions shared by the other modules. */
module Prelude {

  datatype Option<+T> = None | Some(value: T)

  function Max(a: int, b: int): int {
    if a < b then b else a
  }

  function Min(a: int, b: int): int {
    if a < b then a else b
  }

  function Front<T>(s: seq<T>): seq<T>
    requires s != []
  {
    s[..|s| - 1]
  }

  function Last<T>(s: seq<T>): T
    requires s != []
  {
    s[|s| - 1]
  }

  ghost predicate Distinct<T>(s: seq<T>) {
    forall i, j :: 0 <= i < j < |s| ==> s[i] != s[j]
  }

  lemma {:induction false} SubsetSize<T>(a: set<T>, b: set<T>)
    requires a <= b
    ensures |a| <= |b|
  {
    if a != {} {
      var x :| x in a;
      SubsetSize(a - {x}, b - {x});
    }
  }

  /** The distinct elements in the order of their first occurrence. */
  function FirstOccurrences<T(==)>(s: seq<T>): seq<T> {
    if s == [] then []
    else
      var before := FirstOccurrences(Front(s));
      if Last(s) in Front(s) then before else before + [Last(s)]
  }

  lemma {:induction false} FirstOccurrencesContents<T>(s: seq<T>)
    ensures Distinct(FirstOccurrences(s))
    ensures forall x :: x in FirstOccurrences(s) <==> x in s
  {
    if s != [] {
      FirstOccurrencesContents(Front(s));
      assert s == Front(s) + [Last(s)];
    }
  }

  /** `n` is where the element first stands. */
  ghost predicate FirstStands<T>(s: seq<T>, x: T, n: int) {
    0 <= n < |s| && s[n] == x && forall m :: 0 <= m < n ==> s[m] != x
  }

  /** And they stand in the order in which they first stood. */
  lemma {:induction false} FirstOccurrencesInOrder<T>(s: seq<T>, i: nat, j: nat, m: int, n: int)
    requires i < j < |FirstOccurrences(s)|
    requires FirstStands(s, FirstOccurrences(s)[i], m) && FirstStands(s, FirstOccurrences(s)[j], n)
    ensures m < n
  {
    var front := Front(s);
    FirstOccurrencesContents(front);
    if j < |FirstOccurrences(front)| {
      assert FirstOccurrences(front)[i] in front && FirstOccurrences(front)[j] in front;
      var x, y := FirstOccurrences(s)[i], FirstOccurrences(s)[j];
      var a :| 0 <= a < |front| && front[a] == x;
      var b :| 0 <= b < |front| && front[b] == y;
      assert FirstStands(front, x, m) && FirstStands(front, y, n);
      FirstOccurrencesInOrder(front, i, j, m, n);
    } else {
      assert FirstOccurrences(front)[i] in front;
      var a :| 0 <= a < |front| && front[a] == FirstOccurrences(s)[i];
      assert s[a] == FirstOccurrences(s)[i] && m <= a;
    }
  }

  function Filter<T>(p: T -> bool, s: seq<T>): seq<T> {
    if s == [] then []
    else Filter(p, Front(s)) + (if p(Last(s)) then [Last(s)] else [])
  }

  lemma {:induction false} FilterContents<T>(p: T -> bool, s: seq<T>)
    ensures forall x :: x in Filter(p, s) <==> x in s && p(x)
  {
    if s != [] {
      FilterContents(p, Front(s));
      assert s == Front(s) + [Last(s)];
    }
  }

  function Mapped<S, T>(f: S -> T, s: seq<S>): seq<T> {
    if s == [] then [] else Mapped(f, Front(s)) + [f(Last(s))]
  }

  lemma {:induction false} MappedContents<S, T>(f: S -> T, s: seq<S>)
    ensures |Mapped(f, s)| == |s| && forall i :: 0 <= i < |s| ==> Mapped(f, s)[i] == f(s[i])
  {
    if s != [] {
      MappedContents(f, Front(s));
    }
  }

  /** A text splits in one way at a separator that the part before it does not contain. */
  lemma {:induction false} CutOnce(a: string, b: string, c: string, d: string, sep: char)
    requires sep !in a && sep !in c && a + [sep] + b == c + [sep] + d
    ensures a == c && b == d
  {
    var s, t := a + [sep] + b, c + [sep] + d;
    assert forall i :: 0 <= i < |a| ==> s[i] == a[i] && a[i] in a;
    assert forall i :: 0 <= i < |c| ==> t[i] == c[i] && c[i] in c;
    assert s[|a|] == sep && t[|c|] == sep;
    assert |a| == |c|;
    assert a == s[..|a|] && c == t[..|c|];
    assert b == s[|a| + 1..] && d == t[|c| + 1..];
  }
}

/** Orders and sorting, for the queries and lists that the source sorts. */
module Ordering {
  import opened Prelude

  /** Python's (code point) order on strings. */
  predicate StringLess(a: string, b: string) {
    if b == [] then false
    else if a == [] then true
    else if a[0] != b[0] then a[0] < b[0]
    else StringLess(a[1..], b[1..])
  }

  lemma {:induction false} StringLessTotal(a: string, b: string)
    ensures a == b || StringLess(a, b) || StringLess(b, a)
    ensures !(StringLess(a, b) && StringLess(b, a))
  {
    if a != [] && b != [] && a[0] == b[0] {
      StringLessTotal(a[1..], b[1..]);
      assert a == [a[0]] + a[1..] && b == [b[0]] + b[1..];
    }
  }

  lemma {:induction false} StringLessTransitive(a: string, b: string, c: string)
    requires StringLess(a, b) && StringLess(b, c)
    ensures StringLess(a, c)
  {
    if a != [] && a[0] == b[0] == c[0] {
      StringLessTransitive(a[1..], b[1..], c[1..]);
    }
  }

  /** Python's order on tuples. */
  predicate TupleLess(a: seq<int>, b: seq<int>) {
    if b == [] then false
    else if a == [] then true
    else if a[0] != b[0] then a[0] < b[0]
    else TupleLess(a[1..], b[1..])
  }

  lemma {:induction false} TupleLessTotal(a: seq<int>, b: seq<int>)
    ensures a == b || TupleLess(a, b) || TupleLess(b, a)
    ensures !(TupleLess(a, b) && TupleLess(b, a))
  {
    if a != [] && b != [] && a[0] == b[0] {
      TupleLessTotal(a[1..], b[1..]);
      assert a == [a[0]] + a[1..] && b == [b[0]] + b[1..];
    }
  }

  lemma {:induction false} TupleLessTransitive(a: seq<int>, b: seq<int>, c: seq<int>)
    requires TupleLess(a, b) && TupleLess(b, c)
    ensures TupleLess(a, c)
  {
    if a != [] && a[0] == b[0] == c[0] {
      TupleLessTransitive(a[1..], b[1..], c[1..]);
    }
  }

  /** `less` is a strict weak order: what a comparison sort needs. */
  ghost predicate IsOrder<T(!new)>(less: (T, T) -> bool) {
    && (forall x, y :: less(x, y) ==> !less(y, x))
    && (forall x, y, z :: less(x, z) ==> less(x, y) || less(y, z))
  }

  ghost predicate SortedBy<T(!new)>(less: (T, T) -> bool, s: seq<T>) {
    forall i, j :: 0 <= i < j < |s| ==> !less(s[j], s[i])
  }

  lemma StringLessIsOrder()
    ensures IsOrder(StringLess)
  {
    forall x, y | StringLess(x, y) ensures !StringLess(y, x) {
      StringLessTotal(x, y);
    }
    forall x, y, z | StringLess(x, z) ensures StringLess(x, y) || StringLess(y, z) {
      StringLessTotal(x, y);
      StringLessTotal(y, z);
      if StringLess(y, x) && StringLess(x, z) {
        StringLessTransitive(y, x, z);
      }
    }
  }

  function Insert<T>(less: (T, T) -> bool, x: T, s: seq<T>): seq<T> {
    if s == [] || !less(s[0], x) then [x] + s else [s[0]] + Insert(less, x, s[1..])
  }

  /** A stable sort, as Python's `sorted` and a query's ORDER BY with a full key. */
  function Sort<T>(less: (T, T) -> bool, s: seq<T>): seq<T> {
    if s == [] then [] else Insert(less, s[0], Sort(less, s[1..]))
  }

  lemma {:induction false} InsertContents<T>(less: (T, T) -> bool, x: T, s: seq<T>)
    ensures multiset(Insert(less, x, s)) == multiset(s) + multiset{x}
    ensures forall y :: y in Insert(less, x, s) <==> y == x || y in s
  {
    if s != [] && less(s[0], x) {
      InsertContents(less, x, s[1..]);
      assert s == [s[0]] + s[1..];
    }
  }

  lemma {:induction false} InsertKeepsSorted<T(!new)>(less: (T, T) -> bool, x: T, s: seq<T>)
    requires IsOrder(less) && SortedBy(less, s)
    ensures SortedBy(less, Insert(less, x, s))
  {
    var r := Insert(less, x, s);
    if s == [] || !less(s[0], x) {
      forall j | 0 < j < |r| ensures !less(r[j], x) {
        assert r[j] == s[j - 1];
      }
    } else {
      var tail := Insert(less, x, s[1..]);
      InsertKeepsSorted(less, x, s[1..]);
      InsertContents(less, x, s[1..]);
      forall j | 0 < j < |r| ensures !less(r[j], s[0]) {
        assert r[j] == tail[j - 1] && tail[j - 1] in tail;
      }
    }
  }

  lemma {:induction false} SortSorts<T(!new)>(less: (T, T) -> bool, s: seq<T>)
    requires IsOrder(less)
    ensures SortedBy(less, Sort(less, s))
  {
    if s != [] {
      SortSorts(less, s[1..]);
      InsertKeepsSorted(less, s[0], Sort(less, s[1..]));
    }
  }

  lemma {:induction false} InsertKeepsDistinct<T>(less: (T, T) -> bool, x: T, s: seq<T>)
    requires Distinct(s) && x !in s
    ensures Distinct(Insert(less, x, s))
  {
    if s != [] && less(s[0], x) {
      InsertKeepsDistinct(less, x, s[1..]);
      InsertContents(less, x, s[1..]);
      assert s[0] !in s[1..];
    }
  }

  lemma {:induction false} SortKeepsDistinct<T(!new)>(less: (T, T) -> bool, s: seq<T>)
    requires Distinct(s)
    ensures Distinct(Sort(less, s))
  {
    if s != [] {
      SortKeepsDistinct(less, s[1..]);
      SortContents(less, s[1..]);
      assert s[0] !in s[1..];
      InsertKeepsDistinct(less, s[0], Sort(less, s[1..]));
    }
  }

  lemma {:induction false} SortContents<T>(less: (T, T) -> bool, s: seq<T>)
    ensures multiset(Sort(less, s)) == multiset(s)
    ensures |Sort(less, s)| == |s|
    ensures forall x :: x in Sort(less, s) <==> x in s
  {
    if s != [] {
      SortContents(less, s[1..]);
      InsertContents(less, s[0], Sort(less, s[1..]));
      assert s == [s[0]] + s[1..];
    }
    SamePermutation(Sort(less, s), s);
  }

  lemma SamePermutation<T>(a: seq<T>, b: seq<T>)
    requires multiset(a) == multiset(b)
    ensures |a| == |b| && forall x :: x in a <==> x in b
  {
    assert |a| == |multiset(a)| == |multiset(b)| == |b|;
    forall x ensures x in a <==> x in b {
      assert x in a <==> x in multiset(a);
    }
  }
}
