/** Package URLs (app/depscan/sbom.py). Texts are taken as their UTF-8 bytes, one `char` below 256
  for each byte, as `urllib.parse.quote` sees them. */
module Purl {
  import opened Prelude

  type Bytes = s: string | forall c :: c in s ==> c as int < 256 witness []

  predicate Unreserved(c: char) {
    'a' <= c <= 'z' || 'A' <= c <= 'Z' || '0' <= c <= '9' || c in {'_', '.', '-', '~'}
  }

  function HexDigit(n: nat): char
    requires n < 16
  {
    "0123456789ABCDEF"[n]
  }

  function QuoteByte(c: char): string
    requires c as int < 256
  {
    if Unreserved(c) then [c] else ['%', HexDigit(c as int / 16), HexDigit(c as int % 16)]
  }

  /** `urllib.parse.quote(s, safe='')`. */
  function Quote(s: Bytes): string {
    if s == [] then [] else QuoteByte(s[0]) + Quote(s[1..])
  }

  /** What precedes and follows the first occurrence of `sep`, if there is one. */
  function SplitFirst(s: string, sep: char): Option<(string, string)> {
    if s == [] then None
    else if s[0] == sep then Some(([], s[1..]))
    else
      match SplitFirst(s[1..], sep)
      case None => None
      case Some((head, tail)) => Some(([s[0]] + head, tail))
  }

  /** `Other` is any ecosystem that the table of purl types does not list. */
  datatype Ecosystem =
    PyPI | Npm | Go | Maven | RubyGems | NuGet | CratesIo | Packagist | Hex | Pub | Other(name: string)

  function PurlType(ecosystem: Ecosystem): string {
    match ecosystem
    case PyPI => "pypi"
    case Npm => "npm"
    case Go => "golang"
    case Maven => "maven"
    case RubyGems => "gem"
    case NuGet => "nuget"
    case CratesIo => "cargo"
    case Packagist => "composer"
    case Hex => "hex"
    case Pub => "pub"
    case Other(name) => Lower(name)
  }

  function LowerChar(c: char): char {
    if 'A' <= c <= 'Z' then (c as int + 32) as char else c
  }

  /** `str.lower` on ASCII letters. */
  function Lower(s: string): string {
    if s == [] then [] else [LowerChar(s[0])] + Lower(s[1..])
  }

  function NormalChar(c: char): char {
    if c in {'_', '.'} then '-' else LowerChar(c)
  }

  /** PyPI names ignore case and do not tell "_", "." and "-" apart. */
  function NormalizePyPI(name: string): string {
    if name == [] then []
    else [NormalChar(name[0])] + NormalizePyPI(name[1..])
  }

  /** The namespace (empty if there is none) and the name. */
  datatype Named = Named(namespace: string, name: string)

  function Split(ecosystem: Ecosystem, package: string): Named {
    var parts :=
      if ecosystem.Maven? then SplitFirst(package, ':')
      else if ecosystem.Packagist? then SplitFirst(package, '/')
      else if ecosystem.Npm? && package != [] && package[0] == '@' then SplitFirst(package[1..], '/')
      else None;
    if parts.Some? then Named(parts.value.0, parts.value.1)
    else if ecosystem.PyPI? then Named([], NormalizePyPI(package))
    else Named([], package)
  }

  lemma {:induction false} SplitFirstBytes(s: Bytes, sep: char)
    ensures var parts := SplitFirst(s, sep);
      parts.Some? ==> s == parts.value.0 + [sep] + parts.value.1 && sep !in parts.value.0
    ensures SplitFirst(s, sep).None? <==> sep !in s
  {
    if s != [] && s[0] != sep {
      SplitFirstBytes(s[1..], sep);
      assert s == [s[0]] + s[1..];
    }
  }

  lemma {:induction false} NormalizedBytes(name: Bytes)
    ensures forall c :: c in NormalizePyPI(name) ==> c as int < 256
  {
    if name != [] {
      NormalizedBytes(name[1..]);
    }
  }

  lemma SplitBytes(ecosystem: Ecosystem, package: Bytes)
    ensures var n := Split(ecosystem, package);
      (forall c :: c in n.namespace ==> c as int < 256) && (forall c :: c in n.name ==> c as int < 256)
  {
    SplitFirstBytes(package, ':');
    SplitFirstBytes(package, '/');
    NormalizedBytes(package);
    if package != [] {
      SplitFirstBytes(package[1..], '/');
    }
  }

  function Path(n: Named): string
    requires (forall c :: c in n.namespace ==> c as int < 256) && (forall c :: c in n.name ==> c as int < 256)
  {
    if n.namespace != [] then Quote(n.namespace) + "/" + Quote(n.name) else Quote(n.name)
  }

  function VersionPart(version: Bytes): string {
    if version != [] then "@" + Quote(version) else []
  }

  function BuildPurl(ecosystem: Ecosystem, package: Bytes, version: Bytes): string {
    SplitBytes(ecosystem, package);
    "pkg:" + PurlType(ecosystem) + "/" + (Path(Split(ecosystem, package)) + VersionPart(version))
  }

  // ---------------------------------------------------------- quoting is reversible

  lemma HexDigitUnreserved(n: nat)
    requires n < 16
    ensures Unreserved(HexDigit(n))
  {
  }

  lemma QuoteByteCharacters(c: char)
    requires c as int < 256
    ensures forall d :: d in QuoteByte(c) ==> Unreserved(d) || d == '%'
  {
    HexDigitUnreserved(c as int / 16);
    HexDigitUnreserved(c as int % 16);
  }

  lemma {:induction false} QuoteCharacters(s: Bytes)
    ensures forall c :: c in Quote(s) ==> Unreserved(c) || c == '%'
    ensures '/' !in Quote(s) && '@' !in Quote(s) && ':' !in Quote(s)
    ensures s != [] ==> Quote(s) != []
  {
    if s != [] {
      QuoteCharacters(s[1..]);
      QuoteByteCharacters(s[0]);
    }
  }

  /** The value of a hexadecimal digit in upper case. */
  function HexValue(c: char): int {
    if '0' <= c <= '9' then c as int - 48 else if 'A' <= c <= 'F' then c as int - 55 else -1
  }

  /** A letter, a digit or one of "_.-~" stands for itself; any other byte becomes "%" and two
    hexadecimal digits that read as the byte. */
  lemma QuotedByteReads(c: char)
    requires c as int < 256
    ensures var q := QuoteByte(c);
      if 'a' <= c <= 'z' || 'A' <= c <= 'Z' || '0' <= c <= '9' || c == '_' || c == '.' || c == '-' || c == '~' then
        q == [c]
      else
        && |q| == 3 && q[0] == '%' && 0 <= HexValue(q[1]) < 16 && 0 <= HexValue(q[2]) < 16
        && 16 * HexValue(q[1]) + HexValue(q[2]) == c as int
  {
    HexDigitReads(c as int / 16);
    HexDigitReads(c as int % 16);
  }

  lemma HexDigitReads(n: nat)
    requires n < 16
    ensures HexValue(HexDigit(n)) == n
  {
  }

  /** What `urllib.parse.unquote` makes of a quoted text. */
  function Unquote(q: string): string {
    if q == [] then []
    else if q[0] == '%' && |q| >= 3 && HexValue(q[1]) >= 0 && HexValue(q[2]) >= 0 then
      [(16 * HexValue(q[1]) + HexValue(q[2])) as char] + Unquote(q[3..])
    else [q[0]] + Unquote(q[1..])
  }

  /** Unquoting gives the text back. */
  lemma {:induction false} UnquoteQuote(s: Bytes)
    ensures Unquote(Quote(s)) == s
  {
    if s != [] {
      UnquoteQuote(s[1..]);
      QuotedByteReads(s[0]);
      var q, rest := QuoteByte(s[0]), Quote(s[1..]);
      assert (q + rest)[|q|..] == rest;
      assert s == [s[0]] + s[1..];
    }
  }

  lemma HexDigitInjective(m: nat, n: nat)
    requires m < 16 && n < 16 && HexDigit(m) == HexDigit(n)
    ensures m == n
  {
    var digits := "0123456789ABCDEF";
    assert digits[m] == digits[n];
  }

  lemma QuoteByteInjective(c: char, d: char, x: string, y: string)
    requires c as int < 256 && d as int < 256 && QuoteByte(c) + x == QuoteByte(d) + y
    ensures c == d && x == y
  {
    var p, q := QuoteByte(c) + x, QuoteByte(d) + y;
    assert p[0] == q[0];
    if !Unreserved(c) {
      assert p[1] == HexDigit(c as int / 16) && p[2] == HexDigit(c as int % 16);
      assert q[1] == HexDigit(d as int / 16) && q[2] == HexDigit(d as int % 16);
      HexDigitInjective(c as int / 16, d as int / 16);
      HexDigitInjective(c as int % 16, d as int % 16);
    }
    assert c == d;
    assert x == p[|QuoteByte(c)|..] == q[|QuoteByte(d)|..] == y;
  }

  lemma {:induction false} QuoteInjective(a: Bytes, b: Bytes)
    requires Quote(a) == Quote(b)
    ensures a == b
  {
    QuoteCharacters(a);
    QuoteCharacters(b);
    if a != [] && b != [] {
      QuoteByteInjective(a[0], b[0], Quote(a[1..]), Quote(b[1..]));
      QuoteInjective(a[1..], b[1..]);
      assert a == [a[0]] + a[1..] && b == [b[0]] + b[1..];
    }
  }

  lemma SlashInPath(n: Named)
    requires (forall c :: c in n.namespace || c in n.name ==> c as int < 256)
    ensures '/' in Path(n) <==> n.namespace != []
    ensures '@' !in Path(n)
  {
    QuoteCharacters(n.namespace);
    QuoteCharacters(n.name);
    if n.namespace != [] {
      assert Path(n)[|Quote(n.namespace)|] == '/';
    }
  }

  lemma PathInjective(m: Named, n: Named)
    requires (forall c :: c in m.namespace || c in m.name ==> c as int < 256)
    requires (forall c :: c in n.namespace || c in n.name ==> c as int < 256)
    requires Path(m) == Path(n)
    ensures m == n
  {
    SlashInPath(m);
    SlashInPath(n);
    if m.namespace != [] {
      QuoteCharacters(m.namespace);
      QuoteCharacters(n.namespace);
      CutOnce(Quote(m.namespace), Quote(m.name), Quote(n.namespace), Quote(n.name), '/');
      QuoteInjective(m.namespace, n.namespace);
    }
    QuoteInjective(m.name, n.name);
  }

  lemma AtInVersioned(p: string, v: Bytes)
    requires '@' !in p
    ensures '@' in p + VersionPart(v) <==> v != []
  {
    if v != [] {
      assert (p + VersionPart(v))[|p|] == '@';
    }
  }

  lemma VersionedInjective(p: string, v: Bytes, q: string, w: Bytes)
    requires '@' !in p && '@' !in q && p + VersionPart(v) == q + VersionPart(w)
    ensures p == q && v == w
  {
    AtInVersioned(p, v);
    AtInVersioned(q, w);
    if v != [] {
      assert p + VersionPart(v) == p + ['@'] + Quote(v) && q + VersionPart(w) == q + ['@'] + Quote(w);
      CutOnce(p, Quote(v), q, Quote(w), '@');
      QuoteInjective(v, w);
    } else {
      assert p + VersionPart(v) == p && q + VersionPart(w) == q;
    }
  }

  /** Within an ecosystem, two packages have the same package URL exactly when their namespaces,
    names and versions are the same. */
  lemma PurlExactly(ecosystem: Ecosystem, package: Bytes, version: Bytes, package': Bytes, version': Bytes)
    ensures BuildPurl(ecosystem, package, version) == BuildPurl(ecosystem, package', version')
       <==> Split(ecosystem, package) == Split(ecosystem, package') && version == version'
  {
    var m, n := Split(ecosystem, package), Split(ecosystem, package');
    SplitBytes(ecosystem, package);
    SplitBytes(ecosystem, package');
    if BuildPurl(ecosystem, package, version) == BuildPurl(ecosystem, package', version') {
      var prefix := "pkg:" + PurlType(ecosystem) + "/";
      var x, y := Path(m) + VersionPart(version), Path(n) + VersionPart(version');
      assert x == (prefix + x)[|prefix|..] && y == (prefix + y)[|prefix|..];
      SlashInPath(m);
      SlashInPath(n);
      VersionedInjective(Path(m), version, Path(n), version');
      PathInjective(m, n);
    }
  }

  // ---------------------------------------------------- when names are told apart

  /** What a package name starts with when its namespace is empty. */
  function EmptyNamespace(ecosystem: Ecosystem): string {
    match ecosystem
    case Maven => ":"
    case Packagist => "/"
    case Npm => "@/"
    case _ => []
  }

  predicate HasNamespace(ecosystem: Ecosystem, package: string) {
    match ecosystem
    case Maven => ':' in package
    case Packagist => '/' in package
    case Npm => package != [] && package[0] == '@' && '/' in package[1..]
    case _ => false
  }

  /** Outside PyPI two different names are confused exactly when one is the other with an empty
    namespace in front, and the other has no namespace. */
  lemma NamesConfusedExactly(ecosystem: Ecosystem, package: Bytes, package': Bytes)
    requires !ecosystem.PyPI? && package != package'
    ensures Split(ecosystem, package) == Split(ecosystem, package') <==>
      EmptyNamespace(ecosystem) != []
      && ((package == EmptyNamespace(ecosystem) + package' && !HasNamespace(ecosystem, package'))
          || (package' == EmptyNamespace(ecosystem) + package && !HasNamespace(ecosystem, package)))
  {
    SplitShape(ecosystem, package);
    SplitShape(ecosystem, package');
    if HasNamespace(ecosystem, package) && !HasNamespace(ecosystem, package') {
      ConfusedWith(ecosystem, package, package');
    } else if !HasNamespace(ecosystem, package) && HasNamespace(ecosystem, package') {
      ConfusedWith(ecosystem, package', package);
    }
  }

  lemma ConfusedWith(ecosystem: Ecosystem, package: Bytes, plain: Bytes)
    requires !ecosystem.PyPI? && HasNamespace(ecosystem, package) && !HasNamespace(ecosystem, plain)
    ensures EmptyNamespace(ecosystem) != []
    ensures Split(ecosystem, package) == Split(ecosystem, plain) <==> package == EmptyNamespace(ecosystem) + plain
  {
    SplitShape(ecosystem, package);
    SplitShape(ecosystem, plain);
    var n := Split(ecosystem, package);
    if package == EmptyNamespace(ecosystem) + plain {
      var rest := package[|Lead(ecosystem)|..];
      assert rest == n.namespace + [Separator(ecosystem)] + n.name == [] + [Separator(ecosystem)] + plain;
      CutOnce(n.namespace, n.name, [], plain, Separator(ecosystem));
    }
  }

  /** A name is its namespace and name joined. */
  lemma SplitShape(ecosystem: Ecosystem, package: Bytes)
    requires !ecosystem.PyPI?
    ensures var n := Split(ecosystem, package);
      if !HasNamespace(ecosystem, package) then n == Named([], package)
      else
        && package == Lead(ecosystem) + n.namespace + [Separator(ecosystem)] + n.name
        && EmptyNamespace(ecosystem) == Lead(ecosystem) + [Separator(ecosystem)]
        && Separator(ecosystem) !in n.namespace
  {
    match ecosystem
    case Npm => NpmShape(package);
    case Maven => SplitFirstBytes(package, ':');
    case Packagist => SplitFirstBytes(package, '/');
    case _ =>
  }

  lemma NpmShape(package: Bytes)
    ensures var n := Split(Npm, package);
      if !HasNamespace(Npm, package) then n == Named([], package)
      else package == "@" + n.namespace + "/" + n.name && '/' !in n.namespace
  {
    if package != [] && package[0] == '@' {
      SplitFirstBytes(package[1..], '/');
      assert package == "@" + package[1..];
    }
  }

  lemma SameNormalChar(c: char, d: char)
    ensures NormalChar(c) == NormalChar(d) <==> SamePyPI(c, d)
  {
  }

  lemma {:induction false} NormalizedAt(name: string)
    ensures |NormalizePyPI(name)| == |name|
    ensures forall i :: 0 <= i < |name| ==> NormalizePyPI(name)[i] == NormalChar(name[i])
  {
    if name != [] {
      NormalizedAt(name[1..]);
    }
  }

  ghost predicate SameNames(a: string, b: string) {
    |a| == |b| && forall i :: 0 <= i < |a| ==> SamePyPI(a[i], b[i])
  }

  /** PyPI normalisation identifies names exactly when they agree, character by character, up to case and
    the choice of "_", "." and "-". */
  lemma NormalizedEqualExactly(a: string, b: string)
    ensures NormalizePyPI(a) == NormalizePyPI(b) <==> SameNames(a, b)
  {
    NormalizedAt(a);
    NormalizedAt(b);
    if SameNames(a, b) {
      forall i | 0 <= i < |a| ensures NormalizePyPI(a)[i] == NormalizePyPI(b)[i] {
        SameNormalChar(a[i], b[i]);
      }
    }
    if NormalizePyPI(a) == NormalizePyPI(b) {
      forall i | 0 <= i < |a| ensures SamePyPI(a[i], b[i]) {
        assert NormalizePyPI(a)[i] == NormalChar(a[i]) && NormalizePyPI(b)[i] == NormalChar(b[i]);
        SameNormalChar(a[i], b[i]);
      }
    }
  }

  predicate SamePyPI(c: char, d: char) {
    || c == d
    || ((c == '_' || c == '.' || c == '-') && (d == '_' || d == '.' || d == '-'))
    || ('A' <= c <= 'Z' && d as int == c as int + 32)
    || ('A' <= d <= 'Z' && c as int == d as int + 32)
  }

  /** The normalised name is in lower case, with "-" for "_" and ".". */
  lemma {:induction false} NormalizedIsLower(name: string)
    ensures forall c :: c in NormalizePyPI(name) ==> !('A' <= c <= 'Z') && c != '_' && c != '.'
    ensures |NormalizePyPI(name)| == |name|
  {
    if name != [] {
      NormalizedIsLower(name[1..]);
    }
  }

  function Lead(ecosystem: Ecosystem): string {
    if ecosystem.Npm? then "@" else []
  }

  function Separator(ecosystem: Ecosystem): char {
    if ecosystem.Maven? then ':' else '/'
  }

  /** Outside PyPI, package URLs tell apart all (name, version) pairs whose namespaces, where there
    are any, are not empty. */
  lemma PurlInjective(ecosystem: Ecosystem, package: Bytes, version: Bytes, package': Bytes, version': Bytes)
    requires !ecosystem.PyPI?
    requires HasNamespace(ecosystem, package) ==> Split(ecosystem, package).namespace != []
    requires HasNamespace(ecosystem, package') ==> Split(ecosystem, package').namespace != []
    requires BuildPurl(ecosystem, package, version) == BuildPurl(ecosystem, package', version')
    ensures package == package' && version == version'
  {
    PurlExactly(ecosystem, package, version, package', version');
    SplitShape(ecosystem, package);
    SplitShape(ecosystem, package');
  }

  // --------------------------------------------------------------- reading one back

  datatype Parsed = Parsed(kind: string, namespace: string, name: string, version: string)

  /** Namespace and name, with one "/" between if there is a namespace. */
  function ParsePath(path: string): Named {
    match SplitFirst(path, '/')
    case None => Named("", Unquote(path))
    case Some((namespace, name)) => Named(Unquote(namespace), Unquote(name))
  }

  /** What follows the type: the version is after the first "@". */
  function ParseRest(kind: string, rest: string): Parsed {
    match SplitFirst(rest, '@')
    case None => Parsed(kind, ParsePath(rest).namespace, ParsePath(rest).name, "")
    case Some((path, version)) => Parsed(kind, ParsePath(path).namespace, ParsePath(path).name, Unquote(version))
  }

  /** Reads a package URL without qualifiers and subpath; the type is before the first "/". */
  function Parse(url: string): Option<Parsed> {
    if !("pkg:" <= url) then None
    else
      match SplitFirst(url[4..], '/')
      case None => None
      case Some((kind, rest)) => Some(ParseRest(kind, rest))
  }

  lemma {:induction false} SplitFirstJoined(head: string, sep: char, tail: string)
    requires sep !in head
    ensures SplitFirst(head + [sep] + tail, sep) == Some((head, tail))
  {
    var s := head + [sep] + tail;
    if head == [] {
      assert s[1..] == tail;
    } else {
      assert s[1..] == head[1..] + [sep] + tail;
      SplitFirstJoined(head[1..], sep, tail);
      assert [head[0]] + head[1..] == head;
    }
  }

  lemma {:induction false} SplitFirstAbsent(s: string, sep: char)
    requires sep !in s
    ensures SplitFirst(s, sep) == None
  {
    if s != [] {
      SplitFirstAbsent(s[1..], sep);
    }
  }

  lemma SplitVersion(path: string, version: Bytes)
    requires '@' !in path
    ensures SplitFirst(path + VersionPart(version), '@')
         == if version == [] then None else Some((path, Quote(version)))
  {
    if version == [] {
      assert path + VersionPart(version) == path;
      SplitFirstAbsent(path, '@');
    } else {
      assert path + VersionPart(version) == path + ['@'] + Quote(version);
      SplitFirstJoined(path, '@', Quote(version));
    }
  }

  lemma SplitPath(n: Named)
    requires (forall c :: c in n.namespace || c in n.name ==> c as int < 256)
    ensures SplitFirst(Path(n), '/')
         == if n.namespace == [] then None else Some((Quote(n.namespace), Quote(n.name)))
    ensures '@' !in Path(n)
  {
    SlashInPath(n);
    QuoteCharacters(n.namespace);
    QuoteCharacters(n.name);
    if n.namespace == [] {
      SplitFirstAbsent(Path(n), '/');
    } else {
      assert Path(n) == Quote(n.namespace) + ['/'] + Quote(n.name);
      SplitFirstJoined(Quote(n.namespace), '/', Quote(n.name));
    }
  }

  /** A package URL reads back as the type of the ecosystem and the namespace, name and version of the
    package. */
  lemma PurlReadsBack(ecosystem: Ecosystem, package: Bytes, version: Bytes)
    requires '/' !in PurlType(ecosystem)
    ensures var n := Split(ecosystem, package);
      Parse(BuildPurl(ecosystem, package, version)) == Some(Parsed(PurlType(ecosystem), n.namespace, n.name, version))
  {
    var n, kind := Split(ecosystem, package), PurlType(ecosystem);
    SplitBytes(ecosystem, package);
    RestReadsBack(kind, n, version);
    PurlIs(ecosystem, package, version);
    UrlReads(kind, Path(n) + VersionPart(version));
  }

  lemma PurlIs(ecosystem: Ecosystem, package: Bytes, version: Bytes)
    requires var n := Split(ecosystem, package); forall c :: c in n.namespace || c in n.name ==> c as int < 256
    ensures BuildPurl(ecosystem, package, version)
         == "pkg:" + (PurlType(ecosystem) + ['/'] + (Path(Split(ecosystem, package)) + VersionPart(version)))
  {
  }

  lemma UrlReads(kind: string, rest: string)
    requires '/' !in kind
    ensures Parse("pkg:" + (kind + ['/'] + rest)) == Some(ParseRest(kind, rest))
  {
    PrefixReadsBack(kind + ['/'] + rest);
    SplitFirstJoined(kind, '/', rest);
  }

  lemma PrefixReadsBack(s: string)
    ensures "pkg:" <= "pkg:" + s && ("pkg:" + s)[4..] == s
  {
  }

  lemma RestReadsBack(kind: string, n: Named, version: Bytes)
    requires (forall c :: c in n.namespace || c in n.name ==> c as int < 256)
    ensures ParseRest(kind, Path(n) + VersionPart(version)) == Parsed(kind, n.namespace, n.name, version)
  {
    SplitPath(n);
    SplitVersion(Path(n), version);
    PathReadsBack(n);
    UnquoteQuote(version);
    if version == [] {
      assert Path(n) + VersionPart(version) == Path(n);
    }
  }

  lemma PathReadsBack(n: Named)
    requires (forall c :: c in n.namespace || c in n.name ==> c as int < 256)
    ensures ParsePath(Path(n)) == n
  {
    SplitPath(n);
    UnquoteQuote(n.namespace);
    UnquoteQuote(n.name);
  }

  /** The types of the listed ecosystems; another is its name in lower case. */
  lemma PurlTypes(name: string)
    ensures PurlType(PyPI) == "pypi" && PurlType(Npm) == "npm" && PurlType(Go) == "golang"
    ensures PurlType(Maven) == "maven" && PurlType(RubyGems) == "gem" && PurlType(NuGet) == "nuget"
    ensures PurlType(CratesIo) == "cargo" && PurlType(Packagist) == "composer"
    ensures PurlType(Hex) == "hex" && PurlType(Pub) == "pub"
    ensures |PurlType(Other(name))| == |name|
    ensures forall i :: 0 <= i < |name| ==>
      PurlType(Other(name))[i] == if 'A' <= name[i] <= 'Z' then (name[i] as int + 32) as char else name[i]
  {
    LowerAt(name);
  }

  lemma {:induction false} LowerAt(s: string)
    ensures |Lower(s)| == |s| && forall i :: 0 <= i < |s| ==> Lower(s)[i] == LowerChar(s[i])
  {
    if s != [] {
      LowerAt(s[1..]);
    }
  }

  /** Maven names have their namespace before the first ":", Packagist names before the first "/", npm
    names between a leading "@" and the first "/"; others have none. */
  lemma NamespacesExactly(package: Bytes)
    ensures var n := Split(Maven, package);
      if ':' in package then package == n.namespace + ":" + n.name && ':' !in n.namespace else n == Named("", package)
    ensures var n := Split(Packagist, package);
      if '/' in package then package == n.namespace + "/" + n.name && '/' !in n.namespace else n == Named("", package)
    ensures var n := Split(Npm, package);
      if package != [] && package[0] == '@' && '/' in package[1..]
      then package == "@" + n.namespace + "/" + n.name && '/' !in n.namespace else n == Named("", package)
    ensures Split(PyPI, package) == Named("", NormalizePyPI(package))
    ensures forall e: Ecosystem :: !e.Maven? && !e.Packagist? && !e.Npm? && !e.PyPI? ==>
      Split(e, package) == Named("", package)
  {
    NpmShape(package);
    SplitFirstBytes(package, ':');
    SplitFirstBytes(package, '/');
  }
}
