/** Release versions and their order: section 11 of Semantic Versioning 2.0.0. */
module Versions {
  import opened Options
  import opened Ordering
  import opened Strings

  datatype Identifier = Numeric(value: nat) | Alphanumeric(text: string)

  /** A parsed version; a release has no pre-release identifiers. */
  datatype Version = Version(major: nat, minor: nat, patch: nat, pre: seq<Identifier>, build: string)

  /** What is left to the library: its grammar, and how it orders build metadata. */
  datatype Library = Library(
    whitespace: char -> bool,
    parse: string -> Option<Version>,
    buildLess: (string, string) -> bool
  )

  // ---- Precedence ----

  /** Numbers by value and below text, text by its characters. */
  predicate IdentifierLess(a: Identifier, b: Identifier) {
    match (a, b)
    case (Numeric(m), Numeric(n)) => m < n
    case (Numeric(_), Alphanumeric(_)) => true
    case (Alphanumeric(_), Numeric(_)) => false
    case (Alphanumeric(s), Alphanumeric(t)) => TextLess(s, t)
  }

  /** Identifier by identifier; of two lists that agree so far the longer one is higher. */
  predicate ListLess(a: seq<Identifier>, b: seq<Identifier>) {
    if b == [] then false
    else if a == [] then true
    else if a[0] != b[0] then IdentifierLess(a[0], b[0])
    else ListLess(a[1..], b[1..])
  }

  /** A pre-release is below its release. */
  predicate PreLess(a: seq<Identifier>, b: seq<Identifier>) {
    a != [] && (b == [] || ListLess(a, b))
  }

  predicate VersionLess(lib: Library, a: Version, b: Version) {
    if a.major != b.major then a.major < b.major
    else if a.minor != b.minor then a.minor < b.minor
    else if a.patch != b.patch then a.patch < b.patch
    else if a.pre != b.pre then PreLess(a.pre, b.pre)
    else lib.buildLess(a.build, b.build)
  }

  lemma IdentifierLessIsTotal()
    ensures StrictTotalOrder(IdentifierLess)
  {
    TextLessIsTotal();
    hide TextLess;
  }

  lemma {:induction false} ListLessIrreflexive(a: seq<Identifier>)
    ensures !ListLess(a, a)
  {
    if a != [] {
      ListLessIrreflexive(a[1..]);
    }
  }

  lemma {:induction false} ListLessTransitive(a: seq<Identifier>, b: seq<Identifier>, c: seq<Identifier>)
    requires ListLess(a, b) && ListLess(b, c)
    ensures ListLess(a, c)
  {
    if a != [] {
      IdentifierLessIsTotal();
      hide IdentifierLess;
      if a[0] == b[0] == c[0] {
        ListLessTransitive(a[1..], b[1..], c[1..]);
      }
    }
  }

  lemma {:induction false} ListLessTrichotomous(a: seq<Identifier>, b: seq<Identifier>)
    ensures a == b || ListLess(a, b) || ListLess(b, a)
  {
    if a != [] && b != [] {
      IdentifierLessIsTotal();
      hide IdentifierLess;
      if a[0] == b[0] {
        ListLessTrichotomous(a[1..], b[1..]);
        assert a == [a[0]] + a[1..] && b == [b[0]] + b[1..];
      }
    }
  }

  lemma PreLessIsTotal()
    ensures StrictTotalOrder(PreLess)
  {
    hide ListLess;
    forall a: seq<Identifier> ensures !PreLess(a, a) {
      ListLessIrreflexive(a);
    }
    forall a: seq<Identifier>, b: seq<Identifier>, c: seq<Identifier> | PreLess(a, b) && PreLess(b, c)
      ensures PreLess(a, c)
    {
      if c != [] {
        ListLessTransitive(a, b, c);
      }
    }
    forall a: seq<Identifier>, b: seq<Identifier> ensures a == b || PreLess(a, b) || PreLess(b, a) {
      ListLessTrichotomous(a, b);
    }
  }

  lemma PrecedenceLaws(lib: Library, a: Version, b: Version, c: Version)
    requires StrictTotalOrder(lib.buildLess)
    ensures !VersionLess(lib, a, a)
    ensures VersionLess(lib, a, b) && VersionLess(lib, b, c) ==> VersionLess(lib, a, c)
    ensures a == b || VersionLess(lib, a, b) || VersionLess(lib, b, a)
  {
    PreLessIsTotal();
    hide PreLess;
  }

  /** Precedence is a strict total order, whatever total order breaks ties between builds. */
  lemma PrecedenceIsTotal(lib: Library)
    requires StrictTotalOrder(lib.buildLess)
    ensures StrictTotalOrder((a, b) => VersionLess(lib, a, b))
  {
    forall a: Version, b: Version, c: Version
      ensures !VersionLess(lib, a, a)
      ensures VersionLess(lib, a, b) && VersionLess(lib, b, c) ==> VersionLess(lib, a, c)
      ensures a == b || VersionLess(lib, a, b) || VersionLess(lib, b, a)
    {
      PrecedenceLaws(lib, a, b, c);
    }
    hide VersionLess;
  }

  // ---- Is it newer? ----

  /** Surrounding whitespace and any number of leading `v`s are tolerated. */
  function Parse(lib: Library, v: string): Option<Version> {
    lib.parse(TrimStart(c => c == 'v', Trim(lib.whitespace, v)))
  }

  /** Is `candidate` a version to move to from `current`? None when either does not parse. */
  function IsNewer(lib: Library, candidate: string, current: string): Option<bool> {
    match (Parse(lib, candidate), Parse(lib, current))
    case (Some(a), Some(b)) => Some(VersionLess(lib, b, a))
    case _ => None
  }

  /** Nothing between: what is not below a newer version is newer too. */
  lemma NewerThroughKept(lib: Library, current: string, manifest: string, kept: string)
    requires StrictTotalOrder(lib.buildLess)
    requires IsNewer(lib, manifest, current) == Some(true)
    requires IsNewer(lib, manifest, kept) == Some(false)
    ensures IsNewer(lib, kept, current) == Some(true)
  {
    var c, m, k := Parse(lib, current).value, Parse(lib, manifest).value, Parse(lib, kept).value;
    PrecedenceLaws(lib, c, m, k);
    PrecedenceLaws(lib, m, k, c);
    hide VersionLess, Parse;
  }

  lemma NewerIsTransitive(lib: Library, a: string, b: string, c: string)
    requires StrictTotalOrder(lib.buildLess)
    requires IsNewer(lib, b, a) == Some(true) && IsNewer(lib, c, b) == Some(true)
    ensures IsNewer(lib, c, a) == Some(true)
    ensures IsNewer(lib, a, b) == Some(false)
  {
    var x, y, z := Parse(lib, a).value, Parse(lib, b).value, Parse(lib, c).value;
    PrecedenceLaws(lib, x, y, z);
    PrecedenceLaws(lib, x, y, x);
    hide VersionLess, Parse;
  }

  /** A release candidate is offered its final release, and nobody on a release goes back to one. */
  lemma FinalSupersedesCandidate(lib: Library, candidate: Version, final: Version)
    requires candidate.pre != [] && final.pre == []
    requires (candidate.major, candidate.minor, candidate.patch) == (final.major, final.minor, final.patch)
    ensures VersionLess(lib, candidate, final) && !VersionLess(lib, final, candidate)
  {
  }
}
