/** What being newer means, in the terms of section 11 of Semantic Versioning 2.0.0. */
module Precedence {
  import opened Options
  import opened Ordering
  import opened Strings
  import opened TextOrder
  import opened Versions

  // ---- Which part decides ----

  /** Major, minor and patch are compared as numbers, the first that differs decides; builds come last. */
  lemma NumbersDecide(lib: Library, a: Version, b: Version)
    ensures a == b.(build := a.build) ==> (VersionLess(lib, a, b) <==> lib.buildLess(a.build, b.build))
    ensures a.major < b.major ==> VersionLess(lib, a, b)
    ensures a.major == b.major && a.minor < b.minor ==> VersionLess(lib, a, b)
    ensures a.major == b.major && a.minor == b.minor && a.patch < b.patch ==> VersionLess(lib, a, b)
  {
    hide PreLess;
  }

  ghost predicate SameNumbers(a: Version, b: Version) {
    a.major == b.major && a.minor == b.minor && a.patch == b.patch
  }

  /** `x` ends at `k`, or has the lower identifier there, and the two agree before it. */
  ghost predicate PartAtIdentifier(x: seq<Identifier>, y: seq<Identifier>, k: nat) {
    k <= |x| && k < |y| && x[..k] == y[..k] && (k == |x| || LowerIdentifier(x[k], y[k]))
  }

  /** Numbers by value, numbers below everything else, everything else by its characters. */
  ghost predicate LowerIdentifier(x: Identifier, y: Identifier) {
    || (x.Numeric? && y.Numeric? && x.value < y.value)
    || (x.Numeric? && y.Alphanumeric?)
    || (x.Alphanumeric? && y.Alphanumeric? && Precedes(x.text, y.text))
  }

  lemma IdentifierLessIff(x: Identifier, y: Identifier)
    ensures IdentifierLess(x, y) <==> LowerIdentifier(x, y)
  {
    if x.Alphanumeric? && y.Alphanumeric? {
      TextLessIff(x.text, y.text);
    }
    hide TextLess, Precedes;
  }

  lemma {:induction false} ListLessIff(x: seq<Identifier>, y: seq<Identifier>)
    ensures ListLess(x, y) <==> exists k: nat :: PartAtIdentifier(x, y, k)
  {
    hide LowerIdentifier, IdentifierLess;
    if x == [] && y != [] {
      assert PartAtIdentifier(x, y, 0);
    } else if x != [] && y != [] {
      IdentifierLessIff(x[0], y[0]);
      NotBelowItself(x[0]);
      if x[0] == y[0] {
        ListLessIff(x[1..], y[1..]);
        forall k: nat ensures PartAtIdentifier(x[1..], y[1..], k) <==> PartAtIdentifier(x, y, k + 1) {
          IdentifiersPartLater(x, y, k);
        }
        if ListLess(x, y) {
          var k: nat :| PartAtIdentifier(x[1..], y[1..], k);
          assert PartAtIdentifier(x, y, k + 1);
        }
        if exists k: nat :: PartAtIdentifier(x, y, k) {
          var k: nat :| PartAtIdentifier(x, y, k);
          assert PartAtIdentifier(x[1..], y[1..], k - 1);
        }
      } else {
        if IdentifierLess(x[0], y[0]) {
          assert PartAtIdentifier(x, y, 0);
        }
        forall k: nat ensures PartAtIdentifier(x, y, k) ==> k == 0 || x[0] == y[0] {
          PartAfterFirst(x, y, k);
        }
      }
    }
  }

  lemma PartAfterFirst(x: seq<Identifier>, y: seq<Identifier>, k: nat)
    requires x != [] && y != []
    ensures PartAtIdentifier(x, y, k) ==> k == 0 || x[0] == y[0]
  {
    hide LowerIdentifier;
    if PartAtIdentifier(x, y, k) && k > 0 {
      assert x[0] == x[..k][0] && y[0] == y[..k][0];
    }
  }

  lemma NotBelowItself(x: Identifier)
    ensures !LowerIdentifier(x, x)
  {
    IdentifierLessIff(x, x);
    IdentifierLessIsTotal();
  }

  lemma IdentifiersPartLater(x: seq<Identifier>, y: seq<Identifier>, k: nat)
    requires x != [] && y != [] && x[0] == y[0]
    ensures PartAtIdentifier(x[1..], y[1..], k) <==> PartAtIdentifier(x, y, k + 1)
  {
    hide LowerIdentifier;
    if k <= |x| - 1 && k < |y| - 1 {
      assert x[..k + 1] == [x[0]] + x[1..][..k] && y[..k + 1] == [y[0]] + y[1..][..k];
      assert x[1..][..k] == x[..k + 1][1..] && y[1..][..k] == y[..k + 1][1..];
    }
  }

  /**
   * Under the same numbers a pre-release is below its release, and of two pre-releases that one is lower
   * whose identifiers end first or are lower where the two part.
   */
  lemma IdentifiersDecide(lib: Library, a: Version, b: Version)
    requires SameNumbers(a, b) && a.pre != b.pre
    ensures VersionLess(lib, a, b)
       <==> if b.pre == [] then true
            else a.pre != [] && exists k: nat :: PartAtIdentifier(a.pre, b.pre, k)
  {
    ListLessIff(a.pre, b.pre);
    hide ListLess, PartAtIdentifier;
  }

  // ---- The standard's own examples ----

  function Plain(major: nat, minor: nat, patch: nat): Version {
    Version(major, minor, patch, [], "")
  }

  function Pre(ids: seq<Identifier>): Version {
    Version(1, 0, 0, ids, "")
  }

  /** The example of the section's rule for numbers. */
  lemma ReleasesInOrder(lib: Library)
    ensures VersionLess(lib, Plain(1, 0, 0), Plain(2, 0, 0))
    ensures VersionLess(lib, Plain(2, 0, 0), Plain(2, 1, 0))
    ensures VersionLess(lib, Plain(2, 1, 0), Plain(2, 1, 1))
  {
    NumbersDecide(lib, Plain(1, 0, 0), Plain(2, 0, 0));
    NumbersDecide(lib, Plain(2, 0, 0), Plain(2, 1, 0));
    NumbersDecide(lib, Plain(2, 1, 0), Plain(2, 1, 1));
  }

  const ALPHA := Alphanumeric("alpha")
  const BETA := Alphanumeric("beta")
  const RC := Alphanumeric("rc")

  /** The example of its rule for pre-releases, in order, with its release at the end. */
  function Candidates(): seq<seq<Identifier>> {
    [[ALPHA], [ALPHA, Numeric(1)], [ALPHA, BETA], [BETA], [BETA, Numeric(2)], [BETA, Numeric(11)], [RC, Numeric(1)], []]
  }

  lemma CandidatesInOrder(lib: Library, i: nat)
    requires i + 1 < |Candidates()|
    ensures VersionLess(lib, Pre(Candidates()[i]), Pre(Candidates()[i + 1]))
  {
    var x, y := Candidates()[i], Candidates()[i + 1];
    NamesInOrder();
    if i + 2 < |Candidates()| {
      PartsThere(x, y, if i == 2 || i == 5 then 0 else 1);
    }
    IdentifiersDecide(lib, Pre(x), Pre(y));
  }

  lemma PartsThere(x: seq<Identifier>, y: seq<Identifier>, k: nat)
    requires k <= |x| && k < |y| && k <= 1 && (k == 1 ==> x[0] == y[0])
    requires k == |x| || LowerIdentifier(x[k], y[k])
    ensures PartAtIdentifier(x, y, k)
  {
    hide LowerIdentifier;
    if k == 1 {
      assert x[..1] == [x[0]] && y[..1] == [y[0]];
    }
  }

  lemma NamesInOrder()
    ensures Precedes("alpha", "beta") && Precedes("beta", "rc")
    ensures ALPHA != BETA && BETA != RC && ALPHA != RC
  {
    assert "alpha"[0] == 'a' && "beta"[0] == 'b' && "rc"[0] == 'r';
    assert PartAt("alpha", "beta", 0) && PartAt("beta", "rc", 0);
  }

  // ---- Reading a version ----

  /** Space around a version and any number of `v`s before it change nothing. */
  lemma PrefixesAreIgnored(lib: Library, before: string, vs: nat, text: string, after: string)
    requires text != "" && text[0] != 'v' && !lib.whitespace(text[0]) && !lib.whitespace(text[|text| - 1])
    requires !lib.whitespace('v')
    requires forall c :: c in before || c in after ==> lib.whitespace(c)
    ensures Parse(lib, before + seq(vs, _ => 'v') + text + after) == lib.parse(text)
  {
    var core := seq(vs, _ => 'v') + text;
    assert before + seq(vs, _ => 'v') + text + after == before + core + after;
    assert core[|core| - 1] == text[|text| - 1] && core[0] == if vs > 0 then 'v' else text[0];
    hide TrimStart, TrimEnd;
    StartGoes(lib.whitespace, before, core + after);
    assert before + core + after == before + (core + after);
    EndGoes(lib.whitespace, core, after);
    StartGoes(c => c == 'v', seq(vs, _ => 'v'), text);
  }

  lemma {:induction false} StartGoes(p: char -> bool, before: string, core: string)
    requires core != "" && !p(core[0]) && forall c :: c in before ==> p(c)
    ensures TrimStart(p, before + core) == core
  {
    if before == "" {
      assert before + core == core;
    } else {
      assert before[0] in before && forall c :: c in before[1..] ==> c in before;
      StartGoes(p, before[1..], core);
      assert (before + core)[1..] == before[1..] + core;
    }
  }

  lemma {:induction false} EndGoes(p: char -> bool, core: string, after: string)
    requires core != "" && !p(core[|core| - 1]) && forall c :: c in after ==> p(c)
    ensures TrimEnd(p, core + after) == core
  {
    if after == "" {
      assert core + after == core;
    } else {
      var init := after[..|after| - 1];
      assert after[|after| - 1] in after && forall c :: c in init ==> c in after;
      EndGoes(p, core, init);
      assert (core + after)[..|core + after| - 1] == core + init;
    }
  }
}
