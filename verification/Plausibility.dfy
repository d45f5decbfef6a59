/** Which layout a token was meant for, judged by whether it looks like a word. */
module Plausibility {
  import opened Options
  import opened Text

  const MIN_LETTERS := 3
  const MIN_ADVANTAGE := 0.25
  const KEEP_THRESHOLD := 0.7

  datatype Script = Latin | Cyrillic | Greek | Armenian | Hebrew | Arabic | Other

  function ScriptOf(c: char): Script {
    var cp := c as int;
    if 0x41 <= cp <= 0x5A || 0x61 <= cp <= 0x7A || 0xC0 <= cp <= 0x24F then Latin
    else if 0x400 <= cp <= 0x52F then Cyrillic
    else if 0x370 <= cp <= 0x3FF then Greek
    else if 0x530 <= cp <= 0x58F then Armenian
    else if 0x590 <= cp <= 0x5FF then Hebrew
    else if 0x600 <= cp <= 0x6FF || 0x750 <= cp <= 0x77F || 0xFB50 <= cp <= 0xFDFF || 0xFE70 <= cp <= 0xFEFC then Arabic
    else Other
  }

  datatype Profile = Profile(script: Script, vowels: set<char>)

  type Profiles = map<string, Profile>

  // ---- How much a text looks like a word ----

  function Clamped(x: real): (r: real)
    ensures 0.0 <= r <= 1.0
  {
    if x < 0.0 then 0.0 else if x > 1.0 then 1.0 else x
  }

  function Larger(a: nat, b: nat): nat {
    if a >= b then a else b
  }

  function Share(part: nat, whole: nat): (r: real)
    requires part <= whole && whole > 0
    ensures 0.0 <= r <= 1.0
  {
    part as real / whole as real
  }

  /** Full marks from a quarter to two thirds, falling off on either side. */
  function VowelFit(ratio: real): (r: real)
    ensures 0.0 <= r <= 1.0
  {
    if 0.25 <= ratio <= 0.67 then 1.0
    else Clamped(1.0 - (if ratio >= 0.46 then ratio - 0.46 else 0.46 - ratio) * 2.5)
  }

  function ClusterPenalty(run: nat): real {
    if run <= 2 then 0.0 else if run == 3 then 0.25 else if run == 4 then 0.5 else 0.75
  }

  /** How many letters since the last vowel. */
  function TrailingRun(vowels: set<char>, s: string): (n: nat)
    ensures n <= |s|
  {
    if s == [] || s[|s| - 1] in vowels then 0 else 1 + TrailingRun(vowels, s[..|s| - 1])
  }

  function LongestRun(vowels: set<char>, s: string): (n: nat)
    ensures n <= |s|
  {
    if s == [] then 0 else Larger(LongestRun(vowels, s[..|s| - 1]), TrailingRun(vowels, s))
  }

  /** The `n` letters from position `i` hold no vowel. */
  predicate VowelFree(vowels: set<char>, s: string, i: nat, n: nat) {
    i + n <= |s| && forall k :: i <= k < i + n ==> s[k] !in vowels
  }

  lemma {:induction false} TrailingRunIsFree(vowels: set<char>, s: string)
    ensures VowelFree(vowels, s, |s| - TrailingRun(vowels, s), TrailingRun(vowels, s))
    ensures forall i: nat, n: nat :: VowelFree(vowels, s, i, n) && i + n == |s| ==> n <= TrailingRun(vowels, s)
  {
    if s != [] && s[|s| - 1] !in vowels {
      var init := s[..|s| - 1];
      TrailingRunIsFree(vowels, init);
      forall i: nat, n: nat | VowelFree(vowels, s, i, n) && i + n == |s| ensures n <= TrailingRun(vowels, s) {
        if n > 0 {
          assert VowelFree(vowels, init, i, n - 1);
        }
      }
    }
  }

  /** `n` letters in a row hold no vowel somewhere in `s`, and no more than `n` do anywhere. */
  ghost predicate IsLongestRun(vowels: set<char>, s: string, n: nat) {
    && (exists i: nat :: VowelFree(vowels, s, i, n))
    && (forall i: nat, m: nat :: VowelFree(vowels, s, i, m) ==> m <= n)
  }

  lemma {:induction false} LongestRunIsLongest(vowels: set<char>, s: string)
    ensures IsLongestRun(vowels, s, LongestRun(vowels, s))
  {
    if s == [] {
      assert VowelFree(vowels, s, 0, 0);
    } else {
      var init, n := s[..|s| - 1], LongestRun(vowels, s);
      LongestRunIsLongest(vowels, init);
      TrailingRunIsFree(vowels, s);
      var i: nat :| VowelFree(vowels, init, i, LongestRun(vowels, init));
      assert VowelFree(vowels, s, i, LongestRun(vowels, init));
      hide TrailingRun;
      forall i: nat, m: nat | VowelFree(vowels, s, i, m) ensures m <= n {
        if i + m < |s| {
          assert VowelFree(vowels, init, i, m);
        }
      }
    }
  }

  /** The word-shape score of a text, with no compound handling. */
  function Score(u: Unicode, prof: Profile, text: string): (r: real)
    ensures 0.0 <= r <= 1.0
  {
    var letters := LettersOf(u, text);
    if letters == [] then 0.0
    else
      var scriptFit := Share(Count(c => ScriptOf(c) == prof.script, letters), |letters|);
      var vowelFit := VowelFit(Share(Count(c => c in prof.vowels, letters), |letters|));
      Clamped(scriptFit * 0.5 + vowelFit * 0.5 - ClusterPenalty(LongestRun(prof.vowels, letters))
              - NonWordCharCount(u, text) as real * 0.4)
  }

  method ScoreText(u: Unicode, prof: Profile, text: string) returns (r: real)
    ensures r == Score(u, prof, text)
  {
    var letters := LettersOnlyLower(u, text);
    if letters == [] {
      return 0.0;
    }
    var scriptFit := Share(Count(c => ScriptOf(c) == prof.script, letters), |letters|);
    var vowelFit := VowelFit(Share(Count(c => c in prof.vowels, letters), |letters|));
    var longest := ConsonantRun(prof.vowels, letters);
    var strays := NonWordCharCount(u, text) as real * 0.4;
    return Clamped(scriptFit * 0.5 + vowelFit * 0.5 - ClusterPenalty(longest) - strays);
  }

  /** The longest run of letters that are no vowels, in one pass. */
  method ConsonantRun(vowels: set<char>, letters: string) returns (maxRun: nat)
    ensures IsLongestRun(vowels, letters, maxRun)
    ensures maxRun == LongestRun(vowels, letters)
  {
    maxRun := 0;
    var run := 0;
    for i := 0 to |letters|
      invariant run == TrailingRun(vowels, letters[..i])
      invariant Larger(maxRun, run) == LongestRun(vowels, letters[..i])
    {
      assert letters[..i + 1][..i] == letters[..i];
      if letters[i] in vowels {
        if run > maxRun {
          maxRun := run;
        }
        run := 0;
      } else {
        run := run + 1;
      }
    }
    assert letters[..|letters|] == letters;
    if run > maxRun {
      maxRun := run;
    }
    LongestRunIsLongest(vowels, letters);
  }

  /** The segments of a dot-separated compound that has no other stray in it. */
  function DottedCompound(u: Unicode, text: string): (r: Option<seq<string>>)
    ensures r.Some? ==> r.value != []
  {
    var segments := Split(Is('.'), text);
    if |segments| == 1 || NonWordCharCount(u, text) != Count(Is('.'), text) || HasEmpty(segments) then None
    else Some(segments)
  }

  function Worst(u: Unicode, prof: Profile, segments: seq<string>): (r: real)
    ensures 0.0 <= r <= 1.0
  {
    if segments == [] then 1.0
    else
      var rest, last := Worst(u, prof, segments[..|segments| - 1]), Score(u, prof, segments[|segments| - 1]);
      if last < rest then last else rest
  }

  /** The fit of a text to a layout: of a dotted compound, its worst segment's. */
  function Fit(u: Unicode, profiles: Profiles, layout: string, text: string): (r: Option<real>)
    ensures r.Some? <==> layout in profiles
    ensures r.Some? ==> 0.0 <= r.value <= 1.0
  {
    if layout !in profiles then None
    else if DottedCompound(u, text).Some? then Some(Worst(u, profiles[layout], DottedCompound(u, text).value))
    else Some(Score(u, profiles[layout], text))
  }

  /** No segment is worse than the worst, and some segment is that bad. */
  lemma {:induction false} WorstIsWorst(u: Unicode, prof: Profile, segments: seq<string>)
    ensures forall k :: 0 <= k < |segments| ==> Worst(u, prof, segments) <= Score(u, prof, segments[k])
    ensures segments != [] ==>
              exists k :: 0 <= k < |segments| && Worst(u, prof, segments) == Score(u, prof, segments[k])
  {
    hide Score;
    if segments != [] {
      var init, last := segments[..|segments| - 1], segments[|segments| - 1];
      WorstIsWorst(u, prof, init);
      if Score(u, prof, last) < Worst(u, prof, init) || init == [] {
        assert Worst(u, prof, segments) == Score(u, prof, segments[|segments| - 1]);
      } else {
        var k :| 0 <= k < |init| && Worst(u, prof, init) == Score(u, prof, init[k]);
        assert segments[k] == init[k];
      }
    }
  }

  method FitText(u: Unicode, profiles: Profiles, layout: string, text: string) returns (r: Option<real>)
    ensures r == Fit(u, profiles, layout, text)
  {
    hide Score;
    if layout !in profiles {
      return None;
    }
    var segments := DottedCompound(u, text);
    if segments.None? {
      var score := ScoreText(u, profiles[layout], text);
      return Some(score);
    }
    var worst := 1.0;
    for i := 0 to |segments.value|
      invariant worst == Worst(u, profiles[layout], segments.value[..i])
    {
      assert segments.value[..i + 1][..i] == segments.value[..i];
      var score := ScoreText(u, profiles[layout], segments.value[i]);
      worst := if score < worst then score else worst;
    }
    assert segments.value[..|segments.value|] == segments.value;
    return Some(worst);
  }

  // ---- One token, rendered through every candidate layout ----

  datatype Rendering = Rendering(layout: string, text: string)

  datatype Context = Context(current: string, candidates: seq<Rendering>)

  datatype Verdict = NoOpinion | Keep | Switch(layout: string, confidence: real)

  /** The first rendering through `layout`. */
  function TextFor(candidates: seq<Rendering>, layout: string): Option<string> {
    if candidates == [] then None
    else if candidates[0].layout == layout then Some(candidates[0].text)
    else TextFor(candidates[1..], layout)
  }

  function CurrentText(ctx: Context): string {
    var text := TextFor(ctx.candidates, ctx.current);
    if text.Some? then text.value else ""
  }

  function CurrentFit(u: Unicode, profiles: Profiles, ctx: Context): (r: real)
    ensures 0.0 <= r <= 1.0
  {
    var fit := Fit(u, profiles, ctx.current, CurrentText(ctx));
    if fit.Some? then fit.value else 0.0
  }

  predicate AnyLong(u: Unicode, ctx: Context) {
    exists k :: 0 <= k < |ctx.candidates| && LetterCount(u, ctx.candidates[k].text) >= MIN_LETTERS
  }

  /** Wholly letters of the layout's own abjad, whose words leave their vowels unwritten. */
  predicate AbjadInOwnScript(u: Unicode, profiles: Profiles, layout: string, text: string) {
    && layout in profiles
    && (profiles[layout].script.Arabic? || profiles[layout].script.Hebrew?)
    && NonWordCharCount(u, text) == 0
    && LetterCount(u, text) > 0
    && forall i :: 0 <= i < |text| && u.alphabetic(text[i]) ==> ScriptOf(text[i]) == profiles[layout].script
  }

  // ---- Comparing readings ----

  /** The fit of each candidate's reading, where it is one to compare with. */
  type Fits = seq<Option<real>>

  /** One of the first `n` is a reading. */
  predicate SomeReading(fits: Fits, n: nat)
    requires n <= |fits|
  {
    exists k :: 0 <= k < n && fits[k].Some?
  }

  predicate AllWithin(fits: Fits, n: nat, bound: real)
    requires n <= |fits|
  {
    forall k :: 0 <= k < n && fits[k].Some? ==> fits[k].value <= bound
  }

  predicate AllBelow(fits: Fits, n: nat, bound: real)
    requires n <= |fits|
  {
    forall k :: 0 <= k < n && fits[k].Some? ==> fits[k].value < bound
  }

  /** Reading `k` is the first of the best among the first `n`. */
  predicate FirstBest(fits: Fits, n: nat, k: nat)
    requires n <= |fits|
  {
    k < n && fits[k].Some? && AllWithin(fits, n, fits[k].value) && AllBelow(fits, k, fits[k].value)
  }

  lemma FirstBestSoFar(fits: Fits, n: nat, best: nat)
    requires n < |fits| && FirstBest(fits, n, best)
    ensures FirstBest(fits, n + 1, if fits[n].Some? && fits[n].value > fits[best].value then n else best)
  {
  }

  lemma FirstReading(fits: Fits, n: nat)
    requires n < |fits| && !SomeReading(fits, n)
    ensures if fits[n].Some? then FirstBest(fits, n + 1, n) else !SomeReading(fits, n + 1)
  {
  }

  // ---- The compound veto ----

  /** How well candidate `k`'s rendering of segment `i` fits, if it is a rival reading of it at all. */
  function RivalFit(u: Unicode, profiles: Profiles, ctx: Context, segments: seq<string>, i: nat, c: Rendering)
    : Option<real>
    requires i < |segments|
  {
    var pair := PairedSegments(CurrentText(ctx), c.text);
    if c.layout == ctx.current || pair.None? || i >= |pair.value.1| || pair.value.1[i] == segments[i] then None
    else Fit(u, profiles, c.layout, pair.value.1[i])
  }

  ghost function RivalFits(u: Unicode, profiles: Profiles, ctx: Context, segments: seq<string>, i: nat): (fits: Fits)
    requires i < |segments|
    ensures |fits| == |ctx.candidates|
    ensures forall k :: 0 <= k < |fits| ==> fits[k] == RivalFit(u, profiles, ctx, segments, i, ctx.candidates[k])
  {
    seq(|ctx.candidates|, k requires 0 <= k < |ctx.candidates| =>
        RivalFit(u, profiles, ctx, segments, i, ctx.candidates[k]))
  }

  /** Segment `i` may speak, somebody reads it differently, and nobody within the advantage as well. */
  ghost predicate VouchesAt(u: Unicode, profiles: Profiles, ctx: Context, segments: seq<string>, i: nat)
    requires i < |segments|
  {
    var here, rivals := Fit(u, profiles, ctx.current, segments[i]), RivalFits(u, profiles, ctx, segments, i);
    && SegmentVouches(u, segments[i])
    && here.Some?
    && SomeReading(rivals, |rivals|)
    && AllWithin(rivals, |rivals|, here.value - MIN_ADVANTAGE)
  }

  ghost predicate CompoundVeto(u: Unicode, profiles: Profiles, ctx: Context) {
    var segments := CompoundSegments(CurrentText(ctx));
    segments.Some? && exists i :: 0 <= i < |segments.value| && VouchesAt(u, profiles, ctx, segments.value, i)
  }

  method RivalFitOf(u: Unicode, profiles: Profiles, ctx: Context, segments: seq<string>, i: nat, c: Rendering)
    returns (fit: Option<real>)
    requires i < |segments|
    ensures fit == RivalFit(u, profiles, ctx, segments, i, c)
  {
    hide Fit, PairedSegments;
    var pair := PairedSegments(CurrentText(ctx), c.text);
    if c.layout == ctx.current || pair.None? || i >= |pair.value.1| || pair.value.1[i] == segments[i] {
      return None;
    }
    fit := FitText(u, profiles, c.layout, pair.value.1[i]);
  }

  /** Whether anybody reads segment `i` differently, and the best of those readings. */
  method BestRival(u: Unicode, profiles: Profiles, ctx: Context, segments: seq<string>, i: nat)
    returns (rivals: nat, best: real)
    requires i < |segments|
    ensures rivals > 0 <==> SomeReading(RivalFits(u, profiles, ctx, segments, i), |ctx.candidates|)
    ensures rivals > 0 ==> AllWithin(RivalFits(u, profiles, ctx, segments, i), |ctx.candidates|, best)
    ensures rivals > 0 ==> Some(best) in RivalFits(u, profiles, ctx, segments, i)
  {
    ghost var fits := RivalFits(u, profiles, ctx, segments, i);
    hide *;
    rivals, best := 0, 0.0;
    ghost var at := 0;
    NothingRead(fits);
    for k := 0 to |ctx.candidates|
      invariant rivals == 0 ==> !SomeReading(fits, k)
      invariant rivals > 0 ==> FirstBest(fits, k, at) && at < k && fits[at] == Some(best)
    {
      var fit := RivalFitOf(u, profiles, ctx, segments, i, ctx.candidates[k]);
      if rivals == 0 {
        FirstReading(fits, k);
      } else {
        FirstBestSoFar(fits, k, at);
      }
      if fit.Some? {
        if rivals == 0 || fit.value > best {
          best, at := fit.value, k;
        }
        rivals := rivals + 1;
      }
    }
    if rivals > 0 {
      BestIsRead(fits, at);
    }
  }

  lemma NothingRead(fits: Fits)
    ensures !SomeReading(fits, 0)
  {
  }

  lemma BestIsRead(fits: Fits, at: nat)
    requires FirstBest(fits, |fits|, at)
    ensures SomeReading(fits, |fits|) && AllWithin(fits, |fits|, fits[at].value) && fits[at] in fits
  {
  }

  method CompoundKeeps(u: Unicode, profiles: Profiles, ctx: Context) returns (keeps: bool)
    ensures keeps <==> CompoundVeto(u, profiles, ctx)
  {
    hide Fit, CurrentText, RivalFits, SegmentVouches, CompoundSegments, VouchesAt;
    var compound := CompoundSegments(CurrentText(ctx));
    if compound.None? {
      return false;
    }
    var segments := compound.value;
    for i := 0 to |segments|
      invariant forall k :: 0 <= k < i ==> !VouchesAt(u, profiles, ctx, segments, k)
    {
      var vouches := Vouches(u, profiles, ctx, segments, i);
      if vouches {
        return true;
      }
    }
    return false;
  }

  method Vouches(u: Unicode, profiles: Profiles, ctx: Context, segments: seq<string>, i: nat) returns (vouches: bool)
    requires i < |segments|
    ensures vouches <==> VouchesAt(u, profiles, ctx, segments, i)
  {
    hide Fit, RivalFits, SegmentVouches, SomeReading;
    if !SegmentVouches(u, segments[i]) {
      return false;
    }
    var here := FitText(u, profiles, ctx.current, segments[i]);
    if here.None? {
      return false;
    }
    var rivals, best := BestRival(u, profiles, ctx, segments, i);
    return rivals > 0 && here.value - best >= MIN_ADVANTAGE;
  }

  // ---- The verdict ----

  /** How well a candidate fits, if it is another layout at all. */
  function AlternateFit(u: Unicode, profiles: Profiles, ctx: Context, c: Rendering): Option<real> {
    if c.layout == ctx.current then None else Fit(u, profiles, c.layout, c.text)
  }

  ghost function AlternateFits(u: Unicode, profiles: Profiles, ctx: Context): (fits: Fits)
    ensures |fits| == |ctx.candidates|
    ensures forall k :: 0 <= k < |fits| ==> fits[k] == AlternateFit(u, profiles, ctx, ctx.candidates[k])
  {
    seq(|ctx.candidates|, k requires 0 <= k < |ctx.candidates| => AlternateFit(u, profiles, ctx, ctx.candidates[k]))
  }

  /** Candidate `k` is the first of the best-fitting other layouts, and leads the current one by enough. */
  ghost predicate Leads(u: Unicode, profiles: Profiles, ctx: Context, k: nat) {
    var fits := AlternateFits(u, profiles, ctx);
    FirstBest(fits, |fits|, k) && fits[k].value - CurrentFit(u, profiles, ctx) >= MIN_ADVANTAGE
  }

  ghost predicate SomeoneLeads(u: Unicode, profiles: Profiles, ctx: Context) {
    exists k: nat :: Leads(u, profiles, ctx, k)
  }

  /** What was typed may stand, whatever the other layouts make of it. */
  ghost predicate ReadsWellAsTyped(u: Unicode, profiles: Profiles, ctx: Context) {
    || LooksLikeAcronym(u, CurrentText(ctx))
    || AbjadInOwnScript(u, profiles, ctx.current, CurrentText(ctx))
    || CurrentFit(u, profiles, ctx) >= KEEP_THRESHOLD
  }

  /** A switch goes to the leader, and says how well it fits. */
  ghost predicate LeaderIs(u: Unicode, profiles: Profiles, ctx: Context, layout: string, confidence: real) {
    exists k: nat :: k < |ctx.candidates| && Leads(u, profiles, ctx, k) && layout == ctx.candidates[k].layout
                     && AlternateFit(u, profiles, ctx, ctx.candidates[k]) == Some(confidence)
  }

  /** The verdict, by what each one means. */
  ghost predicate IsVerdict(u: Unicode, profiles: Profiles, ctx: Context, v: Verdict) {
    match v
    case Keep =>
      && AnyLong(u, ctx)
      && (ReadsWellAsTyped(u, profiles, ctx) || (SomeoneLeads(u, profiles, ctx) && CompoundVeto(u, profiles, ctx)))
    case Switch(layout, confidence) =>
      && AnyLong(u, ctx)
      && !ReadsWellAsTyped(u, profiles, ctx)
      && LeaderIs(u, profiles, ctx, layout, confidence)
      && !CompoundVeto(u, profiles, ctx)
    case NoOpinion =>
      AnyLong(u, ctx) ==> !ReadsWellAsTyped(u, profiles, ctx) && !SomeoneLeads(u, profiles, ctx)
  }

  /** The first of the best-fitting other layouts. */
  method BestAlternate(u: Unicode, profiles: Profiles, ctx: Context) returns (best: Option<(nat, real)>)
    ensures best.None? ==> !SomeReading(AlternateFits(u, profiles, ctx), |ctx.candidates|)
    ensures best.Some? ==> FirstBest(AlternateFits(u, profiles, ctx), |ctx.candidates|, best.value.0)
    ensures best.Some? ==> AlternateFits(u, profiles, ctx)[best.value.0] == Some(best.value.1)
  {
    ghost var fits := AlternateFits(u, profiles, ctx);
    best := None;
    for k := 0 to |ctx.candidates|
      invariant best.None? ==> !SomeReading(fits, k)
      invariant best.Some? ==> FirstBest(fits, k, best.value.0) && fits[best.value.0] == Some(best.value.1)
    {
      hide AlternateFits, Fit, FirstBest, SomeReading;
      var c := ctx.candidates[k];
      if best.None? {
        FirstReading(fits, k);
      } else {
        FirstBestSoFar(fits, k, best.value.0);
      }
      if c.layout == ctx.current {
        continue;
      }
      var fit := FitText(u, profiles, c.layout, c.text);
      if fit.Some? && (best.None? || fit.value > best.value.1) {
        best := Some((k, fit.value));
      }
    }
  }

  lemma NobodyLeads(u: Unicode, profiles: Profiles, ctx: Context)
    requires !SomeReading(AlternateFits(u, profiles, ctx), |ctx.candidates|)
    ensures !SomeoneLeads(u, profiles, ctx)
  {
    hide AlternateFits, CurrentFit, AllWithin, AllBelow;
  }

  /** Only one candidate can lead. */
  lemma OneLeader(u: Unicode, profiles: Profiles, ctx: Context, k: nat)
    requires FirstBest(AlternateFits(u, profiles, ctx), |ctx.candidates|, k)
    ensures forall j: nat :: Leads(u, profiles, ctx, j) ==> j == k
  {
    forall j: nat | Leads(u, profiles, ctx, j) ensures j == k {
      FirstBestIsOnce(AlternateFits(u, profiles, ctx), j, k);
    }
  }

  lemma FirstBestIsOnce(fits: Fits, j: nat, k: nat)
    requires FirstBest(fits, |fits|, j) && FirstBest(fits, |fits|, k)
    ensures j == k
  {
  }

  method Judge(u: Unicode, profiles: Profiles, ctx: Context) returns (v: Verdict)
    ensures IsVerdict(u, profiles, ctx, v)
  {
    hide Fit, CurrentText, LooksLikeAcronym, AbjadInOwnScript, CompoundVeto, AlternateFits, AlternateFit, AnyLong;
    if !AnyLong(u, ctx) {
      return NoOpinion;
    }
    var current := CurrentText(ctx);
    var fit := FitText(u, profiles, ctx.current, current);
    var currentFit := if fit.Some? then fit.value else 0.0;
    if LooksLikeAcronym(u, current) {
      return Keep;
    }
    if AbjadInOwnScript(u, profiles, ctx.current, current) {
      return Keep;
    }
    if currentFit >= KEEP_THRESHOLD {
      return Keep;
    }
    var best := BestAlternate(u, profiles, ctx);
    if best.None? {
      NobodyLeads(u, profiles, ctx);
      return NoOpinion;
    }
    var (target, targetFit) := best.value;
    OneLeader(u, profiles, ctx, target);
    if targetFit - currentFit < MIN_ADVANTAGE {
      return NoOpinion;
    }
    assert Leads(u, profiles, ctx, target);
    var keeps := CompoundKeeps(u, profiles, ctx);
    if keeps {
      return Keep;
    }
    return Switch(ctx.candidates[target].layout, targetFit);
  }

  // ---- What follows for every token ----

  /** The meaning of the verdicts leaves exactly one of them for each token. */
  lemma VerdictIsUnique(u: Unicode, profiles: Profiles, ctx: Context, v: Verdict, w: Verdict)
    requires IsVerdict(u, profiles, ctx, v) && IsVerdict(u, profiles, ctx, w)
    ensures v == w
  {
    hide AnyLong, ReadsWellAsTyped, CompoundVeto, Leads, AlternateFit;
    if v.Switch? && w.Switch? {
      var j: nat :| j < |ctx.candidates| && Leads(u, profiles, ctx, j) && v.layout == ctx.candidates[j].layout
                    && AlternateFit(u, profiles, ctx, ctx.candidates[j]) == Some(v.confidence);
      LeaderStands(u, profiles, ctx, j);
      OneLeader(u, profiles, ctx, j);
    }
  }

  lemma LeaderStands(u: Unicode, profiles: Profiles, ctx: Context, k: nat)
    requires Leads(u, profiles, ctx, k)
    ensures FirstBest(AlternateFits(u, profiles, ctx), |ctx.candidates|, k)
  {
  }

  /** A text that reads as typed has no stray, no run of four consonants, and some letter. */
  lemma WellFormedEnough(u: Unicode, prof: Profile, text: string)
    requires Score(u, prof, text) >= KEEP_THRESHOLD
    ensures NonWordCharCount(u, text) == 0 && LettersOf(u, text) != []
    ensures forall i: nat :: !VowelFree(prof.vowels, LettersOf(u, text), i, 4)
  {
    hide NonWordCharCount, VowelFit, Share, Count, LongestRun, LettersOf;
    LongestRunIsLongest(prof.vowels, LettersOf(u, text));
    assert NonWordCharCount(u, text) as real * 0.4 <= 0.3;
    assert LongestRun(prof.vowels, LettersOf(u, text)) <= 3;
  }

  ghost predicate DistinctLayouts(candidates: seq<Rendering>) {
    forall i, j :: 0 <= i < j < |candidates| ==> candidates[i].layout != candidates[j].layout
  }

  lemma {:induction false} TextForAt(candidates: seq<Rendering>, k: nat)
    requires k < |candidates| && DistinctLayouts(candidates)
    ensures TextFor(candidates, candidates[k].layout) == Some(candidates[k].text)
  {
    if k > 0 {
      assert candidates[0].layout != candidates[k].layout;
      TextForAt(candidates[1..], k - 1);
    }
  }

  /** A candidate's fit does not depend on which layout is current, nor on its being the current one. */
  lemma FitOfCandidate(u: Unicode, profiles: Profiles, ctx: Context, k: nat)
    requires k < |ctx.candidates| && DistinctLayouts(ctx.candidates)
    ensures var c := ctx.candidates[k];
            var fit := Fit(u, profiles, c.layout, c.text);
            && (c.layout == ctx.current ==> CurrentFit(u, profiles, ctx) == if fit.Some? then fit.value else 0.0)
            && (c.layout != ctx.current ==> AlternateFit(u, profiles, ctx, c) == fit)
  {
    hide Fit;
    TextForAt(ctx.candidates, k);
  }

  /** After a switch the same keys give no reason for another one, back or onward. */
  lemma SwitchIsStable(u: Unicode, profiles: Profiles, ctx: Context, layout: string, confidence: real, v: Verdict)
    requires DistinctLayouts(ctx.candidates)
    requires IsVerdict(u, profiles, ctx, Switch(layout, confidence))
    requires IsVerdict(u, profiles, ctx.(current := layout), v)
    ensures !v.Switch?
  {
    hide AnyLong, ReadsWellAsTyped, CompoundVeto, Leads, AlternateFit, Fit, CurrentFit;
    var after := ctx.(current := layout);
    var k: nat :| k < |ctx.candidates| && Leads(u, profiles, ctx, k) && layout == ctx.candidates[k].layout
                  && AlternateFit(u, profiles, ctx, ctx.candidates[k]) == Some(confidence);
    forall j: nat ensures !Leads(u, profiles, after, j) {
      NoOtherLead(u, profiles, ctx, k, j);
    }
  }

  lemma NoOtherLead(u: Unicode, profiles: Profiles, ctx: Context, k: nat, j: nat)
    requires DistinctLayouts(ctx.candidates)
    requires Leads(u, profiles, ctx, k)
    ensures !Leads(u, profiles, ctx.(current := ctx.candidates[k].layout), j)
  {
    hide Fit, CurrentFit, DistinctLayouts;
    var after := ctx.(current := ctx.candidates[k].layout);
    if j < |ctx.candidates| {
      FitOfCandidate(u, profiles, ctx, k);
      FitOfCandidate(u, profiles, after, k);
      FitOfCandidate(u, profiles, ctx, j);
      FitOfCandidate(u, profiles, after, j);
    }
  }
}
