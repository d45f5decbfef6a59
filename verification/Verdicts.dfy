/** What the verdicts on a token say of its letters, in numbers. */
module Verdicts {
  import opened Options
  import opened Strings
  import opened Text
  import opened TokenShape
  import opened Plausibility

  // ---- Dotted tokens ----

  /** A dotted token is two or more pieces around dots, each with nothing but letters and marks, and none empty. */
  lemma DottedIff(u: Unicode, text: string, pieces: seq<string>)
    requires !u.alphabetic('.')
    ensures DottedCompound(u, text) == Some(pieces)
       <==> |pieces| >= 2 && Join('.', pieces) == text
            && forall k :: 0 <= k < |pieces| ==>
                 pieces[k] != "" && '.' !in pieces[k] && forall c :: c in pieces[k] ==> OfWord(u, c)
  {
    var split := Split(Is('.'), text);
    SplitJoins('.', text);
    OnlyDotsIff(u, text);
    JoinedChars('.', split);
    hide Split, Join, OfWord, NonWordCharCount, Count;
    if |pieces| >= 2 && Join('.', pieces) == text && forall k :: 0 <= k < |pieces| ==> '.' !in pieces[k] {
      forall k | 0 <= k < |pieces| ensures NoneOf(Is('.'), pieces[k]) {
        assert forall i :: 0 <= i < |pieces[k]| ==> pieces[k][i] in pieces[k];
      }
      JoinSplits(Is('.'), '.', pieces);
    }
  }

  /** The strays of a text are its dots exactly when everything else is of a word. */
  lemma OnlyDotsIff(u: Unicode, text: string)
    requires !u.alphabetic('.')
    ensures NonWordCharCount(u, text) == Count(Is('.'), text)
       <==> forall c :: c in text ==> c == '.' || OfWord(u, c)
  {
    var stray := (c: char) => !u.alphabetic(c) && !IsApostrophe(c) && c != '-';
    CountsAgreeIff(Is('.'), stray, text);
    forall c: char ensures stray(c) <==> !OfWord(u, c) {
      StrayIs(u, c);
    }
    hide OfWord, IsApostrophe, Count;
    assert forall k :: 0 <= k < |text| ==> text[k] in text;
  }

  lemma {:induction false} JoinedChars(sep: char, pieces: seq<string>)
    requires pieces != []
    ensures forall c :: c in Join(sep, pieces) ==> c == sep || exists k :: 0 <= k < |pieces| && c in pieces[k]
    ensures forall k, c :: 0 <= k < |pieces| && c in pieces[k] ==> c in Join(sep, pieces)
  {
    if |pieces| > 1 {
      var rest := pieces[1..];
      JoinedChars(sep, rest);
      forall c | c in Join(sep, pieces) ensures c == sep || exists k :: 0 <= k < |pieces| && c in pieces[k] {
        if c in Join(sep, rest) && c != sep {
          var k :| 0 <= k < |rest| && c in rest[k];
          assert c in pieces[k + 1];
        } else if c != sep {
          assert c in pieces[0];
        }
      }
      forall k, c | 0 <= k < |pieces| && c in pieces[k] ensures c in Join(sep, pieces) {
        assert k > 0 ==> rest[k - 1] == pieces[k];
      }
    } else {
      assert pieces[0] == Join(sep, pieces);
    }
  }

  // ---- Abjads ----

  /** A text in its own abjad has some letter, and all its characters are letters of the abjad or marks. */
  lemma AbjadIff(u: Unicode, profiles: Profiles, layout: string, text: string)
    ensures AbjadInOwnScript(u, profiles, layout, text)
       <==> layout in profiles && profiles[layout].script in {Arabic, Hebrew}
            && (exists c :: c in text && u.alphabetic(c))
            && forall c :: c in text ==> if u.alphabetic(c) then ScriptOf(c) == profiles[layout].script else c in MARKS
  {
    StraysCount(u, text, ' ');
    CountIsNoneIff(u.alphabetic, text);
    hide NonWordCharCount, ScriptOf, Count;
    assert forall i :: 0 <= i < |text| ==> text[i] in text;
    if exists c :: c in text && u.alphabetic(c) {
      var c :| c in text && u.alphabetic(c);
      var i :| 0 <= i < |text| && text[i] == c;
    }
  }

  // ---- Scripts ----

  /** The letters on the keys of the layouts there are, script by script. */
  function Alphabet(script: Script): string {
    match script
    case Latin => "\U{00E0}\U{00E9}\U{00F1}\U{00FC}\U{0161}\U{017E}\U{0142}"
    case Cyrillic => "\U{0401}\U{0410}\U{042F}\U{0430}\U{044F}\U{0451}\U{0454}\U{0456}\U{0457}\U{0491}"
    case Greek => "\U{0386}\U{0391}\U{03A9}\U{03B1}\U{03C9}\U{03CE}"
    case Armenian => "\U{0531}\U{0556}\U{0561}\U{0586}"
    case Hebrew => "\U{05D0}\U{05DA}\U{05EA}"
    case Arabic => "\U{0621}\U{064A}\U{067E}\U{06CC}\U{FB56}\U{FEFC}"
    case Other => " 0123456789.,;:!?'-\U{2019}"
  }

  lemma AlphabetsAreTold(script: Script, k: nat)
    requires k < |Alphabet(script)|
    ensures ScriptOf(Alphabet(script)[k]) == script
  {
  }

  /** Where the blocks of the scripts begin and end, and what lies just outside them. */
  lemma BlocksBeginAndEnd()
    ensures ScriptOf('\U{00C0}') == ScriptOf('\U{024F}') == Latin
    ensures ScriptOf('\U{0400}') == ScriptOf('\U{052F}') == Cyrillic
    ensures ScriptOf('\U{0370}') == ScriptOf('\U{03FF}') == Greek
    ensures ScriptOf('\U{0530}') == ScriptOf('\U{058F}') == Armenian
    ensures ScriptOf('\U{0590}') == ScriptOf('\U{05FF}') == Hebrew
    ensures ScriptOf('\U{0600}') == ScriptOf('\U{06FF}') == ScriptOf('\U{0750}') == ScriptOf('\U{077F}') == Arabic
    ensures ScriptOf('\U{FB50}') == ScriptOf('\U{FDFF}') == ScriptOf('\U{FE70}') == ScriptOf('\U{FEFC}') == Arabic
    ensures ScriptOf('@') == ScriptOf('[') == ScriptOf('`') == ScriptOf('{') == Other
    ensures ScriptOf('\U{00BF}') == ScriptOf('\U{0250}') == ScriptOf('\U{036F}') == Other
    ensures ScriptOf('\U{0700}') == ScriptOf('\U{074F}') == ScriptOf('\U{0780}') == Other
    ensures ScriptOf('\U{FB4F}') == ScriptOf('\U{FE00}') == ScriptOf('\U{FE6F}') == ScriptOf('\U{FEFD}') == Other
  {
  }

  lemma LatinLetters(c: char)
    requires c in Capitals() || c in SmallLetters()
    ensures ScriptOf(c) == Latin
  {
    LettersAreRuns(c);
    hide Capitals, SmallLetters;
  }

  /** Each script has its blocks of characters to itself, in one stretch but for the Latin and the Arabic. */
  lemma ScriptsAreStretches(c: char, between: char, d: char)
    requires c <= between <= d && ScriptOf(c) == ScriptOf(d)
    ensures ScriptOf(c) in {Cyrillic, Greek, Armenian, Hebrew} ==> ScriptOf(between) == ScriptOf(c)
  {
  }

  // ---- Verdicts in numbers ----

  /** Without a rendering of three letters there is no opinion. */
  lemma ShortTokensGetNone(u: Unicode, profiles: Profiles, ctx: Context, v: Verdict)
    requires IsVerdict(u, profiles, ctx, v)
    requires forall c :: c in ctx.candidates ==> LetterCount(u, c.text) < 3
    ensures v == NoOpinion
  {
    hide LetterCount, ReadsWellAsTyped, CompoundVeto, SomeoneLeads, LeaderIs;
    assert forall k :: 0 <= k < |ctx.candidates| ==> ctx.candidates[k] in ctx.candidates;
  }

  /** With one, a text that scores 0.7 as typed is kept, and so is an acronym, or a word of an abjad. */
  lemma ReadsWellIsKept(u: Unicode, profiles: Profiles, ctx: Context, v: Verdict, long: Rendering)
    requires IsVerdict(u, profiles, ctx, v) && long in ctx.candidates && LetterCount(u, long.text) >= 3
    requires || CurrentFit(u, profiles, ctx) >= 0.7
             || LooksLikeAcronym(u, CurrentText(ctx))
             || AbjadInOwnScript(u, profiles, ctx.current, CurrentText(ctx))
    ensures v == Keep
  {
    hide LetterCount, CompoundVeto, SomeoneLeads, LeaderIs, CurrentFit, CurrentText, LooksLikeAcronym, AbjadInOwnScript;
    var k :| 0 <= k < |ctx.candidates| && ctx.candidates[k] == long;
  }

  /** A switch is to a reading that leads by a quarter, away from one below 0.7. */
  lemma SwitchLeadsByAQuarter(u: Unicode, profiles: Profiles, ctx: Context, layout: string, confidence: real)
    requires IsVerdict(u, profiles, ctx, Switch(layout, confidence))
    ensures CurrentFit(u, profiles, ctx) < 0.7
    ensures confidence >= CurrentFit(u, profiles, ctx) + 0.25
    ensures exists long :: long in ctx.candidates && LetterCount(u, long.text) >= 3
  {
    hide LetterCount, CompoundVeto, CurrentFit, CurrentText, LooksLikeAcronym, AbjadInOwnScript, Fit;
    var k: nat :| k < |ctx.candidates| && Leads(u, profiles, ctx, k) && layout == ctx.candidates[k].layout
                  && AlternateFit(u, profiles, ctx, ctx.candidates[k]) == Some(confidence);
    var j :| 0 <= j < |ctx.candidates| && LetterCount(u, ctx.candidates[j].text) >= MIN_LETTERS;
    assert ctx.candidates[j] in ctx.candidates;
  }

  /** And where a reading leads by a quarter, what does not read well as typed is switched or vetoed. */
  lemma LeadOfAQuarterDecides(u: Unicode, profiles: Profiles, ctx: Context, v: Verdict, long: Rendering, k: nat)
    requires IsVerdict(u, profiles, ctx, v) && long in ctx.candidates && LetterCount(u, long.text) >= 3
    requires !ReadsWellAsTyped(u, profiles, ctx)
    requires k < |ctx.candidates| && ctx.candidates[k].layout != ctx.current
    requires AlternateFit(u, profiles, ctx, ctx.candidates[k]).Some?
    requires AlternateFit(u, profiles, ctx, ctx.candidates[k]).value >= CurrentFit(u, profiles, ctx) + 0.25
    ensures v == Keep || v.Switch?
    ensures v == Keep <==> CompoundVeto(u, profiles, ctx)
  {
    var fits := AlternateFits(u, profiles, ctx);
    var best := FirstBestIs(fits, |fits|, k);
    var i :| 0 <= i < |ctx.candidates| && ctx.candidates[i] == long;
    hide LetterCount, CompoundVeto, CurrentFit, ReadsWellAsTyped, AlternateFit;
    assert Leads(u, profiles, ctx, best);
    hide *;
    VerdictOfLeader(u, profiles, ctx, v, best);
    SomebodyLong(u, ctx, i);
  }

  lemma SomebodyLong(u: Unicode, ctx: Context, i: nat)
    requires i < |ctx.candidates| && LetterCount(u, ctx.candidates[i].text) >= 3
    ensures AnyLong(u, ctx)
  {
  }

  lemma VerdictOfLeader(u: Unicode, profiles: Profiles, ctx: Context, v: Verdict, best: nat)
    requires IsVerdict(u, profiles, ctx, v) && !ReadsWellAsTyped(u, profiles, ctx) && Leads(u, profiles, ctx, best)
    ensures AnyLong(u, ctx) ==> (v == Keep || v.Switch?) && (v == Keep <==> CompoundVeto(u, profiles, ctx))
  {
    hide AnyLong, CompoundVeto, ReadsWellAsTyped, Leads, LeaderIs;
    assert SomeoneLeads(u, profiles, ctx);
  }

  /** Among readings there is a first best one, at least as good as any. */
  lemma {:induction false} FirstBestIs(fits: Fits, n: nat, k: nat) returns (best: nat)
    requires k < n <= |fits| && fits[k].Some?
    ensures FirstBest(fits, n, best) && fits[best].value >= fits[k].value
  {
    if SomeReading(fits, n - 1) {
      var j :| 0 <= j < n - 1 && fits[j].Some?;
      var before := FirstBestIs(fits, n - 1, if k < n - 1 then k else j);
      FirstBestSoFar(fits, n - 1, before);
      best := if fits[n - 1].Some? && fits[n - 1].value > fits[before].value then n - 1 else before;
    } else {
      FirstReading(fits, n - 1);
      best := n - 1;
    }
  }
}
