/** What the word-shape score rewards and what it takes off, told from counts and runs. */
module WordShape {
  import opened Options
  import opened Text
  import opened Plausibility

  /** All the score depends on: letters, those of the layout's script, vowels, the longest vowel-free run, strays. */
  datatype Shape = Shape(letters: nat, own: nat, vowels: nat, run: nat, strays: nat)

  ghost predicate HasShape(u: Unicode, prof: Profile, text: string, x: Shape) {
    var letters := LettersOf(u, text);
    && letters != []
    && x.letters == |letters|
    && x.own == Count(c => ScriptOf(c) == prof.script, letters)
    && x.vowels == Count(c => c in prof.vowels, letters)
    && IsLongestRun(prof.vowels, letters, x.run)
    && x.strays == NonWordCharCount(u, text)
  }

  /** Wholly in the layout's script, nothing stray, never three consonants in a row. */
  ghost predicate Plain(x: Shape) {
    x.own == x.letters && x.run <= 2 && x.strays == 0
  }

  lemma OneLongestRun(vowels: set<char>, s: string, n: nat)
    requires IsLongestRun(vowels, s, n)
    ensures n == LongestRun(vowels, s)
  {
    LongestRunIsLongest(vowels, s);
    hide LongestRun;
    var i: nat :| VowelFree(vowels, s, i, n);
    var j: nat :| VowelFree(vowels, s, j, LongestRun(vowels, s));
  }

  /** The score before it is cut to between 0 and 1. */
  function Marks(x: Shape): real
    requires x.own <= x.letters && x.vowels <= x.letters && x.letters > 0
  {
    Share(x.own, x.letters) * 0.5 + VowelFit(Share(x.vowels, x.letters)) * 0.5 - ClusterPenalty(x.run)
    - x.strays as real * 0.4
  }

  lemma ScoreIsMarks(u: Unicode, prof: Profile, text: string, x: Shape)
    requires HasShape(u, prof, text, x)
    ensures x.own <= x.letters && x.vowels <= x.letters && x.letters > 0
    ensures Score(u, prof, text) == Clamped(Marks(x)) && Marks(x) <= 1.0
  {
    OneLongestRun(prof.vowels, LettersOf(u, text), x.run);
    hide LongestRun, IsLongestRun, LettersOf, NonWordCharCount, Count, VowelFit, Share;
  }

  // ---- The vowel share ----

  /** How far the share of vowels is from the middle of what words have. */
  ghost function OffMiddle(x: Shape): real
    requires x.letters > 0
  {
    var share := x.vowels as real / x.letters as real;
    if share >= 0.46 then share - 0.46 else 0.46 - share
  }

  lemma ShareAgainst(part: nat, whole: nat, percent: nat)
    requires part <= whole && whole > 0
    ensures Share(part, whole) * 100.0 >= percent as real <==> 100 * part >= percent * whole
    ensures Share(part, whole) * 100.0 <= percent as real <==> 100 * part <= percent * whole
  {
    var share := Share(part, whole);
    assert share * whole as real == part as real;
    Scaled(share * 100.0 - percent as real, whole as real);
    assert (share * 100.0 - percent as real) * whole as real == 100.0 * part as real - percent as real * whole as real;
  }

  lemma Scaled(x: real, w: real)
    requires w > 0.0
    ensures x >= 0.0 <==> x * w >= 0.0
    ensures x <= 0.0 <==> x * w <= 0.0
  {
  }

  /** A plain text scores 1 exactly when from a quarter to 67 in a hundred of its letters are vowels. */
  lemma FullMarksIff(u: Unicode, prof: Profile, text: string, x: Shape)
    requires HasShape(u, prof, text, x) && Plain(x)
    ensures Score(u, prof, text) == 1.0 <==> 25 * x.letters <= 100 * x.vowels <= 67 * x.letters
  {
    ScoreIsMarks(u, prof, text, x);
    ShareAgainst(x.vowels, x.letters, 25);
    ShareAgainst(x.vowels, x.letters, 67);
    WholeShare(x.letters);
    hide Score, HasShape, Share;
  }

  lemma WholeShare(n: nat)
    requires n > 0
    ensures Share(n, n) == 1.0
  {
  }

  /** No plain text scores below a half, and one does score a half exactly when nearly all or none are vowels. */
  lemma FloorIff(u: Unicode, prof: Profile, text: string, x: Shape)
    requires HasShape(u, prof, text, x) && Plain(x)
    ensures Score(u, prof, text) >= 0.5
    ensures Score(u, prof, text) == 0.5 <==> 100 * x.vowels <= 6 * x.letters || 100 * x.vowels >= 86 * x.letters
  {
    ScoreIsMarks(u, prof, text, x);
    ShareAgainst(x.vowels, x.letters, 6);
    ShareAgainst(x.vowels, x.letters, 86);
    WholeShare(x.letters);
    hide Score, HasShape, Share;
  }

  /** Between full marks and the floor, the further from the middle the share of vowels is the lower the score. */
  lemma FurtherScoresLess(
    u: Unicode, prof: Profile, near: string, x: Shape, other: Profile, far: string, y: Shape
  )
    requires HasShape(u, prof, near, x) && Plain(x) && HasShape(u, other, far, y) && Plain(y)
    requires Score(u, prof, near) < 1.0 && Score(u, other, far) < 1.0
    ensures Score(u, other, far) < Score(u, prof, near)
       <==> Score(u, prof, near) > 0.5 && OffMiddle(y) > OffMiddle(x)
  {
    ScoreIsMarks(u, prof, near, x);
    ScoreIsMarks(u, other, far, y);
    WholeShare(x.letters);
    WholeShare(y.letters);
    assert Share(x.vowels, x.letters) == x.vowels as real / x.letters as real;
    assert Share(y.vowels, y.letters) == y.vowels as real / y.letters as real;
    hide Score, HasShape, Share;
  }

  // ---- What is taken off ----

  /** `off` less, or nothing left. */
  function Lowered(score: real, off: real): real {
    if score >= off then score - off else 0.0
  }

  /** One letter more in another script takes off half of one letter's part of the text. */
  lemma AlienLetterTakesOff(u: Unicode, prof: Profile, text: string, x: Shape, alien: string)
    requires HasShape(u, prof, text, x) && x.own > 0 && HasShape(u, prof, alien, x.(own := x.own - 1))
    ensures Score(u, prof, alien) == Lowered(Score(u, prof, text), 0.5 / x.letters as real)
  {
    var y := x.(own := x.own - 1);
    ScoreIsMarks(u, prof, text, x);
    ScoreIsMarks(u, prof, alien, y);
    OnePartLess(x.own, x.letters);
    hide Score, HasShape, Share, VowelFit, ClusterPenalty;
  }

  lemma OnePartLess(part: nat, whole: nat)
    requires 0 < part <= whole
    ensures (Share(part, whole) - Share(part - 1, whole)) * 0.5 == 0.5 / whole as real
    ensures 0.5 / whole as real > 0.0
  {
  }

  /** A third consonant in a row takes off a quarter, a fourth another, a fifth a third one, and any more nothing. */
  lemma ConsonantsTakeOff(u: Unicode, prof: Profile, text: string, x: Shape, clustered: string, run: nat)
    requires HasShape(u, prof, text, x) && x.run <= 2 && HasShape(u, prof, clustered, x.(run := run))
    ensures Score(u, prof, clustered)
         == Lowered(Score(u, prof, text), 0.25 * (if run <= 2 then 0 else if run >= 5 then 3 else run - 2) as real)
  {
    ScoreIsMarks(u, prof, text, x);
    ScoreIsMarks(u, prof, clustered, x.(run := run));
    hide Score, HasShape, Share, VowelFit;
  }

  /** Every character that belongs in no word takes off 0.4. */
  lemma StrayTakesOff(u: Unicode, prof: Profile, text: string, x: Shape, stray: string)
    requires HasShape(u, prof, text, x) && HasShape(u, prof, stray, x.(strays := x.strays + 1))
    ensures Score(u, prof, stray) == Lowered(Score(u, prof, text), 0.4)
  {
    ScoreIsMarks(u, prof, text, x);
    ScoreIsMarks(u, prof, stray, x.(strays := x.strays + 1));
    hide Score, HasShape, Share, VowelFit, ClusterPenalty;
  }

  /**
   * The word the vowel band was set by: five letters of the layout's script with one vowel, three
   * consonants in a row. Typed for a word with full marks on another layout, it is left behind by more
   * than a switch takes.
   */
  lemma MistypedWordIsLeftBehind(u: Unicode, prof: Profile, typed: string, other: Profile, meant: string, y: Shape)
    requires HasShape(u, prof, typed, Shape(5, 5, 1, 3, 0))
    requires HasShape(u, other, meant, y) && Plain(y) && 25 * y.letters <= 100 * y.vowels <= 67 * y.letters
    ensures Score(u, prof, typed) == 0.425
    ensures Score(u, other, meant) - Score(u, prof, typed) >= MIN_ADVANTAGE
  {
    ScoreIsMarks(u, prof, typed, Shape(5, 5, 1, 3, 0));
    FullMarksIff(u, other, meant, y);
    assert Share(1, 5) == 0.2 && Share(5, 5) == 1.0;
    hide Score, HasShape, Share;
  }
}
