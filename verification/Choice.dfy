/** The prompt's numbered candidates, and which one a model's reply names. */
module Choice {
  import opened Options
  import opened Decimals
  import opened Strings

  predicate IsDigit(c: char) {
    '0' <= c <= '9'
  }

  lemma DigitsAreNumerals(c: char)
    ensures IsDigit(c) <==> IsNumeral(c)
  {
    NumeralsAre(c);
  }

  /** The candidates as they are put to the model: numbered from one, one to a line. */
  function PromptLine(i: nat, candidate: string): string {
    Decimal(i + 1) + ". " + candidate + "\n"
  }

  function PromptOf(candidates: seq<string>): string {
    if candidates == [] then ""
    else PromptOf(candidates[..|candidates| - 1]) + PromptLine(|candidates| - 1, candidates[|candidates| - 1])
  }

  method Prompt(candidates: seq<string>) returns (s: string)
    ensures s == PromptOf(candidates)
  {
    s := "";
    for i := 0 to |candidates|
      invariant s == PromptOf(candidates[..i])
    {
      assert candidates[..i + 1][..i] == candidates[..i];
      s := s + PromptLine(i, candidates[i]);
    }
    assert candidates[..|candidates|] == candidates;
  }

  /** The first digit at or after `i`; the length of the text if there is none. */
  function FirstDigit(s: string, i: nat): (at: nat)
    requires i <= |s|
    ensures i <= at <= |s|
    ensures forall k :: i <= k < at ==> !IsDigit(s[k])
    ensures at < |s| ==> IsDigit(s[at])
    decreases |s| - i
  {
    if i == |s| || IsDigit(s[i]) then i else FirstDigit(s, i + 1)
  }

  function DigitsEnd(s: string, i: nat): (end: nat)
    requires i <= |s|
    ensures i <= end <= |s|
    ensures forall k :: i <= k < end ==> IsDigit(s[k])
    ensures end < |s| ==> !IsDigit(s[end])
    decreases |s| - i
  {
    if i == |s| || !IsDigit(s[i]) then i else DigitsEnd(s, i + 1)
  }

  /** A reply read as a 1-based choice among `count` candidates. */
  function ParseChoice(whitespace: char -> bool, reply: string, count: nat): Option<nat> {
    var s := Trim(whitespace, reply);
    var at := FirstDigit(s, 0);
    if at == |s| || (at > 0 && s[at - 1] == '-') then None
    else
      match DecimalValue(s[at..DigitsEnd(s, at)])
      case None => None
      case Some(n) => if n == 0 || n > count then None else Some(n - 1)
  }

  /** The reply's first run of digits, not negated, is a numeral for `n`. */
  ghost predicate Names(s: string, before: string, digits: string, after: string, n: nat) {
    && s == before + digits + after
    && (forall c :: c in before ==> !IsDigit(c))
    && (before != [] ==> before[|before| - 1] != '-')
    && digits != [] && (forall c :: c in digits ==> IsDigit(c))
    && (after != [] ==> !IsDigit(after[0]))
    && DecimalValue(digits) == Some(n)
  }

  ghost predicate NamesSome(s: string, n: nat) {
    exists before, digits, after :: Names(s, before, digits, after, n)
  }

  lemma {:induction false} FirstDigitAt(s: string, i: nat, at: nat)
    requires i <= at < |s| && IsDigit(s[at]) && forall k :: i <= k < at ==> !IsDigit(s[k])
    ensures FirstDigit(s, i) == at
    decreases at - i
  {
    if i < at {
      FirstDigitAt(s, i + 1, at);
    }
  }

  lemma {:induction false} DigitsEndAt(s: string, i: nat, end: nat)
    requires i <= end <= |s| && forall k :: i <= k < end ==> IsDigit(s[k])
    requires end < |s| ==> !IsDigit(s[end])
    ensures DigitsEnd(s, i) == end
    decreases end - i
  {
    if i < end {
      DigitsEndAt(s, i + 1, end);
    }
  }

  /** Where a reply that names a number has its digits. */
  lemma NamesAt(s: string, before: string, digits: string, after: string, n: nat)
    requires Names(s, before, digits, after, n)
    ensures FirstDigit(s, 0) == |before| < |s|
    ensures DigitsEnd(s, |before|) == |before| + |digits|
    ensures s[|before|..|before| + |digits|] == digits
    ensures |before| > 0 ==> s[|before| - 1] != '-'
  {
    hide DecimalValue;
    var at, end := |before|, |before| + |digits|;
    NamesCharacters(s, before, digits, after, n);
    FirstDigitAt(s, 0, at);
    DigitsEndAt(s, at, end);
  }

  lemma NamesCharacters(s: string, before: string, digits: string, after: string, n: nat)
    requires Names(s, before, digits, after, n)
    ensures |before| < |before| + |digits| <= |s|
    ensures forall k :: 0 <= k < |before| ==> !IsDigit(s[k])
    ensures forall k :: |before| <= k < |before| + |digits| ==> IsDigit(s[k])
    ensures |before| + |digits| < |s| ==> !IsDigit(s[|before| + |digits|])
  {
    hide DecimalValue, IsDigit;
    var at, end := |before|, |before| + |digits|;
    forall k | 0 <= k < at ensures !IsDigit(s[k]) {
      assert s[k] == before[k];
    }
    forall k | at <= k < end ensures IsDigit(s[k]) {
      assert s[k] == digits[k - at];
    }
    assert end < |s| ==> s[end] == after[0];
  }

  /** A reply chooses candidate `k` exactly when it names `k + 1` and there is such a candidate. */
  lemma ChosenIffNamed(whitespace: char -> bool, reply: string, count: nat, k: nat)
    ensures ParseChoice(whitespace, reply, count) == Some(k)
       <==> k < count && NamesSome(Trim(whitespace, reply), k + 1)
  {
    var s := Trim(whitespace, reply);
    hide Trim, FirstDigit, DigitsEnd, DecimalValue;
    var at := FirstDigit(s, 0);
    if ParseChoice(whitespace, reply, count) == Some(k) {
      var end := DigitsEnd(s, at);
      assert s == s[..at] + s[at..end] + s[end..];
      assert Names(s, s[..at], s[at..end], s[end..], k + 1);
    }
    if k < count && NamesSome(s, k + 1) {
      var before, digits, after :| Names(s, before, digits, after, k + 1);
      NamesAt(s, before, digits, after, k + 1);
    }
  }

  /** Line `i` of the prompt stands in it, behind the lines before it. */
  ghost predicate HasLine(prompt: string, before: string, line: string) {
    exists rest :: prompt == before + line + rest
  }

  lemma {:induction false} LineInPrompt(candidates: seq<string>, i: nat)
    requires i < |candidates|
    ensures HasLine(PromptOf(candidates), PromptOf(candidates[..i]), PromptLine(i, candidates[i]))
  {
    var last := |candidates| - 1;
    var init, line := candidates[..last], PromptLine(last, candidates[last]);
    assert PromptOf(candidates) == PromptOf(init) + line;
    hide PromptLine, PromptOf, HasLine;
    if i == last {
      LineEnds(PromptOf(init), line);
    } else {
      LineInPrompt(init, i);
      assert init[..i] == candidates[..i] && init[i] == candidates[i];
      LineStays(PromptOf(init), PromptOf(init[..i]), PromptLine(i, init[i]), line);
    }
  }

  lemma LineEnds(before: string, line: string)
    ensures HasLine(before + line, before, line)
  {
    assert before + line == before + line + "";
  }

  lemma LineStays(prompt: string, before: string, line: string, next: string)
    requires HasLine(prompt, before, line)
    ensures HasLine(prompt + next, before, line)
  {
    var rest :| prompt == before + line + rest;
    Regroup(before + line, rest, next);
  }

  /** Digits survive trimming, and nothing that names no number says much before one. */
  ghost predicate Plain(whitespace: char -> bool, before: string) {
    && (forall c :: IsDigit(c) ==> !whitespace(c))
    && (forall c :: c in before ==> !IsDigit(c) && c != '-')
  }

  /** A reply whose first numeral is `n`, and not negative, chooses candidate `n - 1`. */
  lemma NumeralChooses(whitespace: char -> bool, before: string, n: nat, after: string, count: nat)
    requires Plain(whitespace, before) && 1 <= n <= count && (after != [] ==> !IsDigit(after[0]))
    ensures ParseChoice(whitespace, before + Decimal(n) + after, count) == Some(n - 1)
  {
    var digits := Decimal(n);
    DecimalRoundTrip(n);
    hide Decimal, DecimalValue, Trim, ParseChoice;
    assert digits[0] in digits && digits[|digits| - 1] in digits;
    var j, k := TrimKeeps(whitespace, before, digits, after);
    var front, back := before[j..], after[..k];
    assert forall c :: c in front ==> c in before;
    assert front != [] ==> front[|front| - 1] in front;
    assert back != [] ==> back[0] == after[0];
    assert Names(front + digits + back, front, digits, back, n);
    ChosenIffNamed(whitespace, before + digits + after, count, n - 1);
  }

  /** A reply that repeats a line of the prompt, whatever follows it, chooses that line's candidate. */
  lemma EchoIsChosen(whitespace: char -> bool, candidates: seq<string>, i: nat, before: string, after: string)
    requires i < |candidates| && Plain(whitespace, before)
    ensures HasLine(PromptOf(candidates), PromptOf(candidates[..i]), PromptLine(i, candidates[i]))
    ensures ParseChoice(whitespace, before + PromptLine(i, candidates[i]) + after, |candidates|) == Some(i)
  {
    LineInPrompt(candidates, i);
    var tail := ". " + candidates[i] + "\n" + after;
    NumeralChooses(whitespace, before, i + 1, tail, |candidates|);
    LineIsNumeralFirst(i, candidates[i], before, after);
    hide *;
  }

  lemma LineIsNumeralFirst(i: nat, candidate: string, before: string, after: string)
    ensures before + PromptLine(i, candidate) + after
         == before + Decimal(i + 1) + (". " + candidate + "\n" + after)
  {
    hide Decimal;
  }

  /** A reply that repeats the whole prompt chooses the first candidate. */
  lemma WholePromptChoosesFirst(whitespace: char -> bool, candidates: seq<string>)
    requires candidates != [] && Plain(whitespace, "")
    ensures ParseChoice(whitespace, PromptOf(candidates), |candidates|) == Some(0)
  {
    LineInPrompt(candidates, 0);
    assert candidates[..0] == [];
    var rest :| PromptOf(candidates) == PromptOf([]) + PromptLine(0, candidates[0]) + rest;
    EchoIsChosen(whitespace, candidates, 0, "", rest);
    assert PromptOf([]) == "";
  }
}
