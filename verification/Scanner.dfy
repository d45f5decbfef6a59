/** Telling Rust code from strings and comments, one line at a time. */
module Scanner {
  import opened Options
  import opened Strings

  // ---- A lexer for whole texts ----

  /** What a position of the text lies inside. */
  datatype Mode =
    | Code
    | Quoted
    | Raw(hashes: nat) // closed by a quote and as many hashes as opened it
    | Block(outer: nat) // in a comment, with `outer` more comments around it

  predicate Pair(text: string, i: nat, a: char, b: char) {
    i + 1 < |text| && text[i] == a && text[i + 1] == b
  }

  predicate IsIdentChar(c: char) {
    'a' <= c <= 'z' || 'A' <= c <= 'Z' || '0' <= c <= '9' || c == '_'
  }

  /** Letters, digits and the underscore make up names, and nothing else does. */
  lemma NamesAreOf(c: char)
    ensures IsIdentChar(c) <==> c in Capitals() || c in SmallLetters() || c in "0123456789" || c == '_'
  {
    hide Capitals, SmallLetters;
    LettersAreRuns(c);
  }

  /** A quote and `hashes` hashes stand at `i`. */
  predicate Closes(text: string, i: nat, hashes: nat) {
    i + hashes < |text| && text[i] == '"' && forall k :: i < k <= i + hashes ==> text[k] == '#'
  }

  /** The end of the run of hashes at `i`. */
  function HashEnd(text: string, i: nat): (r: nat)
    requires i <= |text|
    ensures i <= r <= |text|
    ensures forall k :: i <= k < r ==> text[k] == '#'
    decreases |text| - i
  {
    if i < |text| && text[i] == '#' then HashEnd(text, i + 1) else i
  }

  predicate OpensRaw(text: string, i: nat)
    requires i < |text|
  {
    && text[i] == 'r'
    && (i == 0 || !IsIdentChar(text[i - 1]))
    && HashEnd(text, i + 1) < |text|
    && text[HashEnd(text, i + 1)] == '"'
  }

  /** A character literal, not a lifetime: an escape follows, or one character of this line and a quote. */
  predicate OpensChar(text: string, i: nat)
    requires i < |text|
  {
    text[i] == '\'' && i + 1 < |text| && text[i + 1] != '\n'
        && (text[i + 1] == '\\' || Pair(text, i + 1, text[i + 1], '\''))
  }

  /** Past the closing quote of a character literal, or at the end of its line. */
  function CharEnd(text: string, i: nat): (r: nat)
    requires i <= |text|
    ensures i <= r <= |text|
    decreases |text| - i
  {
    if i == |text| || text[i] == '\n' then i
    else if text[i] == '\'' then i + 1
    else if text[i] == '\\' && i + 1 < |text| && text[i + 1] != '\n' then CharEnd(text, i + 2)
    else CharEnd(text, i + 1)
  }

  function LineEnd(text: string, i: nat): (r: nat)
    requires i <= |text|
    ensures i <= r <= |text|
    decreases |text| - i
  {
    if i == |text| || text[i] == '\n' then i else LineEnd(text, i + 1)
  }

  function CodeStep(text: string, i: nat): (next: (nat, Mode))
    requires i < |text|
    ensures i < next.0 <= |text|
  {
    if Pair(text, i, '/', '/') then (LineEnd(text, i + 2), Code)
    else if Pair(text, i, '/', '*') then (i + 2, Block(0))
    else if text[i] == '"' then (i + 1, Quoted)
    else if OpensRaw(text, i) then (HashEnd(text, i + 1) + 1, Raw(HashEnd(text, i + 1) - i - 1))
    else if OpensChar(text, i) then (CharEnd(text, i + 1), Code)
    else (i + 1, Code)
  }

  /** The next position of interest, and what it lies inside. */
  function Step(text: string, i: nat, m: Mode): (next: (nat, Mode))
    requires i < |text|
    ensures i < next.0 <= |text|
  {
    match m
    case Raw(hashes) => if Closes(text, i, hashes) then (i + 1 + hashes, Code) else (i + 1, m)
    case Block(outer) =>
      if Pair(text, i, '*', '/') then (i + 2, if outer == 0 then Code else Block(outer - 1))
      else if Pair(text, i, '/', '*') then (i + 2, Block(outer + 1))
      else (i + 1, m)
    case Quoted =>
      if text[i] == '\\' then (if i + 1 < |text| then i + 2 else i + 1, m)
      else (i + 1, if text[i] == '"' then Code else m)
    case Code => CodeStep(text, i)
  }

  /** Reading on from `i` in mode `m`, the lexer comes to stand at `j` in mode `n`. */
  ghost predicate Reaches(text: string, i: nat, m: Mode, j: nat, n: Mode)
    requires i <= |text|
    decreases |text| - i
  {
    if i >= j then i == j && m == n
    else i < |text| && Reaches(text, Step(text, i, m).0, Step(text, i, m).1, j, n)
  }

  lemma {:induction false} ReachesOn(text: string, i: nat, m: Mode, j: nat, n: Mode, k: nat, o: Mode)
    requires i <= |text| && j <= |text| && j <= k
    requires Reaches(text, i, m, j, n) && Reaches(text, j, n, k, o)
    ensures Reaches(text, i, m, k, o)
    decreases |text| - i
  {
    if i < j {
      hide Step;
      ReachesOn(text, Step(text, i, m).0, Step(text, i, m).1, j, n, k, o);
    }
  }

  // ---- The line scanner ----

  /** The mode at the end of `text`. */
  function Finish(text: string, i: nat, m: Mode): Mode
    requires i <= |text|
    decreases |text| - i
  {
    if i == |text| then m else Finish(text, Step(text, i, m).0, Step(text, i, m).1)
  }

  /** The mode after a line and its line break, read on their own. */
  function AfterLine(line: string, m: Mode): Mode {
    Finish(line + "\n", 0, m)
  }

  /** What an unterminated string or comment still owes the next line. */
  class Pending {
    var rawClose: Option<string>
    var blockComments: nat
    var quoted: bool

    /** At most one thing is open, and a raw string's delimiter has the right shape. */
    ghost predicate Valid()
      reads this
    {
      && (rawClose.Some? ==> |rawClose.value| > 0 && Delimiter(|rawClose.value| - 1) == rawClose.value)
      && (rawClose.Some? ==> blockComments == 0 && !quoted)
      && (blockComments > 0 ==> !quoted)
    }

    ghost function Now(): Mode
      reads this
    {
      if rawClose.Some? then Raw(if rawClose.value == [] then 0 else |rawClose.value| - 1)
      else if blockComments > 0 then Block(blockComments - 1)
      else if quoted then Quoted
      else Code
    }

    constructor ()
      ensures Valid() && Now() == Code
    {
      rawClose, blockComments, quoted := None, 0, false;
    }

    predicate InsideText()
      reads this
      ensures Valid() ==> (InsideText() <==> Now() != Code)
    {
      rawClose.Some? || blockComments > 0 || quoted
    }

    /** One pass of the scanning loop that is not in code. */
    method InText(line: string, i: nat) returns (next: nat)
      requires Valid() && i < |line| && InsideText() && '\n' !in line
      modifies this
      ensures Valid() && i < next
      ensures Step(line + "\n", i, old(Now())) == (Clip(line, next), Now())
    {
      if rawClose.Some? {
        var close := rawClose.value;
        ClosesInLine(line, i, |close| - 1);
        if StartsWith(line, i, close) {
          rawClose := None;
          return i + |close|;
        }
        return i + 1;
      }
      if blockComments > 0 {
        PairInLine(line, i, '*', '/');
        PairInLine(line, i, '/', '*');
        if StartsWith(line, i, "*/") {
          blockComments := blockComments - 1;
          return i + 2;
        } else if StartsWith(line, i, "/*") {
          blockComments := blockComments + 1;
          return i + 2;
        }
        return i + 1;
      }
      if line[i] == '\\' {
        return i + 2;
      }
      if line[i] == '"' {
        quoted := false;
      }
      return i + 1;
    }

    /** One pass of the scanning loop that is in code. */
    method InCode(line: string, i: nat) returns (next: nat)
      requires Valid() && i < |line| && !InsideText() && '\n' !in line
      modifies this
      ensures Valid() && i < next
      ensures Finish(line + "\n", i, Code) == Finish(line + "\n", Clip(line, next), Now())
    {
      hide CodeStep, Finish, HashEnd, CharEnd, StartsWith, Hashes;
      CodeStepInLine(line, i);
      FinishStep(line + "\n", i, Code);
      if StartsWith(line, i, "//") {
        return |line|;
      }
      if StartsWith(line, i, "/*") {
        blockComments := 1;
        return i + 2;
      }
      if line[i] == '"' {
        quoted := true;
        return i + 1;
      }
      if line[i] == 'r' && (i == 0 || !IsIdentChar(line[i - 1])) {
        var j := SkipHashes(line, i + 1);
        if j < |line| && line[j] == '"' {
          rawClose := Some(Delimiter(j - i - 1));
          return j + 1;
        }
      }
      if line[i] == '\'' {
        var escaped := i + 1 < |line| && line[i + 1] == '\\';
        var plain := i + 2 < |line| && line[i + 2] == '\'';
        if escaped || plain {
          next := SkipChar(line, i + 1);
          return;
        }
      }
      return i + 1;
    }

    /** Walks one line, updating what is left open at the end of it. */
    method Advance(line: string)
      requires Valid() && '\n' !in line
      modifies this
      ensures Valid()
      ensures Now() == AfterLine(line, old(Now()))
    {
      ghost var t := line + "\n";
      ghost var start := Now();
      hide Step, Finish, Now, Valid;
      var i := 0;
      while i < |line|
        invariant Valid()
        invariant Finish(t, 0, start) == Finish(t, Clip(line, i), Now())
        decreases |line| - i
      {
        FinishStep(t, i, Now());
        if InsideText() {
          i := InText(line, i);
        } else {
          i := InCode(line, i);
        }
      }
      NewlineKeeps(line, Now());
      FinishStep(t, |t|, Now());
    }
  }

  method SkipHashes(line: string, i: nat) returns (j: nat)
    requires i <= |line|
    ensures j == HashEnd(line + "\n", i) <= |line|
  {
    ghost var t := line + "\n";
    j := i;
    while j < |line| && line[j] == '#'
      invariant i <= j <= |line|
      invariant HashEnd(t, i) == HashEnd(t, j)
    {
      j := j + 1;
    }
  }

  /** Past the quote that ends a character literal, or past the line. */
  method SkipChar(line: string, i: nat) returns (next: nat)
    requires i <= |line| && '\n' !in line
    ensures i < next
    ensures Finish(line + "\n", Clip(line, next), Code) == Finish(line + "\n", CharEnd(line + "\n", i), Code)
  {
    ghost var t := line + "\n";
    hide Finish;
    var j := i;
    while j < |line| && line[j] != '\''
      invariant i <= j <= |line| + 1
      invariant CharEnd(t, i) == CharEnd(t, if j <= |line| then j else |line|)
    {
      assert line[j] in line && (j + 1 < |line| ==> line[j + 1] in line);
      j := j + if line[j] == '\\' then 2 else 1;
    }
    NewlineKeeps(line, Code);
    FinishStep(t, |t|, Code);
    return j + 1;
  }

  lemma FinishStep(text: string, i: nat, m: Mode)
    requires i <= |text|
    ensures Finish(text, i, m) == if i == |text| then m else Finish(text, Step(text, i, m).0, Step(text, i, m).1)
  {
    hide Step;
  }

  function Hashes(n: nat): (s: string)
    ensures |s| == n && forall k :: 0 <= k < n ==> s[k] == '#'
  {
    seq(n, _ => '#')
  }

  function Delimiter(hashes: nat): string {
    "\"" + Hashes(hashes)
  }

  predicate StartsWith(line: string, i: nat, needle: string) {
    i + |needle| <= |line| && forall k :: 0 <= k < |needle| ==> line[i + k] == needle[k]
  }

  /** A position in a line and its break; the scanner may step past them, the lexer does not. */
  function Clip(line: string, i: nat): nat {
    if i <= |line| then i else |line| + 1
  }

  /** The lexer's step from code, seen from inside one line. */
  lemma CodeStepInLine(line: string, i: nat)
    requires i < |line| && '\n' !in line
    ensures HashEnd(line + "\n", i + 1) <= |line|
    ensures CodeStep(line + "\n", i) ==
              if StartsWith(line, i, "//") then (|line|, Code)
              else if StartsWith(line, i, "/*") then (i + 2, Block(0))
              else if line[i] == '"' then (i + 1, Quoted)
              else if RawInLine(line, i) then
                (HashEnd(line + "\n", i + 1) + 1, Raw(HashEnd(line + "\n", i + 1) - i - 1))
              else if CharInLine(line, i) then (CharEnd(line + "\n", i + 1), Code)
              else (i + 1, Code)
  {
    hide OpensRaw, OpensChar, HashEnd, CharEnd, RawInLine, CharInLine, LineEnd, StartsWith, Pair;
    PairInLine(line, i, '/', '/');
    PairInLine(line, i, '/', '*');
    HashEndInLine(line, i + 1);
    LineEndInLine(line, i + 2);
    RawInLineIsRaw(line, i);
    CharInLineIsChar(line, i);
    assert (line + "\n")[i] == line[i];
  }

  predicate RawInLine(line: string, i: nat)
    requires i < |line|
  {
    var h := HashEnd(line + "\n", i + 1);
    line[i] == 'r' && (i == 0 || !IsIdentChar(line[i - 1])) && h < |line| && line[h] == '"'
  }

  predicate CharInLine(line: string, i: nat)
    requires i < |line|
  {
    && line[i] == '\''
    && ((i + 1 < |line| && line[i + 1] == '\\') || (i + 2 < |line| && line[i + 2] == '\''))
  }

  lemma RawInLineIsRaw(line: string, i: nat)
    requires i < |line|
    ensures OpensRaw(line + "\n", i) <==> RawInLine(line, i)
  {
    HashEndInLine(line, i + 1);
  }

  lemma CharInLineIsChar(line: string, i: nat)
    requires i < |line| && '\n' !in line
    ensures OpensChar(line + "\n", i) <==> CharInLine(line, i)
  {
    assert i + 1 < |line| ==> line[i + 1] in line;
  }

  lemma {:induction false} HashEndInLine(line: string, i: nat)
    requires i <= |line|
    ensures HashEnd(line + "\n", i) <= |line|
    decreases |line| - i
  {
    if i < |line| {
      HashEndInLine(line, i + 1);
    }
  }

  lemma {:induction false} LineEndInLine(line: string, i: nat)
    requires '\n' !in line
    ensures i <= |line| ==> LineEnd(line + "\n", i) == |line|
    decreases |line| - i
  {
    if i < |line| {
      assert line[i] in line;
      LineEndInLine(line, i + 1);
    }
  }

  lemma PairInLine(line: string, i: nat, a: char, b: char)
    requires b != '\n'
    ensures Pair(line + "\n", i, a, b) <==> StartsWith(line, i, [a, b])
    ensures StartsWith(line, i, [a, b]) ==> i + 2 <= |line|
  {
    assert [a, b][0] == a && [a, b][1] == b;
  }

  lemma ClosesInLine(line: string, i: nat, hashes: nat)
    ensures Closes(line + "\n", i, hashes) <==> StartsWith(line, i, Delimiter(hashes))
  {
    var t, d := line + "\n", Delimiter(hashes);
    assert |d| == hashes + 1;
    if Closes(t, i, hashes) {
      assert t[i + hashes] != '\n';
      forall k | 0 <= k < |d| ensures line[i + k] == d[k] {
        assert t[i + k] == line[i + k];
      }
    }
    if StartsWith(line, i, d) {
      assert line[i + 0] == d[0];
      forall k | i < k <= i + hashes ensures t[k] == '#' {
        assert line[i + (k - i)] == d[k - i];
      }
    }
  }

  /** A line break opens and closes nothing. */
  lemma NewlineKeeps(line: string, m: Mode)
    ensures Finish(line + "\n", |line|, m) == m
  {
    var t := line + "\n";
    assert t[|line|] == '\n';
  }

  // ---- Line by line, the scanner is the lexer of the whole text ----

  /** `line` stands in `text` at `start`, from one line break (or the beginning) to the next. */
  ghost predicate Stands(text: string, start: nat, line: string) {
    && start + |line| < |text|
    && text[start + |line|] == '\n'
    && (start == 0 || text[start - 1] == '\n')
    && forall k :: start <= k < start + |line| ==> text[k] == line[k - start] != '\n'
  }

  ghost function Shift(next: (nat, Mode), start: nat): (nat, Mode) {
    (next.0 + start, next.1)
  }

  /** Nothing beyond its own line decides how the lexer steps. */
  lemma StepIsLocal(text: string, start: nat, line: string, i: nat, m: Mode)
    requires Stands(text, start, line) && i <= |line|
    ensures Step(text, start + i, m) == Shift(Step(line + "\n", i, m), start)
  {
    var t := line + "\n";
    AgreeInLine(text, start, line, i);
    match m
    case Raw(hashes) =>
      ClosesIsLocal(text, start, line, i, hashes);
    case Block(_) =>
      PairIsLocal(text, start, line, i, '*', '/');
      PairIsLocal(text, start, line, i, '/', '*');
    case Quoted =>
    case Code =>
      CodeStepIsLocal(text, start, line, i);
  }

  lemma AgreeInLine(text: string, start: nat, line: string, i: nat)
    requires Stands(text, start, line) && i <= |line|
    ensures start + i < |text| && text[start + i] == (line + "\n")[i]
    ensures text[start + i] == '\n' <==> i == |line|
  {
  }

  lemma PairIsLocal(text: string, start: nat, line: string, i: nat, a: char, b: char)
    requires Stands(text, start, line) && i <= |line| && a != '\n' && b != '\n'
    ensures Pair(text, start + i, a, b) <==> Pair(line + "\n", i, a, b)
  {
    AgreeInLine(text, start, line, i);
    if i < |line| {
      AgreeInLine(text, start, line, i + 1);
    }
  }

  lemma ClosesIsLocal(text: string, start: nat, line: string, i: nat, hashes: nat)
    requires Stands(text, start, line) && i <= |line|
    ensures Closes(text, start + i, hashes) <==> Closes(line + "\n", i, hashes)
  {
    var t := line + "\n";
    AgreeInLine(text, start, line, |line|);
    if Closes(text, start + i, hashes) {
      AgreeInLine(text, start, line, i);
      forall k | i < k <= i + hashes ensures t[k] == '#' {
        AgreeInLine(text, start, line, k);
        assert text[start + k] == '#';
      }
    }
    if Closes(t, i, hashes) {
      AgreeInLine(text, start, line, i);
      forall k | start + i < k <= start + i + hashes ensures text[k] == '#' {
        AgreeInLine(text, start, line, k - start);
        assert t[k - start] == '#';
      }
    }
  }

  lemma {:induction false} HashEndIsLocal(text: string, start: nat, line: string, i: nat)
    requires Stands(text, start, line) && i <= |line|
    ensures HashEnd(text, start + i) == start + HashEnd(line + "\n", i) <= start + |line|
    decreases |line| - i
  {
    AgreeInLine(text, start, line, i);
    if i < |line| {
      HashEndIsLocal(text, start, line, i + 1);
    }
  }

  lemma {:induction false} LineEndIsLocal(text: string, start: nat, line: string, i: nat)
    requires Stands(text, start, line) && i <= |line|
    ensures LineEnd(text, start + i) == start + LineEnd(line + "\n", i)
    decreases |line| - i
  {
    AgreeInLine(text, start, line, i);
    if i < |line| {
      LineEndIsLocal(text, start, line, i + 1);
    }
  }

  lemma CharEndStep(text: string, i: nat)
    requires i < |text|
    ensures CharEnd(text, i)
         == if text[i] == '\n' then i
            else if text[i] == '\'' then i + 1
            else if text[i] == '\\' && i + 1 < |text| && text[i + 1] != '\n' then CharEnd(text, i + 2)
            else CharEnd(text, i + 1)
  {
  }

  lemma {:induction false} CharEndIsLocal(text: string, start: nat, line: string, i: nat)
    requires Stands(text, start, line) && i <= |line|
    ensures CharEnd(text, start + i) == start + CharEnd(line + "\n", i)
    decreases |line| - i
  {
    hide CharEnd, Stands;
    AgreeInLine(text, start, line, i);
    CharEndStep(text, start + i);
    CharEndStep(line + "\n", i);
    if i < |line| {
      AgreeInLine(text, start, line, i + 1);
      CharEndIsLocal(text, start, line, i + 1);
      if i + 1 < |line| {
        CharEndIsLocal(text, start, line, i + 2);
      }
    }
  }

  lemma OpensRawIsLocal(text: string, start: nat, line: string, i: nat)
    requires Stands(text, start, line) && i < |line|
    ensures OpensRaw(text, start + i) <==> OpensRaw(line + "\n", i)
  {
    AgreeInLine(text, start, line, i);
    if i > 0 {
      AgreeInLine(text, start, line, i - 1);
    }
    HashEndIsLocal(text, start, line, i + 1);
    AgreeInLine(text, start, line, HashEnd(line + "\n", i + 1));
    hide HashEnd;
  }

  lemma OpensCharIsLocal(text: string, start: nat, line: string, i: nat)
    requires Stands(text, start, line) && i < |line|
    ensures OpensChar(text, start + i) <==> OpensChar(line + "\n", i)
    ensures Pair(text, start + i, '/', '/') ==> i + 2 <= |line|
  {
    AgreeInLine(text, start, line, i);
    AgreeInLine(text, start, line, i + 1);
    if i + 1 < |line| {
      AgreeInLine(text, start, line, i + 2);
    }
  }

  lemma CodeStepIsLocal(text: string, start: nat, line: string, i: nat)
    requires Stands(text, start, line) && i <= |line|
    ensures CodeStep(text, start + i) == Shift(CodeStep(line + "\n", i), start)
  {
    AgreeInLine(text, start, line, i);
    if i == |line| {
      NewlineIsPlain(text, start + i);
      NewlineIsPlain(line + "\n", i);
      hide *;
    } else {
      hide *;
      PairIsLocal(text, start, line, i, '/', '/');
      PairIsLocal(text, start, line, i, '/', '*');
      OpensRawIsLocal(text, start, line, i);
      OpensCharIsLocal(text, start, line, i);
      HashEndIsLocal(text, start, line, i + 1);
      CharEndIsLocal(text, start, line, i + 1);
      if i + 2 <= |line| {
        LineEndIsLocal(text, start, line, i + 2);
      }
      SameCodeStep(text, start + i, line + "\n", i, start);
    }
  }

  /** Texts that answer every question of a step alike, and end runs alike, step alike. */
  lemma SameCodeStep(text: string, i: nat, t: string, j: nat, start: nat)
    requires i < |text| && j < |t| && i == start + j && text[i] == t[j]
    requires Pair(text, i, '/', '/') <==> Pair(t, j, '/', '/')
    requires Pair(text, i, '/', '*') <==> Pair(t, j, '/', '*')
    requires OpensRaw(text, i) <==> OpensRaw(t, j)
    requires OpensChar(text, i) <==> OpensChar(t, j)
    requires HashEnd(text, i + 1) == start + HashEnd(t, j + 1)
    requires CharEnd(text, i + 1) == start + CharEnd(t, j + 1)
    requires Pair(text, i, '/', '/') ==> LineEnd(text, i + 2) == start + LineEnd(t, j + 2)
    ensures CodeStep(text, i) == Shift(CodeStep(t, j), start)
  {
    hide OpensRaw, OpensChar, HashEnd, CharEnd, LineEnd;
  }

  lemma NewlineIsPlain(text: string, i: nat)
    requires i < |text| && text[i] == '\n'
    ensures CodeStep(text, i) == (i + 1, Code)
  {
    hide HashEnd, CharEnd, LineEnd;
  }

  /** From a line's start to the next line's, the lexer does just what the scanner makes of the line. */
  lemma {:induction false} LexedThroughLine(text: string, start: nat, line: string, i: nat, m: Mode)
    requires Stands(text, start, line) && i <= |line| + 1
    ensures Reaches(text, start + i, m, start + |line| + 1, Finish(line + "\n", i, m))
    decreases |line| + 1 - i
  {
    hide Step, Stands;
    if i <= |line| {
      StepIsLocal(text, start, line, i, m);
      var next := Step(line + "\n", i, m);
      LexedThroughLine(text, start, line, next.0, next.1);
    }
  }

  /** The text of terminated lines. */
  ghost function Joined(lines: seq<string>): string {
    if lines == [] then "" else Joined(lines[..|lines| - 1]) + lines[|lines| - 1] + "\n"
  }

  /** What the scanner carries after each of `lines` in turn. */
  ghost function Carried(lines: seq<string>): Mode {
    if lines == [] then Code else AfterLine(lines[|lines| - 1], Carried(lines[..|lines| - 1]))
  }

  ghost predicate AreLines(lines: seq<string>) {
    forall k :: 0 <= k < |lines| ==> '\n' !in lines[k]
  }

  lemma {:induction false} JoinedEnds(lines: seq<string>)
    ensures Joined(lines) == [] || Joined(lines)[|Joined(lines)| - 1] == '\n'
  {
  }

  lemma LastLineStands(lines: seq<string>, rest: string)
    requires lines != [] && AreLines(lines)
    ensures var last := |lines| - 1;
            Stands(Joined(lines) + rest, |Joined(lines[..last])|, lines[last])
    ensures |Joined(lines)| == |Joined(lines[..|lines| - 1])| + |lines[|lines| - 1]| + 1
  {
    var before, line := Joined(lines[..|lines| - 1]), lines[|lines| - 1];
    JoinedEnds(lines[..|lines| - 1]);
    assert forall c :: c in line ==> c != '\n';
    hide Joined;
    StandsAfter(before, line, rest);
  }

  lemma StandsAfter(before: string, line: string, rest: string)
    requires before == [] || before[|before| - 1] == '\n'
    requires '\n' !in line
    ensures Stands(before + line + "\n" + rest, |before|, line)
  {
    var text := before + line + "\n" + rest;
    forall k | |before| <= k < |before| + |line| ensures text[k] == line[k - |before|] != '\n' {
      assert line[k - |before|] in line;
    }
  }

  /**
   * Whatever follows them, reading lines one at a time leaves the scanner in exactly the mode in
   * which a lexer of the whole text stands at the start of the next line.
   */
  lemma {:induction false} ScannerIsLexer(lines: seq<string>, rest: string)
    requires AreLines(lines)
    ensures Reaches(Joined(lines) + rest, 0, Code, |Joined(lines)|, Carried(lines))
  {
    hide Reaches, Step, Finish, Stands;
    if lines == [] {
      assert Reaches(Joined(lines) + rest, 0, Code, 0, Code) by {
        StandsStill(Joined(lines) + rest, Code);
      }
    } else {
      var before, line := lines[..|lines| - 1], lines[|lines| - 1];
      var text := Joined(lines) + rest;
      ScannerIsLexer(before, line + "\n" + rest);
      LastLineStands(lines, rest);
      LexedThroughLine(text, |Joined(before)|, line, 0, Carried(before));
      Regroup(Joined(before), line, "\n");
      Regroup(Joined(before), line + "\n", rest);
      ReachesOn(text, 0, Code, |Joined(before)|, Carried(before), |Joined(lines)|, Carried(lines));
    }
  }

  lemma StandsStill(text: string, m: Mode)
    ensures Reaches(text, 0, m, 0, m)
  {
  }

  lemma {:induction false} ReachesOneMode(text: string, i: nat, m: Mode, j: nat, n: Mode, o: Mode)
    requires i <= |text| && Reaches(text, i, m, j, n) && Reaches(text, i, m, j, o)
    ensures n == o
    decreases |text| - i
  {
    if i < j {
      hide Step;
      ReachesOneMode(text, Step(text, i, m).0, Step(text, i, m).1, j, n, o);
    }
  }

  /** Tells, for each line, whether it begins inside a string or a comment. */
  method CarriedIntoLines(lines: seq<string>, ghost rest: string) returns (inside: seq<bool>)
    requires AreLines(lines)
    ensures |inside| == |lines|
    ensures forall k :: 0 <= k < |lines| ==>
              (inside[k] <==> BeginsInsideText(Joined(lines) + rest, |Joined(lines[..k])|))
  {
    var pending := new Pending();
    inside := [];
    for no := 0 to |lines|
      invariant pending.Valid() && fresh(pending) && pending.Now() == Carried(lines[..no])
      invariant |inside| == no
      invariant forall k :: 0 <= k < no ==>
                  (inside[k] <==> BeginsInsideText(Joined(lines) + rest, |Joined(lines[..k])|))
    {
      hide AfterLine, Joined, Reaches, Step, BeginsInsideText;
      inside := inside + [pending.InsideText()];
      BeginningOfLine(lines, rest, no);
      pending.Advance(lines[no]);
      CarriedOn(lines, no);
    }
  }

  /** A lexer of the whole text stands at `at` inside a string or a comment. */
  ghost predicate BeginsInsideText(text: string, at: nat) {
    exists m: Mode :: m != Code && Reaches(text, 0, Code, at, m)
  }

  lemma CarriedOn(lines: seq<string>, no: nat)
    requires no < |lines|
    ensures Carried(lines[..no + 1]) == AfterLine(lines[no], Carried(lines[..no]))
  {
    hide AfterLine;
    assert lines[..no + 1][..no] == lines[..no];
  }

  lemma BeginningOfLine(lines: seq<string>, rest: string, no: nat)
    requires AreLines(lines) && no < |lines|
    ensures BeginsInsideText(Joined(lines) + rest, |Joined(lines[..no])|) <==> Carried(lines[..no]) != Code
  {
    var text, at, m := Joined(lines) + rest, |Joined(lines[..no])|, Carried(lines[..no]);
    var tail := JoinedSplits(lines, no);
    ScannerIsLexer(lines[..no], tail + rest);
    assert text == Joined(lines[..no]) + (tail + rest);
    hide Reaches, Joined, Carried;
    forall n | Reaches(text, 0, Code, at, n) ensures n == m {
      ReachesOneMode(text, 0, Code, at, n, m);
    }
  }

  lemma {:induction false} JoinedSplits(lines: seq<string>, no: nat) returns (tail: string)
    requires no <= |lines|
    ensures Joined(lines) == Joined(lines[..no]) + tail
  {
    if no == |lines| {
      assert lines[..no] == lines;
      return "";
    }
    var before := lines[..|lines| - 1];
    var t := JoinedSplits(before, no);
    assert before[..no] == lines[..no];
    return t + lines[|lines| - 1] + "\n";
  }

  // ---- What the lexer takes for a string or a comment ----

  /** A raw string runs to the first quote followed by as many hashes as opened it, and no further. */
  lemma {:induction false} RawStringEndsAtFirstClose(text: string, i: nat, hashes: nat, close: nat)
    requires i <= close && Closes(text, close, hashes)
    requires forall k :: i <= k < close ==> !Closes(text, k, hashes)
    ensures Reaches(text, i, Raw(hashes), close, Raw(hashes))
    ensures Reaches(text, i, Raw(hashes), close + 1 + hashes, Code)
    decreases close - i
  {
    hide Closes;
    CloseIsInside(text, close, hashes);
    if i < close {
      RawStringEndsAtFirstClose(text, i + 1, hashes, close);
    }
  }

  lemma CloseIsInside(text: string, close: nat, hashes: nat)
    requires Closes(text, close, hashes)
    ensures close + hashes < |text|
  {
  }

  /** How many backslashes in a row end right before `at`, looking back no further than `from`. */
  function Backslashes(text: string, from: nat, at: nat): nat
    requires from <= at <= |text|
  {
    if at > from && text[at - 1] == '\\' then 1 + Backslashes(text, from, at - 1) else 0
  }

  /** A quote that no backslash takes away. */
  predicate EndsString(text: string, from: nat, at: nat)
    requires from <= at < |text|
  {
    text[at] == '"' && Backslashes(text, from, at) % 2 == 0
  }

  /** Two characters that a backslash joins change nothing about what stands before a later one. */
  lemma {:induction false} BackslashesFromLater(text: string, from: nat, later: nat, at: nat)
    requires from <= later <= at <= |text|
    requires later > from ==> text[later - 1] != '\\' || (later == from + 2 && text[from] == '\\')
    ensures Backslashes(text, from, at) % 2 == Backslashes(text, later, at) % 2
    decreases at
  {
    if at > later && text[at - 1] == '\\' {
      BackslashesFromLater(text, from, later, at - 1);
    } else if at == later == from + 2 && text[later - 1] == '\\' {
      assert Backslashes(text, from, at) == 1 + Backslashes(text, from, at - 1);
      assert Backslashes(text, from, at - 1) == 1 + Backslashes(text, from, from);
    }
  }

  /** A string runs to its first quote that an even number of backslashes precedes. */
  lemma {:induction false} StringEndsAtFirstFreeQuote(text: string, i: nat, close: nat)
    requires i <= close < |text| && EndsString(text, i, close)
    requires forall k :: i <= k < close ==> !EndsString(text, i, k)
    ensures Reaches(text, i, Quoted, close + 1, Code)
    decreases close - i
  {
    if i == close {
      return;
    }
    var next := if text[i] == '\\' then i + 2 else i + 1;
    assert !EndsString(text, i, i);
    assert Backslashes(text, i, i + 1) == if text[i] == '\\' then 1 else 0;
    assert next <= close;
    forall k | next <= k <= close ensures EndsString(text, next, k) <==> EndsString(text, i, k) {
      BackslashesFromLater(text, i, next, k);
    }
    StringEndsAtFirstFreeQuote(text, next, close);
  }

  /** Where a comment with `outer` more around it has closed all of them, if it ever does. */
  function CommentEnd(text: string, i: nat, outer: nat): (r: Option<nat>)
    requires i <= |text|
    ensures r.Some? ==> i < r.value <= |text|
    decreases |text| - i
  {
    if i == |text| then None
    else if Pair(text, i, '*', '/') then if outer == 0 then Some(i + 2) else CommentEnd(text, i + 2, outer - 1)
    else if Pair(text, i, '/', '*') then CommentEnd(text, i + 2, outer + 1)
    else CommentEnd(text, i + 1, outer)
  }

  lemma {:induction false} CommentRunsToItsEnd(text: string, i: nat, outer: nat)
    requires i <= |text| && CommentEnd(text, i, outer).Some?
    ensures Reaches(text, i, Block(outer), CommentEnd(text, i, outer).value, Code)
    decreases |text| - i
  {
    hide Pair;
    var next := Step(text, i, Block(outer));
    if next.1 != Code {
      CommentRunsToItsEnd(text, next.0, next.1.outer);
    }
  }

  /**
   * Comments nest: one inside another is read as if nothing surrounded it, and where it ends the
   * surrounding comment goes on.
   */
  lemma {:induction false} CommentsNest(text: string, i: nat, inner: nat, outer: nat)
    requires i <= |text|
    ensures CommentEnd(text, i, inner + 1 + outer)
         == match CommentEnd(text, i, inner) { case None => None case Some(j) => CommentEnd(text, j, outer) }
    decreases |text| - i
  {
    hide Pair;
    if i < |text| {
      if Pair(text, i, '*', '/') {
        PairFits(text, i, '*', '/');
        if inner > 0 {
          CommentsNest(text, i + 2, inner - 1, outer);
        }
      } else if Pair(text, i, '/', '*') {
        PairFits(text, i, '/', '*');
        CommentsNest(text, i + 2, inner + 1, outer);
      } else {
        CommentsNest(text, i + 1, inner, outer);
      }
    }
  }

  lemma PairFits(text: string, i: nat, a: char, b: char)
    requires Pair(text, i, a, b)
    ensures i + 2 <= |text|
  {
  }
}
