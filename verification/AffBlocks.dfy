/** Gathering an affix file's lines into blocks of rules. */
module AffBlocks {
  import opened Options
  import opened Strings
  import opened Text
  import opened Hunspell
  import opened AffFile

  // ---- One line ----

  /** What a line says; most say nothing to the expander. */
  datatype Line =
    | Ignored
    | Mode(mode: FlagType)
    | Header(suffix: bool, flag: string)
    | Body(suffix: bool, strip: string, add: string, condition: string)
    | Bad

  function NonEmpty(pieces: seq<string>): seq<string> {
    if pieces == [] then [] else (if pieces[0] == "" then [] else [pieces[0]]) + NonEmpty(pieces[1..])
  }

  function ModeLine(name: string): Line {
    if name == "long" then Mode(Long)
    else if name == "UTF-8" then Mode(Utf8)
    else if name == "num" then Mode(Num)
    else Bad
  }

  /** A rule line is told from a block's header only by what its second word is. */
  function AffixLine(suffix: bool, parts: seq<string>): Line {
    if |parts| < 2 then Bad
    else if |parts| >= 3 && (parts[1] == "Y" || parts[1] == "N") then Header(suffix, parts[0])
    else if |parts| < 4 then Bad
    else Body(suffix, parts[1], parts[2], parts[3])
  }

  function ReadLine(whitespace: char -> bool, raw: string): Line {
    var line := Trim(whitespace, Split(Is('#'), raw)[0]);
    if "FLAG " <= line then ModeLine(Trim(whitespace, line[5..]))
    else if "SFX " <= line then AffixLine(true, NonEmpty(Split(whitespace, line[4..])))
    else if "PFX " <= line then AffixLine(false, NonEmpty(Split(whitespace, line[4..])))
    else Ignored
  }

  /** The text a rule adds, and the flags that apply to what it makes. */
  function ParseAdd(whitespace: char -> bool, mode: FlagType, part: string): (string, seq<string>) {
    var add := Split(Is('/'), part)[0];
    var continuation := if |add| < |part| then part[|add| + 1..] else "";
    (if add == "0" then "" else add, SplitFlags(whitespace, mode, continuation))
  }

  function Compiled(whitespace: char -> bool, mode: FlagType, line: Line): Rule
    requires line.Body?
  {
    var (add, continuation) := ParseAdd(whitespace, mode, line.add);
    var (atoms, unconditional) := Condition(line.condition);
    Rule(if line.strip == "0" then 0 else |line.strip|, add, continuation, atoms, unconditional)
  }

  // ---- What is written on a line is read from it ----

  /** What can stand as one word of a line. */
  predicate IsWord(whitespace: char -> bool, word: string) {
    word != "" && NoneOf(whitespace, word) && '#' !in word
  }

  predicate AreWords(whitespace: char -> bool, words: seq<string>) {
    forall k :: 0 <= k < |words| ==> IsWord(whitespace, words[k])
  }

  function Kind(suffix: bool): string {
    if suffix then "SFX " else "PFX "
  }

  function AffixText(suffix: bool, words: seq<string>): string {
    Kind(suffix) + Join(' ', words)
  }

  /** Nothing is lost between the words of a line and their reader. */
  lemma WordsAreRead(whitespace: char -> bool, suffix: bool, words: seq<string>)
    requires whitespace(' ') && !whitespace('S') && !whitespace('P')
    requires words != [] && AreWords(whitespace, words)
    ensures ReadLine(whitespace, AffixText(suffix, words)) == AffixLine(suffix, words)
  {
    JoinedEnds(whitespace, words);
    WordsStaySplit(whitespace, words);
    hide Join, AffixLine, IsWord, Split, NonEmpty;
    var raw := AffixText(suffix, words);
    LineIsWhole(whitespace, suffix, Join(' ', words));
    assert raw[4..] == Join(' ', words);
    hide AffixText, Trim;
  }

  /** Neither the comment mark nor the trimming takes anything from such a line. */
  lemma LineIsWhole(whitespace: char -> bool, suffix: bool, s: string)
    requires !whitespace('S') && !whitespace('P')
    requires s != "" && !whitespace(s[|s| - 1]) && NoneOf(Is('#'), s)
    ensures var raw := Kind(suffix) + s;
            && Trim(whitespace, Split(Is('#'), raw)[0]) == raw
            && !("FLAG " <= raw) && ("SFX " <= raw <==> suffix) && ("PFX " <= raw <==> !suffix)
  {
    var raw := Kind(suffix) + s;
    SplitWhole(Is('#'), raw);
    hide Split;
    assert raw[|raw| - 1] == s[|s| - 1] && raw[0] == if suffix then 'S' else 'P';
  }

  /** Joined words end as the last of them does, and no comment begins in them. */
  lemma {:induction false} JoinedEnds(whitespace: char -> bool, words: seq<string>)
    requires words != [] && AreWords(whitespace, words)
    ensures var s := Join(' ', words); s != "" && !whitespace(s[|s| - 1]) && NoneOf(Is('#'), s)
  {
    assert words[0] != "" && NoneOf(Is('#'), words[0]);
    if |words| > 1 {
      JoinedEnds(whitespace, words[1..]);
    }
  }

  lemma WordsStaySplit(whitespace: char -> bool, words: seq<string>)
    requires whitespace(' ') && words != [] && AreWords(whitespace, words)
    ensures NonEmpty(Split(whitespace, Join(' ', words))) == words
  {
    JoinSplits(whitespace, ' ', words);
    hide Split, Join;
    NothingEmpty(whitespace, words);
  }

  lemma {:induction false} NothingEmpty(whitespace: char -> bool, words: seq<string>)
    requires AreWords(whitespace, words)
    ensures NonEmpty(words) == words
  {
    if words != [] {
      NothingEmpty(whitespace, words[1..]);
      assert words == [words[0]] + words[1..];
    }
  }

  /**
   * A written rule is read back exactly when what it strips, what it adds and its condition are words and
   * it strips neither the letter Y nor the letter N; a rule that does opens a block instead.
   */
  lemma RuleLineReadsBackIff(
    whitespace: char -> bool, suffix: bool, flag: string, strip: string, add: string, condition: string
  )
    requires whitespace(' ') && !whitespace('S') && !whitespace('P') && IsWord(whitespace, flag)
    ensures var line, words := AffixText(suffix, [flag, strip, add, condition]), [strip, add, condition];
            && (ReadLine(whitespace, line) == Body(suffix, strip, add, condition)
                <==> AreWords(whitespace, words) && strip != "Y" && strip != "N")
            && (ReadLine(whitespace, line) == Header(suffix, flag)
                <== AreWords(whitespace, words) && (strip == "Y" || strip == "N"))
  {
    hide AffixText, IsWord, ReadLine;
    var words := [strip, add, condition];
    if AreWords(whitespace, words) {
      assert words[0] == strip && words[1] == add && words[2] == condition;
      WordsAreRead(whitespace, suffix, [flag, strip, add, condition]);
    }
    if ReadLine(whitespace, AffixText(suffix, [flag, strip, add, condition])) == Body(suffix, strip, add, condition) {
      RulesAreOfWords(whitespace, AffixText(suffix, [flag, strip, add, condition]));
    }
  }

  /** Whatever the line, a rule read from it is made of words, and strips neither letter. */
  lemma RulesAreOfWords(whitespace: char -> bool, raw: string)
    requires ReadLine(whitespace, raw).Body?
    ensures var rule := ReadLine(whitespace, raw);
            && IsWord(whitespace, rule.strip) && IsWord(whitespace, rule.add) && IsWord(whitespace, rule.condition)
            && rule.strip != "Y" && rule.strip != "N"
  {
    hide Split, Trim, IsWord, NonEmpty;
    CommentIsCut(whitespace, raw);
    var line := Trim(whitespace, Split(Is('#'), raw)[0]);
    var parts := NonEmpty(Split(whitespace, line[4..]));
    PartsAreWords(whitespace, line[4..]);
    assert parts[1] in parts && parts[2] in parts && parts[3] in parts;
  }

  lemma CommentIsCut(whitespace: char -> bool, raw: string)
    ensures '#' !in Trim(whitespace, Split(Is('#'), raw)[0])
  {
    hide Split, Trim;
    SplitJoins('#', raw);
    TrimOnlyTakes(whitespace, Split(Is('#'), raw)[0], '#');
  }

  lemma TrimOnlyTakes(p: char -> bool, s: string, c: char)
    requires c !in s
    ensures c !in Trim(p, s)
  {
    StartOnlyTakes(p, s, c);
    EndOnlyTakes(p, TrimStart(p, s), c);
  }

  lemma {:induction false} StartOnlyTakes(p: char -> bool, s: string, c: char)
    requires c !in s
    ensures c !in TrimStart(p, s)
  {
    if s != [] && p(s[0]) {
      StartOnlyTakes(p, s[1..], c);
    }
  }

  lemma {:induction false} EndOnlyTakes(p: char -> bool, s: string, c: char)
    requires c !in s
    ensures c !in TrimEnd(p, s)
  {
    if s != [] && p(s[|s| - 1]) {
      EndOnlyTakes(p, s[..|s| - 1], c);
    }
  }

  lemma PartsAreWords(whitespace: char -> bool, s: string)
    requires '#' !in s
    ensures forall word :: word in NonEmpty(Split(whitespace, s)) ==> IsWord(whitespace, word)
  {
    PiecesAreWords(whitespace, s);
    NonEmptyAreThere(Split(whitespace, s));
    hide Split, NonEmpty;
  }

  lemma {:induction false} PiecesAreWords(whitespace: char -> bool, s: string)
    requires '#' !in s
    ensures forall piece :: piece in Split(whitespace, s) ==> piece == "" || IsWord(whitespace, piece)
  {
    if s != "" {
      PiecesAreWords(whitespace, s[1..]);
      var rest := Split(whitespace, s[1..]);
      assert rest[0] in rest && forall piece :: piece in rest[1..] ==> piece in rest;
    }
  }

  lemma {:induction false} NonEmptyAreThere(pieces: seq<string>)
    ensures forall piece :: piece in NonEmpty(pieces) ==> piece in pieces && piece != ""
  {
    if pieces != [] {
      NonEmptyAreThere(pieces[1..]);
    }
  }

  /** The name a file gives its flag mode; the mode it starts in has none. */
  function ModeName(mode: FlagType): string
    requires mode != Ascii
  {
    match mode
    case Long => "long"
    case Utf8 => "UTF-8"
    case Num => "num"
  }

  /** The three names select their modes, whatever space is around them, and no other name is one. */
  lemma ModeLineReads(whitespace: char -> bool, name: string)
    requires !whitespace('F') && !whitespace('L') && '#' !in name
    requires name != "" && !whitespace(name[0]) && !whitespace(name[|name| - 1])
    ensures forall mode: FlagType :: mode != Ascii ==>
              (ReadLine(whitespace, "FLAG " + name) == Mode(mode) <==> name == ModeName(mode))
    ensures ReadLine(whitespace, "FLAG " + name) == Bad
       <==> forall mode: FlagType :: mode != Ascii ==> name != ModeName(mode)
  {
    FlagLineIsWhole(whitespace, name);
    NamesDiffer();
    hide Trim, Split;
    assert ("FLAG " + name)[5..] == name;
    assert ModeName(Long) == "long" && ModeName(Utf8) == "UTF-8" && ModeName(Num) == "num";
  }

  lemma NamesDiffer()
    ensures ModeName(Long) != ModeName(Utf8) && ModeName(Utf8) != ModeName(Num) && ModeName(Long) != ModeName(Num)
  {
    assert ModeName(Long)[0] == 'l' && ModeName(Utf8)[0] == 'U' && ModeName(Num)[0] == 'n';
  }

  lemma FlagLineIsWhole(whitespace: char -> bool, name: string)
    requires !whitespace('F') && '#' !in name
    requires name != "" && !whitespace(name[0]) && !whitespace(name[|name| - 1])
    ensures var raw := "FLAG " + name;
            Trim(whitespace, Split(Is('#'), raw)[0]) == raw && Trim(whitespace, name) == name
  {
    var raw := "FLAG " + name;
    assert forall k :: 0 <= k < |name| ==> name[k] in name;
    SplitWhole(Is('#'), raw);
    assert raw[|raw| - 1] == name[|name| - 1];
    hide Split;
  }

  /** A header says whether its rules combine, and how many there are; that much opens the block. */
  lemma HeaderLineReads(whitespace: char -> bool, suffix: bool, flag: string, combines: bool, count: string)
    requires whitespace(' ') && !whitespace('S') && !whitespace('P') && !whitespace('Y') && !whitespace('N')
    requires IsWord(whitespace, flag) && IsWord(whitespace, count)
    ensures ReadLine(whitespace, AffixText(suffix, [flag, if combines then "Y" else "N", count]))
         == Header(suffix, flag)
    ensures ReadLine(whitespace, AffixText(suffix, [flag, count])) == Bad
  {
    var crossing := if combines then "Y" else "N";
    assert IsWord(whitespace, crossing) && [flag, crossing, count][1] == crossing;
    hide IsWord, AffixText, ReadLine;
    WordsAreRead(whitespace, suffix, [flag, crossing, count]);
    WordsAreRead(whitespace, suffix, [flag, count]);
  }

  // ---- A rule and its line ----

  /** How a line writes what a rule adds; nothing is written as a zero. */
  function AddText(mode: FlagType, add: string, continuation: seq<string>): string {
    (if add == "" then "0" else add) + (if continuation == [] then "" else "/" + WriteFlags(mode, continuation))
  }

  lemma AddReadsBackIff(
    whitespace: char -> bool, mode: FlagType, add: string, continuation: seq<string>
  )
    requires AreFlags(whitespace, mode, continuation)
    ensures ParseAdd(whitespace, mode, AddText(mode, add, continuation)) == (add, continuation)
       <==> '/' !in add && add != "0"
  {
    hide SplitFlags, WriteFlags, AreFlags;
    FlagsReadBack(whitespace, mode, continuation);
    NoFlags(whitespace, mode);
    var shown, part := if add == "" then "0" else add, AddText(mode, add, continuation);
    SplitJoins('/', part);
    assert '/' !in Split(Is('/'), part)[0];
    if '/' !in add {
      if continuation == [] {
        assert part == shown;
        SplitWhole(Is('/'), shown);
      } else {
        assert part == shown + (['/'] + WriteFlags(mode, continuation));
        SplitFirst(Is('/'), '/', shown, WriteFlags(mode, continuation));
        assert part[|shown| + 1..] == WriteFlags(mode, continuation);
      }
      hide Split;
    }
  }

  lemma NoFlags(whitespace: char -> bool, mode: FlagType)
    ensures SplitFlags(whitespace, mode, "") == []
  {
  }

  /** The line that writes a rule which strips a given text. */
  function RuleBody(suffix: bool, mode: FlagType, stripped: string, rule: Rule): Line {
    Body(suffix, if stripped == "" then "0" else stripped, AddText(mode, rule.add, rule.continuation),
         if rule.unconditional then "." else AllWritten(rule.condition))
  }

  /**
   * Compiled again, a written rule is itself exactly when a zero is neither what it strips nor what it
   * adds, what it adds has no slash, and its condition is one that can be written.
   */
  lemma RuleReadsBackIff(whitespace: char -> bool, suffix: bool, mode: FlagType, stripped: string, rule: Rule)
    requires rule.stripChars == |stripped| && AreFlags(whitespace, mode, rule.continuation)
    ensures Compiled(whitespace, mode, RuleBody(suffix, mode, stripped, rule)) == rule
       <==> && stripped != "0" && rule.add != "0" && '/' !in rule.add
            && if rule.unconditional then rule.condition == []
               else AllWritable(rule.condition) && rule.condition != [Any]
  {
    hide ParseAdd, AddText, Condition, AllWritten, AllWritable, AreFlags;
    AddReadsBackIff(whitespace, mode, rule.add, rule.continuation);
    ConditionReadsBackIffWritable(rule.condition);
    LoneDotAsksNothing();
  }

  lemma LoneDotAsksNothing()
    ensures Condition(".") == ([], true)
  {
  }

  // ---- What a file of lines means ----

  /** The flag mode in force at line `n`. */
  function ModeAt(lines: seq<Line>, n: nat): FlagType
    requires n <= |lines|
  {
    if n == 0 then Ascii else if lines[n - 1].Mode? then lines[n - 1].mode else ModeAt(lines, n - 1)
  }

  /** The header of the block that line `n` would belong to. */
  function BlockAt(lines: seq<Line>, n: nat): (h: Option<nat>)
    requires n <= |lines|
    ensures h.Some? ==> h.value < n && lines[h.value].Header?
  {
    if n == 0 then None else if lines[n - 1].Header? then Some(n - 1) else BlockAt(lines, n - 1)
  }

  /** The last header before line `n` of this kind and flag. */
  function LastBlock(lines: seq<Line>, n: nat, suffix: bool, flag: string): (h: Option<nat>)
    requires n <= |lines|
    ensures h.Some? ==> h.value < n && lines[h.value] == Header(suffix, flag)
  {
    if n == 0 then None
    else if lines[n - 1] == Header(suffix, flag) then Some(n - 1)
    else LastBlock(lines, n - 1, suffix, flag)
  }

  /** Where the block that begins before line `from` ends. */
  function BlockEnd(lines: seq<Line>, from: nat): (end: nat)
    requires from <= |lines|
    ensures from <= end <= |lines|
    decreases |lines| - from
  {
    if from == |lines| || lines[from].Header? then from else BlockEnd(lines, from + 1)
  }

  /** The rules on lines `from` up to `n`, each read in the flag mode of its own line. */
  function RulesIn(whitespace: char -> bool, lines: seq<Line>, from: nat, n: nat): seq<Rule>
    requires from <= n <= |lines|
  {
    if n == from then []
    else
      RulesIn(whitespace, lines, from, n - 1)
      + if lines[n - 1].Body? then [Compiled(whitespace, ModeAt(lines, n - 1), lines[n - 1])] else []
  }

  function BlockRules(whitespace: char -> bool, lines: seq<Line>, header: nat): seq<Rule>
    requires header < |lines|
  {
    RulesIn(whitespace, lines, header + 1, BlockEnd(lines, header + 1))
  }

  /** Line `n` is no line, or a rule outside any block or in a block of the other kind. */
  predicate Misplaced(lines: seq<Line>, n: nat)
    requires n < |lines|
  {
    || lines[n].Bad?
    || (lines[n].Body? && (BlockAt(lines, n).None? || lines[BlockAt(lines, n).value].suffix != lines[n].suffix))
  }

  /** One kind's table: for each flag, the rules of the last block that bears it. */
  ghost predicate IsTable(
    whitespace: char -> bool, lines: seq<Line>, n: nat, open: Option<nat>, suffix: bool, table: map<string, seq<Rule>>
  )
    requires n <= |lines|
  {
    forall flag: string ::
      var h := LastBlock(lines, n, suffix, flag);
      && (h.None? ==> flag !in table)
      && (h.Some? && h != open ==> flag in table && table[flag] == BlockRules(whitespace, lines, h.value))
  }

  /** A block under way: its header's line, and the rules it has so far. */
  datatype Current = Current(suffix: bool, flag: string, rules: seq<Rule>)

  ghost predicate IsCurrent(whitespace: char -> bool, lines: seq<Line>, n: nat, current: Option<Current>)
    requires n <= |lines|
  {
    var h := BlockAt(lines, n);
    && (h.None? <==> current.None?)
    && (h.Some? ==> lines[h.value] == Header(current.value.suffix, current.value.flag)
                    && current.value.rules == RulesIn(whitespace, lines, h.value + 1, n))
  }

  function Flushed(table: map<string, seq<Rule>>, suffix: bool, current: Option<Current>): map<string, seq<Rule>> {
    if current.Some? && current.value.suffix == suffix then table[current.value.flag := current.value.rules] else table
  }

  /** The block open at line `n` has no header after its own. */
  lemma {:induction false} OpenBlockRuns(lines: seq<Line>, n: nat, k: nat)
    requires n <= |lines| && BlockAt(lines, n).Some? && BlockAt(lines, n).value < k <= n
    ensures n == |lines| || lines[n].Header? ==> BlockEnd(lines, k) == n
    decreases n - k
  {
    if k < n {
      BlockAtIsLast(lines, n, k);
      OpenBlockRuns(lines, n, k + 1);
    }
  }

  lemma {:induction false} BlockAtIsLast(lines: seq<Line>, n: nat, k: nat)
    requires n <= |lines| && BlockAt(lines, n).Some? && BlockAt(lines, n).value < k < n
    ensures !lines[k].Header?
  {
    if k < n - 1 {
      BlockAtIsLast(lines, n - 1, k);
    }
  }

  /** The last block of a kind and flag is the open one, if that bears them, and an earlier one if not. */
  lemma {:induction false} LastBlockOrOpen(lines: seq<Line>, n: nat, suffix: bool, flag: string)
    requires n <= |lines|
    ensures var h, open := LastBlock(lines, n, suffix, flag), BlockAt(lines, n);
            && (h.Some? ==> open.Some?)
            && (open.Some? ==> (h == open <==> lines[open.value] == Header(suffix, flag)))
  {
    if n > 0 && !lines[n - 1].Header? {
      LastBlockOrOpen(lines, n - 1, suffix, flag);
    }
  }

  /** What is known when the first `n` lines are read. */
  datatype Tables = Tables(
    mode: FlagType, current: Option<Current>, sfx: map<string, seq<Rule>>, pfx: map<string, seq<Rule>>
  )

  ghost predicate UpTo(whitespace: char -> bool, lines: seq<Line>, n: nat, t: Tables)
    requires n <= |lines|
  {
    && t.mode == ModeAt(lines, n)
    && IsCurrent(whitespace, lines, n, t.current)
    && IsTable(whitespace, lines, n, BlockAt(lines, n), true, t.sfx)
    && IsTable(whitespace, lines, n, BlockAt(lines, n), false, t.pfx)
  }

  function AllFlushed(t: Tables): Tables {
    t.(sfx := Flushed(t.sfx, true, t.current), pfx := Flushed(t.pfx, false, t.current), current := None)
  }

  lemma FlushedFlag(
    whitespace: char -> bool, lines: seq<Line>, n: nat, suffix: bool, table: map<string, seq<Rule>>,
    current: Option<Current>,
    flag: string
  )
    requires n <= |lines| && (n == |lines| || lines[n].Header?)
    requires IsTable(whitespace, lines, n, BlockAt(lines, n), suffix, table)
    requires IsCurrent(whitespace, lines, n, current)
    ensures var h, flushed := LastBlock(lines, n, suffix, flag), Flushed(table, suffix, current);
            && (h.None? ==> flag !in flushed)
            && (h.Some? ==> flag in flushed && flushed[flag] == BlockRules(whitespace, lines, h.value))
  {
    hide *;
    LastBlockOrOpen(lines, n, suffix, flag);
    TableAt(whitespace, lines, n, BlockAt(lines, n), suffix, table, flag);
    CurrentIsOpen(whitespace, lines, n, current);
    FlushedAt(table, suffix, current, flag);
  }

  /** Where a block ends, what is under way is the whole of it. */
  lemma CurrentIsOpen(whitespace: char -> bool, lines: seq<Line>, n: nat, current: Option<Current>)
    requires n <= |lines| && (n == |lines| || lines[n].Header?) && IsCurrent(whitespace, lines, n, current)
    ensures var open := BlockAt(lines, n);
            && (open.None? <==> current.None?)
            && (open.Some? ==> lines[open.value] == Header(current.value.suffix, current.value.flag)
                               && current.value.rules == BlockRules(whitespace, lines, open.value))
  {
    hide RulesIn, BlockAt, BlockEnd;
    var open := BlockAt(lines, n);
    if open.Some? {
      OpenBlockRuns(lines, n, open.value + 1);
    }
  }

  lemma FlushedAt(table: map<string, seq<Rule>>, suffix: bool, current: Option<Current>, flag: string)
    ensures var flushed := Flushed(table, suffix, current);
            var own := current.Some? && current.value.suffix == suffix && current.value.flag == flag;
            && (flag in flushed <==> own || flag in table)
            && (flag in flushed ==> flushed[flag] == if own then current.value.rules else table[flag])
  {
  }

  lemma TableAt(
    whitespace: char -> bool, lines: seq<Line>, n: nat, open: Option<nat>, suffix: bool, table: map<string, seq<Rule>>,
    flag: string
  )
    requires n <= |lines| && IsTable(whitespace, lines, n, open, suffix, table)
    ensures var h := LastBlock(lines, n, suffix, flag);
            && (h.None? ==> flag !in table)
            && (h.Some? && h != open ==> flag in table && table[flag] == BlockRules(whitespace, lines, h.value))
  {
    hide BlockRules, LastBlock;
  }

  /** Where a block ends, putting it in its table makes the table right for every flag. */
  lemma FlushCompletes(
    whitespace: char -> bool, lines: seq<Line>, n: nat, suffix: bool, table: map<string, seq<Rule>>,
    current: Option<Current>
  )
    requires n <= |lines| && (n == |lines| || lines[n].Header?)
    requires IsTable(whitespace, lines, n, BlockAt(lines, n), suffix, table)
    requires IsCurrent(whitespace, lines, n, current)
    ensures IsTable(whitespace, lines, n, None, suffix, Flushed(table, suffix, current))
  {
    hide BlockRules, LastBlock, BlockAt, IsCurrent, Flushed;
    forall flag: string
      ensures var h, flushed := LastBlock(lines, n, suffix, flag), Flushed(table, suffix, current);
              && (h.None? ==> flag !in flushed)
              && (h.Some? ==> flag in flushed && flushed[flag] == BlockRules(whitespace, lines, h.value))
    {
      FlushedFlag(whitespace, lines, n, suffix, table, current, flag);
    }
  }

  /** A new header opens its block; any other line leaves the open one open. */
  lemma TableGoesOn(
    whitespace: char -> bool, lines: seq<Line>, n: nat, suffix: bool, table: map<string, seq<Rule>>
  )
    requires n < |lines|
    requires IsTable(whitespace, lines, n, if lines[n].Header? then None else BlockAt(lines, n), suffix, table)
    ensures IsTable(whitespace, lines, n + 1, BlockAt(lines, n + 1), suffix, table)
  {
    hide BlockRules;
  }

  lemma HeaderOpens(whitespace: char -> bool, lines: seq<Line>, n: nat, t: Tables)
    requires n < |lines| && lines[n].Header? && UpTo(whitespace, lines, n, t)
    ensures UpTo(whitespace, lines, n + 1, AllFlushed(t).(current := Some(Current(lines[n].suffix, lines[n].flag, []))))
  {
    hide IsTable, Flushed;
    FlushCompletes(whitespace, lines, n, true, t.sfx, t.current);
    FlushCompletes(whitespace, lines, n, false, t.pfx, t.current);
    TableGoesOn(whitespace, lines, n, true, Flushed(t.sfx, true, t.current));
    TableGoesOn(whitespace, lines, n, false, Flushed(t.pfx, false, t.current));
  }

  lemma BodyAdds(whitespace: char -> bool, lines: seq<Line>, n: nat, t: Tables)
    requires n < |lines| && lines[n].Body? && UpTo(whitespace, lines, n, t) && !Misplaced(lines, n)
    ensures t.current.Some? && t.current.value.suffix == lines[n].suffix
    ensures var more := t.current.value.rules + [Compiled(whitespace, t.mode, lines[n])];
            UpTo(whitespace, lines, n + 1, t.(current := Some(t.current.value.(rules := more))))
  {
    hide IsTable, Compiled;
    TableGoesOn(whitespace, lines, n, true, t.sfx);
    TableGoesOn(whitespace, lines, n, false, t.pfx);
  }

  lemma NothingAdds(whitespace: char -> bool, lines: seq<Line>, n: nat, t: Tables)
    requires n < |lines| && (lines[n].Ignored? || lines[n].Mode?) && UpTo(whitespace, lines, n, t)
    ensures UpTo(whitespace, lines, n + 1, if lines[n].Mode? then t.(mode := lines[n].mode) else t)
    ensures !Misplaced(lines, n)
  {
    hide IsTable, Compiled;
    TableGoesOn(whitespace, lines, n, true, t.sfx);
    TableGoesOn(whitespace, lines, n, false, t.pfx);
  }

  /** A rule that fits no open block is misplaced. */
  lemma NoBlockForIt(whitespace: char -> bool, lines: seq<Line>, n: nat, t: Tables)
    requires n < |lines| && lines[n].Body? && UpTo(whitespace, lines, n, t)
    ensures Misplaced(lines, n) <==> t.current.None? || t.current.value.suffix != lines[n].suffix
  {
    hide IsTable, Compiled, RulesIn;
  }

  lemma FileEnds(whitespace: char -> bool, lines: seq<Line>, t: Tables)
    requires UpTo(whitespace, lines, |lines|, t)
    ensures IsTable(whitespace, lines, |lines|, None, true, AllFlushed(t).sfx)
    ensures IsTable(whitespace, lines, |lines|, None, false, AllFlushed(t).pfx)
    ensures t.mode == ModeAt(lines, |lines|)
  {
    hide IsTable, Flushed;
    FlushCompletes(whitespace, lines, |lines|, true, t.sfx, t.current);
    FlushCompletes(whitespace, lines, |lines|, false, t.pfx, t.current);
  }

  ghost function LinesOf(whitespace: char -> bool, text: seq<string>): (lines: seq<Line>)
    ensures |lines| == |text|
    ensures forall k :: 0 <= k < |text| ==> lines[k] == ReadLine(whitespace, text[k])
  {
    seq(|text|, k requires 0 <= k < |text| => ReadLine(whitespace, text[k]))
  }

  method ReadRule(whitespace: char -> bool, mode: FlagType, line: Line) returns (rule: Rule)
    requires line.Body?
    ensures rule == Compiled(whitespace, mode, line)
  {
    var (add, continuation) := ParseAdd(whitespace, mode, line.add);
    var atoms, unconditional := ParseCondition(line.condition);
    rule := Rule(if line.strip == "0" then 0 else |line.strip|, add, continuation, atoms, unconditional);
  }

  /**
   * Reads a whole affix file. It fails exactly when some line is misplaced; otherwise each flag has
   * the rules of the last block that bears it, read in the flag modes of their own lines, and entry
   * flags are read in the mode the file ends in.
   */
  method ParseAff(whitespace: char -> bool, text: seq<string>) returns (r: Option<(Aff, FlagType)>)
    ensures var lines := LinesOf(whitespace, text);
            && (r.None? <==> exists n :: 0 <= n < |lines| && Misplaced(lines, n))
            && (r.Some? ==> IsTable(whitespace, lines, |lines|, None, true, r.value.0.sfx)
                            && IsTable(whitespace, lines, |lines|, None, false, r.value.0.pfx)
                            && r.value.1 == ModeAt(lines, |lines|))
  {
    ghost var lines := LinesOf(whitespace, text);
    hide ReadLine, LinesOf, Compiled, UpTo, IsTable, Misplaced, ModeAt;
    var mode, current := Ascii, None;
    var sfx: map<string, seq<Rule>>, pfx: map<string, seq<Rule>> := map[], map[];
    NothingYet(whitespace, lines);
    for n := 0 to |text|
      invariant forall k :: 0 <= k < n ==> !Misplaced(lines, k)
      invariant UpTo(whitespace, lines, n, Tables(mode, current, sfx, pfx))
    {
      ghost var t := Tables(mode, current, sfx, pfx);
      var line := ReadLine(whitespace, text[n]);
      match line {
        case Bad =>
          BadIsMisplaced(lines, n);
          return None;
        case Mode(m) =>
          NothingAdds(whitespace, lines, n, t);
          mode := m;
        case Header(suffix, flag) =>
          HeaderOpens(whitespace, lines, n, t);
          HeaderIsPlaced(lines, n);
          sfx, pfx := Flushed(sfx, true, current), Flushed(pfx, false, current);
          current := Some(Current(suffix, flag, []));
        case Body(suffix, _, _, _) =>
          var rule := ReadRule(whitespace, mode, line);
          NoBlockForIt(whitespace, lines, n, t);
          if current.None? || current.value.suffix != suffix {
            return None;
          }
          BodyAdds(whitespace, lines, n, t);
          current := Some(current.value.(rules := current.value.rules + [rule]));
        case Ignored =>
          NothingAdds(whitespace, lines, n, t);
      }
    }
    FileEnds(whitespace, lines, Tables(mode, current, sfx, pfx));
    return Some((Aff(Flushed(sfx, true, current), Flushed(pfx, false, current)), mode));
  }

  lemma NothingYet(whitespace: char -> bool, lines: seq<Line>)
    ensures UpTo(whitespace, lines, 0, Tables(Ascii, None, map[], map[]))
  {
  }

  lemma BadIsMisplaced(lines: seq<Line>, n: nat)
    requires n < |lines| && lines[n].Bad?
    ensures Misplaced(lines, n)
  {
  }

  lemma HeaderIsPlaced(lines: seq<Line>, n: nat)
    requires n < |lines| && lines[n].Header?
    ensures !Misplaced(lines, n)
  {
  }
}
