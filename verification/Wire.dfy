/** JSON strings on the wire: written into requests, picked out of responses. */
module Wire {
  import opened Options
  import opened Strings

  // ---- Hexadecimal ----

  function HexDigitValue(c: char): (v: Option<nat>)
    ensures v.Some? ==> v.value < 16
  {
    if '0' <= c <= '9' then Some(c as int - '0' as int)
    else if 'a' <= c <= 'f' then Some(c as int - 'a' as int + 10)
    else if 'A' <= c <= 'F' then Some(c as int - 'A' as int + 10)
    else None
  }

  function HexValue(h: string): (v: Option<nat>)
  {
    if h == [] then Some(0)
    else
      match HexValue(h[..|h| - 1]) case None => None case Some(high) =>
      match HexDigitValue(h[|h| - 1]) case None => None case Some(d) => Some(16 * high + d)
  }

  /** What the library's radix-16 parse accepts: at least one digit, after an optional plus sign. */
  function FromRadix16(h: string): Option<nat> {
    var digits := if h != [] && h[0] == '+' then h[1..] else h;
    if digits == [] then None else HexValue(digits)
  }

  const REPLACEMENT := '\U{FFFD}'

  /** The character of a code point, or the replacement character where there is none. */
  function CharOrReplacement(cp: nat): char {
    if cp < 0xD800 || 0xE000 <= cp < 0x11_0000 then cp as char else REPLACEMENT
  }

  // ---- Writing ----

  function Escape(c: char): string {
    if c == '"' then "\\\""
    else if c == '\\' then "\\\\"
    else if c == '\n' then "\\n"
    else if c == '\r' then "\\r"
    else if c == '\t' then "\\t"
    else if c as int < 0x20 then
      "\\u" + [HexDigit(0), HexDigit(0), HexDigit(c as int / 16), HexDigit(c as int % 16)]
    else [c]
  }

  function Escaped(s: string): string {
    if s == [] then [] else Escaped(s[..|s| - 1]) + Escape(s[|s| - 1])
  }

  lemma EscapedNext(s: string, i: nat)
    requires i < |s|
    ensures Escaped(s[..i + 1]) == Escaped(s[..i]) + Escape(s[i])
  {
    hide Escape;
    assert s[..i + 1][..i] == s[..i];
  }

  method JsonStr(s: string) returns (out: string)
    ensures out == ['"'] + Escaped(s) + ['"']
  {
    hide *;
    out := ['"'];
    NothingEscaped();
    for i := 0 to |s|
      invariant out == ['"'] + Escaped(s[..i])
    {
      EscapedNext(s, i);
      Regroup(['"'], Escaped(s[..i]), Escape(s[i]));
      out := out + Escape(s[i]);
    }
    assert s[..|s|] == s;
    out := out + ['"'];
  }

  lemma NothingEscaped()
    ensures Escaped([]) == []
  {
  }

  // ---- Reading ----

  /** One step of the reader at `i`, inside the string: what it appends and where it goes on. */
  datatype Step = Close | Broken | Append(c: char, next: nat)

  function ReadStep(s: string, i: nat): (step: Step)
    ensures step.Append? ==> i < step.next <= |s|
  {
    if i >= |s| then Broken
    else if s[i] == '"' then Close
    else if s[i] != '\\' then Append(s[i], i + 1)
    else if i + 1 >= |s| then Broken
    else
      match s[i + 1]
      case 'n' => Append('\n', i + 2)
      case 'r' => Append('\r', i + 2)
      case 't' => Append('\t', i + 2)
      case 'u' =>
        var end := if i + 6 <= |s| then i + 6 else |s|;
        (match FromRadix16(s[i + 2..end])
         case None => Broken
         case Some(cp) => Append(CharOrReplacement(cp), end))
      case other => Append(other, i + 2)
  }

  function ReadFrom(s: string, i: nat): Option<string>
    decreases |s| - i
  {
    match ReadStep(s, i)
    case Close => Some([])
    case Broken => None
    case Append(c, next) =>
      match ReadFrom(s, next) case None => None case Some(rest) => Some([c] + rest)
  }

  /** The index of the first `c`, or the length. */
  function Find(s: string, c: char): (i: nat)
    ensures i <= |s| && (i < |s| ==> s[i] == c) && forall j :: 0 <= j < i ==> s[j] != c
  {
    if s == [] || s[0] == c then 0 else 1 + Find(s[1..], c)
  }

  function StringIn(s: string): Option<string> {
    var start := Find(s, '"');
    if start == |s| then None else ReadFrom(s, start + 1)
  }

  method ReadJsonString(s: string) returns (r: Option<string>)
    ensures r == StringIn(s)
  {
    var start := Find(s, '"');
    if start == |s| {
      return None;
    }
    var out: string := [];
    var i := start + 1;
    Grows(s, i, []);
    while true
      invariant i <= |s|
      invariant StringIn(s) == Grown(out, ReadFrom(s, i))
      decreases |s| - i
    {
      hide *;
      Grows(s, i, out);
      match ReadStep(s, i)
      case Close =>
        return Some(out);
      case Broken =>
        return None;
      case Append(c, next) =>
        out := out + [c];
        i := next;
    }
  }

  /** What is read so far, and the rest if there is one. */
  function Grown(out: string, rest: Option<string>): Option<string> {
    match rest case None => None case Some(more) => Some(out + more)
  }

  lemma Grows(s: string, i: nat, out: string)
    ensures Grown(out, ReadFrom(s, i))
         == match ReadStep(s, i)
            case Close => Some(out)
            case Broken => None
            case Append(c, next) => Grown(out + [c], ReadFrom(s, next))
    ensures Grown([], ReadFrom(s, i)) == ReadFrom(s, i)
  {
    hide ReadStep;
    assert out + [] == out;
    assert ReadFrom(s, i).Some? ==> [] + ReadFrom(s, i).value == ReadFrom(s, i).value;
    match ReadStep(s, i)
    case Append(c, next) =>
      var rest := ReadFrom(s, next);
      assert rest.Some? ==> out + ([c] + rest.value) == out + [c] + rest.value;
    case _ =>
  }

  // ---- The string grammar of RFC 8259, section 7 ----

  datatype Token =
    | Plain(c: char)
    | Short(letter: char) // a two-character escape
    | Unicode(h: string) // \uXXXX
    | Pair(high: string, low: string) // two surrogate escapes naming one character
    | Lone(half: string) // a surrogate escape by itself, which names none

  predicate IsHex4(h: string) {
    |h| == 4 && forall i :: 0 <= i < 4 ==> HexDigitValue(h[i]).Some?
  }

  function Hex4Value(h: string): (v: nat)
    requires IsHex4(h)
    ensures v < 0x1_0000
  {
    HexDigitValue(h[0]).value * 0x1000 + HexDigitValue(h[1]).value * 0x100
    + HexDigitValue(h[2]).value * 0x10 + HexDigitValue(h[3]).value
  }

  predicate Valid(t: Token) {
    match t
    case Plain(c) => c as int >= 0x20 && c != '"' && c != '\\'
    case Short(l) => l in "\"\\/bfnrt"
    case Unicode(h) => IsHex4(h) && !(0xD800 <= Hex4Value(h) < 0xE000)
    case Lone(h) => IsHex4(h) && 0xD800 <= Hex4Value(h) < 0xE000
    case Pair(h, l) => IsHex4(h) && IsHex4(l) && 0xD800 <= Hex4Value(h) < 0xDC00 <= Hex4Value(l) < 0xE000
  }

  function Text(t: Token): string {
    match t
    case Plain(c) => [c]
    case Short(l) => ['\\', l]
    case Unicode(h) => ['\\', 'u'] + h
    case Pair(h, l) => ['\\', 'u'] + h + ['\\', 'u'] + l
    case Lone(h) => ['\\', 'u'] + h
  }

  /** The character the standard gives a token; a lone surrogate it gives none (section 8.2). */
  function Meaning(t: Token): char
    requires Valid(t) && !t.Lone?
  {
    match t
    case Plain(c) => c
    case Short(l) =>
      if l == 'b' then 8 as char
      else if l == 'f' then 12 as char
      else if l == 'n' then '\n'
      else if l == 'r' then '\r'
      else if l == 't' then '\t'
      else l
    case Unicode(h) => CharOrReplacement(Hex4Value(h))
    case Pair(h, l) => CharOrReplacement(0x1_0000 + (Hex4Value(h) - 0xD800) * 0x400 + (Hex4Value(l) - 0xDC00))
  }

  /** What this reader makes of a token. */
  function Reading(t: Token): string
    requires Valid(t)
  {
    match t
    case Short(l) => if l == 'n' then ['\n'] else if l == 'r' then ['\r'] else if l == 't' then ['\t'] else [l]
    case Pair(_, _) => [REPLACEMENT, REPLACEMENT]
    case Lone(_) => [REPLACEMENT]
    case _ => [Meaning(t)]
  }

  predicate AllValid(ts: seq<Token>) {
    forall i :: 0 <= i < |ts| ==> Valid(ts[i])
  }

  predicate AllMeant(ts: seq<Token>) {
    forall i :: 0 <= i < |ts| ==> !ts[i].Lone?
  }

  function Texts(ts: seq<Token>): string {
    if ts == [] then [] else Text(ts[0]) + Texts(ts[1..])
  }

  /** The tokens' text up to and including the closing quote. */
  function Body(ts: seq<Token>): string {
    Texts(ts) + ['"']
  }

  function Meanings(ts: seq<Token>): (v: string)
    requires AllValid(ts) && AllMeant(ts)
    ensures |v| == |ts|
  {
    seq(|ts|, i requires 0 <= i < |ts| => Meaning(ts[i]))
  }

  function Readings(ts: seq<Token>): string
    requires AllValid(ts)
  {
    if ts == [] then [] else Reading(ts[0]) + Readings(ts[1..])
  }

  /** `piece` is what stands in `s` at `i`. */
  ghost predicate At(s: string, i: nat, piece: string) {
    i + |piece| <= |s| && s[i..i + |piece|] == piece
  }

  lemma AtSplits(s: string, i: nat, a: string, b: string)
    requires At(s, i, a + b)
    ensures At(s, i, a) && At(s, i + |a|, b)
  {
    var whole := s[i..i + |a + b|];
    assert s[i..i + |a|] == whole[..|a|] && s[i + |a|..i + |a| + |b|] == whole[|a|..];
  }

  lemma HexReads(h: string)
    requires IsHex4(h)
    ensures FromRadix16(h) == Some(Hex4Value(h))
  {
    assert h[..3][..2] == h[..2] && h[..2][..1] == h[..1] && h[..1][..0] == [];
    assert HexValue(h[..1]) == HexDigitValue(h[0]);
    assert HexValue(h[..2]) == Some(16 * HexDigitValue(h[0]).value + HexDigitValue(h[1]).value);
    assert HexValue(h[..3]).Some?;
  }

  lemma UnicodeStep(s: string, i: nat, h: string)
    requires IsHex4(h) && At(s, i, ['\\', 'u'] + h)
    ensures ReadStep(s, i) == Append(CharOrReplacement(Hex4Value(h)), i + 6)
  {
    AtSplits(s, i, ['\\', 'u'], h);
    hide CharOrReplacement, FromRadix16, Hex4Value, IsHex4;
    assert s[i] == s[i..i + 2][0] && s[i + 1] == s[i..i + 2][1];
    HexReads(h);
  }

  lemma SimpleStep(s: string, i: nat, t: Token)
    requires (t.Plain? || t.Short?) && Valid(t) && At(s, i, Text(t))
    ensures ReadStep(s, i) == Append(Reading(t)[0], i + |Text(t)|) && |Reading(t)| == 1
  {
    assert s[i] == s[i..i + |Text(t)|][0];
    if t.Short? {
      assert s[i + 1] == s[i..i + 2][1];
    }
  }

  lemma StepsThrough(s: string, i: nat, t: Token)
    requires Valid(t) && At(s, i, Text(t))
    ensures ReadFrom(s, i)
         == match ReadFrom(s, i + |Text(t)|) case None => None case Some(rest) => Some(Reading(t) + rest)
  {
    match t
    case Unicode(h) =>
      hide ReadStep, At, Hex4Value;
      UnicodeStep(s, i, h);
    case Lone(h) =>
      hide ReadStep, At, Hex4Value;
      UnicodeStep(s, i, h);
    case Pair(h, l) =>
      hide ReadStep, At;
      PairIsTwo(s, i, h, l);
      UnicodeStep(s, i, h);
      UnicodeStep(s, i + 6, l);
      TwoReplacements(s, i);
    case _ =>
      hide ReadStep;
      SimpleStep(s, i, t);
  }

  lemma PairIsTwo(s: string, i: nat, h: string, l: string)
    requires |h| == 4 && At(s, i, Text(Pair(h, l)))
    ensures At(s, i, ['\\', 'u'] + h) && At(s, i + 6, ['\\', 'u'] + l)
  {
    assert Text(Pair(h, l)) == (['\\', 'u'] + h) + (['\\', 'u'] + l);
    AtSplits(s, i, ['\\', 'u'] + h, ['\\', 'u'] + l);
  }

  lemma TwoReplacements(s: string, i: nat)
    requires ReadStep(s, i) == Append(REPLACEMENT, i + 6) && ReadStep(s, i + 6) == Append(REPLACEMENT, i + 12)
    ensures ReadFrom(s, i) == match ReadFrom(s, i + 12) case None => None
                              case Some(rest) => Some([REPLACEMENT, REPLACEMENT] + rest)
  {
    hide ReadStep;
    var after := ReadFrom(s, i + 12);
    assert after.Some? ==> [REPLACEMENT] + ([REPLACEMENT] + after.value) == [REPLACEMENT, REPLACEMENT] + after.value;
  }

  lemma {:induction false} ReadsTokens(s: string, i: nat, ts: seq<Token>)
    requires AllValid(ts) && At(s, i, Body(ts))
    ensures ReadFrom(s, i) == Some(Readings(ts))
    decreases |ts|
  {
    hide *;
    if ts == [] {
      QuoteCloses(s, i);
    } else {
      TokensCons(ts);
      AtSplits(s, i, Text(ts[0]), Body(ts[1..]));
      StepsThrough(s, i, ts[0]);
      ReadsTokens(s, i + |Text(ts[0])|, ts[1..]);
    }
  }

  lemma QuoteCloses(s: string, i: nat)
    ensures Body([]) == ['"'] && Readings([]) == []
    ensures At(s, i, ['"']) ==> ReadFrom(s, i) == Some([])
  {
    if At(s, i, ['"']) {
      assert s[i] == s[i..i + 1][0];
    }
  }

  lemma TokensCons(ts: seq<Token>)
    requires ts != [] && AllValid(ts)
    ensures Valid(ts[0]) && AllValid(ts[1..])
    ensures Body(ts) == Text(ts[0]) + Body(ts[1..])
    ensures Readings(ts) == Reading(ts[0]) + Readings(ts[1..])
  {
    hide Text, Reading, Valid;
  }

  /** A string literal, wherever it stands after the first quote, is read token by token. */
  lemma LiteralIsRead(prefix: string, ts: seq<Token>, suffix: string)
    requires AllValid(ts) && '"' !in prefix
    ensures StringIn(prefix + ['"'] + Body(ts) + suffix) == Some(Readings(ts))
  {
    hide ReadFrom, Body, Readings, Valid;
    var s := prefix + ['"'] + Body(ts) + suffix;
    FirstQuote(prefix, Body(ts) + suffix);
    assert s == prefix + ['"'] + (Body(ts) + suffix);
    assert s[|prefix| + 1..|prefix| + 1 + |Body(ts)|] == Body(ts);
    ReadsTokens(s, |prefix| + 1, ts);
  }

  lemma FirstQuote(prefix: string, rest: string)
    requires '"' !in prefix
    ensures Find(prefix + ['"'] + rest, '"') == |prefix|
  {
    var s := prefix + ['"'] + rest;
    assert s[|prefix|] == '"';
    forall j | 0 <= j < |prefix| ensures s[j] != '"' {
      assert s[j] in prefix;
    }
  }

  // ---- What escapes name ----

  /** A hexadecimal digit counts by its place among the sixteen, in small letters or capitals. */
  lemma HexDigitCounts(c: char, k: nat)
    requires k < 16
    ensures HexDigitValue(c) == Some(k) <==> LowerChar(c) == HexDigit(k)
  {
    HexDigitNames(k);
  }

  ghost predicate Names(c: char, v: nat) {
    c as int == v
  }

  /** Four digits are a character's own escape exactly when there is such a character, and half of a pair when not. */
  lemma EscapeNamesCharacter(h: string)
    requires IsHex4(h)
    ensures Valid(Unicode(h)) <==> exists c: char :: Names(c, Hex4Value(h))
    ensures Valid(Lone(h)) <==> !Valid(Unicode(h))
    ensures Valid(Unicode(h)) ==> Names(Meaning(Unicode(h)), Hex4Value(h))
  {
    hide Hex4Value, IsHex4;
    var v := Hex4Value(h);
    if !(0xD800 <= v < 0xE000) {
      assert Names(v as char, v);
    }
  }

  /** Every character that four digits cannot name is named by a pair. */
  lemma PairNamesTheRest(c: char) returns (high: string, low: string)
    requires c as int >= 0x1_0000
    ensures Valid(Pair(high, low)) && Meaning(Pair(high, low)) == c
  {
    var v := c as int - 0x1_0000;
    var front, back := Halves(v);
    high, low := FourDigits(0xD800 + front), FourDigits(0xDC00 + back);
    FourDigitsName(0xD800 + front);
    FourDigitsName(0xDC00 + back);
    hide IsHex4, Hex4Value, FourDigits;
  }

  lemma Halves(v: nat) returns (front: nat, back: nat)
    requires v < 0x10_0000
    ensures front < 0x400 && back < 0x400 && v == front * 0x400 + back
  {
    front, back := v / 0x400, v % 0x400;
  }

  function FourDigits(v: nat): string
    requires v < 0x1_0000
  {
    [HexDigit(v / 0x1000), HexDigit(v / 0x100 % 16), HexDigit(v / 0x10 % 16), HexDigit(v % 16)]
  }

  lemma FourDigitsName(v: nat)
    requires v < 0x1_0000
    ensures IsHex4(FourDigits(v)) && Hex4Value(FourDigits(v)) == v
  {
    var h := FourDigits(v);
    HexDigitNames(v / 0x1000);
    HexDigitNames(v / 0x100 % 16);
    HexDigitNames(v / 0x10 % 16);
    HexDigitNames(v % 16);
    hide HexDigit, HexDigitValue;
    Sixteens(v);
  }

  lemma HexDigitNames(d: nat)
    requires d < 16
    ensures HexDigitValue(HexDigit(d)) == Some(d)
  {
  }

  lemma Sixteens(v: nat)
    requires v < 0x1_0000
    ensures v / 0x1000 * 0x1000 + v / 0x100 % 16 * 0x100 + v / 0x10 % 16 * 0x10 + v % 16 == v
  {
    assert v / 0x100 == v / 0x10 / 16 && v / 0x1000 == v / 0x10 / 16 / 16;
  }

  /** The five short escapes for control characters name numbers 8, 9, 10, 12 and 13. */
  lemma ShortEscapesName()
    ensures Meaning(Short('b')) as int == 8 && Meaning(Short('t')) as int == 9 && Meaning(Short('n')) as int == 10
    ensures Meaning(Short('f')) as int == 12 && Meaning(Short('r')) as int == 13
  {
  }

  // ---- Texts that are no literal ----

  /** What is read ends at a quote; without one there is nothing. */
  lemma {:induction false} UnclosedIsNothing(s: string, i: nat)
    requires i <= |s| && '"' !in s[i..]
    ensures ReadFrom(s, i) == None
    decreases |s| - i
  {
    var step := ReadStep(s, i);
    QuoteAhead(s, i);
    if step.Append? {
      assert forall c :: c in s[step.next..] ==> c in s[i..] by {
        assert s[step.next..] == s[i..][step.next - i..];
      }
      UnclosedIsNothing(s, step.next);
    }
  }

  lemma QuoteAhead(s: string, i: nat)
    requires i <= |s| && '"' !in s[i..]
    ensures !ReadStep(s, i).Close?
  {
    if i < |s| {
      assert s[i] == s[i..][0];
    }
  }

  /** A reply with an opening quote and no other is read as nothing, whatever was read before it broke off. */
  lemma UnterminatedIsNothing(prefix: string, rest: string)
    requires '"' !in prefix && '"' !in rest
    ensures StringIn(prefix + ['"'] + rest) == None
  {
    var s := prefix + ['"'] + rest;
    FirstQuote(prefix, rest);
    assert s[|prefix| + 1..] == rest;
    UnclosedIsNothing(s, |prefix| + 1);
  }

  /** Nor is anything read past an escape whose digits are none, but that a plus sign before them is let through. */
  lemma BadDigitsAreNothing(s: string, i: nat)
    requires i + 6 <= |s| && s[i] == '\\' && s[i + 1] == 'u'
    ensures var digits := if s[i + 2] == '+' then s[i + 3..i + 6] else s[i + 2..i + 6];
            (exists k :: 0 <= k < |digits| && HexDigitValue(digits[k]).None?) ==> ReadFrom(s, i) == None
  {
    var h := s[i + 2..i + 6];
    var digits := if s[i + 2] == '+' then s[i + 3..i + 6] else h;
    assert h[0] == s[i + 2] && h[1..] == s[i + 3..i + 6];
    if exists k :: 0 <= k < |digits| && HexDigitValue(digits[k]).None? {
      var k :| 0 <= k < |digits| && HexDigitValue(digits[k]).None?;
      BadDigit(digits, k);
    }
  }

  lemma {:induction false} BadDigit(h: string, k: nat)
    requires k < |h| && HexDigitValue(h[k]).None?
    ensures HexValue(h) == None
  {
    if k < |h| - 1 {
      BadDigit(h[..|h| - 1], k);
    }
  }

  // ---- Where this reader and the standard part ways ----

  /** Tokens this reader takes as the standard does: no backspace, no form feed, no surrogate pair. */
  predicate Agreed(t: Token) {
    match t
    case Short(l) => l != 'b' && l != 'f'
    case Pair(_, _) => false
    case _ => true
  }

  lemma {:induction false} AgreedReads(ts: seq<Token>)
    requires AllValid(ts) && AllMeant(ts) && forall i :: 0 <= i < |ts| ==> Agreed(ts[i])
    ensures Readings(ts) == Meanings(ts)
  {
    if ts != [] {
      AgreedReads(ts[1..]);
      assert Reading(ts[0]) == [Meaning(ts[0])];
      hide Meaning, Reading, Valid;
      assert Meanings(ts) == [Meaning(ts[0])] + Meanings(ts[1..]);
    }
  }

  /** The first token the two disagree on shows in the result. */
  lemma {:induction false} DisagreementShows(ts: seq<Token>, k: nat)
    requires AllValid(ts) && AllMeant(ts) && k < |ts| && !Agreed(ts[k]) && forall i :: 0 <= i < k ==> Agreed(ts[i])
    ensures k < |Readings(ts)| && Readings(ts)[k] != Meanings(ts)[k]
  {
    if k == 0 {
      ReadingDiffers(ts[0]);
      hide Meaning, Reading, Valid;
    } else {
      AgreedToken(ts[0]);
      hide Meaning, Reading, Valid, Agreed;
      DisagreementShows(ts[1..], k - 1);
      assert Meanings(ts[1..])[k - 1] == Meanings(ts)[k];
    }
  }

  lemma AgreedToken(t: Token)
    requires Valid(t) && !t.Lone? && Agreed(t)
    ensures Reading(t) == [Meaning(t)]
  {
  }

  lemma ReadingDiffers(t: Token)
    requires Valid(t) && !t.Lone? && !Agreed(t)
    ensures Reading(t) != [] && Reading(t)[0] != Meaning(t)
  {
    if t.Pair? {
      var cp := 0x1_0000 + (Hex4Value(t.high) - 0xD800) * 0x400 + (Hex4Value(t.low) - 0xDC00);
      assert 0x1_0000 <= cp < 0x11_0000;
      assert Meaning(t) as int == cp;
      assert REPLACEMENT as int == 0xFFFD;
    }
  }

  /** On every string literal with a meaning, the reader returns it exactly when all tokens are agreed. */
  lemma ReadsAsStandardIffAgreed(prefix: string, ts: seq<Token>, suffix: string)
    requires AllValid(ts) && AllMeant(ts) && '"' !in prefix
    ensures StringIn(prefix + ['"'] + Body(ts) + suffix) == Some(Meanings(ts))
        <==> forall i :: 0 <= i < |ts| ==> Agreed(ts[i])
  {
    hide StringIn, Meaning, Readings, Valid, Agreed, Body;
    LiteralIsRead(prefix, ts, suffix);
    if forall i :: 0 <= i < |ts| ==> Agreed(ts[i]) {
      AgreedReads(ts);
    } else {
      var k := FirstDisagreed(ts);
      DisagreementShows(ts, k);
    }
  }

  lemma {:induction false} FirstDisagreed(ts: seq<Token>) returns (k: nat)
    requires exists i :: 0 <= i < |ts| && !Agreed(ts[i])
    ensures k < |ts| && !Agreed(ts[k]) && forall i :: 0 <= i < k ==> Agreed(ts[i])
  {
    hide Agreed;
    k := 0;
    while Agreed(ts[k])
      invariant k < |ts| && forall i :: 0 <= i < k ==> Agreed(ts[i])
      decreases |ts| - k
    {
      assert exists i :: k < i < |ts| && !Agreed(ts[i]);
      k := k + 1;
    }
  }

  // ---- Round trip ----

  /** The writer's escape for a character, as a token of the standard. */
  function TokenOf(c: char): Token {
    if c == '"' || c == '\\' then Short(c)
    else if c == '\n' then Short('n')
    else if c == '\r' then Short('r')
    else if c == '\t' then Short('t')
    else if c as int < 0x20 then Unicode([HexDigit(0), HexDigit(0), HexDigit(c as int / 16), HexDigit(c as int % 16)])
    else Plain(c)
  }

  lemma HexDigitReads(d: nat)
    requires d < 16
    ensures HexDigitValue(HexDigit(d)) == Some(d)
  {
  }

  /** What is written for a character is well-formed, means that character, and is read as it. */
  lemma EscapeIsToken(c: char)
    ensures Valid(TokenOf(c)) && !TokenOf(c).Lone? && Agreed(TokenOf(c))
    ensures Text(TokenOf(c)) == Escape(c) && Meaning(TokenOf(c)) == c
  {
    if c as int < 0x20 && c != '\n' && c != '\r' && c != '\t' {
      HexDigitReads(0);
      HexDigitReads(c as int / 16);
      HexDigitReads(c as int % 16);
      hide HexDigit, HexDigitValue;
      var h := [HexDigit(0), HexDigit(0), HexDigit(c as int / 16), HexDigit(c as int % 16)];
      assert Hex4Value(h) == c as int;
    }
  }

  function TokensOf(s: string): (ts: seq<Token>)
    ensures |ts| == |s|
  {
    seq(|s|, i requires 0 <= i < |s| => TokenOf(s[i]))
  }

  lemma {:induction false} TextsOneMore(ts: seq<Token>, t: Token)
    ensures Texts(ts + [t]) == Texts(ts) + Text(t)
  {
    hide Text;
    if ts == [] {
      assert [t][1..] == [];
    } else {
      TextsOneMore(ts[1..], t);
      assert (ts + [t])[1..] == ts[1..] + [t];
    }
  }

  lemma {:induction false} EscapedIsTokens(s: string)
    ensures Texts(TokensOf(s)) == Escaped(s)
  {
    if s == [] {
      assert TokensOf(s) == [];
    } else {
      var init, last := s[..|s| - 1], s[|s| - 1];
      assert s == init + [last];
      LastEscaped(init, last);
      hide *;
      EscapedIsTokens(init);
      EscapeIsToken(last);
      TextsOneMore(TokensOf(init), TokenOf(last));
    }
  }

  lemma LastEscaped(init: string, last: char)
    ensures TokensOf(init + [last]) == TokensOf(init) + [TokenOf(last)]
    ensures Escaped(init + [last]) == Escaped(init) + Escape(last)
  {
    hide TokenOf, Escape;
    assert (init + [last])[..|init|] == init;
  }

  /** Every string survives being written and read back, whatever stands around it. */
  lemma StringReadsBack(prefix: string, s: string, suffix: string)
    requires '"' !in prefix
    ensures StringIn(prefix + (['"'] + Escaped(s) + ['"']) + suffix) == Some(s)
  {
    hide *;
    EscapedIsTokens(s);
    TokensMean(s);
    ReadsAsStandardIffAgreed(prefix, TokensOf(s), suffix);
    Reassociate(prefix, TokensOf(s), suffix);
  }

  lemma TokensMean(s: string)
    ensures AllValid(TokensOf(s)) && AllMeant(TokensOf(s)) && Meanings(TokensOf(s)) == s
    ensures forall i :: 0 <= i < |TokensOf(s)| ==> Agreed(TokensOf(s)[i])
  {
    var ts := TokensOf(s);
    forall i | 0 <= i < |s| ensures Valid(ts[i]) && !ts[i].Lone? && Agreed(ts[i]) && Meaning(ts[i]) == s[i] {
      EscapeIsToken(s[i]);
    }
    hide Valid, Agreed, Meaning, TokenOf;
  }

  lemma Reassociate(prefix: string, ts: seq<Token>, suffix: string)
    ensures prefix + (['"'] + Texts(ts) + ['"']) + suffix == prefix + ['"'] + Body(ts) + suffix
  {
    hide Texts;
  }

  // ---- Picking the answer out of a response ----

  ghost predicate FoundAt(body: string, key: string, at: nat) {
    At(body, at, key) && forall j: nat :: j < at ==> !At(body, j, key)
  }

  /** Where `key` first stands at or after `from`. */
  method FindKey(body: string, key: string) returns (at: Option<nat>)
    ensures at.Some? ==> FoundAt(body, key, at.value)
    ensures at == None ==> forall j: nat :: !At(body, j, key)
  {
    var i := 0;
    while i + |key| <= |body|
      invariant i <= |body| + 1
      invariant forall j: nat :: j < i ==> !At(body, j, key)
    {
      if body[i..i + |key|] == key {
        return Some(i);
      }
      i := i + 1;
    }
    return None;
  }

  /** The string after the first colon after the first `key`. */
  method ExtractText(body: string, key: string) returns (r: Option<string>)
    ensures (forall j: nat :: !At(body, j, key)) ==> r == None
    ensures forall at: nat :: FoundAt(body, key, at) ==>
              var after := body[at + |key|..];
              r == if ':' in after then StringIn(after[Find(after, ':') + 1..]) else None
  {
    hide *;
    var at := FindKey(body, key);
    NotFound(body, key);
    if at == None {
      return None;
    }
    FoundOnce(body, key, at.value);
    var after := body[at.value + |key|..];
    var colon := Find(after, ':');
    if colon == |after| {
      return None;
    }
    r := ReadJsonString(after[colon + 1..]);
  }

  lemma NotFound(body: string, key: string)
    ensures (forall j: nat :: !At(body, j, key)) ==> forall at: nat :: !FoundAt(body, key, at)
    ensures forall at: nat :: FoundAt(body, key, at) ==> At(body, at, key) && at + |key| <= |body|
  {
  }

  lemma FoundOnce(body: string, key: string, at: nat)
    requires FoundAt(body, key, at)
    ensures forall other: nat :: FoundAt(body, key, other) ==> other == at
  {
    hide At;
  }

  /**
   * In a response whose first `key` labels it, the answer comes back as it was written: nothing
   * before the key, and neither a colon nor a quote between key, colon and string, can mislead it.
   */
  lemma AnswerIsExtracted(body: string, key: string, at: nat, gap: string, blank: string, answer: string, tail: string)
    requires FoundAt(body, key, at)
    requires body[at + |key|..] == gap + [':'] + (blank + (['"'] + Escaped(answer) + ['"']) + tail)
    requires ':' !in gap && '"' !in blank
    ensures var after := body[at + |key|..];
            ':' in after && StringIn(after[Find(after, ':') + 1..]) == Some(answer)
  {
    hide Escaped, StringIn, At;
    var rest := blank + (['"'] + Escaped(answer) + ['"']) + tail;
    FirstColon(gap, rest);
    StringReadsBack(blank, answer, tail);
  }

  lemma FirstColon(gap: string, rest: string)
    requires ':' !in gap
    ensures var after := gap + [':'] + rest;
            ':' in after && Find(after, ':') == |gap| && after[|gap| + 1..] == rest
  {
    var after := gap + [':'] + rest;
    assert after[|gap|] == ':';
    forall j | 0 <= j < |gap| ensures after[j] != ':' {
      assert after[j] in gap;
    }
  }
}
