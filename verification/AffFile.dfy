/** Reading the notations of a Hunspell affix file: conditions and flags. */
module AffFile {
  import opened Strings
  import opened Text
  import opened Hunspell

  // ---- Conditions ----

  /** The first closing bracket at or after `i`. */
  function ClassEnd(s: string, i: nat): (end: nat)
    requires i <= |s|
    ensures i <= end <= |s|
    ensures forall k :: i <= k < end ==> s[k] != ']'
    ensures end < |s| ==> s[end] == ']'
    decreases |s| - i
  {
    if i == |s| || s[i] == ']' then i else ClassEnd(s, i + 1)
  }

  /** One atom and where the next begins; a class left open runs to the end. */
  function NextAtom(s: string, i: nat): (r: (Atom, nat))
    requires i < |s|
    ensures i < r.1 <= |s|
  {
    if s[i] == '.' then (Any, i + 1)
    else if s[i] != '[' then (Literal(s[i]), i + 1)
    else
      var negated := i + 1 < |s| && s[i + 1] == '^';
      var begin := if negated then i + 2 else i + 1;
      var end := ClassEnd(s, begin);
      (if negated then NegClass(s[begin..end]) else Class(s[begin..end]), if end < |s| then end + 1 else end)
  }

  function AtomsFrom(s: string, i: nat): seq<Atom>
    requires i <= |s|
    decreases |s| - i
  {
    if i == |s| then [] else [NextAtom(s, i).0] + AtomsFrom(s, NextAtom(s, i).1)
  }

  method ReadAtom(s: string, at: nat) returns (atom: Atom, i: nat)
    requires at < |s|
    ensures (atom, i) == NextAtom(s, at)
  {
    i := at + 1;
    if s[at] == '.' {
      return Any, i;
    }
    if s[at] != '[' {
      return Literal(s[at]), i;
    }
    var negated := i < |s| && s[i] == '^';
    if negated {
      i := i + 1;
    }
    ghost var begin := i;
    var chars := "";
    while i < |s| && s[i] != ']'
      invariant begin <= i <= |s| && chars == s[begin..i]
      invariant ClassEnd(s, begin) == ClassEnd(s, i)
    {
      assert s[begin..i + 1] == s[begin..i] + [s[i]];
      chars := chars + [s[i]];
      i := i + 1;
    }
    if i < |s| {
      i := i + 1;
    }
    atom := if negated then NegClass(chars) else Class(chars);
  }

  /** A condition's atoms, and whether it asks anything: a lone dot does not, not even for a character. */
  function Condition(s: string): (seq<Atom>, bool) {
    if s == "." then ([], true) else (AtomsFrom(s, 0), false)
  }

  method ParseCondition(s: string) returns (atoms: seq<Atom>, unconditional: bool)
    ensures (atoms, unconditional) == Condition(s)
  {
    if s == "." {
      return [], true;
    }
    atoms, unconditional := [], false;
    var i := 0;
    while i < |s|
      invariant i <= |s|
      invariant atoms + AtomsFrom(s, i) == AtomsFrom(s, 0)
      decreases |s| - i
    {
      hide AtomsFrom, NextAtom;
      AtomsNext(s, i);
      var atom;
      atom, i := ReadAtom(s, i);
      Regroup(atoms, [atom], AtomsFrom(s, i));
      atoms := atoms + [atom];
    }
    NothingLeft(s);
    assert atoms + [] == atoms;
  }

  lemma AtomsNext(s: string, i: nat)
    requires i < |s|
    ensures AtomsFrom(s, i) == [NextAtom(s, i).0] + AtomsFrom(s, NextAtom(s, i).1)
  {
  }

  function Written(atom: Atom): string {
    match atom
    case Any => "."
    case Literal(c) => [c]
    case Class(chars) => "[" + chars + "]"
    case NegClass(chars) => "[^" + chars + "]"
  }

  function AllWritten(atoms: seq<Atom>): string {
    if atoms == [] then "" else Written(atoms[0]) + AllWritten(atoms[1..])
  }

  /** What the notation has a spelling for. */
  predicate Writable(atom: Atom) {
    match atom
    case Any => true
    case Literal(c) => c != '.' && c != '['
    case Class(chars) => ']' !in chars && (chars != [] ==> chars[0] != '^')
    case NegClass(chars) => ']' !in chars
  }

  predicate AllWritable(atoms: seq<Atom>) {
    forall k :: 0 <= k < |atoms| ==> Writable(atoms[k])
  }

  lemma {:induction false} ClassEndAt(s: string, i: nat, end: nat)
    requires i <= end < |s| && s[end] == ']' && forall k :: i <= k < end ==> s[k] != ']'
    ensures ClassEnd(s, i) == end
    decreases end - i
  {
    if i < end {
      ClassEndAt(s, i + 1, end);
    }
  }

  /** `piece` stands in `s` at `i`. */
  ghost predicate StandsAt(s: string, i: nat, piece: string) {
    i + |piece| <= |s| && forall k :: 0 <= k < |piece| ==> s[i + k] == piece[k]
  }

  lemma ClassReads(s: string, i: nat, open: string, chars: string)
    requires open == "[" || open == "[^"
    requires StandsAt(s, i, open + chars + "]") && ']' !in chars
    ensures ClassEnd(s, i + |open|) == i + |open| + |chars|
    ensures s[i + |open|..i + |open| + |chars|] == chars
    ensures s[i] == '[' && i + |open| + |chars| < |s|
    ensures open == "[^" ==> s[i + 1] == '^'
    ensures open == "[" && chars != [] ==> s[i + 1] == chars[0]
    ensures open == "[" && chars == [] ==> s[i + 1] == ']'
  {
    var piece, begin := open + chars + "]", i + |open|;
    assert piece[0] == '[' && (open == "[^" ==> piece[1] == '^');
    assert s[i + 0] == piece[0] && s[i + 1] == piece[1];
    forall k | begin <= k < begin + |chars| ensures s[k] == chars[k - begin] != ']' {
      assert s[i + (k - i)] == piece[k - i] == chars[k - begin];
      assert chars[k - begin] in chars;
    }
    assert s[i + (|piece| - 1)] == piece[|piece| - 1];
    ClassEndAt(s, begin, begin + |chars|);
  }

  lemma AtomReads(s: string, i: nat, atom: Atom)
    requires StandsAt(s, i, Written(atom)) && Writable(atom)
    ensures |Written(atom)| > 0 && NextAtom(s, i) == (atom, i + |Written(atom)|)
  {
    match atom
    case Class(chars) =>
      ClassReads(s, i, "[", chars);
    case NegClass(chars) =>
      ClassReads(s, i, "[^", chars);
    case _ =>
      assert s[i + 0] == Written(atom)[0];
  }

  /** No text reads as an atom the notation cannot spell. */
  lemma ReadIsWritable(s: string, i: nat)
    requires i < |s|
    ensures Writable(NextAtom(s, i).0)
  {
  }

  lemma {:induction false} AtomsRead(s: string, i: nat, atoms: seq<Atom>)
    requires StandsAt(s, i, AllWritten(atoms)) && i + |AllWritten(atoms)| == |s| && AllWritable(atoms)
    ensures AtomsFrom(s, i) == atoms
    decreases |atoms|
  {
    hide Written, Writable, NextAtom;
    if atoms != [] {
      var first, rest := atoms[0], atoms[1..];
      StandsSplit(s, i, Written(first), AllWritten(rest));
      AtomReads(s, i, first);
      AtomsRead(s, i + |Written(first)|, rest);
      assert atoms == [first] + rest;
    }
  }

  lemma StandsSplit(s: string, i: nat, a: string, b: string)
    requires StandsAt(s, i, a + b)
    ensures StandsAt(s, i, a) && StandsAt(s, i + |a|, b)
  {
    forall k | 0 <= k < |a| ensures s[i + k] == a[k] {
      assert (a + b)[k] == a[k];
    }
    forall k | 0 <= k < |b| ensures s[i + |a| + k] == b[k] {
      assert s[i + (|a| + k)] == (a + b)[|a| + k];
    }
  }

  lemma {:induction false} AllReadAreWritable(s: string, i: nat)
    requires i <= |s|
    ensures AllWritable(AtomsFrom(s, i))
    decreases |s| - i
  {
    hide NextAtom, Writable;
    if i < |s| {
      ReadIsWritable(s, i);
      AllReadAreWritable(s, NextAtom(s, i).1);
    }
  }

  lemma AtomsReadBackIffWritable(atoms: seq<Atom>)
    ensures AtomsFrom(AllWritten(atoms), 0) == atoms <==> AllWritable(atoms)
  {
    hide AllWritten, AllWritable, AtomsFrom;
    AllReadAreWritable(AllWritten(atoms), 0);
    if AllWritable(atoms) {
      AtomsRead(AllWritten(atoms), 0, atoms);
    }
  }

  /**
   * Written out and read again, a condition is itself exactly when the notation can spell its atoms and
   * it is not one lone `Any`, which is spelled like the condition that asks nothing.
   */
  lemma ConditionReadsBackIffWritable(atoms: seq<Atom>)
    ensures Condition(AllWritten(atoms)) == (atoms, false) <==> AllWritable(atoms) && atoms != [Any]
  {
    LoneDot();
    AtomsReadBackIffWritable(atoms);
    hide AllWritten, AllWritable, AtomsFrom;
  }

  lemma LoneDot()
    ensures AllWritten([Any]) == "." && AtomsFrom(".", 0) == [Any]
  {
    WrittenFirst(Any, []);
    NothingWritten();
    NothingLeft(".");
    assert NextAtom(".", 0) == (Any, 1);
  }

  /** Reading loses nothing: written out, what was read is the text, with a class left open closed. */
  lemma {:induction false} ReadingLosesNothing(s: string, i: nat)
    requires i <= |s|
    ensures AllWritten(AtomsFrom(s, i)) == s[i..] || AllWritten(AtomsFrom(s, i)) == s[i..] + "]"
    decreases |s| - i
  {
    hide NextAtom, Written, AllWritten;
    if i == |s| {
      assert AllWritten(AtomsFrom(s, i)) == "" by {
        NothingWritten();
      }
    } else {
      var (atom, next) := NextAtom(s, i);
      ReadingLosesNothing(s, next);
      AtomIsSpelled(s, i);
      WrittenFirst(atom, AtomsFrom(s, next));
      SpellsOn(s, i, next, Written(atom), AllWritten(AtomsFrom(s, next)));
    }
  }

  lemma NothingWritten()
    ensures AllWritten([]) == ""
  {
  }

  lemma WrittenFirst(atom: Atom, rest: seq<Atom>)
    ensures AllWritten([atom] + rest) == Written(atom) + AllWritten(rest)
  {
    assert ([atom] + rest)[1..] == rest;
  }

  lemma SpellsOn(s: string, i: nat, next: nat, first: string, rest: string)
    requires i <= next <= |s|
    requires first == s[i..next] || (next == |s| && first == s[i..next] + "]" && rest == "")
    requires rest == s[next..] || rest == s[next..] + "]"
    ensures first + rest == s[i..] || first + rest == s[i..] + "]"
  {
    assert s[i..] == s[i..next] + s[next..];
  }

  lemma AtomIsSpelled(s: string, i: nat)
    requires i < |s|
    ensures var (atom, next) := NextAtom(s, i);
            Written(atom) == s[i..next]
            || (next == |s| && Written(atom) == s[i..next] + "]" && AllWritten(AtomsFrom(s, next)) == "")
  {
    NothingWritten();
    NothingLeft(s);
    if s[i] == '[' {
      BracketIsSpelled(s, i);
    } else {
      LiteralIsSpelled(s, i);
    }
    hide *;
  }

  lemma LiteralIsSpelled(s: string, i: nat)
    requires i < |s| && s[i] != '['
    ensures Written(NextAtom(s, i).0) == s[i..NextAtom(s, i).1]
  {
    assert s[i..i + 1] == [s[i]];
  }

  lemma BracketIsSpelled(s: string, i: nat)
    requires i < |s| && s[i] == '['
    ensures var (atom, next) := NextAtom(s, i);
            Written(atom) == s[i..next] || (next == |s| && Written(atom) == s[i..next] + "]")
  {
    var negated := i + 1 < |s| && s[i + 1] == '^';
    var begin := if negated then i + 2 else i + 1;
    var open := if negated then "[^" else "[";
    ClassIsSpelled(s, i, begin, open);
    WrittenClass(s[begin..ClassEnd(s, begin)]);
    hide ClassEnd, Written;
  }

  lemma WrittenClass(chars: string)
    ensures Written(Class(chars)) == "[" + chars + "]" && Written(NegClass(chars)) == "[^" + chars + "]"
  {
  }

  lemma NothingLeft(s: string)
    ensures AtomsFrom(s, |s|) == []
  {
  }

  lemma ClassIsSpelled(s: string, i: nat, begin: nat, open: string)
    requires i <= begin <= |s| && |open| == begin - i && forall k :: 0 <= k < |open| ==> open[k] == s[i + k]
    ensures var end := ClassEnd(s, begin);
            && open + s[begin..end] + "]" == if end < |s| then s[i..end + 1] else s[i..end] + "]"
  {
    var end := ClassEnd(s, begin);
    assert s[i..end] == open + s[begin..end];
    if end < |s| {
      assert s[i..end + 1] == s[i..end] + [s[end]];
    }
  }

  // ---- Flags ----

  datatype FlagType = Ascii | Utf8 | Long | Num

  function Pairs(s: string): seq<string> {
    if s == "" then [] else if |s| == 1 then [s] else [s[..2]] + Pairs(s[2..])
  }

  function TrimmedNonEmpty(whitespace: char -> bool, pieces: seq<string>): seq<string> {
    if pieces == [] then []
    else
      var piece := Trim(whitespace, pieces[0]);
      (if piece == "" then [] else [piece]) + TrimmedNonEmpty(whitespace, pieces[1..])
  }

  /** A flag string in its flags: one character each, two each, or numbers between commas. */
  function SplitFlags(whitespace: char -> bool, mode: FlagType, s: string): seq<string> {
    if s == "" then []
    else
      match mode
      case Long => Pairs(s)
      case Num => TrimmedNonEmpty(whitespace, Split(Is(','), s))
      case _ => seq(|s|, i requires 0 <= i < |s| => [s[i]])
  }

  /** Flags as an affix file writes them. */
  function WriteFlags(mode: FlagType, flags: seq<string>): string {
    match mode
    case Num => Join(',', flags)
    case _ => Concat(flags)
  }

  function Concat(pieces: seq<string>): string {
    if pieces == [] then "" else pieces[0] + Concat(pieces[1..])
  }

  /** What each mode can write as a flag. */
  predicate IsFlag(whitespace: char -> bool, mode: FlagType, flag: string) {
    match mode
    case Long => |flag| == 2
    case Num => flag != "" && ',' !in flag && Trim(whitespace, flag) == flag
    case _ => |flag| == 1
  }

  predicate AreFlags(whitespace: char -> bool, mode: FlagType, flags: seq<string>) {
    forall k :: 0 <= k < |flags| ==> IsFlag(whitespace, mode, flags[k])
  }

  lemma {:induction false} PairsReadBack(flags: seq<string>)
    requires forall k :: 0 <= k < |flags| ==> |flags[k]| == 2
    ensures Pairs(Concat(flags)) == flags
  {
    if flags != [] {
      PairsReadBack(flags[1..]);
      var s := Concat(flags);
      assert s[..2] == flags[0] && s[2..] == Concat(flags[1..]);
      assert flags == [flags[0]] + flags[1..];
    }
  }

  lemma {:induction false} CharsReadBack(flags: seq<string>)
    requires forall k :: 0 <= k < |flags| ==> |flags[k]| == 1
    ensures |Concat(flags)| == |flags| && forall k :: 0 <= k < |flags| ==> [Concat(flags)[k]] == flags[k]
  {
    if flags != [] {
      CharsReadBack(flags[1..]);
      forall k | 0 <= k < |flags| ensures [Concat(flags)[k]] == flags[k] {
        if k == 0 {
          assert flags[0] == [flags[0][0]];
        } else {
          assert flags[k] == flags[1..][k - 1];
        }
      }
    }
  }

  lemma {:induction false} TrimmedStay(whitespace: char -> bool, pieces: seq<string>)
    requires forall k :: 0 <= k < |pieces| ==> pieces[k] != "" && Trim(whitespace, pieces[k]) == pieces[k]
    ensures TrimmedNonEmpty(whitespace, pieces) == pieces
  {
    hide Trim;
    if pieces != [] {
      TrimmedStay(whitespace, pieces[1..]);
      assert pieces == [pieces[0]] + pieces[1..];
    }
  }

  /** In every mode, flags written one after the other are read back. */
  lemma FlagsReadBack(whitespace: char -> bool, mode: FlagType, flags: seq<string>)
    requires AreFlags(whitespace, mode, flags)
    ensures SplitFlags(whitespace, mode, WriteFlags(mode, flags)) == flags
  {
    hide Trim, Split, Pairs, TrimmedNonEmpty, Concat, Join;
    match mode
    case Long =>
      PairsReadBack(flags);
      EmptyFlags(flags);
    case Num =>
      EmptyFlags(flags);
      if flags != [] {
        JoinSplits(Is(','), ',', flags);
        TrimmedStay(whitespace, flags);
        EmptyPiece();
        assert IsFlag(whitespace, mode, flags[0]);
      }
    case _ =>
      CharsReadBack(flags);
  }

  lemma EmptyFlags(flags: seq<string>)
    ensures flags == [] ==> Concat(flags) == "" && Join(',', flags) == ""
    ensures Pairs("") == []
  {
  }

  lemma EmptyPiece()
    ensures Split(Is(','), "") == [""]
  {
  }

  /** No mode ever reads an empty flag. */
  lemma NoEmptyFlag(whitespace: char -> bool, mode: FlagType, s: string)
    ensures "" !in SplitFlags(whitespace, mode, s)
  {
    PairsNonEmpty(s);
    TrimmedHasNoEmpty(whitespace, Split(Is(','), s));
    hide Pairs, TrimmedNonEmpty, Split;
  }

  lemma {:induction false} PairsNonEmpty(s: string)
    ensures "" !in Pairs(s)
  {
    if |s| > 1 {
      PairsNonEmpty(s[2..]);
    }
  }

  lemma {:induction false} TrimmedHasNoEmpty(whitespace: char -> bool, pieces: seq<string>)
    ensures "" !in TrimmedNonEmpty(whitespace, pieces)
  {
    if pieces != [] {
      TrimmedHasNoEmpty(whitespace, pieces[1..]);
    }
  }
}
