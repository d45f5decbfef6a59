/** What the condition of an affix rule asks of a word, told from its text. */
module Conditions {
  import opened Options
  import opened Hunspell
  import opened AffFile

  // ---- The notation ----

  /** One position of a condition: anything, one letter, or a choice of letters between brackets. */
  predicate IsPiece(piece: string) {
    || piece == "."
    || (|piece| == 1 && piece[0] != '.' && piece[0] != '[')
    || IsChoice(piece)
  }

  predicate IsChoice(piece: string) {
    |piece| >= 2 && piece[0] == '[' && piece[|piece| - 1] == ']' && ']' !in piece[..|piece| - 1]
  }

  predicate Excludes(piece: string) {
    IsChoice(piece) && piece[1] == '^'
  }

  /** The letters a choice names. */
  function Listed(piece: string): string
    requires IsChoice(piece)
  {
    piece[if Excludes(piece) then 2 else 1..|piece| - 1]
  }

  /** A dot allows any character, a letter itself, brackets what they list, or all but that after a caret. */
  predicate Allows(piece: string, c: char)
    requires IsPiece(piece)
  {
    if piece == "." then true
    else if Excludes(piece) then c !in Listed(piece)
    else if IsChoice(piece) then c in Listed(piece)
    else c == piece[0]
  }

  ghost predicate AllPieces(pieces: seq<string>) {
    forall k :: 0 <= k < |pieces| ==> IsPiece(pieces[k])
  }

  /** A last choice may be left without its closing bracket. */
  ghost predicate MayBeOpen(pieces: seq<string>) {
    pieces != [] && IsChoice(pieces[|pieces| - 1])
  }

  ghost function TextOf(pieces: seq<string>, open: bool): string
    requires AllPieces(pieces) && (open ==> MayBeOpen(pieces))
    decreases |pieces|
  {
    if pieces == [] then ""
    else if |pieces| == 1 && open then pieces[0][..|pieces[0]| - 1]
    else pieces[0] + TextOf(pieces[1..], open)
  }

  // ---- How it is read ----

  ghost function AtomOf(piece: string): Atom
    requires IsPiece(piece)
  {
    if piece == "." then Any
    else if Excludes(piece) then NegClass(Listed(piece))
    else if IsChoice(piece) then Class(Listed(piece))
    else Literal(piece[0])
  }

  ghost function AtomsOf(pieces: seq<string>): (atoms: seq<Atom>)
    requires AllPieces(pieces)
    ensures |atoms| == |pieces| && forall k :: 0 <= k < |pieces| ==> atoms[k] == AtomOf(pieces[k])
  {
    seq(|pieces|, k requires 0 <= k < |pieces| => AtomOf(pieces[k]))
  }

  lemma AtomIsPiece(piece: string)
    requires IsPiece(piece)
    ensures Writable(AtomOf(piece)) && Written(AtomOf(piece)) == piece
  {
    if IsChoice(piece) {
      ChoiceIsListed(piece);
      hide IsChoice, Excludes, Listed;
    }
  }

  lemma ChoiceIsListed(piece: string)
    requires IsChoice(piece)
    ensures piece != "." && ']' !in Listed(piece)
    ensures piece == (if Excludes(piece) then "[^" else "[") + Listed(piece) + "]"
    ensures !Excludes(piece) && Listed(piece) != [] ==> Listed(piece)[0] != '^'
  {
    var listed, before := Listed(piece), piece[..|piece| - 1];
    var from := if Excludes(piece) then 2 else 1;
    assert from < |piece|;
    forall k | 0 <= k < |listed| ensures listed[k] != ']' {
      assert listed[k] == before[from + k] && before[from + k] in before;
    }
  }

  lemma AtomMatches(piece: string, c: char)
    requires IsPiece(piece)
    ensures MatchAtom(AtomOf(piece), c) <==> Allows(piece, c)
  {
  }

  lemma OpenText(s: string, i: nat, piece: string)
    requires i <= |s| && IsChoice(piece) && s[i..] == piece[..|piece| - 1]
    ensures |s| == i + |piece| - 1
    ensures forall k :: 0 <= k < |piece| - 1 ==> s[i + k] == piece[k]
    ensures forall j :: i <= j < |s| ==> s[j] != ']'
  {
    var shown := piece[..|piece| - 1];
    assert forall k :: 0 <= k < |shown| ==> s[i + k] == s[i..][k] == shown[k];
    forall j | i <= j < |s| ensures s[j] != ']' {
      assert s[j] == s[i..][j - i] == shown[j - i] && shown[j - i] in shown;
    }
  }

  lemma OpenChoiceReads(s: string, i: nat, piece: string)
    requires i <= |s| && IsChoice(piece) && s[i..] == piece[..|piece| - 1]
    ensures i < |s| && NextAtom(s, i) == (AtomOf(piece), |s|)
  {
    OpenText(s, i, piece);
    var from := if Excludes(piece) then 2 else 1;
    assert s[i + 0] == piece[0] && (i + 1 < |s| ==> s[i + 1] == piece[1]);
    OpenEnd(s, i, piece, from);
    assert piece[0] == '[' && piece != ".";
    hide ClassEnd, IsChoice;
  }

  lemma OpenEnd(s: string, i: nat, piece: string, from: nat)
    requires i <= |s| && 1 <= from < |piece| && |s| == i + |piece| - 1
    requires forall k :: 0 <= k < |piece| - 1 ==> s[i + k] == piece[k]
    requires forall j :: i <= j < |s| ==> s[j] != ']'
    ensures ClassEnd(s, i + from) == |s| && s[i + from..|s|] == piece[from..|piece| - 1]
  {
    var left := piece[from..|piece| - 1];
    forall k | 0 <= k < |left| ensures s[i + from..|s|][k] == left[k] {
      assert piece[from + k] == s[i + (from + k)];
    }
  }

  lemma {:induction false} PiecesAreRead(s: string, i: nat, pieces: seq<string>, open: bool)
    requires i <= |s| && AllPieces(pieces) && (open ==> MayBeOpen(pieces)) && s[i..] == TextOf(pieces, open)
    ensures AtomsFrom(s, i) == AtomsOf(pieces)
    decreases |pieces|
  {
    hide AtomOf, NextAtom, IsPiece;
    if pieces == [] {
      NothingLeft(s);
    } else if |pieces| == 1 && open {
      OpenChoiceReads(s, i, pieces[0]);
      NothingLeft(s);
      AtomsNext(s, i);
      assert AtomsOf(pieces) == [AtomOf(pieces[0])];
    } else {
      var next := PieceIsRead(s, i, pieces[0], TextOf(pieces[1..], open));
      PiecesAreRead(s, next, pieces[1..], open);
      hide TextOf;
      assert AtomsOf(pieces) == [AtomOf(pieces[0])] + AtomsOf(pieces[1..]);
    }
  }

  lemma PieceIsRead(s: string, i: nat, piece: string, rest: string) returns (next: nat)
    requires i <= |s| && IsPiece(piece) && s[i..] == piece + rest
    ensures i < next <= |s| && s[next..] == rest
    ensures AtomsFrom(s, i) == [AtomOf(piece)] + AtomsFrom(s, next)
  {
    hide AtomOf, NextAtom, AtomsFrom, IsChoice;
    next := i + |piece|;
    AtomIsPiece(piece);
    Stands(s, i, piece, rest);
    hide StandsAt, IsPiece, Written, Writable;
    AtomReads(s, i, AtomOf(piece));
    AtomsNext(s, i);
  }

  lemma Stands(s: string, i: nat, piece: string, rest: string)
    requires i <= |s| && s[i..] == piece + rest
    ensures StandsAt(s, i, piece) && s[i + |piece|..] == rest
  {
    assert forall k :: 0 <= k < |piece| ==> s[i + k] == s[i..][k] == piece[k];
    assert s[i + |piece|..] == s[i..][|piece|..];
  }

  // ---- What it asks ----

  /** The rule a line with this condition makes. */
  function Conditioned(strip: nat, add: string, continuation: seq<string>, text: string): Rule {
    Rule(strip, add, continuation, Condition(text).0, Condition(text).1)
  }

  /** From position `from` on, the word has what the pieces allow; a lone dot asks for nothing. */
  ghost predicate Asks(pieces: seq<string>, word: string, from: int)
    requires AllPieces(pieces)
  {
    || pieces == ["."]
    || (0 <= from && from + |pieces| <= |word|
        && forall k :: 0 <= k < |pieces| ==> Allows(pieces[k], word[from + k]))
  }

  lemma ConditionIsRead(pieces: seq<string>, open: bool)
    requires AllPieces(pieces) && (open ==> MayBeOpen(pieces))
    ensures Condition(TextOf(pieces, open))
         == if pieces == ["."] then ([], true) else (AtomsOf(pieces), false)
  {
    var s := TextOf(pieces, open);
    assert s[0..] == s;
    PiecesAreRead(s, 0, pieces, open);
    if s == "." {
      LoneDot();
      assert AtomOf(pieces[0]) == Any;
    }
  }

  /** A suffix rule applies to a word exactly where each of its last characters is one its condition allows. */
  lemma SuffixConditionAsks(
    pieces: seq<string>, open: bool, strip: nat, add: string, continuation: seq<string>, word: string
  )
    requires AllPieces(pieces) && (open ==> MayBeOpen(pieces))
    ensures ApplySfx(word, Conditioned(strip, add, continuation, TextOf(pieces, open)))
         == if Asks(pieces, word, |word| - |pieces|) && strip <= |word| then Some(word[..|word| - strip] + add)
            else None
  {
    hide *;
    ConditionIsRead(pieces, open);
    AskedByAtoms(pieces, word, |word| - |pieces|);
    ConditionedIs(strip, add, continuation, TextOf(pieces, open));
    SuffixFits(word, Conditioned(strip, add, continuation, TextOf(pieces, open)));
  }

  lemma ConditionedIs(strip: nat, add: string, continuation: seq<string>, text: string)
    ensures var rule := Conditioned(strip, add, continuation, text);
            && rule.stripChars == strip && rule.add == add
            && (rule.condition, rule.unconditional) == Condition(text)
  {
    hide Condition;
  }

  ghost predicate FitsAt(condition: seq<Atom>, word: string, from: int) {
    0 <= from && from + |condition| <= |word|
    && forall k :: 0 <= k < |condition| ==> MatchAtom(condition[k], word[from + k])
  }

  lemma SuffixFits(word: string, rule: Rule)
    ensures ApplySfx(word, rule)
         == if (rule.unconditional || FitsAt(rule.condition, word, |word| - |rule.condition|))
               && rule.stripChars <= |word|
            then Some(word[..|word| - rule.stripChars] + rule.add) else None
  {
    hide MatchAtom;
  }

  lemma PrefixFits(word: string, rule: Rule)
    ensures ApplyPfx(word, rule)
         == if (rule.unconditional || FitsAt(rule.condition, word, 0)) && rule.stripChars <= |word|
            then Some(rule.add + word[rule.stripChars..]) else None
  {
    hide MatchAtom;
  }

  /** And a prefix rule, where each of its first ones is. */
  lemma PrefixConditionAsks(
    pieces: seq<string>, open: bool, strip: nat, add: string, continuation: seq<string>, word: string
  )
    requires AllPieces(pieces) && (open ==> MayBeOpen(pieces))
    ensures ApplyPfx(word, Conditioned(strip, add, continuation, TextOf(pieces, open)))
         == if Asks(pieces, word, 0) && strip <= |word| then Some(add + word[strip..]) else None
  {
    hide *;
    ConditionIsRead(pieces, open);
    AskedByAtoms(pieces, word, 0);
    ConditionedIs(strip, add, continuation, TextOf(pieces, open));
    PrefixFits(word, Conditioned(strip, add, continuation, TextOf(pieces, open)));
  }

  lemma AskedByAtoms(pieces: seq<string>, word: string, from: int)
    requires AllPieces(pieces)
    ensures Asks(pieces, word, from) <==> pieces == ["."] || FitsAt(AtomsOf(pieces), word, from)
  {
    hide AtomOf, IsPiece, Allows, MatchAtom;
    if 0 <= from && from + |pieces| <= |word| {
      forall k | 0 <= k < |pieces|
        ensures MatchAtom(AtomsOf(pieces)[k], word[from + k]) <==> Allows(pieces[k], word[from + k])
      {
        AtomMatches(pieces[k], word[from + k]);
      }
    }
  }

  /** With brackets around them letters are asked for, with a caret before them they are ruled out. */
  lemma BracketsAsk(chars: string, add: string, continuation: seq<string>, word: string)
    requires ']' !in chars && (chars != [] ==> chars[0] != '^')
    ensures ApplySfx(word, Conditioned(0, add, continuation, "[" + chars + "]"))
         == if word != "" && word[|word| - 1] in chars then Some(word + add) else None
    ensures ApplySfx(word, Conditioned(0, add, continuation, "[^" + chars + "]"))
         == if word != "" && word[|word| - 1] !in chars then Some(word + add) else None
  {
    OnePieceAsks("[" + chars + "]", add, continuation, word);
    OnePieceAsks("[^" + chars + "]", add, continuation, word);
    assert ("[" + chars + "]")[..|chars| + 1] == "[" + chars && Listed("[" + chars + "]") == chars;
    assert ("[^" + chars + "]")[..|chars| + 2] == "[^" + chars && Listed("[^" + chars + "]") == chars;
  }

  lemma OnePieceAsks(piece: string, add: string, continuation: seq<string>, word: string)
    requires IsPiece(piece)
    ensures ApplySfx(word, Conditioned(0, add, continuation, piece))
         == if piece == "." || (word != "" && Allows(piece, word[|word| - 1])) then Some(word + add) else None
  {
    assert TextOf([piece], false) == piece by {
      hide IsPiece;
      assert TextOf([], false) == "" && piece + "" == piece;
    }
    SuffixConditionAsks([piece], false, 0, add, continuation, word);
    hide ApplySfx, Conditioned, IsPiece, Allows;
    assert word[..|word| - 0] == word;
  }

  /** Every text is a condition: it falls into pieces, the last of them perhaps left open. */
  lemma {:induction false} EveryTextIsPieces(s: string, i: nat) returns (pieces: seq<string>, open: bool)
    requires i <= |s|
    ensures AllPieces(pieces) && (open ==> MayBeOpen(pieces)) && TextOf(pieces, open) == s[i..]
    decreases |s| - i
  {
    hide TextOf;
    if i == |s| {
      pieces, open := [], false;
      NoText();
    } else if s[i] != '[' {
      pieces, open := EveryTextIsPieces(s, i + 1);
      assert s[i..] == [s[i]] + s[i + 1..];
      OnePieceMore([s[i]], pieces, open);
      pieces := [[s[i]]] + pieces;
    } else {
      var end := ClassEnd(s, i);
      assert forall k :: i <= k < end ==> s[k] != ']';
      if end == |s| {
        var piece := s[i..] + "]";
        assert piece[..|piece| - 1] == s[i..];
        pieces, open := [piece], true;
        LastPieceOpen(piece);
      } else {
        var piece := s[i..end + 1];
        assert piece[..|piece| - 1] == s[i..end];
        pieces, open := EveryTextIsPieces(s, end + 1);
        assert s[i..] == piece + s[end + 1..];
        OnePieceMore(piece, pieces, open);
        pieces := [piece] + pieces;
      }
    }
  }

  lemma NoText()
    ensures TextOf([], false) == ""
  {
  }

  lemma LastPieceOpen(piece: string)
    requires IsChoice(piece)
    ensures AllPieces([piece]) && MayBeOpen([piece]) && TextOf([piece], true) == piece[..|piece| - 1]
  {
  }

  lemma OnePieceMore(piece: string, pieces: seq<string>, open: bool)
    requires IsPiece(piece) && AllPieces(pieces) && (open ==> MayBeOpen(pieces))
    ensures var more := [piece] + pieces;
            && AllPieces(more) && (open ==> MayBeOpen(more))
            && TextOf(more, open) == piece + TextOf(pieces, open)
  {
    assert ([piece] + pieces)[1..] == pieces;
  }
}
