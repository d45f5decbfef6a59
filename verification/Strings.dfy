/** Small text operations that several components share. */
module Strings {
  function TrimStart(p: char -> bool, s: string): string {
    if s != [] && p(s[0]) then TrimStart(p, s[1..]) else s
  }

  function TrimEnd(p: char -> bool, s: string): string {
    if s != [] && p(s[|s| - 1]) then TrimEnd(p, s[..|s| - 1]) else s
  }

  function Trim(p: char -> bool, s: string): string {
    TrimEnd(p, TrimStart(p, s))
  }

  /** Trimming leaves what stands between two characters that are not trimmed. */
  lemma {:induction false} TrimStartKeeps(p: char -> bool, before: string, core: string)
    requires core != [] && !p(core[0])
    ensures exists k: nat :: k <= |before| && TrimStart(p, before + core) == before[k..] + core
  {
    if before == [] {
      assert before + core == core && before[0..] + core == core;
    } else if p(before[0]) {
      TrimStartKeeps(p, before[1..], core);
      var k: nat :| k <= |before[1..]| && TrimStart(p, before[1..] + core) == before[1..][k..] + core;
      assert (before + core)[1..] == before[1..] + core;
      assert before[1..][k..] == before[k + 1..];
    } else {
      assert before[0..] == before;
    }
  }

  lemma {:induction false} TrimEndKeeps(p: char -> bool, core: string, after: string)
    requires core != [] && !p(core[|core| - 1])
    ensures exists k: nat :: k <= |after| && TrimEnd(p, core + after) == core + after[..k]
  {
    if after == [] {
      assert core + after == core && core + after[..0] == core;
    } else if p(after[|after| - 1]) {
      var init := after[..|after| - 1];
      TrimEndKeeps(p, core, init);
      var k: nat :| k <= |init| && TrimEnd(p, core + init) == core + init[..k];
      assert (core + after)[..|core + after| - 1] == core + init;
      assert init[..k] == after[..k];
    } else {
      assert after[..|after|] == after;
    }
  }

  lemma TrimKeeps(p: char -> bool, before: string, core: string, after: string) returns (j: nat, k: nat)
    requires core != [] && !p(core[0]) && !p(core[|core| - 1])
    ensures j <= |before| && k <= |after| && Trim(p, before + core + after) == before[j..] + core + after[..k]
  {
    hide TrimStart, TrimEnd;
    TrimStartKeeps(p, before, core + after);
    assert before + core + after == before + (core + after);
    j :| 0 <= j <= |before| && TrimStart(p, before + (core + after)) == before[j..] + (core + after);
    assert before[j..] + (core + after) == (before[j..] + core) + after;
    TrimEndKeeps(p, before[j..] + core, after);
    k :| 0 <= k <= |after| && TrimEnd(p, (before[j..] + core) + after) == (before[j..] + core) + after[..k];
  }

  function AsciiLower(s: string): string {
    if s == [] then []
    else AsciiLower(s[..|s| - 1]) + [LowerChar(s[|s| - 1])]
  }

  function Capitals(): (s: string)
    ensures |s| == 26 && forall k :: 0 <= k < 26 ==> s[k] as int == 'A' as int + k
  {
    "ABCDEFGHIJKLMNOPQRSTUVWXYZ"
  }

  function SmallLetters(): (s: string)
    ensures |s| == 26 && forall k :: 0 <= k < 26 ==> s[k] as int == 'a' as int + k
  {
    "abcdefghijklmnopqrstuvwxyz"
  }

  /** The letters are two runs of characters. */
  lemma LettersAreRuns(c: char)
    ensures c in Capitals() <==> 'A' <= c <= 'Z'
    ensures c in SmallLetters() <==> 'a' <= c <= 'z'
  {
    hide Capitals, SmallLetters;
    if 'A' <= c <= 'Z' {
      assert Capitals()[c as int - 'A' as int] == c;
    }
    if 'a' <= c <= 'z' {
      assert SmallLetters()[c as int - 'a' as int] == c;
    }
  }

  function LowerChar(c: char): char {
    if 'A' <= c <= 'Z' then c + 32 as char else c
  }

  /** Each capital becomes the small letter at its place in the alphabet; all else stays. */
  lemma LowerCharIs(c: char)
    ensures c !in Capitals() ==> LowerChar(c) == c
    ensures forall k :: 0 <= k < 26 && c == Capitals()[k] ==> LowerChar(c) == SmallLetters()[k]
  {
    hide Capitals, SmallLetters;
    LettersAreRuns(c);
  }

  lemma {:induction false} AsciiLowerAt(s: string, i: nat)
    requires i < |s|
    ensures |AsciiLower(s)| == |s| && AsciiLower(s)[i] == LowerChar(s[i])
  {
    if |s| > 1 {
      AsciiLowerAt(s[..|s| - 1], if i < |s| - 1 then i else 0);
    }
    hide LowerChar;
  }

  /** Hexadecimal digits, in lower case. */
  function HexDigit(n: nat): char
    requires n < 16
  {
    "0123456789abcdef"[n]
  }

  lemma Regroup<T>(a: seq<T>, b: seq<T>, c: seq<T>)
    ensures (a + b) + c == a + (b + c)
  {
  }
}
