/** How much of a word some dictionary entry begins with, found by walking bytes. */
module Dictionary {
  import opened Bytes

  // ---- UTF-8 ----

  function Encode(c: char): (b: seq<byte>)
    ensures 1 <= |b| <= 4
  {
    var v := c as int;
    if v < 0x80 then [v]
    else if v < 0x800 then [0xC0 + v / 0x40, 0x80 + v % 0x40]
    else if v < 0x1_0000 then [0xE0 + v / 0x1000, 0x80 + v / 0x40 % 0x40, 0x80 + v % 0x40]
    else [0xF0 + v / 0x4_0000, 0x80 + v / 0x1000 % 0x40, 0x80 + v / 0x40 % 0x40, 0x80 + v % 0x40]
  }

  /** How many bytes a character takes, told from the first. */
  function LengthOf(first: byte): nat {
    if first < 0x80 then 1 else if first < 0xE0 then 2 else if first < 0xF0 then 3 else 4
  }

  function Decode(b: seq<byte>): nat
    requires 1 <= |b| <= 4
    requires |b| > 1 ==> b[0] >= 0xC0 && forall i :: 1 <= i < |b| ==> b[i] >= 0x80
    requires |b| == 3 ==> b[0] >= 0xE0
    requires |b| == 4 ==> b[0] >= 0xF0
  {
    if |b| == 1 then b[0]
    else if |b| == 2 then (b[0] - 0xC0) as int * 0x40 + (b[1] - 0x80)
    else if |b| == 3 then ((b[0] - 0xE0) as int * 0x40 + (b[1] - 0x80)) * 0x40 + (b[2] - 0x80)
    else (((b[0] - 0xF0) as int * 0x40 + (b[1] - 0x80)) * 0x40 + (b[2] - 0x80)) * 0x40 + (b[3] - 0x80)
  }

  lemma EncodeShape(c: char)
    ensures var b := Encode(c);
            && LengthOf(b[0]) == |b|
            && (|b| > 1 ==> b[0] >= 0xC0 && forall i :: 1 <= i < |b| ==> b[i] >= 0x80)
            && (|b| == 3 ==> b[0] >= 0xE0)
            && (|b| == 4 ==> b[0] >= 0xF0)
            && Decode(b) == c as int
  {
    var v := c as int;
    if v >= 0x1_0000 {
      Sixes(v);
    } else if v >= 0x800 {
      assert v / 0x1000 == v / 0x40 / 0x40;
    }
  }

  lemma Sixes(v: nat)
    requires v < 0x11_0000
    ensures v / 0x4_0000 < 8
    ensures ((v / 0x4_0000 * 0x40 + v / 0x1000 % 0x40) * 0x40 + v / 0x40 % 0x40) * 0x40 + v % 0x40 == v
  {
    assert v / 0x1000 == v / 0x40 / 0x40;
    assert v / 0x4_0000 == v / 0x1000 / 0x40;
  }

  /** No character's bytes begin another's. */
  lemma EncodeIsPrefixFree(a: char, b: char, x: seq<byte>, y: seq<byte>)
    requires Encode(a) + x == Encode(b) + y
    ensures a == b && x == y
  {
    EncodeShape(a);
    EncodeShape(b);
    var whole := Encode(a) + x;
    assert whole[0] == Encode(a)[0] == Encode(b)[0];
    assert Encode(a) == whole[..|Encode(a)|] == Encode(b);
    assert x == whole[|Encode(a)|..] == y;
  }

  function EncodeAll(s: string): seq<byte> {
    if s == [] then [] else Encode(s[0]) + EncodeAll(s[1..])
  }

  /** Byte prefixes of whole characters are exactly character prefixes. */
  lemma {:induction false} PrefixesAgree(p: string, w: string)
    ensures EncodeAll(p) <= EncodeAll(w) <==> p <= w
  {
    hide Encode;
    if p == [] || w == [] {
    } else if p[0] == w[0] {
      PrefixesAgree(p[1..], w[1..]);
      ConsPrefix([p[0]], p[1..], w[1..]);
      ConsPrefix(Encode(p[0]), EncodeAll(p[1..]), EncodeAll(w[1..]));
      assert p == [p[0]] + p[1..] && w == [w[0]] + w[1..];
    } else {
      DifferentHeads(p[0], w[0], EncodeAll(p[1..]), EncodeAll(w[1..]));
    }
  }

  lemma DifferentHeads(a: char, b: char, x: seq<byte>, y: seq<byte>)
    requires a != b
    ensures !(Encode(a) + x <= Encode(b) + y)
  {
    hide Encode;
    if Encode(a) + x <= Encode(b) + y {
      var rest := (Encode(b) + y)[|Encode(a) + x|..];
      assert Encode(a) + (x + rest) == Encode(b) + y;
      EncodeIsPrefixFree(a, b, x + rest, y);
    }
  }

  lemma ConsPrefix<T>(head: seq<T>, a: seq<T>, b: seq<T>)
    ensures head + a <= head + b <==> a <= b
  {
    if head + a <= head + b {
      assert a == (head + a)[|head|..] <= (head + b)[|head|..] == b;
    }
  }

  lemma {:induction false} EncodeAllOneMore(s: string, i: nat)
    requires i < |s|
    ensures EncodeAll(s[..i + 1]) == EncodeAll(s[..i]) + Encode(s[i])
  {
    hide Encode;
    if i == 0 {
      assert s[..1][1..] == [];
    } else {
      EncodeAllOneMore(s[1..], i - 1);
      assert s[..i + 1][1..] == s[1..][..i] && s[..i][1..] == s[1..][..i - 1];
    }
  }

  // ---- The byte automaton ----

  /** A state of the automaton: what may still follow. */
  type Node = set<seq<byte>>

  predicate HasInput(node: Node, b: byte) {
    exists k :: k in node && k != [] && k[0] == b
  }

  function Follow(node: Node, b: byte): Node {
    set k | k in node && k != [] && k[0] == b :: k[1..]
  }

  /** The state the automaton of `keys` is in after reading `p`. */
  ghost function StateAfter(keys: set<seq<byte>>, p: seq<byte>): Node {
    set k | k in keys && p <= k :: k[|p|..]
  }

  ghost predicate SomeKeyBegins(keys: set<seq<byte>>, p: seq<byte>) {
    exists k :: k in keys && p <= k
  }

  lemma FollowIsStateAfter(keys: set<seq<byte>>, p: seq<byte>, b: byte)
    ensures Follow(StateAfter(keys, p), b) == StateAfter(keys, p + [b])
    ensures HasInput(StateAfter(keys, p), b) <==> SomeKeyBegins(keys, p + [b])
  {
    var node, next := StateAfter(keys, p), StateAfter(keys, p + [b]);
    forall k | k in keys && p + [b] <= k ensures k[|p|..] in node && k[|p|..] != [] && k[|p|..][0] == b
                                           && k[|p|..][1..] == k[|p| + 1..] {
      assert k[|p|] == (p + [b])[|p|] && p <= k;
    }
    forall r | r in node && r != [] && r[0] == b ensures exists k :: k in keys && p + [b] <= k && k[|p|..] == r {
      var k :| k in keys && p <= k && k[|p|..] == r;
      assert k[..|p| + 1] == p + [b];
    }
  }

  function KeysOf(words: set<string>): set<seq<byte>> {
    set w | w in words :: EncodeAll(w)
  }

  /** Some entry starts with these characters. */
  ghost predicate Begins(words: set<string>, p: string) {
    exists w :: w in words && p <= w
  }

  lemma BeginsIsSomeKeyBegins(words: set<string>, p: string)
    ensures Begins(words, p) <==> SomeKeyBegins(KeysOf(words), EncodeAll(p))
  {
    hide EncodeAll;
    if Begins(words, p) {
      var w :| w in words && p <= w;
      PrefixesAgree(p, w);
      assert EncodeAll(w) in KeysOf(words);
    }
    if SomeKeyBegins(KeysOf(words), EncodeAll(p)) {
      var k :| k in KeysOf(words) && EncodeAll(p) <= k;
      var w :| w in words && EncodeAll(w) == k;
      PrefixesAgree(p, w);
    }
  }

  lemma ShorterBegins(keys: set<seq<byte>>, p: seq<byte>, q: seq<byte>)
    requires SomeKeyBegins(keys, q) && p <= q
    ensures SomeKeyBegins(keys, p)
  {
  }

  /** The walk stopped after `letters` characters for a good reason: no entry begins with one more. */
  ghost predicate IsLongestPrefix(words: set<string>, word: string, letters: nat) {
    && letters <= |word|
    && forall k :: 0 < k <= |word| ==> (k <= letters <==> Begins(words, word[..k]))
  }

  /** The number of leading characters of `word` that begin some entry, though the walk sees only bytes. */
  method PrefixLetters(words: set<string>, word: string) returns (letters: nat)
    ensures IsLongestPrefix(words, word, letters)
  {
    hide Encode, EncodeAll, Begins, SomeKeyBegins, HasInput, Follow, StateAfter, KeysOf;
    var node := KeysOf(words);
    ghost var keys := KeysOf(words);
    letters := 0;
    StartState(keys);
    for i := 0 to |word|
      invariant letters == i
      invariant node == StateAfter(keys, EncodeAll(word[..i]))
      invariant forall k :: 0 < k <= i ==> Begins(words, word[..k])
    {
      var buf := Encode(word[i]);
      ghost var base := EncodeAll(word[..i]);
      assert base + buf[..0] == base;
      for j := 0 to |buf|
        invariant node == StateAfter(keys, base + buf[..j])
        invariant j > 0 ==> SomeKeyBegins(keys, base + buf[..j])
      {
        FollowIsStateAfter(keys, base + buf[..j], buf[j]);
        assert base + buf[..j] + [buf[j]] == base + buf[..j + 1];
        if !HasInput(node, buf[j]) {
          NothingBeginsLonger(words, word, i, buf[..j + 1]);
          return letters;
        }
        node := Follow(node, buf[j]);
      }
      assert buf[..|buf|] == buf;
      EncodeAllOneMore(word, i);
      BeginsIsSomeKeyBegins(words, word[..i + 1]);
      letters := letters + 1;
    }
  }

  lemma StartState(keys: set<seq<byte>>)
    ensures StateAfter(keys, EncodeAll([])) == keys
  {
    forall k | k in keys ensures k[0..] == k {
    }
  }

  lemma NothingBeginsLonger(words: set<string>, word: string, i: nat, piece: seq<byte>)
    requires i < |word| && piece <= Encode(word[i])
    requires !SomeKeyBegins(KeysOf(words), EncodeAll(word[..i]) + piece)
    ensures forall k :: i < k <= |word| ==> !Begins(words, word[..k])
  {
    hide Encode, Begins, SomeKeyBegins, KeysOf;
    forall k | i < k <= |word| ensures !Begins(words, word[..k]) {
      BeginsIsSomeKeyBegins(words, word[..k]);
      EncodeAllOneMore(word, i);
      PrefixesAgree(word[..i + 1], word[..k]);
      assert EncodeAll(word[..i]) + piece <= EncodeAll(word[..i + 1]);
      if SomeKeyBegins(KeysOf(words), EncodeAll(word[..k])) {
        ShorterBegins(KeysOf(words), EncodeAll(word[..i]) + piece, EncodeAll(word[..k]));
      }
    }
  }
}
