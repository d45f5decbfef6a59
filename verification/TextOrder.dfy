/** What the order of texts means, character by character and byte by byte. */
module TextOrder {
  import opened Bytes
  import opened Dictionary
  import opened Ordering

  /** `a` ends at `n`, or has the smaller character there, and the two agree before it. */
  ghost predicate PartAt(a: string, b: string, n: nat) {
    n <= |a| && n < |b| && a[..n] == b[..n] && (n == |a| || a[n] < b[n])
  }

  ghost predicate Precedes(a: string, b: string) {
    exists n: nat :: PartAt(a, b, n)
  }

  /** A text precedes another if it is a proper beginning of it, or has the smaller character where they part. */
  lemma {:induction false} TextLessIff(a: string, b: string)
    ensures TextLess(a, b) <==> Precedes(a, b)
  {
    if a == [] && b != [] {
      assert PartAt(a, b, 0);
    } else if a != [] && b != [] && a[0] == b[0] {
      TextLessIff(a[1..], b[1..]);
      if TextLess(a[1..], b[1..]) {
        var n: nat :| PartAt(a[1..], b[1..], n);
        PartsLater(a, b, n);
      }
      if exists n: nat :: PartAt(a, b, n) {
        var n: nat :| PartAt(a, b, n);
        PartsLater(a, b, n - 1);
      }
    } else if a != [] && b != [] && a[0] < b[0] {
      assert PartAt(a, b, 0);
    } else if exists n: nat :: PartAt(a, b, n) {
      var n: nat :| PartAt(a, b, n);
      PartsFirst(a, b, n);
    }
  }

  lemma PartsLater(a: string, b: string, n: nat)
    requires a != [] && b != [] && a[0] == b[0]
    ensures PartAt(a[1..], b[1..], n) <==> PartAt(a, b, n + 1)
  {
    if n <= |a| - 1 && n < |b| - 1 {
      assert a[..n + 1] == [a[0]] + a[1..][..n] && b[..n + 1] == [b[0]] + b[1..][..n];
      assert a[1..][..n] == a[..n + 1][1..] && b[1..][..n] == b[..n + 1][1..];
    }
  }

  /** Where the first characters differ, the texts part there. */
  lemma PartsFirst(a: string, b: string, n: nat)
    requires PartAt(a, b, n)
    ensures n > 0 ==> a[0] == b[0]
  {
    if n > 0 {
      assert a[0] == a[..n][0] && b[0] == b[..n][0];
    }
  }

  // ---- Byte by byte ----

  ghost predicate BytesPartAt(x: seq<byte>, y: seq<byte>, n: nat) {
    n <= |x| && n < |y| && x[..n] == y[..n] && (n == |x| || x[n] < y[n])
  }

  /** The order in which byte strings are compared. */
  ghost predicate BytesLess(x: seq<byte>, y: seq<byte>) {
    exists n: nat :: BytesPartAt(x, y, n)
  }

  lemma BytesLessIsAsymmetric(x: seq<byte>, y: seq<byte>)
    requires BytesLess(x, y)
    ensures !BytesLess(y, x)
  {
    var n: nat :| BytesPartAt(x, y, n);
    forall m: nat ensures !BytesPartAt(y, x, m) {
      SamePart(x, y, n, m);
    }
  }

  lemma SamePart(x: seq<byte>, y: seq<byte>, n: nat, m: nat)
    ensures n <= |x| && n <= |y| && x[..n] == y[..n] && m < n ==> m < |x| && m < |y| && x[m] == y[m]
    ensures m <= |x| && m <= |y| && y[..m] == x[..m] && n < m ==> n < |x| && n < |y| && x[n] == y[n]
  {
    if n <= |x| && n <= |y| && m < n {
      assert x[m] == x[..n][m] && y[m] == y[..n][m];
    }
    if m <= |x| && m <= |y| && n < m {
      assert x[n] == x[..m][n] && y[n] == y[..m][n];
    }
  }

  /** The smaller of two characters has the smaller byte where their encodings part. */
  lemma EncodeIsMonotone(c: char, d: char) returns (k: nat)
    requires c < d
    ensures k < |Encode(c)| && k < |Encode(d)| && Encode(c)[..k] == Encode(d)[..k] && Encode(c)[k] < Encode(d)[k]
  {
    EncodeShape(c);
    EncodeShape(d);
    TailBytes(c);
    TailBytes(d);
    if |Encode(c)| == |Encode(d)| {
      hide Encode;
      k := FirstSmaller(Encode(c), Encode(d));
    } else {
      LongerIsLater(c, d);
      k := 0;
    }
  }

  /** More bytes, and the first of them is larger. */
  lemma LongerIsLater(c: char, d: char)
    requires c < d && |Encode(c)| != |Encode(d)|
    ensures Encode(c)[0] < Encode(d)[0]
  {
  }

  lemma TailBytes(c: char)
    ensures forall i :: 1 <= i < |Encode(c)| ==> Encode(c)[i] < 0xC0
  {
  }

  /** Of two byte strings of one length the one that decodes to less has the smaller byte where they part. */
  lemma FirstSmaller(x: seq<byte>, y: seq<byte>) returns (k: nat)
    requires 1 <= |x| == |y| <= 4
    requires |x| > 1 ==> x[0] >= 0xC0 && y[0] >= 0xC0 && forall i :: 1 <= i < |x| ==> 0x80 <= x[i] < 0xC0
    requires forall i :: 1 <= i < |y| ==> 0x80 <= y[i] < 0xC0
    requires |x| == 3 ==> x[0] >= 0xE0 && y[0] >= 0xE0
    requires |x| == 4 ==> x[0] >= 0xF0 && y[0] >= 0xF0
    requires Decode(x) < Decode(y)
    ensures k < |x| && x[..k] == y[..k] && x[k] < y[k]
  {
    k := if x[0] != y[0] then 0 else if x[1] != y[1] then 1 else if x[2] != y[2] then 2 else 3;
  }

  /** UTF-8 keeps the order: comparing texts and comparing their bytes is one and the same. */
  lemma BytesCompareAlike(a: string, b: string)
    ensures TextLess(a, b) <==> BytesLess(EncodeAll(a), EncodeAll(b))
  {
    hide TextLess, EncodeAll, BytesLess;
    TextLessIsTotal();
    if TextLess(a, b) {
      BytesFollow(a, b);
    } else if TextLess(b, a) {
      BytesFollow(b, a);
      BytesLessIsAsymmetric(EncodeAll(b), EncodeAll(a));
    } else {
      if BytesLess(EncodeAll(a), EncodeAll(b)) {
        BytesLessIsAsymmetric(EncodeAll(a), EncodeAll(b));
      }
    }
  }

  lemma {:induction false} BytesFollow(a: string, b: string)
    requires TextLess(a, b)
    ensures BytesLess(EncodeAll(a), EncodeAll(b))
  {
    hide Encode;
    if a == [] {
      assert BytesPartAt(EncodeAll(a), EncodeAll(b), 0);
    } else if a[0] == b[0] {
      BytesFollow(a[1..], b[1..]);
      BytesAfter(Encode(a[0]), EncodeAll(a[1..]), EncodeAll(b[1..]));
    } else {
      var k := EncodeIsMonotone(a[0], b[0]);
      BytesPartInHead(Encode(a[0]), Encode(b[0]), EncodeAll(a[1..]), EncodeAll(b[1..]), k);
    }
  }

  lemma BytesAfter(head: seq<byte>, x: seq<byte>, y: seq<byte>)
    requires BytesLess(x, y)
    ensures BytesLess(head + x, head + y)
  {
    var n: nat :| BytesPartAt(x, y, n);
    var m := |head| + n;
    assert (head + x)[..m] == head + x[..n] && (head + y)[..m] == head + y[..n];
    assert BytesPartAt(head + x, head + y, m);
  }

  lemma BytesPartInHead(c: seq<byte>, d: seq<byte>, x: seq<byte>, y: seq<byte>, k: nat)
    requires k < |c| && k < |d| && c[..k] == d[..k] && c[k] < d[k]
    ensures BytesLess(c + x, d + y)
  {
    assert (c + x)[..k] == c[..k] && (d + y)[..k] == d[..k];
    assert BytesPartAt(c + x, d + y, k);
  }
}
