/** Strict total orders, and why sorting by one leaves nothing to chance. */
module Ordering {

  ghost predicate StrictTotalOrder<T(!new)>(less: (T, T) -> bool) {
    && (forall a :: !less(a, a))
    && (forall a, b, c :: less(a, b) && less(b, c) ==> less(a, c))
    && (forall a, b :: a == b || less(a, b) || less(b, a))
  }

  ghost predicate Ascending<T>(less: (T, T) -> bool, xs: seq<T>) {
    forall i, j :: 0 <= i < j < |xs| ==> less(xs[i], xs[j])
  }

  /** `xs` with `x` put in front of the first element it precedes. */
  function Inserted<T>(less: (T, T) -> bool, x: T, xs: seq<T>): seq<T> {
    if xs == [] || less(x, xs[0]) then [x] + xs
    else [xs[0]] + Inserted(less, x, xs[1..])
  }

  lemma {:induction false} InsertedKeepsElements<T>(less: (T, T) -> bool, x: T, xs: seq<T>)
    ensures multiset(Inserted(less, x, xs)) == multiset(xs) + multiset{x}
    ensures forall y :: y in Inserted(less, x, xs) <==> y == x || y in xs
  {
    if xs == [] || less(x, xs[0]) {
    } else {
      InsertedKeepsElements(less, x, xs[1..]);
      assert xs == [xs[0]] + xs[1..];
    }
  }

  lemma {:induction false} InsertedIsAscending<T(!new)>(less: (T, T) -> bool, x: T, xs: seq<T>)
    requires StrictTotalOrder(less) && Ascending(less, xs) && x !in xs
    ensures Ascending(less, Inserted(less, x, xs))
  {
    if xs == [] {
    } else if less(x, xs[0]) {
      forall j | 1 <= j < |xs| ensures less(x, xs[j]) {
        assert less(xs[0], xs[j]);
      }
    } else {
      InsertedIsAscending(less, x, xs[1..]);
      InsertedKeepsElements(less, x, xs[1..]);
      var tail := Inserted(less, x, xs[1..]);
      forall j | 0 <= j < |tail| ensures less(xs[0], tail[j]) {
        assert tail[j] in tail;
      }
    }
  }

  /** A collection has one ascending listing. */
  lemma {:induction false} AscendingIsUnique<T(!new)>(less: (T, T) -> bool, xs: seq<T>, ys: seq<T>)
    requires StrictTotalOrder(less) && Ascending(less, xs) && Ascending(less, ys)
    requires forall x :: x in xs <==> x in ys
    ensures xs == ys
  {
    assert xs != [] ==> xs[0] in ys;
    assert ys != [] ==> ys[0] in xs;
    if xs != [] {
      var i :| 0 <= i < |ys| && ys[i] == xs[0];
      var j :| 0 <= j < |xs| && xs[j] == ys[0];
      assert i == 0;
      forall x ensures x in xs[1..] <==> x in ys[1..] {
        InTail(less, xs, x);
        InTail(less, ys, x);
      }
      AscendingIsUnique(less, xs[1..], ys[1..]);
      assert xs == [xs[0]] + xs[1..] && ys == [ys[0]] + ys[1..];
    }
  }

  /** The ascending listing of a finite set. */
  ghost function Listing<T(!new)>(less: (T, T) -> bool, s: set<T>): (xs: seq<T>)
    requires StrictTotalOrder(less)
    ensures Ascending(less, xs)
    ensures forall x :: x in xs <==> x in s
  {
    if s == {} then []
    else
      var x :| x in s;
      var rest := Listing(less, s - {x});
      InsertedIsAscending(less, x, rest);
      InsertedKeepsElements(less, x, rest);
      Inserted(less, x, rest)
  }

  /** In an ascending listing, what ranks lower stands earlier. */
  lemma RankFollowsIndex<T(!new)>(less: (T, T) -> bool, xs: seq<T>, i: nat, j: nat)
    requires StrictTotalOrder(less) && Ascending(less, xs) && i < |xs| && j < |xs|
    ensures less(xs[j], xs[i]) <==> j < i
    ensures xs[i] == xs[j] ==> i == j
  {
    assert i < j ==> less(xs[i], xs[j]);
    assert less(xs[i], xs[j]) && less(xs[j], xs[i]) ==> less(xs[i], xs[i]);
  }

  /** The members of a collection that rank before `s`. */
  ghost function RankedBefore<T(!new)>(less: (T, T) -> bool, all: set<T>, s: T): set<T> {
    set x | x in all && less(x, s)
  }

  /** In the ascending listing of a collection, element `i` has exactly `i` members ranked before it. */
  lemma RankIsIndex<T(!new)>(less: (T, T) -> bool, all: set<T>, xs: seq<T>, i: nat)
    requires StrictTotalOrder(less) && Ascending(less, xs) && i < |xs|
    requires forall x :: x in xs <==> x in all
    ensures |RankedBefore(less, all, xs[i])| == i
  {
    assert RankedBefore(less, all, xs[i]) == Members(xs[..i]) by {
      forall x ensures x in xs && less(x, xs[i]) <==> x in xs[..i] {
        forall j | 0 <= j < |xs| ensures less(xs[j], xs[i]) <==> j < i {
          RankFollowsIndex(less, xs, i, j);
        }
        hide *;
        PrefixByIndex(xs, i, x);
      }
    }
    AscendingIsDistinct(less, xs[..i]);
    DistinctSize(xs[..i]);
  }

  lemma PrefixByIndex<T>(xs: seq<T>, i: nat, x: T)
    requires i <= |xs|
    ensures x in xs[..i] <==> exists j :: 0 <= j < i && xs[j] == x
  {
  }

  ghost predicate Distinct<T>(xs: seq<T>) {
    forall i, j :: 0 <= i < j < |xs| ==> xs[i] != xs[j]
  }

  ghost function Members<T(!new)>(xs: seq<T>): set<T> {
    set x | x in xs
  }

  /** A list without repetitions has as many members as positions. */
  lemma {:induction false} DistinctSize<T(!new)>(xs: seq<T>)
    requires Distinct(xs)
    ensures |Members(xs)| == |xs|
  {
    if xs == [] {
      assert Members(xs) == {};
    } else {
      var init, last := xs[..|xs| - 1], xs[|xs| - 1];
      DistinctSize(init);
      LastIsNew(xs);
      MembersOneMore(init, last);
      assert xs == init + [last];
    }
  }

  lemma LastIsNew<T>(xs: seq<T>)
    requires Distinct(xs) && xs != []
    ensures xs[|xs| - 1] !in xs[..|xs| - 1]
  {
  }

  lemma MembersOneMore<T(!new)>(init: seq<T>, last: T)
    ensures Members(init + [last]) == Members(init) + {last}
  {
  }

  lemma AscendingIsDistinct<T(!new)>(less: (T, T) -> bool, xs: seq<T>)
    requires StrictTotalOrder(less) && Ascending(less, xs)
    ensures Distinct(xs)
  {
    forall i, j | 0 <= i < j < |xs| ensures xs[i] != xs[j] {
      RankFollowsIndex(less, xs, i, j);
    }
  }

  // ---- The first so many of a collection ----

  function Smaller(a: nat, b: nat): nat {
    if a <= b then a else b
  }

  /** The first `max` members, in order. */
  ghost function Top<T(!new)>(less: (T, T) -> bool, all: set<T>, max: nat): (xs: seq<T>)
    requires StrictTotalOrder(less)
  {
    Listing(less, all)[..Smaller(max, |Listing(less, all)|)]
  }

  /** A member is among the first `max` exactly when fewer than `max` members rank before it. */
  lemma TopIsRanked<T(!new)>(less: (T, T) -> bool, all: set<T>, max: nat, s: T)
    requires StrictTotalOrder(less)
    ensures s in Top(less, all, max) <==> s in all && |RankedBefore(less, all, s)| < max
  {
    var xs := Listing(less, all);
    hide StrictTotalOrder, Ascending, Listing;
    PrefixByIndex(xs, Smaller(max, |xs|), s);
    assert forall j :: 0 <= j < |xs| ==> xs[j] in all;
    if s in all {
      var i :| 0 <= i < |xs| && xs[i] == s;
      RankIsIndex(less, all, xs, i);
      TakenByIndex(less, xs, Smaller(max, |xs|), i);
    }
  }

  lemma TakenByIndex<T(!new)>(less: (T, T) -> bool, xs: seq<T>, taken: nat, i: nat)
    requires StrictTotalOrder(less) && Ascending(less, xs) && i < |xs| && taken <= |xs|
    ensures xs[i] in xs[..taken] <==> i < taken
  {
    forall j | 0 <= j < |xs| && xs[j] == xs[i] ensures j == i {
      RankFollowsIndex(less, xs, i, j);
    }
    hide *;
    PrefixByIndex(xs, taken, xs[i]);
  }

  lemma TopAscends<T(!new)>(less: (T, T) -> bool, all: set<T>, max: nat)
    requires StrictTotalOrder(less)
    ensures Ascending(less, Top(less, all, max))
    ensures |Top(less, all, max)| == Smaller(max, |all|)
  {
    var xs := Listing(less, all);
    AscendingIsDistinct(less, xs);
    DistinctSize(xs);
    assert Members(xs) == all;
  }

  /** Whoever misses the first `max` has all of these before it. */
  lemma TopIsBeforeTheRest<T(!new)>(less: (T, T) -> bool, all: set<T>, max: nat, s: T)
    requires StrictTotalOrder(less) && s in all && s !in Top(less, all, max)
    ensures |Members(Top(less, all, max))| == max
    ensures forall x :: x in Top(less, all, max) ==> less(x, s)
  {
    var top := Top(less, all, max);
    TopIsRanked(less, all, max, s);
    TopAscends(less, all, max);
    AscendingIsDistinct(less, top);
    DistinctSize(top);
    SubsetSize(RankedBefore(less, all, s), all);
    forall x | x in top ensures less(x, s) {
      TopIsRanked(less, all, max, x);
      if !less(x, s) {
        RanksTogether(less, all, x, s);
      }
    }
  }

  /** What does not rank before `s` has at least as many members before it. */
  lemma RanksTogether<T(!new)>(less: (T, T) -> bool, all: set<T>, x: T, s: T)
    requires StrictTotalOrder(less) && !less(x, s)
    ensures |RankedBefore(less, all, s)| <= |RankedBefore(less, all, x)|
  {
    assert RankedBefore(less, all, s) <= RankedBefore(less, all, x);
    SubsetSize(RankedBefore(less, all, s), RankedBefore(less, all, x));
  }

  lemma {:induction false} SubsetSize<T>(a: set<T>, b: set<T>)
    requires a <= b
    ensures |a| <= |b|
  {
    assert b == a + (b - a);
  }

  /** Two collections agree on their first `max` exactly when each has the other's among its members. */
  lemma TopsAgreeIff<T(!new)>(less: (T, T) -> bool, a: set<T>, b: set<T>, max: nat)
    requires StrictTotalOrder(less)
    ensures Top(less, a, max) == Top(less, b, max)
       <==> Members(Top(less, a, max)) <= b && Members(Top(less, b, max)) <= a
  {
    TopMembers(less, a, max);
    TopMembers(less, b, max);
    if Members(Top(less, a, max)) <= b && Members(Top(less, b, max)) <= a {
      TopAscends(less, a, max);
      TopAscends(less, b, max);
      forall s ensures s in Top(less, a, max) <==> s in Top(less, b, max) {
        NotPushedOut(less, a, b, max, s);
        NotPushedOut(less, b, a, max, s);
      }
      AscendingIsUnique(less, Top(less, a, max), Top(less, b, max));
    }
  }

  /** Whoever is in `a` alone has `max` members of `a` before it. */
  ghost predicate OwnAreOutranked<T(!new)>(less: (T, T) -> bool, a: set<T>, b: set<T>, max: nat) {
    forall s :: s in a && s !in b ==> |RankedBefore(less, a, s)| >= max
  }

  /** Two collections agree on their first `max` exactly when neither ranks among them one it has alone. */
  lemma TopsAgreeIffOutranked<T(!new)>(less: (T, T) -> bool, a: set<T>, b: set<T>, max: nat)
    requires StrictTotalOrder(less)
    ensures Top(less, a, max) == Top(less, b, max)
       <==> OwnAreOutranked(less, a, b, max) && OwnAreOutranked(less, b, a, max)
  {
    TopsAgreeIff(less, a, b, max);
    TopIsWithinIff(less, a, b, max);
    TopIsWithinIff(less, b, a, max);
  }

  lemma TopIsWithinIff<T(!new)>(less: (T, T) -> bool, a: set<T>, b: set<T>, max: nat)
    requires StrictTotalOrder(less)
    ensures Members(Top(less, a, max)) <= b <==> OwnAreOutranked(less, a, b, max)
  {
    hide StrictTotalOrder, Top;
    forall s ensures s in Top(less, a, max) <==> s in a && |RankedBefore(less, a, s)| < max {
      TopIsRanked(less, a, max, s);
    }
  }

  lemma TopMembers<T(!new)>(less: (T, T) -> bool, all: set<T>, max: nat)
    requires StrictTotalOrder(less)
    ensures Members(Top(less, all, max)) <= all
  {
    hide StrictTotalOrder;
    forall s | s in Top(less, all, max) ensures s in all {
      TopIsRanked(less, all, max, s);
    }
  }

  lemma NotPushedOut<T(!new)>(less: (T, T) -> bool, a: set<T>, b: set<T>, max: nat, s: T)
    requires StrictTotalOrder(less)
    requires Members(Top(less, a, max)) <= b && Members(Top(less, b, max)) <= a
    ensures s in Top(less, a, max) ==> s in Top(less, b, max)
  {
    hide StrictTotalOrder, Top;
    if s in Top(less, a, max) && s !in Top(less, b, max) {
      assert s in Members(Top(less, a, max));
      TopIsRanked(less, a, max, s);
      TopIsBeforeTheRest(less, b, max, s);
      SubsetSize(Members(Top(less, b, max)), RankedBefore(less, a, s));
      assert false;
    }
  }

  lemma InTail<T(!new)>(less: (T, T) -> bool, xs: seq<T>, x: T)
    requires StrictTotalOrder(less) && Ascending(less, xs) && xs != []
    ensures x in xs[1..] <==> x in xs && x != xs[0]
  {
    if x in xs[1..] {
      var i :| 0 <= i < |xs[1..]| && xs[1..][i] == x;
      assert less(xs[0], xs[i + 1]);
    }
    if x in xs && x != xs[0] {
      var i :| 0 <= i < |xs| && xs[i] == x;
      assert xs[1..][i - 1] == x;
    }
  }

  /** Text order by code point, which UTF-8 keeps byte by byte. */
  predicate TextLess(a: string, b: string) {
    if b == [] then false
    else if a == [] then true
    else if a[0] != b[0] then a[0] < b[0]
    else TextLess(a[1..], b[1..])
  }

  lemma TextLessIsTotal()
    ensures StrictTotalOrder(TextLess)
  {
    forall a: string ensures !TextLess(a, a) {
      TextLessIrreflexive(a);
    }
    forall a: string, b: string, c: string | TextLess(a, b) && TextLess(b, c) ensures TextLess(a, c) {
      TextLessTransitive(a, b, c);
    }
    forall a: string, b: string ensures a == b || TextLess(a, b) || TextLess(b, a) {
      TextLessTrichotomous(a, b);
    }
  }

  lemma {:induction false} TextLessIrreflexive(a: string)
    ensures !TextLess(a, a)
  {
    if a != [] {
      TextLessIrreflexive(a[1..]);
    }
  }

  lemma {:induction false} TextLessTransitive(a: string, b: string, c: string)
    requires TextLess(a, b) && TextLess(b, c)
    ensures TextLess(a, c)
  {
    if a != [] && a[0] == b[0] == c[0] {
      TextLessTransitive(a[1..], b[1..], c[1..]);
    }
  }

  lemma {:induction false} TextLessTrichotomous(a: string, b: string)
    ensures a == b || TextLess(a, b) || TextLess(b, a)
  {
    if a != [] && b != [] && a[0] == b[0] {
      TextLessTrichotomous(a[1..], b[1..]);
      assert a == [a[0]] + a[1..] && b == [b[0]] + b[1..];
    }
  }
}
