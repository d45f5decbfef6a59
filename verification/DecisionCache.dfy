/** The cache of decided words, and its agreement with everything ever inserted. */
module DecisionCache {
  import opened Options
  import Ordering

  type Key = k: nat | k < 0x1_0000_0000_0000_0000

  /** The candidate chosen, or None for "none of these". */
  type Decision = Option<nat>

  datatype Insertion = Insertion(key: Key, decision: Decision)

  // ---- The cache as a value ----

  datatype Cache = Cache(entries: map<Key, Decision>, order: seq<Key>)

  const EMPTY := Cache(map[], [])

  function Without(entries: map<Key, Decision>, stale: seq<Key>): map<Key, Decision> {
    map k | k in entries && k !in stale :: entries[k]
  }

  function Inserted(c: Cache, capacity: nat, key: Key, decision: Decision): Cache {
    if capacity == 0 then c
    else if key in c.entries then c.(entries := c.entries[key := decision])
    else
      var cut := if |c.entries| >= capacity then |c.order| / 2 else 0;
      Cache(Without(c.entries, c.order[..cut])[key := decision], c.order[cut..] + [key])
  }

  class DecisionCache {
    var entries: map<Key, Decision>
    var order: seq<Key>
    const capacity: nat

    ghost function View(): Cache
      reads this
    {
      Cache(entries, order)
    }

    constructor (capacity: nat)
      ensures View() == EMPTY && this.capacity == capacity
    {
      this.capacity := capacity;
      entries, order := map[], [];
    }

    method Get(key: Key) returns (r: Option<Decision>)
      ensures r == Lookup(View(), key)
    {
      r := if key in entries then Some(entries[key]) else None;
    }

    method Insert(key: Key, decision: Decision)
      modifies this
      ensures View() == Inserted(old(View()), capacity, key, decision)
    {
      if capacity == 0 {
        return;
      }
      if key in entries {
        entries := entries[key := decision];
        return;
      }
      if |entries| >= capacity {
        var cut := |order| / 2;
        for i := 0 to cut
          invariant order == old(order)
          invariant entries == Without(old(entries), order[..i])
        {
          assert order[..i + 1] == order[..i] + [order[i]];
          entries := entries - {order[i]};
        }
        order := order[cut..];
      } else {
        assert Without(entries, order[..0]) == entries;
      }
      entries := entries[key := decision];
      order := order + [key];
    }
  }

  // ---- Runs of insertions ----

  function After(capacity: nat, history: seq<Insertion>): Cache {
    if history == [] then EMPTY
    else
      var last := history[|history| - 1];
      Inserted(After(capacity, history[..|history| - 1]), capacity, last.key, last.decision)
  }

  /** The last decision inserted for `key`, if it was ever inserted. */
  function LastDecision(history: seq<Insertion>, key: Key): Option<Decision> {
    if history == [] then None
    else
      var last := history[|history| - 1];
      if last.key == key then Some(last.decision) else LastDecision(history[..|history| - 1], key)
  }

  /** The keys that were not in the cache when they were inserted, in that order. */
  function FreshKeys(capacity: nat, history: seq<Insertion>): seq<Key> {
    if history == [] then []
    else
      var init, last := history[..|history| - 1], history[|history| - 1];
      if capacity == 0 || last.key in After(capacity, init).entries then FreshKeys(capacity, init)
      else FreshKeys(capacity, init) + [last.key]
  }

  ghost predicate Consistent(c: Cache) {
    Ordering.Distinct(c.order) && forall k :: k in c.order <==> k in c.entries
  }

  /** `keys` is the end of `all`. */
  ghost predicate IsSuffix(keys: seq<Key>, all: seq<Key>) {
    |keys| <= |all| && keys == all[|all| - |keys|..]
  }

  /** Cutting a duplicate-free list keeps exactly the keys that were not cut. */
  lemma CutKeepsTheRest(order: seq<Key>, cut: nat)
    requires Ordering.Distinct(order) && cut <= |order|
    ensures Ordering.Distinct(order[cut..])
    ensures forall k :: k in order[cut..] <==> k in order && k !in order[..cut]
  {
    assert order == order[..cut] + order[cut..];
    forall k | k in order[cut..] ensures k in order && k !in order[..cut] {
      var i :| 0 <= i < |order| - cut && order[cut..][i] == k;
      assert order[cut + i] == k;
    }
  }

  lemma InsertedIsConsistent(c: Cache, capacity: nat, key: Key, decision: Decision)
    requires Consistent(c)
    ensures Consistent(Inserted(c, capacity, key, decision))
  {
    if capacity > 0 && key !in c.entries {
      var cut := if |c.entries| >= capacity then |c.order| / 2 else 0;
      CutKeepsTheRest(c.order, cut);
    }
  }

  /** Every answer in the cache is the last decision inserted for its key. */
  ghost predicate Answers(c: Cache, history: seq<Insertion>) {
    forall k :: k in c.entries ==> LastDecision(history, k) == Some(c.entries[k])
  }

  lemma AfterNext(capacity: nat, init: seq<Insertion>, last: Insertion)
    ensures After(capacity, init + [last]) == Inserted(After(capacity, init), capacity, last.key, last.decision)
    ensures FreshKeys(capacity, init + [last])
         == if capacity == 0 || last.key in After(capacity, init).entries then FreshKeys(capacity, init)
            else FreshKeys(capacity, init) + [last.key]
  {
    hide Inserted;
    assert (init + [last])[..|init|] == init;
  }

  lemma AnswersNext(c: Cache, capacity: nat, init: seq<Insertion>, last: Insertion)
    requires Answers(c, init) && (capacity == 0 ==> c == EMPTY)
    ensures Answers(Inserted(c, capacity, last.key, last.decision), init + [last])
  {
    InsertedValues(c, capacity, last.key, last.decision);
    hide Inserted, LastDecision;
    forall k ensures LastDecision(init + [last], k)
                  == if k == last.key then Some(last.decision) else LastDecision(init, k) {
      LastDecisionNext(init, last, k);
    }
    if capacity == 0 {
      NothingIntoNothing(c, last.key, last.decision);
    }
  }

  lemma LastDecisionNext(init: seq<Insertion>, last: Insertion, k: Key)
    ensures LastDecision(init + [last], k) == if k == last.key then Some(last.decision) else LastDecision(init, k)
  {
    assert (init + [last])[..|init|] == init;
  }

  /** Inserting changes the answer for its own key and no other. */
  lemma InsertedValues(c: Cache, capacity: nat, key: Key, decision: Decision)
    ensures var d := Inserted(c, capacity, key, decision);
            forall k :: k in d.entries ==>
              if k == key && capacity > 0 then d.entries[k] == decision
              else k in c.entries && d.entries[k] == c.entries[k]
  {
  }

  lemma NothingIntoNothing(c: Cache, key: Key, decision: Decision)
    ensures Inserted(c, 0, key, decision) == c
  {
  }

  lemma InsertedIsSuffix(c: Cache, capacity: nat, key: Key, decision: Decision, added: seq<Key>)
    requires IsSuffix(c.order, added)
    ensures IsSuffix(Inserted(c, capacity, key, decision).order,
                     if capacity == 0 || key in c.entries then added else added + [key])
  {
  }

  /**
   * The cache agrees with the history: an answer is the last decision inserted for its key, `order`
   * lists the stored keys once each, and they are the most recent of the fresh insertions.
   */
  lemma {:induction false} CacheAgreesWithHistory(capacity: nat, history: seq<Insertion>)
    ensures Consistent(After(capacity, history))
    ensures IsSuffix(After(capacity, history).order, FreshKeys(capacity, history))
    ensures Answers(After(capacity, history), history)
    ensures capacity == 0 ==> After(capacity, history) == EMPTY
  {
    if history != [] {
      var init, last := history[..|history| - 1], history[|history| - 1];
      hide *;
      CacheAgreesWithHistory(capacity, init);
      assert history == init + [last];
      AfterNext(capacity, init, last);
      InsertedIsConsistent(After(capacity, init), capacity, last.key, last.decision);
      InsertedIsSuffix(After(capacity, init), capacity, last.key, last.decision, FreshKeys(capacity, init));
      AnswersNext(After(capacity, init), capacity, init, last);
      NothingIntoNothing(After(capacity, init), last.key, last.decision);
    }
  }

  lemma SizeIsOrder(c: Cache)
    requires Consistent(c)
    ensures |c.entries| == |c.order|
  {
    Ordering.DistinctSize(c.order);
    assert Ordering.Members(c.order) == c.entries.Keys;
  }

  /** One insertion makes the order one longer, less what it cuts. */
  lemma InsertedOrderLength(c: Cache, capacity: nat, key: Key, decision: Decision)
    requires |c.entries| == |c.order| <= if capacity == 1 then 2 else capacity
    ensures |Inserted(c, capacity, key, decision).order| <= if capacity == 1 then 2 else capacity
  {
    hide Without;
  }

  /** How full the cache can get: never past its capacity, except that capacity 1 holds two. */
  lemma {:induction false} SizeIsBounded(capacity: nat, history: seq<Insertion>)
    ensures |After(capacity, history).entries| <= if capacity == 1 then 2 else capacity
  {
    if history == [] {
      NoHistory(capacity);
    } else {
      var init, last := history[..|history| - 1], history[|history| - 1];
      hide *;
      SizeIsBounded(capacity, init);
      assert history == init + [last];
      AfterNext(capacity, init, last);
      CacheAgreesWithHistory(capacity, init);
      CacheAgreesWithHistory(capacity, history);
      SizeIsOrder(After(capacity, init));
      SizeIsOrder(After(capacity, history));
      InsertedOrderLength(After(capacity, init), capacity, last.key, last.decision);
    }
  }

  /** The capacity is exceeded by some run exactly when it is 1: half of one entry is none. */
  lemma CapacityOneHoldsTwo(capacity: nat)
    ensures (exists history :: |After(capacity, history).entries| > capacity) <==> capacity == 1
  {
    if capacity == 1 {
      var history := TwoInOne();
    } else {
      forall history ensures |After(capacity, history).entries| <= capacity {
        SizeIsBounded(capacity, history);
      }
    }
  }

  lemma TwoInOne() returns (history: seq<Insertion>)
    ensures |After(1, history).entries| == 2
  {
    var a, b := Insertion(0, None), Insertion(1, None);
    hide *;
    NoHistory(1);
    AfterNext(1, [], a);
    history := [] + [a];
    AfterNext(1, history, b);
    history := history + [b];
    TwoKeys(0, 1);
  }

  lemma TwoKeys(a: Key, b: Key)
    requires a != b
    ensures |Inserted(Inserted(EMPTY, 1, a, None), 1, b, None).entries| == 2
  {
    hide Inserted;
    InsertOne(EMPTY, a);
    InsertOne(Inserted(EMPTY, 1, a, None), b);
  }

  lemma NoHistory(capacity: nat)
    ensures After(capacity, []) == EMPTY
  {
  }

  /** At capacity 1 a second key is added and nothing is cut. */
  lemma InsertOne(c: Cache, key: Key)
    requires |c.order| <= 1 && key !in c.entries
    ensures Inserted(c, 1, key, None) == Cache(c.entries[key := None], c.order + [key])
    ensures |Inserted(c, 1, key, None).entries| == |c.entries| + 1
  {
    assert Without(c.entries, []) == c.entries;
    assert c.order[..0] == [] && c.order[0..] == c.order;
  }

  /** A decision just inserted is there to be read, whatever was evicted for it. */
  lemma InsertedIsRemembered(capacity: nat, history: seq<Insertion>, key: Key, decision: Decision)
    requires capacity > 0
    ensures var c := After(capacity, history + [Insertion(key, decision)]);
            key in c.entries && c.entries[key] == decision
  {
    assert (history + [Insertion(key, decision)])[..|history|] == history;
  }

  function Lookup(c: Cache, key: Key): Option<Decision> {
    if key in c.entries then Some(c.entries[key]) else None
  }

  /**
   * How many keys are stored after so many fresh insertions: all while there is room, and then from one
   * more than its larger half up to the whole of the capacity, again and again.
   */
  function Retained(capacity: nat, added: nat): nat {
    if capacity == 0 then 0
    else if added <= capacity then added
    else capacity - capacity / 2 + 1 + (added - capacity - 1) % (if capacity == 1 then 1 else capacity / 2)
  }

  lemma CountOn(x: nat, period: nat)
    requires period > 0
    ensures (x + 1) % period == if x % period == period - 1 then 0 else x % period + 1
  {
    var q, r := x / period, x % period;
    assert x == q * period + r;
    if r == period - 1 {
      assert x + 1 == (q + 1) * period + 0;
      SameRemainder(x + 1, period, q + 1, 0);
    } else {
      SameRemainder(x + 1, period, q, r + 1);
    }
  }

  lemma SameRemainder(x: int, period: nat, q: int, r: int)
    requires 0 <= r < period && x == q * period + r
    ensures x % period == r
  {
    var d := x / period - q;
    assert d * period == r - x % period;
    MultiplesAreFar(d, period);
  }

  lemma MultiplesAreFar(d: int, period: nat)
    ensures d >= 1 ==> d * period >= period
    ensures d <= -1 ==> d * period + period <= 0
  {
  }

  lemma RetainedNext(capacity: nat, added: nat)
    requires capacity > 0
    ensures var n := Retained(capacity, added);
            Retained(capacity, added + 1) == if n >= capacity then n - n / 2 + 1 else n + 1
  {
    if added > capacity {
      CountOn(added - capacity - 1, if capacity == 1 then 1 else capacity / 2);
    }
  }

  /** A fresh insertion makes the order one longer, less the half it cuts once there is no room. */
  lemma FreshOrderLength(c: Cache, capacity: nat, key: Key, decision: Decision)
    requires |c.entries| == |c.order| && capacity > 0
    ensures var n := |c.order|;
            |Inserted(c, capacity, key, decision).order|
            == if key in c.entries then n else if n >= capacity then n - n / 2 + 1 else n + 1
  {
    hide Without;
  }

  /** The number of keys stored follows from the number of fresh insertions alone. */
  lemma SizeIsRetained(capacity: nat, history: seq<Insertion>)
    ensures |After(capacity, history).order| == Retained(capacity, |FreshKeys(capacity, history)|)
  {
    hide After, FreshKeys;
    CacheAgreesWithHistory(capacity, history);
    if capacity > 0 {
      SizeOfSome(capacity, history);
    }
  }

  lemma {:induction false} SizeOfSome(capacity: nat, history: seq<Insertion>)
    requires capacity > 0
    ensures |After(capacity, history).order| == Retained(capacity, |FreshKeys(capacity, history)|)
  {
    if history == [] {
      NoHistory(capacity);
    } else {
      var init, last := history[..|history| - 1], history[|history| - 1];
      hide *;
      SizeOfSome(capacity, init);
      SizeNext(capacity, init, last);
      assert history == init + [last];
    }
  }

  lemma SizeNext(capacity: nat, init: seq<Insertion>, last: Insertion)
    requires capacity > 0 && |After(capacity, init).order| == Retained(capacity, |FreshKeys(capacity, init)|)
    ensures var history := init + [last];
            |After(capacity, history).order| == Retained(capacity, |FreshKeys(capacity, history)|)
  {
    hide *;
    var c, added := After(capacity, init), FreshKeys(capacity, init);
    AfterNext(capacity, init, last);
    CacheAgreesWithHistory(capacity, init);
    SizeIsOrder(c);
    FreshOrderLength(c, capacity, last.key, last.decision);
    RetainedNext(capacity, |added|);
    assert |added + [last.key]| == |added| + 1;
  }

  /** All of the fresh insertions, or at least one more than the larger half of the capacity. */
  lemma AtLeastHalf(capacity: nat, added: nat)
    ensures var n := Retained(capacity, added);
            n <= added && (capacity == 0 || n == added || n >= capacity - capacity / 2 + 1)
  {
  }

  /**
   * What a lookup means after any history: the key's last decision while the key is among the most
   * recent fresh insertions, as many as are retained, and nothing once it has dropped out.
   */
  lemma LookupIsLastDecision(capacity: nat, history: seq<Insertion>, key: Key)
    ensures var added := FreshKeys(capacity, history);
            var n := Retained(capacity, |added|);
            && (capacity == 0 || n == |added| || n >= capacity - capacity / 2 + 1)
            && n <= |added|
            && Lookup(After(capacity, history), key)
               == if key in added[|added| - n..] then LastDecision(history, key) else None
  {
    CacheAgreesWithHistory(capacity, history);
    SizeIsRetained(capacity, history);
    AtLeastHalf(capacity, |FreshKeys(capacity, history)|);
    hide After, FreshKeys, LastDecision, Retained;
  }
}
