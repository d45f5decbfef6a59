/** The keys the suggestion tooltip may claim, and the one word they are packed into. */
module ClaimKeys {

  datatype ClaimKey = Up | Down | Enter | Function(n: bv8) | Digit(n: bv8)

  datatype Modifiers = Modifiers(shift: bool, control: bool, alt: bool, meta: bool, caps: bool)

  const NO_MODIFIERS := Modifiers(false, false, false, false, false)

  function Clamp(n: bv8): (r: bv8)
    ensures 1 <= r <= 9
  {
    if n < 1 then 1 else if n > 9 then 9 else n
  }

  /** Which bit of the word a key occupies. */
  function BitIndex(key: ClaimKey): (i: bv32)
    ensures i <= 20
  {
    match key
    case Up => 0
    case Down => 1
    case Enter => 2
    case Function(n) => 2 + Clamp(n) as bv32
    case Digit(n) => 11 + Clamp(n) as bv32
  }

  function Bit(key: ClaimKey): bv32 {
    1 << BitIndex(key)
  }

  /** Keys that share a bit are one key: numbers outside 1..9 stand for the nearest end. */
  function Canonical(key: ClaimKey): ClaimKey {
    match key
    case Function(n) => Function(Clamp(n))
    case Digit(n) => Digit(Clamp(n))
    case _ => key
  }

  /** Every claimable key, in bit order. */
  function All(): seq<ClaimKey> {
    [Up, Down, Enter,
     Function(1), Function(2), Function(3), Function(4), Function(5), Function(6), Function(7), Function(8),
         Function(9),
     Digit(1), Digit(2), Digit(3), Digit(4), Digit(5), Digit(6), Digit(7), Digit(8), Digit(9)]
  }

  /** A number within 1 to 9 stands for itself, one outside for the end that is nearer. */
  lemma NumbersStandForTheNearest(n: bv8)
    ensures var stands := Canonical(Digit(n)).n;
            && Canonical(Function(n)).n == stands && 1 <= stands <= 9
            && (1 <= n <= 9 ==> stands == n) && (n == 0 ==> stands == 1) && (n >= 9 ==> stands == 9)
  {
  }

  function ModifierWord(m: Modifiers): bv32 {
    (if m.control then 1 else 0)
    | (if m.shift then 1 << 1 else 0)
    | (if m.alt then 1 << 2 else 0)
    | (if m.meta then 1 << 3 else 0)
  }

  // The three operations on the word, by name.

  function AddBit(word: bv32, bit: bv32): bv32 {
    word | bit
  }

  function DropBit(word: bv32, bit: bv32): bv32 {
    word & !bit
  }

  predicate Test(word: bv32, probe: bv32) {
    word & probe != 0
  }

  datatype ClaimSet = ClaimSet(bits: bv32) {

    function With(key: ClaimKey): ClaimSet {
      ClaimSet(AddBit(bits, Bit(key)))
    }

    function Without(key: ClaimKey): ClaimSet {
      ClaimSet(DropBit(bits, Bit(key)))
    }

    predicate Contains(key: ClaimKey) {
      Test(bits, Bit(key))
    }

    /** The accept chord's modifiers, kept in the top byte. */
    function WithDigitModifiers(m: Modifiers): ClaimSet {
      ClaimSet((bits & 0x00FF_FFFF) | (ModifierWord(m) << 24))
    }

    function DigitModifiers(): Modifiers {
      Modifiers(
        shift := (bits >> 25) & 1 != 0,
        control := (bits >> 24) & 1 != 0,
        alt := (bits >> 26) & 1 != 0,
        meta := (bits >> 27) & 1 != 0,
        caps := false)
    }

    predicate IsEmpty() {
      bits & 0x00FF_FFFF == 0
    }

    /** The set of canonical keys the word stands for. */
    function Keys(): set<ClaimKey> {
      set k | k in All() && Contains(k)
    }

    /** The three bits between the keys and the modifiers are never used. */
    predicate WellFormed() {
      bits & 0x00E0_0000 == 0
    }
  }

  const NOTHING := ClaimSet(0)

  // ---- One bit a key ----

  lemma BitsAreDisjoint(i: bv32, j: bv32)
    requires i <= 20 && j <= 20
    ensures ((1 as bv32) << i) & ((1 as bv32) << j) == if i == j then (1 as bv32) << i else 0
    ensures (1 as bv32) << i != 0
    ensures ((1 as bv32) << i) & 0xFFE0_0000 == 0
  {
  }

  lemma BitIsLow(key: ClaimKey)
    ensures Bit(key) != 0 && Bit(key) & 0xFFE0_0000 == 0 && Bit(key) & 0xFF00_0000 == 0
  {
    hide BitIndex;
    BitsAreDisjoint(BitIndex(key), BitIndex(key));
  }

  lemma CanonicalIsIndex(a: ClaimKey, b: ClaimKey)
    ensures BitIndex(a) == BitIndex(b) <==> Canonical(a) == Canonical(b)
    ensures Canonical(a) in All() && Canonical(Canonical(a)) == Canonical(a)
    ensures BitIndex(Canonical(a)) == BitIndex(a)
  {
    assert Canonical(a) in All() by {
      var i := match a
        case Up => 0
        case Down => 1
        case Enter => 2
        case Function(n) => 2 + IndexOf(Clamp(n))
        case Digit(n) => 11 + IndexOf(Clamp(n));
      assert All()[i] == Canonical(a);
    }
  }

  function IndexOf(n: bv8): (i: nat)
    requires 1 <= n <= 9
    ensures 1 <= i <= 9
  {
    if n == 1 then 1 else if n == 2 then 2 else if n == 3 then 3 else if n == 4 then 4 else if n == 5 then 5
    else if n == 6 then 6 else if n == 7 then 7 else if n == 8 then 8 else 9
  }

  lemma ContainsIsMembership(s: ClaimSet, key: ClaimKey)
    ensures s.Contains(key) <==> Canonical(key) in s.Keys()
  {
    hide All, Canonical, Bit, ClaimSet.Contains;
    CanonicalIsIndex(key, key);
    SameIndexSameTest(s, key, Canonical(key));
  }

  lemma SameIndexSameTest(s: ClaimSet, a: ClaimKey, b: ClaimKey)
    requires BitIndex(a) == BitIndex(b)
    ensures s.Contains(a) == s.Contains(b)
  {
    hide Bit;
    SameIndexSameBit(a, b);
  }

  lemma SameIndexSameBit(a: ClaimKey, b: ClaimKey)
    requires BitIndex(a) == BitIndex(b)
    ensures Bit(a) == Bit(b)
  {
    hide BitIndex;
  }

  /** Adding a key adds it and touches neither the other keys nor the modifiers. */
  lemma WithAddsOneKey(s: ClaimSet, key: ClaimKey)
    ensures s.With(key).Keys() == s.Keys() + {Canonical(key)}
    ensures s.With(key).DigitModifiers() == s.DigitModifiers()
    ensures s.WellFormed() ==> s.With(key).WellFormed()
  {
    hide All, Canonical, BitIndex;
    forall k | k in All() ensures s.With(key).Contains(k) <==> s.Contains(k) || k == Canonical(key) {
      OneBitTests(s, key, k);
    }
    CanonicalIsIndex(key, key);
    BitsAreDisjoint(BitIndex(key), BitIndex(key));
    TopUnchanged(s.bits, Bit(key));
  }

  /** Setting or clearing one key's bit decides that key and leaves every other as it was. */
  lemma OneBitTests(s: ClaimSet, key: ClaimKey, k: ClaimKey)
    requires k in All()
    ensures s.With(key).Contains(k) <==> s.Contains(k) || k == Canonical(key)
    ensures s.Without(key).Contains(k) <==> s.Contains(k) && k != Canonical(key)
  {
    hide All, Canonical, BitIndex, Bit, Test, AddBit, DropBit;
    AllAreCanonical(k);
    BitsOf(k, key);
    TestAdded(s.bits, Bit(key), Bit(k));
    TestDropped(s.bits, Bit(key), Bit(k));
  }

  /** The same bit, or two that have nothing in common. */
  predicate OneOrApart(bit: bv32, probe: bv32) {
    probe != 0 && (probe == bit || probe & bit == 0)
  }

  lemma TestAdded(word: bv32, bit: bv32, probe: bv32)
    requires OneOrApart(bit, probe)
    ensures Test(AddBit(word, bit), probe) <==> Test(word, probe) || probe == bit
  {
    if probe == bit {
      SameBitAdded(word, bit);
    } else {
      OtherBitAdded(word, bit, probe);
    }
    hide *;
  }

  lemma TestDropped(word: bv32, bit: bv32, probe: bv32)
    requires OneOrApart(bit, probe)
    ensures Test(DropBit(word, bit), probe) <==> Test(word, probe) && probe != bit
  {
    if probe == bit {
      SameBitDropped(word, bit);
    } else {
      OtherBitDropped(word, bit, probe);
    }
    hide *;
  }

  /** Two keys have one bit if they are one key, and disjoint bits otherwise. */
  lemma BitsOf(a: ClaimKey, b: ClaimKey)
    ensures Bit(a) == Bit(b) <==> Canonical(a) == Canonical(b)
    ensures OneOrApart(Bit(b), Bit(a))
  {
    hide Canonical, BitIndex, OneOrApart;
    CanonicalIsIndex(a, b);
    ShiftsApart(BitIndex(a), BitIndex(b));
    hide *;
  }

  lemma ShiftsApart(i: bv32, j: bv32)
    requires i <= 20 && j <= 20
    ensures OneOrApart((1 as bv32) << j, (1 as bv32) << i)
    ensures (1 as bv32) << i == (1 as bv32) << j <==> i == j
  {
    BitsAreDisjoint(i, j);
  }

  lemma AllAreCanonical(k: ClaimKey)
    requires k in All()
    ensures Canonical(k) == k
  {
  }

  lemma SameBitAdded(word: bv32, bit: bv32)
    requires bit != 0
    ensures Test(AddBit(word, bit), bit)
  {
    assert (word | bit) & bit == bit;
  }

  lemma SameBitDropped(word: bv32, bit: bv32)
    ensures !Test(DropBit(word, bit), bit)
  {
  }

  lemma OtherBitAdded(word: bv32, bit: bv32, probe: bv32)
    requires probe & bit == 0
    ensures Test(AddBit(word, bit), probe) == Test(word, probe)
  {
    OtherBit(word, bit, probe);
    hide Test;
    NamesOf(word, bit, probe);
  }

  lemma OtherBitDropped(word: bv32, bit: bv32, probe: bv32)
    requires probe & bit == 0
    ensures Test(DropBit(word, bit), probe) == Test(word, probe)
  {
    OtherBit(word, bit, probe);
    hide Test;
    NamesOf(word, bit, probe);
  }

  lemma NamesOf(word: bv32, bit: bv32, probe: bv32)
    ensures AddBit(word, bit) == word | bit && DropBit(word, bit) == word & !bit
    ensures forall w: bv32 :: Test(w, probe) <==> w & probe != 0
  {
  }

  lemma OtherBit(word: bv32, bit: bv32, probe: bv32)
    requires probe & bit == 0
    ensures (word | bit) & probe == word & probe
    ensures (word & !bit) & probe == word & probe
  {
  }

  lemma TopUnchanged(word: bv32, bit: bv32)
    requires bit & 0xFFE0_0000 == 0
    ensures ((word | bit) >> 24) == (word >> 24)
    ensures ((word | bit) >> 25) == (word >> 25)
    ensures ((word | bit) >> 26) == (word >> 26)
    ensures ((word | bit) >> 27) == (word >> 27)
    ensures word & 0x00E0_0000 == 0 ==> (word | bit) & 0x00E0_0000 == 0
  {
  }

  lemma WithoutDropsOneKey(s: ClaimSet, key: ClaimKey)
    ensures s.Without(key).Keys() == s.Keys() - {Canonical(key)}
  {
    hide All, Canonical, BitIndex;
    forall k | k in All() ensures s.Without(key).Contains(k) <==> s.Contains(k) && k != Canonical(key) {
      OneBitTests(s, key, k);
    }
  }

  /** The chord's modifiers read back, and the keys do not notice. */
  lemma DigitModifiersReadBack(s: ClaimSet, m: Modifiers)
    ensures s.WithDigitModifiers(m).DigitModifiers() == m.(caps := false)
    ensures s.WithDigitModifiers(m).Keys() == s.Keys()
    ensures s.WellFormed() ==> s.WithDigitModifiers(m).WellFormed()
  {
    ModifiersSurvive(s, m);
    forall k | k in All() ensures s.WithDigitModifiers(m).Contains(k) <==> s.Contains(k) {
      KeySurvives(s, m, k);
    }
    TopIgnored(s.bits, ModifierWord(m), 0x00E0_0000);
    hide All, ClaimSet.Contains, ClaimSet.DigitModifiers, ModifierWord;
  }

  lemma ModifiersSurvive(s: ClaimSet, m: Modifiers)
    ensures s.WithDigitModifiers(m).DigitModifiers() == m.(caps := false)
  {
  }

  lemma KeySurvives(s: ClaimSet, m: Modifiers, k: ClaimKey)
    ensures s.WithDigitModifiers(m).Contains(k) <==> s.Contains(k)
  {
    BitIsLow(k);
    hide Bit, ModifierWord;
    TopIgnored(s.bits, ModifierWord(m), Bit(k));
  }

  /** A probe below the top byte does not see what is written there. */
  lemma TopIgnored(bits: bv32, word: bv32, probe: bv32)
    requires probe & 0xFF00_0000 == 0
    ensures ((bits & 0x00FF_FFFF) | (word << 24)) & probe == bits & probe
  {
  }

  lemma LowBitsSeen(word: bv32, probe: bv32)
    requires probe & 0xFFE0_0000 == 0 && word & probe != 0
    ensures word & 0x00FF_FFFF != 0
  {
  }

  /** No bit set under any of the 21 keys leaves none set at all. */
  lemma NoBitSet(word: bv32)
    requires forall i: bv32 :: i <= 20 ==> NotSet(word, i)
    ensures word & 0x001F_FFFF == 0
  {
    assert NotSet(word, 0) && NotSet(word, 1) && NotSet(word, 2) && NotSet(word, 3) && NotSet(word, 4)
        && NotSet(word, 5) && NotSet(word, 6) && NotSet(word, 7) && NotSet(word, 8) && NotSet(word, 9)
        && NotSet(word, 10) && NotSet(word, 11) && NotSet(word, 12) && NotSet(word, 13) && NotSet(word, 14)
        && NotSet(word, 15) && NotSet(word, 16) && NotSet(word, 17) && NotSet(word, 18) && NotSet(word, 19)
        && NotSet(word, 20);
  }

  predicate NotSet(word: bv32, i: bv32)
    requires i <= 20
  {
    word & ((1 as bv32) << i) == 0
  }

  function KeyAt(i: bv32): (key: ClaimKey)
    requires i <= 20
    ensures BitIndex(key) == i
  {
    if i == 0 then Up else if i == 1 then Down else if i == 2 then Enter
    else if i <= 11 then Function(((i - 2) & 0xFF) as bv8) else Digit(((i - 11) & 0xFF) as bv8)
  }

  /** Modifiers alone claim nothing: a set is empty exactly when it holds no key. */
  lemma EmptyMeansNoKeys(s: ClaimSet)
    requires s.WellFormed()
    ensures s.IsEmpty() <==> s.Keys() == {}
  {
    if s.Keys() == {} {
      forall i: bv32 | i <= 20 ensures NotSet(s.bits, i) {
        EmptyAt(s, i);
      }
      NoBitSet(s.bits);
      LowHalves(s.bits);
    } else {
      var k :| k in s.Keys();
      BitIsLow(k);
      hide Bit, All;
      LowBitsSeen(s.bits, Bit(k));
    }
  }

  lemma EmptyAt(s: ClaimSet, i: bv32)
    requires i <= 20 && s.Keys() == {}
    ensures NotSet(s.bits, i)
  {
    ContainsIsMembership(s, KeyAt(i));
    hide BitIndex, KeyAt, Canonical, ClaimSet.Keys;
  }

  lemma LowHalves(word: bv32)
    requires word & 0x001F_FFFF == 0 && word & 0x00E0_0000 == 0
    ensures word & 0x00FF_FFFF == 0
  {
  }

  /** A claim begins well-formed, as all that is made of it stays. */
  lemma NothingIsWellFormed()
    ensures NOTHING.WellFormed()
  {
  }
}
