/** A set of small numbers kept as the bits of 32-bit words (utility/BitSet.cpp). */
module BitSets {
  import opened Sequences

  // ----- The bits of one word -----

  predicate Bit(w: bv32, i: bv8)
    requires i < 32
  {
    (w >> i) & 1 != 0
  }

  /** How many of the lowest `n` bits are set. */
  function Ones(w: bv32, n: bv8): nat
    requires n <= 32
    decreases n
  {
    if n == 0 then 0 else Ones(w, n - 1) + if Bit(w, n - 1) then 1 else 0
  }

  function WithBit(w: bv32, i: bv8): bv32
    requires i < 32
  {
    w | (1 << i)
  }

  function WithoutBit(w: bv32, i: bv8): bv32
    requires i < 32
  {
    w & !(1 << i)
  }

  predicate Tested(w: bv32, i: bv8)
    requires i < 32
  {
    w & (1 << i) != 0
  }

  /** Setting a bit changes that bit only. */
  lemma SetOneBit(w: bv32, i: bv8, j: bv8)
    requires i < 32 && j < 32
    ensures Bit(WithBit(w, i), j) <==> j == i || Bit(w, j)
  {
  }

  /** So does clearing it. */
  lemma ClearOneBit(w: bv32, i: bv8, j: bv8)
    requires i < 32 && j < 32
    ensures Bit(WithoutBit(w, i), j) <==> j != i && Bit(w, j)
  {
  }

  lemma TestOneBit(w: bv32, i: bv8)
    requires i < 32
    ensures Tested(w, i) <==> Bit(w, i)
  {
  }

  // ----- Counting bits -----

  const MASK_01010101: bv32 := 0xFFFF_FFFF / 3
  const MASK_00110011: bv32 := 0xFFFF_FFFF / 5
  const MASK_00001111: bv32 := 0xFFFF_FFFF / 17

  function Pairs(value: bv32): bv32 {
    (value & MASK_01010101) + ((value >> 1) & MASK_01010101)
  }

  function Nibbles(value: bv32): bv32 {
    (value & MASK_00110011) + ((value >> 2) & MASK_00110011)
  }

  function Bytes(value: bv32): bv32 {
    (value & MASK_00001111) + ((value >> 4) & MASK_00001111)
  }

  function Value(w: bv32): nat {
    w as nat
  }

  function Byte(w: bv32, k: bv8): (b: nat)
    requires k <= 24
    ensures b < 256
  {
    ((w >> k) & 0xFF) as nat
  }

  lemma MaskedInBytes(w: bv32)
    ensures Value(w & 0x0F0F_0F0F) ==
            Value(w & 0xF) + 0x100 * Value((w >> 8) & 0xF) + 0x1_0000 * Value((w >> 16) & 0xF) + 0x100_0000 * Value((w >> 24) & 0xF)
  {
  }

  lemma LowerHalves(w: bv32)
    requires w & 0xF0F0_F0F0 == 0
    ensures w == w & 0x0F0F_0F0F && (w >> 0) & 0xFF == w & 0xF && (w >> 8) & 0xFF == (w >> 8) & 0xF
    ensures (w >> 16) & 0xFF == (w >> 16) & 0xF && (w >> 24) & 0xFF == (w >> 24) & 0xF
  {
  }

  lemma ByteValue(w: bv32, k: bv8)
    requires k <= 24
    ensures Byte(w, k) == Value((w >> k) & 0xFF)
  {
  }

  /** A word is the number its bytes stand for in base 256. */
  lemma WordInBytes(w: bv32)
    requires w & 0xF0F0_F0F0 == 0
    ensures Value(w) == Byte(w, 0) + 0x100 * Byte(w, 8) + 0x1_0000 * Byte(w, 16) + 0x100_0000 * Byte(w, 24)
  {
    hide Value, Byte;
    LowerHalves(w);
    MaskedInBytes(w);
    ByteValue(w, 0);
    ByteValue(w, 8);
    ByteValue(w, 16);
    ByteValue(w, 24);
  }

  /** The number of bits set, all four bytes being added up by one remainder. */
  function PopulationCount(value: bv32): nat {
    Value(Bytes(Nibbles(Pairs(value)))) % 255
  }

  /** The number of bits set below bit `limit`: the others are shifted out. */
  function PopulationCountBelow(value: bv32, limit: bv8): nat
    requires limit <= 32
  {
    if limit == 0 then 0 else PopulationCount(value << (32 - limit))
  }

  /** No count is larger than eight: the upper half of each byte is empty. */
  lemma UpperHalvesEmpty(w: bv32)
    ensures Bytes(Nibbles(Pairs(w))) & 0xF0F0_F0F0 == 0
  {
  }

  function AsWord(bit: bool): bv32 {
    if bit then 1 else 0
  }

  function AsNumber(bit: bool): nat {
    if bit then 1 else 0
  }

  /** After two steps each nibble holds the count of its four bits. */
  lemma NibbleCounts(w: bv32, k: bv8)
    requires k <= 28 && k & 3 == 0
    ensures (Nibbles(Pairs(w)) >> k) & 0xF ==
            AsWord(Bit(w, k)) + AsWord(Bit(w, k + 1)) + AsWord(Bit(w, k + 2)) + AsWord(Bit(w, k + 3))
  {
  }

  /** The third step adds up neighbouring nibbles. */
  lemma BytesAddNibbles(w: bv32, k: bv8)
    requires k <= 24 && k & 7 == 0
    ensures (Bytes(w) >> k) & 0xFF == ((w >> k) & 0xF) + ((w >> (k + 4)) & 0xF)
  {
  }

  lemma FourBits(a: bool, b: bool, c: bool, d: bool)
    ensures var sum := AsWord(a) + AsWord(b) + AsWord(c) + AsWord(d);
            sum <= 4 && sum as bv8 as nat == AsNumber(a) + AsNumber(b) + AsNumber(c) + AsNumber(d)
  {
  }

  lemma FourMore(w: bv32, k: bv8)
    requires k <= 28
    ensures Ones(w, k + 4) == Ones(w, k) + AsNumber(Bit(w, k)) + AsNumber(Bit(w, k + 1)) + AsNumber(Bit(w, k + 2)) + AsNumber(Bit(w, k + 3))
  {
    hide Bit;
    assert Ones(w, k + 2) == Ones(w, k) + AsNumber(Bit(w, k)) + AsNumber(Bit(w, k + 1));
    assert Ones(w, k + 4) == Ones(w, k + 2) + AsNumber(Bit(w, k + 2)) + AsNumber(Bit(w, k + 3));
  }

  function Nibble(w: bv32, k: bv8): (x: bv32)
    requires k <= 28
    ensures x <= 0xF
  {
    (w >> k) & 0xF
  }

  lemma NibbleOnes(w: bv32, k: bv8)
    requires k <= 28 && k & 3 == 0
    ensures Nibble(Nibbles(Pairs(w)), k) <= 4
    ensures Ones(w, k + 4) == Ones(w, k) + Nibble(Nibbles(Pairs(w)), k) as bv8 as nat
  {
    hide Nibbles, Pairs, Bit;
    NibbleCounts(w, k);
    FourBits(Bit(w, k), Bit(w, k + 1), Bit(w, k + 2), Bit(w, k + 3));
    FourMore(w, k);
  }

  lemma AddNibbles(x: bv32, y: bv32)
    requires x <= 4 && y <= 4
    ensures x + y <= 0xFF && (x + y) as bv8 as nat == x as bv8 as nat + y as bv8 as nat <= 8
  {
  }

  /** After all three steps each byte holds the count of its eight bits. */
  lemma ByteCounts(w: bv32, k: bv8)
    requires k <= 24 && k & 7 == 0
    ensures Byte(Bytes(Nibbles(Pairs(w))), k) <= 8
    ensures Ones(w, k + 8) == Ones(w, k) + Byte(Bytes(Nibbles(Pairs(w))), k)
  {
    hide Nibbles, Pairs, Bytes, Ones;
    var y := Nibbles(Pairs(w));
    NibbleOnes(w, k);
    NibbleOnes(w, k + 4);
    BytesAddNibbles(y, k);
    AddNibbles(Nibble(y, k), Nibble(y, k + 4));
    assert k + 4 + 4 == k + 8;
  }

  /** The remainder adds up the bytes of a number, as long as their sum is small. */
  lemma RemainderAddsBytes(a: nat, b: nat, c: nat, d: nat)
    requires a + b + c + d < 255
    ensures (a + 0x100 * b + 0x1_0000 * c + 0x100_0000 * d) % 255 == a + b + c + d
  {
    assert a + 0x100 * b + 0x1_0000 * c + 0x100_0000 * d == a + b + c + d + 255 * (b + 257 * c + 65793 * d);
  }

  lemma NoOnes(w: bv32)
    ensures Ones(w, 0) == 0
  {
  }

  /** The fast count is the number of bits set, for every word. */
  lemma PopulationCountIsOnes(w: bv32)
    ensures PopulationCount(w) == Ones(w, 32)
  {
    NoOnes(w);
    hide Nibbles, Pairs, Bytes, Bit, Byte, Ones, Value;
    ByteCounts(w, 0);
    ByteCounts(w, 8);
    ByteCounts(w, 16);
    ByteCounts(w, 24);
    var z := Bytes(Nibbles(Pairs(w)));
    UpperHalvesEmpty(w);
    WordInBytes(z);
    RemainderAddsBytes(Byte(z, 0), Byte(z, 8), Byte(z, 16), Byte(z, 24));
  }

  lemma ShiftedBit(w: bv32, s: bv8, i: bv8)
    requires s < 32 && i < 32
    ensures Bit(w << s, i) <==> i >= s && Bit(w, i - s)
  {
  }

  /** Shifting up by `s` moves the ones up. */
  lemma {:induction false} ShiftedOnes(w: bv32, s: bv8, n: bv8)
    requires s < 32 && n <= 32
    ensures Ones(w << s, n) == if n < s then 0 else Ones(w, n - s)
    decreases n
  {
    if n != 0 {
      ShiftedOnes(w, s, n - 1);
      ShiftedBit(w, s, n - 1);
      hide Bit;
      assert n >= s + 1 ==> n - s - 1 == n - 1 - s;
    }
  }

  lemma Complement(limit: bv8)
    requires 0 < limit <= 32
    ensures var s := 32 - limit; s < 32 && 32 - s == limit
  {
  }

  lemma ShiftedCount(w: bv32, s: bv8)
    requires s < 32
    ensures PopulationCount(w << s) == Ones(w, 32 - s)
  {
    hide Bit, PopulationCount, Ones;
    PopulationCountIsOnes(w << s);
    ShiftedOnes(w, s, 32);
  }

  /** With a limit just the bits below it are counted. */
  lemma PopulationCountBelowIsOnes(w: bv32, limit: bv8)
    requires limit <= 32
    ensures PopulationCountBelow(w, limit) == Ones(w, limit)
  {
    hide Bit, PopulationCount, Ones;
    if limit == 0 {
      NoOnes(w);
    } else {
      Complement(limit);
      ShiftedCount(w, 32 - limit);
    }
  }

  // ----- Sets of numbers -----

  function Low(n: nat): (i: bv8)
    requires n <= 32
    ensures i <= 32 && (n < 32 ==> i < 32) && (n == 0 ==> i == 0) && (n != 0 ==> i != 0) && (n == 32 ==> i == 32)
  {
    n as bv8
  }

  lemma LowStep(n: nat)
    requires 0 < n <= 32
    ensures Low(n) - 1 == Low(n - 1)
  {
  }

  lemma LowInjective(n: nat, m: nat)
    requires n < 32 && m < 32 && Low(n) == Low(m)
    ensures n == m
  {
  }

  predicate Has(words: seq<bv32>, value: nat) {
    value / 32 < |words| && Bit(words[value / 32], Low(value % 32))
  }

  /** How many numbers below `value` are in the set. */
  ghost function Rank(words: seq<bv32>, value: nat): nat {
    if value == 0 then 0 else Rank(words, value - 1) + if Has(words, value - 1) then 1 else 0
  }

  /** Within one word the rank grows by the ones. */
  lemma {:induction false} RankInWord(words: seq<bv32>, j: nat, n: nat)
    requires j < |words| && n <= 32
    ensures Rank(words, 32 * j + n) == Rank(words, 32 * j) + Ones(words[j], Low(n))
    decreases n
  {
    hide Bit, Low;
    if n > 0 {
      RankInWord(words, j, n - 1);
      LowStep(n);
      assert (32 * j + n - 1) / 32 == j && (32 * j + n - 1) % 32 == n - 1;
    }
  }

  ghost function Below(words: seq<bv32>, value: nat): set<nat> {
    set x | 0 <= x < value && Has(words, x)
  }

  /** The rank counts the numbers below. */
  lemma {:induction false} RankCounts(words: seq<bv32>, value: nat)
    ensures Rank(words, value) == |Below(words, value)|
    decreases value
  {
    hide Has;
    if value > 0 {
      RankCounts(words, value - 1);
      assert Below(words, value) == Below(words, value - 1) + if Has(words, value - 1) then {value - 1} else {};
    }
  }

  /** The place of `value` in the order of the members. */
  ghost function Place(members: set<nat>, value: nat): nat {
    |set x | x in members && x < value|
  }

  /** Members have different places, in the same order. */
  lemma PlaceIncreases(members: set<nat>, a: nat, b: nat)
    requires a < b && a in members
    ensures Place(members, a) < Place(members, b)
  {
    var below, upto := set x | x in members && x < a, set x | x in members && x < b;
    assert a !in below && below + {a} <= upto;
    SmallerSubset(below + {a}, upto);
  }

  /** In a set, as in a word, one number at a time is added or removed. */
  lemma OneNumber(words: seq<bv32>, value: nat, x: nat)
    requires value / 32 < |words|
    ensures Has(words[value / 32 := WithBit(words[value / 32], Low(value % 32))], x) <==> x == value || Has(words, x)
    ensures Has(words[value / 32 := WithoutBit(words[value / 32], Low(value % 32))], x) <==> x != value && Has(words, x)
    ensures Tested(words[value / 32], Low(value % 32)) <==> Has(words, value)
  {
    hide Bit, Low, WithBit, WithoutBit, Tested;
    SetOneBit(words[value / 32], Low(value % 32), Low(x % 32));
    ClearOneBit(words[value / 32], Low(value % 32), Low(x % 32));
    TestOneBit(words[value / 32], Low(value % 32));
    OnePlace(value, x);
  }

  /** Word and bit tell the number. */
  lemma OnePlace(value: nat, x: nat)
    ensures value == x <==> value / 32 == x / 32 && Low(value % 32) == Low(x % 32)
  {
    if value / 32 == x / 32 && Low(value % 32) == Low(x % 32) {
      LowInjective(value % 32, x % 32);
    }
  }

  class BitSet {
    const max: nat
    const words: array<bv32>

    ghost predicate Valid() {
      words.Length == max / 32 + 1
    }

    ghost function Members(): (m: set<nat>)
      reads words
    {
      set x | 0 <= x <= max && Has(words[..], x)
    }

    constructor (max: nat)
      ensures Valid() && fresh(words) && this.max == max && Members() == {}
    {
      this.max := max;
      words := new bv32[max / 32 + 1](_ => 0);
    }

    method HasValue(value: nat) returns (found: bool)
      requires Valid()
      ensures found <==> value in Members()
    {
      hide Bit, Low, Tested;
      if value > max {
        return false;
      }
      OneNumber(words[..], value, value);
      found := Tested(words[value / 32], Low(value % 32));
    }

    /** Adds a number, unless it is too large or there already. */
    method SetBits(value: nat) returns (added: bool)
      requires Valid()
      modifies words
      ensures added <==> value <= max && value !in old(Members())
      ensures Members() == old(Members()) + if value <= max then {value} else {}
    {
      hide Bit, Low, WithBit;
      added := HasValue(value);
      if value > max || added {
        return false;
      }
      ghost var before := words[..];
      words[value / 32] := WithBit(words[value / 32], Low(value % 32));
      assert words[..] == before[value / 32 := WithBit(before[value / 32], Low(value % 32))];
      forall x: nat ensures Has(words[..], x) <==> x == value || Has(before, x) {
        OneNumber(before, value, x);
      }
      added := true;
    }

    /** Removes a number, if it is there. */
    method ClearBits(value: nat) returns (removed: bool)
      requires Valid()
      modifies words
      ensures removed <==> value in old(Members())
      ensures Members() == old(Members()) - {value}
    {
      hide Bit, Low, WithoutBit;
      removed := HasValue(value);
      if !removed {
        return;
      }
      ghost var before := words[..];
      words[value / 32] := WithoutBit(words[value / 32], Low(value % 32));
      assert words[..] == before[value / 32 := WithoutBit(before[value / 32], Low(value % 32))];
      forall x: nat ensures Has(words[..], x) <==> x != value && Has(before, x) {
        OneNumber(before, value, x);
      }
    }

    /** The number of members below `value`, or -1 when it is no member. */
    method IndexOf(value: nat) returns (index: int)
      requires Valid()
      ensures index == if value in Members() then Place(Members(), value) else -1
    {
      hide Bit, Low, PopulationCount, PopulationCountBelow, Ones, Has;
      var found := HasValue(value);
      if !found {
        return -1;
      }
      ghost var ws := words[..];
      var i, j := 0, value / 32;
      index := 0;
      while i < j
        invariant 0 <= i <= j && index == Rank(ws, 32 * i)
      {
        PopulationCountIsOnes(words[i]);
        RankInWord(ws, i, 32);
        index := index + PopulationCount(words[i]);
        i := i + 1;
      }
      PopulationCountBelowIsOnes(words[j], Low(value % 32));
      RankInWord(ws, j, value % 32);
      index := index + PopulationCountBelow(words[j], Low(value % 32));
      RankCounts(ws, value);
      assert Below(ws, value) == set x | x in Members() && x < value;
    }
  }
}
