/** The CRC-32 of the boot control block: table driven, and equal to the bit-at-a-time definition. */
module Crc32 {
  type word = bv32

  const POLYNOMIAL: word := 0xEDB88320

  function Xor(x: word, y: word): (r: word) { x ^ y }

  function Half(x: word): (r: word) { x >> 1 }

  predicate Odd(x: word) { x & 1 == 1 }

  function Low(x: word): (r: word) { x & 0xFF }

  function Down8(x: word): (r: word) { x >> 8 }

  function High(x: word): (r: word) { x & 0xFFFF_FF00 }

  // ----- the definition, one message bit at a time (section 8 of RFC 1952)

  function Reduced(x: word, carry: bool): (r: word) { if carry then Xor(x, POLYNOMIAL) else x }

  /** Divide once: the reflected register moves right, and takes the polynomial when a one falls out. */
  function Divide(x: word): (r: word) { Reduced(Half(x), Odd(x)) }

  function FeedBit(crc: word, bit: bool): (r: word) {
    Divide(if bit then Xor(crc, 1) else crc)
  }

  function FeedBits(crc: word, bits: seq<bool>): (r: word)
    decreases |bits|
  {
    if bits == [] then crc else FeedBits(FeedBit(crc, bits[0]), bits[1..])
  }

  /** The low `n` bits of `b`, least significant first. */
  function BitsOf(b: word, n: nat): (bits: seq<bool>) {
    if n == 0 then [] else [Odd(b)] + BitsOf(Half(b), n - 1)
  }

  function MessageBits(msg: seq<bv8>): (bits: seq<bool>) {
    if msg == [] then [] else BitsOf(msg[0] as bv32, 8) + MessageBits(msg[1..])
  }

  function Inverted(x: word): (r: word) { !x }

  function Reference(msg: seq<bv8>): (crc: word) {
    Inverted(FeedBits(0xFFFF_FFFF, MessageBits(msg)))
  }

  // ----- eight divisions at once

  function Times(x: word, n: nat): (r: word)
    decreases n
  {
    if n == 0 then x else Times(Divide(x), n - 1)
  }

  function Halved(b: word, n: nat): (r: word) {
    if n == 0 then b else Half(Halved(b, n - 1))
  }

  lemma HalfXor(x: word, y: word)
    ensures Half(Xor(x, y)) == Xor(Half(x), Half(y))
  {}

  lemma OddXor(x: word, y: word)
    ensures Odd(Xor(x, y)) <==> Odd(x) != Odd(y)
  {}

  lemma ReducedXor(x: word, y: word, a: bool, b: bool)
    ensures Reduced(Xor(x, y), a != b) == Xor(Reduced(x, a), Reduced(y, b))
  {
    hide Xor;
    XorCancels(x, y, POLYNOMIAL);
    XorMovesOut(x, y, POLYNOMIAL);
  }

  lemma XorCommutes(x: word, y: word)
    ensures Xor(x, y) == Xor(y, x)
  {}

  lemma XorAssociates(x: word, y: word, z: word)
    ensures Xor(Xor(x, y), z) == Xor(x, Xor(y, z))
  {}

  lemma XorSelf(x: word)
    ensures Xor(x, x) == 0
  {}

  lemma XorMovesOut(x: word, y: word, p: word)
    ensures Xor(Xor(x, p), y) == Xor(Xor(x, y), p) && Xor(x, Xor(y, p)) == Xor(Xor(x, y), p)
  {
    hide Xor;
    XorAssociates(x, p, y);
    XorCommutes(p, y);
    XorAssociates(x, y, p);
  }

  lemma XorCancels(x: word, y: word, p: word)
    ensures Xor(Xor(x, p), Xor(y, p)) == Xor(x, y)
  {
    hide Xor;
    XorMovesOut(x, Xor(y, p), p);
    XorMovesOut(x, y, p);
    XorAssociates(Xor(x, y), p, p);
    XorSelf(p);
    XorZero(Xor(x, y));
  }

  lemma DivideIsLinear(x: word, y: word)
    ensures Divide(Xor(x, y)) == Xor(Divide(x), Divide(y))
  {
    hide Xor, Half, Odd, Reduced;
    HalfXor(x, y);
    OddXor(x, y);
    ReducedXor(Half(x), Half(y), Odd(x), Odd(y));
  }

  /** An even register is only moved. */
  lemma DivideEven(x: word)
    requires !Odd(x)
    ensures Divide(x) == Half(x)
  {}

  lemma {:induction false} TimesIsLinear(x: word, y: word, n: nat)
    ensures Times(Xor(x, y), n) == Xor(Times(x, n), Times(y, n))
    decreases n
  {
    hide Divide, Xor;
    if n > 0 {
      DivideIsLinear(x, y);
      TimesIsLinear(Divide(x), Divide(y), n - 1);
    }
  }

  /** The register and the rest of the byte, whose lowest bit goes in now. */
  lemma DivideTakesBit(c: word, b: word)
    ensures Divide(Xor(c, b)) == Xor(FeedBit(c, Odd(b)), Half(b))
  {
    hide Divide, Xor, Half, Odd;
    var low: word := if Odd(b) then 1 else 0;
    assert Xor(Xor(c, low), b & 0xFFFF_FFFE) == Xor(c, b) by { LowestBit(c, b); }
    DivideIsLinear(Xor(c, low), b & 0xFFFF_FFFE);
    EvenPart(b);
    assert Xor(c, 0) == c by { XorZero(c); }
  }

  lemma LowestBit(c: word, b: word)
    ensures Xor(Xor(c, if Odd(b) then 1 else 0), b & 0xFFFF_FFFE) == Xor(c, b)
  {}

  lemma EvenPart(b: word)
    ensures Divide(b & 0xFFFF_FFFE) == Half(b)
  {}

  /** The bits of a byte may all be added to the register first. */
  lemma {:induction false} BitsTogether(c: word, b: word, n: nat)
    ensures Xor(FeedBits(c, BitsOf(b, n)), Halved(b, n)) == Times(Xor(c, b), n)
    decreases n
  {
    hide Divide, FeedBit, Xor, Half, Odd;
    if n > 0 {
      DivideTakesBit(c, b);
      BitsTogether(FeedBit(c, Odd(b)), Half(b), n - 1);
      HalvedFirst(b, n - 1);
      assert BitsOf(b, n)[1..] == BitsOf(Half(b), n - 1);
    }
  }

  lemma {:induction false} HalvedFirst(b: word, n: nat)
    ensures Halved(b, n + 1) == Halved(Half(b), n)
  {
    hide Half;
    if n > 0 { HalvedFirst(b, n - 1); }
  }

  /** While only zeros fall out, dividing is moving. */
  lemma {:induction false} TimesMoves(x: word, n: nat)
    requires forall k :: 0 <= k < n ==> !Odd(Halved(x, k))
    ensures Times(x, n) == Halved(x, n)
    decreases n
  {
    hide Divide, Half, Odd;
    if n > 0 {
      assert !Odd(Halved(x, 0));
      DivideEven(x);
      forall k | 0 <= k < n - 1 ensures !Odd(Halved(Half(x), k)) {
        HalvedFirst(x, k);
        assert !Odd(Halved(x, k + 1));
      }
      TimesMoves(Half(x), n - 1);
      HalvedFirst(x, n - 1);
    }
  }

  lemma EightHalves(x: word)
    ensures Halved(x, 0) == x && Halved(x, 1) == x >> 1 && Halved(x, 2) == x >> 2 && Halved(x, 3) == x >> 3
    ensures Halved(x, 4) == x >> 4 && Halved(x, 5) == x >> 5 && Halved(x, 6) == x >> 6
    ensures Halved(x, 7) == x >> 7 && Halved(x, 8) == x >> 8
  {
    HalfShifts(x);
    hide Half;
    assert Halved(x, 1) == Half(Halved(x, 0)) && Halved(x, 2) == Half(Halved(x, 1));
    assert Halved(x, 3) == Half(Halved(x, 2)) && Halved(x, 4) == Half(Halved(x, 3));
    assert Halved(x, 5) == Half(Halved(x, 4)) && Halved(x, 6) == Half(Halved(x, 5));
    assert Halved(x, 7) == Half(Halved(x, 6)) && Halved(x, 8) == Half(Halved(x, 7));
  }

  lemma HalfShifts(x: word)
    ensures Half(x) == x >> 1 && Half(x >> 1) == x >> 2 && Half(x >> 2) == x >> 3 && Half(x >> 3) == x >> 4
    ensures Half(x >> 4) == x >> 5 && Half(x >> 5) == x >> 6 && Half(x >> 6) == x >> 7 && Half(x >> 7) == x >> 8
  {}

  lemma HighBits(x: word)
    ensures var h := High(x);
            && h >> 8 == x >> 8
            && h & 1 == 0 && (h >> 1) & 1 == 0 && (h >> 2) & 1 == 0 && (h >> 3) & 1 == 0
            && (h >> 4) & 1 == 0 && (h >> 5) & 1 == 0 && (h >> 6) & 1 == 0 && (h >> 7) & 1 == 0
  {}

  lemma HighPart(x: word)
    ensures Times(High(x), 8) == Down8(x)
  {
    EightHalves(High(x));
    HighBits(x);
    hide Half, High, Halved, Times;
    TimesMoves(High(x), 8);
  }

  lemma ByteIsUsedUp(b: word)
    requires Low(b) == b
    ensures Halved(b, 8) == 0
  {
    EightHalves(b);
    LowShifted(b);
  }

  lemma LowShifted(b: word)
    requires Low(b) == b
    ensures b >> 8 == 0
  {}

  /** One step of the byte loop is eight steps of the definition. */
  lemma ByteStep(ret: word, b: word)
    requires Low(b) == b
    ensures Xor(Down8(ret), Times(Low(Xor(ret, b)), 8)) == FeedBits(ret, BitsOf(b, 8))
  {
    hide Times, FeedBits, BitsOf, Halved, Low, High, Xor, Down8;
    var x := Xor(ret, b);
    BitsTogether(ret, b, 8);
    ByteIsUsedUp(b);
    SplitWord(x);
    TimesIsLinear(High(x), Low(x), 8);
    HighPart(x);
    SameHigh(ret, b);
    XorZero(FeedBits(ret, BitsOf(b, 8)));
  }

  lemma SplitWord(x: word)
    ensures Xor(High(x), Low(x)) == x
  {}

  lemma SameHigh(ret: word, b: word)
    requires Low(b) == b
    ensures Down8(Xor(ret, b)) == Down8(ret)
  {}

  lemma XorZero(x: word)
    ensures Xor(x, 0) == x
  {}

  lemma {:induction false} FeedAppend(crc: word, a: seq<bool>, b: seq<bool>)
    ensures FeedBits(crc, a + b) == FeedBits(FeedBits(crc, a), b)
    decreases |a|
  {
    hide FeedBit;
    if a == [] {
      assert a + b == b;
    } else {
      assert (a + b)[1..] == a[1..] + b;
      FeedAppend(FeedBit(crc, a[0]), a[1..], b);
    }
  }

  // ----- whole messages

  lemma {:induction false} BitsInOrder(a: seq<bv8>, b: seq<bv8>)
    ensures MessageBits(a + b) == MessageBits(a) + MessageBits(b)
  {
    hide BitsOf;
    if a == [] {
      assert a + b == b;
    } else {
      BitsInOrder(a[1..], b);
      assert (a + b)[0] == a[0] && (a + b)[1..] == a[1..] + b;
      InThree(BitsOf(a[0] as bv32, 8), MessageBits(a[1..]), MessageBits(b));
    }
  }

  lemma InThree(a: seq<bool>, b: seq<bool>, c: seq<bool>)
    ensures (a + b) + c == a + (b + c)
  {}

  /** The CRC of a longer message goes on from the CRC of its beginning. */
  lemma CrcOfParts(a: seq<bv8>, b: seq<bv8>)
    ensures Reference(a + b) == Inverted(FeedBits(Inverted(Reference(a)), MessageBits(b)))
  {
    hide FeedBits, MessageBits;
    BitsInOrder(a, b);
    FeedAppend(0xFFFF_FFFF, MessageBits(a), MessageBits(b));
    InvertedTwice(FeedBits(0xFFFF_FFFF, MessageBits(a)));
  }

  lemma InvertedTwice(x: word)
    ensures Inverted(Inverted(x)) == x
  {}

  /** The CRC of the letter a. */
  lemma CrcOfLetter()
    ensures Reference([0x61]) == 0xE8B7BE43
  {
    var bits := BitsOf(0x61, 8);
    assert FeedBits(0xFFFF_FFFF, bits) == 0x174841BC;
    hide BitsOf, FeedBits;
    assert [0x61 as bv8][1..] == [];
    assert MessageBits([0x61]) == BitsOf(0x61, 8);
  }

  // ----- the code

  /** The static table of CRC32(), filled on the first call. */
  class Table {
    const entries: array<word>

    ghost predicate Valid()
      reads this, entries
    {
      entries.Length == 256 && (entries[1] != 0 ==> Filled())
    }

    ghost predicate Filled()
      requires entries.Length == 256
      reads this, entries
    {
      forall k :: 0 <= k < 256 ==> entries[k] == Times(k as bv32, 8)
    }

    constructor ()
      ensures Valid() && fresh(entries)
    {
      entries := new word[256](_ => 0);
    }

    /** The entry of one byte. */
    method Entry(i: word) returns (crc: word)
      ensures crc == Times(i, 8)
    {
      hide Divide, Masked;
      crc := i;
      for j := 0 to 8
        invariant Times(crc, 8 - j) == Times(i, 8)
      {
        MaskedDivide(crc);
        crc := Masked(crc);
      }
    }

    method Fill()
      requires Valid()
      modifies entries
      ensures Valid() && Filled() && entries[1] != 0
    {
      hide Times;
      for i := 0 to 256
        invariant forall k :: 0 <= k < i ==> entries[k] == Times(k as bv32, 8)
      {
        var crc := Entry(i as bv32);
        entries[i] := crc;
      }
      SecondEntry();
    }

    /** One byte of the message. */
    method Step(ret: word, octet: bv8) returns (ret': word)
      requires entries.Length == 256 && Filled()
      ensures ret' == FeedBits(ret, BitsOf(octet as bv32, 8))
    {
      hide FeedBits, BitsOf, Times, Xor, Low, Down8;
      var b := octet as bv32;
      OctetIsLow(octet);
      ByteStep(ret, b);
      var index := IndexOf(Xor(ret, b));
      return Xor(Down8(ret), entries[index]);
    }

    /** CRC32(). */
    method Crc(msg: seq<bv8>) returns (crc: word)
      requires Valid()
      modifies entries
      ensures Valid() && Filled() && crc == Reference(msg)
      ensures entries[1] != 0 && (old(entries[1]) != 0 ==> entries[..] == old(entries[..]))
    {
      hide FeedBits, BitsOf, Times, Filled, Inverted;
      if entries[1] == 0 { Fill(); }
      var ret: word := 0xFFFF_FFFF;
      assert msg[0..] == msg;
      for i := 0 to |msg|
        invariant Filled() && entries[1] != 0 && (old(entries[1]) != 0 ==> entries[..] == old(entries[..]))
        invariant FeedBits(ret, MessageBits(msg[i..])) == FeedBits(0xFFFF_FFFF, MessageBits(msg))
      {
        assert msg[i..][0] == msg[i] && msg[i..][1..] == msg[i + 1..];
        FeedAppend(ret, BitsOf(msg[i] as bv32, 8), MessageBits(msg[i + 1..]));
        ret := Step(ret, msg[i]);
      }
      assert msg[|msg|..] == [];
      NoBits(ret);
      return Inverted(ret);
    }
  }

  lemma NoBits(crc: word)
    ensures FeedBits(crc, []) == crc
  {}

  lemma OctetIsLow(b: bv8)
    ensures Low(b as bv32) == b as bv32
  {}

  /** (ret ^ buf[i]) & 0xFF, as a table index. */
  function IndexOf(x: word): (k: nat)
    ensures k < 256 && k as bv32 == Low(x)
  {
    LowIsSmall(x);
    Low(x) as nat
  }

  lemma LowIsSmall(x: word)
    ensures Low(x) as nat < 256
  {
    assert Low(x) < 256;
  }

  /** The mask -(crc & 1) selects the polynomial. */
  function Masked(crc: word): (r: word) {
    (crc >> 1) ^ (POLYNOMIAL & (0 - (crc & 1)))
  }

  lemma MaskedDivide(crc: word)
    ensures Masked(crc) == Divide(crc)
  {
    assert crc & 1 == 0 || crc & 1 == 1;
  }

  /** The entry that tells whether the table is filled. */
  lemma SecondEntry()
    ensures Times(1, 8) == 0x77073096
  {
    Once(1, 7, 0xEDB88320);
    Once(0xEDB88320, 6, 0x76DC4190);
    Once(0x76DC4190, 5, 0x3B6E20C8);
    Once(0x3B6E20C8, 4, 0x1DB71064);
    Once(0x1DB71064, 3, 0x0EDB8832);
    Once(0x0EDB8832, 2, 0x076DC419);
    Once(0x076DC419, 1, 0xEE0E612C);
    Once(0xEE0E612C, 0, 0x77073096);
  }

  lemma Once(x: word, n: nat, y: word)
    requires y == Divide(x)
    ensures Times(x, n + 1) == Times(y, n)
  {}
}
