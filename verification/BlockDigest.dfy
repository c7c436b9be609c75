/** What a streaming digest computes: a fold of its compression function over 64-byte blocks. */
module BlockDigest {
  import opened Bytes

  type octet = bv8

  const BLOCK: nat := 64

  /** Compress all whole blocks of the message. */
  function Fold<S>(f: (S, seq<octet>) -> S, s: S, msg: seq<octet>): (r: S)
    decreases |msg|
  {
    if |msg| < BLOCK then s else Fold(f, f(s, msg[..BLOCK]), msg[BLOCK..])
  }

  /** What is left after the last whole block. */
  function Rest(msg: seq<octet>): (r: seq<octet>)
    ensures |r| < BLOCK
    decreases |msg|
  {
    if |msg| < BLOCK then msg else Rest(msg[BLOCK..])
  }

  lemma {:induction false} RestLength(msg: seq<octet>)
    ensures |Rest(msg)| == |msg| % BLOCK
    decreases |msg|
  {
    if |msg| >= BLOCK {
      RestLength(msg[BLOCK..]);
      assert |msg| % BLOCK == (|msg| - BLOCK) % BLOCK;
    }
  }

  /** More bytes are folded in behind what was left over. */
  lemma {:induction false} FoldAppend<S>(f: (S, seq<octet>) -> S, s: S, a: seq<octet>, b: seq<octet>)
    ensures Fold(f, s, a + b) == Fold(f, Fold(f, s, a), Rest(a) + b)
    ensures Rest(a + b) == Rest(Rest(a) + b)
    decreases |a|
  {
    if |a| >= BLOCK {
      assert (a + b)[..BLOCK] == a[..BLOCK] && (a + b)[BLOCK..] == a[BLOCK..] + b;
      FoldAppend(f, f(s, a[..BLOCK]), a[BLOCK..], b);
    }
  }

  /** A running digest has absorbed `msg`: the whole blocks are compressed, the rest is kept. */
  ghost predicate Absorbed<S(!new)>(f: (S, seq<octet>) -> S, init: S, state: S, kept: seq<octet>, msg: seq<octet>) {
    state == Fold(f, init, msg) && kept == Rest(msg)
  }

  // ----- padding

  function Zeros(n: nat): (s: seq<octet>)
    ensures |s| == n
  {
    if n == 0 then [] else Zeros(n - 1) + [0]
  }

  lemma {:induction false} ZerosAre(n: nat)
    ensures forall k :: 0 <= k < n ==> Zeros(n)[k] == 0
  {
    if n > 0 { ZerosAre(n - 1); }
  }

  function ZerosNeeded(n: nat): (k: nat) { (119 - n % BLOCK) % BLOCK }

  /** The padding loops stop after exactly that many zeros. */
  lemma ZerosNeededIs(n: nat, k: nat)
    requires k <= ZerosNeeded(n)
    ensures (n + 1 + k) % BLOCK == 56 <==> k == ZerosNeeded(n)
  {}

  /** A one bit and zeros up to 56 bytes modulo 64. */
  function Padding(n: nat): (p: seq<octet>)
    ensures (n + |p|) % BLOCK == 56
  {
    [0x80] + Zeros(ZerosNeeded(n))
  }

  lemma ZerosGrow(n: nat)
    ensures Zeros(n + 1) == Zeros(n) + [0] && Zeros(0) == []
  {}

  function Padded(msg: seq<octet>, length: seq<octet>): (p: seq<octet>)
    requires |length| == 8
    ensures |p| % BLOCK == 0
  {
    msg + Padding(|msg|) + length
  }

  /** The message, a one bit, as few zeros as fill a block, and the length field. */
  lemma PaddedIs(msg: seq<octet>, length: seq<octet>)
    requires |length| == 8
    ensures var (p, n) := (Padded(msg, length), |msg|);
            && |p| % 64 == 0 && n + 9 <= |p| < n + 73
            && p[..n] == msg && p[n] == 0x80 && p[|p| - 8..] == length
            && forall k :: n < k < |p| - 8 ==> p[k] == 0
  {
    hide Zeros;
    ZerosAre(ZerosNeeded(|msg|));
  }

  /** The length in bits, modulo 2^64. */
  function BitLength(msg: seq<octet>): (n: nat)
    ensures n < TWO_64
  {
    (8 * |msg|) % TWO_64
  }

  function Octet(n: nat): (b: octet) { (n % 256) as bv8 }

  /** Eight bytes, most significant first. */
  function BigEndian64(n: nat): (s: seq<octet>)
    ensures |s| == 8
  {
    [Octet(n / 0x100_0000_0000_0000), Octet(n / 0x1_0000_0000_0000),
     Octet(n / 0x100_0000_0000), Octet(n / 0x1_0000_0000),
     Octet(n / 0x100_0000), Octet(n / 0x1_0000), Octet(n / 0x100), Octet(n)]
  }

  /** Eight bytes, least significant first. */
  function LittleEndian64(n: nat): (s: seq<octet>)
    ensures |s| == 8
  {
    [Octet(n), Octet(n / 0x100), Octet(n / 0x1_0000), Octet(n / 0x100_0000),
     Octet(n / 0x1_0000_0000), Octet(n / 0x100_0000_0000),
     Octet(n / 0x1_0000_0000_0000), Octet(n / 0x100_0000_0000_0000)]
  }

  function Value(b: octet): (n: nat) { b as int }

  lemma SmallValue(n: nat)
    requires n < 256
    ensures Value(n as bv8) == n
  {}

  lemma OctetValue(n: nat)
    ensures Value(Octet(n)) == n % 256
  {
    hide Value;
    SmallValue(n % 256);
  }

  lemma FourDigits(n: nat)
    ensures var (a, b, c, d) := (n / 0x100, n / 0x1_0000, n / 0x100_0000, n / 0x1_0000_0000);
            n == 0x1_0000_0000 * d + 0x100_0000 * (c % 256) + 0x1_0000 * (b % 256) + 0x100 * (a % 256) + n % 256
  {
    var (a, b, c, d) := (n / 0x100, n / 0x1_0000, n / 0x100_0000, n / 0x1_0000_0000);
    assert b == a / 256 && c == b / 256 && d == c / 256;
  }

  lemma UpperDigits(n: nat)
    ensures var d := n / 0x1_0000_0000;
            && n / 0x100_0000_0000 == d / 0x100 && n / 0x1_0000_0000_0000 == d / 0x1_0000
            && n / 0x100_0000_0000_0000 == d / 0x100_0000
  {}

  lemma EightDigits(n: nat)
    requires n < TWO_64
    ensures n == 0x100_0000_0000_0000 * ((n / 0x100_0000_0000_0000) % 256)
               + 0x1_0000_0000_0000 * ((n / 0x1_0000_0000_0000) % 256)
               + 0x100_0000_0000 * ((n / 0x100_0000_0000) % 256) + 0x1_0000_0000 * ((n / 0x1_0000_0000) % 256)
               + 0x100_0000 * ((n / 0x100_0000) % 256) + 0x1_0000 * ((n / 0x1_0000) % 256)
               + 0x100 * ((n / 0x100) % 256) + n % 256
  {
    var d := n / 0x1_0000_0000;
    UpperDigits(n);
    FourDigits(n);
    FourDigits(d);
    assert d / 0x1_0000_0000 == 0;
  }

  /** The value of the length field, most significant byte first, and the same bytes the other way round. */
  lemma LengthFields(n: nat)
    requires n < TWO_64
    ensures var s := BigEndian64(n);
            n == 0x100_0000_0000_0000 * Value(s[0]) + 0x1_0000_0000_0000 * Value(s[1])
               + 0x100_0000_0000 * Value(s[2]) + 0x1_0000_0000 * Value(s[3])
               + 0x100_0000 * Value(s[4]) + 0x1_0000 * Value(s[5]) + 0x100 * Value(s[6]) + Value(s[7])
    ensures forall k :: 0 <= k < 8 ==> LittleEndian64(n)[k] == BigEndian64(n)[7 - k]
  {
    hide Octet, Value;
    EightDigits(n);
    OctetValue(n); OctetValue(n / 0x100); OctetValue(n / 0x1_0000); OctetValue(n / 0x100_0000);
    OctetValue(n / 0x1_0000_0000); OctetValue(n / 0x100_0000_0000); OctetValue(n / 0x1_0000_0000_0000);
    OctetValue(n / 0x100_0000_0000_0000);
  }

  // ----- the bit count in two words

  predicate Counts(lo: nat, hi: nat, n: nat) {
    lo < TWO_32 && hi < TWO_32 && hi * TWO_32 + lo == (8 * n) % TWO_64
  }

  /** Adding 8 * len to the two words, with a carry when the low word comes out smaller. */
  lemma CountCarries(lo: nat, hi: nat, n: nat, len: nat)
    requires Counts(lo, hi, n) && len < TWO_32
    ensures var add := (len * 8) % TWO_32;
            var lo' := (lo + add) % TWO_32;
            && (lo' < add <==> lo + add >= TWO_32) && (lo' < lo <==> lo + add >= TWO_32)
            && Counts(lo', (hi + (if lo' < add then 1 else 0) + len / 0x2000_0000) % TWO_32, n + len)
  {
    var add := (len * 8) % TWO_32;
    var top := len / 0x2000_0000;
    assert len * 8 == top * TWO_32 + add;
    var lo' := (lo + add) % TWO_32;
    var carry := if lo' < add then 1 else 0;
    assert lo + add == lo' + carry * TWO_32;
    var sum := hi + carry + top;
    var hi' := sum % TWO_32;
    var q := (8 * n) / TWO_64;
    assert 8 * n == q * TWO_64 + hi * TWO_32 + lo;
    assert 8 * (n + len) == q * TWO_64 + sum * TWO_32 + lo';
    var p := sum / TWO_32;
    assert sum == p * TWO_32 + hi';
    assert 8 * (n + len) == (q + p) * TWO_64 + (hi' * TWO_32 + lo');
    Remainder(8 * (n + len), q + p, hi' * TWO_32 + lo');
  }

  lemma Remainder(x: nat, q: nat, r: nat)
    requires r < TWO_64 && x == q * TWO_64 + r
    ensures x % TWO_64 == r
  {}

  /** The number of bytes in the buffer, as the low word tells it. */
  lemma BufferedCount(lo: nat, hi: nat, n: nat)
    requires Counts(lo, hi, n)
    ensures (lo / 8) % BLOCK == n % BLOCK
  {
    var q := (8 * n) / TWO_64;
    assert 8 * n == q * TWO_64 + hi * TWO_32 + lo;
    assert lo == 8 * (n - q * 0x2000_0000_0000_0000 - hi * 0x2000_0000);
    var m := lo / 8;
    assert n == m + 64 * (q * 0x80_0000_0000_0000 + hi * 0x80_0000);
    ModShift(m, q * 0x80_0000_0000_0000 + hi * 0x80_0000);
  }

  lemma ModShift(m: nat, k: nat)
    ensures (m + 64 * k) % 64 == m % 64
  {}

  lemma CarryTwice(x: nat, y: nat)
    ensures ((x + 1) % TWO_32 + y) % TWO_32 == (x + 1 + y) % TWO_32
  {
    var q := (x + 1) / TWO_32;
    var r := (x + 1) % TWO_32 + y;
    assert x + 1 + y == r + q * TWO_32;
    assert (r + q * TWO_32) % TWO_32 == r % TWO_32;
  }

  /** The low word gives the four low bytes of the count. */
  lemma LowOctets(lo: nat, hi: nat)
    requires lo < TWO_32
    ensures var n := hi * TWO_32 + lo;
            && Octet(n) == Octet(lo) && Octet(n / 0x100) == Octet(lo / 0x100)
            && Octet(n / 0x1_0000) == Octet(lo / 0x1_0000) && Octet(n / 0x100_0000) == Octet(lo / 0x100_0000)
  {
    var n := hi * TWO_32 + lo;
    assert n == lo + 256 * (hi * 0x100_0000);
    assert n / 0x100 == lo / 0x100 + 256 * (hi * 0x1_0000);
    assert n / 0x1_0000 == lo / 0x1_0000 + 256 * (hi * 0x100);
    assert n / 0x100_0000 == lo / 0x100_0000 + 256 * hi;
    SameOctet(lo, hi * 0x100_0000);
    SameOctet(lo / 0x100, hi * 0x1_0000);
    SameOctet(lo / 0x1_0000, hi * 0x100);
    SameOctet(lo / 0x100_0000, hi);
  }

  lemma SameOctet(x: nat, k: nat)
    ensures Octet(x + 256 * k) == Octet(x)
  {
    assert (x + 256 * k) % 256 == x % 256;
  }
}
