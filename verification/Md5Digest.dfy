/**
 * MD5 as a stream (sections 3.1 to 3.4 of RFC 1321) over an arbitrary compression function: the
 * buffering, the two-word bit count and the padding done in place.
 */
module Md5Digest {
  import opened Bytes
  import opened BlockDigest

  /** The padded message: the bit count goes least significant byte first. */
  function PaddedMessage(msg: seq<octet>): (p: seq<octet>)
    ensures |p| % BLOCK == 0
  {
    Padded(msg, LittleEndian64(BitLength(msg)))
  }

  /** Section 3.1 and 3.2 of RFC 1321: a one bit, zeros up to 8 bytes below a block, the length in bits. */
  lemma PaddedMessageIs(msg: seq<octet>)
    ensures var (p, n) := (PaddedMessage(msg), |msg|);
            && |p| % 64 == 0 && n + 9 <= |p| < n + 73 && p[..n] == msg && p[n] == 0x80
            && (forall k :: n < k < |p| - 8 ==> p[k] == 0)
            && var s := p[|p| - 8..];
            (8 * n) % 0x1_0000_0000_0000_0000 ==
              Value(s[0]) + 0x100 * Value(s[1]) + 0x1_0000 * Value(s[2]) + 0x100_0000 * Value(s[3])
              + 0x1_0000_0000 * Value(s[4]) + 0x100_0000_0000 * Value(s[5])
              + 0x1_0000_0000_0000 * Value(s[6]) + 0x100_0000_0000_0000 * Value(s[7])
  {
    hide LittleEndian64, BigEndian64, Padded, Value;
    var b := BitLength(msg);
    PaddedIs(msg, LittleEndian64(b));
    LengthFields(b);
    var (s, t) := (LittleEndian64(b), BigEndian64(b));
    assert s[0] == t[7] && s[1] == t[6] && s[2] == t[5] && s[3] == t[4];
    assert s[4] == t[3] && s[5] == t[2] && s[6] == t[1] && s[7] == t[0];
  }

  /** MD5Context; `transform` stands for MD5Transform. */
  class Context<S(!new)> {
    const transform: (S, seq<octet>) -> S
    const initial: S
    var buf: S
    var lo: nat
    var hi: nat
    const input: array<octet>

    ghost predicate Holds(msg: seq<octet>)
      reads this, input
    {
      && input.Length == BLOCK && Counts(lo, hi, |msg|)
      && Absorbed(transform, initial, buf, input[..|Rest(msg)|], msg)
    }

    constructor (transform: (S, seq<octet>) -> S, initial: S)
      ensures this.transform == transform && this.initial == initial
      ensures Holds([]) && fresh(input)
    {
      this.transform, this.initial := transform, initial;
      buf := initial;
      lo, hi := 0, 0;
      input := new octet[BLOCK];
    }

    method Store(at: nat, data: seq<octet>)
      requires at + |data| <= input.Length
      modifies input
      ensures input[..at] == old(input[..at]) && input[at..at + |data|] == data
      ensures input[at + |data|..] == old(input[at + |data|..])
    {
      for k := 0 to |data|
        invariant forall j :: 0 <= j < at ==> input[j] == old(input[j])
        invariant input[at..at + k] == data[..k]
        invariant forall j :: at + |data| <= j < input.Length ==> input[j] == old(input[j])
      {
        input[at + k] := data[k];
        assert input[at..at + k + 1] == input[at..at + k] + [data[k]];
      }
    }

    method AddCount(len: nat, ghost n: nat)
      requires Counts(lo, hi, n) && len < TWO_32
      modifies this`lo, this`hi
      ensures Counts(lo, hi, n + len)
    {
      hide Counts;
      CountCarries(lo, hi, n, len);
      var t := lo;
      ghost var hi0 := hi;
      lo := (t + (len * 8) % TWO_32) % TWO_32;
      if lo < t { hi := (hi + 1) % TWO_32; }
      hi := (hi + len / 0x2000_0000) % TWO_32;
      CarryTwice(hi0, len / 0x2000_0000);
    }

    /** The bytes after `t` buffered ones. */
    method Take(t: nat, data: seq<octet>)
      requires input.Length == BLOCK && t < BLOCK
      modifies this`buf, input
      ensures buf == Fold(transform, old(buf), old(input[..t]) + data)
      ensures input[..|Rest(old(input[..t]) + data)|] == Rest(old(input[..t]) + data)
    {
      ghost var all := input[..t] + data;
      ghost var before := buf;
      var i := 0;
      if t != 0 {
        var room := BLOCK - t;
        if |data| < room {
          Store(t, data);
          assert input[..t + |data|] == input[..t] + input[t..t + |data|];
          return;
        }
        Store(t, data[..room]);
        assert input[..] == input[..t] + input[t..t + room];
        assert input[..] == all[..BLOCK] && all[BLOCK..] == data[room..];
        buf := transform(buf, input[..]);
        i := room;
      } else {
        assert all == data && data[0..] == data;
      }
      while |data| - i >= 64
        invariant 0 <= i <= |data|
        invariant Fold(transform, before, all) == Fold(transform, buf, data[i..])
        invariant Rest(all) == Rest(data[i..])
      {
        assert data[i..][..BLOCK] == data[i..i + BLOCK] && data[i..][BLOCK..] == data[i + BLOCK..];
        Store(0, data[i..i + BLOCK]);
        assert input[..] == data[i..i + BLOCK];
        buf := transform(buf, input[..]);
        i := i + BLOCK;
      }
      Store(0, data[i..]);
    }

    /** MD5Update. */
    method Update(data: seq<octet>, ghost msg: seq<octet>)
      requires Holds(msg) && |data| < TWO_32
      modifies this, input
      ensures Holds(msg + data)
    {
      hide Fold, Rest, Counts;
      var t := (lo / 8) % BLOCK;
      assert t == |Rest(msg)| by { BufferedCount(lo, hi, |msg|); RestLength(msg); }
      AddCount(|data|, |msg|);
      assert |msg + data| == |msg| + |data|;
      Take(t, data);
      FoldAppend(transform, initial, msg, data);
    }

    /** The padding of MD5Final, in the buffer: afterwards the block has room for the count only. */
    method PadInPlace(count: nat, ghost msg: seq<octet>)
      requires Holds(msg) && count == |Rest(msg)|
      modifies this`buf, input
      ensures buf == Fold(transform, initial, msg + Padding(|msg|))
      ensures input[..56] == Rest(msg + Padding(|msg|))
    {
      hide Padding, Counts;
      ghost var kept := Rest(msg);
      PaddingSplits(|msg|);
      RestLength(msg);
      FoldAppend(transform, initial, msg, Padding(|msg|));
      assert input[..count] == kept;
      Store(count, [0x80]);
      assert input[..count + 1] == input[..count] + input[count..count + 1];
      var left := 64 - 1 - count;
      if left < 8 {
        Store(count + 1, Zeros(left));
        ghost var block := kept + [0x80] + Zeros(left);
        assert input[..] == input[..count + 1] + input[count + 1..count + 1 + left];
        assert input[..] == block;
        FullBlockPadding(msg, kept);
        buf := transform(buf, input[..]);
        Store(0, Zeros(56));
        assert input[..56] == Zeros(56);
      } else {
        Store(count + 1, Zeros(left - 8));
        assert input[..56] == input[..count + 1] + input[count + 1..56];
        assert input[..56] == kept + Padding(|msg|);
      }
    }

    /** The two parts of a padding that runs over the block. */
    lemma FullBlockPadding(msg: seq<octet>, kept: seq<octet>)
      requires kept == Rest(msg) && |kept| == |msg| % BLOCK && |kept| >= 56
      ensures var left := 63 - |kept|;
              var block := kept + [0x80] + Zeros(left);
              && kept + Padding(|msg|) == block + Zeros(56) && |block| == BLOCK
              && Fold(transform, buf, kept + Padding(|msg|)) == transform(buf, block)
              && Rest(kept + Padding(|msg|)) == Zeros(56)
    {
      var left := 63 - |kept|;
      var block := kept + [0x80] + Zeros(left);
      PaddingSplits(|msg|);
      ZerosSplit(left, 56);
      var all := kept + Padding(|msg|);
      assert all == block + Zeros(56);
      assert all[..BLOCK] == block && all[BLOCK..] == Zeros(56);
    }

    /** MD5Final up to the digest bytes: the state after the padded message. */
    method Final(ghost msg: seq<octet>) returns (state: S)
      requires Holds(msg)
      modifies this, input
      ensures state == Fold(transform, initial, PaddedMessage(msg))
    {
      hide Padding, Rest, Counts, LittleEndian64, BitLength;
      var count := (lo / 8) % BLOCK;
      assert count == |Rest(msg)| by { BufferedCount(lo, hi, |msg|); RestLength(msg); }
      PadInPlace(count, msg);
      ghost var padded := msg + Padding(|msg|);
      Store(56, CountBytes(lo, hi));
      assert CountBytes(lo, hi) == LittleEndian64(BitLength(msg)) by { CountIsLength(lo, hi, msg); }
      assert input[..] == input[..56] + input[56..64];
      ghost var length := LittleEndian64(BitLength(msg));
      FoldAppend(transform, initial, padded, length);
      assert input[..] == Rest(padded) + length;
      assert input[..][..BLOCK] == input[..] && input[..][BLOCK..] == [];
      return transform(buf, input[..]);
    }
  }

  lemma PaddingSplits(n: nat)
    ensures var used := n % BLOCK;
            Padding(n) == [0x80] + Zeros(if used < 56 then 55 - used else (63 - used) + 56)
  {}

  lemma {:induction false} ZerosSplit(a: nat, b: nat)
    ensures Zeros(a + b) == Zeros(a) + Zeros(b)
  {
    if b > 0 {
      ZerosSplit(a, b - 1);
      ConcatAssoc(Zeros(a), Zeros(b - 1), [0]);
    }
  }

  /** bits[0], then bits[1], in the byte order of a little-endian machine. */
  function CountBytes(lo: nat, hi: nat): (s: seq<octet>)
    ensures |s| == 8
  {
    [Octet(lo), Octet(lo / 0x100), Octet(lo / 0x1_0000), Octet(lo / 0x100_0000),
     Octet(hi), Octet(hi / 0x100), Octet(hi / 0x1_0000), Octet(hi / 0x100_0000)]
  }

  lemma CountIsLength(lo: nat, hi: nat, msg: seq<octet>)
    requires Counts(lo, hi, |msg|)
    ensures CountBytes(lo, hi) == LittleEndian64(BitLength(msg))
  {
    hide Octet;
    var n := hi * TWO_32 + lo;
    assert n / 0x1_0000_0000 == hi && n / 0x100_0000_0000 == hi / 0x100;
    assert n / 0x1_0000_0000_0000 == hi / 0x1_0000 && n / 0x100_0000_0000_0000 == hi / 0x100_0000;
    LowOctets(lo, hi);
  }

  /** However the message is cut into updates, the state is the fold over the padded message. */
  method HashPieces<S(!new)>(transform: (S, seq<octet>) -> S, initial: S, pieces: seq<seq<octet>>) returns (state: S)
    requires forall k :: 0 <= k < |pieces| ==> |pieces[k]| < TWO_32
    ensures state == Fold(transform, initial, PaddedMessage(Flatten(pieces)))
  {
    hide Fold, Flatten, PaddedMessage;
    var ctx := new Context(transform, initial);
    assert Flatten(pieces[..0]) == [] by { FlattenNothing(pieces); }
    for k := 0 to |pieces|
      invariant fresh(ctx) && fresh(ctx.input) && ctx.Holds(Flatten(pieces[..k]))
    {
      assert pieces[..k + 1] == pieces[..k] + [pieces[k]];
      FlattenSnoc(pieces[..k], pieces[k]);
      ctx.Update(pieces[k], Flatten(pieces[..k]));
    }
    assert pieces[..|pieces|] == pieces;
    state := ctx.Final(Flatten(pieces));
  }
}
