/** The SHA-1 of a message (FIPS 180-4), and the two streaming contexts that compute it. */
module Sha1Digest {
  import opened Bytes
  import opened BlockDigest
  import opened Sha1

  const INITIAL := Regs(0x67452301, 0xEFCDAB89, 0x98BADCFE, 0x10325476, 0xC3D2E1F0)

  function CompressBlock(s: Regs, block: seq<octet>): (r: Regs) {
    if |block| == BLOCK then Compress(s, Words(block)) else s
  }

  function WordBytes(w: word): (s: seq<octet>)
    ensures |s| == 4
  {
    [((w >> 24) & 0xFF) as bv8, ((w >> 16) & 0xFF) as bv8, ((w >> 8) & 0xFF) as bv8, (w & 0xFF) as bv8]
  }

  function Output(r: Regs): (s: seq<octet>)
    ensures |s| == 20
  {
    WordBytes(r.a) + WordBytes(r.b) + WordBytes(r.c) + WordBytes(r.d) + WordBytes(r.e)
  }

  /** Sections 5.1.1 and 6.1 of FIPS 180-4. */
  function Digest(msg: seq<octet>): (d: seq<octet>)
    ensures |d| == 20
  {
    Output(Fold(CompressBlock, INITIAL, Padded(msg, BigEndian64(BitLength(msg)))))
  }

  // ----- digest/sha1.cpp

  /** SHA1_CTX, with 32-bit words. */
  class Context {
    var state: Regs
    var lo: nat
    var hi: nat
    const buffer: array<octet>

    /** The context has absorbed `msg`. */
    ghost predicate Holds(msg: seq<octet>)
      reads this, buffer
    {
      && buffer.Length == BLOCK && Counts(lo, hi, |msg|)
      && Absorbed(CompressBlock, INITIAL, state, buffer[..|Rest(msg)|], msg)
    }

    constructor ()
      ensures Holds([]) && fresh(buffer)
    {
      state := INITIAL;
      lo, hi := 0, 0;
      buffer := new octet[BLOCK];
    }

    /** memcpy(&buffer[at], data, ..). */
    method Store(at: nat, data: seq<octet>)
      requires at + |data| <= buffer.Length
      modifies buffer
      ensures buffer[..at + |data|] == old(buffer[..at]) + data
    {
      for k := 0 to |data|
        invariant forall j :: 0 <= j < at ==> buffer[j] == old(buffer[j])
        invariant forall j :: 0 <= j < k ==> buffer[at + j] == data[j]
      {
        buffer[at + k] := data[k];
      }
      var all := old(buffer[..at]) + data;
      forall k | 0 <= k < |all| ensures buffer[k] == all[k] {
        if k >= at { assert buffer[at + (k - at)] == data[k - at]; }
      }
    }

    /** Add 8 * len to the two-word count. */
    method AddCount(len: nat, ghost n: nat)
      requires Counts(lo, hi, n) && len < TWO_32
      modifies this`lo, this`hi
      ensures Counts(lo, hi, n + len)
    {
      hide Counts;
      CountCarries(lo, hi, n, len);
      var add := (len * 8) % TWO_32;
      ghost var hi0 := hi;
      lo := (lo + add) % TWO_32;
      if lo < add { hi := (hi + 1) % TWO_32; }
      hi := (hi + len / 0x2000_0000) % TWO_32;
      CarryTwice(hi0, len / 0x2000_0000);
    }

    /** The bytes after `j` buffered ones: the buffered block, then whole blocks, then the rest. */
    method Take(j: nat, data: seq<octet>)
      requires buffer.Length == BLOCK && j < BLOCK
      modifies this`state, buffer
      ensures state == Fold(CompressBlock, old(state), old(buffer[..j]) + data)
      ensures buffer[..|Rest(old(buffer[..j]) + data)|] == Rest(old(buffer[..j]) + data)
    {
      hide Fold, Rest, CompressBlock;
      ghost var all := buffer[..j] + data;
      var i, at := 0, j;
      if j + |data| > 63 {
        i := CompressBlocks(j, data);
        at := 0;
      } else {
        Short(CompressBlock, state, all);
        assert data[0..] == data;
      }
      Store(at, data[i..]);
    }

    /** SHA1Update. */
    method Update(data: seq<octet>, ghost msg: seq<octet>)
      requires Holds(msg) && |data| <= TWO_32 - 64
      modifies this, buffer
      ensures Holds(msg + data)
    {
      hide Fold, Rest, Counts, CompressBlock;
      var j := (lo / 8) % BLOCK;
      assert j == |Rest(msg)| by { BufferedCount(lo, hi, |msg|); RestLength(msg); }
      AddCount(|data|, |msg|);
      assert |msg + data| == |msg| + |data|;
      Take(j, data);
      FoldAppend(CompressBlock, INITIAL, msg, data);
    }

    /** Complete the buffered block and compress it, then all whole blocks of the data. */
    method CompressBlocks(j: nat, data: seq<octet>) returns (i: nat)
      requires buffer.Length == BLOCK && j < BLOCK <= j + |data|
      modifies this`state, buffer
      ensures i <= |data| && |data| - i < BLOCK
      ensures state == Fold(CompressBlock, old(state), old(buffer[..j]) + data)
      ensures data[i..] == Rest(old(buffer[..j]) + data)
    {
      hide CompressBlock;
      ghost var all := buffer[..j] + data;
      ghost var before := state;
      i := BLOCK - j;
      Store(j, data[..i]);
      assert buffer[..] == all[..BLOCK] && all[BLOCK..] == data[i..];
      state := Apply(state, buffer[..]);
      while i + 63 < |data|
        invariant BLOCK - j <= i <= |data|
        invariant Fold(CompressBlock, before, all) == Fold(CompressBlock, state, data[i..])
        invariant Rest(all) == Rest(data[i..])
      {
        assert data[i..][..BLOCK] == data[i..i + BLOCK] && data[i..][BLOCK..] == data[i + BLOCK..];
        state := Apply(state, data[i..i + BLOCK]);
        i := i + BLOCK;
      }
    }

    method Apply(s: Regs, block: seq<octet>) returns (r: Regs)
      requires |block| == BLOCK
      ensures r == CompressBlock(s, block)
    {
      r := Transform16(s, block);
    }

    /** (count[0] & 504) == 448. */
    method AtLength(ghost msg: seq<octet>) returns (yes: bool)
      requires Holds(msg)
      ensures yes <==> |msg| % BLOCK == 56
    {
      hide Absorbed, Counts;
      BufferedCount(lo, hi, |msg|);
      return (lo / 8) % BLOCK == 56;
    }

    /** The padding, one byte at a time. */
    method Pad(ghost msg: seq<octet>)
      requires Holds(msg)
      modifies this, buffer
      ensures Holds(msg + Padding(|msg|))
    {
      hide Holds, Zeros, ZerosNeeded;
      Update([0x80], msg);
      ghost var sent, zeros := msg + [0x80], 0;
      ZerosGrow(0);
      assert sent + [] == sent;
      ZerosNeededIs(|msg|, 0);
      var done := AtLength(sent + Zeros(0));
      while !done
        invariant Holds(sent + Zeros(zeros)) && zeros <= ZerosNeeded(|msg|)
        invariant done <==> zeros == ZerosNeeded(|msg|)
        decreases ZerosNeeded(|msg|) - zeros
      {
        ghost var now := sent + Zeros(zeros);
        Update([0], now);
        assert now + [0] == sent + Zeros(zeros + 1) by { ZerosGrow(zeros); }
        zeros := zeros + 1;
        ZerosNeededIs(|msg|, zeros);
        done := AtLength(sent + Zeros(zeros));
      }
      ConcatAssoc(msg, [0x80], Zeros(zeros));
    }

    /** SHA1Final: the padding, then the bit count as it was before. */
    method Final(ghost msg: seq<octet>) returns (digest: seq<octet>)
      requires Holds(msg)
      modifies this, buffer
      ensures digest == Digest(msg)
    {
      hide Fold, Rest, Counts, CompressBlock, Padding, BigEndian64, Output, BitLength;
      var finalCount := CountBytes(lo, hi);
      assert finalCount == BigEndian64(BitLength(msg)) by { CountIsLength(lo, hi, msg); }
      Pad(msg);
      Update(finalCount, msg + Padding(|msg|));
      return Output(state);
    }
  }

  /** A message shorter than a block is only kept. */
  lemma Short<S>(f: (S, seq<octet>) -> S, s: S, msg: seq<octet>)
    requires |msg| < BLOCK
    ensures Fold(f, s, msg) == s && Rest(msg) == msg
  {}

  /** finalcount: the high word, then the low word, each most significant byte first. */
  function CountBytes(lo: nat, hi: nat): (s: seq<octet>)
    ensures |s| == 8
  {
    [Octet(hi / 0x100_0000), Octet(hi / 0x1_0000), Octet(hi / 0x100), Octet(hi),
     Octet(lo / 0x100_0000), Octet(lo / 0x1_0000), Octet(lo / 0x100), Octet(lo)]
  }

  lemma CountIsLength(lo: nat, hi: nat, msg: seq<octet>)
    requires Counts(lo, hi, |msg|)
    ensures CountBytes(lo, hi) == BigEndian64(BitLength(msg))
  {
    hide Octet;
    var n := hi * TWO_32 + lo;
    assert n / 0x1_0000_0000 == hi && n / 0x100_0000_0000 == hi / 0x100;
    assert n / 0x1_0000_0000_0000 == hi / 0x1_0000 && n / 0x100_0000_0000_0000 == hi / 0x100_0000;
    LowOctets(lo, hi);
  }

  // ----- libmincrypt/sha.c

  /** SHA_CTX: a 64-bit byte count and a 64-byte buffer. */
  class MincryptContext {
    var state: Regs
    var count: nat
    const buf: array<octet>

    ghost predicate Holds(msg: seq<octet>)
      reads this, buf
    {
      && buf.Length == BLOCK && count == |msg| % TWO_64
      && Absorbed(CompressBlock, INITIAL, state, buf[..|Rest(msg)|], msg)
    }

    constructor ()
      ensures Holds([]) && fresh(buf)
    {
      state := INITIAL;
      count := 0;
      buf := new octet[BLOCK];
    }

    /** SHA_update: byte by byte; `len` is an int. */
    method Update(data: seq<octet>, ghost msg: seq<octet>)
      requires Holds(msg) && |data| < TWO_31
      modifies this, buf
      ensures Holds(msg + data)
    {
      hide Fold, Rest, CompressBlock;
      var i := count % BLOCK;
      assert i == |Rest(msg)| by { CountModBlock(|msg|); RestLength(msg); }
      CountAdds(|msg|, |data|);
      count := (count + |data|) % TWO_64;
      assert data[..0] == [] && msg + [] == msg;
      for k := 0 to |data|
        invariant i == |Rest(msg + data[..k])|
        invariant Absorbed(CompressBlock, INITIAL, state, buf[..i], msg + data[..k])
        invariant count == |msg + data| % TWO_64
      {
        ghost var sent := msg + data[..k];
        ghost var kept := buf[..i];
        assert msg + data[..k + 1] == sent + [data[k]];
        buf[i] := data[k];
        assert buf[..i + 1] == kept + [data[k]];
        i := i + 1;
        OneMore(sent, data[k], state);
        if i == BLOCK {
          state := Apply(state, buf[..]);
          assert buf[..] == kept + [data[k]];
          i := 0;
        }
      }
      assert data[..|data|] == data;
    }

    method Apply(s: Regs, block: seq<octet>) returns (r: Regs)
      requires |block| == BLOCK
      ensures r == CompressBlock(s, block)
    {
      r := Transform80(s, block);
    }

    /** SHA_final's padding loop. */
    method Pad(ghost msg: seq<octet>)
      requires Holds(msg)
      modifies this, buf
      ensures Holds(msg + Padding(|msg|))
    {
      hide Absorbed, Zeros, ZerosNeeded;
      Update([0x80], msg);
      ghost var sent, zeros := msg + [0x80], 0;
      ZerosGrow(0);
      assert sent + [] == sent;
      while count % BLOCK != 56
        invariant Holds(sent + Zeros(zeros)) && zeros <= ZerosNeeded(|msg|)
        decreases ZerosNeeded(|msg|) - zeros
      {
        ghost var now := sent + Zeros(zeros);
        CountModBlock(|now|);
        ZerosNeededIs(|msg|, zeros);
        Update([0], now);
        assert now + [0] == sent + Zeros(zeros + 1) by { ZerosGrow(zeros); }
        zeros := zeros + 1;
      }
      CountModBlock(|sent + Zeros(zeros)|);
      ZerosNeededIs(|msg|, zeros);
      ConcatAssoc(msg, [0x80], Zeros(zeros));
    }

    /** SHA_final: the padding, then the bit count in eight single bytes. */
    method Final(ghost msg: seq<octet>) returns (digest: seq<octet>)
      requires Holds(msg)
      modifies this, buf
      ensures digest == Digest(msg)
    {
      hide Fold, Rest, CompressBlock, Padding, BigEndian64, Output, BitLength;
      var cnt := (count * 8) % TWO_64;
      assert cnt == BitLength(msg) by { BitsOfCount(msg); }
      var bytes := BigEndian64(cnt);
      Pad(msg);
      ghost var padded := msg + Padding(|msg|);
      assert bytes[..0] == [] && padded + [] == padded;
      for i := 0 to 8
        invariant Holds(padded + bytes[..i])
      {
        Update([bytes[i]], padded + bytes[..i]);
        assert (padded + bytes[..i]) + [bytes[i]] == padded + bytes[..i + 1];
      }
      assert bytes[..8] == bytes;
      return Output(state);
    }
  }

  lemma CountModBlock(n: nat)
    ensures (n % TWO_64) % BLOCK == n % BLOCK
  {
    var q := n / TWO_64;
    assert n == n % TWO_64 + BLOCK * (q * 0x400_0000_0000_0000);
    ModShift(n % TWO_64, q * 0x400_0000_0000_0000);
  }

  lemma CountAdds(n: nat, k: nat)
    ensures (n % TWO_64 + k) % TWO_64 == (n + k) % TWO_64
  {
    var q := n / TWO_64;
    assert n + k == q * TWO_64 + (n % TWO_64 + k);
    ModMultiple64(n % TWO_64 + k, q);
  }

  lemma ModMultiple64(r: nat, q: nat)
    ensures (q * TWO_64 + r) % TWO_64 == r % TWO_64
  {}

  lemma BitsOfCount(msg: seq<octet>)
    ensures ((|msg| % TWO_64) * 8) % TWO_64 == BitLength(msg)
  {
    var q := |msg| / TWO_64;
    assert 8 * |msg| == (8 * q) * TWO_64 + 8 * (|msg| % TWO_64);
    ModMultiple64(8 * (|msg| % TWO_64), 8 * q);
  }

  /** One byte more: it is kept, or completes a block. */
  lemma OneMore(msg: seq<octet>, b: octet, state: Regs)
    requires state == Fold(CompressBlock, INITIAL, msg)
    ensures var kept := Rest(msg) + [b];
            if |kept| < BLOCK then Rest(msg + [b]) == kept && Fold(CompressBlock, INITIAL, msg + [b]) == state
            else Rest(msg + [b]) == [] && Fold(CompressBlock, INITIAL, msg + [b]) == CompressBlock(state, kept)
  {
    hide CompressBlock;
    FoldAppend(CompressBlock, INITIAL, msg, [b]);
    var kept := Rest(msg) + [b];
    if |kept| == BLOCK {
      assert kept[..BLOCK] == kept && kept[BLOCK..] == [];
    }
  }

  // ----- both, on any cutting of a message

  /** However the message is cut into updates, both contexts give the SHA-1 of the whole message. */
  method HashPieces(pieces: seq<seq<octet>>) returns (d: seq<octet>, m: seq<octet>)
    requires forall k :: 0 <= k < |pieces| ==> |pieces[k]| < TWO_31
    ensures d == m == Digest(Flatten(pieces))
  {
    hide Digest, Flatten;
    var a := new Context();
    var b := new MincryptContext();
    assert Flatten(pieces[..0]) == [] by { FlattenNothing(pieces); }
    for k := 0 to |pieces|
      invariant fresh(a) && fresh(b) && fresh(a.buffer) && fresh(b.buf) && a.buffer != b.buf
      invariant a.Holds(Flatten(pieces[..k])) && b.Holds(Flatten(pieces[..k]))
    {
      ghost var before := Flatten(pieces[..k]);
      assert pieces[..k + 1] == pieces[..k] + [pieces[k]];
      FlattenSnoc(pieces[..k], pieces[k]);
      a.Update(pieces[k], before);
      b.Update(pieces[k], before);
    }
    assert pieces[..|pieces|] == pieces;
    d := a.Final(Flatten(pieces));
    m := b.Final(Flatten(pieces));
  }
}
