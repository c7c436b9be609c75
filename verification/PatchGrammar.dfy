/**
 * Which patch files imgpatch accepts: a file is patched exactly when it is a sequence of well-formed
 * chunk records that can all be carried out, and it is refused where a record is cut off or unknown.
 */
module PatchGrammar {
  import opened Bytes
  import opened Codecs
  import opened PatchFile
  import opened ImgPatch

  /** A chunk record as it stands in a file; `offset` is where its bsdiff patch starts. */
  datatype Rec =
    | Copy(start: nat, len: nat, offset: nat)
    | Raw(data: seq<byte>)
    | Recompress(start: nat, len: nat, offset: nat, expanded: nat, expected: nat, params: DeflateParams)

  predicate InFields(r: Rec) {
    match r
    case Copy(start, len, offset) => start < TWO_64 && len < TWO_64 && offset < TWO_64
    case Raw(data) => |data| < TWO_31
    case Recompress(start, len, offset, expanded, expected, _) =>
      start < TWO_64 && len < TWO_64 && offset < TWO_64 && expanded < TWO_64 && expected < TWO_64
  }

  function RecBytes(r: Rec): (s: seq<byte>)
    requires InFields(r)
  {
    match r
    case Copy(start, len, offset) => Int32Bytes(0) + (SizeBytes(start) + SizeBytes(len) + SizeBytes(offset))
    case Raw(data) => Int32Bytes(3) + (Int32Bytes(|data|) + data)
    case Recompress(start, len, offset, expanded, expected, q) =>
      Int32Bytes(2) +
      (SizeBytes(start) + SizeBytes(len) + SizeBytes(offset) +
       (SizeBytes(expanded) + SizeBytes(expected)) +
       (Int32Bytes(q.level) + Int32Bytes(q.scheme) + Int32Bytes(q.windowBits) + Int32Bytes(q.memLevel) +
        Int32Bytes(q.strategy)))
  }

  /** The bsdiff patch at `offset` turns `src` into `out`. */
  ghost predicate Turns(lib: Library, src: seq<byte>, patch: seq<byte>, offset: nat, out: seq<byte>) {
    && offset <= |patch| && lib.bspatch(src, patch[offset..]).Some?
    && out == Flatten(lib.bspatch(src, patch[offset..]).value)
  }

  /** The record can be carried out and gives `out`. */
  ghost predicate Yields(lib: Library, old_: seq<byte>, patch: seq<byte>, bonus: seq<byte>, r: Rec, out: seq<byte>) {
    match r
    case Copy(start, len, offset) => start + len <= |old_| && Turns(lib, old_[start..start + len], patch, offset, out)
    case Raw(data) => out == data
    case Recompress(start, len, offset, expanded, expected, params) =>
      && start + len <= |old_| && expanded < TWO_63 && lib.starts(params)
      && var r := lib.inflate(old_[start..start + len]);
         var src := if expanded == 0 then [] else if r.Inflated? then r.data + bonus else [];
         && (expanded != 0 ==> r.Inflated? && |r.data| + |bonus| == expanded)
         && exists data: seq<byte> :: Turns(lib, src, patch, offset, data) && data != [] && |data| == expected &&
              out == lib.deflated(params, data)
  }

  // ----- fields and bytes

  lemma {:induction false} LittleEndianBack(s: seq<byte>)
    ensures LittleEndian(FromLittleEndian(s), |s|) == s
  {
    hide Span;
    if s != [] {
      LittleEndianBack(s[1..]);
      LowByte(s[0], FromLittleEndian(s[1..]));
      assert [s[0]] + s[1..] == s;
    }
  }

  lemma LowByte(b: byte, m: nat)
    ensures (b + 256 * m) % 256 == b && (b + 256 * m) / 256 == m
  {}

  lemma Int32Back(s: seq<byte>, at: nat)
    requires at + 4 <= |s|
    ensures Int32Bytes(ReadInt32(s, at)) == s[at..at + 4]
  {
    hide LittleEndian, FromLittleEndian;
    SpanOfFields();
    LittleEndianBack(s[at..at + 4]);
  }

  lemma SizeBack(s: seq<byte>, at: nat)
    requires at + 8 <= |s|
    ensures SizeBytes(ReadSize(s, at)) == s[at..at + 8]
  {
    hide LittleEndian, FromLittleEndian;
    SpanOfFields();
    LittleEndianBack(s[at..at + 8]);
  }

  lemma Joins(s: seq<byte>, a: nat, b: nat, c: nat)
    requires a <= b <= c <= |s|
    ensures s[a..b] + s[b..c] == s[a..c]
  {}

  lemma ThreeSizes(s: seq<byte>, at: nat)
    requires at + 24 <= |s|
    ensures s[at..at + 24] ==
            SizeBytes(ReadSize(s, at)) + SizeBytes(ReadSize(s, at + 8)) + SizeBytes(ReadSize(s, at + 16))
  {
    hide SizeBytes, ReadSize;
    SizeBack(s, at);
    SizeBack(s, at + 8);
    SizeBack(s, at + 16);
    Joins(s, at, at + 8, at + 16);
    Joins(s, at, at + 16, at + 24);
  }

  lemma TwoSizes(s: seq<byte>, at: nat)
    requires at + 16 <= |s|
    ensures s[at..at + 16] == SizeBytes(ReadSize(s, at)) + SizeBytes(ReadSize(s, at + 8))
  {
    hide SizeBytes, ReadSize;
    SizeBack(s, at);
    SizeBack(s, at + 8);
    Joins(s, at, at + 8, at + 16);
  }

  lemma FiveInts(s: seq<byte>, at: nat)
    requires at + 20 <= |s|
    ensures var q := ReadParams(s, at);
            s[at..at + 20] ==
            Int32Bytes(q.level) + Int32Bytes(q.scheme) + Int32Bytes(q.windowBits) + Int32Bytes(q.memLevel) +
            Int32Bytes(q.strategy)
  {
    hide Int32Bytes, ReadInt32;
    Int32Back(s, at);
    Int32Back(s, at + 4);
    Int32Back(s, at + 8);
    Int32Back(s, at + 12);
    Int32Back(s, at + 16);
    Joins(s, at, at + 4, at + 8);
    Joins(s, at, at + 8, at + 12);
    Joins(s, at, at + 12, at + 16);
    Joins(s, at, at + 16, at + 20);
  }

  // ----- one record

  /** The record that starts at `pos`, if there is room for one. */
  function Found(patch: seq<byte>, pos: nat): (r: Option<Rec>)
    ensures r.Some? ==> InFields(r.value)
  {
    if pos + 4 > |patch| then None
    else
      var kind := ReadInt32(patch, pos);
      if kind == 0 && pos + 28 <= |patch| then
        Some(Copy(ReadSize(patch, pos + 4), ReadSize(patch, pos + 12), ReadSize(patch, pos + 20)))
      else if kind == 3 && pos + 8 <= |patch| && 0 <= ReadInt32(patch, pos + 4) <= |patch| - pos - 8 then
        Some(Raw(patch[pos + 8..pos + 8 + ReadInt32(patch, pos + 4)]))
      else if kind == 2 && pos + 64 <= |patch| then
        Some(Recompress(ReadSize(patch, pos + 4), ReadSize(patch, pos + 12), ReadSize(patch, pos + 20),
                        ReadSize(patch, pos + 28), ReadSize(patch, pos + 36), ReadParams(patch, pos + 44)))
      else None
  }

  /** The bytes at `pos` are those of the record. */
  ghost predicate StandsAt(patch: seq<byte>, pos: nat, r: Rec) {
    InFields(r) && pos + |RecBytes(r)| <= |patch| && patch[pos..pos + |RecBytes(r)|] == RecBytes(r)
  }

  lemma FoundStands(patch: seq<byte>, pos: nat)
    requires Found(patch, pos).Some?
    ensures StandsAt(patch, pos, Found(patch, pos).value)
  {
    hide Int32Bytes, SizeBytes, ReadInt32, ReadSize, ReadParams, RecBytes;
    match Found(patch, pos).value
    case Copy(_, _, _) => CopyStands(patch, pos);
    case Raw(_) => RawStands(patch, pos);
    case Recompress(_, _, _, _, _, _) => RecompressIsThere(patch, pos);
  }

  lemma CopyStands(patch: seq<byte>, pos: nat)
    requires pos + 28 <= |patch| && ReadInt32(patch, pos) == 0
    ensures StandsAt(patch, pos, Copy(ReadSize(patch, pos + 4), ReadSize(patch, pos + 12), ReadSize(patch, pos + 20)))
  {
    hide Int32Bytes, SizeBytes, ReadInt32, ReadSize;
    Int32Back(patch, pos);
    ThreeSizes(patch, pos + 4);
    Joins(patch, pos, pos + 4, pos + 28);
  }

  lemma RawStands(patch: seq<byte>, pos: nat)
    requires pos + 8 <= |patch| && ReadInt32(patch, pos) == 3 && 0 <= ReadInt32(patch, pos + 4) <= |patch| - pos - 8
    ensures StandsAt(patch, pos, Raw(patch[pos + 8..pos + 8 + ReadInt32(patch, pos + 4)]))
  {
    hide Int32Bytes, ReadInt32;
    var n := ReadInt32(patch, pos + 4);
    Int32Back(patch, pos);
    Int32Back(patch, pos + 4);
    Joins(patch, pos + 4, pos + 8, pos + 8 + n);
    Joins(patch, pos, pos + 4, pos + 8 + n);
  }

  lemma RecompressIsThere(patch: seq<byte>, pos: nat)
    requires pos + 64 <= |patch| && ReadInt32(patch, pos) == 2
    ensures StandsAt(patch, pos,
                     Recompress(ReadSize(patch, pos + 4), ReadSize(patch, pos + 12), ReadSize(patch, pos + 20),
                                ReadSize(patch, pos + 28), ReadSize(patch, pos + 36), ReadParams(patch, pos + 44)))
  {
    hide Int32Bytes, SizeBytes, ReadInt32, ReadSize, ReadParams;
    Int32Back(patch, pos);
    RecompressBytes(patch, pos);
    Joins(patch, pos, pos + 4, pos + 64);
  }

  lemma RecompressBytes(patch: seq<byte>, pos: nat)
    requires pos + 64 <= |patch|
    ensures patch[pos + 4..pos + 64] ==
            SizeBytes(ReadSize(patch, pos + 4)) + SizeBytes(ReadSize(patch, pos + 12)) +
            SizeBytes(ReadSize(patch, pos + 20)) +
            (SizeBytes(ReadSize(patch, pos + 28)) + SizeBytes(ReadSize(patch, pos + 36))) +
            EncoderFields(ReadParams(patch, pos + 44))
  {
    hide Int32Bytes, SizeBytes, ReadInt32, ReadSize, ReadParams;
    ThreeSizes(patch, pos + 4);
    TwoSizes(patch, pos + 28);
    FiveInts(patch, pos + 44);
    Joins(patch, pos + 4, pos + 28, pos + 44);
    Joins(patch, pos + 4, pos + 44, pos + 64);
  }

  lemma SizesStand(patch: seq<byte>, at: nat, a: nat, b: nat, c: nat)
    requires a < TWO_64 && b < TWO_64 && c < TWO_64 && at + 24 <= |patch|
    requires patch[at..at + 24] == SizeBytes(a) + SizeBytes(b) + SizeBytes(c)
    ensures ReadSize(patch, at) == a && ReadSize(patch, at + 8) == b && ReadSize(patch, at + 16) == c
  {
    hide SizeBytes, ReadSize;
    var w := SizeBytes(a) + SizeBytes(b) + SizeBytes(c);
    assert w[0..8] == SizeBytes(a) && w[8..16] == SizeBytes(b) && w[16..24] == SizeBytes(c);
    SubWindow(patch, at, w, 0, 8);
    SubWindow(patch, at, w, 8, 16);
    SubWindow(patch, at, w, 16, 24);
    ReadSizeBack(a, patch, at);
    ReadSizeBack(b, patch, at + 8);
    ReadSizeBack(c, patch, at + 16);
  }

  lemma LengthsStand(patch: seq<byte>, at: nat, a: nat, b: nat)
    requires a < TWO_64 && b < TWO_64 && at + 16 <= |patch|
    requires patch[at..at + 16] == SizeBytes(a) + SizeBytes(b)
    ensures ReadSize(patch, at) == a && ReadSize(patch, at + 8) == b
  {
    hide SizeBytes, ReadSize;
    var w := SizeBytes(a) + SizeBytes(b);
    assert w[0..8] == SizeBytes(a) && w[8..16] == SizeBytes(b);
    SubWindow(patch, at, w, 0, 8);
    SubWindow(patch, at, w, 8, 16);
    ReadSizeBack(a, patch, at);
    ReadSizeBack(b, patch, at + 8);
  }

  /** A record that stands in the file is the one that is found. */
  lemma StandingIsFound(patch: seq<byte>, pos: nat, r: Rec)
    requires StandsAt(patch, pos, r)
    ensures Found(patch, pos) == Some(r)
  {
    hide Int32Bytes, SizeBytes, ReadInt32, ReadSize, ReadParams;
    var w := RecBytes(r);
    var code: int32 := match r case Copy(_, _, _) => 0 case Raw(_) => 3 case Recompress(_, _, _, _, _, _) => 2;
    assert w[0..4] == Int32Bytes(code);
    SubWindow(patch, pos, w, 0, 4);
    ReadInt32Back(code, patch, pos);
    match r
    case Copy(a, b, c) =>
      assert w[4..28] == SizeBytes(a) + SizeBytes(b) + SizeBytes(c);
      SubWindow(patch, pos, w, 4, 28);
      SizesStand(patch, pos + 4, a, b, c);
    case Raw(data) =>
      assert w[4..8] == Int32Bytes(|data|) && w[8..8 + |data|] == data;
      SubWindow(patch, pos, w, 4, 8);
      SubWindow(patch, pos, w, 8, 8 + |data|);
      ReadInt32Back(|data|, patch, pos + 4);
    case Recompress(a, b, c, x, y, q) =>
      RecompressStands(patch, pos, a, b, c, x, y, q);
  }

  lemma RecompressStands(patch: seq<byte>, pos: nat, a: nat, b: nat, c: nat, x: nat, y: nat, q: DeflateParams)
    requires StandsAt(patch, pos, Recompress(a, b, c, x, y, q))
    ensures pos + 64 <= |patch|
    ensures ReadSize(patch, pos + 4) == a && ReadSize(patch, pos + 12) == b && ReadSize(patch, pos + 20) == c
    ensures ReadSize(patch, pos + 28) == x && ReadSize(patch, pos + 36) == y && ReadParams(patch, pos + 44) == q
  {
    hide Int32Bytes, SizeBytes, ReadSize, ReadParams;
    var w := RecBytes(Recompress(a, b, c, x, y, q));
    assert |w| == 64;
    assert w[4..28] == SizeBytes(a) + SizeBytes(b) + SizeBytes(c);
    assert w[28..44] == SizeBytes(x) + SizeBytes(y);
    assert w[44..64] == EncoderFields(q);
    SubWindow(patch, pos, w, 4, 28);
    SubWindow(patch, pos, w, 28, 44);
    SubWindow(patch, pos, w, 44, 64);
    SizesStand(patch, pos + 4, a, b, c);
    LengthsStand(patch, pos + 28, x, y);
    ReadEncoderFields(patch, pos + 44, q);
  }

  lemma SumIsNoLarger(a: nat, b: nat)
    ensures AddSize(a, b) <= a + b
  {}

  /** A record is carried out exactly when it yields something; nothing else gives output. */
  lemma ChunkIff(lib: Library, old_: seq<byte>, patch: seq<byte>, bonus: seq<byte>, pos: nat, out: seq<byte>, next: nat)
    requires |patch| < TWO_63
    ensures Chunk(lib, old_, patch, bonus, pos) == Emits(out, next) <==>
            exists r :: StandsAt(patch, pos, r) && Yields(lib, old_, patch, bonus, r, out) &&
              next == pos + |RecBytes(r)|
  {
    hide RecBytes, Found, Chunk, Yields;
    if r :| StandsAt(patch, pos, r) && Yields(lib, old_, patch, bonus, r, out) && next == pos + |RecBytes(r)| {
      StandingIsFound(patch, pos, r);
      FoundIsCarriedOut(lib, old_, patch, bonus, pos, r, out);
    }
    if Chunk(lib, old_, patch, bonus, pos) == Emits(out, next) {
      EmittedIsFound(lib, old_, patch, bonus, pos);
      var r := Found(patch, pos).value;
      FoundStands(patch, pos);
      FoundIsCarriedOut(lib, old_, patch, bonus, pos, r, out);
    }
  }

  lemma EmittedIsFound(lib: Library, old_: seq<byte>, patch: seq<byte>, bonus: seq<byte>, pos: nat)
    requires |patch| < TWO_63 && Chunk(lib, old_, patch, bonus, pos).Emits?
    ensures Found(patch, pos).Some?
  {
    hide ReadInt32, ReadSize, ReadParams, BsdiffAt, StreamedAt, Expanded;
  }

  lemma FoundIsCarriedOut(lib: Library, old_: seq<byte>, patch: seq<byte>, bonus: seq<byte>, pos: nat, r: Rec,
                          out: seq<byte>)
    requires |patch| < TWO_63 && Found(patch, pos) == Some(r)
    ensures InFields(r)
    ensures Yields(lib, old_, patch, bonus, r, out) <==>
            Chunk(lib, old_, patch, bonus, pos) == Emits(out, pos + |RecBytes(r)|)
    ensures Chunk(lib, old_, patch, bonus, pos).Emits? ==>
              Chunk(lib, old_, patch, bonus, pos).next == pos + |RecBytes(r)|
  {
    hide ReadInt32, ReadSize, ReadParams, Int32Bytes, SizeBytes;
    match r
    case Copy(a, b, _) => SumIsNoLarger(a, b);
    case Raw(data) => SumIsNoLarger(pos + 8, |data|);
    case Recompress(a, b, c, x, y, q) =>
      SumIsNoLarger(a, b);
      RecompressedIs(lib, old_, patch, bonus, pos, a, b, c, x, y, q, out);
  }

  lemma RecompressedIs(lib: Library, old_: seq<byte>, patch: seq<byte>, bonus: seq<byte>, pos: nat,
                       a: nat, b: nat, c: nat, x: nat, y: nat, q: DeflateParams, out: seq<byte>)
    requires Found(patch, pos) == Some(Recompress(a, b, c, x, y, q))
    ensures Yields(lib, old_, patch, bonus, Recompress(a, b, c, x, y, q), out) <==>
            DeflateChunk(lib, old_, patch, bonus, pos + 4) == Emits(out, pos + 64)
  {
    hide ReadInt32, ReadSize, ReadParams;
    SumIsNoLarger(a, b);
    if a + b <= |old_| && x < TWO_63 {
      var r := lib.inflate(old_[a..a + b]);
      var src := if x == 0 then [] else if r.Inflated? then r.data + bonus else [];
      assert Turns(lib, src, patch, c, if c <= |patch| && lib.bspatch(src, patch[c..]).Some?
                                       then Flatten(lib.bspatch(src, patch[c..]).value) else []) ||
             c > |patch| || lib.bspatch(src, patch[c..]).None?;
    }
  }

  // ----- whole files

  /** The records stand one after another from `pos` on; record k gives outs[k]. */
  ghost predicate AllYield(lib: Library, old_: seq<byte>, patch: seq<byte>, bonus: Option<seq<byte>>,
                           i: nat, pos: nat, rs: seq<Rec>, outs: seq<seq<byte>>)
    decreases |rs|
  {
    |rs| == |outs| &&
    (rs != [] ==>
      && StandsAt(patch, pos, rs[0])
      && Yields(lib, old_, patch, if i == 1 && bonus.Some? then bonus.value else [], rs[0], outs[0])
      && AllYield(lib, old_, patch, bonus, i + 1, pos + |RecBytes(rs[0])|, rs[1..], outs[1..]))
  }

  function EndOf(pos: nat, rs: seq<Rec>): (n: nat)
    requires forall k :: 0 <= k < |rs| ==> InFields(rs[k])
    decreases |rs|
  {
    if rs == [] then pos else EndOf(pos + |RecBytes(rs[0])|, rs[1..])
  }

  lemma {:induction false} ChunksAre(lib: Library, old_: seq<byte>, patch: seq<byte>, bonus: Option<seq<byte>>,
                                     i: nat, n: int, pos: nat, rs: seq<Rec>, outs: seq<seq<byte>>)
    requires |patch| < TWO_63 && AllYield(lib, old_, patch, bonus, i, pos, rs, outs) && i + |rs| <= n
    ensures forall k :: 0 <= k < |rs| ==> InFields(rs[k])
    ensures Chunks(lib, old_, patch, bonus, i, n, pos) ==
            match Chunks(lib, old_, patch, bonus, i + |rs|, n, EndOf(pos, rs))
            case Patched(rest) => Patched(Flatten(outs) + rest)
            case other => other
    decreases |rs|
  {
    hide Chunk, Yields, RecBytes;
    if rs != [] {
      var next := pos + |RecBytes(rs[0])|;
      ChunkIff(lib, old_, patch, BonusFor(bonus, i), pos, outs[0], next);
      ChunksAre(lib, old_, patch, bonus, i + 1, n, next, rs[1..], outs[1..]);
      var last := Chunks(lib, old_, patch, bonus, i + |rs|, n, EndOf(pos, rs));
      if last.Patched? { ConcatAssoc(outs[0], Flatten(outs[1..]), last.output); }
      forall k | 0 <= k < |rs| ensures InFields(rs[k]) { if k > 0 { assert rs[k] == rs[1..][k - 1]; } }
    } else {
      var last := Chunks(lib, old_, patch, bonus, i, n, pos);
      if last.Patched? { assert [] + last.output == last.output; }
    }
  }

  lemma {:induction false} PatchedChunks(lib: Library, old_: seq<byte>, patch: seq<byte>, bonus: Option<seq<byte>>,
                                         i: nat, n: int, pos: nat) returns (rs: seq<Rec>, outs: seq<seq<byte>>)
    requires |patch| < TWO_63 && Chunks(lib, old_, patch, bonus, i, n, pos).Patched?
    ensures AllYield(lib, old_, patch, bonus, i, pos, rs, outs) && |rs| == if i < n then n - i else 0
    ensures Chunks(lib, old_, patch, bonus, i, n, pos) == Patched(Flatten(outs))
    decreases n - i
  {
    hide Chunk, Yields, RecBytes, StandsAt;
    if i >= n {
      rs, outs := [], [];
    } else {
      var Emits(out, next) := Chunk(lib, old_, patch, BonusFor(bonus, i), pos);
      var r := OneRecordOf(lib, old_, patch, BonusFor(bonus, i), pos, out, next);
      var rs', outs' := PatchedChunks(lib, old_, patch, bonus, i + 1, n, next);
      rs, outs := [r] + rs', [out] + outs';
      assert rs[1..] == rs' && outs[1..] == outs';
    }
  }

  lemma OneRecordOf(lib: Library, old_: seq<byte>, patch: seq<byte>, bonus: seq<byte>, pos: nat,
                    out: seq<byte>, next: nat) returns (r: Rec)
    requires |patch| < TWO_63 && Chunk(lib, old_, patch, bonus, pos) == Emits(out, next)
    ensures StandsAt(patch, pos, r) && InFields(r) && Yields(lib, old_, patch, bonus, r, out)
    ensures next == pos + |RecBytes(r)|
  {
    hide Chunk, Yields, RecBytes;
    ChunkIff(lib, old_, patch, bonus, pos, out, next);
    r :| StandsAt(patch, pos, r) && Yields(lib, old_, patch, bonus, r, out) && next == pos + |RecBytes(r)|;
  }

  /** "IMGDIFF2" and the number of records. */
  ghost predicate Headed(patch: seq<byte>, n: int32) {
    |patch| >= 12 && patch[..8] == [0x49, 0x4D, 0x47, 0x44, 0x49, 0x46, 0x46, 0x32] && patch[8..12] == Int32Bytes(n)
  }

  /**
   * A file is patched if and only if it starts with the magic and a count, that many records follow
   * one another, and every one of them can be carried out; the output is what they give, in order.
   */
  lemma PatchedIff(lib: Library, old_: seq<byte>, patch: seq<byte>, bonus: Option<seq<byte>>, out: seq<byte>)
    requires |patch| < TWO_63
    ensures Meaning(lib, old_, patch, bonus) == Patched(out) <==>
            exists n: int32, rs: seq<Rec>, outs: seq<seq<byte>> ::
              && Headed(patch, n) && |rs| == (if n < 0 then 0 else n)
              && AllYield(lib, old_, patch, bonus, 0, 12, rs, outs) && out == Flatten(outs)
  {
    hide Chunks, AllYield, Int32Bytes, ReadInt32;
    if exists n: int32, rs: seq<Rec>, outs: seq<seq<byte>> ::
         (Headed(patch, n) && |rs| == (if n < 0 then 0 else n) &&
          AllYield(lib, old_, patch, bonus, 0, 12, rs, outs) && out == Flatten(outs)) {
      var n: int32, rs: seq<Rec>, outs: seq<seq<byte>> :|
        Headed(patch, n) && |rs| == (if n < 0 then 0 else n) &&
        AllYield(lib, old_, patch, bonus, 0, 12, rs, outs) && out == Flatten(outs);
      ReadInt32Back(n, patch, 8);
      RecordsMean(lib, old_, patch, bonus, n, rs, outs);
    }
    if Meaning(lib, old_, patch, bonus) == Patched(out) {
      var n := ReadInt32(patch, 8);
      Int32Back(patch, 8);
      var rs, outs := PatchedChunks(lib, old_, patch, bonus, 0, n, 12);
      assert Headed(patch, n) && AllYield(lib, old_, patch, bonus, 0, 12, rs, outs);
    }
  }

  lemma RecordsMean(lib: Library, old_: seq<byte>, patch: seq<byte>, bonus: Option<seq<byte>>, n: int32,
                    rs: seq<Rec>, outs: seq<seq<byte>>)
    requires |patch| < TWO_63 && AllYield(lib, old_, patch, bonus, 0, 12, rs, outs)
    requires |rs| == if n < 0 then 0 else n
    ensures Chunks(lib, old_, patch, bonus, 0, n, 12) == Patched(Flatten(outs))
  {
    hide AllYield;
    if n >= 0 {
      ChunksAre(lib, old_, patch, bonus, 0, n, 12, rs, outs);
      assert Flatten(outs) + [] == Flatten(outs);
    } else {
      assert outs == [] by { NoRecords(lib, old_, patch, bonus, rs, outs); }
    }
  }

  lemma NoRecords(lib: Library, old_: seq<byte>, patch: seq<byte>, bonus: Option<seq<byte>>,
                  rs: seq<Rec>, outs: seq<seq<byte>>)
    requires AllYield(lib, old_, patch, bonus, 0, 12, rs, outs) && rs == []
    ensures outs == []
  {}

  /** At `pos` there is no whole record: no type, an unknown one, or fewer bytes than its record has. */
  ghost predicate CutOff(patch: seq<byte>, pos: nat) {
    || |patch| < pos + 4
    || (forall code: int32 :: code in {0, 2, 3} ==> patch[pos..pos + 4] != Int32Bytes(code))
    || (patch[pos..pos + 4] == Int32Bytes(0) && |patch| < pos + 28)
    || (patch[pos..pos + 4] == Int32Bytes(2) && |patch| < pos + 64)
    || (patch[pos..pos + 4] == Int32Bytes(3) && |patch| < pos + 8)
    || (exists n: int32 :: n >= 0 && patch[pos..pos + 4] == Int32Bytes(3) && |patch| < pos + 8 + n &&
          |patch| >= pos + 8 && patch[pos + 4..pos + 8] == Int32Bytes(n))
  }

  lemma CutOffIsRejected(lib: Library, old_: seq<byte>, patch: seq<byte>, bonus: seq<byte>, pos: nat)
    requires |patch| < TWO_63 && CutOff(patch, pos)
    ensures Chunk(lib, old_, patch, bonus, pos) == Rejects
  {
    hide Int32Bytes, ReadInt32, ReadSize, ReadParams;
    if pos + 4 <= |patch| {
      Int32Back(patch, pos);
      forall code: int32 | patch[pos..pos + 4] == Int32Bytes(code) ensures ReadInt32(patch, pos) == code {
        ReadInt32Back(code, patch, pos);
      }
      if pos + 8 <= |patch| {
        forall n: int32 | patch[pos + 4..pos + 8] == Int32Bytes(n) ensures ReadInt32(patch, pos + 4) == n {
          ReadInt32Back(n, patch, pos + 4);
        }
      }
    }
  }

  /**
   * A file without the magic or with less than a header is rejected; so is one that is cut off, or goes
   * on with something that is no record, after any number of records that could be carried out.
   */
  lemma MalformedIsRejected(lib: Library, old_: seq<byte>, patch: seq<byte>, bonus: Option<seq<byte>>,
                            n: int32, rs: seq<Rec>, outs: seq<seq<byte>>)
    requires |patch| < TWO_63
    ensures |patch| < 12 || patch[..8] != [0x49, 0x4D, 0x47, 0x44, 0x49, 0x46, 0x46, 0x32] ==>
              Meaning(lib, old_, patch, bonus) == Rejected
    ensures Headed(patch, n) && |rs| < n && AllYield(lib, old_, patch, bonus, 0, 12, rs, outs) ==>
              && (forall k :: 0 <= k < |rs| ==> InFields(rs[k]))
              && (CutOff(patch, EndOf(12, rs)) ==> Meaning(lib, old_, patch, bonus) == Rejected)
  {
    hide Int32Bytes, ReadInt32, AllYield, CutOff, Chunk;
    if Headed(patch, n) && |rs| < n && AllYield(lib, old_, patch, bonus, 0, 12, rs, outs) {
      ReadInt32Back(n, patch, 8);
      ChunksAre(lib, old_, patch, bonus, 0, n, 12, rs, outs);
      if CutOff(patch, EndOf(12, rs)) {
        CutOffIsRejected(lib, old_, patch, BonusFor(bonus, |rs|), EndOf(12, rs));
      }
    }
  }
}
