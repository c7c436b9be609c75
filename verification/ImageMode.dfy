/** Image mode: finding the gzip members of an image, pairing the chunks of two images, patching. */
module ImageMode {
  import opened Bytes
  import opened Codecs
  import opened PatchFile
  import opened ImageChunks
  import opened PatchMaking
  import opened ImgPatch

  const GZIP_HEADER_LEN: nat := 10
  const GZIP_FOOTER_LEN: nat := 8
  const GZIP_MAGIC: seq<byte> := [0x1f, 0x8b, 0x08, 0x00]

  type uint32 = x: int | 0 <= x < 0x1_0000_0000

  predicate GzipAt(content: seq<byte>, pos: nat) {
    pos + 4 <= |content| && content[pos..pos + 4] == GZIP_MAGIC
  }

  /** The first gzip header at or after `pos`, or the end of the file. */
  function NextGzip(content: seq<byte>, pos: nat): (q: nat)
    requires pos <= |content|
    ensures pos <= q <= |content|
    ensures q == |content| || GzipAt(content, q)
    ensures forall k :: pos <= k < q ==> !GzipAt(content, k)
    decreases |content| - pos
  {
    if pos == |content| || GzipAt(content, pos) then pos else NextGzip(content, pos + 1)
  }

  /**
   * The 32-bit word read at offset `at`. The check before the read subtracts unsigned sizes, so a
   * footer beyond the end of the file is not noticed: `beyond` is what memory happens to hold there.
   */
  function FooterWord(content: seq<byte>, at: nat, beyond: nat -> uint32): (w: nat) {
    if at + 4 <= |content| then FromLittleEndian(content[at..at + 4]) else beyond(at)
  }

  /** The footer check of a member whose body ends at `end` and inflates to `size` bytes. */
  predicate FooterAccepted(content: seq<byte>, end: nat, size: nat, beyond: nat -> uint32) {
    var at := end + GZIP_FOOTER_LEN - 4;
    && !(at <= |content| < at + 4)
    && FooterWord(content, at, beyond) == size
  }

  function Body(lib: Library, content: seq<byte>, pos: nat): (r: Inflated)
    requires pos + GZIP_HEADER_LEN <= |content|
  {
    lib.inflate(content[pos + GZIP_HEADER_LEN..])
  }

  predicate MemberAccepted(lib: Library, content: seq<byte>, pos: nat, beyond: nat -> uint32)
    requires pos + GZIP_HEADER_LEN <= |content|
  {
    var r := Body(lib, content, pos);
    r.Inflated? && FooterAccepted(content, pos + GZIP_HEADER_LEN + r.consumed, |r.data|, beyond)
  }

  /** The three chunks of a gzip member: header, deflate body, footer. */
  function Member(lib: Library, content: seq<byte>, pos: nat): (cs: seq<ImageChunk>)
    requires pos + GZIP_HEADER_LEN <= |content| && Body(lib, content, pos).Inflated?
  {
    var r := Body(lib, content, pos);
    var body := pos + GZIP_HEADER_LEN;
    [NormalPart(pos, GZIP_HEADER_LEN, ""),
     ImageChunk(Deflate, body, r.consumed, 6, r.data, ""),
     NormalPart(body + r.consumed, GZIP_FOOTER_LEN, "")]
  }

  /** One round of the scan: the chunks it appends and the next position. */
  function ScanStep(lib: Library, content: seq<byte>, pos: nat, beyond: nat -> uint32)
    : (r: (seq<ImageChunk>, nat))
    requires pos < |content|
    ensures r.1 > pos
  {
    if !GzipAt(content, pos) then
      var q := NextGzip(content, pos + 1);
      ([NormalPart(pos, q - pos, "")], q)
    else if |content| - pos < GZIP_HEADER_LEN + GZIP_FOOTER_LEN then
      ([NormalPart(pos, |content| - pos, "")], |content|)
    else if MemberAccepted(lib, content, pos, beyond) then
      (Member(lib, content, pos),
       pos + GZIP_HEADER_LEN + Body(lib, content, pos).consumed + GZIP_FOOTER_LEN)
    else ([NormalPart(pos, GZIP_HEADER_LEN, "")], pos + GZIP_HEADER_LEN)
  }

  function Scan(lib: Library, content: seq<byte>, pos: nat, beyond: nat -> uint32): (cs: seq<ImageChunk>)
    decreases |content| - pos
  {
    if pos >= |content| then []
    else
      var (cs, next) := ScanStep(lib, content, pos, beyond);
      cs + Scan(lib, content, next, beyond)
  }

  /** The search for the next gzip header. */
  method FindGzip(content: seq<byte>, pos: nat) returns (dataLen: nat)
    requires pos < |content| && !GzipAt(content, pos)
    ensures pos + dataLen == NextGzip(content, pos + 1)
  {
    dataLen := 0;
    while pos + dataLen < |content|
      invariant pos + dataLen <= |content|
      invariant dataLen > 0 ==> NextGzip(content, pos + 1) == NextGzip(content, pos + dataLen)
    {
      if pos + dataLen + 4 <= |content| && content[pos + dataLen..pos + dataLen + 4] == GZIP_MAGIC {
        break;
      }
      dataLen := dataLen + 1;
    }
  }

  /** One round of the scan. */
  method ScanOnce(lib: Library, content: seq<byte>, start: nat, beyond: nat -> uint32)
    returns (chunks: seq<ImageChunk>, pos: nat)
    requires start < |content|
    ensures (chunks, pos) == ScanStep(lib, content, start, beyond)
  {
    hide FooterWord;
    var sz := |content|;
    pos := start;
    if sz - pos >= 4 && content[pos..pos + 4] == GZIP_MAGIC {
      // The remaining data is too small to be a gzip member.
      if sz - pos < GZIP_HEADER_LEN + GZIP_FOOTER_LEN {
        return [NormalPart(pos, sz - pos, "")], sz;
      }
      chunks := [NormalPart(pos, GZIP_HEADER_LEN, "")];
      pos := pos + GZIP_HEADER_LEN;
      var r := lib.inflate(content[pos..]);
      if r.NotDeflate? { return; }
      var footerIndex := pos + r.consumed + GZIP_FOOTER_LEN - 4;
      if footerIndex <= sz < footerIndex + 4 { return; }
      if FooterWord(content, footerIndex, beyond) != |r.data| { return; }
      chunks := chunks + [ImageChunk(Deflate, pos, r.consumed, 6, r.data, "")];
      pos := pos + r.consumed;
      chunks := chunks + [NormalPart(pos, GZIP_FOOTER_LEN, "")];
      pos := pos + GZIP_FOOTER_LEN;
      assert MemberAccepted(lib, content, start, beyond);
      assert chunks == Member(lib, content, start);
    } else {
      var dataLen := FindGzip(content, pos);
      chunks := [NormalPart(pos, dataLen, "")];
      pos := pos + dataLen;
    }
  }

  /** Initialize: cut the file into normal chunks and the bodies of its gzip members. */
  method Initialize(lib: Library, content: seq<byte>, beyond: nat -> uint32) returns (image: Image)
    ensures fresh(image) && image.content == content
    ensures image.chunks == Scan(lib, content, 0, beyond)
  {
    hide ScanStep;
    var chunks: seq<ImageChunk> := [];
    var pos: nat := 0;
    while pos < |content|
      invariant chunks + Scan(lib, content, pos, beyond) == Scan(lib, content, 0, beyond)
      decreases |content| - pos
    {
      var cs, next := ScanOnce(lib, content, pos, beyond);
      ConcatAssoc(chunks, cs, Scan(lib, content, next, beyond));
      chunks, pos := chunks + cs, next;
    }
    image := new Image(content, chunks);
  }

  // ----- tiling

  /** The member at `pos` inflates, but its footer word is not in the file. */
  predicate FooterMissing(lib: Library, content: seq<byte>, pos: nat) {
    && pos + GZIP_HEADER_LEN + GZIP_FOOTER_LEN <= |content| && GzipAt(content, pos)
    && var r := Body(lib, content, pos);
       && r.Inflated? && |r.data| < TWO_32
       && pos + GZIP_HEADER_LEN + r.consumed + GZIP_FOOTER_LEN - 4 > |content|
  }

  /** No member met by the scan has its footer word outside the file. */
  predicate FootersInside(lib: Library, content: seq<byte>, pos: nat)
    decreases |content| - pos
  {
    pos >= |content| ||
    (!FooterMissing(lib, content, pos) &&
     FootersInside(lib, content, ScanStep(lib, content, pos, x => 0).1))
  }

  lemma MemberTiles(lib: Library, content: seq<byte>, pos: nat)
    requires pos + GZIP_HEADER_LEN <= |content| && Body(lib, content, pos).Inflated?
    ensures Tiles(Member(lib, content, pos), pos,
                  pos + GZIP_HEADER_LEN + Body(lib, content, pos).consumed + GZIP_FOOTER_LEN)
  {
    var cs := Member(lib, content, pos);
    TilesSnoc([], cs[0], pos);
    TilesSnoc([cs[0]], cs[1], pos);
    TilesSnoc([cs[0], cs[1]], cs[2], pos);
    assert [] + [cs[0]] == [cs[0]] && [cs[0]] + [cs[1]] == [cs[0], cs[1]];
    assert [cs[0], cs[1]] + [cs[2]] == cs;
  }

  /** Without a missing footer the acceptance of a member is decided by the file alone. */
  lemma MemberDecidedInside(lib: Library, content: seq<byte>, pos: nat, beyond: nat -> uint32)
    requires InflateLaw(lib)
    requires pos + GZIP_HEADER_LEN + GZIP_FOOTER_LEN <= |content| && GzipAt(content, pos)
    requires !FooterMissing(lib, content, pos)
    ensures MemberAccepted(lib, content, pos, beyond) == MemberAccepted(lib, content, pos, x => 0)
    ensures MemberAccepted(lib, content, pos, beyond) ==>
              pos + GZIP_HEADER_LEN + Body(lib, content, pos).consumed + GZIP_FOOTER_LEN <= |content|
  {
    hide FromLittleEndian;
    var r := Body(lib, content, pos);
    if r.Inflated? {
      var at := pos + GZIP_HEADER_LEN + r.consumed + GZIP_FOOTER_LEN - 4;
      if at > |content| {
        assert |r.data| >= TWO_32;
      }
    }
  }

  /** Without a missing footer the step does not depend on foreign memory, and it tiles. */
  lemma ScanStepTiles(lib: Library, content: seq<byte>, pos: nat, beyond: nat -> uint32)
    requires InflateLaw(lib) && pos < |content|
    requires !FooterMissing(lib, content, pos)
    ensures var (cs, next) := ScanStep(lib, content, pos, beyond);
            Tiles(cs, pos, next) && next <= |content| &&
            (cs, next) == ScanStep(lib, content, pos, x => 0)
  {
    hide MemberAccepted, Member, Tiles, Body, FooterMissing;
    var (cs, next) := ScanStep(lib, content, pos, beyond);
    if GzipAt(content, pos) && |content| - pos >= GZIP_HEADER_LEN + GZIP_FOOTER_LEN {
      MemberDecidedInside(lib, content, pos, beyond);
      if MemberAccepted(lib, content, pos, beyond) {
        assert Body(lib, content, pos).Inflated? by { AcceptedInflates(lib, content, pos, beyond); }
        MemberTiles(lib, content, pos);
      } else {
        OneChunkTiles(cs[0]);
      }
    } else {
      OneChunkTiles(cs[0]);
    }
  }

  lemma AcceptedInflates(lib: Library, content: seq<byte>, pos: nat, beyond: nat -> uint32)
    requires pos + GZIP_HEADER_LEN <= |content| && MemberAccepted(lib, content, pos, beyond)
    ensures Body(lib, content, pos).Inflated?
  {}

  lemma {:induction false} ScanTiles(lib: Library, content: seq<byte>, pos: nat, beyond: nat -> uint32)
    requires InflateLaw(lib) && pos <= |content| && FootersInside(lib, content, pos)
    ensures Tiles(Scan(lib, content, pos, beyond), pos, |content|)
    decreases |content| - pos
  {
    hide ScanStep;
    if pos < |content| {
      var (cs, next) := ScanStep(lib, content, pos, beyond);
      ScanStepTiles(lib, content, pos, beyond);
      ScanTiles(lib, content, next, beyond);
      TilesAppend(cs, Scan(lib, content, next, beyond), pos, next, |content|);
    }
  }

  /** With a missing footer, some contents of foreign memory lead the chunks past the end. */
  lemma {:induction false} ScanOverruns(lib: Library, content: seq<byte>, pos: nat) returns (beyond: nat -> uint32)
    requires InflateLaw(lib) && pos <= |content| && !FootersInside(lib, content, pos)
    ensures !Tiles(Scan(lib, content, pos, beyond), pos, |content|)
    decreases |content| - pos
  {
    hide ScanStep, FooterMissing, Tiles;
    if FooterMissing(lib, content, pos) {
      beyond := MemberOverruns(lib, content, pos);
    } else {
      var next := ScanStep(lib, content, pos, x => 0).1;
      ScanStepTiles(lib, content, pos, x => 0);
      beyond := ScanOverruns(lib, content, next);
      ScanStepTiles(lib, content, pos, beyond);
      var cs := ScanStep(lib, content, pos, beyond).0;
      if Tiles(Scan(lib, content, pos, beyond), pos, |content|) {
        TilesTail(cs, Scan(lib, content, next, beyond), pos, next, |content|);
      }
    }
  }

  lemma MemberOverruns(lib: Library, content: seq<byte>, pos: nat) returns (beyond: nat -> uint32)
    requires FooterMissing(lib, content, pos)
    ensures !Tiles(Scan(lib, content, pos, beyond), pos, |content|)
  {
    var r := Body(lib, content, pos);
    var word: uint32 := |r.data|;
    beyond := x => word;
    assert MemberAccepted(lib, content, pos, beyond);
    var cs := Member(lib, content, pos);
    var next := pos + GZIP_HEADER_LEN + r.consumed + GZIP_FOOTER_LEN;
    assert ScanStep(lib, content, pos, beyond) == (cs, next);
    assert Scan(lib, content, next, beyond) == [];
    assert cs + [] == cs;
    hide Member;
    MemberTiles(lib, content, pos);
    if Tiles(cs, pos, |content|) { TilesTail(cs, [], pos, next, |content|); }
  }

  lemma {:induction false} TilesTail(a: seq<ImageChunk>, b: seq<ImageChunk>, from: nat, mid: nat, to: nat)
    requires Tiles(a, from, mid) && Tiles(a + b, from, to)
    ensures Tiles(b, mid, to)
  {
    if a == [] {
      assert a + b == b;
    } else {
      assert (a + b)[1..] == a[1..] + b;
      TilesTail(a[1..], b, from + a[0].len, mid, to);
    }
  }

  /** Initialize tiles the file, whatever lies behind it, exactly when all footers are inside it. */
  lemma InitializeTilesIff(lib: Library, content: seq<byte>)
    requires InflateLaw(lib)
    ensures FootersInside(lib, content, 0) <==>
            forall beyond: nat -> uint32 :: Tiles(Scan(lib, content, 0, beyond), 0, |content|)
  {
    if FootersInside(lib, content, 0) {
      forall beyond: nat -> uint32 ensures Tiles(Scan(lib, content, 0, beyond), 0, |content|) {
        ScanTiles(lib, content, 0, beyond);
      }
    } else {
      var beyond := ScanOverruns(lib, content, 0);
    }
  }

  // ----- the chunks of source and target

  lemma MemberFaithful(lib: Library, content: seq<byte>, pos: nat, beyond: nat -> uint32)
    requires InflateLaw(lib)
    requires pos + GZIP_HEADER_LEN <= |content| && MemberAccepted(lib, content, pos, beyond)
    ensures AllFaithful(lib, Member(lib, content, pos), content)
  {
    hide FooterWord;
    var c := Member(lib, content, pos)[1];
    var x := content[pos + GZIP_HEADER_LEN..];
    var r := lib.inflate(x);
    assert r.Inflated? && r.consumed <= |x| && c.len == r.consumed;
    assert Raw(c, content) == x[..r.consumed];
    FooterWordIsWord(content, pos + GZIP_HEADER_LEN + r.consumed + GZIP_FOOTER_LEN - 4, beyond);
  }

  lemma ScanStepFaithful(lib: Library, content: seq<byte>, pos: nat, beyond: nat -> uint32)
    requires InflateLaw(lib) && pos < |content|
    ensures AllFaithful(lib, ScanStep(lib, content, pos, beyond).0, content)
  {
    hide MemberAccepted, Member, InflateLaw;
    if GzipAt(content, pos) && |content| - pos >= GZIP_HEADER_LEN + GZIP_FOOTER_LEN &&
       MemberAccepted(lib, content, pos, beyond) {
      MemberFaithful(lib, content, pos, beyond);
    }
  }

  lemma FooterWordIsWord(content: seq<byte>, at: nat, beyond: nat -> uint32)
    ensures FooterWord(content, at, beyond) < TWO_32
  {
    SpanOfFields();
  }

  lemma {:induction false} ScanFaithful(lib: Library, content: seq<byte>, pos: nat, beyond: nat -> uint32)
    requires InflateLaw(lib)
    ensures AllFaithful(lib, Scan(lib, content, pos, beyond), content)
    decreases |content| - pos
  {
    hide ScanStep, Faithful;
    if pos < |content| {
      var (cs, next) := ScanStep(lib, content, pos, beyond);
      ScanStepFaithful(lib, content, pos, beyond);
      ScanFaithful(lib, content, next, beyond);
    }
  }

  lemma MergeFaithful(lib: Library, cs: seq<ImageChunk>, file: seq<byte>)
    requires AllFaithful(lib, cs, file)
    ensures AllFaithful(lib, Merge(cs), file)
  {
    hide Merge;
    var ms := Merge(cs);
    forall k | 0 <= k < |ms| ensures Faithful(lib, ms[k], file) {
      if ms[k].kind == Deflate { MergeKeepsDeflate(cs, k); }
    }
  }

  /** Same place, same length. */
  predicate SamePlace(c: ImageChunk, d: ImageChunk) {
    c.start == d.start && c.len == d.len
  }

  lemma {:induction false} SamePlacesTile(cs: seq<ImageChunk>, ds: seq<ImageChunk>, from: nat, to: nat)
    requires |cs| == |ds| && forall k :: 0 <= k < |cs| ==> SamePlace(cs[k], ds[k])
    requires Tiles(cs, from, to)
    ensures Tiles(ds, from, to)
  {
    if cs != [] {
      assert SamePlace(cs[0], ds[0]);
      forall k | 0 <= k < |cs[1..]| ensures SamePlace(cs[1..][k], ds[1..][k]) {
        assert SamePlace(cs[k + 1], ds[k + 1]);
      }
      SamePlacesTile(cs[1..], ds[1..], from + cs[0].len, to);
    }
  }

  // ----- pairs

  /** A deflate chunk of the target stays one: it differs from its source and can be recompressed. */
  predicate Survives(lib: Library, t: ImageChunk, tgtFile: seq<byte>, s: ImageChunk, srcFile: seq<byte>)
    requires InFile(t, tgtFile) && InFile(s, srcFile)
  {
    && t.kind == Deflate && Raw(t, tgtFile) != Raw(s, srcFile)
    && (Reproduces(lib, t, tgtFile, 6) || Reproduces(lib, t, tgtFile, 9))
  }

  /** What becomes of a target chunk and its source chunk: both become normal, or both stay deflate. */
  function PairOf(lib: Library, t: ImageChunk, tgtFile: seq<byte>, s: ImageChunk, srcFile: seq<byte>)
    : (r: (ImageChunk, ImageChunk))
    requires InFile(t, tgtFile) && InFile(s, srcFile)
  {
    if t.kind != Deflate then (t, s)
    else if !Survives(lib, t, tgtFile, s, srcFile) then (ToNormal(t), ToNormal(s))
    else (t.(level := if Reproduces(lib, t, tgtFile, 6) then 6 else 9), s)
  }

  predicate PairsInFile(ts: seq<ImageChunk>, tgtFile: seq<byte>, ss: seq<ImageChunk>, srcFile: seq<byte>) {
    |ts| == |ss| && forall k :: 0 <= k < |ts| ==> InFile(ts[k], tgtFile) && InFile(ss[k], srcFile)
  }

  function PairTargets(lib: Library, ts: seq<ImageChunk>, tgtFile: seq<byte>, ss: seq<ImageChunk>, srcFile: seq<byte>)
    : (r: seq<ImageChunk>)
    requires PairsInFile(ts, tgtFile, ss, srcFile)
    ensures |r| == |ts| && forall k :: 0 <= k < |ts| ==> r[k] == PairOf(lib, ts[k], tgtFile, ss[k], srcFile).0
  {
    seq(|ts|, k requires 0 <= k < |ts| => PairOf(lib, ts[k], tgtFile, ss[k], srcFile).0)
  }

  function PairSources(lib: Library, ts: seq<ImageChunk>, tgtFile: seq<byte>, ss: seq<ImageChunk>, srcFile: seq<byte>)
    : (r: seq<ImageChunk>)
    requires PairsInFile(ts, tgtFile, ss, srcFile)
    ensures |r| == |ss| && forall k :: 0 <= k < |ss| ==> r[k] == PairOf(lib, ts[k], tgtFile, ss[k], srcFile).1
  {
    seq(|ss|, k requires 0 <= k < |ss| => PairOf(lib, ts[k], tgtFile, ss[k], srcFile).1)
  }

  /** Kinds agree, and a deflate target can be reproduced. */
  ghost predicate Paired(lib: Library, t: ImageChunk, tgtFile: seq<byte>, s: ImageChunk, srcFile: seq<byte>) {
    && t.kind == s.kind
    && (t.kind == Deflate ==>
          && InFile(t, tgtFile) && Reproduces(lib, t, tgtFile, t.level)
          && Faithful(lib, t, tgtFile) && Faithful(lib, s, srcFile))
  }

  ghost predicate AllPaired(lib: Library, ts: seq<ImageChunk>, tgtFile: seq<byte>,
                            ss: seq<ImageChunk>, srcFile: seq<byte>)
  {
    && |ts| == |ss|
    && forall k :: 0 <= k < |ts| ==> Paired(lib, ts[k], tgtFile, ss[k], srcFile)
  }

  lemma PairIsPaired(lib: Library, t: ImageChunk, tgtFile: seq<byte>, s: ImageChunk, srcFile: seq<byte>)
    requires InFile(t, tgtFile) && InFile(s, srcFile) && t.kind == s.kind
    requires Faithful(lib, t, tgtFile) && Faithful(lib, s, srcFile)
    ensures var (t', s') := PairOf(lib, t, tgtFile, s, srcFile);
            SamePlace(t, t') && SamePlace(s, s') && Paired(lib, t', tgtFile, s', srcFile)
  {}

  method ProcessPair(lib: Library, t: ImageChunk, tgtFile: seq<byte>, s: ImageChunk, srcFile: seq<byte>)
    returns (t': ImageChunk, s': ImageChunk)
    requires Laws(lib) && InFile(t, tgtFile) && InFile(s, srcFile)
    ensures (t', s') == PairOf(lib, t, tgtFile, s, srcFile)
  {
    t', s' := t, s;
    if t.kind != Deflate { return; }
    if t.len == s.len && Raw(t, tgtFile) == Raw(s, srcFile) {
      t', s' := ToNormal(t), ToNormal(s);
    } else {
      var ok;
      ok, t' := ReconstructDeflateChunk(lib, t, tgtFile);
      if !ok {
        t', s' := ToNormal(t), ToNormal(s);
      }
    }
  }

  /** Source and target become normal, or stay deflate, together. */
  method ProcessPairs(lib: Library, tgt: Image, src: Image)
    requires Laws(lib) && tgt != src && PairsInFile(tgt.chunks, tgt.content, src.chunks, src.content)
    modifies tgt`chunks, src`chunks
    ensures tgt.chunks == PairTargets(lib, old(tgt.chunks), tgt.content, old(src.chunks), src.content)
    ensures src.chunks == PairSources(lib, old(tgt.chunks), tgt.content, old(src.chunks), src.content)
  {
    hide Laws, PairOf;
    ghost var ts0, ss0 := tgt.chunks, src.chunks;
    ghost var ts1 := PairTargets(lib, ts0, tgt.content, ss0, src.content);
    ghost var ss1 := PairSources(lib, ts0, tgt.content, ss0, src.content);
    for i := 0 to |tgt.chunks|
      invariant |tgt.chunks| == |ts0| && |src.chunks| == |ss0|
      invariant forall k :: i <= k < |ts0| ==> tgt.chunks[k] == ts0[k] && src.chunks[k] == ss0[k]
      invariant forall k :: 0 <= k < i ==> tgt.chunks[k] == ts1[k] && src.chunks[k] == ss1[k]
    {
      var t, s := ProcessPair(lib, tgt.chunks[i], tgt.content, src.chunks[i], src.content);
      tgt.chunks := tgt.chunks[i := t];
      src.chunks := src.chunks[i := s];
    }
  }

  datatype CheckResult = Processed | DifferentStructure | MergeWentAwry

  /** What patch generation starts from. */
  ghost predicate Ready(lib: Library, ts: seq<ImageChunk>, tgtFile: seq<byte>,
                        ss: seq<ImageChunk>, srcFile: seq<byte>)
  {
    && Tiles(ts, 0, |tgtFile|) && Tiles(ss, 0, |srcFile|)
    && AllPaired(lib, ts, tgtFile, ss, srcFile)
  }

  /** Merging two paired tilings gives paired tilings. */
  lemma MergePaired(lib: Library, ts: seq<ImageChunk>, tgtFile: seq<byte>,
                    ss: seq<ImageChunk>, srcFile: seq<byte>)
    requires Ready(lib, ts, tgtFile, ss, srcFile)
    ensures Ready(lib, Merge(ts), tgtFile, Merge(ss), srcFile)
  {
    hide Merge, Collapse, Faithful;
    var ts', ss' := Merge(ts), Merge(ss);
    MergeTiles(ts, 0, |tgtFile|);
    MergeTiles(ss, 0, |srcFile|);
    MergeCollapsesKinds(ts, 0, |tgtFile|);
    MergeCollapsesKinds(ss, 0, |srcFile|);
    assert Kinds(ts) == Kinds(ss);
    assert |ts'| == |Kinds(ts')| == |Kinds(ss')| == |ss'|;
    forall k | 0 <= k < |ts'| ensures Paired(lib, ts'[k], tgtFile, ss'[k], srcFile) {
      assert Kinds(ts')[k] == ts'[k].kind && Kinds(ss')[k] == ss'[k].kind;
      if ts'[k].kind == Deflate {
        MergeKeepsDeflate(ts, k);
        MergeKeepsDeflate(ss, k);
        var i :| 0 <= i < |ts| && ts[i] == ts'[k];
        var j :| 0 <= j < |ss| && ss[j] == ss'[k];
        assert Paired(lib, ts[i], tgtFile, ss[i], srcFile) && Paired(lib, ts[j], tgtFile, ss[j], srcFile);
      }
    }
  }

  method SameStructure(ts: seq<ImageChunk>, ss: seq<ImageChunk>) returns (same: bool)
    ensures same <==> Kinds(ts) == Kinds(ss)
  {
    if |ts| != |ss| { return false; }
    for i := 0 to |ts|
      invariant forall k :: 0 <= k < i ==> ts[k].kind == ss[k].kind
    {
      if ts[i].kind != ss[i].kind {
        assert Kinds(ts)[i] != Kinds(ss)[i];
        return false;
      }
    }
    return true;
  }

  lemma MergedPairs(ts: seq<ImageChunk>, tgtFile: seq<byte>, ss: seq<ImageChunk>, srcFile: seq<byte>)
    requires Tiles(ts, 0, |tgtFile|) && Tiles(ss, 0, |srcFile|)
    ensures Kinds(Merge(ts)) == Kinds(Merge(ss)) <==> Collapse(Kinds(ts)) == Collapse(Kinds(ss))
    ensures Kinds(Merge(ts)) == Kinds(Merge(ss)) ==> PairsInFile(Merge(ts), tgtFile, Merge(ss), srcFile)
  {
    hide Merge, Collapse, Tiles, Kinds;
    MergeTiles(ts, 0, |tgtFile|);
    MergeTiles(ss, 0, |srcFile|);
    MergeCollapsesKinds(ts, 0, |tgtFile|);
    MergeCollapsesKinds(ss, 0, |srcFile|);
    TilesInFile(Merge(ts), 0, |tgtFile|, tgtFile);
    TilesInFile(Merge(ss), 0, |srcFile|, srcFile);
    if Kinds(Merge(ts)) == Kinds(Merge(ss)) {
      assert |Kinds(Merge(ts))| == |Kinds(Merge(ss))|;
    }
  }

  /** The two parallel chunk lists that patches are made from, if both images have the same structure. */
  ghost function Parallel(lib: Library, ts: seq<ImageChunk>, tgtFile: seq<byte>,
                          ss: seq<ImageChunk>, srcFile: seq<byte>)
    : (r: Option<(seq<ImageChunk>, seq<ImageChunk>)>)
    requires Tiles(ts, 0, |tgtFile|) && Tiles(ss, 0, |srcFile|)
  {
    MergedPairs(ts, tgtFile, ss, srcFile);
    var (ts1, ss1) := (Merge(ts), Merge(ss));
    if Kinds(ts1) != Kinds(ss1) then None
    else Some((Merge(PairTargets(lib, ts1, tgtFile, ss1, srcFile)),
               Merge(PairSources(lib, ts1, tgtFile, ss1, srcFile))))
  }

  /** A member that stays a deflate chunk has nothing in it. */
  ghost predicate EmptySurvivor(lib: Library, ts: seq<ImageChunk>, tgtFile: seq<byte>,
                                ss: seq<ImageChunk>, srcFile: seq<byte>)
    requires PairsInFile(ts, tgtFile, ss, srcFile)
  {
    exists k :: 0 <= k < |ts| && Survives(lib, ts[k], tgtFile, ss[k], srcFile) && ts[k].plain == []
  }

  lemma PairsAreReady(lib: Library, ts: seq<ImageChunk>, tgtFile: seq<byte>, ss: seq<ImageChunk>, srcFile: seq<byte>)
    requires PairsInFile(ts, tgtFile, ss, srcFile) && Tiles(ts, 0, |tgtFile|) && Tiles(ss, 0, |srcFile|)
    requires AllFaithful(lib, ts, tgtFile) && AllFaithful(lib, ss, srcFile) && Kinds(ts) == Kinds(ss)
    ensures Ready(lib, PairTargets(lib, ts, tgtFile, ss, srcFile), tgtFile,
                  PairSources(lib, ts, tgtFile, ss, srcFile), srcFile)
  {
    hide Tiles, Faithful, PairOf, Paired;
    var ts', ss' := PairTargets(lib, ts, tgtFile, ss, srcFile), PairSources(lib, ts, tgtFile, ss, srcFile);
    forall k | 0 <= k < |ts|
      ensures SamePlace(ts[k], ts'[k]) && SamePlace(ss[k], ss'[k]) && Paired(lib, ts'[k], tgtFile, ss'[k], srcFile)
    {
      assert Kinds(ts)[k] == Kinds(ss)[k];
      PairIsPaired(lib, ts[k], tgtFile, ss[k], srcFile);
    }
    SamePlacesTile(ts, ts', 0, |tgtFile|);
    SamePlacesTile(ss, ss', 0, |srcFile|);
  }

  ghost predicate HasEmptyDeflate(ts: seq<ImageChunk>) {
    exists k :: 0 <= k < |ts| && ts[k].kind == Deflate && ts[k].plain == []
  }

  lemma EmptySurvives(lib: Library, ts: seq<ImageChunk>, tgtFile: seq<byte>, ss: seq<ImageChunk>, srcFile: seq<byte>)
    requires PairsInFile(ts, tgtFile, ss, srcFile)
    ensures HasEmptyDeflate(PairTargets(lib, ts, tgtFile, ss, srcFile)) <==>
            EmptySurvivor(lib, ts, tgtFile, ss, srcFile)
  {
    hide Reproduces, Raw;
    var ts' := PairTargets(lib, ts, tgtFile, ss, srcFile);
    forall k | 0 <= k < |ts|
      ensures ts'[k].kind == Deflate && ts'[k].plain == [] <==>
              Survives(lib, ts[k], tgtFile, ss[k], srcFile) && ts[k].plain == []
    {
      assert ts'[k] == PairOf(lib, ts[k], tgtFile, ss[k], srcFile).0;
    }
  }

  lemma MergeKeepsEmpty(cs: seq<ImageChunk>)
    ensures HasEmptyDeflate(Merge(cs)) <==> HasEmptyDeflate(cs)
  {
    hide Merge;
    if k :| 0 <= k < |Merge(cs)| && Merge(cs)[k].kind == Deflate && Merge(cs)[k].plain == [] {
      MergeKeepsDeflate(cs, k);
    }
    if k :| 0 <= k < |cs| && cs[k].kind == Deflate && cs[k].plain == [] {
      MergeHoldsDeflate(cs, cs[k]);
    }
  }

  /** The parallel lists exist exactly for images of the same structure, and are ready for patching. */
  lemma ParallelIsReady(lib: Library, ts: seq<ImageChunk>, tgtFile: seq<byte>, ss: seq<ImageChunk>, srcFile: seq<byte>)
    requires Tiles(ts, 0, |tgtFile|) && Tiles(ss, 0, |srcFile|)
    requires AllFaithful(lib, ts, tgtFile) && AllFaithful(lib, ss, srcFile)
    ensures Parallel(lib, ts, tgtFile, ss, srcFile).Some? <==> Collapse(Kinds(ts)) == Collapse(Kinds(ss))
    ensures Parallel(lib, ts, tgtFile, ss, srcFile).Some? ==>
              var (ts', ss') := Parallel(lib, ts, tgtFile, ss, srcFile).value;
              && Ready(lib, ts', tgtFile, ss', srcFile) && NothingToMerge(ts') && NothingToMerge(ss')
              && PairsInFile(Merge(ts), tgtFile, Merge(ss), srcFile)
              && (HasEmptyDeflate(ts') <==> EmptySurvivor(lib, Merge(ts), tgtFile, Merge(ss), srcFile))
  {
    hide Tiles, AllFaithful, Merge, Collapse, PairTargets, PairSources, EmptySurvivor, HasEmptyDeflate, Ready,
      NothingToMerge;
    MergedPairs(ts, tgtFile, ss, srcFile);
    var ts1, ss1 := Merge(ts), Merge(ss);
    if Kinds(ts1) == Kinds(ss1) {
      MergeTiles(ts, 0, |tgtFile|);
      MergeTiles(ss, 0, |srcFile|);
      MergeFaithful(lib, ts, tgtFile);
      MergeFaithful(lib, ss, srcFile);
      PairsAreReady(lib, ts1, tgtFile, ss1, srcFile);
      var ts2, ss2 := PairTargets(lib, ts1, tgtFile, ss1, srcFile), PairSources(lib, ts1, tgtFile, ss1, srcFile);
      MergePaired(lib, ts2, tgtFile, ss2, srcFile);
      MergeIsComplete(ts2);
      MergeIsComplete(ss2);
      EmptySurvives(lib, ts1, tgtFile, ss1, srcFile);
      MergeKeepsEmpty(ts2);
    }
  }

  /** CheckAndProcessChunks computes the parallel lists; it never goes awry. */
  method CheckAndProcessChunks(lib: Library, tgt: Image, src: Image) returns (r: CheckResult)
    requires Laws(lib) && tgt != src
    requires Tiles(tgt.chunks, 0, |tgt.content|) && Tiles(src.chunks, 0, |src.content|)
    requires AllFaithful(lib, tgt.chunks, tgt.content) && AllFaithful(lib, src.chunks, src.content)
    modifies tgt`chunks, src`chunks
    ensures var lists := Parallel(lib, old(tgt.chunks), tgt.content, old(src.chunks), src.content);
            if lists.Some? then r == Processed && (tgt.chunks, src.chunks) == lists.value
            else r == DifferentStructure
  {
    hide Laws, Merge, Collapse, Tiles, PairTargets, PairSources, NothingToMerge, AllFaithful, HasEmptyDeflate,
      EmptySurvivor;
    ParallelIsReady(lib, tgt.chunks, tgt.content, src.chunks, src.content);
    MergedPairs(tgt.chunks, tgt.content, src.chunks, src.content);
    tgt.MergeAdjacentNormalChunks();
    src.MergeAdjacentNormalChunks();
    var same := SameStructure(tgt.chunks, src.chunks);
    if !same { return DifferentStructure; }
    ProcessPairs(lib, tgt, src);
    tgt.MergeAdjacentNormalChunks();
    src.MergeAdjacentNormalChunks();
    if |tgt.chunks| != |src.chunks| {
      return MergeWentAwry;
    }
    return Processed;
  }

  /** SetBonusData: the bonus data goes to the end of source chunk 1, which must be a deflate chunk. */
  function WithBonus(ss: seq<ImageChunk>, bonus: seq<byte>): (r: Option<seq<ImageChunk>>) {
    if |ss| < 2 || ss[1].kind != Deflate then None
    else Some(ss[1 := ss[1].(plain := ss[1].plain + bonus)])
  }

  function Patches(lib: Library, ts: seq<ImageChunk>, tgtFile: seq<byte>,
                   ss: seq<ImageChunk>, srcFile: seq<byte>): (ps: seq<PatchChunk>)
    requires PairsInFile(ts, tgtFile, ss, srcFile)
    ensures |ps| == |ts|
    ensures forall k :: 0 <= k < |ps| ==>
              ps[k] == PatchFor(lib, ts[k], tgtFile, ss[k], DataForPatch(ss[k], srcFile))
  {
    seq(|ts|, k requires 0 <= k < |ts| =>
      PatchFor(lib, ts[k], tgtFile, ss[k], DataForPatch(ss[k], srcFile)))
  }

  /** GeneratePatches, up to the writing of the file. */
  method GeneratePatches(lib: Library, tgt: Image, src: Image) returns (ps: seq<PatchChunk>)
    requires PairsInFile(tgt.chunks, tgt.content, src.chunks, src.content)
    ensures ps == Patches(lib, tgt.chunks, tgt.content, src.chunks, src.content)
  {
    ps := [];
    for i := 0 to |tgt.chunks|
      invariant |ps| == i
      invariant forall k :: 0 <= k < i ==>
        ps[k] == PatchFor(lib, tgt.chunks[k], tgt.content, src.chunks[k], DataForPatch(src.chunks[k], src.content))
    {
      var t, s := tgt.chunks[i], src.chunks[i];
      if RawDataIsSmaller(t, 0) {
        ps := ps + [RawPatchOf(t, tgt.content)];
      } else {
        var data := lib.bsdiff(DataForPatch(s, src.content), DataForPatch(t, tgt.content));
        if RawDataIsSmaller(t, |data|) {
          ps := ps + [RawPatchOf(t, tgt.content)];
        } else {
          ps := ps + [DiffPatchOf(t, tgt.content, s, DataForPatch(s, src.content), data)];
        }
      }
    }
  }

  /** What each chunk costs in the patch: a long normal chunk the smaller of itself and its difference. */
  lemma PatchesAreSmallest(lib: Library, ts: seq<ImageChunk>, tgtFile: seq<byte>,
                           ss: seq<ImageChunk>, srcFile: seq<byte>, k: nat)
    requires PairsInFile(ts, tgtFile, ss, srcFile) && k < |ts|
    ensures var (t, s, p) := (ts[k], ss[k], Patches(lib, ts, tgtFile, ss, srcFile)[k]);
            var source := if s.kind == Deflate then s.plain else srcFile[s.start..s.start + s.len];
            var raw := tgtFile[t.start..t.start + t.len];
            if t.kind == Deflate then p.data == lib.bsdiff(source, t.plain)
            else if t.len <= 160 then p.data == raw
            else var diff := lib.bsdiff(source, raw); p.data == if t.len < |diff| then raw else diff
  {
    SmallestIsChosen(lib, ts[k], tgtFile, ss[k], DataForPatch(ss[k], srcFile));
  }

  // ----- end to end

  /** The source chunks after the bonus option; an empty bonus file changes nothing. */
  function Bonused(ss: seq<ImageChunk>, bonus: seq<byte>): (r: Option<seq<ImageChunk>>) {
    if bonus == [] then Some(ss) else WithBonus(ss, bonus)
  }

  lemma BonusedPair(lib: Library, t: ImageChunk, tgtFile: seq<byte>, s: ImageChunk, srcFile: seq<byte>,
                    bonus: seq<byte>)
    requires Paired(lib, t, tgtFile, s, srcFile) && InFile(t, tgtFile) && InFile(s, srcFile)
    requires |bonus| < TWO_32 && (bonus != [] ==> s.kind == Deflate)
    ensures var s' := if bonus == [] then s else s.(plain := s.plain + bonus);
            var p := PatchFor(lib, t, tgtFile, s', DataForPatch(s', srcFile));
            && Describes(lib, srcFile, bonus, p, DataForPatch(t, tgtFile), Raw(t, tgtFile))
            && (Refused(lib, srcFile, bonus, p, DataForPatch(t, tgtFile)) <==> t.kind == Deflate && t.plain == [])
  {
    hide Describes, Refused;
    var s' := if bonus == [] then s else s.(plain := s.plain + bonus);
    assert s.plain + [] == s.plain;
    assert Matched(lib, t, tgtFile, s', DataForPatch(s', srcFile), Raw(s', srcFile), bonus);
    PatchDescribesChunk(lib, t, tgtFile, s', DataForPatch(s', srcFile), srcFile, s.start, bonus);
  }

  /**
   * The patch made for two paired images turns the source into exactly the target, with or without
   * bonus data, unless some deflate chunk of the target inflates to nothing.
   */
  lemma PairsRebuild(lib: Library, ts: seq<ImageChunk>, tgtFile: seq<byte>,
                     ss: seq<ImageChunk>, srcFile: seq<byte>, bonus: seq<byte>)
    requires Laws(lib) && Ready(lib, ts, tgtFile, ss, srcFile)
    requires |srcFile| < TWO_63 && |bonus| < TWO_32 && Bonused(ss, bonus).Some?
    ensures PairsInFile(ts, tgtFile, Bonused(ss, bonus).value, srcFile)
    ensures var ps := Patches(lib, ts, tgtFile, Bonused(ss, bonus).value, srcFile);
            Encodable(ps) ==>
              Meaning(lib, srcFile, File(ps), Some(bonus)) ==
              if HasEmptyDeflate(ts) then Rejected else Patched(tgtFile)
  {
    hide Laws, Paired, Describes, Refused, Meaning, Encodable, Raw, DataForPatch, PatchFor;
    TilesInFile(ts, 0, |tgtFile|, tgtFile);
    TilesInFile(ss, 0, |srcFile|, srcFile);
    var ss' := Bonused(ss, bonus).value;
    assert PairsInFile(ts, tgtFile, ss', srcFile);
    var ps := Patches(lib, ts, tgtFile, ss', srcFile);
    var plains, targets := Plains(ts, tgtFile), Raws(ts, tgtFile);
    forall k | 0 <= k < |ps|
      ensures Describes(lib, srcFile, BonusFor(Some(bonus), 0 + k), ps[k], plains[k], targets[k])
      ensures Refused(lib, srcFile, BonusFor(Some(bonus), 0 + k), ps[k], plains[k]) <==>
              ts[k].kind == Deflate && ts[k].plain == []
    {
      BonusedPair(lib, ts[k], tgtFile, ss[k], srcFile, BonusFor(Some(bonus), k));
    }
    assert SomeRefused(lib, srcFile, Some(bonus), 0, ps, plains) <==> HasEmptyDeflate(ts);
    TilingIsTheFile(ts, 0, |tgtFile|, tgtFile);
    if Encodable(ps) {
      WrittenFileMeansTarget(lib, srcFile, Some(bonus), ps, plains, targets);
    }
  }

  /** Two images that imgdiff reads without looking behind their ends. */
  ghost predicate Images(lib: Library, srcFile: seq<byte>, tgtFile: seq<byte>) {
    Laws(lib) && FootersInside(lib, srcFile, 0) && FootersInside(lib, tgtFile, 0) && |srcFile| < TWO_63
  }

  lemma ImagesTile(lib: Library, srcFile: seq<byte>, tgtFile: seq<byte>, beyond: nat -> uint32)
    requires Images(lib, srcFile, tgtFile)
    ensures Tiles(Scan(lib, srcFile, 0, beyond), 0, |srcFile|) && Tiles(Scan(lib, tgtFile, 0, beyond), 0, |tgtFile|)
    ensures AllFaithful(lib, Scan(lib, srcFile, 0, beyond), srcFile)
    ensures AllFaithful(lib, Scan(lib, tgtFile, 0, beyond), tgtFile)
  {
    hide InflateLaw, PatchLaw, DeflateLaw, Scan, Tiles, Faithful;
    ScanTiles(lib, srcFile, 0, beyond);
    ScanTiles(lib, tgtFile, 0, beyond);
    ScanFaithful(lib, srcFile, 0, beyond);
    ScanFaithful(lib, tgtFile, 0, beyond);
  }

  ghost predicate SameStructured(lib: Library, srcFile: seq<byte>, tgtFile: seq<byte>, beyond: nat -> uint32) {
    Collapse(Kinds(Scan(lib, tgtFile, 0, beyond))) == Collapse(Kinds(Scan(lib, srcFile, 0, beyond)))
  }

  ghost function ImageLists(lib: Library, srcFile: seq<byte>, tgtFile: seq<byte>, beyond: nat -> uint32)
    : (r: Option<(seq<ImageChunk>, seq<ImageChunk>)>)
    requires Images(lib, srcFile, tgtFile)
  {
    ImagesTile(lib, srcFile, tgtFile, beyond);
    Parallel(lib, Scan(lib, tgtFile, 0, beyond), tgtFile, Scan(lib, srcFile, 0, beyond), srcFile)
  }

  /** The target has a gzip member with nothing in it that differs from its source and can be recompressed. */
  ghost predicate EmptyMember(lib: Library, srcFile: seq<byte>, tgtFile: seq<byte>, beyond: nat -> uint32) {
    var (ts, ss) := (Merge(Scan(lib, tgtFile, 0, beyond)), Merge(Scan(lib, srcFile, 0, beyond)));
    PairsInFile(ts, tgtFile, ss, srcFile) && EmptySurvivor(lib, ts, tgtFile, ss, srcFile)
  }

  /** There is no bonus data, or the second chunk of the source is a deflate chunk that takes it. */
  ghost predicate TakesBonus(lib: Library, srcFile: seq<byte>, tgtFile: seq<byte>, bonus: seq<byte>,
                             beyond: nat -> uint32)
    requires Images(lib, srcFile, tgtFile)
  {
    var lists := ImageLists(lib, srcFile, tgtFile, beyond);
    bonus == [] || (lists.Some? && |lists.value.1| >= 2 && lists.value.1[1].kind == Deflate)
  }

  /** The patch chunks for two images and a bonus file. */
  ghost function ImagePatches(lib: Library, srcFile: seq<byte>, tgtFile: seq<byte>, bonus: seq<byte>,
                              beyond: nat -> uint32): (r: Option<seq<PatchChunk>>)
    requires Images(lib, srcFile, tgtFile)
  {
    match ImageLists(lib, srcFile, tgtFile, beyond)
    case None => None
    case Some((ts, ss)) =>
      if Bonused(ss, bonus).None? then None
      else
        BonusedInFile(lib, srcFile, tgtFile, bonus, beyond);
        Some(Patches(lib, ts, tgtFile, Bonused(ss, bonus).value, srcFile))
  }

  lemma BonusedInFile(lib: Library, srcFile: seq<byte>, tgtFile: seq<byte>, bonus: seq<byte>, beyond: nat -> uint32)
    requires Images(lib, srcFile, tgtFile) && ImageLists(lib, srcFile, tgtFile, beyond).Some?
    requires Bonused(ImageLists(lib, srcFile, tgtFile, beyond).value.1, bonus).Some?
    ensures var (ts, ss) := ImageLists(lib, srcFile, tgtFile, beyond).value;
            PairsInFile(ts, tgtFile, Bonused(ss, bonus).value, srcFile)
  {
    hide Laws, FootersInside, Scan, Parallel, Tiles, Collapse, NothingToMerge, EmptySurvivor, HasEmptyDeflate, Paired,
      Merge;
    ImagesTile(lib, srcFile, tgtFile, beyond);
    ParallelIsReady(lib, Scan(lib, tgtFile, 0, beyond), tgtFile, Scan(lib, srcFile, 0, beyond), srcFile);
    var (ts, ss) := ImageLists(lib, srcFile, tgtFile, beyond).value;
    TilesInFile(ts, 0, |tgtFile|, tgtFile);
    TilesInFile(ss, 0, |srcFile|, srcFile);
  }

  /**
   * Image mode, end to end: a patch is made exactly for two files of the same structure (and a source
   * that takes the bonus data). Applied to the source it gives the target, if and only if no gzip
   * member of the target is an empty survivor; otherwise it is rejected.
   */
  lemma ImageModeRebuilds(lib: Library, srcFile: seq<byte>, tgtFile: seq<byte>, bonus: seq<byte>,
                          beyond: nat -> uint32)
    requires Images(lib, srcFile, tgtFile) && |bonus| < TWO_32
    ensures var patches := ImagePatches(lib, srcFile, tgtFile, bonus, beyond);
            && (patches.Some? <==>
                  SameStructured(lib, srcFile, tgtFile, beyond) && TakesBonus(lib, srcFile, tgtFile, bonus, beyond))
            && (patches.Some? && Encodable(patches.value) ==>
                  Meaning(lib, srcFile, File(patches.value), Some(bonus)) ==
                  if EmptyMember(lib, srcFile, tgtFile, beyond) then Rejected else Patched(tgtFile))
  {
    hide Laws, FootersInside, Scan, Parallel, Tiles, Collapse, NothingToMerge, EmptySurvivor, HasEmptyDeflate, Merge,
      Ready, AllFaithful, Meaning, Encodable, Patches;
    ImagesTile(lib, srcFile, tgtFile, beyond);
    ParallelIsReady(lib, Scan(lib, tgtFile, 0, beyond), tgtFile, Scan(lib, srcFile, 0, beyond), srcFile);
    if ImagePatches(lib, srcFile, tgtFile, bonus, beyond).Some? {
      var (ts, ss) := ImageLists(lib, srcFile, tgtFile, beyond).value;
      PairsRebuild(lib, ts, tgtFile, ss, srcFile, bonus);
    }
  }

  /** imgdiff without options, or with a bonus file: from two files to a patch file. */
  method Imgdiff(lib: Library, srcFile: seq<byte>, tgtFile: seq<byte>, bonus: seq<byte>, beyond: nat -> uint32)
    returns (patch: Option<seq<byte>>)
    requires Images(lib, srcFile, tgtFile) && |bonus| < TWO_32
    ensures patch.Some? <==>
            SameStructured(lib, srcFile, tgtFile, beyond) && TakesBonus(lib, srcFile, tgtFile, bonus, beyond)
    ensures patch.Some? ==>
              && ImagePatches(lib, srcFile, tgtFile, bonus, beyond).Some?
              && patch.value == File(ImagePatches(lib, srcFile, tgtFile, bonus, beyond).value)
    ensures patch.Some? && Encodable(ImagePatches(lib, srcFile, tgtFile, bonus, beyond).value) ==>
              Meaning(lib, srcFile, patch.value, Some(bonus)) ==
              if EmptyMember(lib, srcFile, tgtFile, beyond) then Rejected else Patched(tgtFile)
  {
    hide Laws, FootersInside, Scan, Meaning, File, Tiles, AllFaithful, Encodable, EmptyMember, SameStructured, Parallel,
      Patches, ImagePatches, TakesBonus;
    ImageModeRebuilds(lib, srcFile, tgtFile, bonus, beyond);
    ImagesTile(lib, srcFile, tgtFile, beyond);
    var src := Initialize(lib, srcFile, beyond);
    var tgt := Initialize(lib, tgtFile, beyond);
    var r := CheckAndProcessChunks(lib, tgt, src);
    ghost var ss := src.chunks;
    PatchesAre(lib, srcFile, tgtFile, bonus, beyond);
    if r != Processed { return None; }
    if bonus != [] {
      if WithBonus(src.chunks, bonus).None? { return None; }
      src.chunks := WithBonus(src.chunks, bonus).value;
    }
    assert Bonused(ss, bonus) == Some(src.chunks);
    var ps := GeneratePatches(lib, tgt, src);
    var fd := new OutputFile();
    WritePatchDataToFd(ps, fd);
    assert fd.written == [] + File(ps) == File(ps);
    return Some(fd.written);
  }

  lemma PatchesAre(lib: Library, srcFile: seq<byte>, tgtFile: seq<byte>, bonus: seq<byte>, beyond: nat -> uint32)
    requires Images(lib, srcFile, tgtFile)
    ensures var (lists, ps) :=
              (ImageLists(lib, srcFile, tgtFile, beyond), ImagePatches(lib, srcFile, tgtFile, bonus, beyond));
            && (ps.None? <==> lists.None? || Bonused(lists.value.1, bonus).None?)
            && (ps.Some? ==>
                  && PairsInFile(lists.value.0, tgtFile, Bonused(lists.value.1, bonus).value, srcFile)
                  && ps.value == Patches(lib, lists.value.0, tgtFile, Bonused(lists.value.1, bonus).value, srcFile))
  {
    hide Patches, ImageLists, Images, Bonused;
    if ImagePatches(lib, srcFile, tgtFile, bonus, beyond).Some? {
      BonusedInFile(lib, srcFile, tgtFile, bonus, beyond);
    }
  }

  // ----- files for which the promise fails

  const GZIP_HEADER: seq<byte> := [0x1f, 0x8b, 0x08, 0x00, 0, 0, 0, 0, 0, 0]

  /** A gzip file of one member, compressed by escaping. */
  function GzipFile(data: seq<byte>): (s: seq<byte>) {
    GZIP_HEADER + Escape(data) + [0, 0, 0, 0] + LittleEndian(|data|, 4)
  }

  lemma GzipBody(data: seq<byte>, rest: seq<byte>)
    ensures var file := GZIP_HEADER + Escape(data) + rest;
            GzipAt(file, 0) && Body(Escaping(), file, 0) == Inflated(data, 2 * |data| + 1)
  {
    hide Escape, Unescape;
    var file := GZIP_HEADER + Escape(data) + rest;
    assert file[0..4] == GZIP_MAGIC;
    assert file[0 + GZIP_HEADER_LEN..] == Escape(data) + rest;
    UnescapeEscape(data, rest);
  }

  function GzipChunks(data: seq<byte>): (cs: seq<ImageChunk>) {
    [NormalPart(0, 10, ""), ImageChunk(Deflate, 10, 2 * |data| + 1, 6, data, ""), NormalPart(2 * |data| + 11, 8, "")]
  }

  lemma GzipFileScans(data: seq<byte>, beyond: nat -> uint32)
    requires |data| < TWO_32
    ensures FootersInside(Escaping(), GzipFile(data), 0)
    ensures Scan(Escaping(), GzipFile(data), 0, beyond) == GzipChunks(data)
  {
    hide Escape, Escaping, LittleEndian, FromLittleEndian, Body, Span;
    var lib, file := Escaping(), GzipFile(data);
    var footer := LittleEndian(|data|, 4);
    assert file == GZIP_HEADER + Escape(data) + ([0, 0, 0, 0] + footer);
    GzipBody(data, [0, 0, 0, 0] + footer);
    assert Member(lib, file, 0) == GzipChunks(data);
    hide Member;
    var at := GZIP_HEADER_LEN + (2 * |data| + 1) + GZIP_FOOTER_LEN - 4;
    assert file[at..at + 4] == footer;
    SpanOfFields();
    LittleEndianRoundTrip(|data|, 4);
    assert MemberAccepted(lib, file, 0, beyond) && MemberAccepted(lib, file, 0, x => 0);
    assert ScanStep(lib, file, 0, beyond) == (GzipChunks(data), |file|);
    assert ScanStep(lib, file, 0, x => 0).1 == |file|;
    assert Scan(lib, file, |file|, beyond) == [];
    assert GzipChunks(data) + [] == GzipChunks(data);
  }

  /** The member of the file, and nothing that could be merged. */
  lemma GzipChunksAre(data: seq<byte>)
    ensures Merge(GzipChunks(data)) == GzipChunks(data) && Kinds(GzipChunks(data)) == [Normal, Deflate, Normal]
    ensures |GzipFile(data)| == 2 * |data| + 19
    ensures Raw(GzipChunks(data)[1], GzipFile(data)) == Escape(data)
  {
    hide Escape, LittleEndian;
    var cs, file := GzipChunks(data), GzipFile(data);
    assert cs[1..][1..] == [cs[2]];
    assert Merge(cs[1..]) == [cs[1]] + Merge(cs[1..][1..]);
    assert Merge(cs) == [cs[0]] + Merge(cs[1..]);
    assert file == GZIP_HEADER + Escape(data) + ([0, 0, 0, 0] + LittleEndian(|data|, 4));
  }

  /** The lists of two such files with different contents. */
  lemma OneMemberLists(before: seq<byte>, after: seq<byte>, beyond: nat -> uint32)
    requires before != after && |before| < TWO_32 && |after| < TWO_32
    ensures Images(Escaping(), GzipFile(before), GzipFile(after))
    ensures EmptyMember(Escaping(), GzipFile(before), GzipFile(after), beyond) <==> after == []
    ensures SameStructured(Escaping(), GzipFile(before), GzipFile(after), beyond)
    ensures ImageLists(Escaping(), GzipFile(before), GzipFile(after), beyond) ==
            Some((GzipChunks(after), GzipChunks(before)))
  {
    hide Laws, FootersInside, Scan, GzipFile, Merge, Escape, Collapse;
    var lib, srcFile, tgtFile := Escaping(), GzipFile(before), GzipFile(after);
    var ts, ss := GzipChunks(after), GzipChunks(before);
    EscapingObeysTheLaws();
    GzipFileScans(before, beyond);
    GzipFileScans(after, beyond);
    GzipChunksAre(before);
    GzipChunksAre(after);
    assert Raw(ts[1], tgtFile) != Raw(ss[1], srcFile) by {
      if Escape(before) == Escape(after) { EscapeIsInjective(before, after); }
    }
    assert Reproduces(lib, ts[1], tgtFile, 6);
    assert Survives(lib, ts[1], tgtFile, ss[1], srcFile);
    assert PairTargets(lib, ts, tgtFile, ss, srcFile) == ts && PairSources(lib, ts, tgtFile, ss, srcFile) == ss;
  }

  lemma OneMemberPatches(srcFile: seq<byte>, before: seq<byte>, after: seq<byte>)
    requires |GzipFile(after)| == 2 * |after| + 19 && |after| < TWO_32
    requires PairsInFile(GzipChunks(after), GzipFile(after), GzipChunks(before), srcFile)
    ensures Encodable(Patches(Escaping(), GzipChunks(after), GzipFile(after), GzipChunks(before), srcFile))
  {
    hide GzipFile, File, Escape;
    var ps := Patches(Escaping(), GzipChunks(after), GzipFile(after), GzipChunks(before), srcFile);
    assert |ps[0].data| == 10 && |ps[1].data| == 2 * |after| + 1 && |ps[2].data| == 8;
    RecordedSizeIsFileSize(ps);
    var last := ps[1..][1..];
    assert last == [ps[2]] && last[1..] == [];
    assert SizeTotal(last) == PatchSize(ps[2]) + SizeTotal(last[1..]);
    assert SizeTotal(ps) == PatchSize(ps[0]) + (PatchSize(ps[1]) + SizeTotal(last));
  }

  /**
   * Two gzip files with different contents: imgdiff makes a patch for them, which gives the target,
   * unless the target is empty. Then imgpatch hands nothing to its compressing sink and rejects it.
   */
  lemma EmptyMemberIsRefused(before: seq<byte>, after: seq<byte>, beyond: nat -> uint32)
    requires before != after && |before| < TWO_32 && |after| < TWO_32
    ensures var (lib, srcFile, tgtFile) := (Escaping(), GzipFile(before), GzipFile(after));
            && Images(lib, srcFile, tgtFile) && ImagePatches(lib, srcFile, tgtFile, [], beyond).Some?
            && var patch := File(ImagePatches(lib, srcFile, tgtFile, [], beyond).value);
               Meaning(lib, srcFile, patch, Some([])) == if after == [] then Rejected else Patched(tgtFile)
  {
    hide Images, EmptyMember, SameStructured, ImageLists, Meaning, File, GzipFile, GzipChunks, Escaping, ImagePatches,
      Encodable, Patches;
    var lib, srcFile, tgtFile := Escaping(), GzipFile(before), GzipFile(after);
    OneMemberLists(before, after, beyond);
    GzipChunksAre(after);
    ImageModeRebuilds(lib, srcFile, tgtFile, [], beyond);
    PatchesAre(lib, srcFile, tgtFile, [], beyond);
    OneMemberPatches(srcFile, before, after);
  }

  /** A gzip file that ends with its body: some contents of foreign memory lead the chunks past its end. */
  lemma FooterCanBeMissing(data: seq<byte>) returns (beyond: nat -> uint32)
    requires 4 <= |data| < TWO_32
    ensures Laws(Escaping()) && !FootersInside(Escaping(), GZIP_HEADER + Escape(data), 0)
    ensures var file := GZIP_HEADER + Escape(data); !Tiles(Scan(Escaping(), file, 0, beyond), 0, |file|)
  {
    hide Laws, Escape, Escaping, Scan, Tiles, Body;
    var file := GZIP_HEADER + Escape(data);
    EscapingObeysTheLaws();
    GzipBody(data, []);
    assert file + [] == file;
    assert FooterMissing(Escaping(), file, 0);
    beyond := MemberOverruns(Escaping(), file, 0);
  }
}
