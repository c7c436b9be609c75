/**
 * Splitting a pair of large zip files into pieces under a block limit: the target pieces tile the
 * target from block to block, the source pieces use disjoint blocks, and every deflate chunk that
 * is kept finds its bytes in the source piece.
 */
module ZipSplit {
  import opened Bytes
  import opened Codecs
  import opened ImageChunks
  import opened PatchMaking
  import opened ZipMode
  import opened RangeSets

  // ----- alignment

  function RoundUp(x: nat): (y: nat)
    ensures x <= y < x + BLOCK_SIZE && y % BLOCK_SIZE == 0
  {
    if x % BLOCK_SIZE == 0 then x else x + (BLOCK_SIZE - x % BLOCK_SIZE)
  }

  lemma RoundUpIsLeast(x: nat, y: nat)
    requires x <= y && y % BLOCK_SIZE == 0
    ensures RoundUp(x) <= y
  {}

  lemma RoundUpBetween(x: nat, y: nat)
    requires x <= y <= RoundUp(x)
    ensures RoundUp(y) == RoundUp(x)
  {
    RoundUpIsLeast(y, RoundUp(x));
    RoundUpIsLeast(x, RoundUp(y));
  }

  method AlignHead(start: nat, length: nat) returns (ok: bool, start': nat, length': nat)
    ensures ok <==> start + length > RoundUp(start)
    ensures ok ==> start' == RoundUp(start) && start' + length' == start + length
    ensures !ok ==> start' == start && length' == 0
  {
    var residual := if start % BLOCK_SIZE == 0 then 0 else BLOCK_SIZE - start % BLOCK_SIZE;
    if length <= residual { return false, start, 0; }
    return true, start + residual, length - residual;
  }

  method AlignTail(start: nat, length: nat) returns (ok: bool, length': nat)
    ensures ok <==> length > (start + length) % BLOCK_SIZE
    ensures ok ==> length' == length - (start + length) % BLOCK_SIZE && (start + length') % BLOCK_SIZE == 0
    ensures !ok ==> length' == 0
  {
    var residual := (start + length) % BLOCK_SIZE;
    if length <= residual { return false, 0; }
    return true, length - residual;
  }

  /** What is left of a stretch from the next block boundary on. */
  function FromBoundary(start: nat, length: nat): (r: Option<(nat, nat)>)
    ensures r.Some? ==> r.value.1 > 0 && start <= r.value.0 && r.value.0 + r.value.1 == start + length
  {
    if start + length > RoundUp(start) then Some((RoundUp(start), start + length - RoundUp(start))) else None
  }

  ghost predicate Unused(start: nat, length: nat, used: seq<Range>)
    requires length > 0
  {
    !Overlapping(used, [Occupied(start, length)])
  }

  /** The stretch, its part after the first boundary, or its part between two boundaries: the first that is unused. */
  ghost function UnusedPart(start: nat, length: nat, used: seq<Range>): (r: Option<(nat, nat)>)
    requires length > 0
    ensures r.Some? ==> r.value.1 > 0 && start <= r.value.0 && r.value.0 + r.value.1 <= start + length
    ensures r.Some? ==> Unused(r.value.0, r.value.1, used)
  {
    if Unused(start, length, used) then Some((start, length))
    else match FromBoundary(start, length)
      case None => None
      case Some((at, rest)) =>
        var whole: nat := if rest <= (at + rest) % BLOCK_SIZE then 0 else rest - (at + rest) % BLOCK_SIZE;
        if Unused(at, rest, used) then Some((at, rest))
        else if whole > 0 && Unused(at, whole, used) then Some((at, whole))
        else None
  }

  /** Trim the stretch to blocks that are not used yet; it is given up if that does not work. */
  method RemoveUsedBlocks(start: nat, length: nat, used: SortedRangeSet) returns (ok: bool, start': nat, length': nat)
    requires used.Valid() && length > 0
    ensures UnusedPart(start, length, used.ranges) == if ok then Some((start', length')) else None
  {
    hide Overlapping, Separated;
    start', length' := start, length;
    var overlaps := used.Overlaps(start', length');
    if !overlaps { return true, start', length'; }
    var aligned;
    aligned, start', length' := AlignHead(start', length');
    if aligned {
      overlaps := used.Overlaps(start', length');
      if !overlaps { return true, start', length'; }
    }
    aligned, length' := AlignTail(start', length');
    if aligned {
      overlaps := used.Overlaps(start', length');
      if !overlaps { return true, start', length'; }
    }
    return false, start', length';
  }

  /** A stretch is unused when none of its blocks is. */
  lemma UnusedIff(start: nat, length: nat, used: seq<Range>)
    requires length > 0
    ensures Unused(start, length, used) <==>
            forall b :: start / 4096 <= b <= (start + length - 1) / 4096 ==> !Covers(used, b)
  {
    hide Covers;
    var r := Occupied(start, length);
    forall b: nat ensures Covers([r], b) <==> start / 4096 <= b <= (start + length - 1) / 4096 { CoversOne(r, b); }
  }

  lemma CoversOne(r: Range, b: nat)
    ensures Covers([r], b) <==> InRange(r, b)
  {
    if InRange(r, b) { assert InRange([r][0], b); }
  }

  /**
   * A stretch of several blocks that overlaps only in its first or last block is cut down to block
   * boundaries; that fails where the used block is not shared with a neighbour, or nothing is left.
   */
  lemma TrimsTheEnds(start: nat, length: nat, used: seq<Range>)
    requires length > 0 && start / 4096 < (start + length - 1) / 4096
    requires forall b :: start / 4096 < b < (start + length - 1) / 4096 ==> !Covers(used, b)
    ensures var (first, last, end) := (start / 4096, (start + length - 1) / 4096, start + length);
            var (head, tail) := (Covers(used, first), Covers(used, last));
            var from := if start % 4096 == 0 then start else (first + 1) * 4096;
            UnusedPart(start, length, used) ==
              if !head && !tail then Some((start, length))
              else if head && start % 4096 == 0 then None
              else if !tail then Some((from, end - from))
              else if end % 4096 == 0 || last * 4096 <= from then None
              else Some((from, last * 4096 - from))
  {
    hide Covers, Unused;
    var (first, last, end) := (start / 4096, (start + length - 1) / 4096, start + length);
    var from := RoundUp(start);
    assert from == if start % 4096 == 0 then start else (first + 1) * 4096;
    assert from < end;
    var rest := end - from;
    UnusedIff(start, length, used);
    UnusedIff(from, rest, used);
    if rest > end % 4096 { UnusedIff(from, rest - end % 4096, used); }
    assert end % 4096 != 0 ==> end - end % 4096 == last * 4096;
  }

  // ----- one piece

  /** A target piece, the source chunks kept for it, its source blocks and their bytes. */
  datatype Piece = Piece(tgt: seq<ImageChunk>, src: seq<ImageChunk>, content: seq<byte>, ranges: seq<Range>)

  function Min(a: nat, b: nat): (m: nat) { if a < b then a else b }

  /** The chunks before index `i` of a tiling all end within the block where the tiling starts. */
  lemma SkippedChunks(cs: seq<ImageChunk>, i: nat, from: nat, to: nat)
    requires Tiles(cs, from, to) && i <= |cs|
    requires forall k :: 0 <= k < i ==> cs[k].start + cs[k].len <= RoundUp(cs[k].start)
    ensures var at := if i < |cs| then cs[i].start else to;
            from <= at <= RoundUp(from)
    decreases i
  {
    TilesSplit(cs, i, from, to);
    if i > 0 {
      SkippedChunks(cs, i - 1, from, to);
      TilesAt(cs, i - 1, from, to);
      RoundUpBetween(from, cs[i - 1].start);
    }
  }

  /** Drop or trim what lies before the first block boundary. */
  function FromFirstBoundary(cs: seq<ImageChunk>): (aligned: seq<ImageChunk>) {
    if cs == [] then []
    else match FromBoundary(cs[0].start, cs[0].len)
      case None => FromFirstBoundary(cs[1..])
      case Some((start, len)) => [NormalPart(start, len, "")] + cs[1..]
  }

  /** The stretch that completes the last block. */
  function LastBlock(end: nat, size: nat): (cs: seq<ImageChunk>) {
    if end % BLOCK_SIZE != 0 && end < size then
      [NormalPart(end, Min(size - end, BLOCK_SIZE - end % BLOCK_SIZE), "")]
    else []
  }

  function AlignedChunks(cs: seq<ImageChunk>, size: nat): (aligned: seq<ImageChunk>) {
    var kept := FromFirstBoundary(cs);
    if kept == [] then [] else kept + LastBlock(kept[|kept| - 1].start + kept[|kept| - 1].len, size)
  }

  /** The bytes of a set of blocks of the file. */
  ghost function SourceBytes(ranges: seq<Range>, file: seq<byte>): (s: seq<byte>) {
    if forall i :: 0 <= i < |ranges| ==> Readable(ranges[i], |file|) then Gather(ranges, file) else []
  }

  /** The piece for a list of target chunks, unless they end before the next block boundary. */
  ghost function PieceOf(tgtFile: seq<byte>, srcFile: seq<byte>, ranges: seq<Range>,
                         tgtChunks: seq<ImageChunk>, srcChunks: seq<ImageChunk>): (r: Option<Piece>)
  {
    var aligned := AlignedChunks(tgtChunks, |tgtFile|);
    if aligned == [] then None
    else Some(Piece(Merge(aligned), srcChunks, SourceBytes(ranges, srcFile), ranges))
  }

  lemma {:induction false} FirstBoundaryAt(cs: seq<ImageChunk>, i: nat, from: nat, to: nat)
    requires Tiles(cs, from, to) && i < |cs|
    requires forall k :: 0 <= k < i ==> cs[k].start + cs[k].len <= RoundUp(cs[k].start)
    requires cs[i].start + cs[i].len > RoundUp(cs[i].start)
    ensures var first := NormalPart(RoundUp(cs[i].start), cs[i].start + cs[i].len - RoundUp(cs[i].start), "");
            Tiles([first] + cs[i + 1..], RoundUp(from), to)
    ensures RoundUp(from) < to
  {
    hide Tiles;
    var first := NormalPart(RoundUp(cs[i].start), cs[i].start + cs[i].len - RoundUp(cs[i].start), "");
    SkippedChunks(cs, i, from, to);
    RoundUpBetween(from, cs[i].start);
    TilesAt(cs, i, from, to);
    TilesSplit(cs, i + 1, from, to);
    OneChunkTiles(first);
    TilesAppend([first], cs[i + 1..], first.start, first.start + first.len, to);
  }

  method AlignFirst(cs: seq<ImageChunk>, ghost from: nat, ghost to: nat) returns (aligned: seq<ImageChunk>)
    requires Tiles(cs, from, to)
    ensures aligned == FromFirstBoundary(cs)
    ensures aligned == [] <==> to <= RoundUp(from)
    ensures aligned != [] ==> Tiles(aligned, RoundUp(from), to)
    ensures forall c :: c in aligned && c.kind == Deflate ==> c in cs
  {
    hide Tiles;
    aligned := [];
    var i := 0;
    assert cs[0..] == cs;
    while i < |cs|
      invariant 0 <= i <= |cs|
      invariant forall k :: 0 <= k < i ==> cs[k].start + cs[k].len <= RoundUp(cs[k].start)
      invariant FromFirstBoundary(cs) == FromFirstBoundary(cs[i..])
    {
      assert cs[i..][0] == cs[i] && cs[i..][1..] == cs[i + 1..];
      var ok, start, length := AlignHead(cs[i].start, cs[i].len);
      if ok {
        FirstBoundaryAt(cs, i, from, to);
        aligned := [NormalPart(start, length, "")] + cs[i + 1..];
        return;
      }
      i := i + 1;
    }
    assert cs[|cs|..] == [];
    SkippedChunks(cs, |cs|, from, to);
  }

  /** AddSplitImageFromChunkList: align, complete the last block, merge, gather the source bytes. */
  method AddSplitImageFromChunkList(tgtFile: seq<byte>, srcFile: seq<byte>, ranges: seq<Range>,
                                    tgtChunks: seq<ImageChunk>, srcChunks: seq<ImageChunk>,
                                    ghost from: nat, ghost to: nat)
    returns (added: Option<Piece>)
    requires tgtChunks != [] && Tiles(tgtChunks, from, to) && to <= |tgtFile|
    requires ranges != [] && Separated(ranges) && WithinFile(ranges, |srcFile|)
    ensures added == PieceOf(tgtFile, srcFile, ranges, tgtChunks, srcChunks)
    ensures added.None? <==> to <= RoundUp(from)
    ensures added.Some? ==>
              && RoundUp(from) < |tgtFile|
              && Tiles(added.value.tgt, RoundUp(from), Min(|tgtFile|, RoundUp(to)))
              && added.value.tgt != [] && NothingToMerge(added.value.tgt)
              && (forall c :: c in added.value.tgt && c.kind == Deflate ==> c in tgtChunks)
              && added.value.src == srcChunks && added.value.ranges == ranges
              && (forall i :: 0 <= i < |ranges| ==> Readable(ranges[i], |srcFile|))
              && added.value.content == Gather(ranges, srcFile)
              && added.value.content != []
  {
    hide Merge, Tiles, Gather, Separated, FromFirstBoundary;
    var aligned := AlignFirst(tgtChunks, from, to);
    ghost var kept := aligned;
    if aligned == [] { return None; }
    ghost var start := RoundUp(from);
    ghost var end := to;
    var last := aligned[|aligned| - 1];
    TilesAt(aligned, |aligned| - 1, start, to);
    var endOffset := last.start + last.len;
    if endOffset % BLOCK_SIZE != 0 && endOffset < |tgtFile| {
      var tail := Min(|tgtFile| - endOffset, BLOCK_SIZE - endOffset % BLOCK_SIZE);
      var c := NormalPart(endOffset, tail, "");
      TilesSnoc(aligned, c, start);
      aligned := aligned + [c];
      end := endOffset + tail;
    }
    assert end == Min(|tgtFile|, RoundUp(to));
    assert kept + [] == kept;
    assert aligned == AlignedChunks(tgtChunks, |tgtFile|);
    var image := new Image([], aligned);
    MergeTiles(aligned, start, end);
    MergeIsComplete(aligned);
    MergeFirst(aligned);
    image.MergeAdjacentNormalChunks();
    forall c | c in image.chunks && c.kind == Deflate ensures c in tgtChunks {
      var k :| 0 <= k < |image.chunks| && image.chunks[k] == c;
      MergeKeepsDeflate(aligned, k);
    }
    RangesAreReadable(ranges, srcFile);
    var content := GatherRanges(ranges, srcFile);
    return Some(Piece(image.chunks, srcChunks, content, ranges));
  }

  lemma RangesAreReadable(ranges: seq<Range>, file: seq<byte>)
    requires Separated(ranges) && WithinFile(ranges, |file|) && ranges != []
    ensures forall i :: 0 <= i < |ranges| ==> Readable(ranges[i], |file|)
    ensures Gather(ranges, file) != []
  {
    RangesReadable(ranges, file);
    assert ranges[0].first < ranges[0].second;
    assert |RangeBytes(ranges[0], file)| > 0;
  }

  /** Construct the source content from the source ranges. */
  method GatherRanges(ranges: seq<Range>, file: seq<byte>) returns (content: seq<byte>)
    requires forall i :: 0 <= i < |ranges| ==> Readable(ranges[i], |file|)
    ensures content == Gather(ranges, file)
  {
    content := [];
    assert ranges[0..] == ranges;
    for k := 0 to |ranges|
      invariant content + Gather(ranges[k..], file) == Gather(ranges, file)
    {
      var end := Min(|file|, ranges[k].second * BLOCK_SIZE);
      assert Readable(ranges[k], |file|);
      var bytes := file[ranges[k].first * BLOCK_SIZE..end];
      assert ranges[k..][1..] == ranges[k + 1..];
      ConcatAssoc(content, bytes, Gather(ranges[k + 1..], file));
      content := content + bytes;
    }
    assert ranges[|ranges|..] == [];
  }
}
