/** Patches of a split zip file: each piece is patched on its own, against its own source blocks. */
module ZipSplitPatches {
  import opened Bytes
  import opened Codecs
  import opened PatchFile
  import opened ImageChunks
  import opened ImgPatch
  import opened PatchMaking
  import opened ZipMode
  import opened RangeSets
  import opened ZipSplit
  import opened ZipSplitRun

  // ----- moving source offsets into the piece

  /** UpdateSourceOffset: a deflate chunk is found at another place in the piece than in the file. */
  function Moved(p: PatchChunk, ranges: seq<Range>): (q: PatchChunk)
    requires p.kind == DeflatePatch ==> NewOffset(ranges, p.srcStart).Some?
    ensures PatchSize(q) == PatchSize(p)
  {
    if p.kind == DeflatePatch then p.(srcStart := NewOffset(ranges, p.srcStart).value) else p
  }

  ghost predicate Fit(job: Job, p: Piece) {
    AllInFile(p.tgt, job.tgtFile) && Good(job, p)
  }

  /** A deflate chunk of a piece has its source chunk in the piece. */
  lemma SourceInPiece(job: Job, p: Piece, k: nat)
    requires Fit(job, p) && k < |p.tgt| && p.tgt[k].kind == Deflate
    ensures SourceIndex(p.tgt[k], p.src).Some?
    ensures Held(job, p.ranges, SourceRef(p.tgt[k], p.src, p.content))
    ensures SourceRef(p.tgt[k], p.src, p.content).kind == Deflate
  {
    hide Held, Gather, NothingToMerge, Separated;
    assert HasSource(p.src, p.tgt[k].name);
    var j := SourceIndex(p.tgt[k], p.src).value;
    assert Held(job, p.ranges, p.src[j]);
  }

  lemma HeldIsRelocated(job: Job, p: Piece, c: ImageChunk)
    requires Good(job, p) && Held(job, p.ranges, c) && c.kind == Deflate
    ensures NewOffset(p.ranges, c.start).Some?
    ensures var at := NewOffset(p.ranges, c.start).value;
            at + c.len <= |p.content| && p.content[at..at + c.len] == Raw(c, job.srcFile)
    ensures job.lib.inflate(Raw(c, job.srcFile)) == Inflated(c.plain, c.len) && |c.plain| < TWO_32
  {
    hide Gather, NewOffset, AllHeld, AllServed, NothingToMerge;
    RelocatedBytes(p.ranges, job.srcFile, c.start, c.len);
  }

  lemma PatchIsMovable(job: Job, p: Piece, k: nat)
    requires Fit(job, p) && k < |p.tgt|
    ensures var q := ZipPatch(job.lib, p.tgt[k], job.tgtFile, p.src, p.content);
            q.kind == DeflatePatch ==> NewOffset(p.ranges, q.srcStart).Some?
  {
    hide Good, Gather, NewOffset, Held;
    if p.tgt[k].kind == Deflate {
      SourceInPiece(job, p, k);
      HeldIsRelocated(job, p, SourceRef(p.tgt[k], p.src, p.content));
    }
  }

  ghost function PiecePatch(job: Job, p: Piece, k: nat): (q: PatchChunk)
    requires Fit(job, p) && k < |p.tgt|
  {
    PatchIsMovable(job, p, k);
    Moved(ZipPatch(job.lib, p.tgt[k], job.tgtFile, p.src, p.content), p.ranges)
  }

  ghost function PiecePatches(job: Job, p: Piece): (qs: seq<PatchChunk>)
    requires Fit(job, p)
    ensures |qs| == |p.tgt| && forall k :: 0 <= k < |qs| ==> qs[k] == PiecePatch(job, p, k)
  {
    seq(|p.tgt|, k requires 0 <= k < |p.tgt| => PiecePatch(job, p, k))
  }

  lemma PiecePatchDescribes(job: Job, p: Piece, k: nat)
    requires Fit(job, p) && k < |p.tgt|
    ensures var t := p.tgt[k];
            && Describes(job.lib, p.content, [], PiecePatch(job, p, k), DataForPatch(t, job.tgtFile),
                         Raw(t, job.tgtFile))
            && (Refused(job.lib, p.content, [], PiecePatch(job, p, k), DataForPatch(t, job.tgtFile)) <==>
                t.kind == Deflate && t.plain == [])
  {
    hide Good, Gather, NewOffset, Held, Describes, Refused;
    var t := p.tgt[k];
    var ref, data := SourceRef(t, p.src, p.content), SourceData(t, p.src, p.content);
    PatchIsMovable(job, p, k);
    if t.kind == Deflate {
      SourceInPiece(job, p, k);
      HeldIsRelocated(job, p, ref);
      var at := NewOffset(p.ranges, ref.start).value;
      assert Checked(job.lib, t, job.tgtFile) by { ServedIsChecked(job, p, k); }
      assert ref.plain + [] == ref.plain;
      assert Matched(job.lib, t, job.tgtFile, ref, data, p.content[at..at + ref.len], []);
      PatchDescribesChunk(job.lib, t, job.tgtFile, ref, data, p.content, at, []);
    } else {
      assert p.content[0..0 + |p.content|] == p.content;
      PatchDescribesChunk(job.lib, t, job.tgtFile, ref, data, p.content, 0, []);
    }
  }

  lemma ServedIsChecked(job: Job, p: Piece, k: nat)
    requires Good(job, p) && k < |p.tgt|
    ensures Checked(job.lib, p.tgt[k], job.tgtFile)
  {}

  ghost predicate HasEmptyStream(cs: seq<ImageChunk>) {
    exists k :: 0 <= k < |cs| && cs[k].kind == Deflate && cs[k].plain == []
  }

  /** The patch of a piece turns the piece's source blocks into the piece's part of the target. */
  lemma PieceRebuilds(job: Job, p: Piece, from: nat, to: nat)
    requires Laws(job.lib) && Fit(job, p) && |p.content| < TWO_63
    requires Tiles(p.tgt, from, to) && to <= |job.tgtFile|
    requires Encodable(PiecePatches(job, p))
    ensures from <= to
    ensures Meaning(job.lib, p.content, File(PiecePatches(job, p)), None) ==
            if HasEmptyStream(p.tgt) then Rejected else Patched(job.tgtFile[from..to])
  {
    hide Laws, Describes, Refused, Meaning, Encodable, Raw, DataForPatch, PiecePatch, Good;
    var qs := PiecePatches(job, p);
    var plains, targets := Plains(p.tgt, job.tgtFile), Raws(p.tgt, job.tgtFile);
    forall k | 0 <= k < |qs|
      ensures Describes(job.lib, p.content, BonusFor(None, 0 + k), qs[k], plains[k], targets[k])
      ensures Refused(job.lib, p.content, BonusFor(None, 0 + k), qs[k], plains[k]) <==>
              p.tgt[k].kind == Deflate && p.tgt[k].plain == []
    {
      PiecePatchDescribes(job, p, k);
    }
    TilingIsTheFile(p.tgt, from, to, job.tgtFile);
    WrittenFileMeansTarget(job.lib, p.content, None, qs, plains, targets);
  }

  // ----- the split information

  /** One line of the split info file: patch size, target size, source ranges. */
  datatype SplitInfo = SplitInfo(patchSize: nat, tgtSize: nat, ranges: seq<Range>)

  /** What the lines stand for: cut the patch file by the recorded sizes and apply piece by piece. */
  ghost function Rebuild(lib: Library, patch: seq<byte>, infos: seq<SplitInfo>, srcFile: seq<byte>)
    : (r: Option<seq<byte>>)
  {
    if infos == [] then (if patch == [] then Some([]) else None)
    else
      var info := infos[0];
      if |patch| < info.patchSize ||
         !(forall i :: 0 <= i < |info.ranges| ==> Readable(info.ranges[i], |srcFile|)) then None
      else match Meaning(lib, Gather(info.ranges, srcFile), patch[..info.patchSize], None)
        case Patched(part) =>
          var rest := Rebuild(lib, patch[info.patchSize..], infos[1..], srcFile);
          if |part| == info.tgtSize && rest.Some? then Some(part + rest.value) else None
        case _ => None
  }

  ghost predicate AllFit(job: Job, ps: seq<Piece>) {
    forall k :: 0 <= k < |ps| ==> Fit(job, ps[k])
  }

  ghost predicate Writable(job: Job, ps: seq<Piece>)
    requires AllFit(job, ps)
  {
    forall k :: 0 <= k < |ps| ==> Encodable(PiecePatches(job, ps[k]))
  }

  /** The patch file: the pieces' patch files one after the other. */
  ghost function Patches(job: Job, ps: seq<Piece>): (s: seq<byte>)
    requires AllFit(job, ps)
  {
    if ps == [] then [] else File(PiecePatches(job, ps[0])) + Patches(job, ps[1..])
  }

  ghost function Infos(job: Job, ps: seq<Piece>): (r: seq<SplitInfo>)
    requires AllFit(job, ps) && forall k :: 0 <= k < |ps| ==> ps[k].tgt != []
    ensures |r| == |ps|
  {
    if ps == [] then [] else [InfoOf(job, ps[0])] + Infos(job, ps[1..])
  }

  ghost function InfoOf(job: Job, p: Piece): (r: SplitInfo)
    requires Fit(job, p) && p.tgt != []
  {
    SplitInfo(|File(PiecePatches(job, p))|,
              if PieceEnd(p) < p.tgt[0].start then 0 else PieceEnd(p) - p.tgt[0].start, p.ranges)
  }

  ghost predicate SomeEmptyStream(ps: seq<Piece>) {
    exists k :: 0 <= k < |ps| && HasEmptyStream(ps[k].tgt)
  }

  lemma SomeEmptyHead(ps: seq<Piece>)
    requires ps != []
    ensures SomeEmptyStream(ps) <==> HasEmptyStream(ps[0].tgt) || SomeEmptyStream(ps[1..])
  {
    hide HasEmptyStream;
    if SomeEmptyStream(ps[1..]) {
      var k :| 0 <= k < |ps[1..]| && HasEmptyStream(ps[1..][k].tgt);
      assert HasEmptyStream(ps[k + 1].tgt);
    }
    if SomeEmptyStream(ps) {
      var k :| 0 <= k < |ps| && HasEmptyStream(ps[k].tgt);
      if k > 0 { assert HasEmptyStream(ps[1..][k - 1].tgt); }
    }
  }

  lemma RebuildHead(lib: Library, info: SplitInfo, file: seq<byte>, patch: seq<byte>, infos: seq<SplitInfo>,
                    srcFile: seq<byte>)
    requires |file| == info.patchSize
    requires forall i :: 0 <= i < |info.ranges| ==> Readable(info.ranges[i], |srcFile|)
    ensures var rest := Rebuild(lib, patch, infos, srcFile);
            Rebuild(lib, file + patch, [info] + infos, srcFile) ==
            match Meaning(lib, Gather(info.ranges, srcFile), file, None)
            case Patched(part) => if |part| == info.tgtSize && rest.Some? then Some(part + rest.value) else None
            case _ => None
  {
    hide Meaning, Gather, Readable;
    var whole, all := file + patch, [info] + infos;
    assert whole[..info.patchSize] == file && whole[info.patchSize..] == patch;
    assert all[1..] == infos;
  }

  lemma FitTail(job: Job, ps: seq<Piece>)
    requires AllFit(job, ps) && Writable(job, ps) && ps != []
    ensures AllFit(job, ps[1..]) && Writable(job, ps[1..])
  {
    hide Fit, Encodable, PiecePatches;
    var rest := ps[1..];
    forall k | 0 <= k < |rest|
      ensures Fit(job, rest[k]) && Encodable(PiecePatches(job, rest[k]))
    {
      assert rest[k] == ps[k + 1];
    }
  }

  lemma {:induction false} SplitRebuildsFrom(job: Job, ps: seq<Piece>, from: nat)
    requires Laws(job.lib) && AllFit(job, ps) && Writable(job, ps)
    requires |job.srcFile| < TWO_63
    requires forall k :: 0 <= k < |ps| ==> ps[k].tgt != [] && |ps[k].content| < TWO_63
    requires Contiguous(ps, from, |job.tgtFile|)
    ensures from <= |job.tgtFile|
    ensures Rebuild(job.lib, Patches(job, ps), Infos(job, ps), job.srcFile) ==
            if SomeEmptyStream(ps) then None else Some(job.tgtFile[from..])
    decreases |ps|
  {
    hide Laws, Meaning, File, Encodable, PiecePatches, Tiles, HasEmptyStream, SomeEmptyStream, Gather, AllFit, Writable,
      Fit, Good, Readable;
    if ps == [] {
      assert !SomeEmptyStream(ps) by { NoPiece(ps); }
    } else {
      hide Rebuild, Patches, Infos;
      var p, rest := ps[0], ps[1..];
      var mid := PieceEnd(p);
      PiecesHead(job, ps);
      var file := File(PiecePatches(job, p));
      SplitRebuildsFrom(job, rest, mid);
      assert p.tgt[0].start == from by { TilesStart(p.tgt, from, mid); }
      PieceRebuilds(job, p, from, mid);
      SomeEmptyHead(ps);
      RebuildHead(job.lib, InfoOf(job, p), file, Patches(job, rest), Infos(job, rest), job.srcFile);
      assert job.tgtFile[from..mid] + job.tgtFile[mid..] == job.tgtFile[from..];
    }
  }

  lemma PiecesHead(job: Job, ps: seq<Piece>)
    requires AllFit(job, ps) && Writable(job, ps) && ps != []
    requires forall k :: 0 <= k < |ps| ==> ps[k].tgt != []
    ensures AllFit(job, ps[1..]) && Writable(job, ps[1..])
    ensures Fit(job, ps[0]) && Encodable(PiecePatches(job, ps[0]))
    ensures forall i :: 0 <= i < |ps[0].ranges| ==> Readable(ps[0].ranges[i], |job.srcFile|)
    ensures ps[0].content == Gather(ps[0].ranges, job.srcFile)
    ensures Patches(job, ps) == File(PiecePatches(job, ps[0])) + Patches(job, ps[1..])
    ensures Infos(job, ps) == [InfoOf(job, ps[0])] + Infos(job, ps[1..])
  {
    hide File, Encodable, PiecePatches, Gather, Readable;
    FitTail(job, ps);
    assert Good(job, ps[0]);
  }

  lemma NoPiece(ps: seq<Piece>)
    requires |ps| == 0
    ensures !SomeEmptyStream(ps)
  {}

  lemma TilesStart(cs: seq<ImageChunk>, from: nat, to: nat)
    requires Tiles(cs, from, to) && cs != []
    ensures cs[0].start == from
  {}

  // ----- generating

  /** The patch chunks of one piece, with their new source offsets, and the size to record for them. */
  method GeneratePiece(job: Job, p: Piece) returns (qs: seq<PatchChunk>, total: nat)
    requires Fit(job, p)
    ensures qs == PiecePatches(job, p) && total == |File(qs)|
  {
    hide Good, Gather, NewOffset, File, ZipPatch, SizeTotal;
    var made := GeneratePatchesInternal(job.lib, p.tgt, job.tgtFile, p.src, p.content);
    qs, total := [], 12;
    assert SizeTotal([]) == 0 by { NoChunks(); }
    for k := 0 to |made|
      invariant |qs| == k && forall j :: 0 <= j < k ==> qs[j] == PiecePatch(job, p, j)
      invariant total == 12 + SizeTotal(qs)
    {
      PatchIsMovable(job, p, k);
      var q := made[k];
      if q.kind == DeflatePatch {
        assert NonEmpty(p.ranges) by { GoodRanges(job, p); }
        var at := GetOffsetInRangeSet(p.ranges, q.srcStart);
        q := q.(srcStart := at.value);
      }
      TotalsSnoc(qs, q);
      qs, total := qs + [q], total + PatchSize(q);
    }
    assert qs == PiecePatches(job, p);
    RecordedSizeIsFileSize(qs);
  }

  lemma NoChunks()
    ensures SizeTotal([]) == 0
  {}

  lemma GoodRanges(job: Job, p: Piece)
    requires Good(job, p)
    ensures NonEmpty(p.ranges)
  {}

  method GenerateOne(job: Job, p: Piece, fd: OutputFile) returns (info: SplitInfo)
    requires Fit(job, p) && p.tgt != []
    modifies fd
    ensures fd.written == old(fd.written) + File(PiecePatches(job, p))
    ensures info == InfoOf(job, p)
  {
    hide File, Fit, PiecePatches;
    var qs, total := GeneratePiece(job, p);
    WritePatchDataToFd(qs, fd);
    var last, first := p.tgt[|p.tgt| - 1], p.tgt[0];
    var end := last.start + last.len;
    return SplitInfo(total, if end < first.start then 0 else end - first.start, p.ranges);
  }

  lemma PatchesSnoc(job: Job, ps: seq<Piece>, k: nat, written: seq<byte>, infos: seq<SplitInfo>)
    requires AllFit(job, ps) && (forall j :: 0 <= j < |ps| ==> ps[j].tgt != []) && k < |ps|
    ensures (written + File(PiecePatches(job, ps[k]))) + Patches(job, ps[k + 1..]) == written + Patches(job, ps[k..])
    ensures (infos + [InfoOf(job, ps[k])]) + Infos(job, ps[k + 1..]) == infos + Infos(job, ps[k..])
  {
    hide File, Fit, PiecePatches, InfoOf;
    assert ps[k..][0] == ps[k] && ps[k..][1..] == ps[k + 1..];
    ConcatAssoc(written, File(PiecePatches(job, ps[k])), Patches(job, ps[k + 1..]));
    ConcatAssoc(infos, [InfoOf(job, ps[k])], Infos(job, ps[k + 1..]));
  }

  /** GeneratePatches for split images: the patch file and the lines of the split info file. */
  method GeneratePatches(job: Job, ps: seq<Piece>, fd: OutputFile) returns (infos: seq<SplitInfo>)
    requires AllFit(job, ps) && forall k :: 0 <= k < |ps| ==> ps[k].tgt != []
    modifies fd
    ensures fd.written == old(fd.written) + Patches(job, ps)
    ensures infos == Infos(job, ps)
  {
    hide File, Fit, PiecePatches, Patches, Infos, InfoOf;
    infos := [];
    assert ps[0..] == ps;
    for i := 0 to |ps|
      invariant fd.written + Patches(job, ps[i..]) == old(fd.written) + Patches(job, ps)
      invariant infos + Infos(job, ps[i..]) == Infos(job, ps)
    {
      PatchesSnoc(job, ps, i, fd.written, infos);
      var info := GenerateOne(job, ps[i], fd);
      infos := infos + [info];
    }
    assert ps[|ps|..] == [];
    NothingLeft(job);
  }

  lemma NothingLeft(job: Job)
    ensures Patches(job, []) == [] && Infos(job, []) == []
  {}

  // ----- end to end

  lemma {:induction false} GatherFits(rs: seq<Range>, file: seq<byte>, from: nat)
    requires Separated(rs) && forall i :: 0 <= i < |rs| ==> Readable(rs[i], |file|)
    requires from <= |file| && (rs != [] ==> from <= rs[0].first * BLOCK_SIZE)
    ensures |Gather(rs, file)| <= |file| - from
  {
    if rs != [] {
      SeparatedTail(rs);
      var end := RangeEnd(rs[0], |file|);
      if |rs| > 1 {
        assert rs[0].second < rs[1].first && rs[1..][0] == rs[1];
        assert Readable(rs[1], |file|);
        GatherFits(rs[1..], file, end);
      } else {
        assert rs[1..] == [];
      }
    }
  }

  lemma PiecesFit(job: Job, ps: seq<Piece>)
    requires Split(job, ps)
    ensures AllFit(job, ps)
    ensures forall k :: 0 <= k < |ps| ==> ps[k].tgt != [] && |ps[k].content| <= |job.srcFile|
  {
    hide Good, Gather;
    ContiguousInFile(job, ps, 0);
    forall k | 0 <= k < |ps| ensures Fit(job, ps[k]) && |ps[k].content| <= |job.srcFile| {
      assert Good(job, ps[k]);
      ContentFits(job, ps[k]);
    }
  }

  lemma ContentFits(job: Job, p: Piece)
    requires Good(job, p)
    ensures |p.content| <= |job.srcFile|
  {
    GatherFits(p.ranges, job.srcFile, 0);
  }

  lemma {:induction false} ContiguousInFile(job: Job, ps: seq<Piece>, from: nat)
    requires Contiguous(ps, from, |job.tgtFile|)
    ensures from <= |job.tgtFile|
    ensures forall k :: 0 <= k < |ps| ==> ps[k].tgt != [] && AllInFile(ps[k].tgt, job.tgtFile)
    decreases |ps|
  {
    hide AllInFile, Tiles;
    if ps != [] {
      ContiguousInFile(job, ps[1..], PieceEnd(ps[0]));
      TilesGrows(ps[0].tgt, from, PieceEnd(ps[0]));
      TilesInFile(ps[0].tgt, from, PieceEnd(ps[0]), job.tgtFile);
      forall k | 0 <= k < |ps| ensures ps[k].tgt != [] && AllInFile(ps[k].tgt, job.tgtFile) {
        if k > 0 { assert ps[k] == ps[1..][k - 1]; }
      }
    }
  }

  /** A split patch rebuilds the target if and only if no piece keeps an empty deflate stream. */
  lemma SplitRebuilds(job: Job, ps: seq<Piece>)
    requires Laws(job.lib) && Split(job, ps) && |job.srcFile| < TWO_63
    ensures AllFit(job, ps) && forall k :: 0 <= k < |ps| ==> ps[k].tgt != []
    ensures Writable(job, ps) ==>
              Rebuild(job.lib, Patches(job, ps), Infos(job, ps), job.srcFile) ==
              if SomeEmptyStream(ps) then None else Some(job.tgtFile)
  {
    hide Laws, AllFit, Writable, Rebuild, Patches, Infos, SomeEmptyStream;
    PiecesFit(job, ps);
    if Writable(job, ps) {
      SplitRebuildsFrom(job, ps, 0);
      assert job.tgtFile[0..] == job.tgtFile;
    }
  }

  /**
   * Which target chunks make the split abort: only one called "-0" that finds no source chunk before
   * the central directory, when the directory is over the limit.
   */
  lemma MatchesFitIff(job: Job)
    requires job.ss != [] && job.ss[|job.ss| - 1].name == ""
    requires forall k :: 0 <= k < |job.ss| - 1 ==> job.ss[k].len <= job.limit
    ensures MatchesFit(job, |job.ts|) <==> !OverLimit(job)
    ensures forall k :: 0 <= k < |job.ts| && FindsDirectory(job, job.ts[k].name) ==> job.ts[k].name == "-0"
  {
    forall k | 0 <= k < |job.ts| && FindsDirectory(job, job.ts[k].name) ensures job.ts[k].name == "-0" {
      assert Candidate(job.ss[|job.ss| - 1], job.ts[k].name, true);
      assert |job.ts[k].name + "-0"| >= 2;
      assert "" + "-0" == "-0";
    }
  }

  predicate FindsDirectory(job: Job, name: string) {
    job.ss != [] && Find(job.ss, name, true) == Some(|job.ss| - 1)
  }

  /** The central directory is over the limit, and some target chunk finds it by its name. */
  predicate OverLimit(job: Job) {
    && job.ss != [] && job.ss[|job.ss| - 1].len > job.limit
    && exists k :: 0 <= k < |job.ts| && FindsDirectory(job, job.ts[k].name)
  }

  datatype SplitOutcome = Failed | CheckFailed | Written(patch: seq<byte>, infos: seq<SplitInfo>)

  /** Both files read and processed, as a job for splitting. */
  ghost function JobOf(lib: Library, srcEntries: seq<ZipEntry>, srcFile: seq<byte>,
                       tgtEntries: seq<ZipEntry>, tgtFile: seq<byte>, limit: nat): (job: Job)
    requires Zips(lib, srcEntries, srcFile, tgtEntries, tgtFile)
    requires BothRead(srcEntries, |srcFile|, tgtEntries, |tgtFile|, limit)
  {
    var (ts, ss) := ZipLists(lib, srcEntries, srcFile, tgtEntries, tgtFile, limit);
    Job(lib, ts, tgtFile, ss, srcFile, limit)
  }

  lemma {:induction false} ProcessedIsReady(lib: Library, ts: seq<ImageChunk>, tgtFile: seq<byte>,
                         ss: seq<ImageChunk>, srcFile: seq<byte>, limit: nat)
    requires Tiles(ts, 0, |tgtFile|) && AllInFile(ts, tgtFile) && AllFaithful(lib, ts, tgtFile) && tgtFile != []
    requires AllInFile(ss, srcFile) && SourceChunks(lib, ss, srcFile, limit) && limit > 0
    ensures var (ts', ss') := Process(lib, ts, tgtFile, ss, srcFile, |ts|);
            && Ready(Job(lib, ts', tgtFile, ss', srcFile, limit))
            && ss' != [] && ss'[|ss'| - 1].name == ""
            && forall k :: 0 <= k < |ss'| - 1 ==> ss'[k].len <= limit
  {
    hide Tiles, AllFaithful, Process, AllChecked, Merge, Faithful;
    SourceIsFaithful(lib, ss, srcFile, limit);
    CheckedChunks(lib, ts, tgtFile, ss, srcFile);
    var (ts', ss') := Process(lib, ts, tgtFile, ss, srcFile, |ts|);
    forall k | 0 <= k < |ss'|
      ensures ss'[k].len == ss[k].len && InFile(ss'[k], srcFile) && ss'[k].name == ss[k].name
    {
      assert ss'[k] == ss[k] || ss'[k] == ToNormal(ss[k]);
    }
    assert ss'[|ss| - 1] == ss[|ss| - 1] || ss'[|ss| - 1] == ToNormal(ss[|ss| - 1]);
  }

  lemma JobIsReady(lib: Library, srcEntries: seq<ZipEntry>, srcFile: seq<byte>,
                   tgtEntries: seq<ZipEntry>, tgtFile: seq<byte>, limit: nat)
    requires Zips(lib, srcEntries, srcFile, tgtEntries, tgtFile) && tgtFile != [] && limit > 0
    requires BothRead(srcEntries, |srcFile|, tgtEntries, |tgtFile|, limit)
    ensures var job := JobOf(lib, srcEntries, srcFile, tgtEntries, tgtFile, limit);
            && Ready(job)
            && job.ss != [] && job.ss[|job.ss| - 1].name == "" && job.ss[|job.ss| - 1].len > 0
            && (MatchesFit(job, |job.ts|) <==> !OverLimit(job))
  {
    hide Laws, Ordered, AllExtract, EntriesEnd, Tiles, AllFaithful, Process, SourceChunks, SourceList, TargetChunks,
      AllInFile, MatchesFit, OverLimit;
    ListsTile(lib, srcEntries, srcFile, tgtEntries, tgtFile, limit);
    ProcessedIsReady(lib, TargetChunks(tgtEntries, |tgtFile|, limit, 0).value, tgtFile,
                     SourceList(srcEntries, |srcFile|, limit).value, srcFile, limit);
    MatchesFitIff(JobOf(lib, srcEntries, srcFile, tgtEntries, tgtFile, limit));
  }

  // ----- what splitting does with empty streams

  ghost predicate NoEmptyStream(cs: seq<ImageChunk>) {
    forall c :: c in cs && c.kind == Deflate ==> c.plain != []
  }

  lemma {:induction false} BoundaryKeepsStreams(cs: seq<ImageChunk>)
    requires NoEmptyStream(cs)
    ensures NoEmptyStream(FromFirstBoundary(cs))
  {
    if cs != [] && FromBoundary(cs[0].start, cs[0].len).None? { BoundaryKeepsStreams(cs[1..]); }
  }

  lemma {:induction false} PieceKeepsStreams(job: Job, s: Progress, ranges: seq<Range>)
    requires NoEmptyStream(s.tgt)
    ensures var added := PieceOf(job.tgtFile, job.srcFile, ranges, s.tgt, s.src);
            added.Some? ==> NoEmptyStream(added.value.tgt)
  {
    hide Merge, FromFirstBoundary, SourceBytes;
    var aligned := AlignedChunks(s.tgt, |job.tgtFile|);
    BoundaryKeepsStreams(s.tgt);
    assert NoEmptyStream(aligned);
    forall c | c in Merge(aligned) && c.kind == Deflate ensures c.plain != [] {
      var k :| 0 <= k < |Merge(aligned)| && Merge(aligned)[k] == c;
      MergeKeepsDeflate(aligned, k);
    }
  }

  ghost predicate PiecesNotEmpty(ps: seq<Piece>) {
    forall k :: 0 <= k < |ps| ==> NoEmptyStream(ps[k].tgt)
  }

  lemma {:induction false} SplitKeepsStreams(job: Job, i: nat, s: Progress)
    requires NoEmptyStream(job.ts) && NoEmptyStream(s.tgt) && PiecesNotEmpty(s.ps)
    ensures var r := SplitFrom(job, i, s); r.Some? ==> NoEmptyStream(r.value.tgt) && PiecesNotEmpty(r.value.ps)
    decreases |job.ts| - i, |s.ranges|
  {
    hide Find, UnusedPart, Union, PieceOf;
    if i < |job.ts| {
      var (t, found) := (job.ts[i], Find(job.ss, job.ts[i].name, true));
      if found.None? {
        SplitKeepsStreams(job, i + 1, Plainly(s, t));
      } else {
        assert found.value < |job.ss| by { FoundInRange(job.ss, t.name, true); }
        var c := job.ss[found.value];
        if 0 < c.len <= job.limit {
          assert UnusedPart(c.start, c.len, s.used).Some? ==> 0 < UnusedPart(c.start, c.len, s.used).value.1 <= c.len;
          match UnusedPart(c.start, c.len, s.used)
          case None => SplitKeepsStreams(job, i + 1, Plainly(s, t));
          case Some((start, len)) =>
            if Total(s.ranges) * BLOCK_SIZE + len <= job.limit {
              SplitKeepsStreams(job, i + 1, Taking(s, t, c, start, len));
            } else {
              PieceKeepsStreams(job, s, s.ranges);
              SplitKeepsStreams(job, i, Closed(job, s));
            }
        }
      }
    }
  }

  lemma {:induction false} PiecesAreNormal(e: ZipEntry, limit: nat, count: nat, rest: nat)
    requires limit > 0
    ensures NoEmptyStream(Pieces(e, limit, count, rest))
    decreases rest
  {
    if rest > 0 { PiecesAreNormal(e, limit, count + 1, rest - if limit < rest then limit else rest); }
  }

  lemma {:induction false} TargetHasNoEmpty(es: seq<ZipEntry>, size: nat, limit: nat, pos: nat)
    requires TargetChunks(es, size, limit, pos).Some? && forall k :: 0 <= k < |es| ==> es[k].contents != Some([])
    ensures NoEmptyStream(TargetChunks(es, size, limit, pos).value)
    decreases |es|, if es == [] then 0 else if pos == es[0].offset then 0 else 1
  {
    if es != [] {
      if pos == es[0].offset {
        if TooLarge(es[0], limit) { PiecesAreNormal(es[0], limit, 0, es[0].compressed); }
        TargetHasNoEmpty(es[1..], size, limit, pos + es[0].compressed);
      } else {
        TargetHasNoEmpty(es, size, limit, es[0].offset);
      }
    }
  }

  lemma {:induction false} ProcessHasNoEmpty(lib: Library, ts: seq<ImageChunk>, tgtFile: seq<byte>,
                                             ss: seq<ImageChunk>, srcFile: seq<byte>, n: nat)
    requires n <= |ts| && AllInFile(ts, tgtFile) && AllInFile(ss, srcFile) && NoEmptyStream(ts)
    ensures NoEmptyStream(Process(lib, ts, tgtFile, ss, srcFile, n).0)
  {
    hide ProcessOne;
    if n > 0 {
      ProcessHasNoEmpty(lib, ts, tgtFile, ss, srcFile, n - 1);
      var (ts1, ss1) := Process(lib, ts, tgtFile, ss, srcFile, n - 1);
      OneSurvives(lib, ts[n - 1], tgtFile, ss1, srcFile);
      assert ts1[n - 1] == ts[n - 1] && ts[n - 1] in ts;
    }
  }

  /** Without an empty entry in the target, no piece of the split keeps an empty stream. */
  lemma NoEmptyEntryNoEmptyStream(lib: Library, srcEntries: seq<ZipEntry>, srcFile: seq<byte>,
                                  tgtEntries: seq<ZipEntry>, tgtFile: seq<byte>, limit: nat)
    requires Zips(lib, srcEntries, srcFile, tgtEntries, tgtFile) && tgtFile != [] && limit > 0
    requires BothRead(srcEntries, |srcFile|, tgtEntries, |tgtFile|, limit)
    requires forall k :: 0 <= k < |tgtEntries| ==> tgtEntries[k].contents != Some([])
    ensures var job := JobOf(lib, srcEntries, srcFile, tgtEntries, tgtFile, limit);
            && job.ss != [] && job.ss[|job.ss| - 1].len > 0
            && (SplitOf(job).Some? ==> !SomeEmptyStream(SplitOf(job).value))
  {
    hide Laws, Ordered, AllExtract, EntriesEnd, Tiles, AllFaithful, Process, SourceChunks, SourceList, TargetChunks,
      AllInFile, MatchesFit, OverLimit, SplitOf, SomeEmptyStream, Ready;
    JobIsReady(lib, srcEntries, srcFile, tgtEntries, tgtFile, limit);
    ListsTile(lib, srcEntries, srcFile, tgtEntries, tgtFile, limit);
    var ts := TargetChunks(tgtEntries, |tgtFile|, limit, 0).value;
    TargetHasNoEmpty(tgtEntries, |tgtFile|, limit, 0);
    ProcessHasNoEmpty(lib, ts, tgtFile, SourceList(srcEntries, |srcFile|, limit).value, srcFile, |ts|);
    SplitIsNotEmpty(JobOf(lib, srcEntries, srcFile, tgtEntries, tgtFile, limit));
  }

  lemma SplitIsNotEmpty(job: Job)
    requires job.ss != [] && job.ss[|job.ss| - 1].len > 0 && NoEmptyStream(job.ts)
    ensures SplitOf(job).Some? ==> !SomeEmptyStream(SplitOf(job).value)
  {
    hide SplitFrom, PieceOf;
    SplitKeepsStreams(job, 0, StartProgress(job));
    var r := SplitFrom(job, 0, StartProgress(job));
    if r.Some? { PieceKeepsStreams(job, r.value, Union(r.value.ranges, [Directory(job)])); }
  }

  /**
   * imgdiff -z --block-limit, for any two zip files: it aborts exactly when the central directory is
   * over the limit and found by name; otherwise patch file and split information rebuild the target
   * from the source, if and only if no piece of the split keeps an empty deflate stream.
   */
  method ImgdiffZipSplit(lib: Library, srcEntries: seq<ZipEntry>, srcFile: seq<byte>,
                         tgtEntries: seq<ZipEntry>, tgtFile: seq<byte>, blocksLimit: nat)
    returns (r: SplitOutcome)
    requires Zips(lib, srcEntries, srcFile, tgtEntries, tgtFile) && tgtFile != [] && blocksLimit > 0
    ensures r.Failed? <==> !BothRead(srcEntries, |srcFile|, tgtEntries, |tgtFile|, blocksLimit * BLOCK_SIZE)
    ensures !r.Failed? ==>
              var job := JobOf(lib, srcEntries, srcFile, tgtEntries, tgtFile, blocksLimit * BLOCK_SIZE);
              && job.ss != [] && job.ss[|job.ss| - 1].len > 0
              && (r.CheckFailed? <==> OverLimit(job))
              && (r.Written? ==>
                    && SplitOf(job).Some?
                    && var ps := SplitOf(job).value;
                       && Split(job, ps) && AllFit(job, ps) && (forall k :: 0 <= k < |ps| ==> ps[k].tgt != [])
                       && r.patch == Patches(job, ps) && r.infos == Infos(job, ps)
                       && (Writable(job, ps) ==>
                             Rebuild(lib, r.patch, r.infos, srcFile) ==
                             if SomeEmptyStream(ps) then None else Some(tgtFile)))
  {
    hide Laws, Tiles, Process, Ordered, AllExtract, TargetChunks, SourceList, AllFaithful, Split, AllFit, Writable,
      Rebuild, Patches, Infos, SomeEmptyStream, MatchesFit, Ready, SourceChunks, AllInFile, OverLimit, SplitOf;
    var limit := blocksLimit * BLOCK_SIZE;
    var srcChunks := InitializeSource(srcEntries, srcFile, limit);
    if srcChunks.None? { return Failed; }
    var tgtChunks := InitializeTarget(tgtEntries, tgtFile, limit);
    if tgtChunks.None? { return Failed; }
    ListsTile(lib, srcEntries, srcFile, tgtEntries, tgtFile, limit);
    JobIsReady(lib, srcEntries, srcFile, tgtEntries, tgtFile, limit);
    var src := new Image(srcFile, srcChunks.value);
    var tgt := new Image(tgtFile, tgtChunks.value);
    CheckAndProcessChunks(lib, tgt, src, limit);
    var job := Job(lib, tgt.chunks, tgtFile, src.chunks, srcFile, limit);
    assert job == JobOf(lib, srcEntries, srcFile, tgtEntries, tgtFile, limit);
    var split := SplitZipModeImageWithLimit(job);
    if split.None? { return CheckFailed; }
    SplitRebuilds(job, split.value);
    var fd := new OutputFile();
    var infos := GeneratePatches(job, split.value, fd);
    assert fd.written == [] + Patches(job, split.value) == Patches(job, split.value);
    return Written(fd.written, infos);
  }

  // ----- zip files for which splitting aborts

  /** A stored entry "a" of one byte, and a central directory that is one byte over the limit. */
  function LargeDirectory(blocksLimit: nat): (r: (seq<ZipEntry>, seq<byte>)) {
    ([ZipEntry("a", 0, 1, false, None)], seq(blocksLimit * BLOCK_SIZE + 2, _ => 0))
  }

  function DashZero(): (es: seq<ZipEntry>) { [ZipEntry("-0", 0, 1, false, None)] }

  lemma {:induction false} OverLimitLists(blocksLimit: nat)
    requires 0 < blocksLimit < TWO_31
    ensures var ((srcEntries, srcFile), tgtEntries) := (LargeDirectory(blocksLimit), DashZero());
            var limit := blocksLimit * BLOCK_SIZE;
            && Zips(Escaping(), srcEntries, srcFile, tgtEntries, [7])
            && SourceList(srcEntries, |srcFile|, limit) ==
               Some([NormalPart(0, 1, "a"), NormalPart(1, limit + 1, "")])
            && TargetChunks(tgtEntries, 1, limit, 0) == Some([NormalPart(0, 1, "-0")])
  {
    hide Laws;
    EscapingObeysTheLaws();
    var ((srcEntries, srcFile), tgtEntries) := (LargeDirectory(blocksLimit), DashZero());
    var limit := blocksLimit * BLOCK_SIZE;
    assert srcEntries[1..] == [] && tgtEntries[1..] == [] && srcEntries[..0] == [];
    var a, t := [NormalPart(0, 1, "a")], [NormalPart(0, 1, "-0")];
    assert AllEntryChunks([], limit) == Some([]);
    assert [] + a == a && a + [NormalPart(1, limit + 1, "")] == [a[0], NormalPart(1, limit + 1, "")];
    assert AllEntryChunks(srcEntries, limit) == Some(a);
    assert TargetChunks([], 1, limit, 1) == Some([]);
    assert t + [] == t;
    assert EntryChunks(tgtEntries[0], limit) == Some(t);
    assert TargetChunks(tgtEntries, 1, limit, 0) == Some(t + []);
    assert Ordered(srcEntries, 0, |srcFile|) && Ordered(tgtEntries, 0, 1);
    assert AllExtract(Escaping(), srcEntries, srcFile) && AllExtract(Escaping(), tgtEntries, [7]);
  }

  /** A target entry "-0" finds the central directory of a source, and the directory is over the limit. */
  lemma OverLimitHappens(blocksLimit: nat)
    requires 0 < blocksLimit < TWO_31
    ensures var ((srcEntries, srcFile), tgtEntries) := (LargeDirectory(blocksLimit), DashZero());
            && Zips(Escaping(), srcEntries, srcFile, tgtEntries, [7])
            && BothRead(srcEntries, |srcFile|, tgtEntries, 1, blocksLimit * BLOCK_SIZE)
            && OverLimit(JobOf(Escaping(), srcEntries, srcFile, tgtEntries, [7], blocksLimit * BLOCK_SIZE))
  {
    hide Zips, SourceList, TargetChunks, LargeDirectory, EntriesEnd;
    OverLimitLists(blocksLimit);
    var ((srcEntries, srcFile), tgtEntries) := (LargeDirectory(blocksLimit), DashZero());
    var limit := blocksLimit * BLOCK_SIZE;
    ListsTile(Escaping(), srcEntries, srcFile, tgtEntries, [7], limit);
    var ts, ss := [NormalPart(0, 1, "-0")], [NormalPart(0, 1, "a"), NormalPart(1, limit + 1, "")];
    assert Process(Escaping(), ts, [7], ss, srcFile, 0) == (ts, ss);
    assert ts[0 := ts[0]] == ts;
    assert Process(Escaping(), ts, [7], ss, srcFile, 1) == (ts, ss);
    assert "a" + "-0" == "a-0" && "" + "-0" == "-0" && "-0" + "-0" == "-0-0";
    assert !Candidate(ss[0], "-0", true) && Candidate(ss[1], "-0", true);
    assert Find(ss, "-0", true) == Some(1);
  }
}
