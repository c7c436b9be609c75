/** The splitting loop: what it keeps from chunk to chunk, and what its pieces are good for. */
module ZipSplitRun {
  import opened Bytes
  import opened Codecs
  import opened ImageChunks
  import opened PatchMaking
  import opened ZipMode
  import opened RangeSets
  import opened ZipSplit

  /** A target and a source image after CheckAndProcessChunks, and the limit they were read with. */
  datatype Job = Job(lib: Library, ts: seq<ImageChunk>, tgtFile: seq<byte>,
                     ss: seq<ImageChunk>, srcFile: seq<byte>, limit: nat)

  ghost predicate Ready(job: Job) {
    && Tiles(job.ts, 0, |job.tgtFile|) && AllChecked(job.lib, job.ts, job.tgtFile)
    && job.tgtFile != [] && job.limit > 0
    && job.ss != [] && job.ss[|job.ss| - 1].kind == Normal
    && (forall k :: 0 <= k < |job.ss| ==> InFile(job.ss[k], job.srcFile) && job.ss[k].len > 0)
    && AllFaithful(job.lib, job.ss, job.srcFile)
  }

  /** Every source chunk that a target chunk finds by name is within the limit. */
  ghost predicate MatchesFit(job: Job, n: nat)
    requires n <= |job.ts|
  {
    forall k :: 0 <= k < n ==>
      var found := Find(job.ss, job.ts[k].name, true);
      found.Some? ==> job.ss[found.value].len <= job.limit
  }

  // ----- target pieces

  function PieceEnd(p: Piece): (n: nat)
    requires p.tgt != []
  {
    p.tgt[|p.tgt| - 1].start + p.tgt[|p.tgt| - 1].len
  }

  /** The pieces follow each other, each starting at a block boundary, from `from` to `to`. */
  ghost predicate Contiguous(ps: seq<Piece>, from: nat, to: nat) {
    if ps == [] then from == to
    else
      && ps[0].tgt != [] && from % BLOCK_SIZE == 0
      && Tiles(ps[0].tgt, from, PieceEnd(ps[0])) && Contiguous(ps[1..], PieceEnd(ps[0]), to)
  }

  lemma {:induction false} ContiguousSnoc(ps: seq<Piece>, p: Piece, from: nat, mid: nat, to: nat)
    requires Contiguous(ps, from, mid) && mid % BLOCK_SIZE == 0 && p.tgt != [] && Tiles(p.tgt, mid, to)
    ensures Contiguous(ps + [p], from, to)
  {
    hide Tiles;
    if ps == [] {
      TilesAt(p.tgt, |p.tgt| - 1, mid, to);
      assert (ps + [p])[1..] == [];
    } else {
      ContiguousSnoc(ps[1..], p, PieceEnd(ps[0]), mid, to);
      assert (ps + [p])[1..] == ps[1..] + [p];
    }
  }

  function StartOf(ts: seq<ImageChunk>, i: nat, size: nat): (n: nat) {
    if i < |ts| then ts[i].start else size
  }

  function ListStart(list: seq<ImageChunk>, end: nat): (n: nat) {
    if list == [] then end else list[0].start
  }

  /** The chunks collected so far end at target chunk `i`; the pieces reach the next block after their start. */
  ghost predicate Geometry(ts: seq<ImageChunk>, size: nat, i: nat, ps: seq<Piece>, list: seq<ImageChunk>) {
    var end := StartOf(ts, i, size);
    && i <= |ts| && Tiles(list, ListStart(list, end), end)
    && Contiguous(ps, 0, Min(size, RoundUp(ListStart(list, end))))
  }

  lemma GeometryCollects(ts: seq<ImageChunk>, size: nat, i: nat, ps: seq<Piece>, list: seq<ImageChunk>, c: ImageChunk)
    requires Geometry(ts, size, i, ps, list) && i < |ts| && Tiles(ts, 0, size)
    requires c.start == ts[i].start && c.len == ts[i].len
    ensures Geometry(ts, size, i + 1, ps, list + [c])
  {
    hide Contiguous;
    TilesAt(ts, i, 0, size);
    TilesSnoc(list, c, ListStart(list, ts[i].start));
  }

  lemma GeometryCloses(ts: seq<ImageChunk>, size: nat, i: nat, ps: seq<Piece>, list: seq<ImageChunk>,
                       added: Option<Piece>)
    requires Geometry(ts, size, i, ps, list) && Tiles(ts, 0, size)
    requires var end := StartOf(ts, i, size);
             var start := RoundUp(ListStart(list, end));
             && (added.None? <==> end <= start)
             && (added.Some? ==> start < size && added.value.tgt != [] &&
                                 Tiles(added.value.tgt, start, Min(size, RoundUp(end))))
    ensures Geometry(ts, size, i, Extended(ps, added), [])
  {
    hide Contiguous;
    var end := StartOf(ts, i, size);
    var start := ListStart(list, end);
    TilesGrows(list, start, end);
    if added.None? {
      RoundUpBetween(start, end);
    } else {
      ContiguousSnoc(ps, added.value, 0, RoundUp(start), Min(size, RoundUp(end)));
    }
  }

  function Extended(ps: seq<Piece>, added: Option<Piece>): (r: seq<Piece>) {
    if added.Some? then ps + [added.value] else ps
  }

  // ----- source blocks

  ghost predicate UsedBy(ps: seq<Piece>, b: nat) {
    exists k :: 0 <= k < |ps| && Covers(ps[k].ranges, b)
  }

  ghost predicate Exclusive(ps: seq<Piece>) {
    forall i, j, b :: 0 <= i < j < |ps| ==> !(Covers(ps[i].ranges, b) && Covers(ps[j].ranges, b))
  }

  /** Used blocks are those of the pieces and of the central directory; nothing is used twice. */
  ghost predicate Blocks(cd: Range, ps: seq<Piece>, used: seq<Range>, ranges: seq<Range>) {
    && Separated(used) && Separated(ranges) && Exclusive(ps)
    && (forall b :: Covers(used, b) <==> InRange(cd, b) || UsedBy(ps, b))
    && (forall b :: InRange(cd, b) ==> !UsedBy(ps, b))
    && (forall b :: Covers(ranges, b) ==> !Covers(used, b))
  }

  lemma NothingCovered(b: nat)
    ensures !Covers([], b)
  {}

  lemma UsedBySnoc(ps: seq<Piece>, p: Piece, b: nat)
    ensures UsedBy(ps + [p], b) <==> UsedBy(ps, b) || Covers(p.ranges, b)
  {
    hide Covers;
    if UsedBy(ps, b) {
      var k :| 0 <= k < |ps| && Covers(ps[k].ranges, b);
      assert Covers((ps + [p])[k].ranges, b);
    }
    if Covers(p.ranges, b) { assert Covers((ps + [p])[|ps|].ranges, b); }
  }

  lemma BlocksInsert(cd: Range, ps: seq<Piece>, used: seq<Range>, ranges: seq<Range>, r: Range)
    requires Blocks(cd, ps, used, ranges) && r.first < r.second && !Overlapping(used, [r])
    ensures Blocks(cd, ps, used, Union(ranges, [r]))
  {
    hide Covers, Union, Separated, UsedBy, Exclusive;
    UnionCovers(ranges, [r]);
    forall b | Covers(Union(ranges, [r]), b) ensures !Covers(used, b) {}
  }

  lemma ExclusiveSnoc(ps: seq<Piece>, p: Piece)
    requires Exclusive(ps) && forall b :: Covers(p.ranges, b) ==> !UsedBy(ps, b)
    ensures Exclusive(ps + [p])
  {
    hide Covers;
    var qs := ps + [p];
    forall i, j, b | 0 <= i < j < |qs| && Covers(qs[i].ranges, b) ensures !Covers(qs[j].ranges, b) {
      assert UsedBy(ps, b) by { assert Covers(ps[i].ranges, b); }
    }
  }

  lemma BlocksClose(cd: Range, ps: seq<Piece>, used: seq<Range>, ranges: seq<Range>, p: Piece)
    requires Blocks(cd, ps, used, ranges) && p.ranges == ranges
    ensures Blocks(cd, ps + [p], Union(used, ranges), [])
  {
    hide Covers, Union, UsedBy, Exclusive;
    assert forall b :: Covers(ranges, b) ==> !UsedBy(ps, b);
    ExclusiveSnoc(ps, p);
    UnionCovers(used, ranges);
    forall b ensures UsedBy(ps + [p], b) <==> UsedBy(ps, b) || Covers(ranges, b) { UsedBySnoc(ps, p, b); }
    forall b ensures !Covers([], b) { NothingCovered(b); }
  }

  lemma BlocksForget(cd: Range, ps: seq<Piece>, used: seq<Range>, ranges: seq<Range>)
    requires Blocks(cd, ps, used, ranges)
    ensures Blocks(cd, ps, used, [])
  {
    hide Covers, UsedBy, Exclusive;
    forall b ensures !Covers([], b) { NothingCovered(b); }
  }

  lemma BlocksStart(cd: Range)
    requires cd.first < cd.second
    ensures Blocks(cd, [], Union([], [cd]), [])
  {
    hide Covers, Union, Separated;
    assert Separated([]) && NonEmpty([cd]) by { EmptySeparated(cd); }
    UnionCovers([], [cd]);
    forall b ensures !Covers([], b) && (Covers([cd], b) <==> InRange(cd, b)) { NothingCovered(b); CoversOne(cd, b); }
  }

  lemma EmptySeparated(r: Range)
    requires r.first < r.second
    ensures Separated([]) && NonEmpty([r])
  {}

  /** The last piece takes the central directory, which no other piece uses. */
  lemma LastPieceIsExclusive(cd: Range, ps: seq<Piece>, used: seq<Range>, ranges: seq<Range>, p: Piece)
    requires Blocks(cd, ps, used, ranges) && cd.first < cd.second && p.ranges == Union(ranges, [cd])
    ensures Exclusive(ps + [p])
    ensures Separated(p.ranges)
  {
    hide Covers, Union, UsedBy, Exclusive;
    assert NonEmpty([cd]) by { EmptySeparated(cd); }
    UnionCovers(ranges, [cd]);
    forall b | Covers(p.ranges, b) ensures !UsedBy(ps, b) { CoversOne(cd, b); }
    ExclusiveSnoc(ps, p);
  }

  // ----- what is kept for a piece

  /** A chunk of the source whose blocks all belong to the ranges. */
  ghost predicate Held(job: Job, ranges: seq<Range>, c: ImageChunk) {
    && InFile(c, job.srcFile) && c.len > 0 && Faithful(job.lib, c, job.srcFile)
    && CoversAll(ranges, c.start, c.len)
  }

  ghost predicate AllHeld(job: Job, ranges: seq<Range>, src: seq<ImageChunk>) {
    forall k :: 0 <= k < |src| ==> Held(job, ranges, src[k])
  }

  ghost predicate AllServed(job: Job, src: seq<ImageChunk>, tgt: seq<ImageChunk>) {
    forall k :: 0 <= k < |tgt| ==>
      Checked(job.lib, tgt[k], job.tgtFile) && (tgt[k].kind == Deflate ==> HasSource(src, tgt[k].name))
  }

  ghost predicate Good(job: Job, p: Piece) {
    && Separated(p.ranges) && WithinFile(p.ranges, |job.srcFile|)
    && (forall i :: 0 <= i < |p.ranges| ==> Readable(p.ranges[i], |job.srcFile|))
    && p.content == Gather(p.ranges, job.srcFile) && p.content != []
    && NothingToMerge(p.tgt) && AllHeld(job, p.ranges, p.src) && AllServed(job, p.src, p.tgt)
  }

  ghost predicate AllGood(job: Job, ps: seq<Piece>) {
    forall k :: 0 <= k < |ps| ==> Good(job, ps[k])
  }

  lemma HeldGrows(job: Job, ranges: seq<Range>, src: seq<ImageChunk>, r: Range)
    requires AllHeld(job, ranges, src) && Separated(ranges) && r.first < r.second
    ensures AllHeld(job, Union(ranges, [r]), src)
  {
    hide Covers, Union, Separated, Faithful, Occupied;
    UnionCovers(ranges, [r]);
    forall k | 0 <= k < |src| ensures Held(job, Union(ranges, [r]), src[k]) {
      assert Held(job, ranges, src[k]);
    }
  }

  lemma InsertedIsHeld(job: Job, ranges: seq<Range>, c: ImageChunk)
    requires Separated(ranges) && InFile(c, job.srcFile) && c.len > 0 && Faithful(job.lib, c, job.srcFile)
    ensures Held(job, Union(ranges, [Occupied(c.start, c.len)]), c)
  {
    hide Covers, Union, Separated, Faithful;
    var r := Occupied(c.start, c.len);
    UnionCovers(ranges, [r]);
    forall b | InRange(r, b) ensures Covers(Union(ranges, [r]), b) { CoversOne(r, b); }
  }

  lemma HasSourceGrows(src: seq<ImageChunk>, c: ImageChunk, name: string)
    requires HasSource(src, name)
    ensures HasSource(src + [c], name)
  {
    var k :| 0 <= k < |src| && Candidate(src[k], name, false);
    assert Candidate((src + [c])[k], name, false);
  }

  lemma ServedGrows(job: Job, src: seq<ImageChunk>, tgt: seq<ImageChunk>, c: ImageChunk)
    requires AllServed(job, src, tgt)
    ensures AllServed(job, src + [c], tgt)
  {
    hide Checked, HasSource;
    forall k | 0 <= k < |tgt| && tgt[k].kind == Deflate ensures HasSource(src + [c], tgt[k].name) {
      HasSourceGrows(src, c, tgt[k].name);
    }
  }

  /** A block in the union of ranges that fit in the file fits in the file. */
  lemma UnionWithinFile(ranges: seq<Range>, r: Range, size: nat)
    requires Separated(ranges) && WithinFile(ranges, size) && r.first < r.second && WithinFile([r], size)
    ensures WithinFile(Union(ranges, [r]), size)
  {
    hide Union, Covers;
    UnionCovers(ranges, [r]);
    var all := Union(ranges, [r]);
    forall i | 0 <= i < |all| ensures (all[i].second - 1) * BLOCK_SIZE < size {
      assert all[i].first < all[i].second;
      var b := all[i].second - 1;
      CoveredBlock(all, i, b);
      FittingBlock(ranges, b, size);
      FittingBlock([r], b, size);
    }
  }

  lemma CoveredBlock(rs: seq<Range>, i: nat, b: nat)
    requires i < |rs| && InRange(rs[i], b)
    ensures Covers(rs, b)
  {}

  lemma FittingBlock(rs: seq<Range>, b: nat, size: nat)
    requires WithinFile(rs, size)
    ensures Covers(rs, b) ==> b * BLOCK_SIZE < size
  {
    if i :| 0 <= i < |rs| && InRange(rs[i], b) {
      assert b * BLOCK_SIZE <= (rs[i].second - 1) * BLOCK_SIZE;
    }
  }

  lemma OccupiedWithin(start: nat, len: nat, size: nat)
    requires len > 0 && start + len <= size
    ensures WithinFile([Occupied(start, len)], size)
  {
    var b := (start + len - 1) / BLOCK_SIZE;
    assert b * BLOCK_SIZE <= start + len - 1;
  }

  /** Blocks of a source piece, other than those of the central directory. */
  function MaxBlocks(limit: nat): (n: nat)
    requires limit > 0
  {
    (limit - 1) / BLOCK_SIZE + 2
  }

  lemma InsertWithinMax(ranges: seq<Range>, start: nat, len: nat, limit: nat)
    requires Separated(ranges) && len > 0 && limit > 0
    requires Total(ranges) * BLOCK_SIZE + len <= limit
    ensures Total(Union(ranges, [Occupied(start, len)])) <= MaxBlocks(limit)
  {
    hide Union, Separated;
    var r := Occupied(start, len);
    UnionCovers(ranges, [r]);
    assert [r][1..] == [];
    assert Total([r]) == r.second - r.first;
    var n := Total(ranges);
    assert r.second - r.first <= (len - 1) / BLOCK_SIZE + 2;
    assert n + (len - 1) / BLOCK_SIZE == (n * BLOCK_SIZE + len - 1) / BLOCK_SIZE;
  }

  // ----- the loop

  function Directory(job: Job): (r: Range)
    requires job.ss != [] && job.ss[|job.ss| - 1].len > 0
    ensures r.first < r.second
  {
    Occupied(job.ss[|job.ss| - 1].start, job.ss[|job.ss| - 1].len)
  }

  ghost predicate Collected(job: Job, ranges: seq<Range>, src: seq<ImageChunk>, tgt: seq<ImageChunk>) {
    && Separated(ranges) && WithinFile(ranges, |job.srcFile|)
    && AllHeld(job, ranges, src) && AllServed(job, src, tgt)
    && (ranges != [] ==> tgt != [])
    && job.limit > 0 && Total(ranges) <= MaxBlocks(job.limit)
  }

  /** Every finished piece keeps to the limit, up to the two blocks at its ragged ends. */
  ghost predicate AllSized(job: Job, ps: seq<Piece>) {
    job.limit > 0 && forall k :: 0 <= k < |ps| ==> Total(ps[k].ranges) <= MaxBlocks(job.limit)
  }

  lemma CollectsNormal(job: Job, ranges: seq<Range>, src: seq<ImageChunk>, tgt: seq<ImageChunk>, c: ImageChunk)
    requires Collected(job, ranges, src, tgt) && c.kind == Normal
    ensures Collected(job, ranges, src, tgt + [c])
  {
    hide Separated, AllHeld, HasSource;
    NormalIsChecked(job.lib, c, job.tgtFile);
  }

  lemma CollectsRange(job: Job, ranges: seq<Range>, src: seq<ImageChunk>, tgt: seq<ImageChunk>,
                      start: nat, len: nat, c: ImageChunk)
    requires Collected(job, ranges, src, tgt) && len > 0 && start + len <= |job.srcFile|
    requires Total(ranges) * BLOCK_SIZE + len <= job.limit && c.kind == Normal
    ensures Collected(job, Union(ranges, [Occupied(start, len)]), src, tgt + [c])
  {
    hide AllServed, AllHeld, Total, MaxBlocks, WithinFile, Union;
    var r := Occupied(start, len);
    OccupiedWithin(start, len, |job.srcFile|);
    UnionCovers(ranges, [r]);
    UnionWithinFile(ranges, r, |job.srcFile|);
    HeldGrows(job, ranges, src, r);
    InsertWithinMax(ranges, start, len, job.limit);
    CollectsServed(job, src, tgt, c);
  }

  lemma CollectsServed(job: Job, src: seq<ImageChunk>, tgt: seq<ImageChunk>, c: ImageChunk)
    requires AllServed(job, src, tgt)
    requires Checked(job.lib, c, job.tgtFile) || c.kind == Normal
    requires c.kind == Deflate ==> HasSource(src, c.name)
    ensures AllServed(job, src, tgt + [c])
  {
    hide HasSource;
    if c.kind == Normal { NormalIsChecked(job.lib, c, job.tgtFile); }
  }

  lemma CollectsDeflate(job: Job, ranges: seq<Range>, src: seq<ImageChunk>, tgt: seq<ImageChunk>,
                        s: ImageChunk, t: ImageChunk)
    requires Collected(job, ranges, src, tgt) && s.len > 0 && InFile(s, job.srcFile)
    requires Total(ranges) * BLOCK_SIZE + s.len <= job.limit
    requires Faithful(job.lib, s, job.srcFile) && Checked(job.lib, t, job.tgtFile)
    requires s.kind == Deflate && Candidate(s, t.name, true)
    ensures Collected(job, Union(ranges, [Occupied(s.start, s.len)]), src + [s], tgt + [t])
  {
    hide AllServed, Total, MaxBlocks, WithinFile, Union, Held, Checked, Faithful, HasSource;
    var r := Occupied(s.start, s.len);
    OccupiedWithin(s.start, s.len, |job.srcFile|);
    UnionCovers(ranges, [r]);
    UnionWithinFile(ranges, r, |job.srcFile|);
    HeldGrows(job, ranges, src, r);
    InsertedIsHeld(job, ranges, s);
    InsertWithinMax(ranges, s.start, s.len, job.limit);
    ServedGrows(job, src, tgt, s);
    assert HasSource(src + [s], t.name) by { SourceIsThere(src, s, t.name); }
    CollectsServed(job, src + [s], tgt, t);
  }

  lemma SourceIsThere(src: seq<ImageChunk>, s: ImageChunk, name: string)
    requires s.kind == Deflate && Candidate(s, name, true)
    ensures HasSource(src + [s], name)
  {
    assert Candidate((src + [s])[|src|], name, false);
  }

  lemma NothingCollected(job: Job)
    requires job.limit > 0
    ensures Collected(job, [], [], [])
  {}

  /** The directory's blocks join the last ranges. */
  lemma DirectoryIsHeld(job: Job, ranges: seq<Range>, src: seq<ImageChunk>, tgt: seq<ImageChunk>)
    requires Ready(job) && Collected(job, ranges, src, tgt)
    ensures var all := Union(ranges, [Directory(job)]);
            all != [] && Separated(all) && WithinFile(all, |job.srcFile|) && AllHeld(job, all, src)
  {
    hide AllServed, AllHeld, Total, MaxBlocks, WithinFile, Union, AllChecked, AllFaithful;
    var cd := job.ss[|job.ss| - 1];
    assert InFile(cd, job.srcFile) && cd.len > 0;
    OccupiedWithin(cd.start, cd.len, |job.srcFile|);
    UnionCovers(ranges, [Directory(job)]);
    UnionWithinFile(ranges, Directory(job), |job.srcFile|);
    HeldGrows(job, ranges, src, Directory(job));
    assert Covers([Directory(job)], Directory(job).first) by { CoversOne(Directory(job), Directory(job).first); }
    assert Covers(Union(ranges, [Directory(job)]), Directory(job).first);
  }

  /** What AddSplitImageFromChunkList adds is good for its source chunks. */
  lemma AddedIsGood(job: Job, ranges: seq<Range>, src: seq<ImageChunk>, tgt: seq<ImageChunk>, p: Piece)
    requires Separated(ranges) && WithinFile(ranges, |job.srcFile|)
    requires AllHeld(job, ranges, src) && AllServed(job, src, tgt)
    requires p.src == src && p.ranges == ranges && NothingToMerge(p.tgt)
    requires forall i :: 0 <= i < |ranges| ==> Readable(ranges[i], |job.srcFile|)
    requires p.content == Gather(ranges, job.srcFile) && p.content != []
    requires forall c :: c in p.tgt && c.kind == Deflate ==> c in tgt
    ensures Good(job, p)
  {
    hide AllHeld, Gather, Separated, WithinFile, Readable, Checked, HasSource;
    forall k | 0 <= k < |p.tgt|
      ensures Checked(job.lib, p.tgt[k], job.tgtFile) && (p.tgt[k].kind == Deflate ==> HasSource(src, p.tgt[k].name))
    {
      if p.tgt[k].kind == Normal {
        NormalIsChecked(job.lib, p.tgt[k], job.tgtFile);
      } else {
        assert p.tgt[k] in tgt;
      }
    }
  }

  ghost predicate State(job: Job, i: nat, ps: seq<Piece>, used: seq<Range>, ranges: seq<Range>,
                        src: seq<ImageChunk>, tgt: seq<ImageChunk>)
    requires Ready(job)
  {
    && Geometry(job.ts, |job.tgtFile|, i, ps, tgt) && MatchesFit(job, i)
    && Blocks(Directory(job), ps, used, ranges) && Collected(job, ranges, src, tgt)
    && AllGood(job, ps) && AllSized(job, ps)
  }

  // ----- the loop as a function

  /** The pieces so far and their blocks, and what is collected for the next one. */
  datatype Progress = Progress(ps: seq<Piece>, used: seq<Range>, ranges: seq<Range>,
                               src: seq<ImageChunk>, tgt: seq<ImageChunk>)

  /** Close the current piece: it is added, with its blocks used up, unless no block boundary is left in it. */
  ghost function Closed(job: Job, s: Progress): (r: Progress) {
    var added := PieceOf(job.tgtFile, job.srcFile, s.ranges, s.tgt, s.src);
    Progress(Extended(s.ps, added), if added.Some? then Union(s.used, s.ranges) else s.used, [], [], [])
  }

  /** A target chunk that is patched against the whole source of its piece. */
  function Plainly(s: Progress, t: ImageChunk): (r: Progress) {
    s.(tgt := s.tgt + [NormalPart(t.start, t.len, "")])
  }

  /** A target chunk whose source, or what is unused of it, joins the piece; it is kept as it is for a whole source. */
  function Taking(s: Progress, t: ImageChunk, c: ImageChunk, start: nat, len: nat): (r: Progress)
    requires len > 0
  {
    var s' := s.(ranges := Union(s.ranges, [Occupied(start, len)]));
    if c.kind == Deflate && len == c.len then s'.(src := s.src + [c], tgt := s.tgt + [t]) else Plainly(s', t)
  }

  /** The pieces from target chunk `i` on, or None when one of the CHECKs on a source chunk fails. */
  ghost function SplitFrom(job: Job, i: nat, s: Progress): (r: Option<Progress>)
    decreases |job.ts| - i, |s.ranges|
  {
    if i >= |job.ts| then Some(s)
    else
      var (t, found) := (job.ts[i], Find(job.ss, job.ts[i].name, true));
      if found.None? then SplitFrom(job, i + 1, Plainly(s, t))
      else
        var c := job.ss[found.value];
        if c.len == 0 || c.len > job.limit then None
        else match UnusedPart(c.start, c.len, s.used)
          case None => SplitFrom(job, i + 1, Plainly(s, t))
          case Some((start, len)) =>
            if Total(s.ranges) * BLOCK_SIZE + len <= job.limit then
              SplitFrom(job, i + 1, Taking(s, t, c, start, len))
            else SplitFrom(job, i, Closed(job, s))
  }

  /** The turns of the loop in which no source chunk is placed. */
  lemma SplitTurns(job: Job, i: nat, s: Progress)
    ensures i >= |job.ts| ==> SplitFrom(job, i, s) == Some(s)
    ensures i < |job.ts| ==>
              var found := Find(job.ss, job.ts[i].name, true);
              if found.None? then SplitFrom(job, i, s) == SplitFrom(job, i + 1, Plainly(s, job.ts[i]))
              else job.ss[found.value].len > job.limit ==> SplitFrom(job, i, s).None?
  {
    hide Find, UnusedPart, Closed, Union, Total;
  }

  ghost function StartProgress(job: Job): (s: Progress)
    requires job.ss != [] && job.ss[|job.ss| - 1].len > 0
  {
    Progress([], Union([], [Directory(job)]), [], [], [])
  }

  /** All pieces of the target; the last one gets the central directory. */
  ghost function SplitOf(job: Job): (r: Option<seq<Piece>>)
    requires job.ss != [] && job.ss[|job.ss| - 1].len > 0
  {
    match SplitFrom(job, 0, StartProgress(job))
    case None => None
    case Some(s) =>
      Some(Extended(s.ps, PieceOf(job.tgtFile, job.srcFile, Union(s.ranges, [Directory(job)]), s.tgt, s.src)))
  }

  /** A source for the piece, no longer than the limit and apart from everything used before. */
  method ClosePiece(job: Job, ghost i: nat, ps: seq<Piece>, used: SortedRangeSet, ranges: SortedRangeSet,
                    src: seq<ImageChunk>, tgt: seq<ImageChunk>) returns (ps': seq<Piece>)
    requires Ready(job) && used != ranges && used.Valid() && ranges.Valid()
    requires State(job, i, ps, used.ranges, ranges.ranges, src, tgt) && ranges.ranges != []
    modifies used, ranges
    ensures used.Valid() && ranges.Valid() && ranges.ranges == []
    ensures State(job, i, ps', used.ranges, [], [], [])
    ensures Progress(ps', used.ranges, [], [], []) ==
            Closed(job, Progress(ps, old(used.ranges), old(ranges.ranges), src, tgt))
  {
    hide Tiles, Union, Contiguous, AllServed, AllHeld, Gather, Checked, AllChecked, AllFaithful, Good, Total, MaxBlocks,
      WithinFile, Min, PieceOf;
    ghost var end := StartOf(job.ts, i, |job.tgtFile|);
    ghost var before := used.ranges;
    assert end <= |job.tgtFile| by { if i < |job.ts| { TilesAt(job.ts, i, 0, |job.tgtFile|); } }
    var added := AddSplitImageFromChunkList(job.tgtFile, job.srcFile, ranges.ranges, tgt, src, tgt[0].start, end);
    GeometryCloses(job.ts, |job.tgtFile|, i, ps, tgt, added);
    ps' := ps;
    BlocksForget(Directory(job), ps, used.ranges, ranges.ranges);
    NothingCollected(job);
    if added.Some? {
      BlocksClose(Directory(job), ps, used.ranges, ranges.ranges, added.value);
      AddedIsGood(job, ranges.ranges, src, tgt, added.value);
      used.InsertRanges(ranges.ranges);
      ps' := ps + [added.value];
    }
    ranges.Clear();
  }

  lemma StartState(job: Job)
    requires Ready(job)
    ensures State(job, 0, [], Union([], [Directory(job)]), [], [], [])
  {
    hide AllChecked, AllFaithful, Union;
    BlocksStart(Directory(job));
    NothingCollected(job);
    assert StartOf(job.ts, 0, |job.tgtFile|) == 0;
  }

  lemma StateSkips(job: Job, i: nat, ps: seq<Piece>, used: seq<Range>, ranges: seq<Range>,
                   src: seq<ImageChunk>, tgt: seq<ImageChunk>)
    requires Ready(job) && State(job, i, ps, used, ranges, src, tgt) && i < |job.ts|
    requires MatchesFit(job, i + 1)
    ensures State(job, i + 1, ps, used, ranges, src, tgt + [NormalPart(job.ts[i].start, job.ts[i].len, "")])
  {
    hide Blocks, Collected, AllGood, AllSized, AllChecked, AllFaithful, Geometry, MatchesFit;
    var c := NormalPart(job.ts[i].start, job.ts[i].len, "");
    GeometryCollects(job.ts, |job.tgtFile|, i, ps, tgt, c);
    CollectsNormal(job, ranges, src, tgt, c);
  }

  lemma StateTakesRange(job: Job, i: nat, ps: seq<Piece>, used: seq<Range>, ranges: seq<Range>,
                        src: seq<ImageChunk>, tgt: seq<ImageChunk>, start: nat, len: nat)
    requires Ready(job) && State(job, i, ps, used, ranges, src, tgt) && i < |job.ts|
    requires MatchesFit(job, i + 1) && len > 0 && start + len <= |job.srcFile|
    requires Total(ranges) * BLOCK_SIZE + len <= job.limit && !Overlapping(used, [Occupied(start, len)])
    ensures State(job, i + 1, ps, used, Union(ranges, [Occupied(start, len)]), src,
                  tgt + [NormalPart(job.ts[i].start, job.ts[i].len, "")])
  {
    hide Blocks, Collected, AllGood, AllSized, AllChecked, AllFaithful, Geometry, MatchesFit, Union, Overlapping;
    var c := NormalPart(job.ts[i].start, job.ts[i].len, "");
    GeometryCollects(job.ts, |job.tgtFile|, i, ps, tgt, c);
    CollectsRange(job, ranges, src, tgt, start, len, c);
    BlocksInsert(Directory(job), ps, used, ranges, Occupied(start, len));
  }

  lemma StateTakesDeflate(job: Job, i: nat, ps: seq<Piece>, used: seq<Range>, ranges: seq<Range>,
                          src: seq<ImageChunk>, tgt: seq<ImageChunk>, s: ImageChunk)
    requires Ready(job) && State(job, i, ps, used, ranges, src, tgt) && i < |job.ts|
    requires MatchesFit(job, i + 1) && s in job.ss && s.kind == Deflate && Candidate(s, job.ts[i].name, true)
    requires s.len > 0 && Total(ranges) * BLOCK_SIZE + s.len <= job.limit
    requires !Overlapping(used, [Occupied(s.start, s.len)])
    ensures State(job, i + 1, ps, used, Union(ranges, [Occupied(s.start, s.len)]), src + [s], tgt + [job.ts[i]])
  {
    hide Blocks, Collected, AllGood, AllSized, Geometry, MatchesFit, Union, Overlapping, Faithful, Checked, Candidate;
    GeometryCollects(job.ts, |job.tgtFile|, i, ps, tgt, job.ts[i]);
    assert Checked(job.lib, job.ts[i], job.tgtFile);
    CollectsDeflate(job, ranges, src, tgt, s, job.ts[i]);
    BlocksInsert(Directory(job), ps, used, ranges, Occupied(s.start, s.len));
  }

  /** What splitting promises: pieces that tile the target, disjoint sources, and the limit. */
  ghost predicate Split(job: Job, ps: seq<Piece>) {
    && Contiguous(ps, 0, |job.tgtFile|) && Exclusive(ps) && AllGood(job, ps)
    && ps != [] && AllSized(job, ps[..|ps| - 1]) && DirectoryReserved(job, ps[..|ps| - 1])
  }

  /** The blocks of the central directory are left to the last piece. */
  ghost predicate DirectoryReserved(job: Job, ps: seq<Piece>) {
    && job.ss != [] && job.ss[|job.ss| - 1].len > 0
    && forall b :: InRange(Directory(job), b) ==> !UsedBy(ps, b)
  }

  lemma UsedByFewer(ps: seq<Piece>, n: nat, b: nat)
    requires n <= |ps| && UsedBy(ps[..n], b)
    ensures UsedBy(ps, b)
  {
    var k :| 0 <= k < n && Covers(ps[..n][k].ranges, b);
    assert Covers(ps[k].ranges, b);
  }

  lemma SplitFinishes(job: Job, ps: seq<Piece>, used: seq<Range>, ranges: seq<Range>,
                      src: seq<ImageChunk>, tgt: seq<ImageChunk>, added: Option<Piece>)
    requires Ready(job) && State(job, |job.ts|, ps, used, ranges, src, tgt)
    requires added.Some? ==> added.value.ranges == Union(ranges, [Directory(job)]) && Good(job, added.value)
    requires Geometry(job.ts, |job.tgtFile|, |job.ts|, Extended(ps, added), [])
    ensures Split(job, Extended(ps, added))
  {
    hide Union, Good, Total, MaxBlocks, AllChecked, AllFaithful, Collected, Exclusive, Tiles, UsedBy, Directory;
    if added.Some? {
      LastPieceIsExclusive(Directory(job), ps, used, ranges, added.value);
      assert Extended(ps, added)[..|ps|] == ps;
    } else {
      forall b | InRange(Directory(job), b) ensures !UsedBy(ps[..|ps| - 1], b) {
        if UsedBy(ps[..|ps| - 1], b) { UsedByFewer(ps, |ps| - 1, b); }
      }
    }
  }

  /** One source chunk: its blocks go to the current piece, or close it; `next` says the target advances. */
  method PlaceSource(job: Job, i: nat, ps: seq<Piece>, used: SortedRangeSet, ranges: SortedRangeSet,
                     src: seq<ImageChunk>, tgt: seq<ImageChunk>, s: ImageChunk)
    returns (next: bool, ps': seq<Piece>, src': seq<ImageChunk>, tgt': seq<ImageChunk>)
    requires Ready(job) && used != ranges && used.Valid() && ranges.Valid()
    requires State(job, i, ps, used.ranges, ranges.ranges, src, tgt) && i < |job.ts| && MatchesFit(job, i + 1)
    requires Find(job.ss, job.ts[i].name, true).Some? && s == job.ss[Find(job.ss, job.ts[i].name, true).value]
    requires s.len <= job.limit
    modifies used, ranges
    ensures used.Valid() && ranges.Valid()
    ensures State(job, if next then i + 1 else i, ps', used.ranges, ranges.ranges, src', tgt')
    ensures if next then tgt' != [] else old(ranges.ranges) != [] && ranges.ranges == []
    ensures SplitFrom(job, i, Progress(ps, old(used.ranges), old(ranges.ranges), src, tgt)) ==
            SplitFrom(job, if next then i + 1 else i, Progress(ps', used.ranges, ranges.ranges, src', tgt'))
  {
    hide State, Ready, MatchesFit, Union, Candidate, Overlapping, Geometry, Find, UnusedPart, Closed;
    ghost var s0 := Progress(ps, used.ranges, ranges.ranges, src, tgt);
    ps', src', tgt' := ps, src, tgt;
    var t := job.ts[i];
    FoundIsCandidate(job.ss, t.name, true);
    assert s.len > 0 && InFile(s, job.srcFile) by { SourceChunkFits(job, Find(job.ss, t.name, true).value); }
    var ok, start, len := RemoveUsedBlocks(s.start, s.len, used);
    if !ok {
      StateSkips(job, i, ps, used.ranges, ranges.ranges, src, tgt);
      tgt' := tgt + [NormalPart(t.start, t.len, "")];
      return true, ps', src', tgt';
    } else if ranges.blocks * BLOCK_SIZE + len <= job.limit {
      if s.kind == Deflate && len == s.len {
        StateTakesDeflate(job, i, ps, used.ranges, ranges.ranges, src, tgt, s);
        src', tgt' := src + [s], tgt + [t];
      } else {
        StateTakesRange(job, i, ps, used.ranges, ranges.ranges, src, tgt, start, len);
        tgt' := tgt + [NormalPart(t.start, t.len, "")];
      }
      ranges.Insert(start, len);
      return true, ps', src', tgt';
    } else {
      assert ranges.ranges != [];
      ps' := ClosePiece(job, i, ps, used, ranges, src, tgt);
      return false, ps', [], [];
    }
  }

  lemma SourceChunkFits(job: Job, k: nat)
    requires Ready(job) && k < |job.ss|
    ensures job.ss[k].len > 0 && InFile(job.ss[k], job.srcFile)
  {}

  lemma FitsOneMore(job: Job, i: nat)
    requires i < |job.ts| && MatchesFit(job, i)
    requires var found := Find(job.ss, job.ts[i].name, true); found.Some? ==> job.ss[found.value].len <= job.limit
    ensures MatchesFit(job, i + 1)
  {
    hide Find;
  }

  lemma StateFits(job: Job, i: nat, ps: seq<Piece>, used: seq<Range>, ranges: seq<Range>,
                  src: seq<ImageChunk>, tgt: seq<ImageChunk>)
    requires Ready(job) && State(job, i, ps, used, ranges, src, tgt)
    ensures i <= |job.ts| && MatchesFit(job, i)
  {
    hide MatchesFit, Blocks, Collected, AllGood, AllSized;
  }

  // ----- validation

  /** The chunks of one piece follow each other from `from`; the result is where they end. */
  method CheckContinuous(cs: seq<ImageChunk>, from: nat) returns (ok: bool, end: nat)
    requires cs != []
    ensures ok <==> Tiles(cs, from, cs[|cs| - 1].start + cs[|cs| - 1].len)
    ensures ok ==> end == cs[|cs| - 1].start + cs[|cs| - 1].len
  {
    end := from;
    assert cs[..0] == [];
    for k := 0 to |cs|
      invariant Tiles(cs[..k], from, end)
    {
      if cs[k].start != end {
        ghost var to := cs[|cs| - 1].start + cs[|cs| - 1].len;
        if Tiles(cs, from, to) { NotATiling(cs, k, from, end, to); }
        return false, end;
      }
      TilesSnoc(cs[..k], cs[k], from);
      assert cs[..k] + [cs[k]] == cs[..k + 1];
      end := end + cs[k].len;
    }
    assert cs[..|cs|] == cs;
    SameEnd(cs, from, end);
    return true, end;
  }

  lemma {:induction false} NotATiling(cs: seq<ImageChunk>, k: nat, from: nat, mid: nat, to: nat)
    requires k < |cs| && Tiles(cs[..k], from, mid) && Tiles(cs, from, to)
    ensures cs[k].start == mid
  {
    if k > 0 {
      assert cs[..k][1..] == cs[1..][..k - 1];
      NotATiling(cs[1..], k - 1, from + cs[0].len, mid, to);
    }
  }

  lemma SameEnd(cs: seq<ImageChunk>, from: nat, to: nat)
    requires Tiles(cs, from, to) && cs != []
    ensures to == cs[|cs| - 1].start + cs[|cs| - 1].len
  {
    TilesAt(cs, |cs| - 1, from, to);
  }

  /** The target half of ValidateSplitImages. */
  method CheckTargets(ps: seq<Piece>, total: nat) returns (ok: bool)
    ensures ok <==> Contiguous(ps, 0, total)
  {
    hide Tiles;
    var last: nat := 0;
    assert ps[0..] == ps;
    for k := 0 to |ps|
      invariant Contiguous(ps, 0, total) <==> Contiguous(ps[k..], last, total)
    {
      var p := ps[k];
      assert ps[k..][0] == p && ps[k..][1..] == ps[k + 1..];
      if p.tgt == [] || last % BLOCK_SIZE != 0 {
        return false;
      }
      var fine, end := CheckContinuous(p.tgt, last);
      if !fine {
        return false;
      }
      last := end;
    }
    assert ps[|ps|..] == [];
    return total == last;
  }

  /** The source half: no block is used twice. */
  method CheckSources(ps: seq<Piece>) returns (ok: bool)
    requires forall k :: 0 <= k < |ps| ==> NonEmpty(ps[k].ranges)
    ensures ok <==> Exclusive(ps)
  {
    hide Covers, Union, Separated;
    var used := new SortedRangeSet();
    forall b ensures !Covers([], b) { NothingCovered(b); }
    for k := 0 to |ps|
      invariant used.Valid() && fresh(used)
      invariant Exclusive(ps[..k])
      invariant forall b :: Covers(used.ranges, b) <==> UsedBy(ps[..k], b)
    {
      var overlaps := used.OverlapsRanges(ps[k].ranges);
      assert ps[..k + 1] == ps[..k] + [ps[k]];
      if overlaps {
        TwiceUsed(ps, k, used.ranges);
        return false;
      }
      ExclusiveSnoc(ps[..k], ps[k]);
      forall b ensures UsedBy(ps[..k + 1], b) <==> UsedBy(ps[..k], b) || Covers(ps[k].ranges, b) {
        UsedBySnoc(ps[..k], ps[k], b);
      }
      assert Separated(used.ranges);
      UnionCovers(used.ranges, ps[k].ranges);
      used.InsertRanges(ps[k].ranges);
    }
    assert ps[..|ps|] == ps;
    return true;
  }

  lemma TwiceUsed(ps: seq<Piece>, k: nat, used: seq<Range>)
    requires k < |ps| && Overlapping(used, ps[k].ranges)
    requires forall b :: Covers(used, b) <==> UsedBy(ps[..k], b)
    ensures !Exclusive(ps)
  {
    hide Covers;
    var b :| Covers(used, b) && Covers(ps[k].ranges, b);
    assert UsedBy(ps[..k], b);
    var j :| 0 <= j < k && Covers(ps[..k][j].ranges, b);
    assert Covers(ps[j].ranges, b) && Covers(ps[k].ranges, b);
  }

  /** ValidateSplitImages: none of its CHECKs fails exactly when the split is sound. */
  method ValidateSplitImages(ps: seq<Piece>, total: nat) returns (ok: bool)
    requires forall k :: 0 <= k < |ps| ==> NonEmpty(ps[k].ranges)
    ensures ok <==> Contiguous(ps, 0, total) && Exclusive(ps)
  {
    ok := CheckTargets(ps, total);
    if ok {
      ok := CheckSources(ps);
    }
  }

  /** SplitZipModeImageWithLimit; None when one of its CHECKs fails. */
  method SplitZipModeImageWithLimit(job: Job) returns (r: Option<seq<Piece>>)
    requires Ready(job)
    ensures job.ss != [] && job.ss[|job.ss| - 1].len > 0 && r == SplitOf(job)
    ensures r.Some? <==> MatchesFit(job, |job.ts|)
    ensures r.Some? ==> Split(job, r.value)
  {
    hide State, Union, MatchesFit, Find, Split, Ready, Directory, Tiles, AllHeld, AllServed, Gather, Good, Min,
      Contiguous, PieceOf, SplitFrom;
    assert job.ss != [] && job.ts != [] by { ReadyParts(job); }
    var cd := job.ss[|job.ss| - 1];
    assert cd.len > 0 && Directory(job) == Occupied(cd.start, cd.len) by { ReadyParts(job); }
    var used := new SortedRangeSet();
    var ranges := new SortedRangeSet();
    used.Insert(cd.start, cd.len);
    var src, tgt: seq<ImageChunk> := [], [];
    var ps: seq<Piece> := [];
    StartState(job);
    var i := 0;
    while i < |job.ts|
      invariant 0 <= i <= |job.ts| && used.Valid() && ranges.Valid() && used != ranges
      invariant fresh(used) && fresh(ranges)
      invariant State(job, i, ps, used.ranges, ranges.ranges, src, tgt)
      invariant i == |job.ts| ==> tgt != []
      invariant SplitFrom(job, 0, StartProgress(job)) ==
                SplitFrom(job, i, Progress(ps, used.ranges, ranges.ranges, src, tgt))
      decreases |job.ts| - i, |ranges.ranges|
    {
      var t := job.ts[i];
      StateFits(job, i, ps, used.ranges, ranges.ranges, src, tgt);
      SplitTurns(job, i, Progress(ps, used.ranges, ranges.ranges, src, tgt));
      var found := FindChunkByName(job.ss, t.name, true);
      if found.None? {
        FitsOneMore(job, i);
        StateSkips(job, i, ps, used.ranges, ranges.ranges, src, tgt);
        tgt := tgt + [NormalPart(t.start, t.len, "")];
      } else {
        assert found.value < |job.ss| by { FoundInRange(job.ss, t.name, true); }
        var s := job.ss[found.value];
        if s.len > job.limit {
          DoesNotFit(job, i);
          return None;
        }
        FitsOneMore(job, i);
        var next;
        next, ps, src, tgt := PlaceSource(job, i, ps, used, ranges, src, tgt, s);
        if !next {
          i := i - 1;
        }
      }
      i := i + 1;
    }
    StateFits(job, i, ps, used.ranges, ranges.ranges, src, tgt);
    SplitTurns(job, i, Progress(ps, used.ranges, ranges.ranges, src, tgt));
    var added := CloseLastPiece(job, ps, used.ranges, ranges, src, tgt);
    ps := Extended(ps, added);
    SplitParts(job, ps);
    var valid := ValidateSplitImages(ps, |job.tgtFile|);
    if !valid {
      return None;
    }
    return Some(ps);
  }

  lemma DoesNotFit(job: Job, i: nat)
    requires i < |job.ts|
    requires var found := Find(job.ss, job.ts[i].name, true); found.Some? && job.ss[found.value].len > job.limit
    ensures !MatchesFit(job, |job.ts|)
  {}

  lemma FoundIsCandidate(cs: seq<ImageChunk>, name: string, findNormal: bool)
    requires Find(cs, name, findNormal).Some?
    ensures Find(cs, name, findNormal).value < |cs| && Candidate(cs[Find(cs, name, findNormal).value], name, findNormal)
  {}

  lemma ReadyParts(job: Job)
    requires Ready(job)
    ensures job.ts != [] && job.ss != [] && job.ss[|job.ss| - 1].len > 0
    ensures Directory(job) == Occupied(job.ss[|job.ss| - 1].start, job.ss[|job.ss| - 1].len)
  {}

  lemma SplitParts(job: Job, ps: seq<Piece>)
    requires Split(job, ps)
    ensures Contiguous(ps, 0, |job.tgtFile|) && Exclusive(ps)
    ensures forall k :: 0 <= k < |ps| ==> NonEmpty(ps[k].ranges)
  {
    forall k | 0 <= k < |ps| ensures NonEmpty(ps[k].ranges) { assert Good(job, ps[k]); }
  }

  method CloseLastPiece(job: Job, ghost ps: seq<Piece>, ghost used: seq<Range>, ranges: SortedRangeSet,
                        src: seq<ImageChunk>, tgt: seq<ImageChunk>) returns (added: Option<Piece>)
    requires Ready(job) && ranges.Valid() && tgt != []
    requires State(job, |job.ts|, ps, used, ranges.ranges, src, tgt)
    modifies ranges
    ensures Split(job, Extended(ps, added))
    ensures added == PieceOf(job.tgtFile, job.srcFile, Union(old(ranges.ranges), [Directory(job)]), tgt, src)
  {
    hide Union, Contiguous, AllServed, AllHeld, Gather, Checked, AllChecked, AllFaithful, Good, Total, MaxBlocks,
      WithinFile, Min, Split, Blocks, PieceOf;
    ghost var before := ranges.ranges;
    var cd := job.ss[|job.ss| - 1];
    DirectoryIsHeld(job, before, src, tgt);
    assert cd.len > 0;
    ranges.Insert(cd.start, cd.len);
    added := AddSplitImageFromChunkList(job.tgtFile, job.srcFile, ranges.ranges, tgt, src, tgt[0].start, |job.tgtFile|);
    GeometryCloses(job.ts, |job.tgtFile|, |job.ts|, ps, tgt, added);
    if added.Some? {
      AddedIsGood(job, ranges.ranges, src, tgt, added.value);
    }
    SplitFinishes(job, ps, used, before, src, tgt, added);
  }
}
