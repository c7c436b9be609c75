/**
 * What a split makes of the source: every source chunk that no other target chunk competes for is
 * used whole by some piece, and the chunks of a piece together keep to the limit.
 */
module ZipSplitUse {
  import opened Bytes
  import opened Codecs
  import opened ImageChunks
  import opened PatchMaking
  import opened ZipMode
  import opened RangeSets
  import opened ZipSplit
  import opened ZipSplitRun

  // ----- counting blocks

  function RangeCells(r: Range): (s: set<nat>) {
    set b: nat | b < r.second && InRange(r, b)
  }

  lemma {:induction false} RangeCount(r: Range)
    requires r.first <= r.second
    ensures |RangeCells(r)| == r.second - r.first
    decreases r.second - r.first
  {
    if r.first == r.second {
      assert RangeCells(r) == {};
    } else {
      var less := Range(r.first, r.second - 1);
      RangeCount(less);
      assert RangeCells(r) == RangeCells(less) + {r.second - 1};
    }
  }

  /** All blocks of a set of ranges. */
  function Cells(rs: seq<Range>): (s: set<nat>) {
    if rs == [] then {} else RangeCells(rs[0]) + Cells(rs[1..])
  }

  lemma {:induction false} CellsAre(rs: seq<Range>, b: nat)
    ensures b in Cells(rs) <==> Covers(rs, b)
  {
    if rs == [] {
      NothingCovered(b);
    } else {
      CellsAre(rs[1..], b);
      CoversHead(rs, b);
    }
  }

  lemma {:induction false} TotalCounts(rs: seq<Range>)
    requires Separated(rs)
    ensures Total(rs) == |Cells(rs)|
  {
    if rs != [] {
      SeparatedTail(rs);
      TotalCounts(rs[1..]);
      RangeCount(rs[0]);
      forall b | b in RangeCells(rs[0]) ensures b !in Cells(rs[1..]) {
        CellsAre(rs[1..], b);
        forall i | 0 <= i < |rs[1..]| ensures !InRange(rs[1..][i], b) { assert rs[0].second < rs[i + 1].first; }
      }
    }
  }

  lemma SubsetCount<T>(a: set<T>, b: set<T>)
    requires a <= b
    ensures |a| <= |b|
  {
    assert b == a + (b - a);
  }

  // ----- matched source chunks

  /** The source chunk that a target chunk finds by its name. */
  function Match(job: Job, k: nat): (r: Option<ImageChunk>)
    requires k < |job.ts|
    ensures r.Some? ==> r.value in job.ss
  {
    match Find(job.ss, job.ts[k].name, true)
    case None => None
    case Some(m) => Some(job.ss[m])
  }

  ghost predicate BlocksApart(c: ImageChunk, d: ImageChunk)
    requires c.len > 0 && d.len > 0
  {
    forall b: nat :: !(InRange(Occupied(c.start, c.len), b) && InRange(Occupied(d.start, d.len), b))
  }

  ghost predicate Splittable(job: Job) {
    && job.ss != [] && job.ss[|job.ss| - 1].len > 0
    && forall k :: 0 <= k < |job.ss| ==> job.ss[k].len > 0
  }

  /** No block of this chunk's source belongs to the central directory or to another chunk's source. */
  ghost predicate Free(job: Job, k: nat)
    requires Splittable(job)
  {
    && k < |job.ts| && Match(job, k).Some? && BlocksApart(Match(job, k).value, job.ss[|job.ss| - 1])
    && forall j :: 0 <= j < |job.ts| && j != k && Match(job, j).Some? ==>
         BlocksApart(Match(job, k).value, Match(job, j).value)
  }

  /** Whatever is in use belongs to the directory or to a source of one of the first `i` target chunks. */
  ghost predicate Accounted(job: Job, i: nat, rs: seq<Range>)
    requires Splittable(job) && i <= |job.ts|
  {
    && Separated(rs)
    && forall b: nat :: Covers(rs, b) ==>
         || InRange(Directory(job), b)
         || exists j :: 0 <= j < i && Match(job, j).Some? &&
              InRange(Occupied(Match(job, j).value.start, Match(job, j).value.len), b)
  }

  lemma AccountedLater(job: Job, i: nat, rs: seq<Range>)
    requires Splittable(job) && i < |job.ts| && Accounted(job, i, rs)
    ensures Accounted(job, i + 1, rs)
  {
    hide Covers, Separated, Directory, Match, Occupied;
  }

  lemma AccountedUnion(job: Job, i: nat, a: seq<Range>, b: seq<Range>)
    requires Splittable(job) && i <= |job.ts| && Accounted(job, i, a) && Accounted(job, i, b)
    ensures Accounted(job, i, Union(a, b))
  {
    hide Covers, Union, Directory, Match, Occupied;
    UnionCovers(a, b);
  }

  lemma PartOccupies(c: ImageChunk, start: nat, len: nat, b: nat)
    requires 0 < len && c.start <= start && start + len <= c.start + c.len && InRange(Occupied(start, len), b)
    ensures c.len > 0 && InRange(Occupied(c.start, c.len), b)
  {}

  lemma AccountedPart(job: Job, i: nat, start: nat, len: nat)
    requires Splittable(job) && i < |job.ts| && Match(job, i).Some?
    requires var c := Match(job, i).value; 0 < len && c.start <= start && start + len <= c.start + c.len
    ensures Accounted(job, i + 1, [Occupied(start, len)])
  {
    hide Match, Directory;
    var c, r := Match(job, i).value, Occupied(start, len);
    forall b: nat | Covers([r], b) ensures InRange(Occupied(c.start, c.len), b) {
      CoversOne(r, b);
      PartOccupies(c, start, len, b);
    }
  }

  lemma AccountedDirectory(job: Job, i: nat)
    requires Splittable(job) && i <= |job.ts|
    ensures Accounted(job, i, [Directory(job)]) && Accounted(job, i, [])
  {
    hide Match, Directory;
    forall b: nat ensures Covers([Directory(job)], b) <==> InRange(Directory(job), b) { CoversOne(Directory(job), b); }
    forall b: nat ensures !Covers([], b) { NothingCovered(b); }
  }

  /** A free chunk that comes later is not in use yet. */
  lemma FreeIsUnused(job: Job, i: nat, rs: seq<Range>, k: nat)
    requires Splittable(job) && i <= k && Free(job, k) && Accounted(job, i, rs)
    ensures var c := Match(job, k).value; c.len > 0 && Unused(c.start, c.len, rs)
  {
    hide Match;
    var c := Match(job, k).value;
    var r := Occupied(c.start, c.len);
    forall b: nat | Covers(rs, b) ensures !Covers([r], b) { CoversOne(r, b); }
  }

  // ----- the run

  ghost predicate InUse(job: Job, i: nat, s: Progress)
    requires Splittable(job) && i <= |job.ts|
  {
    Accounted(job, i, s.used) && Accounted(job, i, s.ranges)
  }

  lemma PlainlyInUse(job: Job, i: nat, s: Progress)
    requires Splittable(job) && i < |job.ts| && InUse(job, i, s)
    ensures InUse(job, i + 1, Plainly(s, job.ts[i]))
  {
    hide Accounted;
    AccountedLater(job, i, s.used);
    AccountedLater(job, i, s.ranges);
  }

  lemma TakingInUse(job: Job, i: nat, s: Progress, start: nat, len: nat)
    requires Splittable(job) && i < |job.ts| && InUse(job, i, s) && Match(job, i).Some?
    requires var c := Match(job, i).value; 0 < len && c.start <= start && start + len <= c.start + c.len
    ensures InUse(job, i + 1, Taking(s, job.ts[i], Match(job, i).value, start, len))
  {
    hide Accounted, Match, Union;
    AccountedLater(job, i, s.used);
    AccountedLater(job, i, s.ranges);
    AccountedPart(job, i, start, len);
    AccountedUnion(job, i + 1, s.ranges, [Occupied(start, len)]);
  }

  lemma ClosedInUse(job: Job, i: nat, s: Progress)
    requires Splittable(job) && i <= |job.ts| && InUse(job, i, s)
    ensures InUse(job, i, Closed(job, s))
  {
    hide Accounted, Union, PieceOf;
    AccountedUnion(job, i, s.used, s.ranges);
    AccountedDirectory(job, i);
  }

  lemma StartInUse(job: Job)
    requires Splittable(job)
    ensures InUse(job, 0, StartProgress(job))
  {
    hide Accounted, Union, Directory;
    AccountedDirectory(job, 0);
    AccountedUnion(job, 0, [], [Directory(job)]);
  }

  /** The step of the split at target chunk `i`, when a source chunk is found. */
  datatype Turn = Stops | Skips | Takes(start: nat, len: nat) | Closes

  ghost function TurnAt(job: Job, i: nat, s: Progress): (t: Turn)
    requires i < |job.ts|
    ensures t.Takes? ==>
              Match(job, i).Some? && var c := Match(job, i).value;
              0 < t.len && c.start <= t.start && t.start + t.len <= c.start + c.len
    ensures t.Closes? ==> s.ranges != []
  {
    var m := Match(job, i);
    if m.None? then Skips
    else if m.value.len == 0 || m.value.len > job.limit then Stops
    else match UnusedPart(m.value.start, m.value.len, s.used)
      case None => Skips
      case Some((start, len)) =>
        if Total(s.ranges) * BLOCK_SIZE + len <= job.limit then Takes(start, len) else Closes
  }

  lemma SplitStep(job: Job, i: nat, s: Progress)
    requires i < |job.ts|
    ensures SplitFrom(job, i, s) ==
            match TurnAt(job, i, s)
            case Stops => None
            case Skips => SplitFrom(job, i + 1, Plainly(s, job.ts[i]))
            case Takes(start, len) => SplitFrom(job, i + 1, Taking(s, job.ts[i], Match(job, i).value, start, len))
            case Closes => SplitFrom(job, i, Closed(job, s))
  {
    hide Find, UnusedPart, Union, PieceOf;
    if Find(job.ss, job.ts[i].name, true).Some? { FoundInRange(job.ss, job.ts[i].name, true); }
  }

  // ----- a chunk that is gathered stays, and ends up in a piece

  /** The target chunk reaches past the first block boundary after its start. */
  predicate Crosses(t: ImageChunk) { t.start + t.len > RoundUp(t.start) }

  predicate SamePlace(t: ImageChunk, u: ImageChunk) { t.start == u.start && t.len == u.len }

  /** A piece holds all blocks of the source chunk; a deflate source with it, and the deflate target, unless cut. */
  ghost predicate Serves(t: ImageChunk, c: ImageChunk, p: Piece)
    requires c.len > 0
  {
    && CoversAll(p.ranges, c.start, c.len)
    && (c.kind == Deflate ==> c in p.src)
    && (c.kind == Deflate && t.kind == Deflate && Crosses(t) ==>
          t in p.tgt || (p.tgt != [] && p.tgt[0].start == RoundUp(t.start)))
  }

  ghost predicate SomeServes(job: Job, k: nat, ps: seq<Piece>)
    requires Splittable(job) && Free(job, k)
  {
    Match(job, k).value.len > 0 && exists p :: p in ps && Serves(job.ts[k], Match(job, k).value, p)
  }

  /**
   * The piece for target chunk `k` comes out empty: no target chunk from there on reaches past a block
   * boundary, up to the end or up to one whose source no longer fits beside that of `k`.
   */
  ghost predicate Fruitless(job: Job, k: nat)
    requires Splittable(job) && Free(job, k)
  {
    exists to, ranges :: EndsEmpty(job, k, to, ranges)
  }

  ghost predicate EndsEmpty(job: Job, k: nat, to: nat, ranges: seq<Range>)
    requires Splittable(job) && Free(job, k)
  {
    && k < to <= |job.ts| && (forall m :: k <= m < to ==> !Crosses(job.ts[m]))
    && (to < |job.ts| ==>
          && Match(job, to).Some? && Total(ranges) * BLOCK_SIZE + Match(job, to).value.len > job.limit
          && Accounted(job, to, ranges)
          && var c := Match(job, k).value; c.len > 0 && CoversAll(ranges, c.start, c.len))
  }

  /** What is kept for target chunk `k`: blocks, a deflate source, and the places from there on. */
  ghost predicate Gathered(job: Job, k: nat, i: nat, ranges: seq<Range>, src: seq<ImageChunk>, tgt: seq<ImageChunk>)
    requires Splittable(job) && Free(job, k) && i <= |job.ts|
  {
    && k < i && var c := Match(job, k).value;
    && c.len > 0 && CoversAll(ranges, c.start, c.len)
    && (c.kind == Deflate ==> c in src && job.ts[k] in tgt)
    && forall m :: k <= m < i ==> Placed(tgt, job.ts[m])
  }

  ghost predicate Placed(tgt: seq<ImageChunk>, t: ImageChunk) { exists u :: u in tgt && SamePlace(u, t) }

  lemma {:induction false} BoundaryKeeps(cs: seq<ImageChunk>, t: ImageChunk)
    requires t in cs && Crosses(t)
    ensures var kept := FromFirstBoundary(cs);
            kept != [] && (t in kept || kept[0].start == RoundUp(t.start))
  {
    if FromBoundary(cs[0].start, cs[0].len).None? { BoundaryKeeps(cs[1..], t); }
  }

  lemma {:induction false} GatheredIsServed(job: Job, k: nat, i: nat, ranges: seq<Range>,
                                            src: seq<ImageChunk>, tgt: seq<ImageChunk>)
    requires Splittable(job) && Free(job, k) && i <= |job.ts| && Gathered(job, k, i, ranges, src, tgt)
    ensures var added := PieceOf(job.tgtFile, job.srcFile, ranges, tgt, src);
            if added.Some? then Serves(job.ts[k], Match(job, k).value, added.value)
            else forall m :: k <= m < i ==> !Crosses(job.ts[m])
  {
    hide Merge, SourceBytes, CoversAll, FromFirstBoundary, Match, BlocksApart, RoundUp;
    var (t, c) := (job.ts[k], Match(job, k).value);
    var aligned := AlignedChunks(tgt, |job.tgtFile|);
    if aligned == [] {
      forall m | k <= m < i ensures !Crosses(job.ts[m]) {
        var u :| u in tgt && SamePlace(u, job.ts[m]);
        if Crosses(u) { BoundaryKeeps(tgt, u); }
      }
    } else {
      MergeFirst(aligned);
      if c.kind == Deflate && t.kind == Deflate && Crosses(t) {
        BoundaryKeeps(tgt, t);
        if t in aligned { MergeHoldsDeflate(aligned, t); }
      }
    }
  }

  ghost predicate Kept(job: Job, k: nat, i: nat, s: Progress)
    requires Splittable(job) && Free(job, k) && i <= |job.ts|
  {
    Gathered(job, k, i, s.ranges, s.src, s.tgt) || SomeServes(job, k, s.ps) || Fruitless(job, k)
  }

  lemma CoversGrows(ranges: seq<Range>, r: Range, start: nat, len: nat)
    requires Separated(ranges) && r.first < r.second && len > 0
    ensures CoversAll(ranges, start, len) ==> CoversAll(Union(ranges, [r]), start, len)
    ensures r == Occupied(start, len) ==> CoversAll(Union(ranges, [r]), start, len)
  {
    hide Covers, Union, Separated;
    assert NonEmpty([r]) by { EmptySeparated(r); }
    UnionCovers(ranges, [r]);
    forall b: nat ensures Covers([r], b) <==> InRange(r, b) { CoversOne(r, b); }
  }

  lemma PlacedGrows(tgt: seq<ImageChunk>, t: ImageChunk, u: ImageChunk)
    ensures Placed(tgt, t) ==> Placed(tgt + [u], t)
    ensures SamePlace(u, t) ==> Placed(tgt + [u], t)
  {
    assert u in tgt + [u];
  }

  lemma {:induction false} GatherGrows(job: Job, k: nat, i: nat, s: Progress, c: ImageChunk, start: nat, len: nat)
    requires Splittable(job) && Free(job, k) && i < |job.ts| && Separated(s.ranges) && len > 0
    requires Gathered(job, k, i, s.ranges, s.src, s.tgt)
    ensures var s' := Plainly(s, job.ts[i]); Gathered(job, k, i + 1, s'.ranges, s'.src, s'.tgt)
    ensures var s' := Taking(s, job.ts[i], c, start, len); Gathered(job, k, i + 1, s'.ranges, s'.src, s'.tgt)
  {
    hide CoversAll, Union, Separated, Occupied, BlocksApart, Match, Placed;
    var d := Match(job, k).value;
    CoversGrows(s.ranges, Occupied(start, len), d.start, d.len);
    var t := job.ts[i];
    forall m | k <= m < i + 1
      ensures Placed(s.tgt + [t], job.ts[m]) && Placed(s.tgt + [NormalPart(t.start, t.len, "")], job.ts[m])
    {
      PlacedGrows(s.tgt, job.ts[m], t);
      PlacedGrows(s.tgt, job.ts[m], NormalPart(t.start, t.len, ""));
    }
  }

  lemma ServedLater(job: Job, k: nat, ps: seq<Piece>, p: Piece)
    requires Splittable(job) && Free(job, k)
    ensures SomeServes(job, k, ps) ==> SomeServes(job, k, ps + [p])
    ensures Match(job, k).value.len > 0 && Serves(job.ts[k], Match(job, k).value, p) ==> SomeServes(job, k, ps + [p])
  {
    hide Serves, BlocksApart, Match;
    assert p in ps + [p];
    if SomeServes(job, k, ps) {
      var q :| q in ps && Serves(job.ts[k], Match(job, k).value, q);
      assert q in ps + [p];
    }
  }

  lemma ClosingKeeps(job: Job, k: nat, i: nat, s: Progress)
    requires Splittable(job) && Free(job, k) && i < |job.ts| && InUse(job, i, s) && TurnAt(job, i, s).Closes?
    requires Kept(job, k, i, s)
    ensures Kept(job, k, i, Closed(job, s))
  {
    hide PieceOf, Serves, SomeServes, Union, Accounted, BlocksApart, Match, Crosses, CoversAll, Total, UnusedPart;
    var added := PieceOf(job.tgtFile, job.srcFile, s.ranges, s.tgt, s.src);
    if added.Some? { ServedLater(job, k, s.ps, added.value); }
    if Gathered(job, k, i, s.ranges, s.src, s.tgt) {
      GatheredIsServed(job, k, i, s.ranges, s.src, s.tgt);
      if added.None? { assert EndsEmpty(job, k, i, s.ranges); }
    }
  }

  /** Once kept, a chunk is kept to the end. */
  lemma {:induction false} KeptToTheEnd(job: Job, k: nat, i: nat, s: Progress)
    requires Splittable(job) && Free(job, k) && i <= |job.ts| && InUse(job, i, s) && Kept(job, k, i, s)
    ensures SplitFrom(job, i, s).Some? ==>
              Separated(SplitFrom(job, i, s).value.ranges) && Kept(job, k, |job.ts|, SplitFrom(job, i, s).value)
    decreases |job.ts| - i, |s.ranges|
  {
    hide SplitFrom, TurnAt, Gathered, SomeServes, Fruitless, Separated, Union, PieceOf, Match, Splittable, Free;
    UseIsSeparated(job, i, s);
    if i == |job.ts| {
      SplitTurns(job, i, s);
    } else {
      SplitStep(job, i, s);
      match TurnAt(job, i, s)
      case Stops =>
      case Skips =>
        if Gathered(job, k, i, s.ranges, s.src, s.tgt) { GatherGrows(job, k, i, s, job.ts[i], 0, 1); }
        PlainlyInUse(job, i, s);
        KeptToTheEnd(job, k, i + 1, Plainly(s, job.ts[i]));
      case Takes(start, len) =>
        var c := Match(job, i).value;
        if Gathered(job, k, i, s.ranges, s.src, s.tgt) { GatherGrows(job, k, i, s, c, start, len); }
        TakingInUse(job, i, s, start, len);
        KeptToTheEnd(job, k, i + 1, Taking(s, job.ts[i], c, start, len));
      case Closes =>
        ClosingKeeps(job, k, i, s);
        ClosedInUse(job, i, s);
        KeptToTheEnd(job, k, i, Closed(job, s));
    }
  }

  /** A free chunk is taken whole when its turn comes. */
  lemma FreeIsTaken(job: Job, s: Progress, k: nat)
    requires Splittable(job) && Free(job, k) && InUse(job, k, s)
    ensures var c := Match(job, k).value;
            && c.len > 0
            && (TurnAt(job, k, s) == Stops || TurnAt(job, k, s) == Closes || TurnAt(job, k, s) == Takes(c.start, c.len))
  {
    hide Match, BlocksApart, Accounted, Unused, Total;
    FreeIsUnused(job, k, s.used, k);
  }

  lemma TakenIsGathered(job: Job, k: nat, s: Progress)
    requires Splittable(job) && Free(job, k) && Match(job, k).value.len > 0 && Separated(s.ranges)
    ensures var c := Match(job, k).value; Kept(job, k, k + 1, Taking(s, job.ts[k], c, c.start, c.len))
  {
    hide Covers, Union, Separated, Match, BlocksApart, SomeServes, Fruitless, Placed;
    var (t, c) := (job.ts[k], Match(job, k).value);
    CoversGrows(s.ranges, Occupied(c.start, c.len), c.start, c.len);
    PlacedGrows(s.tgt, t, t);
    PlacedGrows(s.tgt, t, NormalPart(t.start, t.len, ""));
    assert c in s.src + [c] && t in s.tgt + [t];
  }

  lemma {:induction false} FreeIsKept(job: Job, i: nat, s: Progress, k: nat)
    requires Splittable(job) && i <= k && Free(job, k) && InUse(job, i, s)
    ensures SplitFrom(job, i, s).Some? ==>
              Separated(SplitFrom(job, i, s).value.ranges) && Kept(job, k, |job.ts|, SplitFrom(job, i, s).value)
    decreases |job.ts| - i, |s.ranges|
  {
    hide SplitFrom, TurnAt, Kept, Separated, Union, PieceOf, Match, BlocksApart;
    SplitStep(job, i, s);
    if i == k { FreeIsTaken(job, s, k); }
    match TurnAt(job, i, s)
    case Stops =>
    case Skips =>
      PlainlyInUse(job, i, s);
      FreeIsKept(job, i + 1, Plainly(s, job.ts[i]), k);
    case Takes(start, len) =>
      var next := Taking(s, job.ts[i], Match(job, i).value, start, len);
      TakingInUse(job, i, s, start, len);
      if i == k {
        assert Separated(s.ranges) by { UseIsSeparated(job, i, s); }
        TakenIsGathered(job, k, s);
        KeptToTheEnd(job, k, i + 1, next);
      } else {
        FreeIsKept(job, i + 1, next, k);
      }
    case Closes =>
      ClosedInUse(job, i, s);
      FreeIsKept(job, i, Closed(job, s), k);
  }

  lemma UseIsSeparated(job: Job, i: nat, s: Progress)
    requires Splittable(job) && i <= |job.ts| && InUse(job, i, s)
    ensures Separated(s.ranges)
  {}

  /**
   * Every free source chunk is used: some piece of the split holds all its blocks, and keeps a deflate
   * source and its target as such, unless the piece starts in the middle of that target, or the piece
   * that was gathered for it came out empty.
   */
  lemma FreeSourceIsUsed(job: Job, k: nat)
    requires Splittable(job) && Free(job, k)
    ensures SplitOf(job).Some? ==> SomeServes(job, k, SplitOf(job).value) || Fruitless(job, k)
    ensures Fruitless(job, k) ==> !Crosses(job.ts[k])
  {
    hide SplitFrom, Crosses, Separated, Union, PieceOf, Match, BlocksApart, Accounted, SomeServes, CoversAll, Directory,
      Serves;
    StartInUse(job);
    FreeIsKept(job, 0, StartProgress(job), k);
    var r := SplitFrom(job, 0, StartProgress(job));
    if r.Some? { LastKeeps(job, k, r.value); }
  }

  lemma LastKeeps(job: Job, k: nat, s: Progress)
    requires Splittable(job) && Free(job, k) && Separated(s.ranges) && Kept(job, k, |job.ts|, s)
    ensures var added := PieceOf(job.tgtFile, job.srcFile, Union(s.ranges, [Directory(job)]), s.tgt, s.src);
            SomeServes(job, k, Extended(s.ps, added)) || Fruitless(job, k)
  {
    hide Crosses, Separated, Union, PieceOf, Match, BlocksApart, Accounted, SomeServes, Serves, CoversAll, Directory;
    var all := Union(s.ranges, [Directory(job)]);
    var added := PieceOf(job.tgtFile, job.srcFile, all, s.tgt, s.src);
    if added.Some? { ServedLater(job, k, s.ps, added.value); }
    if Gathered(job, k, |job.ts|, s.ranges, s.src, s.tgt) {
      var c := Match(job, k).value;
      CoversGrows(s.ranges, Directory(job), c.start, c.len);
      GatheredIsServed(job, k, |job.ts|, all, s.src, s.tgt);
      if added.None? { assert EndsEmpty(job, k, |job.ts|, all); }
    }
  }

  // ----- the limit

  /** Free target chunks, in order. */
  ghost predicate Picks(job: Job, picks: seq<nat>)
    requires Splittable(job)
  {
    && (forall i :: 0 <= i < |picks| ==> Free(job, picks[i]))
    && (forall i, j :: 0 <= i < j < |picks| ==> picks[i] < picks[j])
  }

  ghost predicate AllCovered(job: Job, picks: seq<nat>, ranges: seq<Range>)
    requires Splittable(job) && Picks(job, picks)
  {
    forall i :: 0 <= i < |picks| ==>
      var c := Match(job, picks[i]).value; c.len > 0 && CoversAll(ranges, c.start, c.len)
  }

  /** How many bytes their sources have, and which blocks those occupy. */
  ghost function SizeOf(job: Job, picks: seq<nat>): (n: nat)
    requires Splittable(job) && Picks(job, picks)
  {
    if picks == [] then 0 else SizeOf(job, picks[..|picks| - 1]) + Match(job, picks[|picks| - 1]).value.len
  }

  ghost function BlocksOf(job: Job, picks: seq<nat>): (s: set<nat>)
    requires Splittable(job) && Picks(job, picks)
  {
    if picks == [] then {}
    else
      var c := Match(job, picks[|picks| - 1]).value;
      if c.len == 0 then {}
      else BlocksOf(job, picks[..|picks| - 1]) + RangeCells(Occupied(c.start, c.len))
  }

  lemma MatchIsLong(job: Job, k: nat)
    requires Splittable(job) && k < |job.ts| && Match(job, k).Some?
    ensures Match(job, k).value.len > 0
  {
    hide Find;
    var c := Match(job, k).value;
    var m :| 0 <= m < |job.ss| && job.ss[m] == c;
  }

  lemma {:induction false} BlocksAre(job: Job, picks: seq<nat>, b: nat)
    requires Splittable(job) && Picks(job, picks) && b in BlocksOf(job, picks)
    ensures exists i :: 0 <= i < |picks| && Match(job, picks[i]).value.len > 0 &&
              InRange(Occupied(Match(job, picks[i]).value.start, Match(job, picks[i]).value.len), b)
  {
    hide Match, Occupied, BlocksApart;
    var n := |picks| - 1;
    var c := Match(job, picks[n]).value;
    if b !in RangeCells(Occupied(c.start, c.len)) {
      BlocksAre(job, picks[..n], b);
      var i :| 0 <= i < n && Match(job, picks[..n][i]).value.len > 0 &&
        InRange(Occupied(Match(job, picks[..n][i]).value.start, Match(job, picks[..n][i]).value.len), b);
      assert picks[..n][i] == picks[i];
    }
  }

  lemma BlocksHoldBytes(start: nat, len: nat)
    requires len > 0
    ensures len <= (Occupied(start, len).second - Occupied(start, len).first) * BLOCK_SIZE
  {
    var r := Occupied(start, len);
    assert r.first * BLOCK_SIZE <= start && start + len <= r.second * BLOCK_SIZE;
  }

  /** The sources of free chunks share no block, so they fill as many blocks as they have bytes. */
  lemma {:induction false} CellsHoldBytes(job: Job, picks: seq<nat>)
    requires Splittable(job) && Picks(job, picks)
    ensures SizeOf(job, picks) <= |BlocksOf(job, picks)| * BLOCK_SIZE
  {
    hide Match, Occupied, RangeCells;
    if picks != [] {
      var n := |picks| - 1;
      var k := picks[n];
      var c := Match(job, k).value;
      assert Free(job, k);
      MatchIsLong(job, k);
      var r := Occupied(c.start, c.len);
      CellsHoldBytes(job, picks[..n]);
      RangeCount(r);
      BlocksHoldBytes(c.start, c.len);
      var before, here := BlocksOf(job, picks[..n]), RangeCells(r);
      forall b | b in before ensures b !in here { PickIsElsewhere(job, picks, b); }
      assert before !! here;
      assert |before + here| == |before| + |here|;
    }
  }

  lemma PickIsElsewhere(job: Job, picks: seq<nat>, b: nat)
    requires Splittable(job) && Picks(job, picks) && picks != [] && b in BlocksOf(job, picks[..|picks| - 1])
    ensures var c := Match(job, picks[|picks| - 1]).value;
            c.len > 0 && b !in RangeCells(Occupied(c.start, c.len))
  {
    hide Match, Occupied;
    var n := |picks| - 1;
    var c := Match(job, picks[n]).value;
    assert Free(job, picks[n]);
    MatchIsLong(job, picks[n]);
    BlocksAre(job, picks[..n], b);
    var i :| 0 <= i < n && Match(job, picks[..n][i]).value.len > 0 &&
      InRange(Occupied(Match(job, picks[..n][i]).value.start, Match(job, picks[..n][i]).value.len), b);
    assert picks[..n][i] == picks[i] && picks[i] < picks[n];
    assert Free(job, picks[i]);
    assert BlocksApart(c, Match(job, picks[i]).value);
  }

  lemma CoveredBytes(job: Job, picks: seq<nat>, ranges: seq<Range>)
    requires Splittable(job) && Picks(job, picks) && Separated(ranges) && AllCovered(job, picks, ranges)
    ensures SizeOf(job, picks) <= |BlocksOf(job, picks)| * BLOCK_SIZE && |BlocksOf(job, picks)| <= Total(ranges)
  {
    hide Match, Occupied, Separated, Covers, BlocksOf;
    CellsHoldBytes(job, picks);
    forall b | b in BlocksOf(job, picks) ensures b in Cells(ranges) {
      BlocksAre(job, picks, b);
      CellsAre(ranges, b);
    }
    SubsetCount(BlocksOf(job, picks), Cells(ranges));
    TotalCounts(ranges);
  }

  /** Within the limit, as bytes, and less than two blocks over it, as blocks. */
  ghost predicate WithinLimit(job: Job, picks: seq<nat>)
    requires Splittable(job) && Picks(job, picks)
  {
    SizeOf(job, picks) <= job.limit && |BlocksOf(job, picks)| * BLOCK_SIZE < job.limit + 2 * BLOCK_SIZE
  }

  /** The free chunks whose sources are all in the ranges keep to the limit together. */
  ghost predicate Fair(job: Job, ranges: seq<Range>)
    requires Splittable(job)
  {
    forall picks :: Picks(job, picks) && AllCovered(job, picks, ranges) ==> WithinLimit(job, picks)
  }

  /** A free chunk in the ranges is one of the chunks that were processed. */
  lemma CoveredIsEarlier(job: Job, i: nat, ranges: seq<Range>, k: nat)
    requires Splittable(job) && i <= |job.ts| && Accounted(job, i, ranges) && Free(job, k)
    requires var c := Match(job, k).value; c.len > 0 && CoversAll(ranges, c.start, c.len)
    ensures k < i
  {
    hide Match, Separated, Covers;
    var c := Match(job, k).value;
    var b := Occupied(c.start, c.len).first;
    assert InRange(Occupied(c.start, c.len), b);
    assert Covers(ranges, b);
  }

  /** What a free chunk finds in a union with other blocks it finds without them. */
  lemma CoveredWithout(job: Job, k: nat, ranges: seq<Range>, r: Range)
    requires Splittable(job) && Free(job, k) && Separated(ranges) && r.first < r.second
    requires var c := Match(job, k).value; c.len > 0 && CoversAll(Union(ranges, [r]), c.start, c.len)
    requires var c := Match(job, k).value; forall b: nat :: InRange(r, b) ==> !InRange(Occupied(c.start, c.len), b)
    ensures var c := Match(job, k).value; CoversAll(ranges, c.start, c.len)
  {
    hide Match, Separated, Covers, Union, Occupied, BlocksApart;
    assert NonEmpty([r]) by { EmptySeparated(r); }
    UnionCovers(ranges, [r]);
    forall b: nat ensures Covers([r], b) <==> InRange(r, b) { CoversOne(r, b); }
  }

  lemma NothingIsFair(job: Job)
    requires Splittable(job)
    ensures Fair(job, [])
  {
    hide Match, Occupied, BlocksApart;
    forall picks | Picks(job, picks) && AllCovered(job, picks, []) ensures WithinLimit(job, picks) {
      if picks != [] {
        var c := Match(job, picks[0]).value;
        assert InRange(Occupied(c.start, c.len), Occupied(c.start, c.len).first);
        NothingCovered(Occupied(c.start, c.len).first);
        assert false;
      }
    }
  }

  /** Blocks that belong to no free chunk of the list make no difference to it. */
  lemma AllCoveredWithout(job: Job, picks: seq<nat>, ranges: seq<Range>, r: Range)
    requires Splittable(job) && Picks(job, picks) && Separated(ranges) && r.first < r.second
    requires AllCovered(job, picks, Union(ranges, [r]))
    requires forall i, b: nat :: 0 <= i < |picks| && InRange(r, b) ==>
               !InRange(Occupied(Match(job, picks[i]).value.start, Match(job, picks[i]).value.len), b)
    ensures AllCovered(job, picks, ranges)
  {
    hide Match, Separated, Union, Occupied, BlocksApart, CoversAll;
    forall i | 0 <= i < |picks| ensures
      var c := Match(job, picks[i]).value; c.len > 0 && CoversAll(ranges, c.start, c.len)
    {
      CoveredWithout(job, picks[i], ranges, r);
    }
  }

  /** The central directory adds nothing for free chunks. */
  lemma FairWithDirectory(job: Job, ranges: seq<Range>)
    requires Splittable(job) && Separated(ranges) && Fair(job, ranges)
    ensures Fair(job, Union(ranges, [Directory(job)]))
  {
    hide Match, Separated, Union, Occupied, CoversAll, WithinLimit;
    var all := Union(ranges, [Directory(job)]);
    forall picks | Picks(job, picks) && AllCovered(job, picks, all) ensures WithinLimit(job, picks) {
      AllCoveredWithout(job, picks, ranges, Directory(job));
    }
  }

  /** Taking the source of chunk `i`: free chunks other than `i` gain nothing by it. */
  lemma OthersCovered(job: Job, i: nat, picks: seq<nat>, ranges: seq<Range>, start: nat, len: nat)
    requires Splittable(job) && i < |job.ts| && Match(job, i).Some? && Picks(job, picks) && i !in picks
    requires var c := Match(job, i).value; 0 < len && c.start <= start && start + len <= c.start + c.len
    requires Separated(ranges) && AllCovered(job, picks, Union(ranges, [Occupied(start, len)]))
    ensures AllCovered(job, picks, ranges)
  {
    hide Match, Separated, Union, Occupied, CoversAll, AllCovered;
    var (c, r) := (Match(job, i).value, Occupied(start, len));
    forall k, b: nat | 0 <= k < |picks| && InRange(r, b)
      ensures Match(job, picks[k]).value.len > 0
      ensures !InRange(Occupied(Match(job, picks[k]).value.start, Match(job, picks[k]).value.len), b)
    {
      assert Free(job, picks[k]) && picks[k] != i;
      MatchIsLong(job, picks[k]);
      PartOccupies(c, start, len, b);
      assert BlocksApart(Match(job, picks[k]).value, c);
    }
    AllCoveredWithout(job, picks, ranges, r);
  }

  lemma ButLast(job: Job, picks: seq<nat>, ranges: seq<Range>)
    requires Splittable(job) && Picks(job, picks) && picks != [] && AllCovered(job, picks, ranges)
    ensures var n := |picks| - 1;
            Picks(job, picks[..n]) && AllCovered(job, picks[..n], ranges) && picks[n] !in picks[..n]
  {
    hide Match, Free, CoversAll;
  }

  /** The chunk that is taken fits together with the ones before it. */
  lemma LastFits(job: Job, picks: seq<nat>, ranges: seq<Range>)
    requires Splittable(job) && Picks(job, picks) && picks != [] && Separated(ranges)
    requires Picks(job, picks[..|picks| - 1]) && AllCovered(job, picks[..|picks| - 1], ranges)
    requires Total(ranges) * BLOCK_SIZE + Match(job, picks[|picks| - 1]).value.len <= job.limit
    ensures WithinLimit(job, picks)
  {
    hide Match, Separated, CoversAll, AllCovered, BlocksApart, Total, RangeCells;
    var n := |picks| - 1;
    var c := Match(job, picks[n]).value;
    assert Free(job, picks[n]);
    MatchIsFree(job, picks[n]);
    CoveredBytes(job, picks[..n], ranges);
    var r := Occupied(c.start, c.len);
    RangeCount(r);
    var before, here := BlocksOf(job, picks[..n]), RangeCells(r);
    assert |before + here| <= |before| + |here|;
    FewBlocks(c.start, c.len);
  }

  lemma MatchIsFree(job: Job, k: nat)
    requires Splittable(job) && Free(job, k)
    ensures Match(job, k).value.len > 0
  {
    hide Match, BlocksApart;
    MatchIsLong(job, k);
  }

  lemma FewBlocks(start: nat, len: nat)
    requires len > 0
    ensures (Occupied(start, len).second - Occupied(start, len).first) * BLOCK_SIZE < len + 2 * BLOCK_SIZE
  {
    var r := Occupied(start, len);
    assert start < (r.first + 1) * BLOCK_SIZE && (r.second - 1) * BLOCK_SIZE <= start + len - 1;
  }

  lemma FairTakes(job: Job, i: nat, ranges: seq<Range>, start: nat, len: nat)
    requires Splittable(job) && i < |job.ts| && Accounted(job, i, ranges) && Match(job, i).Some? && Fair(job, ranges)
    requires var c := Match(job, i).value;
             && 0 < len && c.start <= start && start + len <= c.start + c.len
             && (Free(job, i) ==> len == c.len)
    requires Total(ranges) * BLOCK_SIZE + len <= job.limit
    ensures Fair(job, Union(ranges, [Occupied(start, len)]))
  {
    hide Match, Separated, Union, Occupied, AllCovered, WithinLimit, Total, Free;
    var all := Union(ranges, [Occupied(start, len)]);
    forall picks | Picks(job, picks) && AllCovered(job, picks, all) ensures WithinLimit(job, picks) {
      if i in picks {
        TakenIsLast(job, i, picks, ranges, start, len);
        ButLast(job, picks, all);
        OthersCovered(job, i, picks[..|picks| - 1], ranges, start, len);
        LastFits(job, picks, ranges);
      } else {
        OthersCovered(job, i, picks, ranges, start, len);
      }
    }
  }

  lemma TakenIsLast(job: Job, i: nat, picks: seq<nat>, ranges: seq<Range>, start: nat, len: nat)
    requires Splittable(job) && i < |job.ts| && Accounted(job, i, ranges) && Match(job, i).Some?
    requires var c := Match(job, i).value; 0 < len && c.start <= start && start + len <= c.start + c.len
    requires Picks(job, picks) && AllCovered(job, picks, Union(ranges, [Occupied(start, len)])) && i in picks
    ensures picks[|picks| - 1] == i
  {
    hide Match, Separated, Union, Occupied, CoversAll, Accounted, Free;
    AccountedLater(job, i, ranges);
    AccountedPart(job, i, start, len);
    AccountedUnion(job, i + 1, ranges, [Occupied(start, len)]);
    var n := |picks| - 1;
    CoveredIsEarlier(job, i + 1, Union(ranges, [Occupied(start, len)]), picks[n]);
    var k :| 0 <= k < |picks| && picks[k] == i;
    assert picks[k] <= picks[n];
  }

  ghost predicate AllFair(job: Job, s: Progress)
    requires Splittable(job)
  {
    Fair(job, s.ranges) && forall p :: p in s.ps ==> Fair(job, p.ranges)
  }

  lemma FairToTheEnd(job: Job, i: nat, s: Progress)
    requires Splittable(job) && i <= |job.ts| && InUse(job, i, s) && AllFair(job, s)
    ensures SplitFrom(job, i, s).Some? ==>
              Separated(SplitFrom(job, i, s).value.ranges) && AllFair(job, SplitFrom(job, i, s).value)
    decreases |job.ts| - i, |s.ranges|
  {
    hide SplitFrom, TurnAt, Separated, Union, PieceOf, Match, Splittable, Fair, Accounted;
    if i == |job.ts| {
      SplitTurns(job, i, s);
      UseIsSeparated(job, i, s);
    } else {
      SplitStep(job, i, s);
      match TurnAt(job, i, s)
      case Stops =>
      case Skips =>
        PlainlyInUse(job, i, s);
        FairToTheEnd(job, i + 1, Plainly(s, job.ts[i]));
      case Takes(start, len) =>
        TakingInUse(job, i, s, start, len);
        TakesFairly(job, i, s);
        FairToTheEnd(job, i + 1, Taking(s, job.ts[i], Match(job, i).value, start, len));
      case Closes =>
        NothingIsFair(job);
        ClosedInUse(job, i, s);
        PieceIsFair(job, s);
        FairToTheEnd(job, i, Closed(job, s));
    }
  }

  lemma PieceIsFair(job: Job, s: Progress)
    requires Splittable(job) && AllFair(job, s)
    ensures AllFair(job, Closed(job, s))
  {
    hide Fair, Union, Merge, FromFirstBoundary, SourceBytes, Splittable;
    NothingIsFair(job);
  }

  lemma TakesFairly(job: Job, i: nat, s: Progress)
    requires Splittable(job) && i < |job.ts| && InUse(job, i, s) && Fair(job, s.ranges) && TurnAt(job, i, s).Takes?
    ensures var t := TurnAt(job, i, s); Fair(job, Union(s.ranges, [Occupied(t.start, t.len)]))
  {
    hide Match, Accounted, Fair, Union, BlocksApart, Occupied;
    var t := TurnAt(job, i, s);
    if Free(job, i) { FreeIsTaken(job, s, i); }
    FairTakes(job, i, s.ranges, t.start, t.len);
  }

  /** The free chunks whose source one piece holds keep to the limit together. */
  lemma PiecesAreFair(job: Job, p: Piece)
    requires Splittable(job) && SplitOf(job).Some? && p in SplitOf(job).value
    ensures Fair(job, p.ranges)
  {
    hide SplitFrom, Fair, Union, Merge, FromFirstBoundary, SourceBytes, Separated, Accounted, Directory;
    StartInUse(job);
    NothingIsFair(job);
    FairToTheEnd(job, 0, StartProgress(job));
    var s := SplitFrom(job, 0, StartProgress(job)).value;
    FairWithDirectory(job, s.ranges);
  }

  /** Free chunks over the limit, by bytes, or by two blocks, need a second piece. */
  lemma SecondPiece(job: Job, picks: seq<nat>)
    requires Splittable(job) && Picks(job, picks) && forall i :: 0 <= i < |picks| ==> Crosses(job.ts[picks[i]])
    requires SizeOf(job, picks) > job.limit || |BlocksOf(job, picks)| * BLOCK_SIZE >= job.limit + 2 * BLOCK_SIZE
    ensures SplitOf(job).Some? ==> |SplitOf(job).value| >= 2
  {
    hide SplitOf, Match, Fair, Crosses, CoversAll, Fruitless;
    if SplitOf(job).Some? && |SplitOf(job).value| <= 1 {
      var ps := SplitOf(job).value;
      assert picks != [];
      forall i | 0 <= i < |picks| ensures |ps| == 1 && Match(job, picks[i]).value.len > 0 &&
        CoversAll(ps[0].ranges, Match(job, picks[i]).value.start, Match(job, picks[i]).value.len)
      {
        FreeSourceIsUsed(job, picks[i]);
        var p :| p in ps && Serves(job.ts[picks[i]], Match(job, picks[i]).value, p);
      }
      PiecesAreFair(job, ps[0]);
      FairPicks(job, picks, ps[0].ranges);
    }
  }

  lemma FairPicks(job: Job, picks: seq<nat>, ranges: seq<Range>)
    requires Splittable(job) && Fair(job, ranges) && Picks(job, picks) && AllCovered(job, picks, ranges)
    ensures WithinLimit(job, picks)
  {}

  // ----- no piece is closed early

  /** Some source that a target chunk finds does not fit into the ranges any more. */
  ghost predicate Full(job: Job, ranges: seq<Range>) {
    exists j :: 0 <= j < |job.ts| && Match(job, j).Some? &&
      Total(ranges) * BLOCK_SIZE + Match(job, j).value.len > job.limit
  }

  lemma ClosesFull(job: Job, i: nat, s: Progress)
    requires i < |job.ts| && TurnAt(job, i, s).Closes?
    ensures Full(job, s.ranges)
  {
    hide Match, Total;
    var c := Match(job, i).value;
    assert Total(s.ranges) * BLOCK_SIZE + c.len > job.limit;
  }

  lemma FullToTheEnd(job: Job, i: nat, s: Progress)
    requires i <= |job.ts| && forall p :: p in s.ps ==> Full(job, p.ranges)
    ensures SplitFrom(job, i, s).Some? ==> forall p :: p in SplitFrom(job, i, s).value.ps ==> Full(job, p.ranges)
    decreases |job.ts| - i, |s.ranges|
  {
    hide SplitFrom, TurnAt, Union, Match, Full, Merge, FromFirstBoundary, SourceBytes;
    if i == |job.ts| {
      SplitTurns(job, i, s);
    } else {
      SplitStep(job, i, s);
      match TurnAt(job, i, s)
      case Stops =>
      case Skips => FullToTheEnd(job, i + 1, Plainly(s, job.ts[i]));
      case Takes(start, len) => FullToTheEnd(job, i + 1, Taking(s, job.ts[i], Match(job, i).value, start, len));
      case Closes =>
        ClosesFull(job, i, s);
        FullToTheEnd(job, i, Closed(job, s));
    }
  }

  /** Every piece but the last has no room left for some source. */
  lemma PiecesAreFull(job: Job, k: nat)
    requires Splittable(job) && SplitOf(job).Some? && k + 1 < |SplitOf(job).value|
    ensures Full(job, SplitOf(job).value[k].ranges)
  {
    hide SplitFrom, Full, Union, PieceOf, Directory;
    FullToTheEnd(job, 0, StartProgress(job));
    var s := SplitFrom(job, 0, StartProgress(job)).value;
    assert SplitOf(job).value[k] in s.ps;
  }

  /** The blocks that the sources of the first `i` target chunks occupy, counted for each. */
  ghost function Demand(job: Job, i: nat): (n: nat)
    requires Splittable(job) && i <= |job.ts|
  {
    if i == 0 then 0
    else if Match(job, i - 1).None? then Demand(job, i - 1)
    else
      var c := Match(job, i - 1).value;
      Demand(job, i - 1) + if c.len == 0 then 0 else Occupied(c.start, c.len).second - Occupied(c.start, c.len).first
  }

  lemma {:induction false} DemandGrows(job: Job, i: nat, n: nat)
    requires Splittable(job) && i <= n <= |job.ts|
    ensures Demand(job, i) <= Demand(job, n)
  {
    hide Match, Occupied;
    if i < n { DemandGrows(job, i, n - 1); }
  }

  /** While everything fits, no piece is closed. */
  lemma NothingCloses(job: Job, i: nat, s: Progress)
    requires Splittable(job) && i <= |job.ts| && Demand(job, |job.ts|) * BLOCK_SIZE <= job.limit
    requires s.ps == [] && Separated(s.ranges) && Total(s.ranges) <= Demand(job, i)
    ensures SplitFrom(job, i, s).Some? && SplitFrom(job, i, s).value.ps == []
    decreases |job.ts| - i
  {
    hide SplitFrom, Union, Match, Separated, Total, Occupied, UnusedPart;
    if i == |job.ts| {
      SplitTurns(job, i, s);
    } else {
      SplitStep(job, i, s);
      if Match(job, i).None? {
        NothingCloses(job, i + 1, Plainly(s, job.ts[i]));
      } else {
        var c := Match(job, i).value;
        MatchIsLong(job, i);
        BlocksHoldBytes(c.start, c.len);
        DemandGrows(job, i + 1, |job.ts|);
        match UnusedPart(c.start, c.len, s.used)
        case None => NothingCloses(job, i + 1, Plainly(s, job.ts[i]));
        case Some((start, len)) =>
          PartTotal(s.ranges, c, start, len);
          NothingCloses(job, i + 1, Taking(s, job.ts[i], c, start, len));
      }
    }
  }

  lemma PartTotal(ranges: seq<Range>, c: ImageChunk, start: nat, len: nat)
    requires Separated(ranges) && 0 < len && c.start <= start && start + len <= c.start + c.len
    ensures var all := Union(ranges, [Occupied(start, len)]);
            && Separated(all)
            && Total(all) <= Total(ranges) + Occupied(c.start, c.len).second - Occupied(c.start, c.len).first
  {
    hide Union, Separated;
    var r := Occupied(start, len);
    assert NonEmpty([r]) by { EmptySeparated(r); }
    UnionCovers(ranges, [r]);
    assert [r][1..] == [];
    assert Total([r]) == r.second - r.first;
  }

  /** When all sources fit into the limit by their blocks, there is one piece. */
  lemma SourcesThatFit(job: Job)
    requires Splittable(job) && Demand(job, |job.ts|) * BLOCK_SIZE <= job.limit
    ensures SplitOf(job).Some? && |SplitOf(job).value| <= 1
  {
    hide SplitFrom, Union, Directory, PieceOf, Match, Occupied;
    NothingCloses(job, 0, StartProgress(job));
  }

  /** A single target chunk never needs two pieces, though the blocks of its source may exceed the limit. */
  lemma OneChunkOnePiece(job: Job)
    requires Splittable(job) && |job.ts| == 1
    ensures SplitOf(job).Some? <==> Match(job, 0).None? || Match(job, 0).value.len <= job.limit
    ensures SplitOf(job).Some? ==> |SplitOf(job).value| <= 1
  {
    hide SplitFrom, Union, Directory, PieceOf, Match, Occupied, UnusedPart;
    var s := StartProgress(job);
    if Match(job, 0).Some? { MatchIsLong(job, 0); }
    SplitStep(job, 0, s);
    match TurnAt(job, 0, s)
    case Stops =>
    case Skips => SplitTurns(job, 1, Plainly(s, job.ts[0]));
    case Takes(start, len) => SplitTurns(job, 1, Taking(s, job.ts[0], Match(job, 0).value, start, len));
    case Closes =>
  }

  /** One block's worth of source that lies across two blocks: over the limit by blocks, in one piece all the same. */
  lemma BlocksMayExceed(lib: Library, tgtFile: seq<byte>, srcFile: seq<byte>)
    ensures var job := Job(lib, [NormalPart(0, 4096, "a")], tgtFile,
                           [NormalPart(1, 4096, "a"), NormalPart(12288, 100, "")], srcFile, 4096);
            && Splittable(job) && Picks(job, [0]) && Crosses(job.ts[0])
            && |BlocksOf(job, [0])| * BLOCK_SIZE == 8192 && job.limit == 4096
            && SplitOf(job).Some? && |SplitOf(job).value| <= 1
  {
    hide SplitOf;
    var c := NormalPart(1, 4096, "a");
    var job := Job(lib, [NormalPart(0, 4096, "a")], tgtFile, [c, NormalPart(12288, 100, "")], srcFile, 4096);
    assert Candidate(job.ss[0], "a", true);
    assert Match(job, 0) == Some(c);
    assert Free(job, 0);
    RangeCount(Occupied(1, 4096));
    assert BlocksOf(job, [0][..0]) == {};
    assert BlocksOf(job, [0]) == RangeCells(Occupied(1, 4096));
    OneChunkOnePiece(job);
  }
}
