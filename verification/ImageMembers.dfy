/** What image mode makes of the gzip members of two files: which are found, and which stay compressed. */
module ImageMembers {
  import opened Bytes
  import opened Codecs
  import opened ImageChunks
  import opened ImageMode

  // ----- members

  /** A gzip header at `pos`, a body that inflates, and a footer in the file that gives the inflated size. */
  predicate IsMember(lib: Library, content: seq<byte>, pos: nat) {
    && pos + 18 <= |content| && content[pos..pos + 4] == [0x1f, 0x8b, 0x08, 0x00]
    && var r := lib.inflate(content[pos + 10..]);
       && r.Inflated? && pos + 10 + r.consumed + 8 <= |content|
       && FromLittleEndian(content[pos + 14 + r.consumed..pos + 18 + r.consumed]) == |r.data|
  }

  /** `pos` lies within ten bytes of an earlier gzip header, or within an earlier member. */
  ghost predicate Swallowed(lib: Library, content: seq<byte>, pos: nat) {
    exists q :: 0 <= q < pos && GzipAt(content, q) &&
      (pos < q + 10 || (q + 10 <= |content| && Body(lib, content, q).Inflated? &&
                        pos < q + 10 + Body(lib, content, q).consumed + 8))
  }

  /** The compressed chunk of the member at `pos`. */
  function BodyChunk(lib: Library, content: seq<byte>, pos: nat): (c: ImageChunk)
    requires IsMember(lib, content, pos)
  {
    var r := lib.inflate(content[pos + 10..]);
    ImageChunk(Deflate, pos + 10, r.consumed, 6, r.data, "")
  }

  lemma MemberIsAccepted(lib: Library, content: seq<byte>, pos: nat, beyond: nat -> uint32)
    requires IsMember(lib, content, pos)
    ensures GzipAt(content, pos) && MemberAccepted(lib, content, pos, beyond)
    ensures Body(lib, content, pos).Inflated? && BodyChunk(lib, content, pos) in Member(lib, content, pos)
  {
    hide FromLittleEndian;
    assert Member(lib, content, pos)[1] == BodyChunk(lib, content, pos);
  }

  /** The scan from `from` finds every member behind it that is not swallowed. */
  lemma {:induction false} MemberIsFoundFrom(lib: Library, content: seq<byte>, from: nat, pos: nat,
                                             beyond: nat -> uint32)
    requires IsMember(lib, content, pos) && from <= pos && !Swallowed(lib, content, pos)
    ensures BodyChunk(lib, content, pos) in Scan(lib, content, from, beyond)
    decreases |content| - from
  {
    hide MemberAccepted, IsMember, Member, BodyChunk, Body;
    MemberIsAccepted(lib, content, pos, beyond);
    MemberFits(lib, content, pos);
    var (cs, next) := ScanStep(lib, content, from, beyond);
    if from == pos {
      assert cs == Member(lib, content, pos);
    } else {
      StepStopsBefore(lib, content, from, pos, beyond);
      MemberIsFoundFrom(lib, content, next, pos, beyond);
    }
  }

  lemma MemberFits(lib: Library, content: seq<byte>, pos: nat)
    requires IsMember(lib, content, pos)
    ensures pos + 18 <= |content|
  {}

  lemma StepStopsBefore(lib: Library, content: seq<byte>, from: nat, pos: nat, beyond: nat -> uint32)
    requires from < pos && pos + 18 <= |content| && GzipAt(content, pos) && !Swallowed(lib, content, pos)
    ensures ScanStep(lib, content, from, beyond).1 <= pos
  {
    hide Member, FooterAccepted, Body;
  }

  /** Every gzip member of the file that does not begin inside another one becomes a deflate chunk. */
  lemma MemberIsFound(lib: Library, content: seq<byte>, pos: nat, beyond: nat -> uint32)
    requires IsMember(lib, content, pos) && !Swallowed(lib, content, pos)
    ensures BodyChunk(lib, content, pos) in Scan(lib, content, 0, beyond)
  {
    MemberIsFoundFrom(lib, content, 0, pos, beyond);
  }

  /** And every deflate chunk is one of a member, or has its footer outside the file. */
  lemma {:induction false} FoundIsMember(lib: Library, content: seq<byte>, pos: nat, beyond: nat -> uint32,
                                         c: ImageChunk)
    requires c in Scan(lib, content, pos, beyond) && c.kind == Deflate
    ensures c.start >= 10
    ensures var q: nat := c.start - 10;
            || (IsMember(lib, content, q) && c == BodyChunk(lib, content, q))
            || c.start + c.len + 4 > |content|
    decreases |content| - pos
  {
    hide Scan, ScanStep, IsMember, BodyChunk;
    ScanUnfolds(lib, content, pos, beyond);
    var (cs, next) := ScanStep(lib, content, pos, beyond);
    if c in cs { StepIsMember(lib, content, pos, beyond, c); } else { FoundIsMember(lib, content, next, beyond, c); }
  }

  lemma ScanUnfolds(lib: Library, content: seq<byte>, pos: nat, beyond: nat -> uint32)
    requires Scan(lib, content, pos, beyond) != []
    ensures pos < |content|
    ensures var (cs, next) := ScanStep(lib, content, pos, beyond);
            Scan(lib, content, pos, beyond) == cs + Scan(lib, content, next, beyond)
  {
    hide ScanStep;
  }

  lemma StepIsMember(lib: Library, content: seq<byte>, pos: nat, beyond: nat -> uint32, c: ImageChunk)
    requires pos < |content| && c in ScanStep(lib, content, pos, beyond).0 && c.kind == Deflate
    ensures c.start == pos + 10
    ensures (IsMember(lib, content, pos) && c == BodyChunk(lib, content, pos)) || c.start + c.len + 4 > |content|
  {
    hide FromLittleEndian;
  }

  // ----- survivors

  /** The level at which a target chunk is recompressed: 6, else 9, if either gives the bytes of the file. */
  predicate StaysAt(lib: Library, t: ImageChunk, tgtFile: seq<byte>, s: ImageChunk, srcFile: seq<byte>, level: int32)
    requires InFile(t, tgtFile) && InFile(s, srcFile)
  {
    && t.kind == Deflate && tgtFile[t.start..t.start + t.len] != srcFile[s.start..s.start + s.len]
    && if Reproduces(lib, t, tgtFile, 6) then level == 6 else level == 9 && Reproduces(lib, t, tgtFile, 9)
  }

  lemma PairStays(lib: Library, t: ImageChunk, tgtFile: seq<byte>, s: ImageChunk, srcFile: seq<byte>, c: ImageChunk)
    requires InFile(t, tgtFile) && InFile(s, srcFile) && t.kind == s.kind
    ensures var (t', s') := PairOf(lib, t, tgtFile, s, srcFile);
            && (c.kind == Deflate ==> (c == t' <==> exists level :: StaysAt(lib, t, tgtFile, s, srcFile, level) &&
                                                                    c == t.(level := level)))
            && (s'.kind == Deflate <==> exists level :: StaysAt(lib, t, tgtFile, s, srcFile, level))
            && (s'.kind == Deflate ==> s' == s)
  {
    hide Reproduces;
    var (t', s') := PairOf(lib, t, tgtFile, s, srcFile);
    if t'.kind == Deflate { assert StaysAt(lib, t, tgtFile, s, srcFile, t'.level); }
  }

  lemma KindsAgree(ts: seq<ImageChunk>, ss: seq<ImageChunk>, k: nat)
    requires Kinds(ts) == Kinds(ss) && |ts| == |ss| && k < |ts|
    ensures ts[k].kind == ss[k].kind
  {
    assert Kinds(ts)[k] == Kinds(ss)[k];
  }

  /**
   * The deflate chunks of the target list are the merged target chunks that differ from their source
   * and can be recompressed, with the level that does it.
   */
  lemma SurvivingTargets(lib: Library, ts: seq<ImageChunk>, tgtFile: seq<byte>,
                         ss: seq<ImageChunk>, srcFile: seq<byte>, c: ImageChunk)
    requires Tiles(ts, 0, |tgtFile|) && Tiles(ss, 0, |srcFile|) && Parallel(lib, ts, tgtFile, ss, srcFile).Some?
    requires c.kind == Deflate
    ensures PairsInFile(Merge(ts), tgtFile, Merge(ss), srcFile)
    ensures c in Parallel(lib, ts, tgtFile, ss, srcFile).value.0 <==>
            exists k, level :: 0 <= k < |Merge(ts)| && c == Merge(ts)[k].(level := level) &&
              StaysAt(lib, Merge(ts)[k], tgtFile, Merge(ss)[k], srcFile, level)
  {
    hide Merge, PairOf, StaysAt, Tiles, Collapse, Kinds;
    MergedPairs(ts, tgtFile, ss, srcFile);
    var (ts1, ss1) := (Merge(ts), Merge(ss));
    var pairs := PairTargets(lib, ts1, tgtFile, ss1, srcFile);
    MergedDeflate(pairs, c);
    forall k | 0 <= k < |ts1|
      ensures c == pairs[k] <==> exists level :: StaysAt(lib, ts1[k], tgtFile, ss1[k], srcFile, level) &&
                                                 c == ts1[k].(level := level)
    {
      KindsAgree(ts1, ss1, k);
      PairStays(lib, ts1[k], tgtFile, ss1[k], srcFile, c);
    }
    if c in pairs {
      var k :| 0 <= k < |pairs| && pairs[k] == c;
      var level :| StaysAt(lib, ts1[k], tgtFile, ss1[k], srcFile, level) && c == ts1[k].(level := level);
    }
  }

  /** Their sources stay deflate with them, and no others. */
  lemma SurvivingSources(lib: Library, ts: seq<ImageChunk>, tgtFile: seq<byte>,
                         ss: seq<ImageChunk>, srcFile: seq<byte>, d: ImageChunk)
    requires Tiles(ts, 0, |tgtFile|) && Tiles(ss, 0, |srcFile|) && Parallel(lib, ts, tgtFile, ss, srcFile).Some?
    requires d.kind == Deflate
    ensures PairsInFile(Merge(ts), tgtFile, Merge(ss), srcFile)
    ensures d in Parallel(lib, ts, tgtFile, ss, srcFile).value.1 <==>
            exists k, level :: 0 <= k < |Merge(ts)| && d == Merge(ss)[k] &&
              StaysAt(lib, Merge(ts)[k], tgtFile, Merge(ss)[k], srcFile, level)
  {
    hide Merge, PairOf, StaysAt, Tiles, Collapse, Kinds;
    MergedPairs(ts, tgtFile, ss, srcFile);
    var (ts1, ss1) := (Merge(ts), Merge(ss));
    var pairs := PairSources(lib, ts1, tgtFile, ss1, srcFile);
    MergedDeflate(pairs, d);
    forall k | 0 <= k < |ts1|
      ensures pairs[k].kind == Deflate <==> exists level :: StaysAt(lib, ts1[k], tgtFile, ss1[k], srcFile, level)
      ensures pairs[k].kind == Deflate ==> pairs[k] == ss1[k]
    {
      KindsAgree(ts1, ss1, k);
      PairStays(lib, ts1[k], tgtFile, ss1[k], srcFile, d);
    }
    if d in pairs {
      var k :| 0 <= k < |pairs| && pairs[k] == d;
      var level :| StaysAt(lib, ts1[k], tgtFile, ss1[k], srcFile, level);
    }
  }

  lemma MergedDeflate(cs: seq<ImageChunk>, c: ImageChunk)
    requires c.kind == Deflate
    ensures c in Merge(cs) <==> c in cs
  {
    hide Merge;
    if c in cs { MergeHoldsDeflate(cs, c); }
    if k :| 0 <= k < |Merge(cs)| && Merge(cs)[k] == c { MergeKeepsDeflate(cs, k); }
  }
}
