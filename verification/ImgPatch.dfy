/**
 * The patch interpreter (ApplyImagePatch): what a patch file means, and the theorem that a file
 * written by WritePatchDataToFd means what its chunks describe.
 */
module ImgPatch {
  import opened Bytes
  import opened Codecs
  import opened PatchFile

  // ----- the meaning of a patch file

  /** What one chunk record does: emit bytes, be refused, or abort the process. */
  datatype ChunkResult = Emits(bytes: seq<byte>, next: nat) | Rejects | Aborts

  datatype Outcome = Patched(output: seq<byte>) | Rejected | Aborted

  /** ApplyBSDiffPatch: the bsdiff patch that starts at `offset`, applied to `src`. */
  function BsdiffAt(lib: Library, src: seq<byte>, patch: seq<byte>, offset: nat, next: nat): (r: ChunkResult) {
    if offset > |patch| then Aborts
    else match lib.bspatch(src, patch[offset..])
      case None => Rejects
      case Some(pieces) => Emits(Flatten(pieces), next)
  }

  /** The recompressing form: the patched data must be non-empty and of the announced length. */
  function StreamedAt(lib: Library, src: seq<byte>, patch: seq<byte>, offset: nat,
                      expected: nat, params: DeflateParams, next: nat): (r: ChunkResult)
  {
    if !lib.starts(params) then Rejects
    else match BsdiffAt(lib, src, patch, offset, next)
      case Emits(data, _) =>
        if data == [] || |data| != expected then Rejects else Emits(lib.deflated(params, data), next)
      case other => other
  }

  function NormalChunk(lib: Library, old_: seq<byte>, patch: seq<byte>, pos: nat): (r: ChunkResult) {
    if pos + 24 > |patch| then Rejects
    else
      var start, len := ReadSize(patch, pos), ReadSize(patch, pos + 8);
      if AddSize(start, len) > |old_| then Rejects
      else if start + len > |old_| then Aborts
      else BsdiffAt(lib, old_[start..start + len], patch, ReadSize(patch, pos + 16), pos + 24)
  }

  function RawChunk(patch: seq<byte>, pos: nat): (r: ChunkResult) {
    if pos + 4 > |patch| then Rejects
    else
      var len := Int32AsSize(ReadInt32(patch, pos));
      if AddSize(pos + 4, len) > |patch| then Rejects
      else if pos + 4 + len > |patch| then Aborts
      else Emits(patch[pos + 4..pos + 4 + len], pos + 4 + len)
  }

  /** The bonus data belongs to chunk 1 alone. */
  function BonusFor(bonus: Option<seq<byte>>, i: nat): (b: seq<byte>) {
    if i == 1 && bonus.Some? then bonus.value else []
  }

  /** The inflated source of a deflate chunk, completed with the bonus data. */
  function Expanded(lib: Library, raw: seq<byte>, expandedLen: nat, bonus: seq<byte>): (r: Option<seq<byte>>) {
    if expandedLen == 0 then Some([])
    else match lib.inflate(raw)
      case NotDeflate => None
      case Inflated(data, _) =>
        if |data| > expandedLen || expandedLen - |data| != |bonus| then None else Some(data + bonus)
  }

  function ReadParams(patch: seq<byte>, at: nat): (q: DeflateParams)
    requires at + 20 <= |patch|
  {
    DeflateParams(ReadInt32(patch, at), ReadInt32(patch, at + 4), ReadInt32(patch, at + 8),
                  ReadInt32(patch, at + 12), ReadInt32(patch, at + 16))
  }

  function DeflateChunk(lib: Library, old_: seq<byte>, patch: seq<byte>, bonus: seq<byte>, pos: nat): (r: ChunkResult) {
    if pos + 60 > |patch| then Rejects
    else
      var start, len := ReadSize(patch, pos), ReadSize(patch, pos + 8);
      var expandedLen := ReadSize(patch, pos + 24);
      if AddSize(start, len) > |old_| then Rejects
      else if start + len > |old_| || expandedLen >= TWO_63 then Aborts
      else match Expanded(lib, old_[start..start + len], expandedLen, bonus)
        case None => Rejects
        case Some(src) =>
          StreamedAt(lib, src, patch, ReadSize(patch, pos + 16), ReadSize(patch, pos + 32),
                     ReadParams(patch, pos + 40), pos + 60)
  }

  function Chunk(lib: Library, old_: seq<byte>, patch: seq<byte>, bonus: seq<byte>, pos: nat): (r: ChunkResult) {
    if pos + 4 > |patch| then Rejects
    else
      var kind := ReadInt32(patch, pos);
      if kind == CHUNK_NORMAL then NormalChunk(lib, old_, patch, pos + 4)
      else if kind == CHUNK_RAW then RawChunk(patch, pos + 4)
      else if kind == CHUNK_DEFLATE then DeflateChunk(lib, old_, patch, bonus, pos + 4)
      else Rejects
  }

  /** Chunks i, i+1, .., n-1, whose records start at `pos`. */
  function Chunks(lib: Library, old_: seq<byte>, patch: seq<byte>, bonus: Option<seq<byte>>,
                  i: nat, n: int, pos: nat): (r: Outcome)
    decreases n - i
  {
    if i >= n then Patched([])
    else match Chunk(lib, old_, patch, BonusFor(bonus, i), pos)
      case Rejects => Rejected
      case Aborts => Aborted
      case Emits(bytes, next) =>
        match Chunks(lib, old_, patch, bonus, i + 1, n, next)
        case Patched(rest) => Patched(bytes + rest)
        case other => other
  }

  /** The meaning of a patch file on an old file. */
  function Meaning(lib: Library, old_: seq<byte>, patch: seq<byte>, bonus: Option<seq<byte>>): (r: Outcome) {
    if |patch| < 12 || patch[..8] != MAGIC then Rejected
    else Chunks(lib, old_, patch, bonus, 0, ReadInt32(patch, 8), 12)
  }

  // ----- a written file means what its chunks describe

  /**
   * Patch chunk `p` was made for the target bytes `target`, whose data for the patch is `plain`
   * (the bytes themselves, or their uncompressed form in a deflate chunk).
   */
  ghost predicate Describes(lib: Library, old_: seq<byte>, bonus: seq<byte>,
                            p: PatchChunk, plain: seq<byte>, target: seq<byte>)
  {
    match p.kind
    case RawPatch => p.data == target
    case NormalPatch =>
      && p.srcStart + p.srcLen <= |old_|
      && p.data == lib.bsdiff(old_[p.srcStart..p.srcStart + p.srcLen], target)
    case DeflatePatch =>
      && p.srcStart + p.srcLen <= |old_|
      && p.srcExpanded < TWO_63 && p.tgtExpanded == |plain| < TWO_63
      && lib.starts(Params(p.level))
      && lib.deflated(Params(p.level), plain) == target
      && var src := Expanded(lib, old_[p.srcStart..p.srcStart + p.srcLen], p.srcExpanded, bonus);
         src.Some? ==> p.data == lib.bsdiff(src.value, plain)
  }

  /**
   * The chunks that the interpreter refuses: deflate chunks with nothing to compress, or whose
   * source does not inflate to the announced length.
   */
  ghost predicate Refused(lib: Library, old_: seq<byte>, bonus: seq<byte>, p: PatchChunk, plain: seq<byte>) {
    && p.kind == DeflatePatch
    && (plain == [] ||
        (p.srcStart + p.srcLen <= |old_| &&
         Expanded(lib, old_[p.srcStart..p.srcStart + p.srcLen], p.srcExpanded, bonus).None?))
  }

  /** A window of a sequence inside a window of it. */
  lemma SubWindow(s: seq<byte>, at: nat, w: seq<byte>, i: nat, j: nat)
    requires at + |w| <= |s| && s[at..at + |w|] == w
    requires i <= j <= |w|
    ensures s[at + i..at + j] == w[i..j]
  {
    forall k | i <= k < j
      ensures s[at + k] == w[k]
    {
      assert s[at..at + |w|][k] == s[at + k];
    }
  }

  lemma ReadSourceFields(patch: seq<byte>, at: nat, p: PatchChunk, offset: nat)
    requires at + 24 <= |patch| && patch[at..at + 24] == SourceFields(p, offset)
    requires p.srcStart < TWO_64 && p.srcLen < TWO_64 && offset < TWO_64
    ensures ReadSize(patch, at) == p.srcStart
    ensures ReadSize(patch, at + 8) == p.srcLen
    ensures ReadSize(patch, at + 16) == offset
  {
    hide SizeBytes, ReadSize;
    var w := SourceFields(p, offset);
    var a, b, c := SizeBytes(p.srcStart), SizeBytes(p.srcLen), SizeBytes(offset);
    assert w == a + b + c;
    assert w[0..8] == a && w[8..16] == b && w[16..24] == c;
    SubWindow(patch, at, w, 0, 8);
    SubWindow(patch, at, w, 8, 16);
    SubWindow(patch, at, w, 16, 24);
    ReadSizeBack(p.srcStart, patch, at);
    ReadSizeBack(p.srcLen, patch, at + 8);
    ReadSizeBack(offset, patch, at + 16);
  }

  lemma ReadLengthFields(patch: seq<byte>, at: nat, p: PatchChunk)
    requires at + 16 <= |patch| && patch[at..at + 16] == LengthFields(p)
    requires p.srcExpanded < TWO_64 && p.tgtExpanded < TWO_64
    ensures ReadSize(patch, at) == p.srcExpanded
    ensures ReadSize(patch, at + 8) == p.tgtExpanded
  {
    hide SizeBytes, ReadSize;
    var w := LengthFields(p);
    var a, b := SizeBytes(p.srcExpanded), SizeBytes(p.tgtExpanded);
    assert w == a + b;
    assert w[0..8] == a && w[8..16] == b;
    SubWindow(patch, at, w, 0, 8);
    SubWindow(patch, at, w, 8, 16);
    ReadSizeBack(p.srcExpanded, patch, at);
    ReadSizeBack(p.tgtExpanded, patch, at + 8);
  }

  lemma ReadEncoderFields(patch: seq<byte>, at: nat, q: DeflateParams)
    requires at + 20 <= |patch| && patch[at..at + 20] == EncoderFields(q)
    ensures ReadParams(patch, at) == q
  {
    hide Int32Bytes, ReadInt32;
    var w := EncoderFields(q);
    var a, b, c, d, e := Int32Bytes(q.level), Int32Bytes(q.scheme), Int32Bytes(q.windowBits),
      Int32Bytes(q.memLevel), Int32Bytes(q.strategy);
    assert w == a + b + c + d + e;
    assert w[0..4] == a && w[4..8] == b && w[8..12] == c && w[12..16] == d && w[16..20] == e;
    SubWindow(patch, at, w, 0, 4);
    SubWindow(patch, at, w, 4, 8);
    SubWindow(patch, at, w, 8, 12);
    SubWindow(patch, at, w, 12, 16);
    SubWindow(patch, at, w, 16, 20);
    ReadInt32Back(q.level, patch, at);
    ReadInt32Back(q.scheme, patch, at + 4);
    ReadInt32Back(q.windowBits, patch, at + 8);
    ReadInt32Back(q.memLevel, patch, at + 12);
    ReadInt32Back(q.strategy, patch, at + 16);
  }

  /** The patch data that a record points to. */
  ghost predicate BodyAt(patch: seq<byte>, offset: nat, p: PatchChunk) {
    && offset + |p.data| <= |patch|
    && patch[offset..offset + |p.data|] == p.data
  }

  lemma BsdiffAtBody(lib: Library, src: seq<byte>, patch: seq<byte>, offset: nat, next: nat,
                     p: PatchChunk, plain: seq<byte>)
    requires Laws(lib) && BodyAt(patch, offset, p)
    requires p.data == lib.bsdiff(src, plain)
    ensures BsdiffAt(lib, src, patch, offset, next) == Emits(plain, next)
  {
    var rest := patch[offset + |p.data|..];
    assert patch[offset..] == lib.bsdiff(src, plain) + rest;
  }

  lemma NormalRecord(lib: Library, old_: seq<byte>, patch: seq<byte>, bonus: seq<byte>, pos: nat,
                     p: PatchChunk, plain: seq<byte>, target: seq<byte>, offset: nat)
    requires Laws(lib) && |old_| < TWO_63 && |patch| < TWO_63
    requires p.kind == NormalPatch && Describes(lib, old_, bonus, p, plain, target)
    requires pos + 24 <= |patch| && patch[pos..pos + 24] == Record(p, offset)
    requires BodyAt(patch, offset, p)
    ensures NormalChunk(lib, old_, patch, pos) == Emits(target, pos + 24)
  {
    hide SourceFields, ReadSize, AddSize, Laws, BsdiffAt;
    SmallSum(p.srcStart, p.srcLen);
    ReadSourceFields(patch, pos, p, offset);
    BsdiffAtBody(lib, old_[p.srcStart..p.srcStart + p.srcLen], patch, offset, pos + 24, p, target);
  }

  lemma RawRecord(patch: seq<byte>, pos: nat, p: PatchChunk, offset: nat)
    requires |patch| < TWO_63
    requires p.kind == RawPatch && |p.data| < TWO_31
    requires pos + 4 + |p.data| <= |patch| && patch[pos..pos + 4 + |p.data|] == Record(p, offset)
    ensures RawChunk(patch, pos) == Emits(p.data, pos + 4 + |p.data|)
  {
    hide Int32Bytes, ReadInt32, SizeAsInt32, Int32AsSize, AddSize;
    SmallSizeSurvives(|p.data|);
    SmallSum(pos + 4, |p.data|);
    var w := Record(p, offset);
    var size := Int32Bytes(SizeAsInt32(|p.data|));
    assert w == size + p.data;
    assert w[0..4] == size && w[4..4 + |p.data|] == p.data;
    SubWindow(patch, pos, w, 0, 4);
    SubWindow(patch, pos, w, 4, 4 + |p.data|);
    ReadInt32Back(SizeAsInt32(|p.data|), patch, pos);
  }

  lemma DeflateRecord(lib: Library, old_: seq<byte>, patch: seq<byte>, bonus: seq<byte>, pos: nat,
                      p: PatchChunk, plain: seq<byte>, target: seq<byte>, offset: nat)
    requires Laws(lib) && |old_| < TWO_63 && |patch| < TWO_63
    requires p.kind == DeflatePatch && Describes(lib, old_, bonus, p, plain, target)
    requires pos + 60 <= |patch| && patch[pos..pos + 60] == Record(p, offset)
    requires BodyAt(patch, offset, p)
    ensures DeflateChunk(lib, old_, patch, bonus, pos) ==
            if Refused(lib, old_, bonus, p, plain) then Rejects else Emits(target, pos + 60)
  {
    hide SourceFields, LengthFields, EncoderFields, ReadSize, ReadParams, AddSize, Laws, BsdiffAt, Expanded;
    SmallSum(p.srcStart, p.srcLen);
    var w := Record(p, offset);
    var a, b, c := SourceFields(p, offset), LengthFields(p), EncoderFields(Params(p.level));
    assert w == a + b + c;
    assert w[0..24] == a && w[24..40] == b && w[40..60] == c;
    SubWindow(patch, pos, w, 0, 24);
    SubWindow(patch, pos, w, 24, 40);
    SubWindow(patch, pos, w, 40, 60);
    ReadSourceFields(patch, pos, p, offset);
    ReadLengthFields(patch, pos + 24, p);
    ReadEncoderFields(patch, pos + 40, Params(p.level));
    var src := Expanded(lib, old_[p.srcStart..p.srcStart + p.srcLen], p.srcExpanded, bonus);
    if src.Some? {
      BsdiffAtBody(lib, src.value, patch, offset, pos + 60, p, plain);
    }
  }

  lemma OneRecord(lib: Library, old_: seq<byte>, patch: seq<byte>, bonus: seq<byte>, pos: nat,
                  p: PatchChunk, plain: seq<byte>, target: seq<byte>, offset: nat)
    requires Laws(lib) && |old_| < TWO_63 && |patch| < TWO_63
    requires Describes(lib, old_, bonus, p, plain, target) && (p.kind == RawPatch ==> |p.data| < TWO_31)
    requires RecordAt(patch, pos, p, offset)
    ensures Chunk(lib, old_, patch, bonus, pos) ==
            if Refused(lib, old_, bonus, p, plain) then Rejects else Emits(target, pos + HeaderSize(p))
  {
    hide Int32Bytes, ReadInt32, Record, NormalChunk, RawChunk, DeflateChunk, Laws, BodyAt;
    var w := Header(p, offset);
    var code := Int32Bytes(TypeCode(p.kind));
    assert w == code + Record(p, offset);
    assert w[0..4] == code && w[4..HeaderSize(p)] == Record(p, offset);
    SubWindow(patch, pos, w, 0, 4);
    SubWindow(patch, pos, w, 4, HeaderSize(p));
    ReadInt32Back(TypeCode(p.kind), patch, pos);
    match p.kind {
      case NormalPatch => NormalRecord(lib, old_, patch, bonus, pos + 4, p, plain, target, offset);
      case RawPatch => RawRecord(patch, pos + 4, p, offset);
      case DeflatePatch => DeflateRecord(lib, old_, patch, bonus, pos + 4, p, plain, target, offset);
    }
  }

  ghost predicate AllDescribe(lib: Library, old_: seq<byte>, bonus: Option<seq<byte>>, first: nat,
                              ps: seq<PatchChunk>, plains: seq<seq<byte>>, targets: seq<seq<byte>>)
  {
    && |ps| == |plains| == |targets|
    && forall k :: 0 <= k < |ps| ==>
         Describes(lib, old_, BonusFor(bonus, first + k), ps[k], plains[k], targets[k])
  }

  ghost predicate SomeRefused(lib: Library, old_: seq<byte>, bonus: Option<seq<byte>>, first: nat,
                              ps: seq<PatchChunk>, plains: seq<seq<byte>>)
    requires |ps| == |plains|
  {
    exists k :: 0 <= k < |ps| && Refused(lib, old_, BonusFor(bonus, first + k), ps[k], plains[k])
  }

  /** The records of `ps` start at `pos`, and their bsdiff patches at `offset`. */
  ghost predicate Layout(patch: seq<byte>, pos: nat, ps: seq<PatchChunk>, offset: nat) {
    && pos + HeaderTotal(ps) <= |patch|
    && patch[pos..pos + HeaderTotal(ps)] == Headers(ps, offset)
    && offset <= |patch| && patch[offset..] == Bodies(ps)
  }

  /** The record of `p` is at `pos` and points to its bsdiff patch. */
  ghost predicate RecordAt(patch: seq<byte>, pos: nat, p: PatchChunk, offset: nat) {
    && pos + HeaderSize(p) <= |patch| && patch[pos..pos + HeaderSize(p)] == Header(p, offset)
    && (p.kind != RawPatch ==> BodyAt(patch, offset, p))
  }

  lemma {:induction false} RemainingRecords(
      lib: Library, old_: seq<byte>, patch: seq<byte>, bonus: Option<seq<byte>>, i: nat, n: int, pos: nat,
      ps: seq<PatchChunk>, plains: seq<seq<byte>>, targets: seq<seq<byte>>, offset: nat)
    requires Laws(lib) && |old_| < TWO_63 && |patch| < TWO_63
    requires i + |ps| == n && AllDescribe(lib, old_, bonus, i, ps, plains, targets)
    requires Layout(patch, pos, ps, offset) && RawsFit(ps)
    ensures Chunks(lib, old_, patch, bonus, i, n, pos) ==
            if SomeRefused(lib, old_, bonus, i, ps, plains) then Rejected else Patched(Flatten(targets))
    decreases |ps|
  {
    hide Layout, RecordAt, Chunk, AllDescribe, SomeRefused, Refused, Laws, BonusFor;
    if ps == [] {
      NothingLeft(lib, old_, bonus, i, ps, plains, targets);
    } else {
      var p := ps[0];
      var after := offset + |Body(p)|;
      FirstRecord(patch, pos, ps, offset);
      RestDescribe(lib, old_, bonus, i, ps, plains, targets);
      OneRecord(lib, old_, patch, BonusFor(bonus, i), pos, p, plains[0], targets[0], offset);
      RemainingRecords(lib, old_, patch, bonus, i + 1, n, pos + HeaderSize(p),
                       ps[1..], plains[1..], targets[1..], after);
      RefusedHead(lib, old_, bonus, i, ps, plains);
    }
  }

  lemma NothingLeft(lib: Library, old_: seq<byte>, bonus: Option<seq<byte>>, i: nat,
                    ps: seq<PatchChunk>, plains: seq<seq<byte>>, targets: seq<seq<byte>>)
    requires ps == [] && AllDescribe(lib, old_, bonus, i, ps, plains, targets)
    ensures |plains| == 0 && targets == [] && !SomeRefused(lib, old_, bonus, i, ps, plains)
  {}

  lemma FirstRecord(patch: seq<byte>, pos: nat, ps: seq<PatchChunk>, offset: nat)
    requires ps != [] && Layout(patch, pos, ps, offset)
    ensures RecordAt(patch, pos, ps[0], offset)
    ensures Layout(patch, pos + HeaderSize(ps[0]), ps[1..], offset + |Body(ps[0])|)
  {
    hide Header;
    FirstHeader(patch, pos, ps, offset);
    FirstBody(patch, ps, offset);
  }

  lemma {:induction false} FirstHeader(patch: seq<byte>, pos: nat, ps: seq<PatchChunk>, offset: nat)
    requires ps != [] && pos + HeaderTotal(ps) <= |patch|
    requires patch[pos..pos + HeaderTotal(ps)] == Headers(ps, offset)
    ensures var (n, rest) := (HeaderSize(ps[0]), ps[1..]);
            && HeaderTotal(ps) == n + HeaderTotal(rest)
            && patch[pos..pos + n] == Header(ps[0], offset)
            && patch[pos + n..pos + n + HeaderTotal(rest)] == Headers(rest, offset + |Body(ps[0])|)
  {
    hide Header, HeaderSize, Body;
    var p, rest := ps[0], ps[1..];
    var w := Headers(ps, offset);
    assert w == Header(p, offset) + Headers(rest, offset + |Body(p)|);
    assert w[0..HeaderSize(p)] == Header(p, offset);
    SubWindow(patch, pos, w, 0, HeaderSize(p));
    SubWindow(patch, pos, w, HeaderSize(p), |w|);
  }

  lemma {:induction false} FirstBody(patch: seq<byte>, ps: seq<PatchChunk>, offset: nat)
    requires ps != [] && offset <= |patch| && patch[offset..] == Bodies(ps)
    ensures var after := offset + |Body(ps[0])|;
            after <= |patch| && patch[offset..after] == Body(ps[0]) && patch[after..] == Bodies(ps[1..])
  {
    hide Body;
    var after := offset + |Body(ps[0])|;
    assert patch[offset..] == Body(ps[0]) + Bodies(ps[1..]);
    assert patch[offset..][|Body(ps[0])|..] == patch[after..];
    assert patch[offset..after] == patch[offset..][..|Body(ps[0])|];
  }

  lemma RestDescribe(lib: Library, old_: seq<byte>, bonus: Option<seq<byte>>, i: nat,
                     ps: seq<PatchChunk>, plains: seq<seq<byte>>, targets: seq<seq<byte>>)
    requires ps != [] && AllDescribe(lib, old_, bonus, i, ps, plains, targets)
    ensures |ps| == |plains| == |targets|
    ensures Describes(lib, old_, BonusFor(bonus, i), ps[0], plains[0], targets[0])
    ensures AllDescribe(lib, old_, bonus, i + 1, ps[1..], plains[1..], targets[1..])
  {
    hide Describes;
    assert Describes(lib, old_, BonusFor(bonus, i + 0), ps[0], plains[0], targets[0]);
    forall k | 0 <= k < |ps[1..]|
      ensures Describes(lib, old_, BonusFor(bonus, i + 1 + k), ps[1..][k], plains[1..][k], targets[1..][k])
    {
      assert Describes(lib, old_, BonusFor(bonus, i + (k + 1)), ps[k + 1], plains[k + 1], targets[k + 1]);
    }
  }

  lemma RefusedHead(lib: Library, old_: seq<byte>, bonus: Option<seq<byte>>, i: nat,
                    ps: seq<PatchChunk>, plains: seq<seq<byte>>)
    requires |ps| == |plains| && ps != []
    ensures SomeRefused(lib, old_, bonus, i, ps, plains) <==>
            Refused(lib, old_, BonusFor(bonus, i), ps[0], plains[0]) ||
            SomeRefused(lib, old_, bonus, i + 1, ps[1..], plains[1..])
  {
    hide Refused;
    if k :| 0 <= k < |ps| && Refused(lib, old_, BonusFor(bonus, i + k), ps[k], plains[k]) {
      if k > 0 { assert Refused(lib, old_, BonusFor(bonus, i + 1 + (k - 1)), ps[1..][k - 1], plains[1..][k - 1]); }
    }
    if Refused(lib, old_, BonusFor(bonus, i), ps[0], plains[0]) {
      assert Refused(lib, old_, BonusFor(bonus, i + 0), ps[0], plains[0]);
    }
    if k :| 0 <= k < |ps[1..]| && Refused(lib, old_, BonusFor(bonus, i + 1 + k), ps[1..][k], plains[1..][k]) {
      assert Refused(lib, old_, BonusFor(bonus, i + (k + 1)), ps[k + 1], plains[k + 1]);
    }
  }

  /**
   * Meaning preservation. The file written for chunks that describe the target pieces means the
   * whole target, unless some chunk is refused: then so is the file.
   */
  lemma WrittenFileMeansTarget(lib: Library, old_: seq<byte>, bonus: Option<seq<byte>>,
                               ps: seq<PatchChunk>, plains: seq<seq<byte>>, targets: seq<seq<byte>>)
    requires Laws(lib) && |old_| < TWO_63
    requires Encodable(ps) && AllDescribe(lib, old_, bonus, 0, ps, plains, targets)
    ensures Meaning(lib, old_, File(ps), bonus) ==
            if SomeRefused(lib, old_, bonus, 0, ps, plains) then Rejected else Patched(Flatten(targets))
  {
    hide Int32Bytes, ReadInt32, Headers, Bodies, Chunks, Laws, AllDescribe, SomeRefused, HeaderTotal;
    var patch := File(ps);
    var count := Int32Bytes(SizeAsInt32(|ps|));
    var heads, bodies := Headers(ps, 12 + HeaderTotal(ps)), Bodies(ps);
    assert patch == MAGIC + count + heads + bodies;
    assert patch[..8] == MAGIC && patch[8..12] == count;
    assert patch[12..12 + HeaderTotal(ps)] == heads;
    assert patch[12 + HeaderTotal(ps)..] == bodies;
    ReadInt32Back(SizeAsInt32(|ps|), patch, 8);
    RemainingRecords(lib, old_, patch, bonus, 0, |ps|, 12, ps, plains, targets, 12 + HeaderTotal(ps));
  }
}
