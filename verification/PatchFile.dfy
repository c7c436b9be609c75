/** The imgdiff patch file (PatchChunk): header sizes, header records and the whole file. */
module PatchFile {
  import opened Bytes
  import opened Codecs

  datatype PatchKind = NormalPatch | DeflatePatch | RawPatch

  datatype PatchChunk = PatchChunk(
    kind: PatchKind,
    srcStart: nat, srcLen: nat, srcExpanded: nat,
    tgtStart: nat, tgtLen: nat, tgtExpanded: nat,
    level: int32, data: seq<byte>)

  const CHUNK_NORMAL: int32 := 0
  const CHUNK_DEFLATE: int32 := 2
  const CHUNK_RAW: int32 := 3

  const METHOD: int32 := 8
  const WINDOWBITS: int32 := -15
  const MEMLEVEL: int32 := 8
  const STRATEGY: int32 := 0

  /** "IMGDIFF2" */
  const MAGIC: seq<byte> := [0x49, 0x4D, 0x47, 0x44, 0x49, 0x46, 0x46, 0x32]

  function Params(level: int32): (p: DeflateParams) {
    DeflateParams(level, METHOD, WINDOWBITS, MEMLEVEL, STRATEGY)
  }

  function TypeCode(kind: PatchKind): (c: int32) {
    match kind
    case NormalPatch => CHUNK_NORMAL
    case DeflatePatch => CHUNK_DEFLATE
    case RawPatch => CHUNK_RAW
  }

  function HeaderSize(p: PatchChunk): (n: nat) {
    match p.kind
    case NormalPatch => 4 + 8 * 3
    case DeflatePatch => 4 + 8 * 5 + 4 * 5
    case RawPatch => 4 + 4 + |p.data|
  }

  function PatchSize(p: PatchChunk): (n: nat) {
    if p.kind == RawPatch then HeaderSize(p) else HeaderSize(p) + |p.data|
  }

  function SourceFields(p: PatchChunk, offset: nat): (s: seq<byte>)
    ensures |s| == 24
  {
    SizeBytes(p.srcStart) + SizeBytes(p.srcLen) + SizeBytes(offset)
  }

  function LengthFields(p: PatchChunk): (s: seq<byte>)
    ensures |s| == 16
  {
    SizeBytes(p.srcExpanded) + SizeBytes(p.tgtExpanded)
  }

  function EncoderFields(q: DeflateParams): (s: seq<byte>)
    ensures |s| == 20
  {
    Int32Bytes(q.level) + Int32Bytes(q.scheme) + Int32Bytes(q.windowBits) +
    Int32Bytes(q.memLevel) + Int32Bytes(q.strategy)
  }

  /** The header record of a chunk whose bsdiff patch starts at `offset`, after its type. */
  function Record(p: PatchChunk, offset: nat): (s: seq<byte>)
    ensures 4 + |s| == HeaderSize(p)
  {
    match p.kind
    case NormalPatch => SourceFields(p, offset)
    case DeflatePatch => SourceFields(p, offset) + LengthFields(p) + EncoderFields(Params(p.level))
    case RawPatch => Int32Bytes(SizeAsInt32(|p.data|)) + p.data
  }

  function Header(p: PatchChunk, offset: nat): (s: seq<byte>)
    ensures |s| == HeaderSize(p)
  {
    Int32Bytes(TypeCode(p.kind)) + Record(p, offset)
  }

  /** What a chunk adds to the part of the file after the headers. */
  function Body(p: PatchChunk): (s: seq<byte>) {
    if p.kind == RawPatch then [] else p.data
  }

  function HeaderTotal(ps: seq<PatchChunk>): (n: nat) {
    if ps == [] then 0 else HeaderSize(ps[0]) + HeaderTotal(ps[1..])
  }

  function SizeTotal(ps: seq<PatchChunk>): (n: nat) {
    if ps == [] then 0 else PatchSize(ps[0]) + SizeTotal(ps[1..])
  }

  function Headers(ps: seq<PatchChunk>, offset: nat): (s: seq<byte>)
    ensures |s| == HeaderTotal(ps)
  {
    if ps == [] then [] else Header(ps[0], offset) + Headers(ps[1..], offset + |Body(ps[0])|)
  }

  function Bodies(ps: seq<PatchChunk>): (s: seq<byte>) {
    if ps == [] then [] else Body(ps[0]) + Bodies(ps[1..])
  }

  /** The file that WritePatchDataToFd appends. */
  function File(ps: seq<PatchChunk>): (s: seq<byte>) {
    MAGIC + Int32Bytes(SizeAsInt32(|ps|)) + Headers(ps, 12 + HeaderTotal(ps)) + Bodies(ps)
  }

  predicate RawsFit(ps: seq<PatchChunk>) {
    forall k :: 0 <= k < |ps| && ps[k].kind == RawPatch ==> |ps[k].data| < TWO_31
  }

  /** Every count and size fits its field. */
  predicate Encodable(ps: seq<PatchChunk>) {
    |ps| < TWO_31 && RawsFit(ps) && |File(ps)| < TWO_63
  }

  lemma {:induction false} SizeIsHeadersAndBodies(ps: seq<PatchChunk>)
    ensures SizeTotal(ps) == HeaderTotal(ps) + |Bodies(ps)|
  {
    if ps != [] { SizeIsHeadersAndBodies(ps[1..]); }
  }

  /** The size recorded in the split info file is the number of bytes written. */
  lemma RecordedSizeIsFileSize(ps: seq<PatchChunk>)
    ensures |File(ps)| == 12 + SizeTotal(ps)
  {
    SizeIsHeadersAndBodies(ps);
  }

  lemma {:induction false} TotalsSnoc(ps: seq<PatchChunk>, p: PatchChunk)
    ensures HeaderTotal(ps + [p]) == HeaderTotal(ps) + HeaderSize(p)
    ensures SizeTotal(ps + [p]) == SizeTotal(ps) + PatchSize(p)
    ensures Bodies(ps + [p]) == Bodies(ps) + Body(p)
  {
    if ps == [] {
      assert ps + [p] == [p];
    } else {
      TotalsSnoc(ps[1..], p);
      assert (ps + [p])[1..] == ps[1..] + [p];
    }
  }

  lemma {:induction false} HeadersSnoc(ps: seq<PatchChunk>, p: PatchChunk, offset: nat)
    ensures Headers(ps + [p], offset) == Headers(ps, offset) + Header(p, offset + |Bodies(ps)|)
  {
    hide Header, HeaderTotal, Body;
    if ps == [] {
      assert ps + [p] == [p];
      assert Headers([p], offset) == Header(p, offset) + Headers([], offset + |Body(p)|);
    } else {
      var next := offset + |Body(ps[0])|;
      assert (ps + [p])[1..] == ps[1..] + [p];
      HeadersSnoc(ps[1..], p, next);
      ConcatAssoc(Header(ps[0], offset), Headers(ps[1..], next), Header(p, next + |Bodies(ps[1..])|));
    }
  }

  /** The file behind a descriptor, as the bytes written to it so far. */
  class OutputFile {
    var written: seq<byte>

    constructor ()
      ensures written == []
    { written := []; }

    method Append(s: seq<byte>)
      modifies this
      ensures written == old(written) + s
    { written := written + s; }
  }

  method WriteHeaderToFd(p: PatchChunk, fd: OutputFile, offset: nat) returns (next: nat)
    modifies fd
    ensures fd.written == old(fd.written) + Header(p, offset)
    ensures next == offset + |Body(p)|
  {
    fd.Append(Int32Bytes(TypeCode(p.kind)));
    next := WriteRecord(p, fd, offset);
    ConcatAssoc(old(fd.written), Int32Bytes(TypeCode(p.kind)), Record(p, offset));
  }

  method WriteRecord(p: PatchChunk, fd: OutputFile, offset: nat) returns (next: nat)
    modifies fd
    ensures fd.written == old(fd.written) + Record(p, offset)
    ensures next == offset + |Body(p)|
  {
    ghost var before := fd.written;
    match p.kind {
      case NormalPatch =>
        WriteSourceFields(p, fd, offset);
        next := offset + |p.data|;
      case DeflatePatch =>
        WriteSourceFields(p, fd, offset);
        WriteLengthFields(p, fd);
        ConcatAssoc(before, SourceFields(p, offset), LengthFields(p));
        WriteEncoderFields(p.level, fd);
        ConcatAssoc(before, SourceFields(p, offset) + LengthFields(p), EncoderFields(Params(p.level)));
        next := offset + |p.data|;
      case RawPatch =>
        ghost var size := Int32Bytes(SizeAsInt32(|p.data|));
        fd.Append(Int32Bytes(SizeAsInt32(|p.data|)));
        fd.Append(p.data);
        ConcatAssoc(before, size, p.data);
        next := offset;
    }
  }

  method WriteLengthFields(p: PatchChunk, fd: OutputFile)
    modifies fd
    ensures fd.written == old(fd.written) + LengthFields(p)
  {
    fd.Append(SizeBytes(p.srcExpanded));
    fd.Append(SizeBytes(p.tgtExpanded));
  }

  method WriteSourceFields(p: PatchChunk, fd: OutputFile, offset: nat)
    modifies fd
    ensures fd.written == old(fd.written) + SourceFields(p, offset)
  {
    fd.Append(SizeBytes(p.srcStart));
    fd.Append(SizeBytes(p.srcLen));
    fd.Append(SizeBytes(offset));
  }

  method WriteEncoderFields(level: int32, fd: OutputFile)
    modifies fd
    ensures fd.written == old(fd.written) + EncoderFields(Params(level))
  {
    fd.Append(Int32Bytes(level));
    fd.Append(Int32Bytes(METHOD));
    fd.Append(Int32Bytes(WINDOWBITS));
    fd.Append(Int32Bytes(MEMLEVEL));
    fd.Append(Int32Bytes(STRATEGY));
  }

  /** Write the headers, then the bsdiff patches that they point to. */
  method WritePatchDataToFd(ps: seq<PatchChunk>, fd: OutputFile)
    modifies fd
    ensures fd.written == old(fd.written) + File(ps)
  {
    hide Headers, Int32Bytes;
    var totalHeaderSize := 12;
    for i := 0 to |ps|
      invariant totalHeaderSize == 12 + HeaderTotal(ps[..i])
      invariant fd.written == old(fd.written)
    {
      TotalsSnoc(ps[..i], ps[i]);
      assert ps[..i + 1] == ps[..i] + [ps[i]];
      totalHeaderSize := totalHeaderSize + HeaderSize(ps[i]);
    }
    assert ps[..|ps|] == ps;

    ghost var before := fd.written;
    ghost var count := Int32Bytes(SizeAsInt32(|ps|));
    ghost var heads := Headers(ps, totalHeaderSize);
    fd.Append(MAGIC);
    fd.Append(Int32Bytes(SizeAsInt32(|ps|)));
    ConcatAssoc(before, MAGIC, count);
    WriteHeaders(ps, fd, totalHeaderSize);
    ConcatAssoc(before, MAGIC + count, heads);
    WriteBodies(ps, fd);
    ConcatAssoc(before, MAGIC + count + heads, Bodies(ps));
    assert File(ps) == MAGIC + count + heads + Bodies(ps);
  }

  method WriteHeaders(ps: seq<PatchChunk>, fd: OutputFile, start: nat)
    modifies fd
    ensures fd.written == old(fd.written) + Headers(ps, start)
  {
    hide Header;
    var offset := start;
    for i := 0 to |ps|
      invariant offset == start + |Bodies(ps[..i])|
      invariant fd.written == old(fd.written) + Headers(ps[..i], start)
    {
      ghost var done := Headers(ps[..i], start);
      ghost var record := Header(ps[i], offset);
      assert ps[..i + 1] == ps[..i] + [ps[i]];
      TotalsSnoc(ps[..i], ps[i]);
      assert Headers(ps[..i + 1], start) == done + record by {
        HeadersSnoc(ps[..i], ps[i], start);
      }
      offset := WriteHeaderToFd(ps[i], fd, offset);
      ConcatAssoc(old(fd.written), done, record);
    }
    assert ps[..|ps|] == ps;
  }

  method WriteBodies(ps: seq<PatchChunk>, fd: OutputFile)
    modifies fd
    ensures fd.written == old(fd.written) + Bodies(ps)
  {
    for i := 0 to |ps|
      invariant fd.written == old(fd.written) + Bodies(ps[..i])
    {
      TotalsSnoc(ps[..i], ps[i]);
      assert ps[..i + 1] == ps[..i] + [ps[i]];
      ConcatAssoc(old(fd.written), Bodies(ps[..i]), Body(ps[i]));
      if ps[i].kind != RawPatch {
        fd.Append(ps[i].data);
      }
    }
    assert ps[..|ps|] == ps;
  }
}
