/** Zip mode: chunks from zip entries, matching by entry name, patching against named sources. */
module ZipMode {
  import opened Bytes
  import opened Codecs
  import opened Text
  import opened PatchFile
  import opened ImageChunks
  import opened PatchMaking
  import opened ImgPatch

  /** A zip entry; `contents` is what extracting it yields, if that succeeds. */
  datatype ZipEntry = ZipEntry(name: string, offset: nat, compressed: nat, deflated: bool, contents: Option<seq<byte>>)

  /** Entries in the order of their offsets, none reaching into the next or past the end. */
  predicate Ordered(es: seq<ZipEntry>, from: nat, size: nat) {
    if es == [] then from <= size
    else from <= es[0].offset && Ordered(es[1..], es[0].offset + es[0].compressed, size)
  }

  /** Extracting a deflated entry inflates its bytes. */
  ghost predicate Extracts(lib: Library, e: ZipEntry, file: seq<byte>) {
    e.deflated && e.contents.Some? ==>
      && e.offset + e.compressed <= |file|
      && lib.inflate(file[e.offset..e.offset + e.compressed]) == Inflated(e.contents.value, e.compressed)
      && |e.contents.value| < TWO_32
  }

  ghost predicate AllExtract(lib: Library, es: seq<ZipEntry>, file: seq<byte>) {
    forall k :: 0 <= k < |es| ==> Extracts(lib, es[k], file)
  }

  // ----- chunks of one entry

  function PieceName(name: string, count: nat): (s: string) {
    name + "-" + Decimal(count)
  }

  /** The pieces of an entry larger than the limit, from piece `count` on. */
  function Pieces(e: ZipEntry, limit: nat, count: nat, rest: nat): (cs: seq<ImageChunk>)
    requires limit > 0
    decreases rest
  {
    if rest == 0 then []
    else
      var len := if limit < rest then limit else rest;
      [NormalPart(e.offset + limit * count, len, PieceName(e.name, count))] + Pieces(e, limit, count + 1, rest - len)
  }

  predicate TooLarge(e: ZipEntry, limit: nat) { limit > 0 && e.compressed > limit }

  function EntryChunks(e: ZipEntry, limit: nat): (r: Option<seq<ImageChunk>>) {
    if e.compressed == 0 then Some([])
    else if TooLarge(e, limit) then Some(Pieces(e, limit, 0, e.compressed))
    else if e.deflated then
      match e.contents
      case None => None
      case Some(data) => Some([ImageChunk(Deflate, e.offset, e.compressed, 6, data, e.name)])
    else Some([NormalPart(e.offset, e.compressed, e.name)])
  }

  method AddZipEntryToChunks(e: ZipEntry, limit: nat, chunks: seq<ImageChunk>)
    returns (ok: bool, chunks': seq<ImageChunk>)
    ensures ok <==> EntryChunks(e, limit).Some?
    ensures ok ==> chunks' == chunks + EntryChunks(e, limit).value
  {
    chunks' := chunks;
    var rest: nat := e.compressed;
    if rest == 0 { return true, chunks'; }
    if limit > 0 && rest > limit {
      var count := 0;
      while rest > 0
        invariant chunks' + Pieces(e, limit, count, rest) == chunks + Pieces(e, limit, 0, e.compressed)
      {
        var length := if limit < rest then limit else rest;
        var piece := NormalPart(e.offset + limit * count, length, e.name + "-" + Decimal(count));
        ConcatAssoc(chunks', [piece], Pieces(e, limit, count + 1, rest - length));
        chunks' := chunks' + [piece];
        count := count + 1;
        rest := rest - length;
      }
      return true, chunks';
    }
    if e.deflated {
      if e.contents.None? { return false, chunks'; }
      chunks' := chunks' + [ImageChunk(Deflate, e.offset, e.compressed, 6, e.contents.value, e.name)];
    } else {
      chunks' := chunks' + [NormalPart(e.offset, e.compressed, e.name)];
    }
    return true, chunks';
  }

  lemma {:induction false} PiecesTile(e: ZipEntry, limit: nat, count: nat, rest: nat)
    requires limit > 0
    ensures Tiles(Pieces(e, limit, count, rest), e.offset + limit * count, e.offset + limit * count + rest)
            || rest == 0
    decreases rest
  {
    if rest > 0 {
      var len := if limit < rest then limit else rest;
      PiecesTile(e, limit, count + 1, rest - len);
      var cs := Pieces(e, limit, count, rest);
      assert cs[1..] == Pieces(e, limit, count + 1, rest - len);
      if rest - len > 0 {
        assert limit * (count + 1) == limit * count + limit;
      }
    }
  }

  /** The chunks of an entry tile its bytes; each is non-empty, within the limit and faithful. */
  ghost predicate EntryPart(lib: Library, c: ImageChunk, file: seq<byte>, limit: nat) {
    c.len > 0 && (limit > 0 ==> c.len <= limit) && Faithful(lib, c, file)
  }

  lemma {:induction false} PiecesParts(lib: Library, e: ZipEntry, file: seq<byte>, limit: nat, count: nat, rest: nat)
    requires limit > 0
    ensures forall k :: 0 <= k < |Pieces(e, limit, count, rest)| ==>
              EntryPart(lib, Pieces(e, limit, count, rest)[k], file, limit)
    decreases rest
  {
    if rest > 0 {
      var len := if limit < rest then limit else rest;
      PiecesParts(lib, e, file, limit, count + 1, rest - len);
    }
  }

  lemma EntryTiles(lib: Library, e: ZipEntry, file: seq<byte>, limit: nat)
    requires Extracts(lib, e, file) && EntryChunks(e, limit).Some?
    ensures Tiles(EntryChunks(e, limit).value, e.offset, e.offset + e.compressed)
    ensures forall k :: 0 <= k < |EntryChunks(e, limit).value| ==>
              EntryPart(lib, EntryChunks(e, limit).value[k], file, limit)
  {
    var cs := EntryChunks(e, limit).value;
    if e.compressed != 0 {
      if TooLarge(e, limit) {
        PiecesTile(e, limit, 0, e.compressed);
        PiecesParts(lib, e, file, limit, 0, e.compressed);
        assert limit * 0 == 0;
      } else {
        assert cs[1..] == [];
      }
    }
  }

  // ----- target chunks

  /** Entries and the stretches between them, from offset `pos` on. */
  function TargetChunks(es: seq<ZipEntry>, size: nat, limit: nat, pos: nat): (r: Option<seq<ImageChunk>>)
    decreases |es|, if es == [] then 0 else if pos == es[0].offset then 0 else 1
  {
    if es == [] then
      Some(if pos < size then [NormalPart(pos, size - pos, "")] else [])
    else if pos == es[0].offset then
      match (EntryChunks(es[0], limit), TargetChunks(es[1..], size, limit, pos + es[0].compressed))
      case (Some(a), Some(b)) => Some(a + b)
      case (_, _) => None
    else if pos < es[0].offset then
      match TargetChunks(es, size, limit, es[0].offset)
      case Some(b) => Some([NormalPart(pos, es[0].offset - pos, "")] + b)
      case None => None
    else None
  }

  lemma {:induction false} TargetTiles(lib: Library, es: seq<ZipEntry>, file: seq<byte>, limit: nat, pos: nat)
    requires Ordered(es, pos, |file|) && AllExtract(lib, es, file)
    requires TargetChunks(es, |file|, limit, pos).Some?
    ensures Tiles(TargetChunks(es, |file|, limit, pos).value, pos, |file|)
    ensures AllFaithful(lib, TargetChunks(es, |file|, limit, pos).value, file)
    decreases |es|, if es == [] then 0 else if pos == es[0].offset then 0 else 1
  {
    var cs := TargetChunks(es, |file|, limit, pos).value;
    if es == [] {
      if pos < |file| { assert cs[1..] == []; }
    } else if pos == es[0].offset {
      assert Extracts(lib, es[0], file);
      assert forall k :: 0 <= k < |es[1..]| ==> es[1..][k] == es[k + 1];
      var mid := pos + es[0].compressed;
      TargetTiles(lib, es[1..], file, limit, mid);
      EntryTiles(lib, es[0], file, limit);
      TilesAppend(EntryChunks(es[0], limit).value, TargetChunks(es[1..], |file|, limit, mid).value,
                  pos, mid, |file|);
    } else {
      TargetTiles(lib, es, file, limit, es[0].offset);
      assert cs[1..] == TargetChunks(es, |file|, limit, es[0].offset).value;
    }
  }

  /** InitializeChunks for a target: entries, and normal chunks for all that lies between them. */
  method InitializeTarget(es: seq<ZipEntry>, file: seq<byte>, limit: nat) returns (chunks: Option<seq<ImageChunk>>)
    requires Ordered(es, 0, |file|)
    ensures chunks == TargetChunks(es, |file|, limit, 0)
  {
    var cs := [];
    var pos, next := 0, 0;
    ghost var all := TargetChunks(es, |file|, limit, 0);
    assert es[0..] == es;
    if all.Some? { assert [] + all.value == all.value; }
    while pos < |file|
      invariant 0 <= next <= |es| && Ordered(es[next..], pos, |file|)
      invariant Continues(cs, TargetChunks(es[next..], |file|, limit, pos), all)
      decreases |file| - pos, |es| - next
    {
      ghost var rest, before := es[next..], cs;
      OrderedFits(rest, pos, |file|);
      if next < |es| && pos == es[next].offset {
        var ok;
        ok, cs := AddZipEntryToChunks(es[next], limit, cs);
        if !ok { return None; }
        assert rest[1..] == es[next + 1..];
        pos := pos + es[next].compressed;
        next := next + 1;
        ContinuesAppend(before, EntryChunks(rest[0], limit).value, TargetChunks(rest[1..], |file|, limit, pos), all);
      } else {
        var len := if next < |es| then es[next].offset - pos else |file| - pos;
        var c := NormalPart(pos, len, "");
        cs := cs + [c];
        pos := pos + len;
        if rest == [] {
          assert TargetChunks(rest, |file|, limit, pos) == Some([]);
          assert [c] + [] == [c];
        }
        ContinuesAppend(before, [c], TargetChunks(rest, |file|, limit, pos), all);
      }
    }
    OrderedFits(es[next..], pos, |file|);
    NothingAtEnd(es[next..], |file|, limit, pos);
    assert cs + [] == cs;
    return Some(cs);
  }

  lemma {:induction false} OrderedFits(es: seq<ZipEntry>, from: nat, size: nat)
    requires Ordered(es, from, size)
    ensures from <= size && (es != [] ==> from <= es[0].offset && es[0].offset + es[0].compressed <= size)
  {
    if es != [] { OrderedFits(es[1..], es[0].offset + es[0].compressed, size); }
  }

  lemma {:induction false} NothingAtEnd(es: seq<ZipEntry>, size: nat, limit: nat, pos: nat)
    requires Ordered(es, pos, size) && pos >= size
    ensures TargetChunks(es, size, limit, pos) == Some([])
    decreases |es|
  {
    OrderedFits(es, pos, size);
    if es != [] {
      NothingAtEnd(es[1..], size, limit, pos);
      assert EntryChunks(es[0], limit) == Some([]);
      assert TargetChunks(es[1..], size, limit, pos + es[0].compressed) == Some([]);
      var none: seq<ImageChunk> := [];
      assert none + none == none;
    }
  }

  lemma ContinuesAppend(cs: seq<ImageChunk>, a: seq<ImageChunk>, b: Option<seq<ImageChunk>>,
                        all: Option<seq<ImageChunk>>)
    requires Continues(cs, if b.Some? then Some(a + b.value) else None, all)
    ensures Continues(cs + a, b, all)
  {
    if b.Some? { ConcatAssoc(cs, a, b.value); }
  }

  /** What is collected so far, followed by what is still to come, is the whole list. */
  predicate Continues(cs: seq<ImageChunk>, rest: Option<seq<ImageChunk>>, all: Option<seq<ImageChunk>>) {
    match rest
    case None => all.None?
    case Some(more) => all == Some(cs + more)
  }

  // ----- source chunks

  function EntriesEnd(es: seq<ZipEntry>): (n: nat) {
    if es == [] then 0 else es[|es| - 1].offset + es[|es| - 1].compressed
  }

  /** The chunks of all entries, one after another. */
  function AllEntryChunks(es: seq<ZipEntry>, limit: nat): (r: Option<seq<ImageChunk>>) {
    if es == [] then Some([])
    else match (AllEntryChunks(es[..|es| - 1], limit), EntryChunks(es[|es| - 1], limit))
      case (Some(a), Some(b)) => Some(a + b)
      case (_, _) => None
  }

  /** The chunks of the source: its entries, and last the central directory. */
  function SourceList(es: seq<ZipEntry>, size: nat, limit: nat): (r: Option<seq<ImageChunk>>)
    requires EntriesEnd(es) < size
  {
    match AllEntryChunks(es, limit)
    case None => None
    case Some(cs) => Some(cs + [NormalPart(EntriesEnd(es), size - EntriesEnd(es), "")])
  }

  /** What is kept of a source list: faithful parts within the limit, and the directory at the end. */
  ghost predicate SourceChunks(lib: Library, ss: seq<ImageChunk>, file: seq<byte>, limit: nat) {
    && ss != []
    && (forall k :: 0 <= k < |ss| ==> InFile(ss[k], file) && ss[k].len > 0 && Faithful(lib, ss[k], file))
    && (forall k :: 0 <= k < |ss| - 1 ==> limit > 0 ==> ss[k].len <= limit)
    && ss[|ss| - 1].kind == Normal && ss[|ss| - 1].name == ""
    && ss[|ss| - 1].start + ss[|ss| - 1].len == |file|
  }

  ghost predicate EntryParts(lib: Library, cs: seq<ImageChunk>, file: seq<byte>, limit: nat) {
    forall k :: 0 <= k < |cs| ==> EntryPart(lib, cs[k], file, limit) && InFile(cs[k], file)
  }

  lemma {:induction false} OrderedAt(es: seq<ZipEntry>, from: nat, size: nat, k: nat)
    requires Ordered(es, from, size) && k < |es|
    ensures es[k].offset + es[k].compressed <= size
  {
    OrderedFits(es, from, size);
    if k > 0 { OrderedAt(es[1..], es[0].offset + es[0].compressed, size, k - 1); }
  }

  lemma {:induction false} EntriesAreParts(lib: Library, es: seq<ZipEntry>, file: seq<byte>, limit: nat)
    requires AllExtract(lib, es, file) && AllEntryChunks(es, limit).Some?
    requires forall k :: 0 <= k < |es| ==> es[k].offset + es[k].compressed <= |file|
    ensures EntryParts(lib, AllEntryChunks(es, limit).value, file, limit)
  {
    hide EntryPart, EntryChunks, Extracts;
    if es != [] {
      var n := |es| - 1;
      EntriesAreParts(lib, es[..n], file, limit);
      assert Extracts(lib, es[n], file);
      EntryPartsOf(lib, es[n], file, limit);
    }
  }

  /** The chunks of every source are faithful parts of it; all but the directory are within the limit. */
  lemma SourceListIs(lib: Library, es: seq<ZipEntry>, file: seq<byte>, limit: nat)
    requires Ordered(es, 0, |file|) && EntriesEnd(es) < |file| && AllExtract(lib, es, file)
    requires SourceList(es, |file|, limit).Some?
    ensures SourceChunks(lib, SourceList(es, |file|, limit).value, file, limit)
  {
    hide EntryPart, AllEntryChunks, Faithful, AllExtract;
    forall k | 0 <= k < |es| ensures es[k].offset + es[k].compressed <= |file| { OrderedAt(es, 0, |file|, k); }
    EntriesAreParts(lib, es, file, limit);
    var cs, all := AllEntryChunks(es, limit).value, SourceList(es, |file|, limit).value;
    forall k | 0 <= k < |all|
      ensures InFile(all[k], file) && all[k].len > 0 && Faithful(lib, all[k], file)
      ensures k < |cs| && limit > 0 ==> all[k].len <= limit
    {
      if k < |cs| { EntryPartIs(lib, cs[k], file, limit); } else { NormalIsFaithful(lib, all[k], file); }
    }
  }

  /** InitializeChunks for a source: the entries, and a normal chunk for the central directory. */
  method InitializeSource(es: seq<ZipEntry>, file: seq<byte>, limit: nat) returns (chunks: Option<seq<ImageChunk>>)
    requires EntriesEnd(es) < |file|
    ensures chunks == SourceList(es, |file|, limit)
  {
    hide EntryChunks;
    var cs := [];
    for i := 0 to |es|
      invariant AllEntryChunks(es[..i], limit) == Some(cs)
    {
      assert es[..i + 1][..|es[..i + 1]| - 1] == es[..i];
      var ok;
      ok, cs := AddZipEntryToChunks(es[i], limit, cs);
      if !ok {
        NoneStays(es, limit, i + 1);
        return None;
      }
    }
    assert es[..|es|] == es;
    var entriesEnd := if es == [] then 0 else es[|es| - 1].offset + es[|es| - 1].compressed;
    return Some(cs + [NormalPart(entriesEnd, |file| - entriesEnd, "")]);
  }

  lemma NormalIsFaithful(lib: Library, c: ImageChunk, file: seq<byte>)
    requires c.kind == Normal
    ensures Faithful(lib, c, file)
  {}

  lemma EntryPartIs(lib: Library, c: ImageChunk, file: seq<byte>, limit: nat)
    requires EntryPart(lib, c, file, limit)
    ensures c.len > 0 && (limit > 0 ==> c.len <= limit) && Faithful(lib, c, file)
  {}

  lemma EntryPartsOf(lib: Library, e: ZipEntry, file: seq<byte>, limit: nat)
    requires Extracts(lib, e, file) && EntryChunks(e, limit).Some?
    requires e.offset + e.compressed <= |file|
    ensures EntryParts(lib, EntryChunks(e, limit).value, file, limit)
  {
    hide EntryPart, EntryChunks;
    EntryTiles(lib, e, file, limit);
    TilesInFile(EntryChunks(e, limit).value, e.offset, e.offset + e.compressed, file);
  }

  lemma {:induction false} NoneStays(es: seq<ZipEntry>, limit: nat, k: nat)
    requires k <= |es| && AllEntryChunks(es[..k], limit).None?
    ensures AllEntryChunks(es, limit).None?
    decreases |es| - k
  {
    if k == |es| {
      assert es[..k] == es;
    } else {
      assert es[..k + 1][..|es[..k + 1]| - 1] == es[..k];
      NoneStays(es, limit, k + 1);
    }
  }

  // ----- matching by name

  /** Equal names, or a name against the first piece of a split entry. */
  predicate NameMatches(chunkName: string, name: string) {
    chunkName == name || name == chunkName + "-0" || chunkName == name + "-0"
  }

  predicate Candidate(c: ImageChunk, name: string, findNormal: bool) {
    name != "" && (c.kind == Deflate || findNormal) && NameMatches(c.name, name)
  }

  /** The first candidate. */
  function Find(cs: seq<ImageChunk>, name: string, findNormal: bool): (r: Option<nat>)
    ensures r.Some? ==> r.value < |cs| && Candidate(cs[r.value], name, findNormal)
    ensures r.Some? ==> forall k :: 0 <= k < r.value ==> !Candidate(cs[k], name, findNormal)
    ensures r.None? ==> forall k :: 0 <= k < |cs| ==> !Candidate(cs[k], name, findNormal)
  {
    if cs == [] then None
    else if Candidate(cs[0], name, findNormal) then Some(0)
    else match Find(cs[1..], name, findNormal)
      case None => assert forall k :: 0 < k < |cs| ==> cs[k] == cs[1..][k - 1]; None
      case Some(k) => assert forall j :: 0 < j < |cs| ==> cs[j] == cs[1..][j - 1]; Some(k + 1)
  }

  method FindChunkByName(cs: seq<ImageChunk>, name: string, findNormal: bool) returns (r: Option<nat>)
    ensures r == Find(cs, name, findNormal)
  {
    if name == "" { return None; }
    for i := 0 to |cs|
      invariant forall k :: 0 <= k < i ==> !Candidate(cs[k], name, findNormal)
    {
      if cs[i].kind != Deflate && !findNormal { continue; }
      if cs[i].name == name { return Some(i); }
      if name == cs[i].name + "-0" || cs[i].name == name + "-0" { return Some(i); }
    }
    return None;
  }

  ghost predicate HasSource(ss: seq<ImageChunk>, name: string) {
    exists k :: 0 <= k < |ss| && Candidate(ss[k], name, false)
  }

  /** Two deflate entries of the target never compete for the same source chunk. */
  ghost predicate Unshared(ts: seq<ImageChunk>, ss: seq<ImageChunk>) {
    forall i, j, k :: 0 <= i < j < |ts| && 0 <= k < |ss| && ts[i].kind == Deflate && ts[j].kind == Deflate ==>
      !(Candidate(ss[k], ts[i].name, false) && Candidate(ss[k], ts[j].name, false))
  }

  // ----- CheckAndProcessChunks

  /** One target chunk against the current source chunks. */
  function ProcessOne(lib: Library, t: ImageChunk, tgtFile: seq<byte>, ss: seq<ImageChunk>, srcFile: seq<byte>)
    : (r: (ImageChunk, seq<ImageChunk>))
    requires InFile(t, tgtFile)
    requires forall k :: 0 <= k < |ss| ==> InFile(ss[k], srcFile)
  {
    if t.kind != Deflate then (t, ss)
    else match Find(ss, t.name, false)
      case None => (ToNormal(t), ss)
      case Some(m) =>
        if Raw(t, tgtFile) == Raw(ss[m], srcFile) then (ToNormal(t), ss[m := ToNormal(ss[m])])
        else if Reproduces(lib, t, tgtFile, 6) then (t.(level := 6), ss)
        else if Reproduces(lib, t, tgtFile, 9) then (t.(level := 9), ss)
        else (ToNormal(t), ss[m := ToNormal(ss[m])])
  }

  /** Target chunks 0 .. n-1 processed, in order. */
  function Process(lib: Library, ts: seq<ImageChunk>, tgtFile: seq<byte>,
                   ss: seq<ImageChunk>, srcFile: seq<byte>, n: nat)
    : (r: (seq<ImageChunk>, seq<ImageChunk>))
    requires n <= |ts|
    requires forall k :: 0 <= k < |ts| ==> InFile(ts[k], tgtFile)
    requires forall k :: 0 <= k < |ss| ==> InFile(ss[k], srcFile)
    ensures |r.0| == |ts| && |r.1| == |ss|
    ensures forall k :: n <= k < |ts| ==> r.0[k] == ts[k]
    ensures forall k :: 0 <= k < |ss| ==> r.1[k] == ss[k] || r.1[k] == ToNormal(ss[k])
  {
    if n == 0 then (ts, ss)
    else
      var (ts', ss') := Process(lib, ts, tgtFile, ss, srcFile, n - 1);
      var (t, ss'') := ProcessOne(lib, ts'[n - 1], tgtFile, ss', srcFile);
      (ts'[n - 1 := t], ss'')
  }

  /** A deflate chunk of the target that is left can be recompressed. */
  ghost predicate Checked(lib: Library, t: ImageChunk, tgtFile: seq<byte>) {
    t.kind == Deflate ==>
      InFile(t, tgtFile) && Reproduces(lib, t, tgtFile, t.level) && |t.plain| < TWO_32
  }

  ghost predicate AllChecked(lib: Library, ts: seq<ImageChunk>, tgtFile: seq<byte>) {
    forall k :: 0 <= k < |ts| ==> Checked(lib, ts[k], tgtFile)
  }

  ghost predicate SamePart(c: ImageChunk, d: ImageChunk) {
    c.start == d.start && c.len == d.len && c.name == d.name && (d.kind == Deflate ==> c.kind == Deflate)
  }

  lemma OneChecked(lib: Library, t: ImageChunk, tgtFile: seq<byte>, ss: seq<ImageChunk>, srcFile: seq<byte>)
    requires InFile(t, tgtFile) && AllInFile(ss, srcFile) && Faithful(lib, t, tgtFile)
    ensures var t' := ProcessOne(lib, t, tgtFile, ss, srcFile).0;
            Checked(lib, t', tgtFile) && SamePart(t, t')
  {
    hide Find;
    if t.kind == Deflate && Find(ss, t.name, false).Some? { FoundInRange(ss, t.name, false); }
  }

  /** The source chunk that is touched is a candidate for the target chunk. */
  lemma OneTouches(lib: Library, t: ImageChunk, tgtFile: seq<byte>, ss: seq<ImageChunk>, srcFile: seq<byte>)
    requires InFile(t, tgtFile) && AllInFile(ss, srcFile)
    ensures var (t', ss') := ProcessOne(lib, t, tgtFile, ss, srcFile);
            && |ss'| == |ss|
            && (t'.kind == Deflate ==> t.kind == Deflate && t'.name == t.name && HasSource(ss', t.name))
            && (forall w :: 0 <= w < |ss| ==>
                  ss'[w] == ss[w] || (t.kind == Deflate && Candidate(ss[w], t.name, false)))
  {
    hide Reproduces, NameMatches;
    if t.kind == Deflate && Find(ss, t.name, false).Some? {
      var m := Find(ss, t.name, false).value;
      assert Candidate(ss[m], t.name, false);
    }
  }

  lemma {:induction false} ProcessChecks(lib: Library, ts: seq<ImageChunk>, tgtFile: seq<byte>,
                                         ss: seq<ImageChunk>, srcFile: seq<byte>, n: nat)
    requires n <= |ts| && AllInFile(ts, tgtFile) && AllInFile(ss, srcFile)
    requires AllFaithful(lib, ts, tgtFile)
    ensures var (ts', ss') := Process(lib, ts, tgtFile, ss, srcFile, n);
            && (forall k :: 0 <= k < n ==> Checked(lib, ts'[k], tgtFile))
            && (forall k :: 0 <= k < |ts| ==> SamePart(ts[k], ts'[k]))
  {
    hide ProcessOne, Checked, Faithful;
    if n > 0 {
      ProcessChecks(lib, ts, tgtFile, ss, srcFile, n - 1);
      var (ts1, ss1) := Process(lib, ts, tgtFile, ss, srcFile, n - 1);
      assert ts1[n - 1] == ts[n - 1];
      OneChecked(lib, ts[n - 1], tgtFile, ss1, srcFile);
    } else {
      assert forall k :: 0 <= k < |ts| ==> SamePart(ts[k], ts[k]);
    }
  }

  /** When no source chunk is shared, every deflate target that is left still has its source. */
  lemma {:induction false} ProcessKeepsSources(lib: Library, ts: seq<ImageChunk>, tgtFile: seq<byte>,
                                               ss: seq<ImageChunk>, srcFile: seq<byte>, n: nat)
    requires n <= |ts| && AllInFile(ts, tgtFile) && AllInFile(ss, srcFile)
    requires Unshared(ts, ss)
    ensures var (ts', ss') := Process(lib, ts, tgtFile, ss, srcFile, n);
            forall k :: 0 <= k < n && ts'[k].kind == Deflate ==>
              ts[k].kind == Deflate && ts'[k].name == ts[k].name && HasSource(ss', ts[k].name)
  {
    hide ProcessOne, HasSource, Unshared, Candidate;
    if n > 0 {
      ProcessKeepsSources(lib, ts, tgtFile, ss, srcFile, n - 1);
      var (ts1, ss1) := Process(lib, ts, tgtFile, ss, srcFile, n - 1);
      var t := ts[n - 1];
      assert ts1[n - 1] == t;
      OneTouches(lib, t, tgtFile, ss1, srcFile);
      var (t', ss2) := ProcessOne(lib, t, tgtFile, ss1, srcFile);
      var ts2 := ts1[n - 1 := t'];
      forall k | 0 <= k < n - 1 && ts2[k].kind == Deflate
        ensures HasSource(ss2, ts[k].name)
      {
        SourceStays(ts, ss, ss1, ss2, k, n - 1);
      }
    }
  }

  /** Processing target chunk `j` leaves the source of target chunk `i` alone. */
  lemma SourceStays(ts: seq<ImageChunk>, ss: seq<ImageChunk>, ss1: seq<ImageChunk>, ss2: seq<ImageChunk>,
                    i: nat, j: nat)
    requires i < j < |ts| && Unshared(ts, ss) && ts[i].kind == Deflate && HasSource(ss1, ts[i].name)
    requires |ss| == |ss1| == |ss2| && forall w :: 0 <= w < |ss| ==> ss1[w] == ss[w] || ss1[w] == ToNormal(ss[w])
    requires forall w :: 0 <= w < |ss| ==>
               ss2[w] == ss1[w] || (ts[j].kind == Deflate && Candidate(ss1[w], ts[j].name, false))
    ensures HasSource(ss2, ts[i].name)
  {
    hide Candidate;
    var w :| 0 <= w < |ss1| && Candidate(ss1[w], ts[i].name, false);
    CandidateWasThere(ss[w], ss1[w], ts[i].name);
    if ss2[w] != ss1[w] {
      CandidateWasThere(ss[w], ss1[w], ts[j].name);
    }
    assert Candidate(ss2[w], ts[i].name, false);
  }

  lemma CandidateWasThere(before: ImageChunk, after: ImageChunk, name: string)
    requires after == before || after == ToNormal(before)
    requires Candidate(after, name, false)
    ensures Candidate(before, name, false)
  {}

  /** A deflate chunk of the target stays one: its source differs from it, and it can be recompressed. */
  ghost predicate Survives(lib: Library, t: ImageChunk, tgtFile: seq<byte>, ss: seq<ImageChunk>, srcFile: seq<byte>)
    requires InFile(t, tgtFile) && AllInFile(ss, srcFile)
  {
    && t.kind == Deflate && Find(ss, t.name, false).Some?
    && Raw(t, tgtFile) != Raw(ss[Find(ss, t.name, false).value], srcFile)
    && (Reproduces(lib, t, tgtFile, 6) || Reproduces(lib, t, tgtFile, 9))
  }

  lemma OneSurvives(lib: Library, t: ImageChunk, tgtFile: seq<byte>, ss: seq<ImageChunk>, srcFile: seq<byte>)
    requires InFile(t, tgtFile) && AllInFile(ss, srcFile)
    ensures var t' := ProcessOne(lib, t, tgtFile, ss, srcFile).0;
            && (t'.kind == Deflate <==> Survives(lib, t, tgtFile, ss, srcFile))
            && (t'.kind == Deflate ==> t'.plain == t.plain)
  {
    hide Find, Raw, Reproduces;
    if t.kind == Deflate && Find(ss, t.name, false).Some? { FoundInRange(ss, t.name, false); }
  }

  /** Only candidates of the target chunks processed so far have been touched. */
  ghost predicate TouchedBy(ts: seq<ImageChunk>, ss: seq<ImageChunk>, ss': seq<ImageChunk>, n: nat)
    requires n <= |ts| && |ss'| == |ss|
  {
    forall w :: 0 <= w < |ss| && ss'[w] != ss[w] ==>
      && ss'[w] == ToNormal(ss[w])
      && exists j :: 0 <= j < n && ts[j].kind == Deflate && Candidate(ss[w], ts[j].name, false)
  }

  lemma {:induction false} ProcessTouches(lib: Library, ts: seq<ImageChunk>, tgtFile: seq<byte>,
                                          ss: seq<ImageChunk>, srcFile: seq<byte>, n: nat)
    requires n <= |ts| && AllInFile(ts, tgtFile) && AllInFile(ss, srcFile)
    ensures TouchedBy(ts, ss, Process(lib, ts, tgtFile, ss, srcFile, n).1, n)
  {
    hide ProcessOne, Candidate;
    if n > 0 {
      ProcessTouches(lib, ts, tgtFile, ss, srcFile, n - 1);
      var (ts1, ss1) := Process(lib, ts, tgtFile, ss, srcFile, n - 1);
      var ss2 := Process(lib, ts, tgtFile, ss, srcFile, n).1;
      OneTouches(lib, ts[n - 1], tgtFile, ss1, srcFile);
      forall w | 0 <= w < |ss| && ss2[w] != ss[w]
        ensures exists j :: 0 <= j < n && ts[j].kind == Deflate && Candidate(ss[w], ts[j].name, false)
      {
        if ss2[w] != ss1[w] { CandidateWasThere(ss[w], ss1[w], ts[n - 1].name); }
      }
    }
  }

  /** Processing does not change what a target chunk finds, if no other chunk competes for it. */
  lemma FindsTheSame(ts: seq<ImageChunk>, ss: seq<ImageChunk>, ss': seq<ImageChunk>, n: nat)
    requires n < |ts| && |ss'| == |ss| && TouchedBy(ts, ss, ss', n) && Unshared(ts, ss) && ts[n].kind == Deflate
    ensures Find(ss', ts[n].name, false) == Find(ss, ts[n].name, false)
    ensures var m := Find(ss, ts[n].name, false); m.Some? ==> ss'[m.value] == ss[m.value]
  {
    hide NameMatches;
    forall w | 0 <= w < |ss|
      ensures Candidate(ss'[w], ts[n].name, false) <==> Candidate(ss[w], ts[n].name, false)
      ensures Candidate(ss[w], ts[n].name, false) ==> ss'[w] == ss[w]
    {}
  }

  lemma {:induction false} UnsharedIsLocal(lib: Library, ts: seq<ImageChunk>, tgtFile: seq<byte>,
                                           ss: seq<ImageChunk>, srcFile: seq<byte>, n: nat)
    requires n <= |ts| && AllInFile(ts, tgtFile) && AllInFile(ss, srcFile) && Unshared(ts, ss)
    ensures var ts' := Process(lib, ts, tgtFile, ss, srcFile, n).0;
            forall k :: 0 <= k < n ==> ts'[k] == ProcessOne(lib, ts[k], tgtFile, ss, srcFile).0
  {
    hide Unshared, TouchedBy, Find, Raw, Reproduces;
    if n > 0 {
      UnsharedIsLocal(lib, ts, tgtFile, ss, srcFile, n - 1);
      var (ts1, ss1) := Process(lib, ts, tgtFile, ss, srcFile, n - 1);
      assert ts1[n - 1] == ts[n - 1];
      ProcessTouches(lib, ts, tgtFile, ss, srcFile, n - 1);
      if ts[n - 1].kind == Deflate {
        FindsTheSame(ts, ss, ss1, n - 1);
        if Find(ss, ts[n - 1].name, false).Some? { FoundInRange(ss, ts[n - 1].name, false); }
      }
    }
  }

  method CheckAndProcessChunks(lib: Library, tgt: Image, src: Image, limit: nat)
    requires Laws(lib) && tgt != src
    requires AllInFile(tgt.chunks, tgt.content) && AllInFile(src.chunks, src.content)
    modifies tgt`chunks, src`chunks
    ensures var (ts, ss) := Process(lib, old(tgt.chunks), tgt.content, old(src.chunks), src.content, |old(tgt.chunks)|);
            src.chunks == ss && tgt.chunks == if limit == 0 then Merge(ts) else ts
  {
    hide Laws, Reproduces, Find;
    ghost var ts0, ss0 := tgt.chunks, src.chunks;
    for i := 0 to |tgt.chunks|
      invariant (tgt.chunks, src.chunks) == Process(lib, ts0, tgt.content, ss0, src.content, i)
    {
      ghost var ts1, ss1 := tgt.chunks, src.chunks;
      var t := tgt.chunks[i];
      if t.kind == Deflate {
        var found := FindChunkByName(src.chunks, t.name, false);
        if found.None? {
          tgt.chunks := tgt.chunks[i := ToNormal(t)];
        } else {
          var m := found.value;
          assert m < |ss1| by { FoundInRange(ss1, t.name, false); }
          var s := src.chunks[m];
          if t.len == s.len && Raw(t, tgt.content) == Raw(s, src.content) {
            tgt.chunks := tgt.chunks[i := ToNormal(t)];
            src.chunks := src.chunks[m := ToNormal(s)];
          } else {
            var ok, t' := ReconstructDeflateChunk(lib, t, tgt.content);
            tgt.chunks := tgt.chunks[i := t'];
            if !ok {
              tgt.chunks := tgt.chunks[i := ToNormal(t)];
              src.chunks := src.chunks[m := ToNormal(s)];
            }
          }
        }
      }
      assert (tgt.chunks[i], src.chunks) == ProcessOne(lib, t, tgt.content, ss1, src.content);
      assert tgt.chunks == ts1[i := tgt.chunks[i]];
    }
    if limit == 0 {
      tgt.MergeAdjacentNormalChunks();
    }
  }

  lemma FoundInRange(cs: seq<ImageChunk>, name: string, findNormal: bool)
    requires Find(cs, name, findNormal).Some?
    ensures Find(cs, name, findNormal).value < |cs|
  {}

  // ----- patches

  function SourceIndex(t: ImageChunk, ss: seq<ImageChunk>): (r: Option<nat>)
    ensures r.Some? ==> r.value < |ss| && ss[r.value].kind == Deflate
  {
    if t.kind == Deflate then Find(ss, t.name, false) else None
  }

  /** The matching deflate chunk, or the whole source file as one normal chunk. */
  function SourceRef(t: ImageChunk, ss: seq<ImageChunk>, srcFile: seq<byte>): (s: ImageChunk) {
    match SourceIndex(t, ss)
    case Some(k) => ss[k]
    case None => NormalPart(0, |srcFile|, "")
  }

  function SourceData(t: ImageChunk, ss: seq<ImageChunk>, srcFile: seq<byte>): (d: seq<byte>) {
    match SourceIndex(t, ss)
    case Some(k) => ss[k].plain
    case None => srcFile
  }

  function ZipPatch(lib: Library, t: ImageChunk, tgtFile: seq<byte>, ss: seq<ImageChunk>, srcFile: seq<byte>)
    : (p: PatchChunk)
    requires InFile(t, tgtFile)
  {
    PatchFor(lib, t, tgtFile, SourceRef(t, ss, srcFile), SourceData(t, ss, srcFile))
  }

  function ZipPatches(lib: Library, ts: seq<ImageChunk>, tgtFile: seq<byte>, ss: seq<ImageChunk>, srcFile: seq<byte>)
    : (ps: seq<PatchChunk>)
    requires forall k :: 0 <= k < |ts| ==> InFile(ts[k], tgtFile)
    ensures |ps| == |ts|
    ensures forall k :: 0 <= k < |ps| ==> ps[k] == ZipPatch(lib, ts[k], tgtFile, ss, srcFile)
  {
    seq(|ts|, k requires 0 <= k < |ts| => ZipPatch(lib, ts[k], tgtFile, ss, srcFile))
  }

  /** `srcFile` is the content behind the source image: the file, or the pieces of it in a split. */
  method GeneratePatchesInternal(lib: Library, ts: seq<ImageChunk>, tgtFile: seq<byte>,
                                 ss: seq<ImageChunk>, srcFile: seq<byte>) returns (ps: seq<PatchChunk>)
    requires AllInFile(ts, tgtFile)
    ensures ps == ZipPatches(lib, ts, tgtFile, ss, srcFile)
  {
    hide Find;
    ps := [];
    for i := 0 to |ts|
      invariant |ps| == i
      invariant forall k :: 0 <= k < i ==> ps[k] == ZipPatch(lib, ts[k], tgtFile, ss, srcFile)
    {
      var t := ts[i];
      if RawDataIsSmaller(t, 0) {
        ps := ps + [RawPatchOf(t, tgtFile)];
        continue;
      }
      var found: Option<nat> := None;
      if t.kind == Deflate {
        found := FindChunkByName(ss, t.name, false);
      }
      assert found == SourceIndex(t, ss);
      var ref := if found.None? then NormalPart(0, |srcFile|, "") else ss[found.value];
      var srcData := if found.None? then srcFile else ref.plain;
      var data := lib.bsdiff(srcData, DataForPatch(t, tgtFile));
      if RawDataIsSmaller(t, |data|) {
        ps := ps + [RawPatchOf(t, tgtFile)];
      } else {
        ps := ps + [DiffPatchOf(t, tgtFile, ref, srcData, data)];
      }
    }
  }

  /**
   * What each chunk costs in the patch: a long normal chunk the smaller of itself and its difference
   * from the whole source, a deflate chunk its difference from the first deflate source of its name.
   */
  lemma PatchesAreSmallest(lib: Library, ts: seq<ImageChunk>, tgtFile: seq<byte>,
                           ss: seq<ImageChunk>, srcFile: seq<byte>, k: nat)
    requires AllInFile(ts, tgtFile) && k < |ts|
    ensures var (t, p) := (ts[k], ZipPatches(lib, ts, tgtFile, ss, srcFile)[k]);
            var raw := tgtFile[t.start..t.start + t.len];
            if t.kind == Deflate then
              forall m :: 0 <= m < |ss| && Candidate(ss[m], t.name, false) &&
                          (forall j :: 0 <= j < m ==> !Candidate(ss[j], t.name, false)) ==>
                p.data == lib.bsdiff(ss[m].plain, t.plain) && p.srcStart == ss[m].start && p.srcLen == ss[m].len
            else if t.len <= 160 then p.data == raw
            else var diff := lib.bsdiff(srcFile, raw); p.data == if t.len < |diff| then raw else diff
  {
    var t := ts[k];
    SmallestIsChosen(lib, t, tgtFile, SourceRef(t, ss, srcFile), SourceData(t, ss, srcFile));
  }

  /** The source file as a whole does not pass for a deflate stream of its own length. */
  ghost predicate NotAStream(lib: Library, srcFile: seq<byte>) {
    srcFile != [] && !(lib.inflate(srcFile).Inflated? && |lib.inflate(srcFile).data| == |srcFile|)
  }

  /** The patch can be applied: it has something to compress, and something to inflate. */
  ghost predicate Usable(t: ImageChunk, ss: seq<ImageChunk>) {
    t.kind == Deflate ==> t.plain != [] && HasSource(ss, t.name)
  }

  lemma ZipPatchDescribes(lib: Library, t: ImageChunk, tgtFile: seq<byte>, ss: seq<ImageChunk>, srcFile: seq<byte>)
    requires InFile(t, tgtFile) && Checked(lib, t, tgtFile)
    requires AllInFile(ss, srcFile) && AllFaithful(lib, ss, srcFile) && |srcFile| < TWO_63
    requires NotAStream(lib, srcFile)
    ensures var p, plain := ZipPatch(lib, t, tgtFile, ss, srcFile), DataForPatch(t, tgtFile);
            && Describes(lib, srcFile, [], p, plain, Raw(t, tgtFile))
            && (Refused(lib, srcFile, [], p, plain) <==> !Usable(t, ss))
  {
    var ref, data := SourceRef(t, ss, srcFile), SourceData(t, ss, srcFile);
    if t.kind == Deflate && SourceIndex(t, ss).None? {
      assert !HasSource(ss, t.name);
      assert srcFile[0..0 + |srcFile|] == srcFile;
      assert Expanded(lib, srcFile, |srcFile|, []).None?;
    } else {
      if t.kind == Deflate {
        var k := SourceIndex(t, ss).value;
        assert Faithful(lib, ss[k], srcFile) && Candidate(ss[k], t.name, false);
        assert ref.plain + [] == ref.plain;
      } else {
        assert srcFile[0..0 + |srcFile|] == srcFile;
      }
      assert Matched(lib, t, tgtFile, ref, data, srcFile[ref.start..ref.start + ref.len], []);
      PatchDescribesChunk(lib, t, tgtFile, ref, data, srcFile, ref.start, []);
    }
  }

  /** Every deflate chunk of the target has something to compress and a deflate source. */
  ghost predicate AllUsable(ts: seq<ImageChunk>, ss: seq<ImageChunk>) {
    forall k :: 0 <= k < |ts| ==> Usable(ts[k], ss)
  }

  /** The patch for checked chunks gives exactly the target if and only if all of them are usable. */
  lemma ChunksRebuildIff(lib: Library, ts: seq<ImageChunk>, tgtFile: seq<byte>,
                         ss: seq<ImageChunk>, srcFile: seq<byte>)
    requires Laws(lib) && Tiles(ts, 0, |tgtFile|) && AllChecked(lib, ts, tgtFile)
    requires AllInFile(ss, srcFile) && AllFaithful(lib, ss, srcFile) && NotAStream(lib, srcFile)
    requires |srcFile| < TWO_63
    ensures AllInFile(ts, tgtFile)
    ensures var ps := ZipPatches(lib, ts, tgtFile, ss, srcFile);
            Encodable(ps) ==>
              Meaning(lib, srcFile, File(ps), None) == if AllUsable(ts, ss) then Patched(tgtFile) else Rejected
  {
    hide Laws, Describes, Refused, Meaning, Encodable, Raw, DataForPatch, ZipPatch, Checked, Usable, Faithful;
    TilesInFile(ts, 0, |tgtFile|, tgtFile);
    var ps := ZipPatches(lib, ts, tgtFile, ss, srcFile);
    var plains, targets := Plains(ts, tgtFile), Raws(ts, tgtFile);
    forall k | 0 <= k < |ps|
      ensures Describes(lib, srcFile, BonusFor(None, 0 + k), ps[k], plains[k], targets[k])
      ensures Refused(lib, srcFile, BonusFor(None, 0 + k), ps[k], plains[k]) <==> !Usable(ts[k], ss)
    {
      ZipPatchDescribes(lib, ts[k], tgtFile, ss, srcFile);
    }
    assert SomeRefused(lib, srcFile, None, 0, ps, plains) <==> exists k :: 0 <= k < |ts| && !Usable(ts[k], ss);
    TilingIsTheFile(ts, 0, |tgtFile|, tgtFile);
    if Encodable(ps) {
      WrittenFileMeansTarget(lib, srcFile, None, ps, plains, targets);
    }
  }

  /** What CheckAndProcessChunks leaves for patch generation. */
  lemma CheckedChunks(lib: Library, ts: seq<ImageChunk>, tgtFile: seq<byte>, ss: seq<ImageChunk>, srcFile: seq<byte>)
    requires Tiles(ts, 0, |tgtFile|) && AllFaithful(lib, ts, tgtFile)
    requires AllInFile(ss, srcFile) && AllFaithful(lib, ss, srcFile)
    ensures AllInFile(ts, tgtFile)
    ensures var (ts', ss') := Process(lib, ts, tgtFile, ss, srcFile, |ts|);
            && Tiles(ts', 0, |tgtFile|) && AllChecked(lib, ts', tgtFile)
            && Tiles(Merge(ts'), 0, |tgtFile|) && AllChecked(lib, Merge(ts'), tgtFile)
            && AllInFile(ss', srcFile) && AllFaithful(lib, ss', srcFile)
  {
    hide Merge, Process, AllChecked, AllFaithful, Tiles;
    TilesInFile(ts, 0, |tgtFile|, tgtFile);
    var (ts', ss') := Process(lib, ts, tgtFile, ss, srcFile, |ts|);
    ProcessedTarget(lib, ts, tgtFile, ss, srcFile);
    ProcessedSource(lib, ts, tgtFile, ss, srcFile);
    MergeTiles(ts', 0, |tgtFile|);
    MergeChecked(lib, ts', tgtFile);
  }

  lemma ProcessedTarget(lib: Library, ts: seq<ImageChunk>, tgtFile: seq<byte>, ss: seq<ImageChunk>, srcFile: seq<byte>)
    requires Tiles(ts, 0, |tgtFile|) && AllInFile(ts, tgtFile) && AllFaithful(lib, ts, tgtFile)
    requires AllInFile(ss, srcFile)
    ensures var ts' := Process(lib, ts, tgtFile, ss, srcFile, |ts|).0;
            Tiles(ts', 0, |tgtFile|) && AllChecked(lib, ts', tgtFile)
  {
    hide Process, Checked;
    ProcessChecks(lib, ts, tgtFile, ss, srcFile, |ts|);
    SamePartsTile(ts, Process(lib, ts, tgtFile, ss, srcFile, |ts|).0, 0, |tgtFile|);
  }

  lemma ProcessedSource(lib: Library, ts: seq<ImageChunk>, tgtFile: seq<byte>, ss: seq<ImageChunk>, srcFile: seq<byte>)
    requires AllInFile(ts, tgtFile) && AllInFile(ss, srcFile) && AllFaithful(lib, ss, srcFile)
    ensures var ss' := Process(lib, ts, tgtFile, ss, srcFile, |ts|).1;
            AllInFile(ss', srcFile) && AllFaithful(lib, ss', srcFile)
  {
    hide Process;
    var ss' := Process(lib, ts, tgtFile, ss, srcFile, |ts|).1;
    forall k | 0 <= k < |ss'| ensures InFile(ss'[k], srcFile) && Faithful(lib, ss'[k], srcFile) {
      assert InFile(ss[k], srcFile) && Faithful(lib, ss[k], srcFile);
      assert ss'[k] == ss[k] || ss'[k] == ToNormal(ss[k]);
    }
  }

  lemma MergeChecked(lib: Library, ts: seq<ImageChunk>, tgtFile: seq<byte>)
    requires AllChecked(lib, ts, tgtFile)
    ensures AllChecked(lib, Merge(ts), tgtFile)
  {
    hide Merge, Checked;
    var ms := Merge(ts);
    forall k | 0 <= k < |ms| ensures Checked(lib, ms[k], tgtFile) {
      if ms[k].kind == Deflate {
        MergeKeepsDeflate(ts, k);
      } else {
        NormalIsChecked(lib, ms[k], tgtFile);
      }
    }
  }

  lemma NormalIsChecked(lib: Library, c: ImageChunk, tgtFile: seq<byte>)
    requires c.kind == Normal
    ensures Checked(lib, c, tgtFile)
  {}

  lemma {:induction false} SamePartsTile(cs: seq<ImageChunk>, ds: seq<ImageChunk>, from: nat, to: nat)
    requires |cs| == |ds| && forall k :: 0 <= k < |cs| ==> SamePart(cs[k], ds[k])
    requires Tiles(cs, from, to)
    ensures Tiles(ds, from, to)
  {
    if cs != [] {
      assert SamePart(cs[0], ds[0]);
      forall k | 0 <= k < |cs[1..]| ensures SamePart(cs[1..][k], ds[1..][k]) {
        assert SamePart(cs[k + 1], ds[k + 1]);
      }
      SamePartsTile(cs[1..], ds[1..], from + cs[0].len, to);
    }
  }

  // ----- end to end

  lemma SourceIsFaithful(lib: Library, ss: seq<ImageChunk>, file: seq<byte>, limit: nat)
    requires SourceChunks(lib, ss, file, limit)
    ensures AllInFile(ss, file) && AllFaithful(lib, ss, file)
  {}

  /** Two zip files as their readers present them. */
  ghost predicate Zips(lib: Library, srcEntries: seq<ZipEntry>, srcFile: seq<byte>,
                       tgtEntries: seq<ZipEntry>, tgtFile: seq<byte>)
  {
    && Laws(lib) && |srcFile| < TWO_63
    && Ordered(srcEntries, 0, |srcFile|) && EntriesEnd(srcEntries) < |srcFile|
    && Ordered(tgtEntries, 0, |tgtFile|)
    && AllExtract(lib, srcEntries, srcFile) && AllExtract(lib, tgtEntries, tgtFile)
  }

  /** Every deflated entry of both files can be extracted. */
  ghost predicate BothRead(srcEntries: seq<ZipEntry>, srcSize: nat, tgtEntries: seq<ZipEntry>, tgtSize: nat, limit: nat)
    requires EntriesEnd(srcEntries) < srcSize
  {
    SourceList(srcEntries, srcSize, limit).Some? && TargetChunks(tgtEntries, tgtSize, limit, 0).Some?
  }

  lemma ListsTile(lib: Library, srcEntries: seq<ZipEntry>, srcFile: seq<byte>,
                  tgtEntries: seq<ZipEntry>, tgtFile: seq<byte>, limit: nat)
    requires Zips(lib, srcEntries, srcFile, tgtEntries, tgtFile)
    requires BothRead(srcEntries, |srcFile|, tgtEntries, |tgtFile|, limit)
    ensures SourceChunks(lib, SourceList(srcEntries, |srcFile|, limit).value, srcFile, limit)
    ensures var ss := SourceList(srcEntries, |srcFile|, limit).value;
            AllInFile(ss, srcFile) && AllFaithful(lib, ss, srcFile)
    ensures var ts := TargetChunks(tgtEntries, |tgtFile|, limit, 0).value;
            Tiles(ts, 0, |tgtFile|) && AllInFile(ts, tgtFile) && AllFaithful(lib, ts, tgtFile)
  {
    hide Laws, Tiles, AllFaithful, SourceChunks, AllExtract, SourceList, TargetChunks, Ordered, EntriesEnd;
    SourceListIs(lib, srcEntries, srcFile, limit);
    SourceIsFaithful(lib, SourceList(srcEntries, |srcFile|, limit).value, srcFile, limit);
    TargetTiles(lib, tgtEntries, tgtFile, limit, 0);
    TilesInFile(TargetChunks(tgtEntries, |tgtFile|, limit, 0).value, 0, |tgtFile|, tgtFile);
  }

  /** The chunk lists of both files, read and processed. */
  ghost function ZipLists(lib: Library, srcEntries: seq<ZipEntry>, srcFile: seq<byte>,
                          tgtEntries: seq<ZipEntry>, tgtFile: seq<byte>, limit: nat)
    : (r: (seq<ImageChunk>, seq<ImageChunk>))
    requires Zips(lib, srcEntries, srcFile, tgtEntries, tgtFile)
    requires BothRead(srcEntries, |srcFile|, tgtEntries, |tgtFile|, limit)
  {
    ListsTile(lib, srcEntries, srcFile, tgtEntries, tgtFile, limit);
    var ts := TargetChunks(tgtEntries, |tgtFile|, limit, 0).value;
    Process(lib, ts, tgtFile, SourceList(srcEntries, |srcFile|, limit).value, srcFile, |ts|)
  }

  lemma ZipListsAreChecked(lib: Library, srcEntries: seq<ZipEntry>, srcFile: seq<byte>,
                           tgtEntries: seq<ZipEntry>, tgtFile: seq<byte>, limit: nat)
    requires Zips(lib, srcEntries, srcFile, tgtEntries, tgtFile)
    requires BothRead(srcEntries, |srcFile|, tgtEntries, |tgtFile|, limit)
    ensures var (ts, ss) := ZipLists(lib, srcEntries, srcFile, tgtEntries, tgtFile, limit);
            && Tiles(Merge(ts), 0, |tgtFile|) && AllChecked(lib, Merge(ts), tgtFile) && AllInFile(Merge(ts), tgtFile)
            && AllInFile(ss, srcFile) && AllFaithful(lib, ss, srcFile)
  {
    hide Laws, Ordered, AllExtract, EntriesEnd, Tiles, AllFaithful, AllChecked, AllInFile, SourceChunks, SourceList,
      TargetChunks, Process, Merge;
    ListsTile(lib, srcEntries, srcFile, tgtEntries, tgtFile, limit);
    CheckedChunks(lib, TargetChunks(tgtEntries, |tgtFile|, limit, 0).value, tgtFile,
                  SourceList(srcEntries, |srcFile|, limit).value, srcFile);
    TilesInFile(Merge(ZipLists(lib, srcEntries, srcFile, tgtEntries, tgtFile, limit).0), 0, |tgtFile|, tgtFile);
  }

  ghost function ZipModePatches(lib: Library, srcEntries: seq<ZipEntry>, srcFile: seq<byte>,
                                tgtEntries: seq<ZipEntry>, tgtFile: seq<byte>): (ps: seq<PatchChunk>)
    requires Zips(lib, srcEntries, srcFile, tgtEntries, tgtFile)
    requires BothRead(srcEntries, |srcFile|, tgtEntries, |tgtFile|, 0)
  {
    ZipListsAreChecked(lib, srcEntries, srcFile, tgtEntries, tgtFile, 0);
    var (ts, ss) := ZipLists(lib, srcEntries, srcFile, tgtEntries, tgtFile, 0);
    ZipPatches(lib, Merge(ts), tgtFile, ss, srcFile)
  }

  lemma MergeUsable(ts: seq<ImageChunk>, ss: seq<ImageChunk>)
    ensures AllUsable(Merge(ts), ss) <==> AllUsable(ts, ss)
  {
    hide Merge, HasSource;
    var ms := Merge(ts);
    if AllUsable(ts, ss) {
      forall k | 0 <= k < |ms| ensures Usable(ms[k], ss) {
        if ms[k].kind == Deflate { MergeKeepsDeflate(ts, k); }
      }
    }
    if AllUsable(ms, ss) {
      forall k | 0 <= k < |ts| ensures Usable(ts[k], ss) {
        if ts[k].kind == Deflate { MergeHoldsDeflate(ts, ts[k]); }
      }
    }
  }

  /**
   * Zip mode without a limit, end to end, for any two zip files: applying the patch to the source
   * gives exactly the target if and only if every deflated entry of the target that survives the
   * processing has contents and keeps its source; otherwise the patch is rejected.
   */
  lemma ZipModeRebuildsIff(lib: Library, srcEntries: seq<ZipEntry>, srcFile: seq<byte>,
                           tgtEntries: seq<ZipEntry>, tgtFile: seq<byte>)
    requires Zips(lib, srcEntries, srcFile, tgtEntries, tgtFile) && NotAStream(lib, srcFile)
    requires BothRead(srcEntries, |srcFile|, tgtEntries, |tgtFile|, 0)
    ensures var (ts, ss) := ZipLists(lib, srcEntries, srcFile, tgtEntries, tgtFile, 0);
            var ps := ZipModePatches(lib, srcEntries, srcFile, tgtEntries, tgtFile);
            Encodable(ps) ==>
              Meaning(lib, srcFile, File(ps), None) == if AllUsable(ts, ss) then Patched(tgtFile) else Rejected
  {
    hide BothRead, Tiles, AllFaithful, AllChecked, AllInFile, ZipLists, Merge, AllUsable, Laws, Ordered, AllExtract,
      Meaning, Encodable, NotAStream, EntriesEnd;
    var (ts, ss) := ZipLists(lib, srcEntries, srcFile, tgtEntries, tgtFile, 0);
    ZipListsAreChecked(lib, srcEntries, srcFile, tgtEntries, tgtFile, 0);
    ChunksRebuildIff(lib, Merge(ts), tgtFile, ss, srcFile);
    MergeUsable(ts, ss);
  }

  /**
   * When no two deflated target entries compete for a source, every source is kept: the patch gives
   * the target if and only if no surviving entry, taken on its own, is empty.
   */
  lemma UnsharedUsableIff(lib: Library, ts: seq<ImageChunk>, tgtFile: seq<byte>,
                          ss: seq<ImageChunk>, srcFile: seq<byte>)
    requires AllInFile(ts, tgtFile) && AllInFile(ss, srcFile) && Unshared(ts, ss)
    ensures var (ts', ss') := Process(lib, ts, tgtFile, ss, srcFile, |ts|);
            AllUsable(ts', ss') <==>
            forall k :: 0 <= k < |ts| && Survives(lib, ts[k], tgtFile, ss, srcFile) ==> ts[k].plain != []
  {
    hide Process, ProcessOne, Unshared, HasSource, Survives;
    var (ts', ss') := Process(lib, ts, tgtFile, ss, srcFile, |ts|);
    UnsharedIsLocal(lib, ts, tgtFile, ss, srcFile, |ts|);
    ProcessKeepsSources(lib, ts, tgtFile, ss, srcFile, |ts|);
    forall k | 0 <= k < |ts|
      ensures Usable(ts'[k], ss') <==> (Survives(lib, ts[k], tgtFile, ss, srcFile) ==> ts[k].plain != [])
    {
      OneSurvives(lib, ts[k], tgtFile, ss, srcFile);
    }
  }

  /** imgdiff -z: from two zip files to a patch file. */
  method ImgdiffZip(lib: Library, srcEntries: seq<ZipEntry>, srcFile: seq<byte>,
                    tgtEntries: seq<ZipEntry>, tgtFile: seq<byte>)
    returns (patch: Option<seq<byte>>)
    requires Zips(lib, srcEntries, srcFile, tgtEntries, tgtFile) && NotAStream(lib, srcFile)
    ensures patch.Some? <==> BothRead(srcEntries, |srcFile|, tgtEntries, |tgtFile|, 0)
    ensures patch.Some? ==> patch.value == File(ZipModePatches(lib, srcEntries, srcFile, tgtEntries, tgtFile))
    ensures patch.Some? && Encodable(ZipModePatches(lib, srcEntries, srcFile, tgtEntries, tgtFile)) ==>
              var (ts, ss) := ZipLists(lib, srcEntries, srcFile, tgtEntries, tgtFile, 0);
              Meaning(lib, srcFile, patch.value, None) == if AllUsable(ts, ss) then Patched(tgtFile) else Rejected
  {
    hide Laws, Tiles, Meaning, File, Process, Merge, Ordered, AllExtract, TargetChunks, SourceList, AllFaithful,
      AllChecked, AllUsable, Encodable, NotAStream, SourceChunks;
    var srcChunks := InitializeSource(srcEntries, srcFile, 0);
    if srcChunks.None? { return None; }
    var tgtChunks := InitializeTarget(tgtEntries, tgtFile, 0);
    if tgtChunks.None? { return None; }
    ListsTile(lib, srcEntries, srcFile, tgtEntries, tgtFile, 0);
    ZipListsAreChecked(lib, srcEntries, srcFile, tgtEntries, tgtFile, 0);
    ZipModeRebuildsIff(lib, srcEntries, srcFile, tgtEntries, tgtFile);
    var src := new Image(srcFile, srcChunks.value);
    var tgt := new Image(tgtFile, tgtChunks.value);
    CheckAndProcessChunks(lib, tgt, src, 0);
    var ps := GeneratePatchesInternal(lib, tgt.chunks, tgtFile, src.chunks, srcFile);
    var fd := new OutputFile();
    WritePatchDataToFd(ps, fd);
    assert fd.written == [] + File(ps) == File(ps);
    return Some(fd.written);
  }

  // ----- zip files for which the promise fails

  /** One entry "a" and a central directory of one byte. */
  function OneEntry(kept: seq<byte>): (r: (seq<ZipEntry>, seq<byte>)) {
    ([ZipEntry("a", 0, |Escape(kept)|, true, Some(kept))], Escape(kept) + [9])
  }

  /** An entry "a-0" and after it an entry "a". */
  function TwoEntries(changed: seq<byte>, kept: seq<byte>): (r: (seq<ZipEntry>, seq<byte>)) {
    ([ZipEntry("a-0", 0, |Escape(changed)|, true, Some(changed)),
      ZipEntry("a", |Escape(changed)|, |Escape(kept)|, true, Some(kept))], Escape(changed) + Escape(kept))
  }

  lemma EscapedExtracts(e: ZipEntry, file: seq<byte>, data: seq<byte>)
    requires e.contents == Some(data) && |data| < TWO_32 && e.compressed == |Escape(data)|
    requires e.offset + e.compressed <= |file| && file[e.offset..e.offset + e.compressed] == Escape(data)
    ensures Extracts(Escaping(), e, file)
  {
    hide Escape, Unescape;
    UnescapeEscape(data, []);
    assert Escape(data) + [] == Escape(data);
  }

  lemma OneEntryList(kept: seq<byte>)
    requires |kept| < TWO_31
    ensures var (es, file) := OneEntry(kept);
            && Ordered(es, 0, |file|) && EntriesEnd(es) < |file| && AllExtract(Escaping(), es, file)
            && SourceList(es, |file|, 0) ==
               Some([ImageChunk(Deflate, 0, |Escape(kept)|, 6, kept, "a"), NormalPart(|Escape(kept)|, 1, "")])
            && NotAStream(Escaping(), file)
  {
    hide Escape, Unescape, Extracts;
    var (es, file) := OneEntry(kept);
    assert es[1..] == [] && es[..0] == [];
    EscapedExtracts(es[0], file, kept);
    var cs := [ImageChunk(Deflate, 0, |Escape(kept)|, 6, kept, "a")];
    assert AllEntryChunks([], 0) == Some([]);
    assert [] + cs == cs;
    assert AllEntryChunks(es, 0) == Some(cs);
    assert cs + [NormalPart(|Escape(kept)|, 1, "")] == [cs[0], NormalPart(|Escape(kept)|, 1, "")];
    UnescapeEscape(kept, [9]);
  }

  lemma TwoEntriesList(changed: seq<byte>, kept: seq<byte>)
    requires |changed| < TWO_31 && |kept| < TWO_31
    ensures var (es, file) := TwoEntries(changed, kept);
            && Ordered(es, 0, |file|) && AllExtract(Escaping(), es, file)
            && TargetChunks(es, |file|, 0, 0) ==
               Some([ImageChunk(Deflate, 0, |Escape(changed)|, 6, changed, "a-0"),
                     ImageChunk(Deflate, |Escape(changed)|, |Escape(kept)|, 6, kept, "a")])
  {
    hide Escape, Extracts, TargetChunks, Escaping;
    var (es, file) := TwoEntries(changed, kept);
    var n, m := |Escape(changed)|, |Escape(kept)|;
    assert Ordered(es[1..][1..], n + m, |file|) && Ordered(es[1..], n, |file|) && Ordered(es, 0, |file|);
    hide Ordered;
    assert file[0..0 + n] == Escape(changed) && file[n..n + m] == Escape(kept);
    EscapedExtracts(es[0], file, changed);
    EscapedExtracts(es[1], file, kept);
    TwoTargets(es[0], es[1], |file|);
  }

  lemma TwoTargets(a: ZipEntry, b: ZipEntry, size: nat)
    requires a.deflated && b.deflated && a.contents.Some? && b.contents.Some? && a.compressed > 0 && b.compressed > 0
    requires a.offset == 0 && b.offset == a.compressed && b.offset + b.compressed == size
    ensures TargetChunks([a, b], size, 0, 0) ==
            Some([ImageChunk(Deflate, a.offset, a.compressed, 6, a.contents.value, a.name),
                  ImageChunk(Deflate, b.offset, b.compressed, 6, b.contents.value, b.name)])
  {
    var es, none := [a, b], [];
    assert es[1..] == [b] && [b][1..] == none;
    var c, d := EntryChunks(a, 0).value, EntryChunks(b, 0).value;
    assert TargetChunks(none, size, 0, size) == Some([]);
    assert d + [] == d;
    assert TargetChunks([b], size, 0, b.offset) == Some(d);
    assert TargetChunks(es, size, 0, 0) == Some(c + d);
    assert c + d == [c[0], d[0]];
  }

  /** The second entry of the target takes the source away from the first. */
  lemma {:induction false} SharedProcess(changed: seq<byte>, kept: seq<byte>, ts: seq<ImageChunk>, ss: seq<ImageChunk>)
    requires changed != kept
    requires ts == [ImageChunk(Deflate, 0, |Escape(changed)|, 6, changed, "a-0"),
                    ImageChunk(Deflate, |Escape(changed)|, |Escape(kept)|, 6, kept, "a")]
    requires ss == [ImageChunk(Deflate, 0, |Escape(kept)|, 6, kept, "a"), NormalPart(|Escape(kept)|, 1, "")]
    ensures var (srcFile, tgtFile) := (OneEntry(kept).1, TwoEntries(changed, kept).1);
            && AllInFile(ts, tgtFile) && AllInFile(ss, srcFile)
            && Process(Escaping(), ts, tgtFile, ss, srcFile, 2) == ([ts[0], ToNormal(ts[1])], [ToNormal(ss[0]), ss[1]])
  {
    hide Escape;
    var (srcFile, tgtFile) := (OneEntry(kept).1, TwoEntries(changed, kept).1);
    var lib, t0, t1, s := Escaping(), ts[0], ts[1], ss[0];
    assert t0.name == s.name + "-0";
    assert Candidate(s, t0.name, false) && Candidate(s, t1.name, false);
    assert Find(ss, t0.name, false) == Some(0) && Find(ss, t1.name, false) == Some(0);
    assert Raw(t0, tgtFile) == Escape(changed) && Raw(t1, tgtFile) == Escape(kept) && Raw(s, srcFile) == Escape(kept);
    assert Escape(changed) != Escape(kept) by {
      if Escape(changed) == Escape(kept) { EscapeIsInjective(changed, kept); }
    }
    assert Reproduces(lib, t0, tgtFile, 6);
    assert ss[0 := ToNormal(s)] == [ToNormal(s), ss[1]];
    assert ts[0 := t0] == ts && ts[1 := ToNormal(t1)] == [t0, ToNormal(t1)];
    assert ProcessOne(lib, t0, tgtFile, ss, srcFile) == (t0, ss);
    assert ProcessOne(lib, t1, tgtFile, ss, srcFile) == (ToNormal(t1), [ToNormal(s), ss[1]]);
    hide ProcessOne;
    assert Process(lib, ts, tgtFile, ss, srcFile, 0) == (ts, ss);
    assert Process(lib, ts, tgtFile, ss, srcFile, 1) == (ts, ss);
  }

  lemma {:induction false} SharedPatches(ts: seq<ImageChunk>, tgtFile: seq<byte>,
                                         ss: seq<ImageChunk>, srcFile: seq<byte>)
    requires |ts| == 2 && AllInFile(ts, tgtFile) && ts[0].kind == Deflate && ts[1].kind == Normal
    requires |ts[0].plain| < TWO_32 && ts[1].len < TWO_31
    ensures Merge(ts) == ts && Encodable(ZipPatches(Escaping(), ts, tgtFile, ss, srcFile))
  {
    hide File, Escape, Find;
    assert ts[1..] == [ts[1]] && [ts[0]] + [ts[1]] == ts;
    assert Merge(ts) == [ts[0]] + Merge(ts[1..]);
    var ps := ZipPatches(Escaping(), ts, tgtFile, ss, srcFile);
    assert |ps[0].data| == 2 * |ts[0].plain| + 1 && |ps[1].data| == ts[1].len;
    RecordedSizeIsFileSize(ps);
    assert ps[1..] == [ps[1]] && ps[1..][1..] == [];
    assert SizeTotal(ps[1..]) == PatchSize(ps[1]) + SizeTotal(ps[1..][1..]);
    assert SizeTotal(ps) == PatchSize(ps[0]) + SizeTotal(ps[1..]);
  }

  /**
   * Two target entries, "a-0" and "a", share the source entry "a". The first keeps it as its deflate
   * source; the second is identical to it and turns it into a normal chunk: the patch is rejected.
   */
  lemma SharedSourceIsLost(changed: seq<byte>, kept: seq<byte>)
    requires changed != kept && |changed| < TWO_31 && 2 * |kept| + 1 < TWO_31
    ensures var (lib, (srcEntries, srcFile), (tgtEntries, tgtFile)) :=
              (Escaping(), OneEntry(kept), TwoEntries(changed, kept));
            && Zips(lib, srcEntries, srcFile, tgtEntries, tgtFile) && NotAStream(lib, srcFile)
            && BothRead(srcEntries, |srcFile|, tgtEntries, |tgtFile|, 0)
            && var patch := File(ZipModePatches(lib, srcEntries, srcFile, tgtEntries, tgtFile));
               Meaning(lib, srcFile, patch, None) == Rejected
  {
    hide Laws, Escape, Escaping, AllExtract, Ordered, EntriesEnd, SourceList, TargetChunks, NotAStream, Meaning, File,
      Process, Merge, ZipPatches, Encodable;
    var (lib, (srcEntries, srcFile), (tgtEntries, tgtFile)) := (Escaping(), OneEntry(kept), TwoEntries(changed, kept));
    EscapingObeysTheLaws();
    OneEntryList(kept);
    TwoEntriesList(changed, kept);
    var ts0, ss0 := TargetChunks(tgtEntries, |tgtFile|, 0, 0).value, SourceList(srcEntries, |srcFile|, 0).value;
    SharedProcess(changed, kept, ts0, ss0);
    var (ts, ss) := ZipLists(lib, srcEntries, srcFile, tgtEntries, tgtFile, 0);
    assert !Usable(ts[0], ss);
    ZipModeRebuildsIff(lib, srcEntries, srcFile, tgtEntries, tgtFile);
    SharedPatches(ts, tgtFile, ss, srcFile);
  }
}
