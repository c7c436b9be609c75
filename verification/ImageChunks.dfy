/** Image chunks: tilings of a file, the in-place merge of adjacent normal chunks, reconstruction. */
module ImageChunks {
  import opened Bytes
  import opened Codecs
  import opened PatchFile

  datatype ChunkKind = Normal | Deflate

  /** `plain` is the uncompressed data of a deflate chunk. */
  datatype ImageChunk = ImageChunk(
    kind: ChunkKind, start: nat, len: nat, level: int32, plain: seq<byte>, name: string)

  function NormalPart(start: nat, len: nat, name: string): (c: ImageChunk) {
    ImageChunk(Normal, start, len, 6, [], name)
  }

  predicate InFile(c: ImageChunk, file: seq<byte>) {
    c.start + c.len <= |file|
  }

  function Raw(c: ImageChunk, file: seq<byte>): (s: seq<byte>)
    requires InFile(c, file)
    ensures |s| == c.len
  {
    file[c.start..c.start + c.len]
  }

  function DataForPatch(c: ImageChunk, file: seq<byte>): (s: seq<byte>)
    requires InFile(c, file)
  {
    if c.kind == Deflate then c.plain else Raw(c, file)
  }

  function ToNormal(c: ImageChunk): (c': ImageChunk) {
    if c.kind != Deflate then c else c.(kind := Normal, plain := [])
  }

  /** The chunks follow one another without gaps from offset `from` to offset `to`. */
  predicate Tiles(cs: seq<ImageChunk>, from: nat, to: nat) {
    if cs == [] then from == to else cs[0].start == from && Tiles(cs[1..], from + cs[0].len, to)
  }

  lemma {:induction false} TilesGrows(cs: seq<ImageChunk>, from: nat, to: nat)
    requires Tiles(cs, from, to)
    ensures from <= to
  {
    if cs != [] { TilesGrows(cs[1..], from + cs[0].len, to); }
  }

  lemma {:induction false} TilesAppend(a: seq<ImageChunk>, b: seq<ImageChunk>, from: nat, mid: nat, to: nat)
    requires Tiles(a, from, mid) && Tiles(b, mid, to)
    ensures Tiles(a + b, from, to)
  {
    if a == [] {
      assert a + b == b;
    } else {
      TilesAppend(a[1..], b, from + a[0].len, mid, to);
      assert (a + b)[1..] == a[1..] + b;
    }
  }

  lemma TilesSnoc(cs: seq<ImageChunk>, c: ImageChunk, from: nat)
    requires Tiles(cs, from, c.start)
    ensures Tiles(cs + [c], from, c.start + c.len)
  {
    OneChunkTiles(c);
    TilesAppend(cs, [c], from, c.start, c.start + c.len);
  }

  lemma OneChunkTiles(c: ImageChunk)
    ensures Tiles([c], c.start, c.start + c.len)
  {
    assert [c][1..] == [];
  }

  /** A tiling can be cut at any index. */
  lemma {:induction false} TilesSplit(cs: seq<ImageChunk>, k: nat, from: nat, to: nat)
    requires Tiles(cs, from, to) && k <= |cs|
    ensures var mid := if k < |cs| then cs[k].start else to;
            from <= mid <= to && Tiles(cs[..k], from, mid) && Tiles(cs[k..], mid, to)
  {
    TilesGrows(cs, from, to);
    if k == 0 {
      assert cs[..0] == [] && cs[0..] == cs;
    } else {
      TilesSplit(cs[1..], k - 1, from + cs[0].len, to);
      assert cs[..k][1..] == cs[1..][..k - 1];
      assert cs[k..] == cs[1..][k - 1..];
    }
  }

  lemma TilesAt(cs: seq<ImageChunk>, k: nat, from: nat, to: nat)
    requires Tiles(cs, from, to) && k < |cs|
    ensures from <= cs[k].start && cs[k].start + cs[k].len <= to
    ensures k + 1 < |cs| ==> cs[k + 1].start == cs[k].start + cs[k].len
    ensures k + 1 == |cs| ==> cs[k].start + cs[k].len == to
  {
    TilesSplit(cs, k, from, to);
    var tail := cs[k..];
    TilesGrows(tail[1..], cs[k].start + cs[k].len, to);
    if k + 1 < |cs| { assert tail[1..][0] == cs[k + 1]; }
  }

  ghost predicate AllInFile(cs: seq<ImageChunk>, file: seq<byte>) {
    forall k :: 0 <= k < |cs| ==> InFile(cs[k], file)
  }

  lemma TilesInFile(cs: seq<ImageChunk>, from: nat, to: nat, file: seq<byte>)
    requires Tiles(cs, from, to) && to <= |file|
    ensures AllInFile(cs, file)
  {
    forall k | 0 <= k < |cs| ensures InFile(cs[k], file) {
      TilesAt(cs, k, from, to);
    }
  }

  /** The raw bytes of each chunk. */
  function Raws(cs: seq<ImageChunk>, file: seq<byte>): (rs: seq<seq<byte>>)
    requires forall k :: 0 <= k < |cs| ==> InFile(cs[k], file)
    ensures |rs| == |cs|
    ensures forall k :: 0 <= k < |cs| ==> rs[k] == Raw(cs[k], file)
  {
    if cs == [] then [] else [Raw(cs[0], file)] + Raws(cs[1..], file)
  }

  function Plains(cs: seq<ImageChunk>, file: seq<byte>): (rs: seq<seq<byte>>)
    requires forall k :: 0 <= k < |cs| ==> InFile(cs[k], file)
    ensures |rs| == |cs|
    ensures forall k :: 0 <= k < |cs| ==> rs[k] == DataForPatch(cs[k], file)
  {
    if cs == [] then [] else [DataForPatch(cs[0], file)] + Plains(cs[1..], file)
  }

  /** The raw bytes of a tiling are the bytes of the file. */
  lemma {:induction false} TilingIsTheFile(cs: seq<ImageChunk>, from: nat, to: nat, file: seq<byte>)
    requires Tiles(cs, from, to) && to <= |file| && AllInFile(cs, file)
    ensures from <= to && Flatten(Raws(cs, file)) == file[from..to]
  {
    TilesGrows(cs, from, to);
    if cs != [] {
      var mid := from + cs[0].len;
      assert AllInFile(cs[1..], file) by {
        forall k | 0 <= k < |cs[1..]| ensures InFile(cs[1..][k], file) { assert InFile(cs[k + 1], file); }
      }
      TilingIsTheFile(cs[1..], mid, to, file);
      assert Raws(cs, file)[1..] == Raws(cs[1..], file);
      assert file[from..to] == file[from..mid] + file[mid..to];
    }
  }

  // ----- merging

  predicate IsAdjacentNormal(c: ImageChunk, d: ImageChunk) {
    c.kind == Normal && d.kind == Normal && d.start == c.start + c.len
  }

  function Joined(c: ImageChunk, d: ImageChunk): (j: ImageChunk) {
    c.(len := c.len + d.len)
  }

  function Merge(cs: seq<ImageChunk>): (ms: seq<ImageChunk>)
    decreases |cs|
  {
    if |cs| < 2 then cs
    else if IsAdjacentNormal(cs[0], cs[1]) then Merge([Joined(cs[0], cs[1])] + cs[2..])
    else [cs[0]] + Merge(cs[1..])
  }

  function Kinds(cs: seq<ImageChunk>): (ks: seq<ChunkKind>)
    ensures |ks| == |cs|
    ensures forall k :: 0 <= k < |cs| ==> ks[k] == cs[k].kind
  {
    if cs == [] then [] else [cs[0].kind] + Kinds(cs[1..])
  }

  /** Every run of Normal becomes a single one. */
  function Collapse(ks: seq<ChunkKind>): (rs: seq<ChunkKind>) {
    if |ks| < 2 then ks
    else if ks[0] == Normal && ks[1] == Normal then Collapse(ks[1..])
    else [ks[0]] + Collapse(ks[1..])
  }

  ghost predicate NothingToMerge(cs: seq<ImageChunk>) {
    forall k :: 0 <= k < |cs| - 1 ==> !IsAdjacentNormal(cs[k], cs[k + 1])
  }

  lemma {:induction false} MergeTiles(cs: seq<ImageChunk>, from: nat, to: nat)
    requires Tiles(cs, from, to)
    ensures Tiles(Merge(cs), from, to)
    decreases |cs|
  {
    if |cs| < 2 {
    } else if IsAdjacentNormal(cs[0], cs[1]) {
      var next := [Joined(cs[0], cs[1])] + cs[2..];
      assert next[1..] == cs[1..][1..];
      MergeTiles(next, from, to);
    } else {
      MergeTiles(cs[1..], from + cs[0].len, to);
      assert Merge(cs)[1..] == Merge(cs[1..]);
    }
  }

  /** The first chunk of a merged list starts where, and is of the kind that, the first chunk was. */
  lemma {:induction false} MergeFirst(cs: seq<ImageChunk>)
    requires cs != []
    ensures Merge(cs) != [] && Merge(cs)[0].kind == cs[0].kind && Merge(cs)[0].start == cs[0].start
    decreases |cs|
  {
    if |cs| >= 2 && IsAdjacentNormal(cs[0], cs[1]) {
      MergeFirst([Joined(cs[0], cs[1])] + cs[2..]);
    }
  }

  /** Merging leaves no pair that could still be merged. */
  lemma {:induction false} MergeIsComplete(cs: seq<ImageChunk>)
    ensures NothingToMerge(Merge(cs))
    decreases |cs|
  {
    if |cs| < 2 {
    } else if IsAdjacentNormal(cs[0], cs[1]) {
      MergeIsComplete([Joined(cs[0], cs[1])] + cs[2..]);
    } else {
      MergeIsComplete(cs[1..]);
      MergeFirst(cs[1..]);
      var tail := Merge(cs[1..]);
      var ms := [cs[0]] + tail;
      forall k | 0 <= k < |ms| - 1 ensures !IsAdjacentNormal(ms[k], ms[k + 1]) {
        if k > 0 { assert ms[k] == tail[k - 1] && ms[k + 1] == tail[k]; }
      }
    }
  }

  /** In a tiling, what is merged depends on the kinds alone. */
  lemma {:induction false} MergeCollapsesKinds(cs: seq<ImageChunk>, from: nat, to: nat)
    requires Tiles(cs, from, to)
    ensures Kinds(Merge(cs)) == Collapse(Kinds(cs))
    decreases |cs|
  {
    if |cs| < 2 {
    } else {
      assert Kinds(cs)[1..] == Kinds(cs[1..]);
      if IsAdjacentNormal(cs[0], cs[1]) {
        var next := [Joined(cs[0], cs[1])] + cs[2..];
        assert next[1..] == cs[1..][1..];
        MergeCollapsesKinds(next, from, to);
        assert Kinds(next) == Kinds(cs[1..]);
      } else {
        assert cs[1].start == from + cs[0].len;
        MergeCollapsesKinds(cs[1..], from + cs[0].len, to);
        assert Merge(cs)[1..] == Merge(cs[1..]);
      }
    }
  }

  /** Deflate chunks go through a merge untouched. */
  lemma {:induction false} MergeKeepsDeflate(cs: seq<ImageChunk>, k: nat)
    requires k < |Merge(cs)| && Merge(cs)[k].kind == Deflate
    ensures Merge(cs)[k] in cs
    decreases |cs|
  {
    if |cs| < 2 {
    } else if IsAdjacentNormal(cs[0], cs[1]) {
      var next := [Joined(cs[0], cs[1])] + cs[2..];
      MergeKeepsDeflate(next, k);
      var c := Merge(cs)[k];
      assert c in next && c != next[0];
      assert c in cs[2..];
    } else if k > 0 {
      MergeKeepsDeflate(cs[1..], k - 1);
      assert Merge(cs)[k] == Merge(cs[1..])[k - 1];
      assert Merge(cs)[k] in cs[1..];
    }
  }

  /** And none of them is lost. */
  lemma {:induction false} MergeHoldsDeflate(cs: seq<ImageChunk>, c: ImageChunk)
    requires c in cs && c.kind == Deflate
    ensures c in Merge(cs)
    decreases |cs|
  {
    if |cs| >= 2 {
      if IsAdjacentNormal(cs[0], cs[1]) {
        assert c in cs[2..];
        MergeHoldsDeflate([Joined(cs[0], cs[1])] + cs[2..], c);
      } else if c != cs[0] {
        MergeHoldsDeflate(cs[1..], c);
      }
    }
  }

  /** A loaded image: the whole file and its list of chunks. */
  class Image {
    const content: seq<byte>
    var chunks: seq<ImageChunk>

    constructor (content: seq<byte>, chunks: seq<ImageChunk>)
      ensures this.content == content && this.chunks == chunks
    {
      this.content, this.chunks := content, chunks;
    }

    /** Extend chunk `cur` over the normal chunks that follow it. */
    method ExtendRun(cur: nat) returns (toCheck: nat)
      requires cur < |chunks|
      modifies this`chunks
      ensures |chunks| == |old(chunks)| && cur < toCheck <= |chunks|
      ensures chunks[..cur] == old(chunks)[..cur]
      ensures Merge(old(chunks)[cur..]) == [chunks[cur]] + Merge(chunks[toCheck..])
    {
      hide Merge;
      toCheck := cur + 1;
      assert chunks[cur..] == [chunks[cur]] + chunks[toCheck..];
      while toCheck < |chunks| && IsAdjacentNormal(chunks[cur], chunks[toCheck])
        invariant |chunks| == |old(chunks)| && cur < toCheck <= |chunks|
        invariant chunks[..cur] == old(chunks)[..cur]
        invariant Merge(old(chunks)[cur..]) == Merge([chunks[cur]] + chunks[toCheck..])
      {
        MergeJoins(chunks[cur], chunks[toCheck], chunks[toCheck + 1..]);
        assert chunks[toCheck..] == [chunks[toCheck]] + chunks[toCheck + 1..];
        chunks := chunks[cur := Joined(chunks[cur], chunks[toCheck])];
        toCheck := toCheck + 1;
      }
      MergeStops(chunks[cur], chunks[toCheck..]);
    }

    /** Compact the chunk list in place. */
    method MergeAdjacentNormalChunks()
      modifies this`chunks
      ensures chunks == Merge(old(chunks))
    {
      hide Merge;
      var mergedLast, cur := 0, 0;
      while cur < |chunks|
        invariant mergedLast <= cur <= |chunks|
        invariant chunks[..mergedLast] + Merge(chunks[cur..]) == Merge(old(chunks))
      {
        ghost var done := chunks[..mergedLast];
        var toCheck := ExtendRun(cur);
        assert chunks[..mergedLast] == done;
        ghost var last, rest := [chunks[cur]], Merge(chunks[toCheck..]);
        ConcatAssoc(done, last, rest);
        if mergedLast != cur {
          chunks := chunks[mergedLast := chunks[cur]];
        }
        assert chunks[..mergedLast + 1] == done + last;
        mergedLast := mergedLast + 1;
        cur := toCheck;
      }
      assert Merge(chunks[cur..]) == [] by { MergeNothing(chunks[cur..]); }
      if mergedLast < |chunks| {
        chunks := chunks[..mergedLast];
      }
    }
  }

  lemma MergeNothing(cs: seq<ImageChunk>)
    requires |cs| == 0
    ensures Merge(cs) == []
  {}

  lemma MergeJoins(c: ImageChunk, d: ImageChunk, rest: seq<ImageChunk>)
    requires IsAdjacentNormal(c, d)
    ensures Merge([c] + ([d] + rest)) == Merge([Joined(c, d)] + rest)
  {
    var list := [c] + ([d] + rest);
    assert list[2..] == rest;
  }

  lemma MergeStops(c: ImageChunk, rest: seq<ImageChunk>)
    requires rest == [] || !IsAdjacentNormal(c, rest[0])
    ensures Merge([c] + rest) == [c] + Merge(rest)
  {
    var list := [c] + rest;
    assert list[1..] == rest;
  }

  // ----- reconstruction

  /** Compressing the stored data with these parameters gives exactly the bytes of the chunk. */
  predicate Reproduces(lib: Library, c: ImageChunk, file: seq<byte>, level: int32)
    requires InFile(c, file)
  {
    lib.starts(Params(level)) && lib.deflated(Params(level), c.plain) == Raw(c, file)
  }

  /** What a finishing stream has put out so far is the beginning of the compressed form. */
  lemma {:induction false} FinishingPrefix(lib: Library, e: Encoder, next: seq<byte>)
    requires Laws(lib) && lib.reachable(e) && !e.ended && (e.finishing ==> next == e.left)
    ensures e.emitted <= lib.deflated(e.params, e.fed + next)
    decreases lib.bound(e.params, |e.fed| + |next|) - |e.emitted|
  {
    hide PatchLaw, InflateLaw;
    var s := lib.deflate(e, next, true);
    assert CallLaw(lib, e, next, true);
    if s.status == Ok {
      var e' := After(e, next, true, s);
      var rest := next[s.consumed..];
      assert next == next[..s.consumed] + rest;
      ConcatAssoc(e.fed, next[..s.consumed], rest);
      assert |e'.emitted| <= lib.bound(e.params, |e'.fed|) <= lib.bound(e.params, |e.fed| + |next|);
      FinishingPrefix(lib, e', rest);
    }
  }

  /** If the whole stream is the chunk, the bytes emitted last are found in the file. */
  lemma Agreement(emitted: seq<byte>, whole: seq<byte>, last: seq<byte>, c: ImageChunk, file: seq<byte>)
    requires InFile(c, file) && emitted <= whole
    requires |last| <= |emitted| && emitted[|emitted| - |last|..] == last
    ensures var at := c.start + |emitted| - |last|;
            whole == Raw(c, file) ==> at + |last| <= |file| && file[at..at + |last|] == last
  {
    if whole == Raw(c, file) {
      var at := c.start + |emitted| - |last|;
      forall k | 0 <= k < |last| ensures file[at + k] == last[k] {
        assert emitted[|emitted| - |last| + k] == last[k];
        assert whole[|emitted| - |last| + k] == last[k];
      }
    }
  }

  /** One call of deflate() with Z_FINISH. */
  method FinishOnce(lib: Library, e: Encoder, next: seq<byte>)
    returns (e': Encoder, rest: seq<byte>, produced: seq<byte>)
    requires Laws(lib) && lib.reachable(e) && !e.ended && (e.finishing ==> next == e.left)
    ensures lib.reachable(e') && e'.params == e.params && e'.left == rest
    ensures e'.fed + rest == e.fed + next
    ensures e'.emitted == e.emitted + produced
    ensures e'.emitted <= lib.deflated(e.params, e.fed + next)
    ensures |e'.emitted| <= lib.bound(e.params, |e.fed| + |next|)
    ensures if e'.ended then e'.emitted == lib.deflated(e.params, e.fed + next) else produced != []
  {
    hide PatchLaw, InflateLaw;
    var s := lib.deflate(e, next, true);
    assert CallLaw(lib, e, next, true);
    e', rest, produced := After(e, next, true, s), next[s.consumed..], s.produced;
    assert next == next[..s.consumed] + rest;
    ConcatAssoc(e.fed, next[..s.consumed], rest);
    assert |e'.emitted| <= lib.bound(e.params, |e'.fed|) <= lib.bound(e.params, |e.fed| + |next|);
    if !e'.ended { FinishingPrefix(lib, e', rest); }
  }

  lemma FreshIsReachable(lib: Library, params: DeflateParams)
    requires Laws(lib) && lib.starts(params)
    ensures lib.reachable(Fresh(params))
  {}

  lemma SliceGrows<T>(s: seq<T>, i: nat, j: nat, k: nat)
    requires i <= j <= k <= |s|
    ensures s[i..k] == s[i..j] + s[j..k]
  {}

  /** Compress the stored data and compare it with the file, buffer by buffer. */
  method TryReconstruction(lib: Library, c: ImageChunk, file: seq<byte>, level: int32) returns (ok: bool)
    requires Laws(lib) && InFile(c, file)
    ensures ok <==> Reproduces(lib, c, file, level)
  {
    hide Laws, Params;
    var params := Params(level);
    if !lib.starts(params) { return false; }
    var strm, next := Fresh(params), c.plain;
    ghost var whole := lib.deflated(params, c.plain);
    ghost var limit := lib.bound(params, |c.plain|);
    assert lib.reachable(strm) by { FreshIsReachable(lib, params); }
    var offset := 0;
    while true
      invariant lib.reachable(strm) && strm.params == params && !strm.ended
      invariant strm.fed + next == c.plain && (strm.finishing ==> next == strm.left)
      invariant offset == |strm.emitted| <= limit && c.start + offset <= |file|
      invariant file[c.start..c.start + offset] == strm.emitted
      decreases limit - |strm.emitted|
    {
      var produced;
      strm, next, produced := FinishOnce(lib, strm, next);
      var at := c.start + offset;
      if at + |produced| > |file| || file[at..at + |produced|] != produced {
        Agreement(strm.emitted, whole, produced, c, file);
        return false;
      }
      SliceGrows(file, c.start, at, at + |produced|);
      offset := offset + |produced|;
      if strm.ended { break; }
    }
    return offset == c.len;
  }

  /** Two encoder levels are tried, 6 and then 9; the chunk remembers the one that works. */
  method ReconstructDeflateChunk(lib: Library, c: ImageChunk, file: seq<byte>)
    returns (ok: bool, c': ImageChunk)
    requires Laws(lib) && InFile(c, file)
    ensures ok <==> c.kind == Deflate && (Reproduces(lib, c, file, 6) || Reproduces(lib, c, file, 9))
    ensures ok ==> c' == c.(level := if Reproduces(lib, c, file, 6) then 6 else 9)
    ensures !ok ==> c' == c
  {
    c' := c;
    if c.kind != Deflate { return false, c'; }
    var level: int32 := 6;
    while level <= 9
      invariant level == 6 || level == 9 || level == 12
      invariant c' == c
      invariant level > 6 ==> !Reproduces(lib, c, file, 6)
      invariant level > 9 ==> !Reproduces(lib, c, file, 9)
      decreases 12 - level
    {
      var fits := TryReconstruction(lib, c, file, level);
      if fits {
        return true, c.(level := level);
      }
      level := level + 3;
    }
    return false, c';
  }
}
