/** From a target chunk and its source chunk to a patch chunk, in every mode. */
module PatchMaking {
  import opened Bytes
  import opened Codecs
  import opened PatchFile
  import opened ImageChunks
  import opened ImgPatch

  predicate RawDataIsSmaller(tgt: ImageChunk, patchSize: nat) {
    tgt.kind == Normal && (tgt.len <= 160 || tgt.len < patchSize)
  }

  function RawPatchOf(tgt: ImageChunk, tgtFile: seq<byte>): (p: PatchChunk)
    requires InFile(tgt, tgtFile)
  {
    var data := DataForPatch(tgt, tgtFile);
    PatchChunk(RawPatch, 0, 0, 0, tgt.start, tgt.len, |data|, tgt.level, data)
  }

  function DiffPatchOf(tgt: ImageChunk, tgtFile: seq<byte>, src: ImageChunk, srcData: seq<byte>, data: seq<byte>)
    : (p: PatchChunk)
    requires InFile(tgt, tgtFile)
  {
    PatchChunk(if tgt.kind == Deflate then DeflatePatch else NormalPatch,
               src.start, src.len, |srcData|,
               tgt.start, tgt.len, |DataForPatch(tgt, tgtFile)|, tgt.level, data)
  }

  /** The patch chunk that is emitted for `tgt`; `srcData` is the data for patch of `src`. */
  function PatchFor(lib: Library, tgt: ImageChunk, tgtFile: seq<byte>, src: ImageChunk, srcData: seq<byte>)
    : (p: PatchChunk)
    requires InFile(tgt, tgtFile)
  {
    if RawDataIsSmaller(tgt, 0) then RawPatchOf(tgt, tgtFile)
    else
      var data := lib.bsdiff(srcData, DataForPatch(tgt, tgtFile));
      if RawDataIsSmaller(tgt, |data|) then RawPatchOf(tgt, tgtFile)
      else DiffPatchOf(tgt, tgtFile, src, srcData, data)
  }

  /** The chunk's bytes inflate to the data it stores, apart from the bonus data appended to it. */
  ghost predicate Inflates(lib: Library, src: ImageChunk, raw: seq<byte>, bonus: seq<byte>) {
    && lib.inflate(raw).Inflated?
    && src.plain == lib.inflate(raw).data + bonus
  }

  /** What the patch of a target chunk relies on. `raw` are the bytes found at apply time. */
  ghost predicate Matched(lib: Library, tgt: ImageChunk, tgtFile: seq<byte>,
                          src: ImageChunk, srcData: seq<byte>, raw: seq<byte>, bonus: seq<byte>)
    requires InFile(tgt, tgtFile)
  {
    if tgt.kind == Deflate then
      && Reproduces(lib, tgt, tgtFile, tgt.level)
      && |tgt.plain| < TWO_63
      && srcData == src.plain && |srcData| < TWO_63
      && Inflates(lib, src, raw, bonus)
    else srcData == raw
  }

  lemma PatchDescribesChunk(lib: Library, tgt: ImageChunk, tgtFile: seq<byte>,
                            src: ImageChunk, srcData: seq<byte>,
                            old_: seq<byte>, at: nat, bonus: seq<byte>)
    requires InFile(tgt, tgtFile) && at + src.len <= |old_|
    requires Matched(lib, tgt, tgtFile, src, srcData, old_[at..at + src.len], bonus)
    ensures var p := PatchFor(lib, tgt, tgtFile, src, srcData);
            var p' := if p.kind == RawPatch then p else p.(srcStart := at);
            && Describes(lib, old_, bonus, p', DataForPatch(tgt, tgtFile), Raw(tgt, tgtFile))
            && (Refused(lib, old_, bonus, p', DataForPatch(tgt, tgtFile)) <==> tgt.kind == Deflate && tgt.plain == [])
  {
    if tgt.kind == Deflate {
      var raw := old_[at..at + src.len];
      var data := lib.inflate(raw).data;
      assert |srcData| == 0 ==> srcData == [];
      assert Expanded(lib, raw, |srcData|, bonus) == Some(srcData);
    }
  }

  /**
   * A normal chunk of up to 160 bytes is stored; a longer one costs the smaller of its own length and
   * the length of its bsdiff patch. A deflate chunk is always patched.
   */
  lemma SmallestIsChosen(lib: Library, tgt: ImageChunk, tgtFile: seq<byte>, src: ImageChunk, srcData: seq<byte>)
    requires InFile(tgt, tgtFile)
    ensures var p := PatchFor(lib, tgt, tgtFile, src, srcData);
            var raw := tgtFile[tgt.start..tgt.start + tgt.len];
            if tgt.kind == Deflate then p.kind == DeflatePatch && p.data == lib.bsdiff(srcData, tgt.plain)
            else if tgt.len <= 160 then p.kind == RawPatch && p.data == raw
            else
              var diff := lib.bsdiff(srcData, raw);
              && |p.data| == (if |raw| < |diff| then |raw| else |diff|)
              && (if |raw| < |diff| then p.kind == RawPatch && p.data == raw
                  else p.kind == NormalPatch && p.data == diff)
  {
    assert |tgtFile[tgt.start..tgt.start + tgt.len]| == tgt.len;
  }

  /** A deflate chunk holds what its bytes inflate to. */
  ghost predicate Faithful(lib: Library, c: ImageChunk, file: seq<byte>) {
    c.kind == Deflate ==>
      && InFile(c, file) && lib.inflate(Raw(c, file)) == Inflated(c.plain, c.len)
      && |c.plain| < TWO_32
  }

  ghost predicate AllFaithful(lib: Library, cs: seq<ImageChunk>, file: seq<byte>) {
    forall k :: 0 <= k < |cs| ==> Faithful(lib, cs[k], file)
  }
}
