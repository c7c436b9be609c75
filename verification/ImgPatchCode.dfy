/**
 * ApplyImagePatch and its recompressing sink as they run: a sink and a SHA-1 context that receive
 * bytes, a deflate stream fed piece by piece, and a cursor that moves over the chunk records.
 */
module ImgPatchCode {
  import opened Bytes
  import opened Codecs
  import opened PatchFile
  import opened ImgPatch

  datatype Verdict = Done | Failed | Abort

  /** The caller's sink and SHA-1 context, as the bytes each received so far. */
  class Target {
    var output: seq<byte>
    var absorbed: seq<byte>

    constructor ()
      ensures output == [] && absorbed == []
    { output, absorbed := [], []; }

    method Sink(data: seq<byte>)
      modifies this
      ensures output == old(output) + data && absorbed == old(absorbed)
    { output := output + data; }

    method Sha1Update(data: seq<byte>)
      modifies this
      ensures output == old(output) && absorbed == old(absorbed) + data
    { absorbed := absorbed + data; }
  }

  /** The state that the compression_sink lambda captures. */
  class CompressionSink {
    const lib: Library
    const params: DeflateParams
    const expected: nat
    const target: Target
    var strm: Encoder
    var actual: nat
    var totalWritten: nat
    var ret: Status
    ghost const outputBefore: seq<byte>
    ghost const absorbedBefore: seq<byte>

    /** What holds between any two calls of deflate(). */
    ghost predicate Streaming()
      reads this, target
    {
      && lib.reachable(strm) && strm.params == params
      && totalWritten == |strm.emitted|
      && target.output == outputBefore + strm.emitted
      && target.absorbed == absorbedBefore + strm.emitted
    }

    /** What holds between two deliveries. */
    ghost predicate Valid()
      reads this, target
    {
      && Streaming()
      && actual == |strm.fed|
      && (ret == if strm.ended then StreamEnd else Ok)
      && (strm.ended <==> actual > 0 && actual >= expected)
      && (strm.finishing ==> strm.ended)
      && (strm.ended ==> strm.emitted == lib.deflated(params, strm.fed))
    }

    constructor (lib: Library, params: DeflateParams, expected: nat, target: Target)
      requires Laws(lib) && lib.starts(params)
      ensures Valid() && strm == Fresh(params)
      ensures this.lib == lib && this.params == params && this.expected == expected && this.target == target
      ensures outputBefore == target.output && absorbedBefore == target.absorbed
    {
      this.lib, this.params, this.expected, this.target := lib, params, expected, target;
      strm, actual, totalWritten, ret := Fresh(params), 0, 0, Ok;
      outputBefore, absorbedBefore := target.output, target.absorbed;
    }

    /** One call of deflate() with a fresh 32 KiB buffer, and the hand-over of what it produced. */
    method DeflateOnce(next: seq<byte>, finish: bool) returns (rest: seq<byte>, filled: bool)
      requires Laws(lib) && Streaming()
      requires strm.ended || Callable(strm, next, finish)
      modifies this`strm, this`ret, this`totalWritten, target
      ensures Streaming()
      ensures old(strm.ended) && next != [] ==> ret == Error
      ensures !old(strm.ended) ==>
                && ret != Error
                && strm.fed + rest == old(strm.fed) + next
                && strm.finishing == finish && strm.full == filled && (finish ==> strm.left == rest)
                && (strm.ended <==> ret == StreamEnd)
                && |strm.emitted| <= lib.bound(params, |strm.fed| + |rest|)
                && |strm.emitted| >= |old(strm.emitted)| + (if filled then 1 else 0)
                && (ret == Ok && !filled ==> rest == [] && !finish)
                && (ret == StreamEnd ==> finish && rest == [] &&
                                         strm.emitted == lib.deflated(params, strm.fed))
    {
      hide PatchLaw, InflateLaw;
      var s := lib.deflate(strm, next, finish);
      assert CallLaw(lib, strm, next, finish);
      ret, rest, filled := s.status, next, false;
      if s.status == Error || s.consumed > |next| { return; }
      ghost var before := strm;
      if strm.ended { return; }
      strm := After(strm, next, finish, s);
      rest := next[s.consumed..];
      ConcatAssoc(before.fed, next[..s.consumed], rest);
      assert next == next[..s.consumed] + rest;
      assert s.consumed == |next| ==> next[..s.consumed] == next;
      totalWritten := totalWritten + |s.produced|;
      target.Sink(s.produced);
      target.Sha1Update(s.produced);
      ConcatAssoc(outputBefore, before.emitted, s.produced);
      ConcatAssoc(absorbedBefore, before.emitted, s.produced);
      filled := |s.produced| == ROOM;
      assert |strm.emitted| <= lib.bound(params, |strm.fed|) <= lib.bound(params, |strm.fed| + |rest|);
    }

    /** One delivery from bspatch; zero tells bspatch to give up. */
    method Deliver(data: seq<byte>) returns (accepted: nat)
      requires Laws(lib) && Valid() && data != []
      modifies this, target
      ensures old(strm.ended) ==> accepted == 0
      ensures !old(strm.ended) ==> accepted == |data| && Valid() && strm.fed == old(strm.fed) + data
    {
      hide Laws, Callable;
      var finish := !(actual + |data| < expected);
      ghost var all := strm.fed + data;
      ghost var limit := lib.bound(params, |all|);
      assert strm.ended || Callable(strm, data, finish) by { FirstCall(strm, data, finish); }
      var next, filled := DeflateOnce(data, finish);
      if ret == Error { return 0; }
      while (next != [] || filled) && ret != StreamEnd
        invariant Streaming() && !old(strm.ended) && actual == old(actual)
        invariant strm.fed + next == all
        invariant strm.finishing == finish && strm.full == filled && (finish ==> strm.left == next)
        invariant strm.ended <==> ret == StreamEnd
        invariant ret != Error
        invariant ret == Ok && !filled ==> next == [] && !finish
        invariant ret == StreamEnd ==> finish && next == [] && strm.emitted == lib.deflated(params, strm.fed)
        invariant |strm.emitted| <= limit
        decreases limit - |strm.emitted|, filled
      {
        assert Callable(strm, next, finish) by { LaterCall(strm, next, finish); }
        next, filled := DeflateOnce(next, finish);
      }
      actual := actual + |data|;
      accepted := |data|;
    }
  }

  lemma FirstCall(e: Encoder, data: seq<byte>, finish: bool)
    requires data != [] && (e.finishing ==> e.ended)
    ensures e.ended || Callable(e, data, finish)
  {}

  lemma LaterCall(e: Encoder, next: seq<byte>, finish: bool)
    requires !e.ended && e.finishing == finish && e.full && (finish ==> e.left == next)
    ensures Callable(e, next, finish)
  {}

  lemma PrefixOfFlatten(pieces: seq<seq<byte>>, k: nat)
    requires k < |pieces| && pieces[k] != []
    ensures |Flatten(pieces[..k])| < |Flatten(pieces)|
  {
    assert pieces == pieces[..k] + ([pieces[k]] + pieces[k + 1..]);
    FlattenAppend(pieces[..k], [pieces[k]] + pieces[k + 1..]);
    FlattenAppend([pieces[k]], pieces[k + 1..]);
    assert Flatten([pieces[k]]) == pieces[k] + Flatten([]);
  }

  /** bspatch into a deflate stream into the sink. */
  method ApplyBSDiffPatchAndStreamOutput(lib: Library, src: seq<byte>, patch: seq<byte>, offset: nat,
                                         expected: nat, params: DeflateParams, target: Target)
    returns (r: Verdict)
    requires Laws(lib)
    modifies target
    ensures match StreamedAt(lib, src, patch, offset, expected, params, 0)
            case Emits(bytes, _) =>
              r == Done && target.output == old(target.output) + bytes &&
              target.absorbed == old(target.absorbed) + bytes
            case Rejects => r == Failed
            case Aborts => r == Abort
  {
    if !lib.starts(params) { return Failed; }
    var sink := new CompressionSink(lib, params, expected, target);
    if offset > |patch| { return Abort; }
    var result := lib.bspatch(src, patch[offset..]);
    if result.None? { return Failed; }
    var pieces := result.value;
    for k := 0 to |pieces|
      invariant sink.Valid() && sink.lib == lib && sink.target == target
      invariant sink.strm.fed == Flatten(pieces[..k])
      invariant fresh(sink)
    {
      PrefixOfFlatten(pieces, k);
      var accepted := sink.Deliver(pieces[k]);
      if accepted != |pieces[k]| { return Failed; }
      FlattenSnoc(pieces[..k], pieces[k]);
      assert pieces[..k + 1] == pieces[..k] + [pieces[k]];
    }
    assert pieces[..|pieces|] == pieces;
    if sink.ret != StreamEnd { return Failed; }
    if sink.expected != sink.actual { return Failed; }
    return Done;
  }

  /** ApplyBSDiffPatch with the caller's sink. */
  method ApplyBSDiffPatch(lib: Library, src: seq<byte>, patch: seq<byte>, offset: nat, target: Target)
    returns (r: Verdict)
    modifies target
    ensures match BsdiffAt(lib, src, patch, offset, 0)
            case Emits(bytes, _) =>
              r == Done && target.output == old(target.output) + bytes &&
              target.absorbed == old(target.absorbed) + bytes
            case Rejects => r == Failed
            case Aborts => r == Abort
  {
    if offset > |patch| { return Abort; }
    var result := lib.bspatch(src, patch[offset..]);
    if result.None? { return Failed; }
    var pieces := result.value;
    for k := 0 to |pieces|
      invariant target.output == old(target.output) + Flatten(pieces[..k])
      invariant target.absorbed == old(target.absorbed) + Flatten(pieces[..k])
    {
      target.Sink(pieces[k]);
      target.Sha1Update(pieces[k]);
      FlattenSnoc(pieces[..k], pieces[k]);
      assert pieces[..k + 1] == pieces[..k] + [pieces[k]];
      ConcatAssoc(old(target.output), Flatten(pieces[..k]), pieces[k]);
      ConcatAssoc(old(target.absorbed), Flatten(pieces[..k]), pieces[k]);
    }
    assert pieces[..|pieces|] == pieces;
    return Done;
  }

  /** The verdict on one record, and what the sink and the SHA-1 context received from it. */
  ghost predicate Follows(r: ChunkResult, code: Verdict, next: nat,
                          out0: seq<byte>, out: seq<byte>, sha0: seq<byte>, sha: seq<byte>)
  {
    match r
    case Emits(bytes, after) => code == Done && next == after && out == out0 + bytes && sha == sha0 + bytes
    case Rejects => code == Failed
    case Aborts => code == Abort
  }

  method ApplyDeflateChunk(lib: Library, old_: seq<byte>, patch: seq<byte>, bonus: seq<byte>,
                           start: nat, target: Target)
    returns (code: Verdict, pos: nat)
    requires Laws(lib)
    modifies target
    ensures Follows(DeflateChunk(lib, old_, patch, bonus, start), code, pos,
                    old(target.output), target.output, old(target.absorbed), target.absorbed)
  {
    hide Laws, ReadSize, ReadInt32, AddSize;
    var header := start;
    pos := start + 60;
    if pos > |patch| { return Failed, pos; }
    var srcStart := ReadSize(patch, header);
    var srcLen := ReadSize(patch, header + 8);
    var patchOffset := ReadSize(patch, header + 16);
    var expandedLen := ReadSize(patch, header + 24);
    if AddSize(srcStart, srcLen) > |old_| { return Failed, pos; }
    if srcStart + srcLen > |old_| || expandedLen >= TWO_63 { return Abort, pos; }

    var expandedSource := [];
    if expandedLen != 0 {
      var ret := lib.inflate(old_[srcStart..srcStart + srcLen]);
      if ret.NotDeflate? || |ret.data| > expandedLen { return Failed, pos; }
      var availOut := expandedLen - |ret.data|;
      if availOut != |bonus| { return Failed, pos; }
      expandedSource := ret.data;
      if |bonus| != 0 {
        expandedSource := expandedSource + bonus;
      }
    }
    assert expandedLen != 0 && |bonus| == 0 ==> expandedSource == expandedSource + bonus;
    assert Expanded(lib, old_[srcStart..srcStart + srcLen], expandedLen, bonus) == Some(expandedSource);
    code := ApplyBSDiffPatchAndStreamOutput(lib, expandedSource, patch, patchOffset,
                                            ReadSize(patch, header + 32), ReadParams(patch, header + 40), target);
  }

  method ApplyNormalChunk(lib: Library, old_: seq<byte>, patch: seq<byte>, start: nat, target: Target)
    returns (code: Verdict, pos: nat)
    modifies target
    ensures Follows(NormalChunk(lib, old_, patch, start), code, pos,
                    old(target.output), target.output, old(target.absorbed), target.absorbed)
  {
    hide ReadSize, AddSize;
    pos := start + 24;
    if pos > |patch| { return Failed, pos; }
    var srcStart := ReadSize(patch, start);
    var srcLen := ReadSize(patch, start + 8);
    var patchOffset := ReadSize(patch, start + 16);
    if AddSize(srcStart, srcLen) > |old_| { return Failed, pos; }
    if srcStart + srcLen > |old_| { return Abort, pos; }
    code := ApplyBSDiffPatch(lib, old_[srcStart..srcStart + srcLen], patch, patchOffset, target);
  }

  method ApplyRawChunk(patch: seq<byte>, start: nat, target: Target) returns (code: Verdict, pos: nat)
    modifies target
    ensures Follows(RawChunk(patch, start), code, pos,
                    old(target.output), target.output, old(target.absorbed), target.absorbed)
  {
    pos := start + 4;
    if pos > |patch| { return Failed, pos; }
    var len := Int32AsSize(ReadInt32(patch, start));
    if AddSize(pos, len) > |patch| { return Failed, pos; }
    if pos + len > |patch| { return Abort, pos; }
    target.Sha1Update(patch[pos..pos + len]);
    target.Sink(patch[pos..pos + len]);
    code, pos := Done, pos + len;
  }

  function Prepend(done: seq<byte>, r: Outcome): (o: Outcome) {
    match r
    case Patched(rest) => Patched(done + rest)
    case other => other
  }

  /** ApplyImagePatch executes the meaning of the patch file, into the sink and the SHA-1 context. */
  method ApplyImagePatch(lib: Library, old_: seq<byte>, patch: seq<byte>, target: Target, bonus: Option<seq<byte>>)
    returns (code: Verdict)
    requires Laws(lib)
    modifies target
    ensures match Meaning(lib, old_, patch, bonus)
            case Patched(out) =>
              code == Done && target.output == old(target.output) + out &&
              target.absorbed == old(target.absorbed) + out
            case Rejected => code == Failed
            case Aborted => code == Abort
  {
    hide Laws, ReadInt32, NormalChunk, RawChunk, DeflateChunk, BonusFor;
    if |patch| < 12 { return Failed; }
    if patch[..8] != MAGIC { return Failed; }
    var numChunks := ReadInt32(patch, 8);
    var pos: nat := 12;
    var i: nat := 0;
    ghost var done: seq<byte> := [];
    while i < numChunks
      invariant Meaning(lib, old_, patch, bonus) ==
                Prepend(done, Chunks(lib, old_, patch, bonus, i, numChunks, pos))
      invariant target.output == old(target.output) + done
      invariant target.absorbed == old(target.absorbed) + done
      decreases numChunks - i
    {
      if pos + 4 > |patch| { return Failed; }
      var kind := ReadInt32(patch, pos);
      ghost var r := Chunk(lib, old_, patch, BonusFor(bonus, i), pos);
      ghost var out0, sha0 := target.output, target.absorbed;
      if kind == CHUNK_NORMAL {
        code, pos := ApplyNormalChunk(lib, old_, patch, pos + 4, target);
      } else if kind == CHUNK_RAW {
        code, pos := ApplyRawChunk(patch, pos + 4, target);
      } else if kind == CHUNK_DEFLATE {
        code, pos := ApplyDeflateChunk(lib, old_, patch, BonusFor(bonus, i), pos + 4, target);
      } else {
        return Failed;
      }
      assert Follows(r, code, pos, out0, target.output, sha0, target.absorbed);
      if code != Done { return; }
      ConcatAssoc(old(target.output), done, r.bytes);
      ConcatAssoc(old(target.absorbed), done, r.bytes);
      PrependStep(lib, old_, patch, bonus, i, numChunks, pos, done, r.bytes);
      done := done + r.bytes;
      i := i + 1;
    }
    return Done;
  }

  lemma PrependStep(lib: Library, old_: seq<byte>, patch: seq<byte>, bonus: Option<seq<byte>>,
                    i: nat, n: int, next: nat, done: seq<byte>, bytes: seq<byte>)
    ensures Prepend(done, Prepend(bytes, Chunks(lib, old_, patch, bonus, i + 1, n, next))) ==
            Prepend(done + bytes, Chunks(lib, old_, patch, bonus, i + 1, n, next))
  {
    var rest := Chunks(lib, old_, patch, bonus, i + 1, n, next);
    if rest.Patched? { ConcatAssoc(done, bytes, rest.output); }
  }
}
