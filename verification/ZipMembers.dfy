/** What zip mode makes of the entries of two archives: their chunks, their names, and which stay compressed. */
module ZipMembers {
  import opened Bytes
  import opened Codecs
  import opened Text
  import opened ImageChunks
  import opened ZipMode

  // ----- entries

  /** The chunks that an entry must have, written out. */
  ghost predicate Holds(e: ZipEntry, limit: nat, cs: seq<ImageChunk>) {
    if limit > 0 && e.compressed > limit then
      forall j: nat :: j * limit < e.compressed ==> PieceAt(e, limit, j) in cs
    else e.compressed > 0 ==>
      if e.deflated then
        e.contents.Some? && ImageChunk(Deflate, e.offset, e.compressed, 6, e.contents.value, e.name) in cs
      else ImageChunk(Normal, e.offset, e.compressed, 6, [], e.name) in cs
  }

  /** Piece `j` of an entry that is larger than the limit. */
  function PieceAt(e: ZipEntry, limit: nat, j: nat): (c: ImageChunk)
    requires j * limit < e.compressed
  {
    var rest := e.compressed - j * limit;
    ImageChunk(Normal, e.offset + j * limit, if limit < rest then limit else rest, 6, [],
               e.name + "-" + Decimal(j))
  }

  /** The entry cannot be read: it is compressed, fits the limit, and does not extract. */
  predicate Unreadable(e: ZipEntry, limit: nat) {
    e.compressed > 0 && !(limit > 0 && e.compressed > limit) && e.deflated && e.contents.None?
  }

  lemma {:induction false} PieceIsThere(e: ZipEntry, limit: nat, count: nat, rest: nat, j: nat)
    requires limit > 0 && count <= j && count * limit + rest == e.compressed && j * limit < e.compressed
    ensures PieceAt(e, limit, j) in Pieces(e, limit, count, rest)
    decreases rest
  {
    Multiples(count, j, limit);
    var len := if limit < rest then limit else rest;
    if j == count {
      assert limit * count == count * limit;
      assert Pieces(e, limit, count, rest)[0] == PieceAt(e, limit, j);
    } else {
      Multiples(count + 1, j, limit);
      assert (count + 1) * limit == count * limit + limit;
      PieceIsThere(e, limit, count + 1, rest - len, j);
    }
  }

  lemma Multiples(a: nat, b: nat, limit: nat)
    requires a <= b
    ensures a * limit <= b * limit
  {}

  lemma EntryHolds(e: ZipEntry, limit: nat)
    ensures EntryChunks(e, limit).None? <==> Unreadable(e, limit)
    ensures EntryChunks(e, limit).Some? ==> Holds(e, limit, EntryChunks(e, limit).value)
  {
    if TooLarge(e, limit) {
      forall j: nat | j * limit < e.compressed ensures PieceAt(e, limit, j) in EntryChunks(e, limit).value {
        PieceIsThere(e, limit, 0, e.compressed, j);
      }
    }
  }

  lemma HoldsMore(e: ZipEntry, limit: nat, cs: seq<ImageChunk>, ds: seq<ImageChunk>)
    requires Holds(e, limit, cs) && forall c :: c in cs ==> c in ds
    ensures Holds(e, limit, ds)
  {}

  /** Every entry of a target has its chunks, unless some entry cannot be read. */
  lemma {:induction false} TargetHolds(es: seq<ZipEntry>, size: nat, limit: nat, pos: nat)
    requires Ordered(es, pos, size)
    ensures TargetChunks(es, size, limit, pos).None? <==> exists k :: 0 <= k < |es| && Unreadable(es[k], limit)
    ensures TargetChunks(es, size, limit, pos).Some? ==>
              forall k :: 0 <= k < |es| ==> Holds(es[k], limit, TargetChunks(es, size, limit, pos).value)
    decreases |es|, if es == [] then 0 else if pos == es[0].offset then 0 else 1
  {
    hide Holds, EntryChunks, Unreadable;
    if es != [] {
      var all := TargetChunks(es, size, limit, pos);
      if pos == es[0].offset {
        var rest := TargetChunks(es[1..], size, limit, pos + es[0].compressed);
        TargetHolds(es[1..], size, limit, pos + es[0].compressed);
        EntryHolds(es[0], limit);
        Unreadables(es, limit);
        if all.Some? {
          forall k | 0 <= k < |es| ensures Holds(es[k], limit, all.value) {
            HoldsMore(es[k], limit, if k == 0 then EntryChunks(es[0], limit).value else rest.value, all.value);
          }
        }
      } else {
        var rest := TargetChunks(es, size, limit, es[0].offset);
        TargetHolds(es, size, limit, es[0].offset);
        if all.Some? {
          forall k | 0 <= k < |es| ensures Holds(es[k], limit, all.value) {
            HoldsMore(es[k], limit, rest.value, all.value);
          }
        }
      }
    }
  }

  lemma Unreadables(es: seq<ZipEntry>, limit: nat)
    requires es != []
    ensures (exists k :: 0 <= k < |es| && Unreadable(es[k], limit)) <==>
            Unreadable(es[0], limit) || exists k :: 0 <= k < |es[1..]| && Unreadable(es[1..][k], limit)
  {
    hide Unreadable;
    if k :| 0 <= k < |es| && Unreadable(es[k], limit) { if k > 0 { assert Unreadable(es[1..][k - 1], limit); } }
    if k :| 0 <= k < |es[1..]| && Unreadable(es[1..][k], limit) { assert Unreadable(es[k + 1], limit); }
  }

  /** Every entry of a source has its chunks, and the directory is the last one. */
  lemma SourceHolds(es: seq<ZipEntry>, size: nat, limit: nat)
    requires EntriesEnd(es) < size
    ensures SourceList(es, size, limit).None? <==> exists k :: 0 <= k < |es| && Unreadable(es[k], limit)
    ensures SourceList(es, size, limit).Some? ==>
              var cs := SourceList(es, size, limit).value;
              var end: nat := if es == [] then 0 else es[|es| - 1].offset + es[|es| - 1].compressed;
              && cs != [] && end < size && cs[|cs| - 1] == ImageChunk(Normal, end, size - end, 6, [], "")
              && forall k :: 0 <= k < |es| ==> Holds(es[k], limit, cs)
  {
    hide Holds, AllEntryChunks, Unreadable;
    EntriesHold(es, limit);
    if AllEntryChunks(es, limit).Some? {
      var (cs, all) := (AllEntryChunks(es, limit).value, SourceList(es, size, limit).value);
      forall k | 0 <= k < |es| ensures Holds(es[k], limit, all) { HoldsMore(es[k], limit, cs, all); }
    }
  }

  lemma {:induction false} EntriesHold(es: seq<ZipEntry>, limit: nat)
    ensures AllEntryChunks(es, limit).None? <==> exists k :: 0 <= k < |es| && Unreadable(es[k], limit)
    ensures AllEntryChunks(es, limit).Some? ==>
              forall k :: 0 <= k < |es| ==> Holds(es[k], limit, AllEntryChunks(es, limit).value)
  {
    hide Holds, EntryChunks, Unreadable;
    if es != [] {
      var n := |es| - 1;
      EntriesHold(es[..n], limit);
      EntryHolds(es[n], limit);
      if k :| 0 <= k < n && Unreadable(es[k], limit) { assert Unreadable(es[..n][k], limit); }
      if k :| 0 <= k < n && Unreadable(es[..n][k], limit) { assert Unreadable(es[k], limit); }
      var all := AllEntryChunks(es, limit);
      if all.Some? {
        forall k | 0 <= k < |es| ensures Holds(es[k], limit, all.value) {
          HoldsMore(es[k], limit, if k == n then EntryChunks(es[n], limit).value
                                  else AllEntryChunks(es[..n], limit).value, all.value);
        }
      }
    }
  }

  // ----- which entries stay compressed

  /** The chunk has the name, or one of the two is the other's first piece. */
  predicate Named(c: ImageChunk, name: string) {
    name != "" && (c.name == name || c.name + "-0" == name || c.name == name + "-0")
  }

  /** The first compressed chunk of that name. */
  predicate FirstMatch(ss: seq<ImageChunk>, name: string, m: nat) {
    && m < |ss| && ss[m].kind == Deflate && Named(ss[m], name)
    && forall k :: 0 <= k < m ==> !(ss[k].kind == Deflate && Named(ss[k], name))
  }

  lemma FindIsFirst(ss: seq<ImageChunk>, name: string, m: nat)
    ensures Find(ss, name, false) == Some(m) <==> FirstMatch(ss, name, m)
  {}

  /** The entry is kept compressed at this level. */
  ghost predicate StaysAt(lib: Library, t: ImageChunk, tgtFile: seq<byte>, ss: seq<ImageChunk>, srcFile: seq<byte>,
                          level: int32)
    requires InFile(t, tgtFile) && AllInFile(ss, srcFile)
  {
    && t.kind == Deflate
    && (exists m: nat :: FirstMatch(ss, t.name, m) &&
          tgtFile[t.start..t.start + t.len] != srcFile[ss[m].start..ss[m].start + ss[m].len])
    && if Reproduces(lib, t, tgtFile, 6) then level == 6 else level == 9 && Reproduces(lib, t, tgtFile, 9)
  }

  lemma OneStays(lib: Library, t: ImageChunk, tgtFile: seq<byte>, ss: seq<ImageChunk>, srcFile: seq<byte>)
    requires InFile(t, tgtFile) && AllInFile(ss, srcFile)
    ensures var t' := ProcessOne(lib, t, tgtFile, ss, srcFile).0;
            && (t'.kind == Deflate <==> exists level :: StaysAt(lib, t, tgtFile, ss, srcFile, level))
            && (t'.kind == Deflate ==> t' == t.(level := t'.level) && StaysAt(lib, t, tgtFile, ss, srcFile, t'.level))
  {
    hide Find, Reproduces, FirstMatch;
    var found := Find(ss, t.name, false);
    if found.Some? {
      FindIsFirst(ss, t.name, found.value);
      FoundInRange(ss, t.name, false);
    }
    forall m: nat | FirstMatch(ss, t.name, m) ensures found == Some(m) { FindIsFirst(ss, t.name, m); }
    var t' := ProcessOne(lib, t, tgtFile, ss, srcFile).0;
    if t'.kind == Deflate { assert StaysAt(lib, t, tgtFile, ss, srcFile, t'.level); }
  }

  /**
   * When no two compressed target entries compete for a source: an entry stays compressed, at the
   * level that gives its bytes, exactly when its source differs from it and such a level exists.
   */
  lemma EntryStaysIff(lib: Library, ts: seq<ImageChunk>, tgtFile: seq<byte>, ss: seq<ImageChunk>, srcFile: seq<byte>,
                      k: nat)
    requires k < |ts| && AllInFile(ts, tgtFile) && AllInFile(ss, srcFile) && Unshared(ts, ss)
    ensures var t' := Process(lib, ts, tgtFile, ss, srcFile, |ts|).0[k];
            && (t'.kind == Deflate <==> exists level :: StaysAt(lib, ts[k], tgtFile, ss, srcFile, level))
            && (t'.kind == Deflate ==>
                  t' == ts[k].(level := t'.level) && StaysAt(lib, ts[k], tgtFile, ss, srcFile, t'.level))
  {
    hide Process, ProcessOne, Unshared, StaysAt;
    UnsharedIsLocal(lib, ts, tgtFile, ss, srcFile, |ts|);
    OneStays(lib, ts[k], tgtFile, ss, srcFile);
  }
}
