/**
 * applypatch as it runs: partitions and files changed by system calls that may be partial, fail,
 * store other bytes than they were given, or never return. Every execution is a run of the protocol.
 */
module ApplyPatchCode {
  import opened Bytes
  import opened Codecs
  import opened PatchFile
  import opened ImgPatch
  import opened ApplyPatch
  import ImgPatchCode

  /**
   * How the outside world answers a system call. Fine(0) means complete. A garbled partition write
   * reports success but stores other bytes; an error or a stop leaves any bytes behind.
   */
  datatype Event = Fine(n: nat) | Garbled(n: nat, bytes: seq<byte>) | Err(bytes: seq<byte>) | Stop(bytes: seq<byte>)

  ghost predicate Smooth(script: seq<Event>) {
    forall k :: 0 <= k < |script| ==> script[k].Fine?
  }

  function Amount(n: nat, max: nat): (k: nat)
    requires max > 0
    ensures 0 < k <= max
  {
    if n == 0 || n > max then max else n
  }

  function Resized(bytes: seq<byte>, size: nat): (r: seq<byte>)
    ensures |r| == size
  {
    if |bytes| >= size then bytes[..size] else bytes + seq(size - |bytes|, _ => 0)
  }

  function Overwritten(part: seq<byte>, at: nat, bytes: seq<byte>): (r: seq<byte>)
    requires at + |bytes| <= |part|
    ensures |r| == |part|
  {
    part[..at] + bytes + part[at + |bytes|..]
  }

  function IoOf(e: Event): (io: Io) {
    match e
    case Fine(_) => Works
    case Garbled(_, _) => Works
    case Err(_) => Fails
    case Stop(_) => Crashes
  }

  class Device {
    var parts: map<string, seq<byte>>
    var files: map<string, seq<byte>>
    var script: seq<Event>

    constructor (parts: map<string, seq<byte>>, files: map<string, seq<byte>>, script: seq<Event>)
      ensures this.parts == parts && this.files == files && this.script == script
    {
      this.parts, this.files, this.script := parts, files, script;
    }

    ghost function Contents(): (d: Disk)
      reads this
    {
      Disk(parts, files)
    }

    method Next() returns (e: Event)
      modifies this`script
      ensures old(Smooth(script)) ==> Smooth(script) && e.Fine?
    {
      if script == [] { return Fine(0); }
      e := script[0];
      script := script[1..];
    }

    /** A call that changes neither partitions nor files. */
    method Call() returns (io: Io)
      modifies this`script
      ensures old(Smooth(script)) ==> Smooth(script) && io == Works
    {
      var e := Next();
      return IoOf(e);
    }

    /** read(): at least one byte unless at the end. */
    method Read(p: string, at: nat, max: nat) returns (io: Io, bytes: seq<byte>)
      requires p in parts && max > 0
      modifies this`script
      ensures old(Smooth(script)) ==> Smooth(script) && io == Works
      ensures io == Works ==>
                && |bytes| <= max && (bytes == [] <==> at >= |parts[p]|)
                && (at + |bytes| <= |parts[p]| || bytes == [])
                && (at < |parts[p]| ==> bytes == parts[p][at..at + |bytes|])
    {
      var e := Next();
      bytes := [];
      io := IoOf(e);
      if io == Works && at < |parts[p]| {
        var left := |parts[p]| - at;
        var n := Amount(e.n, if max < left then max else left);
        bytes := parts[p][at..at + n];
      }
    }

    /** write() to a partition: a partition does not grow. */
    method Write(p: string, at: nat, data: seq<byte>) returns (io: Io, n: nat)
      requires p in parts && data != [] && at <= |parts[p]|
      modifies this`script, this`parts
      ensures parts.Keys == old(parts.Keys) && parts == old(parts)[p := parts[p]] && |parts[p]| == |old(parts)[p]|
      ensures old(Smooth(script)) ==> Smooth(script) && (io == Works <==> at < |parts[p]|)
      ensures io == Works ==>
                && 0 < n <= |data| && at + n <= |parts[p]|
                && parts[p][..at] == old(parts)[p][..at] && parts[p][at + n..] == old(parts)[p][at + n..]
                && (old(Smooth(script)) ==> parts[p][at..at + n] == data[..n])
    {
      var e := Next();
      io, n := IoOf(e), 0;
      var part := parts[p];
      var left := |part| - at;
      if io != Works {
        parts := parts[p := Resized(e.bytes, |part|)];
      } else if left == 0 {
        io := Fails;
        assert parts == parts[p := parts[p]];
      } else {
        n := Amount(e.n, if |data| < left then |data| else left);
        var stored := if e.Fine? then data[..n] else Resized(e.bytes, n);
        parts := parts[p := Overwritten(part, at, stored)];
      }
    }
  }

  // ----- the partition

  /** The inner loop of WriteToPartition: at most 1 MB at a time. */
  method WriteFrom(dev: Device, p: string, data: seq<byte>, from: nat) returns (io: Io)
    requires p in dev.parts && from <= |data| && from <= |dev.parts[p]|
    modifies dev`script, dev`parts
    ensures p in dev.parts && dev.parts == old(dev.parts)[p := dev.parts[p]]
    ensures |dev.parts[p]| == |old(dev.parts)[p]|
    ensures io == Works ==> |data| <= |dev.parts[p]| && dev.parts[p][|data|..] == old(dev.parts)[p][|data|..]
    ensures old(Smooth(dev.script)) ==> Smooth(dev.script)
    ensures old(Smooth(dev.script)) && |data| <= |dev.parts[p]| && data[..from] <= old(dev.parts)[p] ==>
              io == Works && data <= dev.parts[p]
  {
    var start := from;
    ghost var before := dev.parts;
    ghost var fine := Smooth(dev.script);
    ghost var good := data[..from] <= before[p];
    assert before == before[p := before[p]];
    while start < |data|
      invariant from <= start <= |data| && p in dev.parts && start <= |dev.parts[p]|
      invariant dev.parts == before[p := dev.parts[p]] && |dev.parts[p]| == |before[p]|
      invariant |data| <= |before[p]| ==> dev.parts[p][|data|..] == before[p][|data|..]
      invariant fine ==> Smooth(dev.script) && (good ==> data[..start] <= dev.parts[p])
    {
      var toWrite := |data| - start;
      if toWrite > 0x10_0000 { toWrite := 0x10_0000; }
      ghost var part := dev.parts[p];
      var status, written := dev.Write(p, start, data[start..start + toWrite]);
      if status != Works { return status; }
      ghost var part' := dev.parts[p];
      if |data| <= |before[p]| {
        assert part'[|data|..] == part'[start + written..][|data| - (start + written)..];
        assert part[|data|..] == part[start + written..][|data| - (start + written)..];
      }
      if fine && good {
        assert part'[..start + written] == part'[..start] + part'[start..start + written];
        assert data[..start + written] == data[..start] + data[start..start + toWrite][..written];
        assert part[..start] == data[..start];
      }
      start := start + written;
    }
    return Works;
  }

  const VERIFY_BLOCK: nat := 4096

  /** Read one block back, in as many reads as it takes. */
  method ReadBlock(dev: Device, p: string, at: nat, count: nat) returns (io: Io, buffer: seq<byte>)
    requires p in dev.parts
    modifies dev`script
    ensures io == Works ==> at + count <= |dev.parts[p]| || count == 0
    ensures io == Works && count > 0 ==> buffer == dev.parts[p][at..at + count]
    ensures old(Smooth(dev.script)) ==> Smooth(dev.script) && (at + count <= |dev.parts[p]| ==> io == Works)
  {
    buffer := [];
    while |buffer| < count
      invariant |buffer| <= count
      invariant |buffer| > 0 ==> at + |buffer| <= |dev.parts[p]| && buffer == dev.parts[p][at..at + |buffer|]
      invariant old(Smooth(dev.script)) ==> Smooth(dev.script)
    {
      var status, more := dev.Read(p, at + |buffer|, count - |buffer|);
      if status != Works { return status, buffer; }
      if more == [] { return Fails, buffer; }
      assert dev.parts[p][at..at + |buffer|] + dev.parts[p][at + |buffer|..at + |buffer| + |more|]
          == dev.parts[p][at..at + |buffer| + |more|];
      buffer := buffer + more;
    }
    return Works, buffer;
  }

  /** The verification loop: the offset of the first block that differs, or the length. */
  method Verify(dev: Device, p: string, data: seq<byte>) returns (io: Io, start: nat)
    requires p in dev.parts
    modifies dev`script
    ensures io == Works ==> start <= |data|
    ensures io == Works ==> (start == |data| <==> data <= dev.parts[p])
    ensures io == Works && start < |data| ==> start <= |dev.parts[p]| && data[..start] <= dev.parts[p]
    ensures old(Smooth(dev.script)) ==> Smooth(dev.script) && (data <= dev.parts[p] ==> io == Works)
  {
    var pos := 0;
    while pos < |data|
      invariant 0 <= pos <= |data| && pos <= |dev.parts[p]| && data[..pos] <= dev.parts[p]
      invariant old(Smooth(dev.script)) ==> Smooth(dev.script)
    {
      var toRead := |data| - pos;
      if toRead > VERIFY_BLOCK { toRead := VERIFY_BLOCK; }
      var status, buffer := ReadBlock(dev, p, pos, toRead);
      if status != Works { return status, pos; }
      ghost var part := dev.parts[p];
      assert data <= part ==> part[pos..pos + toRead] == data[pos..pos + toRead];
      if buffer != data[pos..pos + toRead] { return Works, pos; }
      assert part[..pos + toRead] == part[..pos] + part[pos..pos + toRead];
      assert data[..pos + toRead] == data[..pos] + data[pos..pos + toRead];
      pos := pos + toRead;
    }
    assert data[..|data|] == data;
    return Works, |data|;
  }

  method Calls(dev: Device, count: nat) returns (io: Io)
    modifies dev`script
    ensures old(Smooth(dev.script)) ==> Smooth(dev.script) && io == Works
  {
    io := Works;
    var i := 0;
    while i < count && io == Works
      invariant old(Smooth(dev.script)) ==> Smooth(dev.script) && io == Works
    {
      io := dev.Call();
      i := i + 1;
    }
  }

  function Tearing(io: Io, part: seq<byte>): (f: WriteFate) { Torn(part, io == Crashes) }

  /** WriteToPartition: two attempts to write, and to read back what was written. */
  method WriteToPartition(dev: Device, p: string, data: seq<byte>) returns (fate: WriteFate)
    requires p in dev.parts
    modifies dev`script, dev`parts
    ensures match fate
            case Written =>
              |data| <= |old(dev.parts)[p]| && dev.parts == old(dev.parts)[p := Replaced(old(dev.parts)[p], data)]
            case Torn(left, _) => |left| == |old(dev.parts)[p]| && dev.parts == old(dev.parts)[p := left]
    ensures old(Smooth(dev.script)) ==> Smooth(dev.script)
    ensures old(Smooth(dev.script)) && |data| <= |old(dev.parts)[p]| ==> fate == Written
  {
    ghost var before := dev.parts;
    ghost var fine := Smooth(dev.script);
    assert before == before[p := before[p]];
    var io := dev.Call();
    if io != Works { return Tearing(io, dev.parts[p]); }
    var start, attempt := 0, 0;
    while attempt < 2
      invariant 0 <= start <= |data| && p in dev.parts && start <= |dev.parts[p]|
      invariant dev.parts == before[p := dev.parts[p]] && |dev.parts[p]| == |before[p]|
      invariant |data| <= |before[p]| ==> dev.parts[p][|data|..] == before[p][|data|..]
      invariant fine ==> Smooth(dev.script) && (attempt == 0 ==> start == 0)
      invariant fine && |data| <= |before[p]| ==> attempt == 0
      decreases 2 - attempt
    {
      io := dev.Call();
      if io != Works { return Tearing(io, dev.parts[p]); }
      io := WriteFrom(dev, p, data, start);
      if io != Works { return Tearing(io, dev.parts[p]); }
      io := Calls(dev, 4);
      if io != Works { return Tearing(io, dev.parts[p]); }
      io, start := Verify(dev, p, data);
      if io != Works { return Tearing(io, dev.parts[p]); }
      if start == |data| {
        io := dev.Call();
        if io != Works { return Tearing(io, dev.parts[p]); }
        assert dev.parts[p] == Replaced(before[p], data);
        return Written;
      }
      io := Calls(dev, 2);
      if io != Works { return Tearing(io, dev.parts[p]); }
      attempt := attempt + 1;
    }
    return Torn(dev.parts[p], false);
  }

  /** LoadPartitionContents: read on to the next size, compare the running hash. */
  method LoadPartitionContents(dev: Device, hash: seq<byte> -> Digest, name: Name)
    returns (io: Io, data: Option<seq<byte>>)
    modifies dev`script
    ensures data == if io == Works then Load(hash, dev.parts, name) else None
    ensures old(Smooth(dev.script)) ==> Smooth(dev.script) && io == Works
  {
    io, data := Works, None;
    if |name.pairs| == 0 { return; }
    for i := 0 to |name.pairs|
      invariant forall k :: 0 <= k < i ==> name.pairs[k].size > 0
    {
      if name.pairs[i].size == 0 { return; }
    }
    var pairs := SortPairs(name.pairs);
    io := dev.Call();
    if io != Works || name.partition !in dev.parts { return; }
    ghost var part := dev.parts[name.partition];
    var buffer: seq<byte> := [];
    SortPairsSorts(name.pairs);
    assert pairs[0..] == pairs;
    for i := 0 to |pairs|
      invariant buffer <= part && (i < |pairs| ==> |buffer| <= pairs[i].size)
      invariant Load(hash, dev.parts, name) == Try(hash, part, pairs[i..])
      invariant old(Smooth(dev.script)) ==> Smooth(dev.script)
    {
      var next := pairs[i].size - |buffer|;
      assert pairs[i..][0] == pairs[i] && pairs[i..][1..] == pairs[i + 1..];
      if next > 0 {
        var status, more := ReadFully(dev, name.partition, |buffer|, next);
        if status != Works { return status, None; }
        if |more| != next { return Works, None; }
        assert part[..|buffer|] + part[|buffer|..|buffer| + next] == part[..pairs[i].size];
        buffer := buffer + more;
      }
      assert buffer == part[..pairs[i].size];
      if pairs[i].digest.None? { return Works, None; }
      if hash(buffer) == pairs[i].digest.value {
        return Works, Some(buffer);
      }
    }
    assert pairs[|pairs|..] == [];
    return Works, None;
  }

  /** fread(): everything asked for, or what there is up to the end. */
  method ReadFully(dev: Device, p: string, at: nat, count: nat) returns (io: Io, bytes: seq<byte>)
    requires p in dev.parts && at <= |dev.parts[p]|
    modifies dev`script
    ensures io == Works ==>
              bytes == if at + count <= |dev.parts[p]| then dev.parts[p][at..at + count] else dev.parts[p][at..]
    ensures old(Smooth(dev.script)) ==> Smooth(dev.script) && io == Works
  {
    bytes := [];
    ghost var part := dev.parts[p];
    while |bytes| < count
      invariant |bytes| <= count && at + |bytes| <= |part| && bytes == part[at..at + |bytes|]
      invariant old(Smooth(dev.script)) ==> Smooth(dev.script)
    {
      var status, more := dev.Read(p, at + |bytes|, count - |bytes|);
      if status != Works { return status, bytes; }
      if more == [] { return Works, bytes; }
      assert part[at..at + |bytes|] + part[at + |bytes|..at + |bytes| + |more|] == part[at..at + |bytes| + |more|];
      bytes := bytes + more;
    }
    return Works, bytes;
  }

  // ----- the backup

  function BackupOf(files: map<string, seq<byte>>): (r: Option<seq<byte>>) {
    if TEMP in files then Some(files[TEMP]) else None
  }

  lemma BackupStays(d: Disk)
    ensures WithBackup(d, BackupOf(d.files)) == d
  {
    if TEMP in d.files {
      assert d.files[TEMP := d.files[TEMP]] == d.files;
    } else {
      assert d.files - {TEMP} == d.files;
    }
  }

  lemma BackupReplaced(d: Disk, a: Option<seq<byte>>, b: Option<seq<byte>>)
    ensures WithBackup(WithBackup(d, a), b) == WithBackup(d, b)
  {
    assert WithBackup(WithBackup(d, a), b).files == WithBackup(d, b).files;
  }

  /** SaveFileContents to the backup file: truncate, write piece by piece, sync, close. */
  method SaveFileContents(dev: Device, data: seq<byte>) returns (fate: SaveFate)
    modifies dev`script, dev`files
    ensures dev.Contents() == WithBackup(old(dev.Contents()), if fate.Saved? then Some(data) else fate.left)
    ensures old(Smooth(dev.script)) ==> Smooth(dev.script) && fate == Saved
  {
    ghost var d := dev.Contents();
    var e := dev.Next();
    if e.Err? {
      BackupStays(d);
      return Broken(BackupOf(dev.files), false);
    }
    dev.files := dev.files[TEMP := if e.Stop? then e.bytes else []];
    if e.Stop? { return Broken(Some(e.bytes), true); }
    var done := 0;
    while done < |data|
      invariant 0 <= done <= |data| && TEMP in dev.files && dev.files[TEMP] == data[..done]
      invariant dev.Contents() == WithBackup(d, Some(data[..done]))
      invariant old(Smooth(dev.script)) ==> Smooth(dev.script)
    {
      e := dev.Next();
      if e.Err? || e.Stop? {
        dev.files := dev.files[TEMP := e.bytes];
        BackupReplaced(d, Some(data[..done]), Some(e.bytes));
        return Broken(Some(e.bytes), e.Stop?);
      }
      var n := Amount(e.n, |data| - done);
      assert data[..done] + data[done..done + n] == data[..done + n];
      BackupReplaced(d, Some(data[..done]), Some(data[..done + n]));
      dev.files := dev.files[TEMP := dev.files[TEMP] + data[done..done + n]];
      done := done + n;
    }
    assert data[..|data|] == data;
    var io := Calls(dev, 2);
    if io != Works { return Broken(Some(data), io == Crashes); }
    return Saved;
  }

  // ----- making room

  /** The order in which a std::set of strings is iterated. */
  predicate Less(a: string, b: string) {
    b != "" && (a == "" || a[0] < b[0] || (a[0] == b[0] && Less(a[1..], b[1..])))
  }

  lemma {:induction false} LessIsTotal(a: string, b: string)
    ensures a == b || Less(a, b) || Less(b, a)
  {
    if a != "" && b != "" && a[0] == b[0] {
      LessIsTotal(a[1..], b[1..]);
      assert a[1..] == b[1..] ==> a == [a[0]] + b[1..] == b;
    }
  }

  lemma {:induction false} LessIsTransitive(a: string, b: string, c: string)
    requires Less(a, b) && Less(b, c)
    ensures Less(a, c)
  {
    if a != "" {
      assert a[0] <= b[0] <= c[0];
      if a[0] == c[0] { LessIsTransitive(a[1..], b[1..], c[1..]); }
    }
  }

  predicate IsFirst(f: string, files: set<string>) {
    f in files && forall g :: g in files ==> g == f || Less(f, g)
  }

  lemma {:induction false} HasFirst(files: set<string>) returns (f: string)
    requires files != {}
    ensures IsFirst(f, files)
    decreases |files|
  {
    hide Less;
    f :| f in files;
    var rest := files - {f};
    assert forall h :: h in files ==> h == f || h in rest;
    if rest != {} {
      var g := HasFirst(rest);
      LessIsTotal(f, g);
      forall h | h in files && Less(f, g) ensures h == f || Less(f, h) {
        if h != f && h != g { LessIsTransitive(f, g, h); }
      }
      if !Less(f, g) { f := g; }
    }
  }

  lemma FirstIsUnique(files: set<string>, f: string, g: string)
    requires IsFirst(f, files) && IsFirst(g, files)
    ensures f == g
  {
    hide Less;
    if f != g {
      LessIsIrreflexive(f);
      LessIsTransitive(f, g, f);
    }
  }

  lemma {:induction false} LessIsIrreflexive(a: string)
    ensures !Less(a, a)
  {
    if a != "" { LessIsIrreflexive(a[1..]); }
  }

  /** What may be deleted: the listed files but the backup and the open ones. */
  function Expendable(listing: seq<string>, open: Option<set<string>>): (files: set<string>)
    ensures TEMP !in files && (open.Some? ==> files !! open.value)
  {
    if open.None? then {} else set f | f in listing && f != TEMP && f !in open.value
  }

  /** FindExpendableFiles, from the directory listings and the files found open. */
  method FindExpendableFiles(listing: seq<string>, open: Option<set<string>>) returns (files: set<string>)
    ensures files == Expendable(listing, open)
  {
    files := {};
    for i := 0 to |listing|
      invariant files == set f | f in listing[..i] && f != TEMP
    {
      assert listing[..i + 1] == listing[..i] + [listing[i]];
      if listing[i] == TEMP { continue; }
      files := files + {listing[i]};
    }
    assert listing[..|listing|] == listing;
    if open.None? { return {}; }
    files := files - open.value;
  }

  /** Deleting files never costs space. */
  ghost predicate FreesSpace(free: map<string, seq<byte>> -> nat) {
    forall m, gone :: free(m) <= free(m - gone)
  }

  /** One deletion is enough: that of the file whose name comes first. */
  ghost predicate FirstSuffices(free: map<string, seq<byte>> -> nat, m: map<string, seq<byte>>, files: set<string>,
                                needed: nat)
  {
    exists f :: IsFirst(f, files) && free(m - {f}) >= needed
  }

  lemma Frees(free: map<string, seq<byte>> -> nat, m: map<string, seq<byte>>, f: string)
    requires FreesSpace(free)
    ensures free(m) <= free(m - {f})
  {}

  lemma WithoutTwo(m: map<string, seq<byte>>, gone: set<string>, f: string)
    ensures (m - gone) - {f} == m - (gone + {f})
  {}

  /** unlink(), and the measurement after it. */
  method DeleteFile(dev: Device, f: string, ghost before: map<string, seq<byte>>, deleted: set<string>)
    returns (io: Io, deleted': set<string>)
    requires dev.files == before - deleted
    modifies dev`script, dev`files
    ensures dev.files == before - deleted'
    ensures deleted' == if io == Works then deleted + {f} else deleted
    ensures old(Smooth(dev.script)) ==> Smooth(dev.script) && io == Works
  {
    deleted' := deleted;
    io := dev.Call();
    if io == Works {
      WithoutTwo(before, deleted, f);
      dev.files := dev.files - {f};
      deleted' := deleted + {f};
    }
  }

  /** What has happened so far, when nothing fails: the first deletion made room, or none was made yet. */
  ghost predicate Swept(free: map<string, seq<byte>> -> nat, before: map<string, seq<byte>>, all: set<string>,
                        files: set<string>, deleted: set<string>, needed: nat)
  {
    && deleted == all - files
    && (files != all ==> free(before - deleted) >= needed && FirstSuffices(free, before, all, needed))
  }

  lemma SweptOne(free: map<string, seq<byte>> -> nat, before: map<string, seq<byte>>, all: set<string>,
                 files: set<string>, deleted: set<string>, needed: nat, f: string)
    requires files <= all && FreesSpace(free) && Swept(free, before, all, files, deleted, needed) && IsFirst(f, files)
    ensures var (files', deleted') := (files - {f}, deleted + {f});
            if free(before - deleted') >= needed then Swept(free, before, all, files', deleted', needed)
            else deleted' == {f} && !FirstSuffices(free, before, all, needed)
  {
    hide FirstSuffices, FreesSpace;
    WithoutTwo(before, deleted, f);
    Frees(free, before - deleted, f);
    assert deleted + {f} == all - (files - {f});
    if files == all {
      assert deleted == {} && before - {} == before;
      assert {} + {f} == {f};
      FirstDecides(free, before, all, needed, f);
    }
  }

  /**
   * MakeFreeSpaceOnCache; `free` is the space that is left beside the given files. Its loop goes on
   * exactly while there is enough: it succeeds if there is room already, or if deleting the first
   * expendable file makes room, and then it deletes all of them.
   */
  method MakeFreeSpaceOnCache(dev: Device, needed: nat, free: map<string, seq<byte>> -> nat,
                              listing: seq<string>, open: Option<set<string>>)
    returns (io: Io, deleted: set<string>)
    modifies dev`script, dev`files
    ensures deleted <= Expendable(listing, open) && dev.files == old(dev.files) - deleted
    ensures io == Works ==> free(dev.files) >= needed
    ensures old(Smooth(dev.script)) ==> Smooth(dev.script)
    ensures old(Smooth(dev.script)) && free(old(dev.files)) >= needed ==> io == Works && deleted == {}
    ensures old(Smooth(dev.script)) && FreesSpace(free) && free(old(dev.files)) < needed ==>
              var files := Expendable(listing, open);
              if FirstSuffices(free, old(dev.files), files, needed) then io == Works && deleted == files
              else io == Fails && |deleted| <= 1 && (files != {} ==> deleted != {})
  {
    hide IsFirst, FreesSpace, FirstSuffices, Smooth;
    assert dev.files - {} == dev.files;
    if free(dev.files) >= needed { return Works, {}; }
    var files := FindExpendableFiles(listing, open);
    if files == {} {
      assert !FirstSuffices(free, dev.files, files, needed) by { NothingSuffices(free, dev.files, files, needed); }
      return Fails, {};
    }
    var crashed;
    crashed, deleted := Sweep(dev, files, needed, free);
    if crashed { return Crashes, deleted; }
    io := if free(dev.files) >= needed then Works else Fails;
  }

  /** The loop over the expendable files. */
  method Sweep(dev: Device, all: set<string>, needed: nat, free: map<string, seq<byte>> -> nat)
    returns (crashed: bool, deleted: set<string>)
    requires all != {}
    modifies dev`script, dev`files
    ensures deleted <= all && dev.files == old(dev.files) - deleted
    ensures old(Smooth(dev.script)) ==> Smooth(dev.script) && !crashed
    ensures old(Smooth(dev.script)) && FreesSpace(free) ==>
              if FirstSuffices(free, old(dev.files), all, needed) then deleted == all && free(dev.files) >= needed
              else |deleted| == 1 && free(dev.files) < needed
  {
    hide IsFirst, FreesSpace, FirstSuffices, Smooth;
    var files := all;
    deleted := {};
    ghost var before := dev.files;
    assert before - {} == before;
    ghost var smooth := Smooth(dev.script) && FreesSpace(free);
    while files != {}
      invariant files <= all && deleted <= all - files && dev.files == before - deleted
      invariant old(Smooth(dev.script)) ==> Smooth(dev.script)
      invariant smooth ==> Swept(free, before, all, files, deleted, needed)
      decreases |files|
    {
      ghost var least := HasFirst(files);
      assert least in files by { FirstIsThere(least, files); }
      var f :| f in files && IsFirst(f, files);
      if smooth { SweptOne(free, before, all, files, deleted, needed, f); }
      var status;
      status, deleted := DeleteFile(dev, f, before, deleted);
      if status == Crashes { return true, deleted; }
      files := files - {f};
      if free(dev.files) < needed { return false, deleted; }
    }
    assert all - {} == all;
    return false, deleted;
  }

  /** Deleting all expendable files would make room, but it stops after the first. */
  lemma GivesUpEarly() returns (free: map<string, seq<byte>> -> nat, m: map<string, seq<byte>>, files: set<string>)
    ensures FreesSpace(free) && free(m - files) >= 2 && !FirstSuffices(free, m, files, 2)
  {
    free := m => (if "a" in m then 0 else 1) + (if "b" in m then 0 else 1);
    m, files := map["a" := [], "b" := []], {"a", "b"};
    assert "a"[0] < "b"[0];
    assert IsFirst("a", files);
    FirstDecides(free, m, files, 2, "a");
  }

  lemma NothingSuffices(free: map<string, seq<byte>> -> nat, m: map<string, seq<byte>>, files: set<string>, needed: nat)
    requires files == {}
    ensures !FirstSuffices(free, m, files, needed)
  {}

  lemma FirstIsThere(f: string, files: set<string>)
    requires IsFirst(f, files)
    ensures f in files
  {}

  lemma FirstDecides(free: map<string, seq<byte>> -> nat, m: map<string, seq<byte>>, files: set<string>, needed: nat,
                     f: string)
    requires IsFirst(f, files)
    ensures FirstSuffices(free, m, files, needed) <==> free(m - {f}) >= needed
  {
    hide IsFirst;
    forall g | IsFirst(g, files) ensures g == f { FirstIsUnique(files, f, g); }
  }

  // ----- the run

  /** Apply the patch in memory; the SHA-1 context has absorbed what the sink has received. */
  method ApplyInMemory(job: Job, x: seq<byte>, patch: seq<byte>) returns (r: Outcome)
    requires Laws(job.lib) && Recognised(patch)
    ensures match Produced(job, x, patch)
            case Patched(out) => r == if job.hash(out) == job.tgtDigest then Patched(out) else Rejected
            case other => r == other
  {
    hide Laws, Meaning, BsdiffAt;
    var sink := new ImgPatchCode.Target();
    var code;
    if BSDIFF_MAGIC <= patch {
      code := ImgPatchCode.ApplyBSDiffPatch(job.lib, x, patch, 0, sink);
    } else {
      code := ImgPatchCode.ApplyImagePatch(job.lib, x, patch, sink, job.bonus);
    }
    ghost var made := Produced(job, x, patch);
    if made.Patched? { assert [] + made.output == made.output; }
    if code == ImgPatchCode.Abort { return Aborted; }
    if code == ImgPatchCode.Failed { return Rejected; }
    if job.hash(sink.absorbed) != job.tgtDigest { return Rejected; }
    return Patched(sink.output);
  }

  /** What making space depends on: free space beside given files, directory listings, open files. */
  datatype Cache = Cache(free: map<string, seq<byte>> -> nat, listing: seq<string>, open: Option<set<string>>)

  /** After the backup: patch in memory, check the hash, write the partition, delete the backup. */
  method InstallTarget(dev: Device, job: Job, x: seq<byte>, patch: seq<byte>, before: Fate)
    returns (end: End, fate: Fate)
    requires Laws(job.lib) && Recognised(patch)
    requires before.apply == Works && before.write == Written && before.unlink == Works
    modifies dev
    ensures fate == before.(apply := fate.apply, write := fate.write, unlink := fate.unlink)
    ensures (dev.Contents(), end) == Finish(job, old(dev.Contents()), fate, x, patch)
    ensures fate.write.Torn? && job.tgt.partition in old(dev.parts) ==>
              |fate.write.left| == |old(dev.parts)[job.tgt.partition]|
    ensures old(Smooth(dev.script)) && FitsPartition(job, old(dev.Contents()), x, patch) ==> fate == before
  {
    hide Laws, Produced, Recognised;
    fate := before;
    var io := dev.Call();
    fate := fate.(apply := io);
    if io != Works { return Ended(io == Crashes), fate; }
    var made := ApplyInMemory(job, x, patch);
    if made.Aborted? { return Crashed, fate; }
    if made.Rejected? { return Failed, fate; }
    if job.tgt.partition !in dev.parts { return Failed, fate; }
    var written := WriteToPartition(dev, job.tgt.partition, made.output);
    fate := fate.(write := written);
    if written.Torn? { return Ended(written.crash), fate; }
    io := dev.Call();
    fate := fate.(unlink := io);
    if io == Crashes { return Crashed, fate; }
    if io == Works { dev.files := dev.files - {TEMP}; }
    return Succeeded, fate;
  }

  ghost predicate FitsPartition(job: Job, d: Disk, x: seq<byte>, patch: seq<byte>) {
    Produced(job, x, patch).Patched? ==>
      job.tgt.partition in d.parts && |Produced(job, x, patch).output| <= |d.parts[job.tgt.partition]|
  }

  method GenerateTarget(dev: Device, job: Job, x: seq<byte>, patch: seq<byte>, cache: Cache)
    returns (end: End, fate: Fate)
    requires Laws(job.lib)
    modifies dev
    ensures (dev.Contents(), end) == Generate(job, old(dev.Contents()), fate, x, patch)
    ensures Possible(job, old(dev.Contents()), fate)
    ensures fate.readTarget == Works && fate.readSource == Works && fate.readCopy == Works
    ensures old(Smooth(dev.script)) && Fitting(job, old(dev.Contents()), x, patch, cache) ==> fate == SMOOTH
  {
    hide Laws, Produced, Recognised;
    ghost var d := dev.Contents();
    fate := SMOOTH;
    assert d.files - {} == d.files;
    if !Recognised(patch) { return Failed, fate; }
    var io, deleted := MakeFreeSpaceOnCache(dev, |x|, cache.free, cache.listing, cache.open);
    fate := fate.(space := io, deleted := deleted);
    if io != Works { return Ended(io == Crashes), fate; }
    var saved := SaveFileContents(dev, x);
    fate := fate.(save := saved);
    if saved.Broken? { return Ended(saved.crash), fate; }
    end, fate := InstallTarget(dev, job, x, patch, fate);
  }

  /** There is room for the backup, and what the patch makes fits the partition. */
  ghost predicate Fitting(job: Job, d: Disk, x: seq<byte>, patch: seq<byte>, cache: Cache) {
    cache.free(d.files) >= |x| && FitsPartition(job, d, x, patch)
  }

  method FindMatchingPatch(job: Job, x: seq<byte>) returns (r: Option<nat>)
    ensures r == Find(job, x)
  {
    for i := 0 to |job.patches|
      invariant Find(job, x) == FindFrom(job.hash, job.patches, x, i)
    {
      if job.patches[i].digest.Some? && job.patches[i].digest.value == job.hash(x) {
        return Some(i);
      }
    }
    return None;
  }

  /** The copy in the cache, used when the partition is of no use. */
  method FromCachedCopy(dev: Device, job: Job, cache: Cache) returns (end: End, fate: Fate)
    requires Laws(job.lib)
    modifies dev
    ensures fate.readTarget == Works && fate.readSource == Works
    ensures var d := old(dev.Contents());
            && Possible(job, d, fate)
            && (dev.Contents(), end) ==
               match fate.readCopy
               case Crashes => (d, Crashed)
               case Fails => (d, Failed)
               case Works =>
                 if TEMP in d.files && Find(job, d.files[TEMP]).Some? then
                   Generate(job, d, fate, d.files[TEMP], job.patches[Find(job, d.files[TEMP]).value].data)
                 else (d, Failed)
    ensures old(Smooth(dev.script)) && AllFitting(job, old(dev.Contents()), cache) ==> fate == SMOOTH
  {
    hide Laws, Generate, Find, Possible, Fitting;
    ghost var d := dev.Contents();
    fate := SMOOTH;
    SmoothIsPossible(job, d, fate);
    var io := dev.Call();
    if io != Works {
      fate := fate.(readCopy := io);
      SmoothIsPossible(job, d, fate);
      return Ended(io == Crashes), fate;
    }
    if TEMP !in dev.files { return Failed, fate; }
    var copy := dev.files[TEMP];
    var found := FindMatchingPatch(job, copy);
    if found.None? { return Failed, fate; }
    end, fate := GenerateTarget(dev, job, copy, job.patches[found.value].data, cache);
  }

  lemma SmoothIsPossible(job: Job, d: Disk, f: Fate)
    requires f.deleted == {} && f.write == Written
    ensures Possible(job, d, f)
  {}

  /** Whatever is chosen as the source, there is room for its backup and for what it is patched to. */
  ghost predicate AllFitting(job: Job, d: Disk, cache: Cache) {
    forall x :: Find(job, x).Some? ==> Fitting(job, d, x, job.patches[Find(job, x).value].data, cache)
  }

  lemma ReadsDoNotMatter(job: Job, d: Disk, f: Fate, g: Fate, x: seq<byte>, patch: seq<byte>)
    requires g == f.(readTarget := g.readTarget, readSource := g.readSource, readCopy := g.readCopy)
    ensures Generate(job, d, f, x, patch) == Generate(job, d, g, x, patch)
    ensures Possible(job, d, f) <==> Possible(job, d, g)
  {
    hide Produced;
  }

  /**
   * applypatch(): every execution, whatever the system calls do, is a run of the protocol with a
   * possible fate; when all calls go well, it is the undisturbed run.
   */
  method Applypatch(dev: Device, job: Job, cache: Cache) returns (end: End, fate: Fate)
    requires Laws(job.lib)
    modifies dev
    ensures Possible(job, old(dev.Contents()), fate)
    ensures (dev.Contents(), end) == Run(job, old(dev.Contents()), fate)
    ensures old(Smooth(dev.script)) && AllFitting(job, old(dev.Contents()), cache) ==> fate == SMOOTH
  {
    hide Laws, Generate, Find, Possible, Load, AllFitting, Fitting;
    ghost var d := dev.Contents();
    fate := SMOOTH;
    SmoothIsPossible(job, d, fate);
    var io, source := LoadPartitionContents(dev, job.hash, job.tgt);
    var readTarget, readSource := io, Works;
    fate := SMOOTH.(readTarget := readTarget);
    SmoothIsPossible(job, d, fate);
    if io == Crashes { return Crashed, fate; }
    if source.Some? && job.hash(source.value) == job.tgtDigest { return Succeeded, fate; }
    if source.None? || job.tgt != job.src {
      io, source := LoadPartitionContents(dev, job.hash, job.src);
      readSource := io;
      fate := fate.(readSource := readSource);
      SmoothIsPossible(job, d, fate);
      if io == Crashes { return Crashed, fate; }
    }
    var found := None;
    if source.Some? && source.value != [] {
      found := FindMatchingPatch(job, source.value);
    }
    ghost var inner;
    if found.Some? {
      end, fate := GenerateTarget(dev, job, source.value, job.patches[found.value].data, cache);
      inner := fate;
      if AllFitting(job, d, cache) { OneFits(job, d, cache, source.value); }
    } else {
      end, fate := FromCachedCopy(dev, job, cache);
      inner := fate;
    }
    fate := fate.(readTarget := readTarget, readSource := readSource);
    forall x, patch: seq<byte> ensures Generate(job, d, inner, x, patch) == Generate(job, d, fate, x, patch) {
      ReadsDoNotMatter(job, d, inner, fate, x, patch);
    }
    ReadsDoNotMatter(job, d, inner, fate, [], []);
  }

  lemma OneFits(job: Job, d: Disk, cache: Cache, x: seq<byte>)
    requires AllFitting(job, d, cache) && Find(job, x).Some?
    ensures Fitting(job, d, x, job.patches[Find(job, x).value].data, cache)
  {}
}
