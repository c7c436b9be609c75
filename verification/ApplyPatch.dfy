/**
 * The crash-safe patching protocol of applypatch. A run reads, backs up, patches and writes; it can
 * fail or be cut off in any step. What every chain of such runs keeps, and when it does not.
 */
module ApplyPatch {
  import opened Bytes
  import opened Codecs
  import opened PatchFile
  import opened ImgPatch

  /** CacheLocation::cache_temp_source(). */
  const TEMP := "/cache/saved.file"

  type Digest = seq<byte>

  /** A size and a SHA-1; None when the SHA-1 is not 40 hex digits. */
  datatype Pair = Pair(size: nat, digest: Option<Digest>)

  /** "EMMC:<partition>:<size>:<sha1>:..", split into its parts. */
  datatype Name = Name(partition: string, pairs: seq<Pair>)

  datatype Patch = Patch(digest: Option<Digest>, data: seq<byte>)

  /** The arguments of applypatch(). */
  datatype Job = Job(lib: Library, hash: seq<byte> -> Digest, bonus: Option<seq<byte>>,
                     tgt: Name, src: Name, tgtDigest: Digest, patches: seq<Patch>)

  /** Partitions, and the files on /cache. */
  datatype Disk = Disk(parts: map<string, seq<byte>>, files: map<string, seq<byte>>)

  // ----- loading a partition

  function PlacePair(p: Pair, ps: seq<Pair>): (s: seq<Pair>) {
    if ps == [] || p.size <= ps[0].size then [p] + ps else [ps[0]] + PlacePair(p, ps[1..])
  }

  function SortPairs(ps: seq<Pair>): (s: seq<Pair>) {
    if ps == [] then [] else PlacePair(ps[0], SortPairs(ps[1..]))
  }

  ghost predicate BySize(ps: seq<Pair>) {
    forall i, j :: 0 <= i < j < |ps| ==> ps[i].size <= ps[j].size
  }

  lemma {:induction false} PlacePairSorts(p: Pair, ps: seq<Pair>)
    requires BySize(ps)
    ensures BySize(PlacePair(p, ps)) && forall q :: q in PlacePair(p, ps) <==> q == p || q in ps
  {
    if !(ps == [] || p.size <= ps[0].size) {
      PlacePairSorts(p, ps[1..]);
      var s := PlacePair(p, ps);
      assert s[1..] == PlacePair(p, ps[1..]);
      forall j | 0 < j < |s| ensures s[0].size <= s[j].size { assert s[j] in s[1..]; }
      assert forall q :: q in ps <==> q == ps[0] || q in ps[1..];
    }
  }

  lemma {:induction false} SortPairsSorts(ps: seq<Pair>)
    ensures BySize(SortPairs(ps)) && forall q :: q in SortPairs(ps) <==> q in ps
  {
    if ps != [] {
      SortPairsSorts(ps[1..]);
      PlacePairSorts(ps[0], SortPairs(ps[1..]));
      assert forall q :: q in ps <==> q == ps[0] || q in ps[1..];
    }
  }

  /** Try the pairs in order: the first prefix with the right hash. */
  function Try(hash: seq<byte> -> Digest, part: seq<byte>, ps: seq<Pair>): (r: Option<seq<byte>>) {
    if ps == [] || ps[0].size > |part| || ps[0].digest.None? then None
    else if hash(part[..ps[0].size]) == ps[0].digest.value then Some(part[..ps[0].size])
    else Try(hash, part, ps[1..])
  }

  predicate Usable(name: Name) {
    name.pairs != [] && forall k :: 0 <= k < |name.pairs| ==> name.pairs[k].size > 0
  }

  function Load(hash: seq<byte> -> Digest, parts: map<string, seq<byte>>, name: Name): (r: Option<seq<byte>>) {
    if !Usable(name) || name.partition !in parts then None
    else Try(hash, parts[name.partition], SortPairs(name.pairs))
  }

  predicate Names(hash: seq<byte> -> Digest, name: Name, x: seq<byte>) {
    Pair(|x|, Some(hash(x))) in name.pairs
  }

  /** Every pair is readable: its hash is well formed and its size fits the partition. */
  predicate Readable(name: Name, parts: map<string, seq<byte>>) {
    && Usable(name) && name.partition in parts
    && forall k :: 0 <= k < |name.pairs| ==>
         name.pairs[k].digest.Some? && name.pairs[k].size <= |parts[name.partition]|
  }

  lemma {:induction false} TryFinds(hash: seq<byte> -> Digest, part: seq<byte>, ps: seq<Pair>)
    requires BySize(ps)
    ensures var r := Try(hash, part, ps);
            r.Some? ==> && r.value <= part && Pair(|r.value|, Some(hash(r.value))) in ps
                        && forall n: nat :: n < |r.value| ==> Pair(n, Some(hash(part[..n]))) !in ps
    ensures Try(hash, part, ps).None? && (forall p :: p in ps ==> p.digest.Some? && p.size <= |part|) ==>
              forall n: nat :: n <= |part| ==> Pair(n, Some(hash(part[..n]))) !in ps
  {
    if !(ps == [] || ps[0].size > |part| || ps[0].digest.None?) && hash(part[..ps[0].size]) != ps[0].digest.value {
      TryFinds(hash, part, ps[1..]);
      assert forall q :: q in ps <==> q == ps[0] || q in ps[1..];
    }
  }

  /** LoadPartitionContents returns the smallest prefix of the partition that the name lists. */
  lemma LoadFindsSmallest(hash: seq<byte> -> Digest, parts: map<string, seq<byte>>, name: Name)
    ensures var r := Load(hash, parts, name);
            r.Some? ==> && name.partition in parts && r.value <= parts[name.partition]
                        && r.value != [] && Names(hash, name, r.value)
                        && forall n: nat :: n < |r.value| ==> !Names(hash, name, parts[name.partition][..n])
    ensures Load(hash, parts, name).None? && Readable(name, parts) ==>
              forall n: nat :: n <= |parts[name.partition]| ==> !Names(hash, name, parts[name.partition][..n])
  {
    SortPairsSorts(name.pairs);
    if Usable(name) && name.partition in parts {
      TryFinds(hash, parts[name.partition], SortPairs(name.pairs));
    }
  }

  // ----- choosing and applying a patch

  function FindFrom(hash: seq<byte> -> Digest, patches: seq<Patch>, x: seq<byte>, i: nat): (r: Option<nat>)
    requires i <= |patches|
    ensures r.Some? ==> i <= r.value < |patches|
    decreases |patches| - i
  {
    if i == |patches| then None
    else if patches[i].digest == Some(hash(x)) then Some(i)
    else FindFrom(hash, patches, x, i + 1)
  }

  /** FindMatchingPatch: the first patch for this content. */
  function Find(job: Job, x: seq<byte>): (r: Option<nat>)
    ensures r.Some? ==> r.value < |job.patches|
  {
    FindFrom(job.hash, job.patches, x, 0)
  }

  /** "BSDIFF40" */
  const BSDIFF_MAGIC: seq<byte> := [0x42, 0x53, 0x44, 0x49, 0x46, 0x46, 0x34, 0x30]

  predicate Recognised(patch: seq<byte>) { BSDIFF_MAGIC <= patch || MAGIC <= patch }

  /** What applying the patch in memory gives. */
  function Produced(job: Job, x: seq<byte>, patch: seq<byte>): (r: Outcome) {
    if BSDIFF_MAGIC <= patch then
      match BsdiffAt(job.lib, x, patch, 0, 0)
      case Emits(out, _) => Patched(out)
      case Rejects => Rejected
      case Aborts => Aborted
    else Meaning(job.lib, x, patch, job.bonus)
  }

  // ----- one run

  /** How a group of system calls ends. */
  datatype Io = Works | Fails | Crashes

  /** `left` is what the backup file holds when saving does not complete. */
  datatype SaveFate = Saved | Broken(left: Option<seq<byte>>, crash: bool)

  /** `left` is what the partition holds when writing does not complete. */
  datatype WriteFate = Written | Torn(left: seq<byte>, crash: bool)

  datatype Fate = Fate(readTarget: Io, readSource: Io, readCopy: Io, space: Io, deleted: set<string>,
                       save: SaveFate, apply: Io, write: WriteFate, unlink: Io)

  const SMOOTH := Fate(Works, Works, Works, Works, {}, Saved, Works, Written, Works)

  datatype End = Succeeded | Failed | Crashed

  function Ended(crash: bool): (e: End) { if crash then Crashed else Failed }

  function Replaced(part: seq<byte>, data: seq<byte>): (r: seq<byte>)
    requires |data| <= |part|
    ensures |r| == |part| && data <= r
  {
    data + part[|data|..]
  }

  function WithBackup(d: Disk, left: Option<seq<byte>>): (d': Disk) {
    if left.Some? then d.(files := d.files[TEMP := left.value]) else d.(files := d.files - {TEMP})
  }

  /** The last steps of GenerateTarget: write the partition, delete the backup. */
  function Install(job: Job, d: Disk, f: Fate, out: seq<byte>): (r: (Disk, End)) {
    var p := job.tgt.partition;
    if p !in d.parts then (d, Failed)
    else match f.write
      case Torn(left, crash) => (d.(parts := d.parts[p := left]), Ended(crash))
      case Written =>
        if |out| > |d.parts[p]| then (d, Failed)
        else
          var d' := d.(parts := d.parts[p := Replaced(d.parts[p], out)]);
          match f.unlink
          case Works => (WithBackup(d', None), Succeeded)
          case Fails => (d', Succeeded)
          case Crashes => (d', Crashed)
  }

  /** The steps of GenerateTarget once the source is backed up. */
  function Finish(job: Job, d: Disk, f: Fate, x: seq<byte>, patch: seq<byte>): (r: (Disk, End)) {
    if f.apply != Works then (d, Ended(f.apply == Crashes))
    else match Produced(job, x, patch)
      case Patched(out) => if job.hash(out) != job.tgtDigest then (d, Failed) else Install(job, d, f, out)
      case Rejected => (d, Failed)
      case Aborted => (d, Crashed)
  }

  /** GenerateTarget: make space, back up, patch in memory, check, install. */
  function Generate(job: Job, d: Disk, f: Fate, x: seq<byte>, patch: seq<byte>): (r: (Disk, End)) {
    if !Recognised(patch) then (d, Failed)
    else
      var d1 := d.(files := d.files - f.deleted);
      if f.space != Works then (d1, Ended(f.space == Crashes))
      else match f.save
        case Broken(left, crash) => (WithBackup(d1, left), Ended(crash))
        case Saved => Finish(job, WithBackup(d1, Some(x)), f, x, patch)
  }

  /** The bytes that a run patches from, if it gets that far, and whether they are the backup. */
  datatype Origin = Nothing(end: End) | FromPartition(x: seq<byte>) | FromCopy(x: seq<byte>)

  function OriginOf(job: Job, d: Disk, f: Fate): (o: Origin)
    ensures o.FromPartition? ==> Find(job, o.x).Some?
    ensures o.FromCopy? ==> Find(job, o.x).Some? && TEMP in d.files && o.x == d.files[TEMP]
  {
    if f.readTarget == Crashes then Nothing(Crashed)
    else
      var first := if f.readTarget == Works then Load(job.hash, d.parts, job.tgt) else None;
      if first.Some? && job.hash(first.value) == job.tgtDigest then Nothing(Succeeded)
      else if first.Some? && job.tgt == job.src then Chosen(job, d, f, first)
      else if f.readSource == Crashes then Nothing(Crashed)
      else Chosen(job, d, f, if f.readSource == Works then Load(job.hash, d.parts, job.src) else None)
  }

  function Chosen(job: Job, d: Disk, f: Fate, x: Option<seq<byte>>): (o: Origin)
    ensures o.FromPartition? ==> Find(job, o.x).Some? && x == Some(o.x)
    ensures o.FromCopy? ==> Find(job, o.x).Some? && TEMP in d.files && o.x == d.files[TEMP]
  {
    if x.Some? && x.value != [] && Find(job, x.value).Some? then FromPartition(x.value)
    else match f.readCopy
      case Crashes => Nothing(Crashed)
      case Fails => Nothing(Failed)
      case Works =>
        if TEMP in d.files && Find(job, d.files[TEMP]).Some? then FromCopy(d.files[TEMP]) else Nothing(Failed)
  }

  /** A whole run of applypatch(). */
  function Run(job: Job, d: Disk, f: Fate): (r: (Disk, End)) {
    match OriginOf(job, d, f)
    case Nothing(end) => (d, end)
    case FromPartition(x) => Generate(job, d, f, x, job.patches[Find(job, x).value].data)
    case FromCopy(x) => Generate(job, d, f, x, job.patches[Find(job, x).value].data)
  }

  // ----- the hypotheses

  ghost predicate Injective(hash: seq<byte> -> Digest) {
    forall x, y :: hash(x) == hash(y) ==> x == y
  }

  /** The update is meant for this device: every listed source is patched to `target`. */
  ghost predicate Meant(job: Job, target: seq<byte>) {
    && Injective(job.hash) && job.tgtDigest == job.hash(target) && target != []
    && Names(job.hash, job.tgt, target)
    && forall x :: Find(job, x).Some? ==>
         var patch := job.patches[Find(job, x).value].data;
         Recognised(patch) && Produced(job, x, patch) == Patched(target)
  }

  /** Whatever the source name lists is a source, or the target itself. */
  ghost predicate Listed(job: Job, target: seq<byte>) {
    forall x :: Names(job.hash, job.tgt, x) ==> x == target || (job.tgt == job.src && Find(job, x).Some?)
  }

  ghost predicate Fits(job: Job, target: seq<byte>, d: Disk) {
    && Readable(job.tgt, d.parts) && Readable(job.src, d.parts)
    && |target| <= |d.parts[job.tgt.partition]|
  }

  /** The backup survives making space, and a torn partition keeps its size. */
  ghost predicate Possible(job: Job, d: Disk, f: Fate) {
    && TEMP !in f.deleted
    && (f.write.Torn? && job.tgt.partition in d.parts ==> |f.write.left| == |d.parts[job.tgt.partition]|)
  }

  ghost predicate Holds(job: Job, d: Disk, x: seq<byte>) {
    job.tgt.partition in d.parts && x <= d.parts[job.tgt.partition]
  }

  /** The partitions alone are enough to reach the target. */
  ghost predicate Intact(job: Job, target: seq<byte>, d: Disk) {
    || Load(job.hash, d.parts, job.tgt) == Some(target)
    || (Load(job.hash, d.parts, job.src).Some? && Find(job, Load(job.hash, d.parts, job.src).value).Some?)
  }

  ghost predicate BackedUp(job: Job, d: Disk) {
    TEMP in d.files && Find(job, d.files[TEMP]).Some?
  }

  ghost predicate Safe(job: Job, target: seq<byte>, d: Disk) {
    Intact(job, target, d) || BackedUp(job, d)
  }

  // ----- what a run does

  lemma RunKeepsFitting(job: Job, target: seq<byte>, d: Disk, f: Fate)
    requires Fits(job, target, d) && Possible(job, d, f)
    ensures Fits(job, target, Run(job, d, f).0)
  {
    hide Find, Load, Produced, Recognised;
  }

  /** Success means that the target is in place, whatever happened before and whatever the patches are. */
  lemma SuccessMeansTarget(job: Job, target: seq<byte>, d: Disk, f: Fate)
    requires Injective(job.hash) && job.tgtDigest == job.hash(target) && Run(job, d, f).1 == Succeeded
    ensures Holds(job, Run(job, d, f).0, target)
  {
    hide Find, Load, Produced, Recognised;
    LoadFindsSmallest(job.hash, d.parts, job.tgt);
  }

  /** Some listed content is patched to bytes with the hash of the target. */
  ghost predicate SomePatchWorks(job: Job) {
    exists x, i :: 0 <= i < |job.patches| && job.patches[i].digest == Some(job.hash(x)) &&
      Produced(job, x, job.patches[i].data).Patched? &&
      job.hash(Produced(job, x, job.patches[i].data).output) == job.tgtDigest
  }

  /**
   * What any run leaves alone, cut off or not: all partitions but the target's, that one too unless a
   * patch gives bytes with the right hash, and all files but the backup and those deleted for space.
   * A run that installs and can delete the backup does so.
   */
  lemma RunTouches(job: Job, d: Disk, f: Fate)
    ensures var (d', end) := Run(job, d, f);
            && d'.parts.Keys == d.parts.Keys
            && (forall p :: p in d.parts && p != job.tgt.partition ==> d'.parts[p] == d.parts[p])
            && (d'.parts != d.parts ==> SomePatchWorks(job))
            && (forall g :: g != TEMP && g !in f.deleted ==> (g in d'.files <==> g in d.files))
            && (forall g :: g != TEMP && g in d'.files ==> g in d.files && d'.files[g] == d.files[g])
            && (end == Succeeded && d' != d && f.unlink == Works ==> TEMP !in d'.files)
  {
    hide Find, Load, Produced, Recognised;
    var o := OriginOf(job, d, f);
    if !o.Nothing? { FoundMatches(job, o.x); }
  }

  /** When no patch makes the target, no run changes a partition or succeeds, unless the target is there. */
  lemma WrongPatchIsNotInstalled(job: Job, target: seq<byte>, d: Disk, f: Fate)
    requires Injective(job.hash) && job.tgtDigest == job.hash(target)
    requires forall x, i :: 0 <= i < |job.patches| && job.patches[i].digest == Some(job.hash(x)) ==>
               Produced(job, x, job.patches[i].data) != Patched(target)
    ensures var (d', end) := Run(job, d, f);
            d'.parts == d.parts && (end == Succeeded ==> Holds(job, d, target))
  {
    hide Run, Produced;
    RunTouches(job, d, f);
    if Run(job, d, f).1 == Succeeded { SuccessMeansTarget(job, target, d, f); }
  }

  /** A patch that starts with neither "BSDIFF40" nor "IMGDIFF2" stops a run before it changes anything. */
  lemma UnknownPatchIsRefused(job: Job, d: Disk, f: Fate)
    requires forall i :: 0 <= i < |job.patches| ==>
               var data := job.patches[i].data;
               |data| >= 8 ==> data[..8] != BSDIFF_MAGIC && data[..8] != MAGIC
    ensures Run(job, d, f).0 == d
  {
    hide Find, Load, Produced;
    forall i | 0 <= i < |job.patches| ensures !Recognised(job.patches[i].data) {}
    hide Recognised;
  }

  /** A bsdiff patch gives what it was made for. */
  lemma BsdiffPatchProduces(job: Job, x: seq<byte>, target: seq<byte>)
    requires Laws(job.lib) && BSDIFF_MAGIC <= job.lib.bsdiff(x, target)
    ensures Recognised(job.lib.bsdiff(x, target)) && Produced(job, x, job.lib.bsdiff(x, target)) == Patched(target)
  {
    hide DeflateLaw, InflateLaw, Meaning;
    var patch := job.lib.bsdiff(x, target);
    assert patch[0..] == patch && patch + [] == patch;
    var r := job.lib.bspatch(x, job.lib.bsdiff(x, target) + []);
  }

  lemma MeantHashes(job: Job, target: seq<byte>)
    requires Meant(job, target)
    ensures Injective(job.hash) && job.tgtDigest == job.hash(target)
  {}

  lemma FoundMatches(job: Job, x: seq<byte>)
    ensures Find(job, x).Some? ==> job.patches[Find(job, x).value].digest == Some(job.hash(x))
    ensures Find(job, x).Some? <==> exists i :: 0 <= i < |job.patches| && job.patches[i].digest == Some(job.hash(x))
  {
    FindsFirst(job.hash, job.patches, x, 0);
  }

  lemma {:induction false} FindsFirst(hash: seq<byte> -> Digest, patches: seq<Patch>, x: seq<byte>, i: nat)
    requires i <= |patches|
    ensures var r := FindFrom(hash, patches, x, i);
            if r.Some? then patches[r.value].digest == Some(hash(x))
            else forall k :: i <= k < |patches| ==> patches[k].digest != Some(hash(x))
    decreases |patches| - i
  {
    if i < |patches| { FindsFirst(hash, patches, x, i + 1); }
  }

  lemma LoadsWhenHeld(job: Job, target: seq<byte>, d: Disk)
    requires Meant(job, target) && Listed(job, target) && Fits(job, target, d) && Holds(job, d, target)
    ensures Intact(job, target, d)
  {
    hide Find, Load, Produced, Recognised;
    LoadFindsSmallest(job.hash, d.parts, job.tgt);
    var part := d.parts[job.tgt.partition];
    assert part[..|target|] == target;
  }

  /** An undisturbed run succeeds exactly from the safe states. */
  lemma RecoverableIffSafe(job: Job, target: seq<byte>, d: Disk)
    requires Meant(job, target) && Listed(job, target) && Fits(job, target, d)
    ensures Run(job, d, SMOOTH).1 == Succeeded <==> Safe(job, target, d)
  {
    hide Find, Load, Produced, Recognised;
    LoadFindsSmallest(job.hash, d.parts, job.tgt);
    LoadFindsSmallest(job.hash, d.parts, job.src);
  }

  /** The run stops inside SaveFileContents and does not leave a usable backup. */
  ghost predicate LosesBackup(job: Job, d: Disk, f: Fate) {
    && !OriginOf(job, d, f).Nothing?
    && Recognised(job.patches[Find(job, OriginOf(job, d, f).x).value].data)
    && f.space == Works && f.save.Broken?
    && !(f.save.left.Some? && Find(job, f.save.left.value).Some?)
  }

  /**
   * One run, cut off anywhere: a safe state stays safe, unless the partitions were already unusable
   * and the backup, which the run resumed from, is lost while it is saved again.
   */
  lemma RunKeepsSafeIff(job: Job, target: seq<byte>, d: Disk, f: Fate)
    requires Meant(job, target) && Listed(job, target) && Fits(job, target, d) && Possible(job, d, f)
    requires Safe(job, target, d)
    ensures Safe(job, target, Run(job, d, f).0) <==> Intact(job, target, d) || !LosesBackup(job, d, f)
    ensures !Intact(job, target, d) && LosesBackup(job, d, f) ==> OriginOf(job, d, f).FromCopy?
  {
    hide Find, Load, Produced, Recognised, Generate, Meant, Listed;
    var (d', end) := Run(job, d, f);
    RunKeepsFitting(job, target, d, f);
    if end == Succeeded {
      MeantHashes(job, target);
      SuccessMeansTarget(job, target, d, f);
      LoadsWhenHeld(job, target, d');
    }
    var o := OriginOf(job, d, f);
    if !o.Nothing? { GenerateKeeps(job, target, d, f, o.x); }
  }

  /** What GenerateTarget leaves: the partitions and the backup as before, or a usable backup, or success. */
  lemma GenerateKeeps(job: Job, target: seq<byte>, d: Disk, f: Fate, x: seq<byte>)
    requires Meant(job, target) && Possible(job, d, f) && Find(job, x).Some?
    ensures var patch := job.patches[Find(job, x).value].data;
            var (d', end) := Generate(job, d, f, x, patch);
            if Recognised(patch) && f.space == Works && f.save.Broken? then
              d'.parts == d.parts && end != Succeeded
              && (BackedUp(job, d') <==> f.save.left.Some? && Find(job, f.save.left.value).Some?)
            else
              || BackedUp(job, d') || end == Succeeded
              || (d'.parts == d.parts && (BackedUp(job, d') <==> BackedUp(job, d)))
  {
    hide Find, Produced, Recognised;
  }

  /** From an unsafe state no run changes anything. */
  lemma UnsafeStays(job: Job, target: seq<byte>, d: Disk, f: Fate)
    requires Meant(job, target) && !Safe(job, target, d)
    ensures Run(job, d, f).0 == d
  {
    hide Find, Load, Produced, Recognised;
  }

  // ----- chains of runs

  function RunAll(job: Job, d: Disk, fs: seq<Fate>): (r: Disk)
    decreases |fs|
  {
    if fs == [] then d else RunAll(job, Run(job, d, fs[0]).0, fs[1..])
  }

  ghost predicate AllPossible(job: Job, d: Disk, fs: seq<Fate>)
    decreases |fs|
  {
    fs != [] ==> Possible(job, d, fs[0]) && AllPossible(job, Run(job, d, fs[0]).0, fs[1..])
  }

  /** No run loses the backup while the partitions are unusable. */
  ghost predicate NeverLoses(job: Job, target: seq<byte>, d: Disk, fs: seq<Fate>)
    decreases |fs|
  {
    fs != [] ==>
      && (Intact(job, target, d) || !LosesBackup(job, d, fs[0]))
      && NeverLoses(job, target, Run(job, d, fs[0]).0, fs[1..])
  }

  /** No run that resumed from the backup was cut off or failed inside SaveFileContents. */
  ghost predicate NoBrokenResume(job: Job, d: Disk, fs: seq<Fate>)
    decreases |fs|
  {
    fs != [] ==>
      && (OriginOf(job, d, fs[0]).FromCopy? ==> fs[0].space == Works ==> fs[0].save == Saved)
      && NoBrokenResume(job, Run(job, d, fs[0]).0, fs[1..])
  }

  lemma {:induction false} ChainIsSafeIff(job: Job, target: seq<byte>, d: Disk, fs: seq<Fate>)
    requires Meant(job, target) && Listed(job, target) && Fits(job, target, d)
    requires Safe(job, target, d) && AllPossible(job, d, fs)
    ensures Fits(job, target, RunAll(job, d, fs))
    ensures Safe(job, target, RunAll(job, d, fs)) <==> NeverLoses(job, target, d, fs)
    decreases |fs|
  {
    hide Run, Meant, Listed, Safe, Possible, LosesBackup, Intact, Fits;
    if fs != [] {
      var d' := Run(job, d, fs[0]).0;
      RunKeepsSafeIff(job, target, d, fs[0]);
      RunKeepsFitting(job, target, d, fs[0]);
      if Safe(job, target, d') {
        ChainIsSafeIff(job, target, d', fs[1..]);
      } else {
        ChainStaysUnsafe(job, target, d', fs[1..]);
      }
    }
  }

  lemma {:induction false} ChainStaysUnsafe(job: Job, target: seq<byte>, d: Disk, fs: seq<Fate>)
    requires Meant(job, target) && !Safe(job, target, d)
    ensures RunAll(job, d, fs) == d
    decreases |fs|
  {
    hide Run, Meant, Safe;
    if fs != [] {
      UnsafeStays(job, target, d, fs[0]);
      ChainStaysUnsafe(job, target, d, fs[1..]);
    }
  }

  /**
   * Crash recovery: after any number of runs, each cut off or failing anywhere, an undisturbed run
   * installs the target if and only if no run lost the backup it depended on.
   */
  lemma RecoversIff(job: Job, target: seq<byte>, d: Disk, fs: seq<Fate>)
    requires Meant(job, target) && Listed(job, target) && Fits(job, target, d)
    requires Safe(job, target, d) && AllPossible(job, d, fs)
    ensures var (d', end) := Run(job, RunAll(job, d, fs), SMOOTH);
            && (end == Succeeded <==> NeverLoses(job, target, d, fs))
            && (end == Succeeded ==> Holds(job, d', target))
  {
    hide Run, Meant, Listed, Safe, Fits, Holds, NeverLoses, AllPossible;
    ChainIsSafeIff(job, target, d, fs);
    var d1 := RunAll(job, d, fs);
    RecoverableIffSafe(job, target, d1);
    if Run(job, d1, SMOOTH).1 == Succeeded {
      MeantHashes(job, target);
      SuccessMeansTarget(job, target, d1, SMOOTH);
    }
  }

  lemma {:induction false} UnbrokenNeverLoses(job: Job, target: seq<byte>, d: Disk, fs: seq<Fate>)
    requires Meant(job, target) && Listed(job, target) && Fits(job, target, d)
    requires Safe(job, target, d) && AllPossible(job, d, fs) && NoBrokenResume(job, d, fs)
    ensures NeverLoses(job, target, d, fs)
    decreases |fs|
  {
    hide Run, Meant, Listed, Safe, Intact, Fits, Find, Recognised, OriginOf, Possible;
    if fs != [] {
      RunKeepsSafeIff(job, target, d, fs[0]);
      RunKeepsFitting(job, target, d, fs[0]);
      UnbrokenNeverLoses(job, target, Run(job, d, fs[0]).0, fs[1..]);
    }
  }

  // ----- one source, one partition

  /** The usual call: one source, patched in place, both sizes and hashes in the partition's name. */
  function InPlace(lib: Library, hash: seq<byte> -> Digest, partition: string,
                   source: seq<byte>, target: seq<byte>, patch: seq<byte>): (job: Job)
  {
    var name := Name(partition, [Pair(|source|, Some(hash(source))), Pair(|target|, Some(hash(target)))]);
    Job(lib, hash, None, name, name, hash(target), [Patch(Some(hash(source)), patch)])
  }

  /** The state is safe when the partition holds the source or the target, or the backup is the source. */
  lemma InPlaceSafe(lib: Library, hash: seq<byte> -> Digest, partition: string,
                    source: seq<byte>, target: seq<byte>, patch: seq<byte>, d: Disk)
    requires Injective(hash) && source != [] && target != [] && Recognised(patch)
    requires var job := InPlace(lib, hash, partition, source, target, patch);
             Produced(job, source, patch) == Patched(target) && Fits(job, target, d)
    ensures var job := InPlace(lib, hash, partition, source, target, patch);
            && Meant(job, target) && Listed(job, target)
            && (Safe(job, target, d) <==>
                Holds(job, d, source) || Holds(job, d, target) || (TEMP in d.files && d.files[TEMP] == source))
  {
    hide Load, Produced, Recognised, Readable;
    var job := InPlace(lib, hash, partition, source, target, patch);
    forall x ensures Find(job, x) == if x == source then Some(0) else None {
      assert FindFrom(job.hash, job.patches, x, 1) == None;
    }
    forall x | Names(hash, job.tgt, x) ensures x == source || x == target {}
    assert job.tgt.pairs[0] == Pair(|source|, Some(hash(source)));
    assert job.tgt.pairs[1] == Pair(|target|, Some(hash(target)));
    assert Names(hash, job.tgt, source) && Names(hash, job.tgt, target);
    assert partition in d.parts by { ReadableHasPart(job.tgt, d.parts); }
    LoadFindsSmallest(hash, d.parts, job.tgt);
    var part := d.parts[partition];
    if source <= part { assert part[..|source|] == source; }
    if target <= part { assert part[..|target|] == target; }
  }

  /** An undisturbed run in place, byte for byte. */
  lemma InPlaceRun(lib: Library, hash: seq<byte> -> Digest, partition: string,
                   source: seq<byte>, target: seq<byte>, patch: seq<byte>, d: Disk)
    requires Injective(hash) && source != [] && target != [] && Recognised(patch)
    requires var job := InPlace(lib, hash, partition, source, target, patch);
             Produced(job, source, patch) == Patched(target) && Fits(job, target, d)
    ensures partition in d.parts
    ensures var part := d.parts[partition];
            Run(InPlace(lib, hash, partition, source, target, patch), d, SMOOTH) ==
            if target <= part && !(source <= part && |source| < |target|) then (d, Succeeded)
            else if source <= part || (TEMP in d.files && d.files[TEMP] == source) then
              (Disk(d.parts[partition := target + part[|target|..]], d.files - {TEMP}), Succeeded)
            else (d, Failed)
  {
    hide Load, Produced, Recognised, Readable;
    var job := InPlace(lib, hash, partition, source, target, patch);
    forall x ensures Find(job, x) == if x == source then Some(0) else None {
      InPlaceFinds(lib, hash, partition, source, target, patch, x);
    }
    hide Find;
    assert partition in d.parts by { ReadableHasPart(job.tgt, d.parts); }
    var part := d.parts[partition];
    InPlaceLoadsFirst(lib, hash, partition, source, target, patch, d);
    var d1 := d.(files := d.files - {});
    assert d1 == d;
    assert d.files[TEMP := source] - {TEMP} == d.files - {TEMP};
  }

  lemma InPlaceLoadsFirst(lib: Library, hash: seq<byte> -> Digest, partition: string,
                          source: seq<byte>, target: seq<byte>, patch: seq<byte>, d: Disk)
    requires Injective(hash)
    requires var job := InPlace(lib, hash, partition, source, target, patch); Fits(job, target, d)
    ensures partition in d.parts
    ensures var part := d.parts[partition];
            Load(hash, d.parts, InPlace(lib, hash, partition, source, target, patch).tgt) ==
            if target <= part && !(source <= part && |source| < |target|) then Some(target)
            else if source <= part then Some(source) else None
  {
    hide Load, Readable;
    var job := InPlace(lib, hash, partition, source, target, patch);
    assert partition in d.parts by { ReadableHasPart(job.tgt, d.parts); }
    LoadFindsSmallest(hash, d.parts, job.tgt);
    forall x | Names(hash, job.tgt, x) ensures x == source || x == target {}
    assert job.tgt.pairs[0] == Pair(|source|, Some(hash(source)));
    assert job.tgt.pairs[1] == Pair(|target|, Some(hash(target)));
    var part := d.parts[partition];
    if source <= part { assert part[..|source|] == source; }
    if target <= part { assert part[..|target|] == target; }
  }

  lemma ReadableHasPart(name: Name, parts: map<string, seq<byte>>)
    requires Readable(name, parts)
    ensures name.partition in parts
  {}

  /** A patch file with one raw chunk turns anything into the chunk's bytes. */
  lemma RawPatchTo(source: seq<byte>, target: seq<byte>) returns (patch: seq<byte>)
    requires |source| < TWO_31 && |target| < TWO_31
    ensures Recognised(patch)
    ensures forall job: Job :: job.lib == Escaping() && job.bonus == None ==>
              Produced(job, source, patch) == Patched(target)
  {
    EscapingObeysTheLaws();
    var lib := Escaping();
    hide Laws, Meaning, Headers, Int32Bytes, Escaping;
    var p := PatchChunk(RawPatch, 0, 0, 0, 0, |target|, |target|, 6, target);
    patch := File([p]);
    assert patch[..8] == MAGIC;
    assert MAGIC[0] != BSDIFF_MAGIC[0];
    RecordedSizeIsFileSize([p]);
    assert SizeTotal([p]) == PatchSize(p) + SizeTotal([]);
    assert AllDescribe(lib, source, None, 0, [p], [target], [target]);
    assert !SomeRefused(lib, source, None, 0, [p], [target]);
    assert Flatten([target]) == target by { assert [target][1..] == []; assert target + [] == target; }
    WrittenFileMeansTarget(lib, source, None, [p], [target], [target]);
  }

  lemma InPlaceFinds(lib: Library, hash: seq<byte> -> Digest, partition: string,
                     source: seq<byte>, target: seq<byte>, patch: seq<byte>, x: seq<byte>)
    requires Injective(hash)
    ensures Find(InPlace(lib, hash, partition, source, target, patch), x) == if x == source then Some(0) else None
  {
    var job := InPlace(lib, hash, partition, source, target, patch);
    assert FindFrom(job.hash, job.patches, x, 1) == None;
  }

  /**
   * A chain that loses the update, from every partition that holds only the source: the first run is
   * cut off while it writes the partition; the second resumes from the backup and is cut off while
   * it saves it again.
   */
  lemma ResumedSaveLoses(lib: Library, hash: seq<byte> -> Digest, partition: string, source: seq<byte>,
                         target: seq<byte>, patch: seq<byte>, d: Disk, torn: seq<byte>, left: Option<seq<byte>>)
    requires Injective(hash) && source != [] && target != [] && Recognised(patch)
    requires var job := InPlace(lib, hash, partition, source, target, patch);
             && Produced(job, source, patch) == Patched(target) && Fits(job, target, d)
             && Holds(job, d, source) && !Holds(job, d, target)
             && |torn| == |d.parts[partition]| && !(source <= torn) && !(target <= torn) && left != Some(source)
    ensures var job := InPlace(lib, hash, partition, source, target, patch);
            var fs := [SMOOTH.(write := Torn(torn, true)), SMOOTH.(save := Broken(left, true))];
            Run(job, RunAll(job, d, fs), SMOOTH).1 == Failed
  {
    hide Load, Produced, Recognised, Readable, Find, InPlace, Run, Injective;
    var job := InPlace(lib, hash, partition, source, target, patch);
    var first, second := SMOOTH.(write := Torn(torn, true)), SMOOTH.(save := Broken(left, true));
    InPlaceParts(lib, hash, partition, source, target, patch);
    assert hash(source) != hash(target) by { assert source != target; InjectiveParts(hash, source, target); }
    InPlaceFinds(lib, hash, partition, source, target, patch, source);
    InPlaceLoads(lib, hash, partition, source, target, patch, d);
    CutWhileWriting(job, d, source, target, torn);
    var d1 := Disk(d.parts[partition := torn], d.files[TEMP := source]);
    assert Fits(job, target, d1) by { RunKeepsFitting(job, target, d, first); }
    InPlaceLoads(lib, hash, partition, source, target, patch, d1);
    CutWhileSaving(job, d1, source, left);
    var d2 := WithBackup(d1, left);
    if left.Some? { InPlaceFinds(lib, hash, partition, source, target, patch, left.value); }
    NothingToResume(job, d2);
    assert [first, second][1..] == [second] && [second][1..] == [];
    assert RunAll(job, d1, [second]) == d2;
  }

  lemma InjectiveParts(hash: seq<byte> -> Digest, x: seq<byte>, y: seq<byte>)
    requires Injective(hash) && x != y
    ensures hash(x) != hash(y)
  {}

  lemma CutWhileWriting(job: Job, d: Disk, source: seq<byte>, target: seq<byte>, torn: seq<byte>)
    requires job.tgt == job.src && Load(job.hash, d.parts, job.tgt) == Some(source) && source != []
    requires job.hash(source) != job.tgtDigest && job.hash(target) == job.tgtDigest && job.tgt.partition in d.parts
    requires Find(job, source) == Some(0) && Recognised(job.patches[0].data)
    requires Produced(job, source, job.patches[0].data) == Patched(target)
    ensures Run(job, d, SMOOTH.(write := Torn(torn, true))) ==
            (Disk(d.parts[job.tgt.partition := torn], d.files[TEMP := source]), Crashed)
  {
    hide Load, Produced, Recognised, Find;
    assert d.files - {} == d.files;
  }

  lemma CutWhileSaving(job: Job, d: Disk, source: seq<byte>, left: Option<seq<byte>>)
    requires job.tgt == job.src && Load(job.hash, d.parts, job.tgt) == None
    requires TEMP in d.files && d.files[TEMP] == source
    requires Find(job, source) == Some(0) && Recognised(job.patches[0].data)
    ensures Run(job, d, SMOOTH.(save := Broken(left, true))) == (WithBackup(d, left), Crashed)
  {
    hide Load, Produced, Recognised, Find;
    assert d.files - {} == d.files;
  }

  lemma NothingToResume(job: Job, d: Disk)
    requires job.tgt == job.src && Load(job.hash, d.parts, job.tgt) == None
    requires TEMP in d.files ==> Find(job, d.files[TEMP]).None?
    ensures Run(job, d, SMOOTH) == (d, Failed)
  {
    hide Load, Produced, Recognised, Find;
  }

  lemma InPlaceParts(lib: Library, hash: seq<byte> -> Digest, partition: string,
                     source: seq<byte>, target: seq<byte>, patch: seq<byte>)
    ensures var job := InPlace(lib, hash, partition, source, target, patch);
            && job.tgt == job.src && job.tgt.partition == partition && job.hash == hash
            && job.tgtDigest == hash(target) && |job.patches| == 1 && job.patches[0].data == patch
  {}

  lemma InPlaceLoads(lib: Library, hash: seq<byte> -> Digest, partition: string,
                     source: seq<byte>, target: seq<byte>, patch: seq<byte>, d: Disk)
    requires Injective(hash)
    requires var job := InPlace(lib, hash, partition, source, target, patch);
             Fits(job, target, d) && !Holds(job, d, target)
    ensures var job := InPlace(lib, hash, partition, source, target, patch);
            Load(hash, d.parts, job.tgt) == if Holds(job, d, source) then Some(source) else None
  {
    hide Load, Readable;
    var job := InPlace(lib, hash, partition, source, target, patch);
    assert partition in d.parts by { ReadableHasPart(job.tgt, d.parts); }
    LoadFindsSmallest(hash, d.parts, job.tgt);
    forall x | Names(hash, job.tgt, x) ensures x == source || x == target {}
    assert job.tgt.pairs[0] == Pair(|source|, Some(hash(source)));
    if source <= d.parts[partition] { assert d.parts[partition][..|source|] == source; }
  }

  /** One such chain, spelled out. */
  lemma BackupIsLost() returns (job: Job, target: seq<byte>, d: Disk, fs: seq<Fate>)
    ensures Meant(job, target) && Listed(job, target) && Fits(job, target, d) && Safe(job, target, d)
    ensures Run(job, RunAll(job, d, fs), SMOOTH).1 == Failed
  {
    var hash := (x: seq<byte>) => x;
    var source: seq<byte> := [1];
    target := [2];
    var patch := RawPatchTo(source, target);
    job := InPlace(Escaping(), hash, "boot", source, target, patch);
    d := Disk(map["boot" := source], map[]);
    assert job.tgt.pairs == [Pair(1, Some([1])), Pair(1, Some([2]))];
    assert Fits(job, target, d);
    var torn: seq<byte> := [3];
    assert source[0] == 1 && target[0] == 2 && torn[0] == 3;
    hide Produced, Recognised, Meant, Listed, Safe, Fits, Run, RunAll, InPlace;
    InPlaceSafe(Escaping(), hash, "boot", source, target, patch, d);
    fs := [SMOOTH.(write := Torn(torn, true)), SMOOTH.(save := Broken(Some([]), true))];
    ResumedSaveLoses(Escaping(), hash, "boot", source, target, patch, d, torn, Some([]));
  }
}
