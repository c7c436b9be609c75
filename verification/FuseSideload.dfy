/**
 * The sideload file system: a one-block cache and a table of block hashes over a provider that is
 * not trusted. Reads are consistent with each other, and with an honest provider they are the file.
 */
module FuseSideload {
  import opened Bytes

  type Digest = seq<byte>

  /** SHA256_DIGEST_LENGTH zero bytes: the block has not been read yet. */
  const UNREAD: Digest :=
    [0, 0, 0, 0, 0, 0, 0, 0, 0, 0, 0, 0, 0, 0, 0, 0, 0, 0, 0, 0, 0, 0, 0, 0, 0, 0, 0, 0, 0, 0, 0, 0]

  /** curr_block == -1: nothing is cached. */
  const NOTHING: nat := 0xFFFF_FFFF

  /** What run_fuse_sideload sets up; `hash` stands for SHA-256. */
  datatype Config = Config(hash: seq<byte> -> Digest, fileSize: nat, blockSize: nat, fileBlocks: nat)

  /** pos / n and pos % n, by repeated subtraction. */
  function BlockOf(n: nat, pos: nat): (b: nat)
    requires n > 0
    decreases pos
  {
    if pos < n then 0 else 1 + BlockOf(n, pos - n)
  }

  function Within(n: nat, pos: nat): (r: nat)
    requires n > 0
    ensures r < n
    decreases pos
  {
    if pos < n then pos else Within(n, pos - n)
  }

  lemma {:induction false} BlockParts(n: nat, pos: nat)
    requires n > 0
    ensures pos == BlockOf(n, pos) * n + Within(n, pos)
    decreases pos
  {
    if pos >= n {
      BlockParts(n, pos - n);
      assert (1 + BlockOf(n, pos - n)) * n == n + BlockOf(n, pos - n) * n;
    }
  }

  lemma BlockIsQuotient(n: nat, pos: nat)
    requires n > 0
    ensures BlockOf(n, pos) == pos / n && Within(n, pos) == pos % n
  {
    BlockParts(n, pos);
    DivIs(pos, n, BlockOf(n, pos), Within(n, pos));
  }

  function BlocksFor(fileSize: nat, blockSize: nat): (n: nat)
    requires blockSize > 0
  {
    if fileSize == 0 then 0 else BlockOf(blockSize, fileSize - 1) + 1
  }

  /** The checks of run_fuse_sideload; file_blocks was not cut off to 32 bits. */
  predicate Valid(cfg: Config) {
    && 4096 <= cfg.blockSize <= 0x40_0000 && cfg.fileSize < TWO_64
    && cfg.fileBlocks == BlocksFor(cfg.fileSize, cfg.blockSize) <= 0x4_0000
  }

  datatype Cache = Cache(curr: nat, data: seq<byte>, hashes: seq<Digest>)

  /** What read_block leaves in the buffer, and whether it reports a failure. */
  datatype Reply = Data(bytes: seq<byte>) | Failure(bytes: seq<byte>)

  datatype Status = Fetched | ProviderFailed | Mismatch

  function Zeros(n: nat): (s: seq<byte>)
    ensures |s| == n && forall k :: 0 <= k < n ==> s[k] == 0
  {
    seq(n, _ => 0)
  }

  function Resized(bytes: seq<byte>, size: nat): (r: seq<byte>)
    ensures |r| == size
  {
    if |bytes| >= size then bytes[..size] else bytes + Zeros(size - |bytes|)
  }

  function StartOf(cfg: Config, block: nat): (n: nat) {
    block * cfg.blockSize
  }

  lemma NextStart(cfg: Config, block: nat)
    ensures StartOf(cfg, block + 1) == StartOf(cfg, block) + cfg.blockSize
  {}

  /** The product is a uint32_t; the sum and the difference are not. */
  function FetchSize(cfg: Config, block: nat): (n: int) {
    var at := (StartOf(cfg, block)) % TWO_32;
    if at + cfg.blockSize > cfg.fileSize then cfg.fileSize - at else cfg.blockSize
  }

  predicate Shaped(cfg: Config, c: Cache) {
    Valid(cfg) && |c.data| == cfg.blockSize && |c.hashes| == cfg.fileBlocks
  }

  /** The product wraps only where the whole block is asked for. */
  lemma FetchSizeFits(cfg: Config, block: nat)
    requires Valid(cfg) && block < cfg.fileBlocks
    ensures 0 < FetchSize(cfg, block) <= cfg.blockSize
    ensures StartOf(cfg, block) < cfg.fileSize
    ensures StartOf(cfg, block) < TWO_32 ==>
              FetchSize(cfg, block) == if StartOf(cfg, block) + cfg.blockSize > cfg.fileSize
                                       then cfg.fileSize - StartOf(cfg, block) else cfg.blockSize
    ensures StartOf(cfg, block) >= TWO_32 ==> FetchSize(cfg, block) == cfg.blockSize
  {
    BlockStart(cfg, block);
    var start := StartOf(cfg, block);
    if start < TWO_32 { SmallMod(start); } else { LargeMod(start); }
  }

  lemma SmallMod(x: nat)
    requires x < TWO_32
    ensures x % TWO_32 == x
  {}

  lemma LargeMod(x: nat)
    requires x >= TWO_32
    ensures 0 <= x % TWO_32 <= x - TWO_32
  {}

  lemma BlockStart(cfg: Config, block: nat)
    requires Valid(cfg) && block < cfg.fileBlocks
    ensures StartOf(cfg, block) < cfg.fileSize
    ensures block + 1 < cfg.fileBlocks ==> StartOf(cfg, block) + cfg.blockSize < cfg.fileSize
    ensures block + 1 == cfg.fileBlocks ==> cfg.fileSize <= StartOf(cfg, block) + cfg.blockSize
  {
    var last := cfg.fileBlocks - 1;
    BlockParts(cfg.blockSize, cfg.fileSize - 1);
    MulMono(block, last, cfg.blockSize);
    if block < last { MulMono(block + 1, last, cfg.blockSize); }
  }

  lemma MulMono(a: nat, b: nat, c: nat)
    requires a <= b
    ensures a * c <= b * c
  {}

  lemma DivIs(x: nat, n: nat, q: nat, r: nat)
    requires n > 0 && x == q * n + r && r < n
    ensures x / n == q && x % n == r
  {
    assert (x / n) * n <= x < (x / n + 1) * n && x % n == x - (x / n) * n;
    if x / n < q { MulMono(x / n + 1, q, n); }
    if x / n > q { MulMono(q + 1, x / n, n); }
  }

  /** The buffer after the memset and read_block. */
  function Filled(cfg: Config, block: nat, bytes: seq<byte>): (s: seq<byte>)
    requires Valid(cfg) && block < cfg.fileBlocks
    ensures |s| == cfg.blockSize
  {
    FetchSizeFits(cfg, block);
    var n := FetchSize(cfg, block);
    Resized(bytes, n) + Zeros(cfg.blockSize - n)
  }

  /** fetch_block; `reply` is used if the provider is asked. */
  function Fetch(cfg: Config, c: Cache, block: nat, reply: Reply): (r: (Cache, Status))
    requires Shaped(cfg, c)
    ensures Shaped(cfg, r.0)
  {
    if block == c.curr then (c, Fetched)
    else if block >= cfg.fileBlocks then (c.(curr := block, data := Zeros(cfg.blockSize)), Fetched)
    else
      var data := Filled(cfg, block, reply.bytes);
      if reply.Failure? then (c.(data := data), ProviderFailed)
      else if cfg.hash(data) == c.hashes[block] then (c.(curr := block, data := data), Fetched)
      else if c.hashes[block] != UNREAD then (c.(curr := NOTHING, data := data), Mismatch)
      else (c.(curr := block, data := data, hashes := c.hashes[block := cfg.hash(data)]), Fetched)
  }

  /** A read request: what the kernel asks, and what the provider would answer meanwhile. */
  datatype Request = Request(offset: nat, size: nat, first: Reply, second: Reply)

  /** The read goes over into the next block. */
  predicate Spans(cfg: Config, req: Request)
    requires cfg.blockSize > 0
  {
    req.size + Within(cfg.blockSize, req.offset) > cfg.blockSize
  }

  /** The mount option max_read=block_size; blocks are uint32_t and never the one that means nothing. */
  predicate Proper(cfg: Config, req: Request)
    requires cfg.blockSize > 0
  {
    req.size <= cfg.blockSize && BlockOf(cfg.blockSize, req.offset) + (if Spans(cfg, req) then 1 else 0) < NOTHING
  }

  /** handle_read: the reply, if any. */
  function Read(cfg: Config, c: Cache, req: Request): (r: (Cache, Option<seq<byte>>))
    requires Shaped(cfg, c) && Proper(cfg, req)
    ensures Shaped(cfg, r.0) && (r.1.Some? ==> |r.1.value| == req.size)
  {
    var block := BlockOf(cfg.blockSize, req.offset);
    var (c1, status) := Fetch(cfg, c, block, req.first);
    if status != Fetched then (c1, None)
    else
      var at := Within(cfg.blockSize, req.offset);
      if !Spans(cfg, req) then (c1, Some(c1.data[at..at + req.size]))
      else
        var (c2, status') := Fetch(cfg, c1, block + 1, req.second);
        if status' != Fetched then (c2, None)
        else (c2, Some(c1.data[at..] + c2.data[..req.size - (cfg.blockSize - at)]))
  }

  function Mounted(cfg: Config): (c: Cache)
    requires Valid(cfg)
    ensures Shaped(cfg, c)
  {
    Cache(NOTHING, Zeros(cfg.blockSize), seq(cfg.fileBlocks, _ => UNREAD))
  }

  // ----- first-read consistency

  /** SHA-256 has no collisions on blocks and is never all zero. */
  ghost predicate GoodHash(cfg: Config) {
    CollisionFree(cfg.hash, cfg.blockSize) && NeverZero(cfg.hash, cfg.blockSize)
  }

  ghost predicate CollisionFree(hash: seq<byte> -> Digest, n: nat) {
    forall x, y :: |x| == n && |y| == n && hash(x) == hash(y) ==> x == y
  }

  ghost predicate NeverZero(hash: seq<byte> -> Digest, n: nat) {
    forall x :: |x| == n ==> hash(x) != UNREAD
  }

  /** The cached block is the one whose hash is recorded, with zeros behind what was fetched. */
  ghost predicate Coherent(cfg: Config, c: Cache)
    requires Shaped(cfg, c)
  {
    || c.curr == NOTHING
    || (c.curr < cfg.fileBlocks && c.hashes[c.curr] == cfg.hash(c.data) && Filled(cfg, c.curr, c.data) == c.data)
    || (cfg.fileBlocks <= c.curr < NOTHING && c.data == Zeros(cfg.blockSize))
  }

  /** A recorded hash is never replaced. */
  ghost predicate Later(before: seq<Digest>, after: seq<Digest>) {
    |before| == |after| && forall b :: 0 <= b < |before| && before[b] != UNREAD ==> after[b] == before[b]
  }

  /** Whole blocks: `x` is what block `b` holds according to the recorded hashes. */
  ghost predicate Recorded(cfg: Config, hashes: seq<Digest>, b: nat, x: seq<byte>)
    requires Valid(cfg) && |hashes| == cfg.fileBlocks
  {
    |x| == cfg.blockSize && if b < cfg.fileBlocks then hashes[b] == cfg.hash(x) else x == Zeros(cfg.blockSize)
  }

  /** The byte at a position of the file, according to the recorded hashes. */
  ghost predicate Pinned(cfg: Config, hashes: seq<Digest>, pos: nat, v: byte)
    requires Valid(cfg) && |hashes| == cfg.fileBlocks
  {
    exists x: seq<byte> :: Recorded(cfg, hashes, BlockOf(cfg.blockSize, pos), x) && x[Within(cfg.blockSize, pos)] == v
  }

  lemma PinnedOnce(cfg: Config, hashes: seq<Digest>, pos: nat, v: byte, w: byte)
    requires Valid(cfg) && |hashes| == cfg.fileBlocks && GoodHash(cfg)
    requires Pinned(cfg, hashes, pos, v) && Pinned(cfg, hashes, pos, w)
    ensures v == w
  {}

  lemma PinnedStays(cfg: Config, before: seq<Digest>, after: seq<Digest>, pos: nat, v: byte)
    requires Valid(cfg) && |before| == cfg.fileBlocks && GoodHash(cfg)
    requires Pinned(cfg, before, pos, v) && Later(before, after)
    ensures Pinned(cfg, after, pos, v)
  {
    var x :| Recorded(cfg, before, BlockOf(cfg.blockSize, pos), x) && x[Within(cfg.blockSize, pos)] == v;
    assert Recorded(cfg, after, BlockOf(cfg.blockSize, pos), x);
  }

  lemma FetchIsCoherent(cfg: Config, c: Cache, block: nat, reply: Reply)
    requires Shaped(cfg, c) && GoodHash(cfg) && Coherent(cfg, c) && block < NOTHING
    ensures var (c', status) := Fetch(cfg, c, block, reply);
            && Later(c.hashes, c'.hashes)
            && (status == Fetched ==> Recorded(cfg, c'.hashes, block, c'.data) && c'.curr == block)
            && (status != ProviderFailed ==> Coherent(cfg, c'))
            && (status == ProviderFailed ==> (Coherent(cfg, c') <==> c.curr == NOTHING || c'.data == c.data))
  {
    hide Filled, BlockOf, Within, BlocksFor;
    if block < cfg.fileBlocks { FilledTwice(cfg, block, reply.bytes); }
  }

  lemma FilledTwice(cfg: Config, block: nat, bytes: seq<byte>)
    requires Valid(cfg) && block < cfg.fileBlocks
    ensures Filled(cfg, block, Filled(cfg, block, bytes)) == Filled(cfg, block, bytes)
  {
    hide FetchSize, BlocksFor;
    FetchSizeFits(cfg, block);
  }

  /** Two consecutive blocks and the window that a read takes out of them. */
  lemma WindowIsPinned(cfg: Config, hashes: seq<Digest>, offset: nat, x: seq<byte>, y: seq<byte>, out: seq<byte>)
    requires Valid(cfg) && |hashes| == cfg.fileBlocks
    requires var (block, at) := (BlockOf(cfg.blockSize, offset), Within(cfg.blockSize, offset));
             && Recorded(cfg, hashes, block, x)
             && |out| <= cfg.blockSize
             && if |out| + at <= cfg.blockSize then out == x[at..at + |out|]
                else Recorded(cfg, hashes, block + 1, y) && out == x[at..] + y[..|out| - (cfg.blockSize - at)]
    ensures forall k :: 0 <= k < |out| ==> Pinned(cfg, hashes, offset + k, out[k])
  {
    hide Recorded, BlockOf, Within, BlocksFor;
    assert |x| == cfg.blockSize by { RecordedSize(cfg, hashes, BlockOf(cfg.blockSize, offset), x); }
    forall k | 0 <= k < |out| ensures Pinned(cfg, hashes, offset + k, out[k]) {
      var pos := offset + k;
      var (block, at) := (BlockOf(cfg.blockSize, offset), Within(cfg.blockSize, offset));
      PositionInBlock(offset, pos, cfg.blockSize);
      if k + at < cfg.blockSize {
        assert out[k] == x[at + k];
      } else {
        assert |y| == cfg.blockSize by { RecordedSize(cfg, hashes, block + 1, y); }
        assert out[k] == y[k - (cfg.blockSize - at)];
      }
    }
  }

  lemma RecordedSize(cfg: Config, hashes: seq<Digest>, b: nat, x: seq<byte>)
    requires Valid(cfg) && |hashes| == cfg.fileBlocks && Recorded(cfg, hashes, b, x)
    ensures |x| == cfg.blockSize
  {}

  lemma PositionInBlock(offset: nat, pos: nat, n: nat)
    requires n > 0 && offset <= pos < offset + n
    ensures var (block, at) := (BlockOf(n, offset), Within(n, offset));
            if pos - offset + at < n then BlockOf(n, pos) == block && Within(n, pos) == at + (pos - offset)
            else BlockOf(n, pos) == block + 1 && Within(n, pos) == pos - offset + at - n
    decreases offset
  {
    if offset >= n { PositionInBlock(offset - n, pos - n, n); }
  }

  /** A failed fetch does no harm: nothing was cached, or the buffer is as it was. */
  ghost predicate Quiet(cfg: Config, c: Cache, block: nat, reply: Reply)
    requires Shaped(cfg, c)
  {
    var (c', status) := Fetch(cfg, c, block, reply);
    status == ProviderFailed ==> c.curr == NOTHING || c'.data == c.data
  }

  ghost predicate QuietRead(cfg: Config, c: Cache, req: Request)
    requires Shaped(cfg, c) && Proper(cfg, req)
  {
    var block := BlockOf(cfg.blockSize, req.offset);
    var (c1, status) := Fetch(cfg, c, block, req.first);
    && Quiet(cfg, c, block, req.first)
    && (status == Fetched && Spans(cfg, req) ==> Quiet(cfg, c1, block + 1, req.second))
  }

  lemma ReadIsPinned(cfg: Config, c: Cache, req: Request)
    requires Shaped(cfg, c) && GoodHash(cfg) && Coherent(cfg, c) && Proper(cfg, req)
    requires QuietRead(cfg, c, req)
    ensures var (c', out) := Read(cfg, c, req);
            && Later(c.hashes, c'.hashes) && Coherent(cfg, c')
            && (out.Some? ==>
                  && |out.value| == req.size
                  && forall k :: 0 <= k < req.size ==> Pinned(cfg, c'.hashes, req.offset + k, out.value[k]))
  {
    hide Fetch, Coherent, BlockOf, Within, BlocksFor, Pinned, Recorded, Later, GoodHash;
    var (block, at) := (BlockOf(cfg.blockSize, req.offset), Within(cfg.blockSize, req.offset));
    var (c1, status) := Fetch(cfg, c, block, req.first);
    FetchIsCoherent(cfg, c, block, req.first);
    if status == Fetched {
      if !Spans(cfg, req) {
        WindowIsPinned(cfg, c1.hashes, req.offset, c1.data, [], c1.data[at..at + req.size]);
      } else {
        var (c2, status') := Fetch(cfg, c1, block + 1, req.second);
        FetchIsCoherent(cfg, c1, block + 1, req.second);
        LaterIsTransitive(c.hashes, c1.hashes, c2.hashes);
        if status' == Fetched {
          RecordedStays(cfg, c1.hashes, c2.hashes, block, c1.data);
          WindowIsPinned(cfg, c2.hashes, req.offset, c1.data, c2.data,
                         c1.data[at..] + c2.data[..req.size - (cfg.blockSize - at)]);
        }
      }
    }
  }

  lemma LaterIsTransitive(a: seq<Digest>, b: seq<Digest>, c: seq<Digest>)
    requires Later(a, b) && Later(b, c)
    ensures Later(a, c)
  {}

  lemma DataNeverFails(cfg: Config, c: Cache, block: nat, reply: Reply)
    requires Shaped(cfg, c) && reply.Data?
    ensures Fetch(cfg, c, block, reply).1 != ProviderFailed
  {}

  lemma RecordedStays(cfg: Config, before: seq<Digest>, after: seq<Digest>, b: nat, x: seq<byte>)
    requires Valid(cfg) && |before| == cfg.fileBlocks && GoodHash(cfg)
    requires Recorded(cfg, before, b, x) && Later(before, after)
    ensures Recorded(cfg, after, b, x)
  {}

  // ----- whole sessions

  predicate AllProper(cfg: Config, reqs: seq<Request>)
    requires cfg.blockSize > 0
  {
    forall k :: 0 <= k < |reqs| ==> Proper(cfg, reqs[k])
  }

  /** The replies to a sequence of requests, and the cache at the end. */
  function Serve(cfg: Config, c: Cache, reqs: seq<Request>): (r: (Cache, seq<Option<seq<byte>>>))
    requires Shaped(cfg, c) && AllProper(cfg, reqs)
    ensures |r.1| == |reqs| && Shaped(cfg, r.0)
    ensures forall k :: 0 <= k < |reqs| && r.1[k].Some? ==> |r.1[k].value| == reqs[k].size
    decreases |reqs|
  {
    if reqs == [] then (c, [])
    else
      var (c1, out) := Read(cfg, c, reqs[0]);
      var (c2, outs) := Serve(cfg, c1, reqs[1..]);
      (c2, [out] + outs)
  }

  /** The provider may say anything, but it never reports a failure. */
  ghost predicate NeverFails(reqs: seq<Request>) {
    forall k :: 0 <= k < |reqs| ==> reqs[k].first.Data? && reqs[k].second.Data?
  }

  ghost predicate QuietSession(cfg: Config, c: Cache, reqs: seq<Request>)
    requires Shaped(cfg, c) && AllProper(cfg, reqs)
    decreases |reqs|
  {
    reqs != [] ==> QuietRead(cfg, c, reqs[0]) && QuietSession(cfg, Read(cfg, c, reqs[0]).0, reqs[1..])
  }

  lemma {:induction false} NeverFailingIsQuiet(cfg: Config, c: Cache, reqs: seq<Request>)
    requires Shaped(cfg, c) && AllProper(cfg, reqs)
    requires NeverFails(reqs)
    ensures QuietSession(cfg, c, reqs)
    decreases |reqs|
  {
    hide Read, Fetch, BlockOf, Within, BlocksFor, Proper;
    if reqs != [] {
      var block := BlockOf(cfg.blockSize, reqs[0].offset);
      DataNeverFails(cfg, c, block, reqs[0].first);
      DataNeverFails(cfg, Fetch(cfg, c, block, reqs[0].first).0, block + 1, reqs[0].second);
      NeverFailingIsQuiet(cfg, Read(cfg, c, reqs[0]).0, reqs[1..]);
    }
  }

  ghost predicate ReplyPinned(cfg: Config, hashes: seq<Digest>, req: Request, out: Option<seq<byte>>)
    requires Valid(cfg) && |hashes| == cfg.fileBlocks
  {
    out.Some? ==>
      && |out.value| == req.size
      && forall k :: 0 <= k < req.size ==> Pinned(cfg, hashes, req.offset + k, out.value[k])
  }

  lemma ReplyStays(cfg: Config, before: seq<Digest>, after: seq<Digest>, req: Request, out: Option<seq<byte>>)
    requires Valid(cfg) && |before| == cfg.fileBlocks && GoodHash(cfg) && Later(before, after)
    requires ReplyPinned(cfg, before, req, out)
    ensures ReplyPinned(cfg, after, req, out)
  {
    hide Pinned, BlockOf, Within, BlocksFor;
    if out.Some? {
      forall k | 0 <= k < req.size ensures Pinned(cfg, after, req.offset + k, out.value[k]) {
        PinnedStays(cfg, before, after, req.offset + k, out.value[k]);
      }
    }
  }

  lemma {:induction false} SessionIsPinned(cfg: Config, c: Cache, reqs: seq<Request>)
    requires Shaped(cfg, c) && GoodHash(cfg) && Coherent(cfg, c)
    requires AllProper(cfg, reqs) && QuietSession(cfg, c, reqs)
    ensures var (c', outs) := Serve(cfg, c, reqs);
            && Later(c.hashes, c'.hashes)
            && forall k :: 0 <= k < |reqs| ==> ReplyPinned(cfg, c'.hashes, reqs[k], outs[k])
    decreases |reqs|
  {
    hide Read, Coherent, BlockOf, Within, BlocksFor, Proper, ReplyPinned, QuietRead;
    if reqs != [] {
      var (c1, out) := Read(cfg, c, reqs[0]);
      ReadIsPinned(cfg, c, reqs[0]);
      SessionIsPinned(cfg, c1, reqs[1..]);
      var (c', outs) := Serve(cfg, c1, reqs[1..]);
      assert ReplyPinned(cfg, c1.hashes, reqs[0], out) by { ReplyUnfolds(cfg, c1.hashes, reqs[0], out); }
      ReplyStays(cfg, c1.hashes, c'.hashes, reqs[0], out);
      forall k | 0 <= k < |reqs| ensures ReplyPinned(cfg, c'.hashes, reqs[k], ([out] + outs)[k]) {
        if k > 0 { assert reqs[k] == reqs[1..][k - 1]; }
      }
    }
  }

  lemma ReplyUnfolds(cfg: Config, hashes: seq<Digest>, req: Request, out: Option<seq<byte>>)
    requires Valid(cfg) && |hashes| == cfg.fileBlocks
    requires out.Some? ==>
               && |out.value| == req.size
               && forall k :: 0 <= k < req.size ==> Pinned(cfg, hashes, req.offset + k, out.value[k])
    ensures ReplyPinned(cfg, hashes, req, out)
  {}

  lemma MountedIsCoherent(cfg: Config)
    requires Valid(cfg)
    ensures Coherent(cfg, Mounted(cfg))
  {}

  predicate Contains(req: Request, pos: nat) { req.offset <= pos < req.offset + req.size }

  /** Any two successful replies agree on every position of the file that both contain. */
  ghost predicate Consistent(cfg: Config, reqs: seq<Request>)
    requires Valid(cfg) && AllProper(cfg, reqs)
  {
    var outs := Serve(cfg, Mounted(cfg), reqs).1;
    forall i, j, pos: nat ::
      0 <= i < |reqs| && 0 <= j < |reqs| && Contains(reqs[i], pos) && Contains(reqs[j], pos) &&
      outs[i].Some? && outs[j].Some? ==>
        outs[i].value[pos - reqs[i].offset] == outs[j].value[pos - reqs[j].offset]
  }

  /** First-read consistency, in every session in which no failed fetch disturbs a cached block. */
  lemma FirstReadConsistency(cfg: Config, reqs: seq<Request>)
    requires Valid(cfg) && GoodHash(cfg) && AllProper(cfg, reqs) && QuietSession(cfg, Mounted(cfg), reqs)
    ensures Consistent(cfg, reqs)
  {
    hide Serve, BlockOf, Within, BlocksFor, Pinned, Proper, QuietSession, GoodHash, Mounted;
    assert Coherent(cfg, Mounted(cfg)) by { MountedIsCoherent(cfg); }
    SessionIsPinned(cfg, Mounted(cfg), reqs);
    var (c', outs) := Serve(cfg, Mounted(cfg), reqs);
    forall i, j, pos: nat | 0 <= i < |reqs| && 0 <= j < |reqs| && Contains(reqs[i], pos) && Contains(reqs[j], pos) &&
      outs[i].Some? && outs[j].Some?
      ensures outs[i].value[pos - reqs[i].offset] == outs[j].value[pos - reqs[j].offset]
    {
      assert ReplyPinned(cfg, c'.hashes, reqs[i], outs[i]) && ReplyPinned(cfg, c'.hashes, reqs[j], outs[j]);
      PinnedOnce(cfg, c'.hashes, pos, outs[i].value[pos - reqs[i].offset], outs[j].value[pos - reqs[j].offset]);
    }
  }

  // ----- failed fetches that disturb a cached block

  /** Read a position, look at some other block, and read the position again from a provider that has `data`. */
  function Probe(cfg: Config, pos: nat, other: nat, data: seq<byte>): (reqs: seq<Request>)
    ensures NeverFails(reqs)
  {
    [Request(pos, 1, Data([]), Data([])), Request(StartOf(cfg, other), 1, Data([]), Data([])),
     Request(pos, 1, Data(data), Data([]))]
  }

  lemma OneByteRead(cfg: Config, c: Cache, block: nat, k: nat, reply: Reply)
    requires Shaped(cfg, c) && block < NOTHING && k < cfg.blockSize
    ensures var req := Request(StartOf(cfg, block) + k, 1, reply, Data([]));
            && Proper(cfg, req)
            && var (c', status) := Fetch(cfg, c, block, reply);
               Read(cfg, c, req) == (c', if status == Fetched then Some([c'.data[k]]) else None)
  {
    hide Fetch, BlocksFor, BlockOf, Within;
    BlockIs(cfg.blockSize, block, k);
    var c' := Fetch(cfg, c, block, reply).0;
    assert c'.data[k..k + 1] == [c'.data[k]];
  }

  /**
   * After a failed fetch that disturbs the cached block, one byte of the block is read differently
   * before and after it is fetched again.
   */
  lemma DisturbedProbe(cfg: Config, c: Cache, block: nat, reply: Reply) returns (pos: nat, other: nat)
    requires Shaped(cfg, c) && GoodHash(cfg) && Coherent(cfg, c) && !Quiet(cfg, c, block, reply)
    ensures var (c', reqs) := (Fetch(cfg, c, block, reply).0, Probe(cfg, pos, other, c.data));
            && AllProper(cfg, reqs)
            && var outs := Serve(cfg, c', reqs).1;
               outs[0].Some? && outs[2].Some? && outs[0].value != outs[2].value
  {
    hide BlocksFor, BlockOf, Within, Filled, GoodHash, Proper, Read;
    var c' := Fetch(cfg, c, block, reply).0;
    assert c'.data != c.data && c'.hashes == c.hashes && c'.curr == c.curr;
    var k := FirstDifference(c.data, c'.data);
    pos := StartOf(cfg, c.curr) + k;
    other := if c.curr == cfg.fileBlocks then cfg.fileBlocks + 1 else cfg.fileBlocks;
    var reqs := Probe(cfg, pos, other, c.data);
    var c2 := Fetch(cfg, c', other, Data([])).0;
    var c3 := Fetch(cfg, c2, c.curr, Data(c.data)).0;
    assert c2.curr == other && c2.hashes == c.hashes;
    assert c3.data == c.data && Fetch(cfg, c2, c.curr, Data(c.data)).1 == Fetched;
    OneByteRead(cfg, c', c.curr, k, Data([]));
    OneByteRead(cfg, c', other, 0, Data([]));
    OneByteRead(cfg, c2, c.curr, k, Data(c.data));
    ServesThree(cfg, c', reqs);
  }

  lemma ServesThree(cfg: Config, c: Cache, reqs: seq<Request>)
    requires Shaped(cfg, c) && AllProper(cfg, reqs) && |reqs| == 3
    ensures var (c1, out1) := Read(cfg, c, reqs[0]);
            var (c2, out2) := Read(cfg, c1, reqs[1]);
            var (c3, out3) := Read(cfg, c2, reqs[2]);
            Serve(cfg, c, reqs) == (c3, [out1, out2, out3])
  {
    hide Read, Proper;
    var tail := reqs[1..];
    var last := tail[1..];
    assert tail[0] == reqs[1] && last[0] == reqs[2] && last[1..] == [];
    var (c1, out1) := Read(cfg, c, reqs[0]);
    var (c2, out2) := Read(cfg, c1, reqs[1]);
    var (c3, out3) := Read(cfg, c2, reqs[2]);
    assert [out3] + [] == [out3] && [out2] + [out3] == [out2, out3] && [out1] + [out2, out3] == [out1, out2, out3];
    assert Serve(cfg, c3, last[1..]) == (c3, []);
    assert Serve(cfg, c2, last) == (c3, [out3]);
    assert Serve(cfg, c1, tail) == (c3, [out2, out3]);
  }

  /** The state in which an unquiet read leaves the cache. */
  lemma UnquietProbe(cfg: Config, c: Cache, req: Request) returns (pos: nat, other: nat, data: seq<byte>)
    requires Shaped(cfg, c) && GoodHash(cfg) && Coherent(cfg, c) && Proper(cfg, req) && !QuietRead(cfg, c, req)
    ensures var reqs := Probe(cfg, pos, other, data);
            && AllProper(cfg, reqs)
            && var outs := Serve(cfg, Read(cfg, c, req).0, reqs).1;
               outs[0].Some? && outs[2].Some? && outs[0].value != outs[2].value
  {
    hide Fetch, BlocksFor, BlockOf, Within, GoodHash, Coherent, Serve, Probe;
    var block := BlockOf(cfg.blockSize, req.offset);
    var c1 := Fetch(cfg, c, block, req.first).0;
    if !Quiet(cfg, c, block, req.first) {
      pos, other := DisturbedProbe(cfg, c, block, req.first);
      data := c.data;
    } else {
      FetchIsCoherent(cfg, c, block, req.first);
      pos, other := DisturbedProbe(cfg, c1, block + 1, req.second);
      data := c1.data;
    }
  }

  /** An unquiet session has a beginning, and that a continuation, in which two replies disagree. */
  lemma {:induction false} UnquietSession(cfg: Config, c: Cache, reqs: seq<Request>)
    returns (n: nat, more: seq<Request>)
    requires Shaped(cfg, c) && GoodHash(cfg) && Coherent(cfg, c)
    requires AllProper(cfg, reqs) && !QuietSession(cfg, c, reqs)
    ensures n <= |reqs| && |more| == 3 && NeverFails(more) && AllProper(cfg, reqs[..n] + more)
    ensures more[0].offset == more[2].offset && more[0].size == more[2].size == 1
    ensures var outs := Serve(cfg, c, reqs[..n] + more).1;
            outs[n].Some? && outs[n + 2].Some? && outs[n].value != outs[n + 2].value
    decreases |reqs|
  {
    hide Read, Coherent, BlockOf, Within, BlocksFor, Proper, QuietRead, GoodHash;
    var c1 := Read(cfg, c, reqs[0]).0;
    if !QuietRead(cfg, c, reqs[0]) {
      var pos, other, data := UnquietProbe(cfg, c, reqs[0]);
      n, more := 1, Probe(cfg, pos, other, data);
    } else {
      ReadIsPinned(cfg, c, reqs[0]);
      n, more := UnquietSession(cfg, c1, reqs[1..]);
      assert reqs[..n + 1][1..] == reqs[1..][..n];
      n := n + 1;
    }
    var all := reqs[..n] + more;
    assert all[0] == reqs[0] && all[1..] == reqs[1..][..n - 1] + more;
    assert Serve(cfg, c, all).1 == [Read(cfg, c, reqs[0]).1] + Serve(cfg, c1, all[1..]).1;
  }

  lemma {:induction false} QuietPrefix(cfg: Config, c: Cache, reqs: seq<Request>, n: nat, more: seq<Request>)
    requires Shaped(cfg, c) && AllProper(cfg, reqs) && QuietSession(cfg, c, reqs)
    requires n <= |reqs| && AllProper(cfg, more) && NeverFails(more)
    ensures AllProper(cfg, reqs[..n] + more) && QuietSession(cfg, c, reqs[..n] + more)
    decreases n
  {
    hide Read, Proper, QuietRead;
    if n == 0 {
      assert reqs[..0] + more == more;
      NeverFailingIsQuiet(cfg, c, more);
    } else {
      QuietPrefix(cfg, Read(cfg, c, reqs[0]).0, reqs[1..], n - 1, more);
      assert (reqs[..n] + more)[1..] == reqs[1..][..n - 1] + more;
    }
  }

  /**
   * Exactly the quiet sessions are safe: however such a session is cut short and continued by a
   * provider that does not fail, whatever it says, all replies agree with each other.
   */
  lemma ConsistentIffQuiet(cfg: Config, reqs: seq<Request>)
    requires Valid(cfg) && GoodHash(cfg) && AllProper(cfg, reqs)
    ensures QuietSession(cfg, Mounted(cfg), reqs) <==>
            forall n: nat, more :: n <= |reqs| && AllProper(cfg, more) && NeverFails(more) ==>
              AllProper(cfg, reqs[..n] + more) && Consistent(cfg, reqs[..n] + more)
  {
    hide Serve, BlockOf, Within, BlocksFor, Proper, QuietSession, GoodHash, Mounted, Consistent, NeverFails;
    assert Coherent(cfg, Mounted(cfg)) by { MountedIsCoherent(cfg); }
    if QuietSession(cfg, Mounted(cfg), reqs) {
      forall n: nat, more | n <= |reqs| && AllProper(cfg, more) && NeverFails(more)
        ensures AllProper(cfg, reqs[..n] + more) && Consistent(cfg, reqs[..n] + more)
      {
        QuietPrefix(cfg, Mounted(cfg), reqs, n, more);
        FirstReadConsistency(cfg, reqs[..n] + more);
      }
    } else {
      var n, more := UnquietSession(cfg, Mounted(cfg), reqs);
      Disagreement(cfg, reqs[..n] + more, n, n + 2);
      forall k | 0 <= k < 3 ensures Proper(cfg, more[k]) { assert more[k] == (reqs[..n] + more)[n + k]; }
    }
  }

  lemma Disagreement(cfg: Config, reqs: seq<Request>, i: nat, j: nat)
    requires Valid(cfg) && AllProper(cfg, reqs) && i < |reqs| && j < |reqs|
    requires reqs[i].offset == reqs[j].offset && reqs[i].size == reqs[j].size == 1
    requires var outs := Serve(cfg, Mounted(cfg), reqs).1;
             outs[i].Some? && outs[j].Some? && outs[i].value != outs[j].value
    ensures !Consistent(cfg, reqs)
  {
    hide Serve, BlockOf, Within, BlocksFor, Proper, Mounted;
    var pos := reqs[i].offset;
    assert Contains(reqs[i], pos) && Contains(reqs[j], pos);
  }

  /** A session whose first and last replies disagree, for every file of more than one block. */
  lemma DisturbedSession(cfg: Config) returns (reqs: seq<Request>)
    requires Valid(cfg) && cfg.fileBlocks >= 2
    ensures AllProper(cfg, reqs) && |reqs| == 3 && reqs[0].offset == reqs[2].offset
    ensures Serve(cfg, Mounted(cfg), reqs).1 == [Some([5]), None, Some([6])]
    ensures !Consistent(cfg, reqs)
  {
    hide BlocksFor, BlockOf, Within, Proper, Read, FetchSize, Consistent;
    reqs := [Request(StartOf(cfg, 0) + 0, 1, Data([5]), Data([])),
             Request(StartOf(cfg, 1) + 0, 1, Failure([6]), Data([])),
             Request(StartOf(cfg, 0) + 0, 1, Data([]), Data([]))];
    var c := Mounted(cfg);
    FetchSizeFits(cfg, 0);
    FetchSizeFits(cfg, 1);
    var c1 := Fetch(cfg, c, 0, Data([5])).0;
    var c2 := Fetch(cfg, c1, 1, Failure([6])).0;
    assert c1.curr == 0 && c1.data[0] == 5 && c2.curr == 0 && c2.data[0] == 6;
    OneByteRead(cfg, c, 0, 0, Data([5]));
    OneByteRead(cfg, c1, 1, 0, Failure([6]));
    OneByteRead(cfg, c2, 0, 0, Data([]));
    ServesThree(cfg, c, reqs);
    Disagreement(cfg, reqs, 0, 2);
  }

  lemma FirstDifference(x: seq<byte>, y: seq<byte>) returns (k: nat)
    requires |x| == |y| && x != y
    ensures k < |x| && x[k] != y[k]
  {
    k :| k < |x| && x[k] != y[k];
  }

  lemma {:induction false} BlockIs(n: nat, block: nat, k: nat)
    requires k < n
    ensures BlockOf(n, block * n + k) == block && Within(n, block * n + k) == k
  {
    if block > 0 {
      assert block * n + k - n == (block - 1) * n + k;
      BlockIs(n, block - 1, k);
    }
  }

  // ----- an honest provider

  function ByteOf(file: seq<byte>, pos: nat): (v: byte) {
    if pos < |file| then file[pos] else 0
  }

  /** A block of the file, extended with zeros. */
  function FileBlock(cfg: Config, file: seq<byte>, block: nat): (s: seq<byte>)
    ensures |s| == cfg.blockSize
    ensures forall k :: 0 <= k < cfg.blockSize ==> s[k] == ByteOf(file, StartOf(cfg, block) + k)
  {
    var start: nat := StartOf(cfg, block);
    seq<byte>(cfg.blockSize, (k: nat) => ByteOf(file, start + k))
  }

  /** The provider reads exactly what is asked for, or fails when that goes past the end of the file. */
  ghost predicate Honest(cfg: Config, file: seq<byte>, block: nat, reply: Reply) {
    block < cfg.fileBlocks ==> ReadsFully(file, StartOf(cfg, block), FetchSize(cfg, block), reply)
  }

  ghost predicate ReadsFully(file: seq<byte>, start: nat, n: int, reply: Reply) {
    if 0 <= n && start + n <= |file| then reply == Data(file[start..start + n]) else reply.Failure?
  }

  /** No fetch reaches past the end of the file because of the 32-bit product. */
  predicate Reachable(cfg: Config) {
    cfg.fileBlocks == 0 || StartOf(cfg, cfg.fileBlocks - 1) < TWO_32 || StartOf(cfg, cfg.fileBlocks) == cfg.fileSize
  }

  /** The provider can serve this block: it is not the last partial block, or its product does not wrap. */
  predicate Servable(cfg: Config, block: nat) {
    Reachable(cfg) || block + 1 != cfg.fileBlocks
  }

  lemma ServableIff(cfg: Config, block: nat)
    requires Valid(cfg) && block < cfg.fileBlocks
    ensures Servable(cfg, block) <==> StartOf(cfg, block) + FetchSize(cfg, block) <= cfg.fileSize
  {
    hide FetchSize, BlockOf, BlocksFor, StartOf;
    FetchSizeFits(cfg, block);
    BlockStart(cfg, block);
    NextStart(cfg, block);
  }

  lemma FilledIsFileBlock(cfg: Config, file: seq<byte>, block: nat, reply: Reply)
    requires Valid(cfg) && |file| == cfg.fileSize && block < cfg.fileBlocks
    requires Honest(cfg, file, block, reply) && Servable(cfg, block)
    ensures reply.Data? && Filled(cfg, block, reply.bytes) == FileBlock(cfg, file, block)
  {
    hide FetchSize, BlockOf, BlocksFor, Servable, FileBlock, Resized, Honest, Valid, StartOf;
    HonestData(cfg, file, block, reply);
    var (start, n) := (StartOf(cfg, block), FetchSize(cfg, block));
    PaddedSlice(file, start, n, cfg.blockSize, FileBlock(cfg, file, block));
  }

  /** A whole block, or what is left of the file. */
  ghost predicate WholeOrLast(file: seq<byte>, start: nat, n: int, size: nat, reply: Reply) {
    && 0 < n <= size && start + n <= |file| && (n < size ==> start + n == |file|)
    && reply == Data(file[start..start + n])
  }

  lemma HonestData(cfg: Config, file: seq<byte>, block: nat, reply: Reply)
    requires Valid(cfg) && |file| == cfg.fileSize && block < cfg.fileBlocks
    requires Honest(cfg, file, block, reply) && Servable(cfg, block)
    ensures WholeOrLast(file, StartOf(cfg, block), FetchSize(cfg, block), cfg.blockSize, reply)
  {
    hide FetchSize, BlockOf, BlocksFor, Servable, Valid, ReadsFully, StartOf;
    var (start, n) := (StartOf(cfg, block), FetchSize(cfg, block));
    assert 0 < n <= cfg.blockSize && (n < cfg.blockSize ==> start + n == cfg.fileSize) by { FetchSizeFits(cfg, block); }
    assert start + n <= cfg.fileSize by { ServableIff(cfg, block); }
    FullyRead(file, start, n, reply);
  }

  lemma FullyRead(file: seq<byte>, start: nat, n: nat, reply: Reply)
    requires start + n <= |file| && ReadsFully(file, start, n, reply)
    ensures reply == Data(file[start..start + n])
  {}

  lemma PaddedSlice(file: seq<byte>, start: nat, n: nat, size: nat, x: seq<byte>)
    requires start + n <= |file| && n <= size && (n < size ==> start + n == |file|)
    requires |x| == size && forall k :: 0 <= k < size ==> x[k] == ByteOf(file, start + k)
    ensures Resized(file[start..start + n], n) + Zeros(size - n) == x
  {
    var data := Resized(file[start..start + n], n) + Zeros(size - n);
    forall k | 0 <= k < size ensures data[k] == x[k] {
      if k < n { assert data[k] == file[start + k]; }
    }
  }

  ghost predicate Mirrors(cfg: Config, file: seq<byte>, c: Cache)
    requires Shaped(cfg, c)
  {
    && (c.curr == NOTHING || c.data == FileBlock(cfg, file, c.curr))
    && (forall b :: 0 <= b < |c.hashes| ==> c.hashes[b] == UNREAD || c.hashes[b] == cfg.hash(FileBlock(cfg, file, b)))
  }

  lemma HonestFetch(cfg: Config, file: seq<byte>, c: Cache, block: nat, reply: Reply)
    requires Shaped(cfg, c) && |file| == cfg.fileSize && Mirrors(cfg, file, c) && block < NOTHING
    requires Honest(cfg, file, block, reply) && (c.curr == block || Servable(cfg, block))
    ensures var (c', status) := Fetch(cfg, c, block, reply);
            status == Fetched && Mirrors(cfg, file, c') && c'.data == FileBlock(cfg, file, block)
  {
    hide FileBlock, Filled, BlockOf, BlocksFor, Servable, Honest;
    if block != c.curr {
      if block < cfg.fileBlocks {
        FilledIsFileBlock(cfg, file, block, reply);
      } else {
        PastTheEnd(cfg, file, block);
      }
    }
  }

  lemma PastTheEnd(cfg: Config, file: seq<byte>, block: nat)
    requires Valid(cfg) && |file| == cfg.fileSize && block >= cfg.fileBlocks
    ensures FileBlock(cfg, file, block) == Zeros(cfg.blockSize)
  {
    if cfg.fileSize > 0 {
      BlockStart(cfg, cfg.fileBlocks - 1);
      MulMono(cfg.fileBlocks, block, cfg.blockSize);
      NextStart(cfg, cfg.fileBlocks - 1);
    }
  }

  /** The reply is the requested slice of the file, extended with zeros. */
  ghost predicate Exact(file: seq<byte>, req: Request, out: Option<seq<byte>>) {
    && out.Some? && |out.value| == req.size
    && forall k :: 0 <= k < req.size ==> out.value[k] == ByteOf(file, req.offset + k)
  }

  ghost predicate HonestRead(cfg: Config, file: seq<byte>, req: Request)
    requires cfg.blockSize > 0
  {
    var block := BlockOf(cfg.blockSize, req.offset);
    Proper(cfg, req) && Honest(cfg, file, block, req.first) && Honest(cfg, file, block + 1, req.second)
  }

  lemma HonestReadIsExact(cfg: Config, file: seq<byte>, c: Cache, req: Request)
    requires Shaped(cfg, c) && |file| == cfg.fileSize && Mirrors(cfg, file, c)
    requires HonestRead(cfg, file, req) && Reachable(cfg)
    ensures var (c', out) := Read(cfg, c, req); Mirrors(cfg, file, c') && Exact(file, req, out)
  {
    hide FileBlock, Fetch, Honest, BlockOf, Within, BlocksFor, Mirrors, Servable, Reachable, StartOf;
    var (block, at) := (BlockOf(cfg.blockSize, req.offset), Within(cfg.blockSize, req.offset));
    OffsetParts(cfg, req.offset);
    assert Servable(cfg, block) && Servable(cfg, block + 1) by { AllServable(cfg, block); }
    HonestFetch(cfg, file, c, block, req.first);
    var c1 := Fetch(cfg, c, block, req.first).0;
    FileBlockIs(cfg, file, block);
    if req.size + at > cfg.blockSize {
      HonestFetch(cfg, file, c1, block + 1, req.second);
      var c2 := Fetch(cfg, c1, block + 1, req.second).0;
      NextStart(cfg, block);
      FileBlockIs(cfg, file, block + 1);
      WindowOfFile(file, StartOf(cfg, block), cfg.blockSize, at, req.size, c1.data, c2.data);
    }
  }

  lemma OffsetParts(cfg: Config, offset: nat)
    requires cfg.blockSize > 0
    ensures offset == StartOf(cfg, BlockOf(cfg.blockSize, offset)) + Within(cfg.blockSize, offset)
  {
    BlockParts(cfg.blockSize, offset);
  }

  lemma FileBlockIs(cfg: Config, file: seq<byte>, block: nat)
    ensures IsWindow(file, StartOf(cfg, block), FileBlock(cfg, file, block))
  {}

  ghost predicate IsWindow(file: seq<byte>, from: nat, x: seq<byte>) {
    forall k :: 0 <= k < |x| ==> x[k] == ByteOf(file, from + k)
  }

  lemma WindowOfFile(file: seq<byte>, start: nat, n: nat, at: nat, size: nat, x: seq<byte>, y: seq<byte>)
    requires |x| == n && |y| == n && at < n && size <= n && size + at > n
    requires IsWindow(file, start, x) && IsWindow(file, start + n, y)
    ensures IsWindow(file, start + at, x[at..] + y[..size - (n - at)])
  {
    var out := x[at..] + y[..size - (n - at)];
    forall k | 0 <= k < |out| ensures out[k] == ByteOf(file, start + at + k) {
      if k < n - at { assert out[k] == x[at + k]; } else { assert out[k] == y[k - (n - at)]; }
    }
  }

  lemma AllServable(cfg: Config, block: nat)
    requires Reachable(cfg)
    ensures Servable(cfg, block) && Servable(cfg, block + 1)
  {}

  ghost predicate HonestSession(cfg: Config, file: seq<byte>, reqs: seq<Request>)
    requires cfg.blockSize > 0
  {
    forall k :: 0 <= k < |reqs| ==> HonestRead(cfg, file, reqs[k])
  }

  ghost predicate AllExact(cfg: Config, file: seq<byte>, c: Cache, reqs: seq<Request>)
    requires Shaped(cfg, c) && HonestSession(cfg, file, reqs)
  {
    forall k :: 0 <= k < |reqs| ==> Exact(file, reqs[k], Serve(cfg, c, reqs).1[k])
  }

  lemma {:induction false} HonestSessionIsExact(cfg: Config, file: seq<byte>, c: Cache, reqs: seq<Request>)
    requires Shaped(cfg, c) && |file| == cfg.fileSize && Mirrors(cfg, file, c)
    requires HonestSession(cfg, file, reqs) && Reachable(cfg)
    ensures AllExact(cfg, file, c, reqs)
    decreases |reqs|
  {
    hide Read, Exact, BlockOf, Within, BlocksFor, Mirrors, Reachable, Honest;
    if reqs != [] {
      HonestReadIsExact(cfg, file, c, reqs[0]);
      var (c1, out) := Read(cfg, c, reqs[0]);
      assert HonestSession(cfg, file, reqs[1..]);
      HonestSessionIsExact(cfg, file, c1, reqs[1..]);
      var outs := Serve(cfg, c1, reqs[1..]).1;
      forall k | 0 <= k < |reqs| ensures Exact(file, reqs[k], ([out] + outs)[k]) {
        if k > 0 { assert reqs[k] == reqs[1..][k - 1]; }
      }
    }
  }

  /**
   * The cached reader refines the plain file, for every session with an honest provider, if and only
   * if the last block starts below 4 GiB or is a full block.
   */
  lemma RefinesFileIff(cfg: Config, file: seq<byte>)
    requires Valid(cfg) && |file| == cfg.fileSize
    ensures Reachable(cfg) <==>
            forall reqs :: HonestSession(cfg, file, reqs) ==> AllExact(cfg, file, Mounted(cfg), reqs)
  {
    hide BlockOf, Within, BlocksFor, Reachable, Honest, AllExact, HonestSession, FetchSize, FileBlock;
    if Reachable(cfg) {
      forall reqs | HonestSession(cfg, file, reqs) ensures AllExact(cfg, file, Mounted(cfg), reqs) {
        HonestSessionIsExact(cfg, file, Mounted(cfg), reqs);
      }
    } else {
      var reqs := LastBlockFails(cfg, file);
    }
  }

  lemma LastBlockFails(cfg: Config, file: seq<byte>) returns (reqs: seq<Request>)
    requires Valid(cfg) && |file| == cfg.fileSize && !Reachable(cfg)
    ensures HonestSession(cfg, file, reqs) && !AllExact(cfg, file, Mounted(cfg), reqs)
  {
    var last := cfg.fileBlocks - 1;
    BlockIs(cfg.blockSize, last, 0);
    hide BlockOf, Within, BlocksFor, FetchSize;
    ServableIff(cfg, last);
    var req := Request(last * cfg.blockSize, 1, Failure([]), Data([]));
    reqs := [req];
    assert Fetch(cfg, Mounted(cfg), last, req.first).1 == ProviderFailed;
    assert Read(cfg, Mounted(cfg), req).1 == None;
    assert Serve(cfg, Mounted(cfg), reqs).1[0] == None;
  }
}
