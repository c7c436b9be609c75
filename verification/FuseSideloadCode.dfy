/** fetch_block and handle_read as they run, on the buffers and the hash table of fuse_data. */
module FuseSideloadCode {
  import opened Bytes
  import opened FuseSideload

  class FuseData {
    const cfg: Config
    var currBlock: nat
    const blockData: array<byte>
    const extraBlock: array<byte>
    var hashes: seq<Digest>

    ghost predicate Shape()
      reads this, blockData
    {
      && blockData != extraBlock && extraBlock.Length == cfg.blockSize
      && Shaped(cfg, View())
    }

    ghost function View(): (c: Cache)
      reads this, blockData
    {
      Cache(currBlock, blockData[..], hashes)
    }

    /** The set-up of run_fuse_sideload. */
    constructor (cfg: Config)
      requires Valid(cfg)
      ensures this.cfg == cfg && Shape() && View() == Mounted(cfg)
      ensures fresh(blockData) && fresh(extraBlock)
    {
      this.cfg := cfg;
      currBlock := NOTHING;
      blockData := new byte[cfg.blockSize](_ => 0);
      extraBlock := new byte[cfg.blockSize](_ => 0);
      hashes := seq(cfg.fileBlocks, _ => UNREAD);
      new;
      assert blockData[..] == Zeros(cfg.blockSize);
    }

    /** memset(block_data + from, 0, ..). */
    method Clear(from: nat)
      requires from <= blockData.Length
      modifies blockData
      ensures blockData[..] == old(blockData[..from]) + Zeros(blockData.Length - from)
    {
      for k := from to blockData.Length
        invariant forall j :: 0 <= j < from ==> blockData[j] == old(blockData[j])
        invariant forall j :: from <= j < k ==> blockData[j] == 0
      {
        blockData[k] := 0;
      }
    }

    /** The provider stores its answer at the start of the buffer. */
    method ReadBlock(n: nat, reply: Reply) returns (ok: bool)
      requires n <= blockData.Length
      modifies blockData
      ensures blockData[..] == Resized(reply.bytes, n) + old(blockData[n..])
      ensures ok == reply.Data?
    {
      var bytes := Resized(reply.bytes, n);
      for k := 0 to n
        invariant forall j :: 0 <= j < k ==> blockData[j] == bytes[j]
        invariant forall j :: n <= j < blockData.Length ==> blockData[j] == old(blockData[j])
      {
        blockData[k] := bytes[k];
      }
      return reply.Data?;
    }

    /** fetch_block: negative results are failures. */
    method FetchBlock(block: nat, reply: Reply) returns (status: Status)
      requires Shape()
      modifies this, blockData
      ensures Shape() && (View(), status) == Fetch(cfg, old(View()), block, reply)
    {
      hide FetchSize, BlocksFor, Resized;
      if block == currBlock { return Fetched; }
      if block >= cfg.fileBlocks {
        Clear(0);
        assert blockData[..] == Zeros(cfg.blockSize);
        currBlock := block;
        return Fetched;
      }
      FetchSizeFits(cfg, block);
      assert FetchSize(cfg, block) == Sized(cfg, block) by { FetchSizeIs(cfg, block); }
      var fetchSize := Sized(cfg, block);
      if fetchSize < cfg.blockSize { Clear(fetchSize); }
      var ok := ReadBlock(fetchSize, reply);
      assert blockData[..] == Filled(cfg, block, reply.bytes);
      if !ok { return ProviderFailed; }
      currBlock := block;
      var hash := cfg.hash(blockData[..]);
      if hash == hashes[block] { return Fetched; }
      if hashes[block] != UNREAD {
        currBlock := NOTHING;
        return Mismatch;
      }
      hashes := hashes[block := hash];
      return Fetched;
    }

    /** handle_read, with the arithmetic of uint32_t. */
    method HandleRead(req: Request) returns (out: Option<seq<byte>>)
      requires Shape() && Proper(cfg, req)
      modifies this, blockData, extraBlock
      ensures Shape() && (View(), out) == Read(cfg, old(View()), req)
    {
      hide Fetch, BlocksFor, BlockOf, Within, FetchSize;
      var block := BlockNumber(cfg, req.offset);
      var status := FetchBlock(block, req.first);
      if status != Fetched { return None; }
      var blockOffset := OffsetInBlock(cfg, req.offset, block);
      if (req.size + blockOffset) % TWO_32 <= cfg.blockSize {
        return Some(blockData[blockOffset..blockOffset + req.size]);
      }
      ghost var first := blockData[..];
      var kept := cfg.blockSize - blockOffset;
      for k := 0 to kept
        invariant blockData[..] == first
        invariant View() == Fetch(cfg, old(View()), block, req.first).0
        invariant forall j :: 0 <= j < k ==> extraBlock[j] == first[blockOffset + j]
      {
        extraBlock[k] := blockData[blockOffset + k];
      }
      assert extraBlock[..kept] == first[blockOffset..];
      status := FetchBlock((block + 1) % TWO_32, req.second);
      if status != Fetched { return None; }
      return Some(extraBlock[..kept] + blockData[..req.size - kept]);
    }
  }

  /** The lines that compute fetch_size. */
  function Sized(cfg: Config, block: nat): (n: int) {
    var product := (block * cfg.blockSize) % TWO_32;
    if product + cfg.blockSize > cfg.fileSize then cfg.fileSize - product else cfg.blockSize
  }

  lemma FetchSizeIs(cfg: Config, block: nat)
    ensures FetchSize(cfg, block) == Sized(cfg, block)
  {}

  /** uint32_t block = offset / block_size. */
  method BlockNumber(cfg: Config, offset: nat) returns (block: nat)
    requires cfg.blockSize > 0 && BlockOf(cfg.blockSize, offset) < TWO_32
    ensures block == BlockOf(cfg.blockSize, offset)
  {
    BlockIsQuotient(cfg.blockSize, offset);
    return (offset / cfg.blockSize) % TWO_32;
  }

  /** uint32_t block_offset = offset - (block * block_size), where the product is cut off to 32 bits. */
  method OffsetInBlock(cfg: Config, offset: nat, block: nat) returns (at: nat)
    requires 0 < cfg.blockSize < TWO_32 && block == BlockOf(cfg.blockSize, offset)
    ensures at == Within(cfg.blockSize, offset)
  {
    BlockParts(cfg.blockSize, offset);
    var product := (block * cfg.blockSize) % TWO_32;
    WrappedDifference(block * cfg.blockSize, Within(cfg.blockSize, offset));
    return (offset - product) % TWO_32;
  }

  lemma WrappedDifference(product: nat, rest: nat)
    requires rest < TWO_32
    ensures (product + rest - product % TWO_32) % TWO_32 == rest
  {
    var q := product / TWO_32;
    assert product - product % TWO_32 == q * TWO_32;
  }
}
