/** On-disk SSTables: the header codec, payload blocks of 256 entries, serialising a MemTable, loading an index,
    and the two-level binary search. */
module SsTables {
  import opened Prelude
  import opened LittleEndian
  import opened SstLayout
  import opened MetaZones
  import opened MemTables
  import P = FlushProtocol

  const MAGIC: nat := 0x5a4e_5353_5354_424b
  const VERSION: nat := 1

  /** One step of a running checksum over blocks; nothing is known about it but that it is a function. */
  type Checksum = (u32, Block) -> u32

  // ----- Header -----

  datatype Header = Header(nrEntries: nat, nrBlocks: nat, crc: nat, seqNo: nat, minKey: nat, maxKey: nat)

  /** The in-memory index of one table: where it starts, and its header. */
  datatype Sstable = Sstable(start: nat, header: Header)

  const HEADER_BYTES: nat := 48

  predicate HeaderFits(h: Header) {
    h.nrEntries < U32 && h.nrBlocks < U32 && h.crc < U32 && h.seqNo < U64 && h.minKey < U64 && h.maxKey < U64
  }

  /** What decoding insists on beyond magic and version. */
  predicate HeaderValid(h: Header) {
    h.nrEntries > 0 && h.nrBlocks == NrBlocks(h.nrEntries) && h.minKey <= h.maxKey
  }

  function HeaderBytes(h: Header): (s: seq<byte>)
    ensures |s| == HEADER_BYTES
  {
    ToLe(MAGIC, 8) + ToLe(VERSION, 4) + ToLe(h.nrEntries, 4) + ToLe(h.nrBlocks, 4) + ToLe(h.crc, 4) +
    ToLe(h.seqNo, 8) + ToLe(h.minKey, 8) + ToLe(h.maxKey, 8)
  }

  /** zns_sst_encode_header. */
  function EncodeHeader(h: Header): Block {
    HeaderBytes(h) + seq(BLOCK_BYTES - HEADER_BYTES, i => 0)
  }

  function HeaderFields(block: Block): Header {
    Header(Field(block, 12, 4), Field(block, 16, 4), Field(block, 20, 4), Field(block, 24, 8), Field(block, 32, 8),
           Field(block, 40, 8))
  }

  /** zns_sst_decode_header. */
  function DecodeHeader(block: Block): (r: Result<Header>)
    ensures r.Ok? ==> HeaderValid(r.value) && r.value == HeaderFields(block)
    ensures r.Err? ==> r.error == Invalid
  {
    if Field(block, 0, 8) != MAGIC then Err(Invalid)
    else if Field(block, 8, 4) != VERSION then Err(Invalid)
    else
      var h := HeaderFields(block);
      if h.nrEntries == 0 || h.nrBlocks != NrBlocks(h.nrEntries) then Err(Invalid)
      else if h.minKey > h.maxKey then Err(Invalid)
      else Ok(h)
  }

  /** The pieces of a concatenation of eight. */
  lemma EightPieces(a: seq<byte>, b: seq<byte>, c: seq<byte>, d: seq<byte>, e: seq<byte>, f: seq<byte>, g: seq<byte>,
                    h: seq<byte>, rest: seq<byte>)
    requires |a| == |f| == |g| == |h| == 8 && |b| == |c| == |d| == |e| == 4
    ensures var s := a + b + c + d + e + f + g + h + rest;
            && s[0..0 + 8] == a && s[8..8 + 4] == b && s[12..12 + 4] == c && s[16..16 + 4] == d
            && s[20..20 + 4] == e && s[24..24 + 8] == f && s[32..32 + 8] == g && s[40..40 + 8] == h
  {
  }

  lemma EncodedFields(h: Header)
    requires HeaderFits(h)
    ensures Field(EncodeHeader(h), 0, 8) == MAGIC && Field(EncodeHeader(h), 8, 4) == VERSION
    ensures HeaderFields(EncodeHeader(h)) == h
  {
    hide ToLe, FromLe, Field, Pow256, NrBlocks;
    Widths();
    EightPieces(ToLe(MAGIC, 8), ToLe(VERSION, 4), ToLe(h.nrEntries, 4), ToLe(h.nrBlocks, 4), ToLe(h.crc, 4),
                ToLe(h.seqNo, 8), ToLe(h.minKey, 8), ToLe(h.maxKey, 8), seq(BLOCK_BYTES - HEADER_BYTES, i => 0));
    var block := EncodeHeader(h);
    FieldHolds(block, 0, 8, MAGIC);
    FieldHolds(block, 8, 4, VERSION);
    FieldHolds(block, 12, 4, h.nrEntries);
    FieldHolds(block, 16, 4, h.nrBlocks);
    FieldHolds(block, 20, 4, h.crc);
    FieldHolds(block, 24, 8, h.seqNo);
    FieldHolds(block, 32, 8, h.minKey);
    FieldHolds(block, 40, 8, h.maxKey);
  }

  /** Decoding an encoded header gives it back exactly if it is valid, and refuses it otherwise: it has to describe at
      least one entry, the number of blocks that its entries need, and keys in order. */
  lemma HeaderRoundTrip(h: Header)
    requires HeaderFits(h)
    ensures DecodeHeader(EncodeHeader(h)) == if HeaderValid(h) then Ok(h) else Err(Invalid)
    ensures DecodeHeader(EncodeHeader(h)).Ok? <==>
            h.nrEntries > 0 && h.nrBlocks == 1 + (h.nrEntries + 255) / 256 && h.minKey <= h.maxKey
  {
    hide EncodeHeader, HeaderFields;
    EncodedFields(h);
  }

  /** The header block byte by byte: little-endian fields at the offsets of struct zns_sst_disk_header, zeros behind
      them. */
  lemma HeaderLayout(h: Header)
    requires HeaderFits(h)
    ensures var b := EncodeHeader(h);
            && b[0..8] == [0x4b, 0x42, 0x54, 0x53, 0x53, 0x53, 0x4e, 0x5a] && b[8..12] == [1, 0, 0, 0]
            && FromLe(b[12..16]) == h.nrEntries && FromLe(b[16..20]) == h.nrBlocks && FromLe(b[20..24]) == h.crc
            && FromLe(b[24..32]) == h.seqNo && FromLe(b[32..40]) == h.minKey && FromLe(b[40..48]) == h.maxKey
            && forall i | 48 <= i < 4096 :: b[i] == 0
  {
    hide FromLe, Pow256, HeaderFields, NrBlocks;
    EncodedFields(h);
    HeaderFieldsAt(EncodeHeader(h));
    MagicBytes();
    assert EncodeHeader(h)[0..8] == ToLe(MAGIC, 8) && EncodeHeader(h)[8..12] == ToLe(VERSION, 4) by {
      hide ToLe;
      EightPieces(ToLe(MAGIC, 8), ToLe(VERSION, 4), ToLe(h.nrEntries, 4), ToLe(h.nrBlocks, 4), ToLe(h.crc, 4),
                  ToLe(h.seqNo, 8), ToLe(h.minKey, 8), ToLe(h.maxKey, 8), seq(BLOCK_BYTES - HEADER_BYTES, i => 0));
    }
  }

  lemma MagicBytes()
    ensures ToLe(MAGIC, 8) == [0x4b, 0x42, 0x54, 0x53, 0x53, 0x53, 0x4e, 0x5a] && ToLe(VERSION, 4) == [1, 0, 0, 0]
  {
    hide ToLe;
    BytesOf([0x4b, 0x42, 0x54, 0x53, 0x53, 0x53, 0x4e, 0x5a],
            [0x5a4e_5353_5354_424b, 0x5a_4e53_5353_5442, 0x5a4e_5353_5354, 0x5a_4e53_5353, 0x5a4e_5353, 0x5a_4e53,
             0x5a4e, 0x5a, 0]);
    BytesOf([1, 0, 0, 0], [1, 0, 0, 0, 0]);
  }

  lemma HeaderFieldsAt(b: Block)
    ensures var h := HeaderFields(b);
            && h.nrEntries == FromLe(b[12..16]) && h.nrBlocks == FromLe(b[16..20]) && h.crc == FromLe(b[20..24])
            && h.seqNo == FromLe(b[24..32]) && h.minKey == FromLe(b[32..40]) && h.maxKey == FromLe(b[40..48])
  {
  }

  /** A block that decodes holds the encoding of what it decodes to: every header has one encoding. */
  lemma DecodedIsEncoded(block: Block)
    requires DecodeHeader(block).Ok?
    ensures HeaderFits(DecodeHeader(block).value)
    ensures block[..HEADER_BYTES] == HeaderBytes(DecodeHeader(block).value)
  {
    hide ToLe, FromLe, Pow256, NrBlocks;
    Widths();
    FieldBytes(block, 0, 8);
    FieldBytes(block, 8, 4);
    FieldBytes(block, 12, 4);
    FieldBytes(block, 16, 4);
    FieldBytes(block, 20, 4);
    FieldBytes(block, 24, 8);
    FieldBytes(block, 32, 8);
    FieldBytes(block, 40, 8);
    assert block[..48] == block[0..0 + 8] + block[8..8 + 4] + block[12..12 + 4] + block[16..16 + 4] +
           block[20..20 + 4] +
                          block[24..24 + 8] + block[32..32 + 8] + block[40..40 + 8];
  }

  /** Only the first 48 bytes of a header block matter. */
  lemma PaddingIgnored(block: Block, block': Block)
    requires block[..HEADER_BYTES] == block'[..HEADER_BYTES]
    ensures DecodeHeader(block) == DecodeHeader(block')
  {
    hide FromLe, NrBlocks, Field;
    SameField(block, block', 0, 8);
    SameField(block, block', 8, 4);
    SameField(block, block', 12, 4);
    SameField(block, block', 16, 4);
    SameField(block, block', 20, 4);
    SameField(block, block', 24, 8);
    SameField(block, block', 32, 8);
    SameField(block, block', 40, 8);
  }

  lemma SameField(block: Block, block': Block, offset: nat, n: nat)
    requires block[..HEADER_BYTES] == block'[..HEADER_BYTES] && offset + n <= HEADER_BYTES
    ensures Field(block, offset, n) == Field(block', offset, n)
  {
    var front := block[..HEADER_BYTES];
    assert block[offset..offset + n] == front[offset..offset + n] == block'[offset..offset + n];
  }

  lemma FieldBytes(block: Block, offset: nat, n: nat)
    requires offset + n <= BLOCK_BYTES
    ensures ToLe(Field(block, offset, n), n) == block[offset..offset + n] && Field(block, offset, n) < Pow256(n)
  {
    EncodeDecoded(block[offset..offset + n]);
  }

  // ----- Payload blocks -----

  const ENTRY_BYTES: nat := 16

  function EntryBytes(e: Entry): (s: seq<byte>)
    ensures |s| == ENTRY_BYTES
  {
    ToLe(e.block, 8) + ToLe(e.sector, 8)
  }

  function Packed(chunk: seq<Entry>): (s: seq<byte>)
    ensures |s| == ENTRY_BYTES * |chunk|
  {
    if chunk == [] then [] else Packed(chunk[..|chunk| - 1]) + EntryBytes(chunk[|chunk| - 1])
  }

  /** One payload block: the entries of a chunk, then zeros. */
  function PayloadBlock(chunk: seq<Entry>): Block
    requires |chunk| <= ENTRIES_PER_BLOCK
  {
    Packed(chunk) + seq(BLOCK_BYTES - ENTRY_BYTES * |chunk|, i => 0)
  }

  /** entries[i].logical_block and entries[i].physical_sector of a block in memory. */
  function KeyAt(block: Block, i: nat): nat
    requires i < ENTRIES_PER_BLOCK
  {
    Field(block, ENTRY_BYTES * i, 8)
  }

  function SectorAt(block: Block, i: nat): nat
    requires i < ENTRIES_PER_BLOCK
  {
    Field(block, ENTRY_BYTES * i + 8, 8)
  }

  lemma {:induction false} PackedAt(chunk: seq<Entry>, i: nat)
    requires i < |chunk|
    ensures Packed(chunk)[ENTRY_BYTES * i..ENTRY_BYTES * i + 8] == ToLe(chunk[i].block, 8)
    ensures Packed(chunk)[ENTRY_BYTES * i + 8..ENTRY_BYTES * i + 8 + 8] == ToLe(chunk[i].sector, 8)
  {
    hide ToLe;
    var front := chunk[..|chunk| - 1];
    if i < |front| {
      PackedAt(front, i);
      assert Packed(chunk)[..|Packed(front)|] == Packed(front);
    }
  }

  /** A payload block gives back the entries it was made from, which lie one behind the other in sixteen bytes each,
      with zeros behind them. */
  lemma PayloadBlockHolds(chunk: seq<Entry>, i: nat)
    requires |chunk| <= ENTRIES_PER_BLOCK && EntriesFit(chunk) && i < |chunk|
    ensures KeyAt(PayloadBlock(chunk), i) == chunk[i].block && SectorAt(PayloadBlock(chunk), i) == chunk[i].sector
    ensures FromLe(PayloadBlock(chunk)[16 * i..16 * i + 8]) == chunk[i].block
    ensures FromLe(PayloadBlock(chunk)[16 * i + 8..16 * i + 16]) == chunk[i].sector
    ensures forall k | 16 * |chunk| <= k < 4096 :: PayloadBlock(chunk)[k] == 0
  {
    hide ToLe, FromLe, Packed, Pow256;
    Widths();
    PackedAt(chunk, i);
    var block := PayloadBlock(chunk);
    assert block[..|Packed(chunk)|] == Packed(chunk);
    FieldHolds(block, ENTRY_BYTES * i, 8, chunk[i].block);
    FieldHolds(block, ENTRY_BYTES * i + 8, 8, chunk[i].sector);
  }

  /** Filling the next entry of a partly filled block. */
  lemma FillNext(chunk: seq<Entry>, e: Entry)
    requires |chunk| < ENTRIES_PER_BLOCK
    ensures Splice(PayloadBlock(chunk), ENTRY_BYTES * |chunk|, EntryBytes(e)) == PayloadBlock(chunk + [e])
  {
    hide EntryBytes;
    assert (chunk + [e])[..|chunk|] == chunk;
    assert Packed(chunk + [e]) == Packed(chunk) + EntryBytes(e);
    hide Packed;
  }

  /** The entries of payload block k of a table. */
  function Chunk(es: seq<Entry>, k: nat): (c: seq<Entry>)
    requires k * ENTRIES_PER_BLOCK <= |es|
    ensures |c| == if |es| - k * ENTRIES_PER_BLOCK < ENTRIES_PER_BLOCK then |es| - k * ENTRIES_PER_BLOCK
            else ENTRIES_PER_BLOCK
    ensures forall i | 0 <= i < |c| :: c[i] == es[k * ENTRIES_PER_BLOCK + i]
  {
    if (k + 1) * ENTRIES_PER_BLOCK <= |es| then es[k * ENTRIES_PER_BLOCK..(k + 1) * ENTRIES_PER_BLOCK]
    else es[k * ENTRIES_PER_BLOCK..]
  }

  function PayloadBlocks(es: seq<Entry>): (n: nat)
    ensures n == NrBlocks(|es|) - 1
    ensures forall k | 0 <= k < n :: k * ENTRIES_PER_BLOCK < |es|
  {
    (|es| + ENTRIES_PER_BLOCK - 1) / ENTRIES_PER_BLOCK
  }

  /** All payload blocks of a table. */
  function Payload(es: seq<Entry>): (blocks: seq<Block>)
    ensures |blocks| == PayloadBlocks(es)
  {
    seq(PayloadBlocks(es), k requires 0 <= k < PayloadBlocks(es) => PayloadBlock(Chunk(es, k)))
  }

  /** crc32_le over a list of blocks. */
  function Crc(step: Checksum, blocks: seq<Block>): u32 {
    if blocks == [] then 0 else step(Crc(step, blocks[..|blocks| - 1]), blocks[|blocks| - 1])
  }

  /** What a sorted, non-empty list of entries looks like as a table. */
  function HeaderOf(step: Checksum, es: seq<Entry>, seqNo: nat): Header
    requires es != []
  {
    Header(|es|, NrBlocks(|es|), Crc(step, Payload(es)), seqNo, es[0].block, es[|es| - 1].block)
  }

  /** An index with the checksum of the entries es filled in. Writing a table leaves the checksum in memory at zero and
      puts it into the header block only; loading a table reads it back. */
  function Sealed(step: Checksum, sst: Sstable, es: seq<Entry>): Sstable {
    sst.(header := sst.header.(crc := Crc(step, Payload(es))))
  }

  function Image(step: Checksum, es: seq<Entry>, seqNo: nat): (blocks: seq<Block>)
    requires es != []
    ensures |blocks| == NrBlocks(|es|)
  {
    [EncodeHeader(HeaderOf(step, es, seqNo))] + Payload(es)
  }

  // ----- Writing -----

  /** The checksum starts at zero and takes in one block after the other. */
  lemma CrcOfTwo(step: Checksum, a: Block, b: Block)
    ensures Crc(step, []) == 0 && Crc(step, [a]) == step(0, a) && Crc(step, [a, b]) == step(step(0, a), b)
  {
    assert [a][..0] == [] && [a, b][..1] == [a];
  }

  lemma CrcNext(step: Checksum, blocks: seq<Block>, k: nat)
    requires k < |blocks|
    ensures Crc(step, blocks[..k + 1]) == step(Crc(step, blocks[..k]), blocks[k])
  {
    assert blocks[..k + 1][..k] == blocks[..k];
  }

  /** struct zns_sst_write_ctx. */
  class WriteContext {
    const meta: MetaZone
    const step: Checksum
    const write: bool
    var sector: nat
    var crc: u32

    constructor (meta: MetaZone, step: Checksum, sector: nat, write: bool)
      ensures this.meta == meta && this.step == step && this.sector == sector && crc == 0 && this.write == write
    {
      this.meta, this.step, this.sector, crc, this.write := meta, step, sector, 0, write;
    }

    /** zns_sst_consume_block. */
    method ConsumeBlock(block: Block) returns (r: Errno)
      modifies this, meta
      ensures r == Success || r == NoMem || r == IoError
      ensures crc == step(old(crc), block)
      ensures !write ==> r == Success && unchanged(meta) && sector == old(sector)
      ensures sector == old(sector) + if write && r == Success then BLOCK_SECTORS else 0
      ensures meta.faults >= old(meta.faults) && meta.wp >= old(meta.wp)
      ensures SameBelow(old(meta.content), meta.content, old(meta.wp))
      ensures write && r == Success ==>
                && old(meta.wp) == old(sector) && meta.wp == sector && sector <= meta.end
                && meta.content == old(meta.content)[old(sector) := block]
      ensures r != Success && old(meta.wp) == old(sector) && old(sector) + BLOCK_SECTORS <= meta.end ==>
                meta.faults > old(meta.faults)
    {
      crc := step(crc, block);
      if !write {
        return Success;
      }
      r := meta.WriteBlock(sector, block);
      if r == Success {
        sector := sector + BLOCK_SECTORS;
      }
    }
  }

  /** How far a pass over the payload got: n blocks were consumed, in order and one behind the other. */
  ghost predicate Consumed(ctx: WriteContext, blocks: seq<Block>, first: nat, wp0: nat, content0: Media, n: nat)
    reads ctx, ctx.meta
  {
    && n <= |blocks| && ctx.sector == first + (if ctx.write then BLOCK_SECTORS * n else 0)
    && ctx.meta.wp >= wp0 && SameBelow(content0, ctx.meta.content, wp0)
    && (ctx.write ==> StoredAt(ctx.meta.content, first, blocks[..n]))
    && (ctx.write && n > 0 ==> wp0 == first && ctx.meta.wp >= ctx.sector)
  }

  lemma ConsumedNext(content: Media, content': Media, first: nat, blocks: seq<Block>, n: nat)
    requires n < |blocks| && StoredAt(content, first, blocks[..n])
    requires content' == content[first + BLOCK_SECTORS * n := blocks[n]]
    ensures StoredAt(content', first, blocks[..n + 1])
  {
    forall k | 0 <= k < n + 1 ensures BlockAt(content', first + BLOCK_SECTORS * k) == blocks[..n + 1][k] {
      assert k < n ==> BlockAt(content, first + BLOCK_SECTORS * k) == blocks[..n][k];
    }
  }

  /** Consuming the next block of the payload, as part of a pass that began at (wp0, content0). */
  method ConsumeNext(ctx: WriteContext, block: Block, ghost blocks: seq<Block>, ghost first: nat, ghost wp0: nat,
                     ghost content0: Media, ghost n: nat)
    returns (r: Errno)
    requires Consumed(ctx, blocks, first, wp0, content0, n) && n < |blocks| && block == blocks[n]
    requires ctx.crc == Crc(ctx.step, blocks[..n]) && (ctx.write && n > 0 ==> ctx.meta.wp == ctx.sector)
    requires n == 0 ==> ctx.meta.wp == wp0
    modifies ctx, ctx.meta
    ensures r == Success || (ctx.write && (r == NoMem || r == IoError))
    ensures r == Success ==>
              && Consumed(ctx, blocks, first, wp0, content0, n + 1) && ctx.crc == Crc(ctx.step, blocks[..n + 1])
              && (ctx.write ==> ctx.meta.wp == ctx.sector)
    ensures r != Success ==> Consumed(ctx, blocks, first, wp0, content0, n)
    ensures !ctx.write ==> unchanged(ctx.meta)
    ensures ctx.meta.faults >= old(ctx.meta.faults)
    ensures r != Success && wp0 == first && first + BLOCK_SECTORS * |blocks| <= ctx.meta.end ==>
              ctx.meta.faults > old(ctx.meta.faults)
  {
    hide Crc, StoredAt, SameBelow;
    CrcNext(ctx.step, blocks, n);
    ghost var before := ctx.meta.content;
    ghost var wp := ctx.meta.wp;
    r := ctx.ConsumeBlock(block);
    SameBelowTrans(content0, before, ctx.meta.content, wp0, wp);
    if ctx.write {
      if r == Success {
        ConsumedNext(before, ctx.meta.content, first, blocks, n);
      } else {
        StoredBelow(before, ctx.meta.content, first, blocks[..n], wp);
      }
    }
  }

  lemma SameBelowTrans(a: Media, b: Media, c: Media, p: nat, q: nat)
    requires SameBelow(a, b, p) && SameBelow(b, c, q) && p <= q
    ensures SameBelow(a, c, p)
  {
  }

  lemma FirstBlocks(blocks: seq<Block>, step: Checksum, content: Media, first: nat)
    ensures Crc(step, blocks[..0]) == 0 && StoredAt(content, first, blocks[..0]) && SameBelow(content, content, first)
    ensures blocks[..|blocks|] == blocks
  {
  }

  /** Block number full of the payload is complete, or is the last one. */
  lemma BlockComplete(es: seq<Entry>, full: nat, i: nat)
    requires ENTRIES_PER_BLOCK * full < i <= |es|
    requires i == ENTRIES_PER_BLOCK * (full + 1) || (i == |es| && i < ENTRIES_PER_BLOCK * (full + 1))
    ensures full < PayloadBlocks(es) && Payload(es)[full] == PayloadBlock(es[ENTRIES_PER_BLOCK * full..i])
    ensures i == |es| && i < ENTRIES_PER_BLOCK * (full + 1) ==> PayloadBlocks(es) == full + 1
  {
    hide PayloadBlock;
    assert full < PayloadBlocks(es);
    assert Chunk(es, full) == es[ENTRIES_PER_BLOCK * full..i];
  }

  lemma AllBlocksComplete(es: seq<Entry>, full: nat)
    requires ENTRIES_PER_BLOCK * full == |es|
    ensures PayloadBlocks(es) == full
  {
  }

  lemma EmptyChunk(es: seq<Entry>, i: nat)
    requires i <= |es|
    ensures es[i..i] == [] && PayloadBlock([]) == ZeroBlock()
  {
  }

  /** zns_sst_emit_payload: walk the table in block order, filling one block at a time, and consume each when it is
      full; the tail block is padded with zeros. n is the number of blocks consumed. */
  method EmitPayload(table: MemTable, ctx: WriteContext) returns (r: Errno, ghost n: nat)
    requires ctx.crc == 0
    modifies ctx, ctx.meta
    ensures Consumed(ctx, Payload(table.Entries()), old(ctx.sector), old(ctx.meta.wp), old(ctx.meta.content), n)
    ensures r == Success ==> n == PayloadBlocks(table.Entries()) && ctx.crc == Crc(ctx.step, Payload(table.Entries()))
    ensures r == Success && ctx.write && n > 0 ==> ctx.meta.wp == ctx.sector
    ensures r != Success ==> ctx.write && n < PayloadBlocks(table.Entries()) && (r == NoMem || r == IoError)
    ensures !ctx.write ==> unchanged(ctx.meta)
    ensures ctx.meta.faults >= old(ctx.meta.faults)
    ensures r != Success && old(ctx.meta.wp == ctx.sector
                                && ctx.sector + BLOCK_SECTORS * PayloadBlocks(table.Entries()) <= ctx.meta.end) ==>
              ctx.meta.faults > old(ctx.meta.faults)
  {
    hide Crc, PayloadBlock, Payload, StoredAt, SameBelow, EntryBytes, InOrder;
    var es := table.Entries();
    ghost var blocks := Payload(es);
    ghost var first, wp0, content0 := ctx.sector, ctx.meta.wp, ctx.meta.content;
    FirstBlocks(blocks, ctx.step, content0, first);
    SameBelowSelf(content0, wp0);
    n := 0;
    var block := ZeroBlock();
    var nrInBlock: nat := 0;
    EmptyChunk(es, 0);
    for i := 0 to |es|
      invariant i == ENTRIES_PER_BLOCK * n + nrInBlock && nrInBlock < ENTRIES_PER_BLOCK
      invariant block == PayloadBlock(es[ENTRIES_PER_BLOCK * n..i])
      invariant Consumed(ctx, blocks, first, wp0, content0, n) && ctx.crc == Crc(ctx.step, blocks[..n])
      invariant ctx.write && n > 0 ==> ctx.meta.wp == ctx.sector
      invariant n == 0 ==> ctx.meta.wp == wp0
      invariant !ctx.write ==> unchanged(ctx.meta)
      invariant ctx.meta.faults >= old(ctx.meta.faults)
    {
      FillNext(es[ENTRIES_PER_BLOCK * n..i], es[i]);
      assert es[ENTRIES_PER_BLOCK * n..i] + [es[i]] == es[ENTRIES_PER_BLOCK * n..i + 1];
      block := Splice(block, ENTRY_BYTES * nrInBlock, EntryBytes(es[i]));
      nrInBlock := nrInBlock + 1;
      if nrInBlock < ENTRIES_PER_BLOCK {
        continue;
      }
      BlockComplete(es, n, i + 1);
      r := ConsumeNext(ctx, block, blocks, first, wp0, content0, n);
      if r != Success {
        return;
      }
      n := n + 1;
      EmptyChunk(es, i + 1);
      block := ZeroBlock();
      nrInBlock := 0;
    }
    if nrInBlock > 0 {
      BlockComplete(es, n, |es|);
      r := ConsumeNext(ctx, block, blocks, first, wp0, content0, n);
      if r == Success {
        n := n + 1;
      }
    } else {
      AllBlocksComplete(es, n);
      r := Success;
    }
  }

  lemma SameBelowSelf(content: Media, p: nat)
    ensures SameBelow(content, content, p)
  {
  }

  /** What zns_sst_write leaves behind: consumed sectors hold that much of the table's image, on success all of it;
      what was below the zone's write pointer stays. */
  ghost predicate WrittenSst(step: Checksum, es: seq<Entry>, start: nat, seqNo: nat, r: Errno, sst: Option<Sstable>,
                             consumed: nat, wp0: nat, content0: Media, wp: nat, content: Media)
  {
    && wp0 <= wp && SameBelow(content0, content, wp0)
    && (r == Success ==>
          && es != [] && sst == Some(Sstable(start, HeaderOf(step, es, seqNo).(crc := 0)))
          && wp0 == start && wp == start + consumed)
    && (r != Success ==> sst == None)
    && (consumed > 0 ==>
          && es != [] && wp0 == start && start + consumed <= wp
          && consumed % BLOCK_SECTORS == 0 && consumed <= Sectors(|es|)
          && (consumed == Sectors(|es|) <==> r == Success)
          && StoredAt(content, start, Image(step, es, seqNo)[..consumed / BLOCK_SECTORS]))
  }

  /** zns_sst_scan_memtable: count, smallest and largest block. */
  method ScanMemTable(table: MemTable) returns (nrEntries: nat, minKey: nat, maxKey: nat)
    ensures nrEntries == |table.Entries()|
    ensures table.Entries() != [] ==>
              minKey == table.Entries()[0].block && maxKey == table.Entries()[nrEntries - 1].block
  {
    var es := table.Entries();
    nrEntries, minKey, maxKey := 0, 0, 0;
    for i := 0 to |es|
      invariant nrEntries == i
      invariant i > 0 ==> minKey == es[0].block && maxKey == es[i - 1].block
    {
      if nrEntries == 0 {
        minKey := es[i].block;
      }
      maxKey := es[i].block;
      nrEntries := nrEntries + 1;
    }
  }

  lemma TableSize(table: MemTable)
    requires table.Valid()
    ensures |table.Entries()| == |table.Contents()|
    ensures table.Entries() == [] <==> table.Contents() == map[]
  {
    MapOfSorted(table.Entries());
    EmptyMap(table.Entries());
  }

  /** The header alone is written. */
  lemma HeaderWritten(content: Media, start: nat, blocks: seq<Block>)
    requires blocks != []
    ensures StoredAt(content[start := blocks[0]], start, blocks[..1])
  {
  }

  lemma HeaderThenPayload(content: Media, content': Media, start: nat, blocks: seq<Block>, n: nat)
    requires blocks != [] && n < |blocks| && BlockAt(content, start) == blocks[0]
    requires SameBelow(content, content', start + BLOCK_SECTORS)
    requires StoredAt(content', start + BLOCK_SECTORS, blocks[1..][..n])
    ensures StoredAt(content', start, blocks[..n + 1])
  {
    forall k | 0 <= k < n + 1 ensures BlockAt(content', start + BLOCK_SECTORS * k) == blocks[..n + 1][k] {
      if k > 0 {
        assert BlockAt(content', start + BLOCK_SECTORS + BLOCK_SECTORS * (k - 1)) == blocks[1..][..n][k - 1];
      }
    }
  }

  /** The header's count and keys are those of the mapping. */
  predicate Summarises(h: Header, m: map<nat, nat>) {
    && h.nrEntries == |m| && h.nrBlocks == 1 + (|m| + 255) / 256 && h.minKey in m && h.maxKey in m
    && forall b | b in m :: h.minKey <= b <= h.maxKey
  }

  lemma EntriesSummarised(table: MemTable, h: Header)
    requires table.Valid() && table.Entries() != []
    requires var es := table.Entries();
             && h.nrEntries == |es| && h.nrBlocks == NrBlocks(|es|)
             && h.minKey == es[0].block && h.maxKey == es[|es| - 1].block
    ensures Summarises(h, table.Contents())
  {
    hide InOrder, MapOf;
    var es := table.Entries();
    TableSize(table);
    MapOfKeys(es);
    MapOfSorted(es);
    forall b | b in MapOf(es) ensures es[0].block <= b <= es[|es| - 1].block {
      var i :| 0 <= i < |es| && es[i].block == b;
    }
  }

  /** zns_sst_write: two passes over a table that does not change in between, the first for the checksum that the header
      in front carries, the second to write the payload behind it. */
  method SstWrite(meta: MetaZone, step: Checksum, table: MemTable, start: nat, end: nat, seqNo: nat)
    returns (r: Errno, sst: Option<Sstable>, consumed: nat)
    requires table.Valid() && end <= meta.end
    modifies meta
    ensures WrittenSst(step, table.Entries(), start, seqNo, r, sst, consumed, old(meta.wp), old(meta.content), meta.wp,
                       meta.content)
    ensures P.SstWriteAllowed(table.Contents(), start, end, P.SstWrite(r, consumed))
    ensures r == NoData || r == NoSpace ==> meta.wp == old(meta.wp) && meta.content == old(meta.content)
    ensures r == Success ==>
              && sst.Some? && sst.value.start == start && sst.value.header.seqNo == seqNo
              && Summarises(sst.value.header, table.Contents())
    ensures meta.faults >= old(meta.faults)
    ensures meta.faults == old(meta.faults) && old(meta.wp) == start ==>
              r == if start >= end then NoSpace else if table.Entries() == [] then NoData
                   else if start + Sectors(|table.Entries()|) > end then NoSpace else Success
  {
    hide Crc, Payload, StoredAt, SameBelow, InOrder, MapOf, Sorted, EncodeHeader, NrBlocks;
    sst, consumed := None, 0;
    ghost var wp0, content0 := meta.wp, meta.content;
    ghost var es := table.Entries();
    SameBelowSelf(content0, wp0);
    TableSize(table);
    if start >= end {
      return NoSpace, sst, consumed;
    }
    var indexOk := meta.Allocate();
    if !indexOk {
      return NoMem, sst, consumed;
    }
    var nrEntries, minKey, maxKey := ScanMemTable(table);
    if nrEntries == 0 {
      return NoData, sst, consumed;
    }
    var nrBlocks := NrBlocks(nrEntries);
    if nrBlocks * BLOCK_SECTORS > end - start {
      return NoSpace, sst, consumed;
    }
    var bufferOk := meta.Allocate();
    if !bufferOk {
      return NoMem, sst, consumed;
    }
    var ctx := new WriteContext(meta, step, start + BLOCK_SECTORS, false);
    ghost var n;
    r, n := EmitPayload(table, ctx);
    var header := Header(nrEntries, nrBlocks, ctx.crc, seqNo, minKey, maxKey);
    r, consumed := AppendImage(meta, step, table, start, header);
    if r == Success {
      EntriesSummarised(table, header);
      sst := Some(Sstable(start, header.(crc := 0)));
    }
  }

  /** The writing half of zns_sst_write: the header, then the payload right behind it. */
  method AppendImage(meta: MetaZone, step: Checksum, table: MemTable, start: nat, header: Header)
    returns (r: Errno, consumed: nat)
    requires table.Entries() != [] && header == HeaderOf(step, table.Entries(), header.seqNo)
    requires start + Sectors(|table.Entries()|) <= meta.end
    modifies meta
    ensures r == Success || r == NoMem || r == IoError
    ensures WrittenSst(step, table.Entries(), start, header.seqNo, r,
                       if r == Success then Some(Sstable(start, header.(crc := 0))) else None, consumed,
                       old(meta.wp), old(meta.content), meta.wp, meta.content)
    ensures r == Success ==> consumed == Sectors(|table.Entries()|)
    ensures r != Success ==> consumed % BLOCK_SECTORS == 0 && (consumed == 0 || consumed < Sectors(|table.Entries()|))
    ensures meta.faults >= old(meta.faults)
    ensures meta.faults == old(meta.faults) && old(meta.wp) == start ==> r == Success
  {
    hide Crc, Payload, StoredAt, SameBelow, InOrder, EncodeHeader, NrBlocks;
    ghost var es, wp0, content0 := table.Entries(), meta.wp, meta.content;
    ghost var image := Image(step, es, header.seqNo);
    consumed := 0;
    SameBelowSelf(content0, wp0);
    r := meta.WriteBlock(start, EncodeHeader(header));
    if r != Success {
      return r, consumed;
    }
    HeaderWritten(content0, start, image);
    ghost var content1 := meta.content;
    SameBelowPut(content0, start, image[0]);
    var ctx := new WriteContext(meta, step, start + BLOCK_SECTORS, true);
    ghost var n;
    r, n := EmitPayload(table, ctx);
    consumed := ctx.sector - start;
    assert image[1..] == Payload(es);
    HeaderThenPayload(content1, meta.content, start, image, n);
    SameBelowTrans(content0, content1, meta.content, wp0, start + BLOCK_SECTORS);
  }

  lemma SameBelowPut(content: Media, p: nat, data: Block)
    ensures SameBelow(content, content[p := data], p) && BlockAt(content[p := data], p) == data
  {
  }

  // ----- Loading -----

  /** What loading the header at a sector finds in a log that ends at limit. */
  function LoadAt(content: Media, sector: nat, limit: nat): Result<Sstable> {
    if sector >= limit then Err(Invalid)
    else
      var h := DecodeHeader(BlockAt(content, sector));
      if h.Err? then Err(Invalid)
      else if h.value.nrBlocks * BLOCK_SECTORS > limit - sector then Err(Invalid)
      else Ok(Sstable(sector, h.value))
  }

  /** zns_sst_load. */
  method SstLoad(meta: MetaZone, sector: nat, limit: nat) returns (r: Result<Sstable>)
    modifies meta`faults
    ensures meta.faults >= old(meta.faults)
    ensures r.Ok? || r == Err(Invalid) ==> r == LoadAt(meta.content, sector, limit)
    ensures r.Err? && r.error != Invalid ==> meta.faults > old(meta.faults) && r.error != Success
  {
    hide DecodeHeader;
    if sector >= limit {
      return Err(Invalid);
    }
    var indexOk := meta.Allocate();
    if !indexOk {
      return Err(NoMem);
    }
    var bufferOk := meta.Allocate();
    if !bufferOk {
      return Err(NoMem);
    }
    var block := meta.ReadBlock(sector);
    if block.Err? {
      return Err(block.error);
    }
    var h := DecodeHeader(block.value);
    if h.Err? {
      return Err(Invalid);
    }
    if h.value.nrBlocks * BLOCK_SECTORS > limit - sector {
      return Err(Invalid);
    }
    return Ok(Sstable(sector, h.value));
  }

  /** The entries of a MemTable of 64-bit blocks and sectors, at most 2^32 - 1 of them. */
  predicate Storable(es: seq<Entry>, seqNo: nat) {
    es != [] && |es| < U32 && Sorted(es) && EntriesFit(es) && seqNo < U64
  }

  lemma HeaderOfValid(step: Checksum, es: seq<Entry>, seqNo: nat)
    requires Storable(es, seqNo)
    ensures HeaderFits(HeaderOf(step, es, seqNo)) && HeaderValid(HeaderOf(step, es, seqNo))
  {
    hide Crc, Payload;
  }

  /** Loading where a table was written finds exactly that table, provided all of it lies below the limit. */
  lemma LoadWritten(content: Media, step: Checksum, es: seq<Entry>, start: nat, seqNo: nat, limit: nat)
    requires Storable(es, seqNo) && BlockAt(content, start) == EncodeHeader(HeaderOf(step, es, seqNo))
    ensures LoadAt(content, start, limit) ==
            if start + Sectors(|es|) <= limit then Ok(Sstable(start, HeaderOf(step, es, seqNo))) else Err(Invalid)
  {
    hide Crc, Payload, DecodeHeader, EncodeHeader;
    HeaderOfValid(step, es, seqNo);
    HeaderRoundTrip(HeaderOf(step, es, seqNo));
  }

  // ----- Searching -----

  /** The keys of the first n entries of a block increase. */
  predicate KeysIncrease(block: Block, n: nat)
    requires n <= ENTRIES_PER_BLOCK
  {
    forall i, j | 0 <= i < j < n :: KeyAt(block, i) < KeyAt(block, j)
  }

  /** zns_sst_block_find. */
  method BlockFind(block: Block, nrInBlock: nat, b: nat) returns (r: Result<nat>)
    ensures nrInBlock == 0 || nrInBlock > ENTRIES_PER_BLOCK ==> r == Err(Invalid)
    ensures r.Ok? ==>
              nrInBlock <= ENTRIES_PER_BLOCK && exists i | 0 <= i < nrInBlock ::
                  KeyAt(block, i) == b && r.value == SectorAt(block, i)
    ensures 0 < nrInBlock <= ENTRIES_PER_BLOCK ==> r.Ok? || r == Err(NoData)
    ensures r == Err(NoData) && nrInBlock <= ENTRIES_PER_BLOCK && KeysIncrease(block, nrInBlock) ==>
              forall i | 0 <= i < nrInBlock :: KeyAt(block, i) != b
  {
    hide KeyAt, SectorAt;
    if nrInBlock == 0 || nrInBlock > ENTRIES_PER_BLOCK {
      return Err(Invalid);
    }
    var low: nat, high: nat := 0, nrInBlock;
    while low < high
      invariant low <= high <= nrInBlock
      invariant KeysIncrease(block, nrInBlock) ==> forall i | 0 <= i < low :: KeyAt(block, i) < b
      invariant KeysIncrease(block, nrInBlock) ==> forall i | high <= i < nrInBlock :: b < KeyAt(block, i)
    {
      var mid := low + (high - low) / 2;
      var key := KeyAt(block, mid);
      if key < b {
        low := mid + 1;
      } else if key > b {
        high := mid;
      } else {
        return Ok(SectorAt(block, mid));
      }
    }
    return Err(NoData);
  }

  /** The table that index sst describes is on the media, and holds the entries es. */
  ghost predicate Describes(content: Media, step: Checksum, sst: Sstable, es: seq<Entry>) {
    && Storable(es, sst.header.seqNo) && sst.header == HeaderOf(step, es, sst.header.seqNo)
    && StoredAt(content, sst.start, Image(step, es, sst.header.seqNo))
  }

  lemma PayloadAt(content: Media, step: Checksum, sst: Sstable, es: seq<Entry>, k: nat)
    requires Describes(content, step, sst, es) && k < PayloadBlocks(es)
    ensures k * ENTRIES_PER_BLOCK < |es|
    ensures BlockAt(content, sst.start + (k + 1) * BLOCK_SECTORS) == PayloadBlock(Chunk(es, k))
  {
    hide Crc, EncodeHeader, PayloadBlock, BlockAt;
    assert Image(step, es, sst.header.seqNo)[k + 1] == Payload(es)[k];
  }

  /** What payload block k of a stored table shows. */
  lemma BlockShows(es: seq<Entry>, k: nat, i: nat)
    requires EntriesFit(es) && k * ENTRIES_PER_BLOCK <= |es| && i < |Chunk(es, k)|
    ensures KeyAt(PayloadBlock(Chunk(es, k)), i) == es[k * ENTRIES_PER_BLOCK + i].block
    ensures SectorAt(PayloadBlock(Chunk(es, k)), i) == es[k * ENTRIES_PER_BLOCK + i].sector
  {
    hide KeyAt, SectorAt, PayloadBlock;
    PayloadBlockHolds(Chunk(es, k), i);
  }

  lemma ChunkKeysIncrease(es: seq<Entry>, k: nat)
    requires EntriesFit(es) && Sorted(es) && k * ENTRIES_PER_BLOCK <= |es|
    ensures KeysIncrease(PayloadBlock(Chunk(es, k)), |Chunk(es, k)|)
  {
    hide KeyAt, SectorAt, PayloadBlock;
    forall i, j | 0 <= i < j < |Chunk(es, k)|
      ensures KeyAt(PayloadBlock(Chunk(es, k)), i) < KeyAt(PayloadBlock(Chunk(es, k)), j)
    {
      BlockShows(es, k, i);
      BlockShows(es, k, j);
    }
  }

  /** What a mapping given by a list says about a block. */
  function Answer(es: seq<Entry>, b: nat): Result<nat> {
    if b in MapOf(es) then Ok(MapOf(es)[b]) else Err(NoData)
  }

  /** The value of `cached` before any block has been read. */
  const NOTHING_CACHED: nat := U32 - 1

  /** zns_sst_read_payload_block: read payload block index into the buffer unless it is there already. */
  method ReadPayloadBlock(meta: MetaZone, sst: Sstable, index: nat, block: Block, cached: nat)
    returns (r: Errno, block': Block, cached': nat)
    requires cached != NOTHING_CACHED ==> block == BlockAt(meta.content, sst.start + (cached + 1) * BLOCK_SECTORS)
    requires index < NOTHING_CACHED
    modifies meta`faults
    ensures r == Success ==>
              cached' == index && block' == BlockAt(meta.content, sst.start + (index + 1) * BLOCK_SECTORS)
    ensures r != Success ==> (r == NoMem || r == IoError) && meta.faults > old(meta.faults)
    ensures meta.faults >= old(meta.faults)
  {
    block', cached' := block, cached;
    if cached == index {
      return Success, block', cached';
    }
    var read := meta.ReadBlock(sst.start + (index + 1) * BLOCK_SECTORS);
    if read.Err? {
      return read.error, block', cached';
    }
    return Success, read.value, index;
  }

  /** The search range of zns_sst_lookup: if the block is in the table at all, it is in payload blocks low to high. */
  predicate InBlocks(es: seq<Entry>, b: nat, low: nat, high: nat) {
    && low <= high < PayloadBlocks(es)
    && (low == 0 || es[low * ENTRIES_PER_BLOCK].block <= b)
    && (high + 1 == PayloadBlocks(es) || b < es[(high + 1) * ENTRIES_PER_BLOCK].block)
  }

  lemma NarrowBlocks(content: Media, step: Checksum, sst: Sstable, es: seq<Entry>, b: nat, low: nat, high: nat,
                     mid: nat)
    requires Describes(content, step, sst, es) && InBlocks(es, b, low, high) && low < mid <= high
    ensures var first := KeyAt(BlockAt(content, sst.start + (mid + 1) * BLOCK_SECTORS), 0);
            if first <= b then InBlocks(es, b, mid, high) else InBlocks(es, b, low, mid - 1)
  {
    hide KeyAt, SectorAt, PayloadBlock, BlockAt, StoredAt, Image, HeaderOf, Sorted;
    PayloadAt(content, step, sst, es, mid);
    BlockShows(es, mid, 0);
  }

  lemma StartBlocks(es: seq<Entry>, b: nat)
    requires es != []
    ensures InBlocks(es, b, 0, NrBlocks(|es|) - 2)
  {
  }

  lemma OrderReflects(es: seq<Entry>, i: nat, j: nat)
    requires Sorted(es) && i < |es| && j < |es|
    ensures es[i].block < es[j].block <==> i < j
  {
    assert j < i ==> es[j].block < es[i].block;
  }

  /** A block that a table holds lies in the payload block that the search range has shrunk to. */
  lemma OnlyBlock(es: seq<Entry>, b: nat, k: nat, i: nat)
    requires Sorted(es) && InBlocks(es, b, k, k) && i < |es| && es[i].block == b
    ensures k * ENTRIES_PER_BLOCK <= i < k * ENTRIES_PER_BLOCK + |Chunk(es, k)|
  {
    hide Sorted;
    OrderReflects(es, i, k * ENTRIES_PER_BLOCK);
    if k + 1 < PayloadBlocks(es) {
      OrderReflects(es, i, (k + 1) * ENTRIES_PER_BLOCK);
    }
  }

  /** The search inside the one remaining block decides for the whole table. */
  lemma BlockDecides(es: seq<Entry>, b: nat, k: nat, r: Result<nat>)
    requires EntriesFit(es) && Sorted(es) && InBlocks(es, b, k, k)
    requires var block, n := PayloadBlock(Chunk(es, k)), |Chunk(es, k)|;
             && (r.Ok? || r == Err(NoData))
             && (r.Ok? ==> exists i | 0 <= i < n :: KeyAt(block, i) == b && r.value == SectorAt(block, i))
             && (r == Err(NoData) ==> forall i | 0 <= i < n :: KeyAt(block, i) != b)
    ensures r == Answer(es, b)
  {
    hide KeyAt, SectorAt, PayloadBlock, MapOf;
    var block, n := PayloadBlock(Chunk(es, k)), |Chunk(es, k)|;
    if r.Ok? {
      var i :| 0 <= i < n && KeyAt(block, i) == b && r.value == SectorAt(block, i);
      BlockShows(es, k, i);
      MapOfSorted(es);
      assert es[k * ENTRIES_PER_BLOCK + i].block == b;
    } else {
      MapOfKeys(es);
      if b in MapOf(es) {
        var i :| 0 <= i < |es| && es[i].block == b;
        OnlyBlock(es, b, k, i);
        BlockShows(es, k, i - k * ENTRIES_PER_BLOCK);
        assert false;
      }
    }
  }

  lemma OutsideKeys(es: seq<Entry>, b: nat)
    requires es != [] && Sorted(es) && (b < es[0].block || b > es[|es| - 1].block)
    ensures Answer(es, b) == Err(NoData)
  {
    MapOfKeys(es);
    hide MapOf, Sorted;
    forall i | 0 <= i < |es| ensures es[i].block != b {
      OrderReflects(es, i, 0);
      OrderReflects(es, |es| - 1, i);
    }
  }

  /** A search result that is the table's answer, or an error with a cause. */
  predicate Answered(es: seq<Entry>, b: nat, r: Result<nat>, failed: bool) {
    r == Answer(es, b) || (r.Err? && (r.error == NoMem || r.error == IoError) && failed)
  }

  /** zns_sst_lookup: it terminates on any index and any media, and on a stored table it answers as the table itself. */
  method SstLookup(meta: MetaZone, sst: Sstable, b: nat, ghost step: Checksum, ghost es: seq<Entry>)
    returns (r: Result<nat>)
    requires sst.header.nrEntries < U32 && sst.header.nrBlocks < U32
    modifies meta`faults
    ensures meta.faults >= old(meta.faults)
    ensures r == Err(NoMem) || r == Err(IoError) ==> meta.faults > old(meta.faults)
    ensures r.Err? ==> r.error != Success
    ensures Describes(meta.content, step, Sealed(step, sst, es), es) ==>
              Answered(es, b, r, meta.faults > old(meta.faults))
  {
    hide KeyAt, SectorAt, PayloadBlock, MapOf, Crc, StoredAt, Payload, EncodeHeader, Answer, BlockAt, InBlocks, Image;
    if sst.header.nrBlocks < 2 {
      return Err(Invalid);
    }
    ghost var full := Sealed(step, sst, es);
    ghost var described := Describes(meta.content, step, full, es);
    if b < sst.header.minKey || b > sst.header.maxKey {
      if described {
        OutsideKeys(es, b);
      }
      return Err(NoData);
    }
    var bufferOk := meta.Allocate();
    if !bufferOk {
      return Err(NoMem);
    }
    var block: Block, cached: nat := ZeroBlock(), NOTHING_CACHED;
    var low: nat, high: nat := 0, sst.header.nrBlocks - 2;
    if described {
      StartBlocks(es, b);
    }
    var e: Errno;
    while low < high
      invariant low <= high <= sst.header.nrBlocks - 2
      invariant cached != NOTHING_CACHED ==> block == BlockAt(meta.content, sst.start + (cached + 1) * BLOCK_SECTORS)
      invariant described ==> InBlocks(es, b, low, high)
      invariant meta.faults >= old(meta.faults)
    {
      var mid := low + (high - low + 1) / 2;
      e, block, cached := ReadPayloadBlock(meta, sst, mid, block, cached);
      if e != Success {
        return Err(e);
      }
      if described {
        NarrowBlocks(meta.content, step, full, es, b, low, high, mid);
      }
      if KeyAt(block, 0) <= b {
        low := mid;
      } else {
        high := mid - 1;
      }
    }
    e, block, cached := ReadPayloadBlock(meta, sst, low, block, cached);
    if e != Success {
      return Err(e);
    }
    r := BlockFind(block, EntriesInBlock(sst.header.nrEntries, low), b);
    if described {
      FoundInBlock(meta.content, step, full, es, b, low, block, r);
    }
  }

  lemma FoundInBlock(content: Media, step: Checksum, sst: Sstable, es: seq<Entry>, b: nat, k: nat, block: Block,
                     r: Result<nat>)
    requires Describes(content, step, sst, es) && InBlocks(es, b, k, k)
    requires block == BlockAt(content, sst.start + (k + 1) * BLOCK_SECTORS)
    requires var n := EntriesInBlock(|es|, k);
             && (r.Ok? ==> exists i | 0 <= i < n :: KeyAt(block, i) == b && r.value == SectorAt(block, i))
             && (0 < n ==> r.Ok? || r == Err(NoData))
             && (r == Err(NoData) && KeysIncrease(block, n) ==> forall i | 0 <= i < n :: KeyAt(block, i) != b)
    ensures r == Answer(es, b)
  {
    hide KeyAt, SectorAt, PayloadBlock, MapOf, Crc, StoredAt, Payload, EncodeHeader, Answer, BlockAt, Image;
    PayloadAt(content, step, sst, es, k);
    ChunkKeysIncrease(es, k);
    assert EntriesInBlock(|es|, k) == |Chunk(es, k)| > 0;
    BlockDecides(es, b, k, r);
  }
}
