/** The superblock of the metadata zone, and the step of attach that opens or formats that zone. */
module SuperBlocks {
  import opened Prelude
  import opened LittleEndian
  import opened Zones
  import opened MetaZones

  const SUPER_MAGIC: nat := 0x5a4e_5353_5550_4552
  const SUPER_VERSION: nat := 1

  /** The checksum of everything behind the checksum field; nothing is known about it but that it is a function. */
  type SuperChecksum = seq<byte> -> u32

  /** What a format was made for. The uuid identifies one format and is never compared. */
  datatype Super = Super(uuid: nat, logicalSectors: nat, zoneSectors: nat, nrZones: nat, metaZone: nat,
                         sectorsPerBlock: nat)

  predicate SuperFits(s: Super) {
    && s.uuid < U64 && s.logicalSectors < U64 && s.zoneSectors < U64
    && s.nrZones < U32 && s.metaZone < U32 && s.sectorsPerBlock < U32
  }

  const BODY_OFFSET: nat := 16
  const BODY_PADDING: nat := BLOCK_BYTES - BODY_OFFSET - 36

  /** Everything from the uuid on, padding included. */
  function Body(s: Super): (r: seq<byte>)
    ensures |r| == BLOCK_BYTES - BODY_OFFSET
  {
    ToLe(s.uuid, 8) + ToLe(s.logicalSectors, 8) + ToLe(s.zoneSectors, 8) +
    ToLe(s.nrZones, 4) + ToLe(s.metaZone, 4) + ToLe(s.sectorsPerBlock, 4) + seq(BODY_PADDING, i => 0)
  }

  function Prefix(crc: u32): (r: seq<byte>)
    ensures |r| == BODY_OFFSET
  {
    ToLe(SUPER_MAGIC, 8) + ToLe(SUPER_VERSION, 4) + ToLe(crc, 4)
  }

  /** zns_super_encode. */
  function EncodeSuper(crc: SuperChecksum, s: Super): Block {
    Prefix(crc(Body(s))) + Body(s)
  }

  function SuperFields(block: Block): Super {
    Super(Field(block, 16, 8), Field(block, 24, 8), Field(block, 32, 8),
          Field(block, 40, 4), Field(block, 44, 4), Field(block, 48, 4))
  }

  /** zns_super_decode. */
  function DecodeSuper(crc: SuperChecksum, block: Block): (r: Result<Super>)
    ensures r.Err? ==> r.error == Invalid
  {
    if Field(block, 0, 8) != SUPER_MAGIC then Err(Invalid)
    else if Field(block, 8, 4) != SUPER_VERSION then Err(Invalid)
    else if Field(block, 12, 4) != crc(block[BODY_OFFSET..]) then Err(Invalid)
    else Ok(SuperFields(block))
  }

  lemma PrefixFields(crc: u32, block: Block)
    requires block[..BODY_OFFSET] == Prefix(crc)
    ensures Field(block, 0, 8) == SUPER_MAGIC && Field(block, 8, 4) == SUPER_VERSION && Field(block, 12, 4) == crc
  {
    hide ToLe, FromLe, Field, Pow256;
    Widths();
    var front := block[..BODY_OFFSET];
    assert front == ToLe(SUPER_MAGIC, 8) + ToLe(SUPER_VERSION, 4) + ToLe(crc, 4);
    assert block[0..0 + 8] == front[0..8] == ToLe(SUPER_MAGIC, 8);
    assert block[8..8 + 4] == front[8..12] == ToLe(SUPER_VERSION, 4);
    assert block[12..12 + 4] == front[12..16] == ToLe(crc, 4);
    FieldHolds(block, 0, 8, SUPER_MAGIC);
    FieldHolds(block, 8, 4, SUPER_VERSION);
    FieldHolds(block, 12, 4, crc);
  }

  lemma BodyFields(s: Super, block: Block)
    requires SuperFits(s) && block[BODY_OFFSET..] == Body(s)
    ensures SuperFields(block) == s
  {
    hide ToLe, FromLe, Field, Pow256;
    Widths();
    var body := block[BODY_OFFSET..];
    assert block[16..16 + 8] == body[0..8] == ToLe(s.uuid, 8);
    assert block[24..24 + 8] == body[8..16] == ToLe(s.logicalSectors, 8);
    assert block[32..32 + 8] == body[16..24] == ToLe(s.zoneSectors, 8);
    assert block[40..40 + 4] == body[24..28] == ToLe(s.nrZones, 4);
    assert block[44..44 + 4] == body[28..32] == ToLe(s.metaZone, 4);
    assert block[48..48 + 4] == body[32..36] == ToLe(s.sectorsPerBlock, 4);
    FieldHolds(block, 16, 8, s.uuid);
    FieldHolds(block, 24, 8, s.logicalSectors);
    FieldHolds(block, 32, 8, s.zoneSectors);
    FieldHolds(block, 40, 4, s.nrZones);
    FieldHolds(block, 44, 4, s.metaZone);
    FieldHolds(block, 48, 4, s.sectorsPerBlock);
  }

  /** A superblock reads back as it was written. */
  lemma SuperRoundTrip(crc: SuperChecksum, s: Super)
    requires SuperFits(s)
    ensures DecodeSuper(crc, EncodeSuper(crc, s)) == Ok(s)
  {
    hide Body, Prefix, SuperFields;
    var block := EncodeSuper(crc, s);
    assert block[..BODY_OFFSET] == Prefix(crc(Body(s))) && block[BODY_OFFSET..] == Body(s);
    PrefixFields(crc(Body(s)), block);
    BodyFields(s, block);
  }

  /** The superblock byte by byte: little-endian fields at the offsets of struct zns_super_disk, zeros behind them. */
  lemma SuperLayout(crc: SuperChecksum, s: Super)
    requires SuperFits(s)
    ensures var b := EncodeSuper(crc, s);
            && b[0..8] == [0x52, 0x45, 0x50, 0x55, 0x53, 0x53, 0x4e, 0x5a] && b[8..12] == [1, 0, 0, 0]
            && FromLe(b[12..16]) == crc(b[16..]) && FromLe(b[16..24]) == s.uuid
            && FromLe(b[24..32]) == s.logicalSectors && FromLe(b[32..40]) == s.zoneSectors
            && FromLe(b[40..44]) == s.nrZones && FromLe(b[44..48]) == s.metaZone
            && FromLe(b[48..52]) == s.sectorsPerBlock && forall i | 52 <= i < 4096 :: b[i] == 0
  {
    hide FromLe, Pow256, Body, Prefix, SuperFields;
    var b := EncodeSuper(crc, s);
    assert b[..BODY_OFFSET] == Prefix(crc(Body(s))) && b[BODY_OFFSET..] == Body(s);
    PrefixFields(crc(Body(s)), b);
    BodyFields(s, b);
    SuperFieldsAt(b);
    PrefixBytes(b, crc(Body(s)));
    BodyPadding(s);
  }

  lemma SuperFieldsAt(b: Block)
    ensures var s := SuperFields(b);
            && s.uuid == FromLe(b[16..24]) && s.logicalSectors == FromLe(b[24..32])
            && s.zoneSectors == FromLe(b[32..40]) && s.nrZones == FromLe(b[40..44]) && s.metaZone == FromLe(b[44..48])
            && s.sectorsPerBlock == FromLe(b[48..52])
    ensures Field(b, 12, 4) == FromLe(b[12..16])
  {
  }

  lemma PrefixBytes(b: Block, crc: u32)
    requires b[..BODY_OFFSET] == Prefix(crc)
    ensures b[0..8] == [0x52, 0x45, 0x50, 0x55, 0x53, 0x53, 0x4e, 0x5a] && b[8..12] == [1, 0, 0, 0]
  {
    SuperMagicBytes();
    hide ToLe;
    var front := b[..BODY_OFFSET];
    assert b[0..8] == front[0..8] == ToLe(SUPER_MAGIC, 8);
    assert b[8..12] == front[8..12] == ToLe(SUPER_VERSION, 4);
  }

  lemma SuperMagicBytes()
    ensures ToLe(SUPER_MAGIC, 8) == [0x52, 0x45, 0x50, 0x55, 0x53, 0x53, 0x4e, 0x5a]
    ensures ToLe(SUPER_VERSION, 4) == [1, 0, 0, 0]
  {
    hide ToLe;
    BytesOf([0x52, 0x45, 0x50, 0x55, 0x53, 0x53, 0x4e, 0x5a],
            [0x5a4e_5353_5550_4552, 0x5a_4e53_5355_5045, 0x5a4e_5353_5550, 0x5a_4e53_5355, 0x5a4e_5353, 0x5a_4e53,
             0x5a4e, 0x5a, 0]);
    BytesOf([1, 0, 0, 0], [1, 0, 0, 0, 0]);
  }

  lemma BodyPadding(s: Super)
    ensures forall i | 36 <= i < BLOCK_BYTES - BODY_OFFSET :: Body(s)[i] == 0
  {
    hide ToLe;
  }

  /** A block decodes exactly if it starts with the magic number and the version and carries its checksum. */
  lemma SuperDecodes(crc: SuperChecksum, b: Block)
    ensures DecodeSuper(crc, b).Ok? <==>
            && b[0..8] == [0x52, 0x45, 0x50, 0x55, 0x53, 0x53, 0x4e, 0x5a] && b[8..12] == [1, 0, 0, 0]
            && FromLe(b[12..16]) == crc(b[16..])
  {
    hide FromLe, Pow256, SuperFields;
    SuperMagicBytes();
    Widths();
    SuperFieldsAt(b);
    hide ToLe;
    EncodeDecoded(b[0..8]);
    EncodeDecoded(b[8..12]);
    DecodeEncoded(SUPER_MAGIC, 8);
    DecodeEncoded(SUPER_VERSION, 4);
    assert Field(b, 0, 8) == FromLe(b[0..8]) && Field(b, 8, 4) == FromLe(b[8..12]);
  }

  /** zns_super_matches. */
  function Matches(onDisk: Super, device: Super): (r: Errno)
    ensures r == Success <==> onDisk == device.(uuid := onDisk.uuid)
    ensures r != Success ==> r == Invalid
  {
    if onDisk.sectorsPerBlock != device.sectorsPerBlock then Invalid
    else if onDisk.nrZones != device.nrZones then Invalid
    else if onDisk.zoneSectors != device.zoneSectors then Invalid
    else if onDisk.metaZone != device.metaZone then Invalid
    else if onDisk.logicalSectors != device.logicalSectors then Invalid
    else Success
  }

  /** The first block of the zone is a superblock for this very device. */
  predicate FormatOk(crc: SuperChecksum, block: Block, device: Super) {
    DecodeSuper(crc, block).Ok? && Matches(DecodeSuper(crc, block).value, device) == Success
  }

  /** zns_lsm_open_metadata on the last zone of the report: an empty zone is formatted, any other must hold a superblock
      for this device; a full zone counts as written up to its capacity. Without failures it succeeds exactly then. */
  method OpenMetadata(meta: MetaZone, crc: SuperChecksum, zone: Zone, nrZones: nat, logicalSectors: nat, uuid: nat)
    returns (r: Errno, super: Super, metaWp: nat)
    requires Describing(zone, meta.start, meta.end, meta.wp) && 0 < nrZones
    requires SuperFits(Super(uuid, logicalSectors, zone.length, nrZones, nrZones - 1, BLOCK_SECTORS))
    modifies meta
    ensures meta.faults >= old(meta.faults)
    ensures var device := Super(uuid, logicalSectors, zone.length, nrZones, nrZones - 1, BLOCK_SECTORS);
            var fill := if zone.cond == Full then zone.start + zone.capacity else zone.wp;
            var opens := && nrZones >= 2 && BLOCK_SECTORS <= zone.capacity && zone.start <= zone.wp
                         && fill <= zone.start + zone.capacity
                         && (fill != zone.start ==> FormatOk(crc, BlockAt(old(meta.content), meta.start), device));
            && (r == Success ==> opens) && (meta.faults == old(meta.faults) && opens ==> r == Success)
            && (r == Success ==>
                  && FormatOk(crc, BlockAt(meta.content, meta.start), device) && super.(uuid := uuid) == device
                  && DecodeSuper(crc, BlockAt(meta.content, meta.start)) == Ok(super) && metaWp == meta.wp > meta.start
                  && if old(meta.wp) == meta.start then
                       meta.wp == meta.start + BLOCK_SECTORS && super == device
                       && meta.content == old(meta.content)[meta.start := EncodeSuper(crc, device)]
                     else meta.content == old(meta.content) && meta.wp == old(meta.wp))
    ensures old(meta.wp) <= meta.wp && SameBelow(old(meta.content), meta.content, old(meta.wp))
  {
    hide DecodeSuper, EncodeSuper;
    super, metaWp := Super(uuid, logicalSectors, zone.length, nrZones, nrZones - 1, BLOCK_SECTORS), 0;
    if nrZones < 2 {
      return Invalid, super, metaWp;
    }
    if zone.capacity < BLOCK_SECTORS {
      return Invalid, super, metaWp;
    }
    if zone.wp < zone.start {
      return Invalid, super, metaWp;
    }
    if zone.cond == Full {
      metaWp := zone.End();
    } else {
      if zone.wp > zone.End() {
        return Invalid, super, metaWp;
      }
      metaWp := zone.wp;
    }
    var bufferOk := meta.Allocate();
    if !bufferOk {
      return NoMem, super, metaWp;
    }
    if metaWp != zone.start {
      var block := meta.ReadBlock(zone.start);
      if block.Err? {
        return block.error, super, metaWp;
      }
      var onDisk := DecodeSuper(crc, block.value);
      if onDisk.Err? {
        return onDisk.error, super, metaWp;
      }
      r := Matches(onDisk.value, super);
      if r != Success {
        return r, super, metaWp;
      }
      super := onDisk.value;
      return Success, super, metaWp;
    }
    r := meta.WriteBlock(zone.start, EncodeSuper(crc, super));
    if r == Success {
      SuperRoundTrip(crc, super);
      metaWp := zone.start + BLOCK_SECTORS;
    }
  }
}
