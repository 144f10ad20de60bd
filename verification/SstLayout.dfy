/** Block-count arithmetic of an on-disk SSTable: one header block, then payload blocks of 256 entries. */
module SstLayout {
  import opened Prelude

  const ENTRIES_PER_BLOCK: nat := 256

  /** zns_sst_nr_blocks: header included. */
  function NrBlocks(entries: nat): (n: nat)
    ensures (n - 1) * 256 >= entries
    ensures entries > 0 ==> n >= 2 && (n - 2) * 256 < entries
    ensures entries == 0 ==> n == 1
  {
    1 + (entries + ENTRIES_PER_BLOCK - 1) / ENTRIES_PER_BLOCK
  }

  /** zns_sst_entries_in_block; the product is truncated to 32 bits as in the source. */
  function EntriesInBlock(entries: nat, index: nat): (n: nat)
    requires entries < U32
    ensures n <= 256
    ensures index + 1 < NrBlocks(entries) ==>
              index * 256 < entries && n == if entries - index * 256 < 256 then entries - index * 256 else 256
  {
    var consumed := (index * ENTRIES_PER_BLOCK) % U32;
    if consumed >= entries then 0
    else if entries - consumed < ENTRIES_PER_BLOCK then entries - consumed else ENTRIES_PER_BLOCK
  }

  function Sectors(entries: nat): nat { BLOCK_SECTORS * NrBlocks(entries) }
}
