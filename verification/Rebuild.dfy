/** Rebuilding the garbage-collection index from the SSTables: a scan in which the newest entry of a block wins. */
module Rebuild {
  import opened Prelude
  import opened SstLayout
  import opened MetaZones
  import opened MemTables
  import opened SsTables
  import opened Recovery
  import opened Zones
  import opened GcIndexes
  import G = Generations
  import P = FlushProtocol

  /** Mapping m agrees with mapping w wherever it is defined. */
  predicate Within(m: G.Mapping, w: G.Mapping) {
    forall b | b in m :: b in w && w[b] == m[b]
  }

  predicate KeysBelow(m: G.Mapping, n: nat) {
    forall b | b in m :: b < n
  }

  /** A mapping that an index over these zones can represent: every block in range, every sector the start of a written
      block, no sector twice. */
  predicate Restorable(zones: seq<Zone>, logicalBlocks: nat, w: G.Mapping) {
    && KeysBelow(w, logicalBlocks)
    && (forall b | b in w :: SlotAt(zones, w[b]).Some?)
    && (forall b, c | b in w && c in w && b != c :: w[b] != w[c])
  }

  /** A consistent index is itself such a mapping. */
  lemma ConsistentRestorable(zones: seq<Zone>, x: Index, logicalBlocks: nat)
    requires KeysBelow(x.latest, logicalBlocks) && Consistent(zones, x)
    ensures Restorable(zones, logicalBlocks, x.latest)
  {
    hide Consistent, SlotAt;
    forall b | b in x.latest ensures SlotAt(zones, x.latest[b]).Some? {
      MappedRecords(zones, x, b);
    }
    forall b, c | b in x.latest && c in x.latest && b != c ensures x.latest[b] != x.latest[c] {
      MappedSlotsDistinct(zones, x, b, c);
    }
  }

  /** An entry that cannot be restored belongs to a mapping that no index can represent. */
  lemma EntryRefused(zones: seq<Zone>, x: Index, logicalBlocks: nat, w: G.Mapping, b: nat, p: nat)
    requires Within(x.latest, w) && b in w && (b !in x.latest ==> w[b] == p)
    requires b >= logicalBlocks || (b !in x.latest && !Unowned(zones, x, p))
    requires Consistent(zones, x)
    ensures !Restorable(zones, logicalBlocks, w)
  {
    hide Consistent, SlotAt;
    RevealShape(zones, x);
    if b < logicalBlocks && SlotAt(zones, p).Some? {
      var s := SlotAt(zones, p).value;
      OwnedSlotMapped(zones, x, s);
      var c := Owner(x.reverse, s) - 1;
      assert c in w && w[c] == p && c != b;
    }
  }

  lemma RestorablePart(zones: seq<Zone>, logicalBlocks: nat, m: G.Mapping, w: G.Mapping)
    requires Within(m, w) && Restorable(zones, logicalBlocks, w)
    ensures Restorable(zones, logicalBlocks, m)
  {
    hide SlotAt;
  }

  // ----- What a scan of the media yields -----

  /** The entries in the payload of a table, straight from the media. */
  function EntriesOn(content: Media, sst: Sstable): seq<Entry> {
    seq(sst.header.nrEntries, i requires 0 <= i < sst.header.nrEntries =>
      var block := BlockAt(content, sst.start + (i / ENTRIES_PER_BLOCK + 1) * BLOCK_SECTORS);
      Entry(KeyAt(block, i % ENTRIES_PER_BLOCK), SectorAt(block, i % ENTRIES_PER_BLOCK), 0))
  }

  /** Entries put under newer mappings v: the first entry of a block wins, and a newer mapping wins over all of them. */
  function FirstWins(v: G.Mapping, es: seq<Entry>): G.Mapping {
    if es == [] then v
    else
      var w := FirstWins(v, es[..|es| - 1]);
      var e := es[|es| - 1];
      if e.block in w then w else w[e.block := e.sector]
  }

  /** What the tables of a list map, newest table first, as the media has them. */
  function LogMap(content: Media, ssts: seq<Sstable>): G.Mapping {
    if ssts == [] then map[]
    else FirstWins(LogMap(content, ssts[..|ssts| - 1]), EntriesOn(content, ssts[|ssts| - 1]))
  }

  lemma FirstWinsNext(v: G.Mapping, es: seq<Entry>, m: nat)
    requires m < |es|
    ensures var w := FirstWins(v, es[..m]);
            FirstWins(v, es[..m + 1]) == if es[m].block in w then w else w[es[m].block := es[m].sector]
  {
    assert es[..m + 1][..m] == es[..m];
  }

  /** The scan only ever adds. */
  lemma {:induction false} FirstWinsAdds(v: G.Mapping, es: seq<Entry>, m: nat)
    requires m <= |es|
    ensures Within(FirstWins(v, es[..m]), FirstWins(v, es))
    decreases |es| - m
  {
    if m == |es| {
      assert es[..m] == es;
    } else {
      FirstWinsAdds(v, es, m + 1);
      FirstWinsNext(v, es, m);
      hide FirstWins;
    }
  }

  lemma FirstWinsWithin(v: G.Mapping, es: seq<Entry>)
    ensures Within(v, FirstWins(v, es))
  {
    FirstWinsAdds(v, es, 0);
    assert es[..0] == [];
  }

  /** The entry that the scan meets next is in what it is heading for, with its own sector unless its block is known. */
  lemma EntryAhead(v: G.Mapping, es: seq<Entry>, m: nat)
    requires m < |es|
    ensures var w := FirstWins(v, es);
            && Within(FirstWins(v, es[..m]), w) && es[m].block in w
            && (es[m].block !in FirstWins(v, es[..m]) ==> w[es[m].block] == es[m].sector)
  {
    FirstWinsAdds(v, es, m);
    FirstWinsAdds(v, es, m + 1);
    FirstWinsNext(v, es, m);
    hide FirstWins;
  }

  lemma LogMapNext(content: Media, ssts: seq<Sstable>, i: nat)
    requires i < |ssts|
    ensures LogMap(content, ssts[..i + 1]) == FirstWins(LogMap(content, ssts[..i]), EntriesOn(content, ssts[i]))
  {
    assert ssts[..i + 1][..i] == ssts[..i];
  }

  lemma {:induction false} LogMapAdds(content: Media, ssts: seq<Sstable>, i: nat)
    requires i <= |ssts|
    ensures Within(LogMap(content, ssts[..i]), LogMap(content, ssts))
    decreases |ssts| - i
  {
    if i == |ssts| {
      assert ssts[..i] == ssts;
    } else {
      LogMapAdds(content, ssts, i + 1);
      LogMapNext(content, ssts, i);
      FirstWinsWithin(LogMap(content, ssts[..i]), EntriesOn(content, ssts[i]));
      hide FirstWins, LogMap, EntriesOn;
    }
  }

  // ----- Stored tables -----

  /** Restoring entry m of a sorted table on top of newer mappings v. */
  lemma RestoreNext(es: seq<Entry>, m: nat, v: G.Mapping)
    requires Sorted(es) && m < |es|
    ensures var before := MapOf(es[..m]) + v;
            MapOf(es[..m + 1]) + v == if es[m].block in before then before else before[es[m].block := es[m].sector]
  {
    assert es[..m + 1][..m] == es[..m];
    MapOfStep(es[..m + 1]);
    MapOfKeys(es[..m]);
    hide MapOf;
    assert es[m].block !in MapOf(es[..m]);
  }

  /** In a sorted table no block occurs twice, so that its first entry is its only one. */
  lemma {:induction false} SortedFirstWins(es: seq<Entry>, fs: seq<Entry>, v: G.Mapping, m: nat)
    requires Sorted(es) && m <= |es| == |fs|
    requires forall i | 0 <= i < |es| :: es[i].block == fs[i].block && es[i].sector == fs[i].sector
    ensures FirstWins(v, fs[..m]) == MapOf(es[..m]) + v
  {
    if m > 0 {
      SortedFirstWins(es, fs, v, m - 1);
      RestoreNext(es, m - 1, v);
      FirstWinsNext(v, fs, m - 1);
      hide FirstWins, MapOf;
    }
  }

  lemma EntryOn(content: Media, step: Checksum, t: DiskTable, i: nat)
    requires i < |t.es| && Describes(content, step, t.sst, t.es)
    ensures var block := BlockAt(content, t.sst.start + (i / ENTRIES_PER_BLOCK + 1) * BLOCK_SECTORS);
            KeyAt(block, i % ENTRIES_PER_BLOCK) == t.es[i].block
              && SectorAt(block, i % ENTRIES_PER_BLOCK) == t.es[i].sector
  {
    hide MapOf, KeyAt, SectorAt, BlockAt, PayloadBlock, StoredAt, Image, HeaderOf, Sorted;
    var k, j := i / ENTRIES_PER_BLOCK, i % ENTRIES_PER_BLOCK;
    assert i == k * ENTRIES_PER_BLOCK + j && k < PayloadBlocks(t.es);
    PayloadAt(content, step, t.sst, t.es, k);
    assert j < |Chunk(t.es, k)|;
    BlockShows(t.es, k, j);
  }

  lemma EntriesShown(content: Media, step: Checksum, t: DiskTable)
    requires Describes(content, step, t.sst, t.es)
    ensures Sorted(t.es) && |EntriesOn(content, t.sst)| == |t.es|
    ensures forall i | 0 <= i < |t.es| ::
              && EntriesOn(content, t.sst)[i].block == t.es[i].block
              && EntriesOn(content, t.sst)[i].sector == t.es[i].sector
  {
    hide MapOf, KeyAt, SectorAt, BlockAt, StoredAt, Image, Crc;
    forall i | 0 <= i < |t.es|
      ensures EntriesOn(content, t.sst)[i].block == t.es[i].block
              && EntriesOn(content, t.sst)[i].sector == t.es[i].sector
    {
      EntryOn(content, step, t, i);
    }
  }

  lemma DescribedTable(content: Media, step: Checksum, sst: Sstable, es: seq<Entry>)
    requires Describes(content, step, sst, es)
    ensures sst.header.nrEntries == |es| && sst.header.nrBlocks == 1 + |Payload(es)| && |Payload(es)| > 0
    ensures sst.header.crc == Crc(step, Payload(es))
  {
    hide Crc, Payload;
  }

  /** The payload blocks of a table as the media holds them, whatever they are. */
  function PayloadOn(content: Media, sst: Sstable): (blocks: seq<Block>)
    ensures |blocks| == if sst.header.nrBlocks == 0 then 0 else sst.header.nrBlocks - 1
  {
    seq(if sst.header.nrBlocks == 0 then 0 else sst.header.nrBlocks - 1, k requires 0 <= k =>
      BlockAt(content, sst.start + (k + 1) * BLOCK_SECTORS))
  }

  /** The header's checksum is that of the payload found on the media. */
  predicate ChecksumOk(content: Media, step: Checksum, sst: Sstable) {
    sst.header.crc == Crc(step, PayloadOn(content, sst))
  }

  /** Every listed table carries the checksum of the payload behind it. */
  predicate ChecksumsOk(content: Media, step: Checksum, ssts: seq<Sstable>) {
    forall i | 0 <= i < |ssts| :: ChecksumOk(content, step, ssts[i])
  }

  lemma StoredChecksum(content: Media, step: Checksum, t: DiskTable)
    requires Describes(content, step, t.sst, t.es)
    ensures ChecksumOk(content, step, t.sst)
  {
    hide Describes, Crc, BlockAt, PayloadBlock;
    DescribedTable(content, step, t.sst, t.es);
    var found := PayloadOn(content, t.sst);
    forall k | 0 <= k < |found| ensures found[k] == Payload(t.es)[k] {
      PayloadAt(content, step, t.sst, t.es, k);
    }
    assert found == Payload(t.es);
  }

  /** The view of a list is that of its tail under its first table. */
  lemma NewestTable(ssts: seq<P.Sst>, rest: seq<P.Sst>)
    requires ssts != [] && ssts[1..] == rest
    ensures P.SstsView(ssts) == P.SstsView(rest) + ssts[0].entries
  {
  }

  /** Putting the next older table under the newer ones. */
  lemma {:induction false} ViewExtends(ssts: seq<P.Sst>, i: nat)
    requires i < |ssts|
    ensures P.SstsView(ssts[..i + 1]) == ssts[i].entries + P.SstsView(ssts[..i])
  {
    if i == 0 {
      assert ssts[..1][1..] == [];
    } else {
      hide P.SstsView;
      ViewExtends(ssts[1..], i - 1);
      NewestTable(ssts[..i + 1], ssts[1..][..i]);
      NewestTable(ssts[..i], ssts[1..][..i - 1]);
    }
  }

  lemma StoredNext(content: Media, step: Checksum, t: DiskTable, v: G.Mapping)
    requires Describes(content, step, t.sst, t.es)
    ensures FirstWins(v, EntriesOn(content, t.sst)) == MapOf(t.es) + v
  {
    hide Describes, FirstWins, MapOf, EntriesOn;
    EntriesShown(content, step, t);
    var fs := EntriesOn(content, t.sst);
    SortedFirstWins(t.es, fs, v, |t.es|);
    assert fs[..|t.es|] == fs && t.es[..|t.es|] == t.es;
  }

  /** On stored tables the scan yields what newest-first lookup maps, and every checksum is right. */
  lemma {:induction false} StoredLogMap(content: Media, step: Checksum, tables: seq<DiskTable>, i: nat)
    requires AllDescribed(content, step, tables) && i <= |tables|
    ensures LogMap(content, Indexes(tables)[..i]) == P.SstsView(Abstracts(tables)[..i])
  {
    hide Describes, FirstWins, LogMap, MapOf, EntriesOn, P.SstsView;
    if i == 0 {
      NoTables(content, Indexes(tables));
      NoViews(Abstracts(tables));
    } else {
      StoredLogMap(content, step, tables, i - 1);
      LogMapNext(content, Indexes(tables), i - 1);
      ViewExtends(Abstracts(tables), i - 1);
      assert Describes(content, step, tables[i - 1].sst, tables[i - 1].es);
      StoredNext(content, step, tables[i - 1], P.SstsView(Abstracts(tables)[..i - 1]));
    }
  }

  lemma NoViews(ssts: seq<P.Sst>)
    ensures P.SstsView(ssts[..0]) == map[]
  {
  }

  lemma StoredLog(content: Media, step: Checksum, tables: seq<DiskTable>)
    requires AllDescribed(content, step, tables)
    ensures LogMap(content, Indexes(tables)) == P.SstsView(Abstracts(tables))
    ensures ChecksumsOk(content, step, Indexes(tables))
  {
    hide Describes, LogMap, P.SstsView, ChecksumOk;
    StoredLogMap(content, step, tables, |tables|);
    assert Indexes(tables)[..|tables|] == Indexes(tables) && Abstracts(tables)[..|tables|] == Abstracts(tables);
    forall i | 0 <= i < |tables| ensures ChecksumOk(content, step, Indexes(tables)[i]) {
      StoredChecksum(content, step, tables[i]);
    }
  }

  // ----- The rebuild -----

  /** A payload block shows the given entries from number first on. */
  predicate Shows(block: Block, es: seq<Entry>, first: nat, count: nat)
    requires first + count <= |es| && count <= ENTRIES_PER_BLOCK
  {
    forall j | 0 <= j < count :: KeyAt(block, j) == es[first + j].block && SectorAt(block, j) == es[first + j].sector
  }

  /** The entry loop of zns_lsm_gc_rebuild over payload block k of a table with entries es, put under mappings v. */
  method RestoreBlock(meta: MetaZone, zones: seq<Zone>, logicalBlocks: nat, index: GcIndex, block: Block, count: nat,
                      ghost es: seq<Entry>, ghost k: nat, ghost v: G.Mapping)
    returns (r: Errno)
    requires Disjoint(zones) && KeysBelow(index.latest, logicalBlocks) && count <= ENTRIES_PER_BLOCK
    requires k * ENTRIES_PER_BLOCK + count <= |es| && index.latest == FirstWins(v, es[..k * ENTRIES_PER_BLOCK])
    requires Shows(block, es, k * ENTRIES_PER_BLOCK, count)
    requires Consistent(zones, index.Value())
    modifies meta`faults, index
    ensures Consistent(zones, index.Value()) && KeysBelow(index.latest, logicalBlocks)
    ensures meta.faults >= old(meta.faults)
    ensures r == Success || r == Invalid || (r == NoMem && meta.faults > old(meta.faults))
    ensures r == Success ==> index.latest == FirstWins(v, es[..k * ENTRIES_PER_BLOCK + count])
    ensures r == Invalid ==> !Restorable(zones, logicalBlocks, FirstWins(v, es))
  {
    hide Consistent, FirstWins, KeyAt, SectorAt, Restorable, Within, Unowned;
    ghost var first := k * ENTRIES_PER_BLOCK;
    for j := 0 to count
      invariant Consistent(zones, index.Value()) && KeysBelow(index.latest, logicalBlocks)
      invariant meta.faults >= old(meta.faults)
      invariant index.latest == FirstWins(v, es[..first + j])
    {
      var memoryOk := meta.Allocate();
      ghost var x := index.Value();
      EntryAhead(v, es, first + j);
      FirstWinsNext(v, es, first + j);
      r := index.RestoreEntry(zones, logicalBlocks, KeyAt(block, j), SectorAt(block, j), memoryOk);
      if r != Success {
        if r == Invalid {
          EntryRefused(zones, x, logicalBlocks, FirstWins(v, es), KeyAt(block, j), SectorAt(block, j));
        }
        return r;
      }
    }
    r := Success;
  }

  /** Entries restored once the first pages of a table are done. */
  function Done(nrEntries: nat, page: nat, nrBlocks: nat): nat {
    if page + 1 == nrBlocks then nrEntries else page * ENTRIES_PER_BLOCK
  }

  lemma EntryPlace(page: nat, j: nat)
    requires j < ENTRIES_PER_BLOCK
    ensures (page * ENTRIES_PER_BLOCK + j) / ENTRIES_PER_BLOCK == page
    ensures (page * ENTRIES_PER_BLOCK + j) % ENTRIES_PER_BLOCK == j
  {
  }

  lemma PageCount(n: nat, page: nat)
    requires n < U32 && page + 1 < NrBlocks(n)
    ensures var count := EntriesInBlock(n, page);
            && Done(n, page, NrBlocks(n)) == page * ENTRIES_PER_BLOCK
            && Done(n, page + 1, NrBlocks(n)) == page * ENTRIES_PER_BLOCK + count <= n
  {
    hide EntriesInBlock, NrBlocks;
  }

  /** The entries that one payload block of a valid table shows. */
  lemma PageEntries(content: Media, sst: Sstable, page: nat)
    requires HeaderValid(sst.header) && sst.header.nrEntries < U32 && page + 1 < sst.header.nrBlocks
    ensures var n, count := sst.header.nrEntries, EntriesInBlock(sst.header.nrEntries, page);
            && Done(n, page, sst.header.nrBlocks) == page * ENTRIES_PER_BLOCK
            && Done(n, page + 1, sst.header.nrBlocks) == page * ENTRIES_PER_BLOCK + count <= n
            && Shows(BlockAt(content, sst.start + (page + 1) * BLOCK_SECTORS), EntriesOn(content, sst),
                     page * ENTRIES_PER_BLOCK, count)
  {
    hide KeyAt, SectorAt, BlockAt, NrBlocks, EntriesInBlock, Done;
    PageCount(sst.header.nrEntries, page);
    var block, es := BlockAt(content, sst.start + (page + 1) * BLOCK_SECTORS), EntriesOn(content, sst);
    var first := page * ENTRIES_PER_BLOCK;
    forall j | 0 <= j < EntriesInBlock(sst.header.nrEntries, page)
      ensures KeyAt(block, j) == es[first + j].block && SectorAt(block, j) == es[first + j].sector
    {
      EntryPlace(page, j);
    }
  }

  /** One table of zns_lsm_gc_rebuild, whatever the media holds: all its payload blocks, then the checksum. */
  method RestoreTable(meta: MetaZone, step: Checksum, zones: seq<Zone>, logicalBlocks: nat, index: GcIndex,
                      sst: Sstable)
    returns (r: Errno)
    requires Disjoint(zones) && KeysBelow(index.latest, logicalBlocks)
    requires HeaderValid(sst.header) && sst.header.nrEntries < U32
    requires Consistent(zones, index.Value())
    modifies meta`faults, index
    ensures Consistent(zones, index.Value()) && KeysBelow(index.latest, logicalBlocks)
    ensures meta.faults >= old(meta.faults)
    ensures r == Success || r == Invalid || ((r == NoMem || r == IoError) && meta.faults > old(meta.faults))
    ensures var w := FirstWins(old(index.latest), EntriesOn(meta.content, sst));
            && (r == Success ==> index.latest == w && sst.header.crc == Crc(step, PayloadOn(meta.content, sst)))
            && (r == Invalid ==>
                  !Restorable(zones, logicalBlocks, w) || sst.header.crc != Crc(step, PayloadOn(meta.content, sst)))
  {
    hide Consistent, FirstWins, Restorable, Crc, EntriesInBlock, NrBlocks, EntriesOn, KeyAt, SectorAt;
    ghost var v, es, n, blocks := index.latest, EntriesOn(meta.content, sst), sst.header.nrEntries, sst.header.nrBlocks;
    ghost var found := PayloadOn(meta.content, sst);
    TableShape(meta.content, sst);
    NothingWon(v, es);
    FirstBlocks(found, step, meta.content, 0);
    var crc: u32 := 0;
    var page: nat := 0;
    while page + 1 < sst.header.nrBlocks
      invariant Consistent(zones, index.Value()) && KeysBelow(index.latest, logicalBlocks)
      invariant meta.faults >= old(meta.faults)
      invariant page <= |found| && crc == Crc(step, found[..page])
      invariant page + 1 <= blocks && Done(n, page, blocks) <= n
      invariant index.latest == FirstWins(v, es[..Done(n, page, blocks)])
      decreases sst.header.nrBlocks - page
    {
      var block := meta.ReadBlock(sst.start + (page + 1) * BLOCK_SECTORS);
      if block.Err? {
        return block.error;
      }
      PageEntries(meta.content, sst, page);
      CrcNext(step, found, page);
      crc := step(crc, block.value);
      r := RestoreBlock(meta, zones, logicalBlocks, index, block.value, EntriesInBlock(sst.header.nrEntries, page), es,
                        page, v);
      if r != Success {
        return r;
      }
      page := page + 1;
    }
    if crc != sst.header.crc {
      return Invalid;
    }
    r := Success;
  }

  lemma TableShape(content: Media, sst: Sstable)
    requires HeaderValid(sst.header)
    ensures sst.header.nrBlocks >= 2 && |EntriesOn(content, sst)| == sst.header.nrEntries
    ensures Done(sst.header.nrEntries, 0, sst.header.nrBlocks) == 0
  {
  }

  lemma NothingWon(v: G.Mapping, es: seq<Entry>)
    ensures FirstWins(v, es[..0]) == v && es[..|es|] == es
  {
  }

  lemma NoTables(content: Media, ssts: seq<Sstable>)
    ensures LogMap(content, ssts[..0]) == map[] && ssts[..|ssts|] == ssts
  {
  }

  /** zns_lsm_gc_rebuild into an empty index, on any media. Without failures it succeeds exactly if every listed table
      carries the checksum of the payload found behind it and an index can represent what the tables map, newest first;
      the index then represents just that, forward and reverse maps in agreement. */
  method GcRebuild(meta: MetaZone, step: Checksum, zones: seq<Zone>, logicalBlocks: nat, index: GcIndex,
                   ssts: seq<Sstable>)
    returns (r: Errno)
    requires Disjoint(zones) && index.latest == map[] && Consistent(zones, index.Value())
    requires forall i | 0 <= i < |ssts| :: HeaderFits(ssts[i].header) && HeaderValid(ssts[i].header)
    modifies meta`faults, index
    ensures Consistent(zones, index.Value()) && KeysBelow(index.latest, logicalBlocks)
    ensures meta.faults >= old(meta.faults)
    ensures var w := LogMap(meta.content, ssts);
            && (r == Success ==>
                  index.latest == w && Restorable(zones, logicalBlocks, w) && ChecksumsOk(meta.content, step, ssts))
            && (r != Success ==>
                  || meta.faults > old(meta.faults)
                  || !Restorable(zones, logicalBlocks, w) || !ChecksumsOk(meta.content, step, ssts))
  {
    hide Consistent, Restorable, Within, FirstWins, LogMap, EntriesOn, Crc, PayloadOn, HeaderFits,
         HeaderValid;
    ghost var w := LogMap(meta.content, ssts);
    NoTables(meta.content, ssts);
    var bufferOk := meta.Allocate();
    if !bufferOk {
      return NoMem;
    }
    for i := 0 to |ssts|
      invariant Consistent(zones, index.Value()) && KeysBelow(index.latest, logicalBlocks)
      invariant meta.faults >= old(meta.faults)
      invariant forall k | 0 <= k < i :: ChecksumOk(meta.content, step, ssts[k])
      invariant index.latest == LogMap(meta.content, ssts[..i])
    {
      HeaderWidth(ssts[i].header);
      LogMapNext(meta.content, ssts, i);
      LogMapAdds(meta.content, ssts, i + 1);
      r := RestoreTable(meta, step, zones, logicalBlocks, index, ssts[i]);
      if r != Success {
        if r == Invalid && Restorable(zones, logicalBlocks, w) {
          RestorablePart(zones, logicalBlocks, LogMap(meta.content, ssts[..i + 1]), w);
        }
        return r;
      }
    }
    ConsistentRestorable(zones, index.Value(), logicalBlocks);
    r := Success;
  }

  lemma HeaderWidth(h: Header)
    requires HeaderFits(h)
    ensures h.nrEntries < U32
  {
  }
}
