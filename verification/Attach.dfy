/** Attach: open or format the metadata zone, recover the log and the zone report, rebuild the index, choose an empty
    reserve zone. And the round trip: a clean detach followed by an attach gives back the same engine. */
module Attach {
  import opened Prelude
  import opened SstLayout
  import opened MetaZones
  import opened MemTables
  import opened SsTables
  import opened Recovery
  import opened Rebuild
  import opened Shutdown
  import opened Zones
  import opened Allocators
  import opened Hosts
  import opened GcIndexes
  import opened GcPolicies
  import opened EngineState
  import opened Engines
  import opened Space
  import opened SuperBlocks
  import opened Stores
  import opened FlushWorkers
  import G = Generations
  import P = FlushProtocol

  // ----- The SSTable list as the protocol sees it -----

  function Recovered(content: Media, sst: Sstable): P.Sst {
    var m := MapOf(EntriesOn(content, sst));
    P.Sst(sst.start, Extent(sst), sst.header.seqNo, m, m)
  }

  lemma {:induction false} SameMapping(es: seq<Entry>, fs: seq<Entry>)
    requires |es| == |fs| && forall i | 0 <= i < |es| :: es[i].block == fs[i].block && es[i].sector == fs[i].sector
    ensures MapOf(es) == MapOf(fs)
  {
    if es != [] {
      SameMapping(es[..|es| - 1], fs[..|fs| - 1]);
    }
  }

  lemma RecoveredIs(content: Media, step: Checksum, t: DiskTable)
    requires Describes(content, step, t.sst, t.es)
    ensures Recovered(content, t.sst) == Abstract(t)
  {
    hide MapOf, Describes, EntriesOn;
    DescribedTable(content, step, t.sst, t.es);
    DescribedNonEmpty(content, step, t);
    EntriesShown(content, step, t);
    SameMapping(EntriesOn(content, t.sst), t.es);
  }

  function RecoveredList(content: Media, ssts: seq<Sstable>): (r: seq<P.Sst>)
    ensures |r| == |ssts|
  {
    seq(|ssts|, i requires 0 <= i < |ssts| => Recovered(content, ssts[i]))
  }

  lemma RecoveredListIs(content: Media, step: Checksum, tables: seq<DiskTable>)
    requires AllDescribed(content, step, tables)
    ensures RecoveredList(content, Indexes(tables)) == Abstracts(tables)
  {
    hide Describes, Recovered, Abstract;
    forall i | 0 <= i < |tables| ensures Recovered(content, tables[i].sst) == Abstract(tables[i]) {
      RecoveredIs(content, step, tables[i]);
    }
  }

  // ----- Choosing the reserve -----

  /** The loop at the end of attach: the highest-numbered empty zone becomes the reserve. */
  method ChooseReserve(alloc: Allocator) returns (r: Errno)
    requires alloc.Valid()
    modifies alloc`reserve
    ensures alloc.Valid() && (r == Success || r == NoSpace)
    ensures r == Success <==> exists i :: 0 <= i < |alloc.zones| && EmptyZone(alloc.zones[i], alloc.spb)
    ensures r == Success ==> alloc.reserve < |alloc.zones| && EmptyZone(alloc.zones[alloc.reserve], alloc.spb) &&
                             forall i | alloc.reserve < i < |alloc.zones| :: !EmptyZone(alloc.zones[i], alloc.spb)
  {
    var id: nat := |alloc.zones|;
    while id > 0
      invariant id <= |alloc.zones| && alloc.Valid()
      invariant forall i | id <= i < |alloc.zones| :: !EmptyZone(alloc.zones[i], alloc.spb)
    {
      var set_ := alloc.SetReserve(id - 1);
      if set_ == Success {
        return Success;
      }
      id := id - 1;
    }
    return NoSpace;
  }

  // ----- Attach -----

  /** The zone report is usable: in address order, block-aligned pointers, and every zone with room open to appends. */
  predicate ReportOk(zones: seq<Zone>) {
    Layout(zones, zones) && AllInStep(zones, zones)
  }

  /** The metadata zone can be opened: it has room for a superblock and is empty or carries one for this device. */
  predicate MetaOk(crc: SuperChecksum, content: Media, start: nat, end: nat, wp: nat, device: Super) {
    start + BLOCK_SECTORS <= end && start <= wp <= end
      && (wp != start ==> FormatOk(crc, BlockAt(content, start), device))
  }

  /** An index can represent what the log maps and some zone is empty. */
  ghost predicate Attachable(zones: seq<Zone>, logicalBlocks: nat, w: G.Mapping) {
    && zones != [] && Restorable(zones, logicalBlocks, w)
    && exists i :: 0 <= i < |zones| && EmptyZone(zones[i], BLOCK_SECTORS)
  }

  /** The tables that the walk lists, and where it ends, whatever the metadata zone holds. */
  function Recovers(content: Media, start: nat, wp: nat): (seq<Sstable>, nat) {
    Walk(content, start + BLOCK_SECTORS, wp, [])
  }

  /** The log that attach finds is that of the given tables, up to a tail that the walk drops. */
  ghost predicate LogFound(content: Media, step: Checksum, tables: seq<DiskTable>, start: nat, wp: nat, nextSeq: nat) {
    var (ssts, end) := Recovers(content, start, wp);
    ssts == Indexes(tables) && end <= wp && LogIs(content, step, tables, start + BLOCK_SECTORS, end, nextSeq)
  }

  /** What this device is, as a superblock states it. */
  function Device(uuid: nat, logicalBlocks: nat, length: nat, dataZones: nat): Super {
    Super(uuid, BLOCK_SECTORS * logicalBlocks, length, dataZones + 1, dataZones, BLOCK_SECTORS)
  }

  lemma OpensIff(crc: SuperChecksum, content: Media, meta: MetaZone, zone: Zone, dataZones: nat, device: Super, wp: nat)
    requires Describing(zone, meta.start, meta.end, wp) && (zone.cond == Full ==> zone.wp == meta.start + meta.length)
    ensures var fill := if zone.cond == Full then zone.start + zone.capacity else zone.wp;
            && dataZones + 1 >= 2 && BLOCK_SECTORS <= zone.capacity && zone.start <= zone.wp
            && fill <= zone.start + zone.capacity
            && (fill != zone.start ==> FormatOk(crc, BlockAt(content, meta.start), device)) <==>
            dataZones > 0 && MetaOk(crc, content, meta.start, meta.end, wp, device)
  {
    hide FormatOk, BlockAt;
  }

  lemma {:induction false} ChainIsGapless(content: Media, step: Checksum, tables: seq<DiskTable>, first: nat, end: nat)
    requires AllDescribed(content, step, tables) && Chain(Indexes(tables), first, end)
    ensures P.Gapless(Abstracts(tables), first, end)
    decreases |tables|
  {
    hide Describes, MapOf, Sectors, HeaderValid;
    if tables != [] {
      assert Abstracts(tables)[1..] == Abstracts(tables[1..]) && Indexes(tables)[1..] == Indexes(tables[1..]);
      DescribedNonEmpty(content, step, tables[0]);
      assert forall i | 0 <= i < |tables[1..]| :: tables[1..][i] == tables[i + 1];
      ChainIsGapless(content, step, tables[1..], first, tables[0].sst.start);
    }
  }

  /** An index list read from the media is a list of the tables there. */
  lemma LoadedListed(content: Media, step: Checksum, tables: seq<DiskTable>)
    requires AllDescribed(content, step, tables)
    ensures Listed(step, Indexes(tables), tables)
  {
    hide Crc, Payload;
    forall i | 0 <= i < |tables| ensures Sealed(step, tables[i].sst, tables[i].es) == tables[i].sst {
      assert Describes(content, step, tables[i].sst, tables[i].es);
    }
  }

  /** Numbering resumes above every listed table and still behind the log. */
  lemma NumberingResumes(content: Media, step: Checksum, tables: seq<DiskTable>, first: nat, end: nat, wp: nat,
                         nextSeq: nat, seqNo: nat)
    requires LogIs(content, step, tables, first, end, nextSeq) && Above(Indexes(tables), seqNo) && end <= wp
    requires Resumes(Indexes(tables), seqNo)
    ensures P.Ordered(Abstracts(tables), wp, seqNo) && P.Behind(seqNo, wp)
  {
    hide LogHolds, P.Ordered;
    Renumbered(tables, end, nextSeq, seqNo);
    P.OrderedWeaken(Abstracts(tables), end, wp, seqNo);
    BehindBelow(tables, end, nextSeq, seqNo);
  }

  lemma Renumbered(tables: seq<DiskTable>, end: nat, nextSeq: nat, seqNo: nat)
    requires P.Ordered(Abstracts(tables), end, nextSeq) && Above(Indexes(tables), seqNo)
    ensures P.Ordered(Abstracts(tables), end, seqNo)
  {
    hide MapOf, Sectors;
    assert forall i | 0 <= i < |tables| :: Abstracts(tables)[i].seqNo == Indexes(tables)[i].header.seqNo;
  }

  lemma BehindBelow(tables: seq<DiskTable>, end: nat, nextSeq: nat, seqNo: nat)
    requires P.Ordered(Abstracts(tables), end, nextSeq) && P.Behind(nextSeq, end) && Resumes(Indexes(tables), seqNo)
    ensures P.Behind(seqNo, end)
  {
    hide MapOf, Sectors;
    if seqNo != 1 {
      var i :| 0 <= i < |tables| && seqNo == Indexes(tables)[i].header.seqNo + 1;
      assert Abstracts(tables)[i].seqNo < nextSeq;
    }
  }

  lemma ReportShape(zones: seq<Zone>)
    requires ReportOk(zones)
    ensures Disjoint(zones) && forall i | 0 <= i < |zones| :: MetadataValid(zones[i])
  {
  }

  lemma EmptyLog(content: Media, step: Checksum, first: nat)
    ensures LogIs(content, step, [], first, first, 1)
  {
    assert Indexes([]) == [] && Abstracts([]) == [];
  }

  /** What recovery makes of a log of complete tables. */
  lemma LogFacts(content: Media, step: Checksum, tables: seq<DiskTable>, first: nat, end: nat, wp: nat, nextSeq: nat)
    requires LogIs(content, step, tables, first, end, nextSeq) && end <= wp
    ensures AllDescribed(content, step, tables) && RecoveredList(content, Indexes(tables)) == Abstracts(tables)
    ensures OnDisk(content, wp, step, Abstracts(tables), tables) && P.Gapless(Abstracts(tables), first, end)
    ensures Listed(step, Indexes(tables), tables) && first <= end
  {
    hide Describes, Recovered, SameBelow;
    ChainInside(Indexes(tables), first, end);
    RecoveredListIs(content, step, tables);
    LogOnDisk(content, step, tables, first, end);
    SameBelowSelf(content, end);
    OnDiskKept(content, content, end, wp, step, Abstracts(tables), tables);
    ChainIsGapless(content, step, tables, first, end);
    LoadedListed(content, step, tables);
  }

  /** On stored tables the checksums are right and the scan yields newest-first lookup, so that attaching to them comes
      down to whether an index can represent their view. */
  lemma FoundLog(content: Media, step: Checksum, tables: seq<DiskTable>, start: nat, wp: nat, nextSeq: nat)
    requires LogFound(content, step, tables, start, wp, nextSeq)
    ensures ChecksumsOk(content, step, Recovers(content, start, wp).0)
    ensures LogMap(content, Recovers(content, start, wp).0) == P.SstsView(Abstracts(tables))
  {
    hide LogMap, ChecksumsOk, Walk, Describes, Chain, P.Ordered, P.Behind;
    StoredLog(content, step, tables);
  }

  /** A log of complete tables up to the zone's pointer is found as it is. */
  lemma WholeLogFound(content: Media, step: Checksum, tables: seq<DiskTable>, start: nat, wp: nat, nextSeq: nat)
    requires LogIs(content, step, tables, start + BLOCK_SECTORS, wp, nextSeq)
    ensures LogFound(content, step, tables, start, wp, nextSeq) && Recovers(content, start, wp).1 == wp
    ensures start + BLOCK_SECTORS <= wp
  {
    hide Walk, Chain, P.Ordered, P.Behind, Describes;
    WalkInverts(content, step, tables, start + BLOCK_SECTORS, wp, wp, []);
    assert Indexes(tables) + [] == Indexes(tables);
    ChainInside(Indexes(tables), start + BLOCK_SECTORS, wp);
  }

  /** Opening the metadata zone, which formats it if it is empty. */
  method OpenLog(meta: MetaZone, crc: SuperChecksum, host: Host, logicalBlocks: nat, uuid: nat) returns (r: Errno)
    requires meta.start <= meta.end && SuperFits(Device(uuid, logicalBlocks, meta.length, |host.zones|))
    modifies meta, host`faults
    ensures meta.faults >= old(meta.faults) && host.faults >= old(host.faults)
    ensures var device := Device(uuid, logicalBlocks, meta.length, |host.zones|);
            var ok := host.zones != [] && MetaOk(crc, old(meta.content), meta.start, meta.end, old(meta.wp), device);
            && (r == Success ==> ok)
            && (meta.faults == old(meta.faults) && host.faults == old(host.faults) && ok ==> r == Success)
            && (r == Success ==>
                  && FormatOk(crc, BlockAt(meta.content, meta.start), device) && meta.start < meta.wp <= meta.end
                  && if old(meta.wp) == meta.start then meta.wp == meta.start + BLOCK_SECTORS
                     else meta.content == old(meta.content) && meta.wp == old(meta.wp))
  {
    hide FormatOk, DecodeSuper, BlockAt, MetaOk, SuperFits;
    var reportOk := host.Allocate();
    if !reportOk {
      return NoMem;
    }
    var zone := meta.Report();
    ghost var device := Device(uuid, logicalBlocks, meta.length, |host.zones|);
    OpensIff(crc, meta.content, meta, zone, |host.zones|, device, meta.wp);
    if MetaOk(crc, meta.content, meta.start, meta.end, meta.wp, device) {
      MetaOkBounds(crc, meta.content, meta.start, meta.end, meta.wp, device);
    }
    var super, metaWp;
    r, super, metaWp := OpenMetadata(meta, crc, zone, |host.zones| + 1, BLOCK_SECTORS * logicalBlocks, uuid);
  }

  lemma MetaOkBounds(crc: SuperChecksum, content: Media, start: nat, end: nat, wp: nat, device: Super)
    requires MetaOk(crc, content, start, end, wp, device)
    ensures start + BLOCK_SECTORS <= end && wp <= end
  {
    hide FormatOk, BlockAt;
  }

  /** Formatting puts nothing into the log. */
  lemma FormattedLog(content: Media, content': Media, start: nat, wp: nat, wp': nat)
    requires if wp == start then wp' == start + BLOCK_SECTORS else content' == content && wp' == wp
    ensures Recovers(content', start, wp').0 == Recovers(content, start, wp).0
    ensures LogMap(content', Recovers(content', start, wp').0) == LogMap(content, Recovers(content, start, wp).0)
    ensures wp == start ==> Recovers(content', start, wp') == ([], wp') && Recovers(content, start, wp).0 == []
  {
    hide FirstWins, EntriesOn;
  }

  /** The zone part of zns_engine_init: an allocator over the data zones, the mappings from the log, a reserve zone. */
  method OpenZones(meta: MetaZone, step: Checksum, host: Host, logicalBlocks: nat)
    returns (r: Errno, alloc: Allocator, index: GcIndex, ssts: seq<Sstable>, seqNo: nat, end: nat)
    requires ReportOk(host.zones) && host.zones != []
    modifies meta`faults, host`faults
    ensures meta.faults >= old(meta.faults) && host.faults >= old(host.faults) && fresh(alloc) && fresh(index)
    ensures var found := Recovers(meta.content, meta.start, meta.wp); var w := LogMap(meta.content, found.0);
            && (r == Success ==>
                  && ChecksumsOk(meta.content, step, found.0) && Attachable(host.zones, logicalBlocks, w)
                  && KeysBelow(w, logicalBlocks) && index.latest == w && Consistent(host.zones, index.Value())
                  && alloc.Valid() && alloc.zones == host.zones && alloc.spb == BLOCK_SECTORS && alloc.active == 0
                  && HighestEmpty(alloc.zones, alloc.reserve)
                  && (ssts, end) == found && Above(ssts, seqNo) && Resumes(ssts, seqNo))
            && (meta.faults == old(meta.faults) && host.faults == old(host.faults)
                && ChecksumsOk(meta.content, step, found.0) && Attachable(host.zones, logicalBlocks, w) ==>
                  r == Success)
  {
    hide Layout, AllInStep, Consistent, Restorable, Walk, LogMap, ChecksumsOk, Above, Resumes, HeaderFits, HeaderValid;
    alloc := new Allocator();
    index := new GcIndex(host.zones);
    ssts, seqNo, end := [], 0, 0;
    var tableOk := host.Allocate();
    ReportShape(host.zones);
    r := alloc.InitZoned(host.zones, BLOCK_SECTORS, tableOk);
    if r != Success {
      return;
    }
    index := new GcIndex(host.zones);
    var mapOk := host.Allocate();
    if !mapOk {
      r := NoMem;
      return;
    }
    r, ssts, seqNo, end := RecoverSstables(meta, meta.start, meta.wp);
    if r != Success {
      return;
    }
    r := GcRebuild(meta, step, host.zones, logicalBlocks, index, ssts);
    if r != Success {
      return;
    }
    r := ChooseReserve(alloc);
  }

  /** The reserve after attach. */
  predicate HighestEmpty(zones: seq<Zone>, reserve: nat) {
    && reserve < |zones| && EmptyZone(zones[reserve], BLOCK_SECTORS)
    && forall i | reserve < i < |zones| :: !EmptyZone(zones[i], BLOCK_SECTORS)
  }

  /** The store an engine starts with: one empty MemTable and the recovered list. Over a log of complete tables, up to a
      dropped tail, it is in a valid state. */
  method StartStore(meta: MetaZone, step: Checksum, threshold: nat, ssts: seq<Sstable>, seqNo: nat, end: nat,
                    ghost tables: seq<DiskTable>, ghost nextSeq: nat)
    returns (store: Store?)
    modifies meta`faults
    ensures meta.faults == old(meta.faults) + if store == null then 1 else 0
    ensures store != null ==>
              && fresh(store) && store.meta == meta && store.step == step && fresh(store.Repr - {meta})
              && store.puts == 0 && store.threshold == threshold && store.whole == (end == meta.wp)
              && store.faults0 == meta.faults && store.reach0 == meta.wp
              && store.super == BlockAt(meta.content, meta.start)
    ensures store != null && 0 < threshold && meta.start < meta.wp <= meta.end
            && LogIs(meta.content, step, tables, meta.start + BLOCK_SECTORS, end, nextSeq) && end <= meta.wp
            && ssts == Indexes(tables) && Above(ssts, seqNo) && Resumes(ssts, seqNo) ==>
              && store.Valid() && store.sys.io == P.Ready && store.View() == P.SstsView(Abstracts(tables))
              && P.Reach(store.sys) == meta.wp
  {
    hide P.SstsView, P.Ordered, Abstracts, Indexes, Describes, RecoveredList, LogIs, OnDisk, P.Gapless, P.Behind,
         Slots.Valid, Store.Valid, Store.View, MemTable.Valid, MemTable.Contents, Listed, P.View, P.Initial, BlockAt,
         Above, Resumes, P.Reach;
    var first := Create();
    if first == null {
      meta.faults := meta.faults + 1;
      return null;
    }
    var slots := new Slots(first);
    if LogIs(meta.content, step, tables, meta.start + BLOCK_SECTORS, end, nextSeq) && end <= meta.wp
       && ssts == Indexes(tables) && Above(ssts, seqNo) && Resumes(ssts, seqNo) {
      LogFacts(meta.content, step, tables, meta.start + BLOCK_SECTORS, end, meta.wp, nextSeq);
      NumberingResumes(meta.content, step, tables, meta.start + BLOCK_SECTORS, end, meta.wp, nextSeq, seqNo);
    }
    store := new Store(slots, meta, step, ssts, threshold, RecoveredList(meta.content, ssts), seqNo, end == meta.wp,
                       tables);
  }

  lemma StoreApart(e: Engine)
    requires e.store.Valid()
    ensures forall o | o in e.store.Repr :: o != e && o != e.host && o != e.alloc && o != e.index
  {
    hide Store.Matches, Store.OnMedia, Undisturbed, BlockAt;
    assert e.store.Owns();
  }

  /** The finished engine is in a valid state if its parts are. */
  lemma Assembled(e: Engine, logicalBlocks: u64)
    requires e.alloc.Valid() && e.alloc.zones == e.host.zones && e.alloc.spb == BLOCK_SECTORS
    requires HighestEmpty(e.alloc.zones, e.alloc.reserve) && ReportOk(e.host.zones) && e.host.disciplined
    requires KeysBelow(e.index.latest, logicalBlocks) && e.store.sys.io == P.Ready && e.store.View() == e.index.latest
    requires Stored(e.index.latest, e.host.content, e.acked) && !e.writesStopped
    requires Consistent(e.host.zones, e.index.Value())
    requires e.store.Valid()
    ensures e.Valid()
  {
    hide Layout, AllInStep, Consistent, Stored, Store.Valid, Store.View, EmptyZone;
    StoreApart(e);
  }

  lemma NoChecksums(content: Media, step: Checksum)
    ensures ChecksumsOk(content, step, [])
  {
  }

  /** The log behind an opened metadata zone. */
  lemma LogOpened(content0: Media, content: Media, step: Checksum, tables: seq<DiskTable>, start: nat, wp0: nat,
                  wp: nat, nextSeq: nat, seq0: nat)
    requires if wp0 == start then wp == start + BLOCK_SECTORS && tables == [] && seq0 == 1
             else content == content0 && wp == wp0 && seq0 == nextSeq
                  && LogFound(content0, step, tables, start, wp0, nextSeq)
    ensures var (ssts, end) := Recovers(content, start, wp);
            && ssts == Indexes(tables) && end <= wp && LogIs(content, step, tables, start + BLOCK_SECTORS, end, seq0)
            && LogMap(content, ssts) == P.SstsView(Abstracts(tables))
  {
    hide LogIs, LogMap, P.SstsView, Walk;
    if wp0 == start {
      FormattedLog(content0, content, start, wp0, wp);
      EmptyLog(content, step, start + BLOCK_SECTORS);
      assert Indexes(tables) == [];
      FoundLog(content, step, tables, start, wp, 1);
    } else {
      FoundLog(content, step, tables, start, wp, nextSeq);
    }
  }

  /** Everything that zns_engine_init opens, up to and including the first MemTable. */
  method OpenParts(meta: MetaZone, step: Checksum, crc: SuperChecksum, host: Host, threshold: nat, logicalBlocks: u64,
                   uuid: nat, ghost tables: seq<DiskTable>, ghost nextSeq: nat)
    returns (r: Errno, alloc: Allocator?, index: GcIndex?, store: Store?)
    requires meta.start <= meta.end && SuperFits(Device(uuid, logicalBlocks, meta.length, |host.zones|))
    requires 0 < threshold && ReportOk(host.zones)
    modifies meta, host`faults
    ensures meta.faults >= old(meta.faults) && host.faults >= old(host.faults)
    ensures r == Success ==>
              && alloc != null && index != null && store != null && fresh(alloc) && fresh(index) && fresh(store)
              && fresh(store.Repr - {meta}) && store.meta == meta && store.step == step
              && Consistent(host.zones, index.Value()) && KeysBelow(index.latest, logicalBlocks)
              && alloc.Valid() && alloc.zones == host.zones && alloc.spb == BLOCK_SECTORS && alloc.active == 0
              && HighestEmpty(alloc.zones, alloc.reserve)
              && store.puts == 0 && store.faults0 == meta.faults && store.reach0 == meta.wp
              && store.threshold == threshold
              && meta.wp == (if old(meta.wp) == meta.start then meta.start + BLOCK_SECTORS else old(meta.wp))
              && FormatOk(crc, store.super, Device(uuid, logicalBlocks, meta.length, |host.zones|))
    ensures var found := Recovers(old(meta.content), meta.start, old(meta.wp));
            var w, device := LogMap(old(meta.content), found.0), Device(uuid, logicalBlocks, meta.length, |host.zones|);
            var ok := && MetaOk(crc, old(meta.content), meta.start, meta.end, old(meta.wp), device)
                      && ChecksumsOk(old(meta.content), step, found.0) && Attachable(host.zones, logicalBlocks, w);
            && (r == Success ==>
                  && ok && index.latest == w
                  && store.whole == (old(meta.wp) == meta.start || found.1 == old(meta.wp)))
            && (meta.faults == old(meta.faults) && host.faults == old(host.faults) && ok ==> r == Success)
    ensures r == Success
            && (if old(meta.wp) == meta.start then tables == []
                else old(LogFound(meta.content, step, tables, meta.start, meta.wp, nextSeq))) ==>
              && store.Valid() && store.sys.io == P.Ready && P.Reach(store.sys) == meta.wp
              && store.View() == index.latest == P.SstsView(Abstracts(tables))
  {
    hide P.SstsView, ReportOk, Consistent, Abstracts, Indexes, Restorable, EmptyZone, KeysBelow, LogIs,
         Store.Valid, Store.View, FormatOk, MetaOk, BlockAt, SuperFits, HighestEmpty,
         Allocator.Valid, Recovers, LogMap, ChecksumsOk, Above, Resumes, P.Reach;
    alloc, index, store := null, null, null;
    ghost var content0, wp0 := meta.content, meta.wp;
    r := OpenLog(meta, crc, host, logicalBlocks, uuid);
    if r != Success {
      return;
    }
    FormattedLog(content0, meta.content, meta.start, wp0, meta.wp);
    NoChecksums(content0, step);
    NoChecksums(meta.content, step);
    var ssts, seqNo, end;
    r, alloc, index, ssts, seqNo, end := OpenZones(meta, step, host, logicalBlocks);
    if r != Success {
      return;
    }
    ghost var seq0 := if wp0 == meta.start then 1 else nextSeq;
    if if wp0 == meta.start then tables == [] else LogFound(content0, step, tables, meta.start, wp0, nextSeq) {
      LogOpened(content0, meta.content, step, tables, meta.start, wp0, meta.wp, nextSeq, seq0);
    }
    store := StartStore(meta, step, threshold, ssts, seqNo, end, tables, seq0);
    if store == null {
      r := NoMem;
    }
  }

  /** zns_engine_init on any device. Without failures it succeeds exactly if the metadata zone is empty or carries a
      superblock for this device, every table that the walk lists carries its checksum, an index can represent what
      those tables map, newest first, and some data zone is empty; the index then represents just that. If the log is
      that of the given tables, up to a tail that the walk drops, and the data zones hold the given contents where it
      points, the engine is in a valid state with these contents. */
  method AttachEngine(meta: MetaZone, step: Checksum, crc: SuperChecksum, host: Host, policy: Policy, threshold: nat,
                      logicalBlocks: u64, uuid: nat, ghost tables: seq<DiskTable>, ghost nextSeq: nat,
                      ghost acked: map<nat, Block>, ghost perZone: nat)
    returns (e: Engine?, r: Errno)
    requires meta.start <= meta.end && SuperFits(Device(uuid, logicalBlocks, meta.length, |host.zones|))
    requires ReportOk(host.zones) && host.disciplined
    modifies meta, host`faults
    ensures meta.faults >= old(meta.faults) && host.faults >= old(host.faults) && (e == null <==> r != Success)
    ensures e != null ==>
              && fresh(e) && fresh(e.index) && fresh(e.alloc) && fresh(e.store) && fresh(e.store.Repr - {meta})
              && e.host == host && e.policy == policy && e.perZone == perZone && e.store.meta == meta
              && e.store.step == step && !e.writesStopped && e.acked == acked
              && Consistent(e.alloc.zones, e.index.Value()) && KeysBelow(e.index.latest, logicalBlocks)
              && e.alloc.zones == host.zones && e.alloc.active == 0 && HighestEmpty(e.alloc.zones, e.alloc.reserve)
    ensures e != null ==>
              && e.store.puts == 0 && e.store.faults0 == meta.faults && e.store.reach0 == meta.wp
              && e.store.threshold == threshold
              && meta.wp == (if old(meta.wp) == meta.start then meta.start + BLOCK_SECTORS else old(meta.wp))
              && FormatOk(crc, e.store.super, Device(uuid, logicalBlocks, meta.length, |host.zones|))
    ensures var found := Recovers(old(meta.content), meta.start, old(meta.wp));
            var w, device := LogMap(old(meta.content), found.0), Device(uuid, logicalBlocks, meta.length, |host.zones|);
            var ok := && 0 < threshold
                      && MetaOk(crc, old(meta.content), meta.start, meta.end, old(meta.wp), device)
                      && ChecksumsOk(old(meta.content), step, found.0) && Attachable(host.zones, logicalBlocks, w);
            && (e != null ==> ok && e.index.latest == w)
            && (e != null ==> e.store.whole == (old(meta.wp) == meta.start || found.1 == old(meta.wp)))
            && (meta.faults == old(meta.faults) && host.faults == old(host.faults) ==> (e != null <==> ok))
    ensures e != null && Stored(P.SstsView(Abstracts(tables)), host.content, acked)
            && (if old(meta.wp) == meta.start then tables == []
                else old(LogFound(meta.content, step, tables, meta.start, meta.wp, nextSeq))) ==>
              e.Valid() && e.index.latest == P.SstsView(Abstracts(tables)) && P.Reach(e.store.sys) == meta.wp
  {
    hide P.SstsView, ReportOk, Consistent, Stored, Abstracts, Restorable, EmptyZone, KeysBelow, Store.Valid,
         Store.View, FormatOk, MetaOk, SuperFits, HighestEmpty, Engine.Valid, Allocator.Valid, Recovers, LogMap,
         ChecksumsOk, P.Reach, LogFound;
    e := null;
    if threshold == 0 {
      return null, Invalid;
    }
    var lsmOk := host.Allocate();
    if !lsmOk {
      return null, NoMem;
    }
    var alloc, index, store;
    r, alloc, index, store := OpenParts(meta, step, crc, host, threshold, logicalBlocks, uuid, tables, nextSeq);
    if r != Success {
      return null, r;
    }
    var flushQueueOk := host.Allocate();
    if !flushQueueOk {
      return null, NoMem;
    }
    var ioQueueOk := host.Allocate();
    if !ioQueueOk {
      return null, NoMem;
    }
    e := new Engine(host, alloc, index, policy, store, acked, perZone);
    r := Success;
    if Stored(P.SstsView(Abstracts(tables)), host.content, acked)
       && (if old(meta.wp) == meta.start then tables == []
           else old(LogFound(meta.content, step, tables, meta.start, meta.wp, nextSeq))) {
      Assembled(e, logicalBlocks);
    }
  }

  // ----- A new device -----

  /** Zones as they leave the factory, or a reset of the whole device. */
  predicate FactoryNew(zones: seq<Zone>) {
    && zones != [] && Disjoint(zones)
    && forall i | 0 <= i < |zones| ::
         MetadataValid(zones[i]) && zones[i].cond == Empty && zones[i].wp == zones[i].start
           && BLOCK_SECTORS <= zones[i].capacity
  }

  lemma NewDevice(zones: seq<Zone>, data: map<nat, Block>, logicalBlocks: nat)
    requires FactoryNew(zones)
    ensures ReportOk(zones) && Stored(map[], data, map[]) && Attachable(zones, logicalBlocks, map[])
    ensures P.SstsView(Abstracts([])) == map[] && HighestEmpty(zones, |zones| - 1)
  {
    assert EmptyZone(zones[0], BLOCK_SECTORS) && EmptyZone(zones[|zones| - 1], BLOCK_SECTORS);
    assert Abstracts([]) == [];
  }

  lemma NothingRecovered(content: Media, step: Checksum, start: nat)
    ensures Recovers(content, start, start).0 == [] && LogMap(content, []) == map[] && ChecksumsOk(content, step, [])
  {
  }

  /** A new device can always be attached: without failures the metadata zone is formatted with a superblock that any
      later attach to this device accepts, and the engine maps nothing and keeps its last zone in reserve. */
  method AttachNew(meta: MetaZone, step: Checksum, crc: SuperChecksum, host: Host, policy: Policy, threshold: nat,
                   logicalBlocks: u64, uuid: nat, ghost perZone: nat)
    returns (e: Engine?)
    requires meta.wp == meta.start && meta.start + BLOCK_SECTORS <= meta.end && 0 < threshold
    requires SuperFits(Device(uuid, logicalBlocks, meta.length, |host.zones|))
    requires FactoryNew(host.zones) && host.disciplined
    modifies meta, host`faults
    ensures meta.faults >= old(meta.faults) && host.faults >= old(host.faults)
    ensures meta.faults == old(meta.faults) && host.faults == old(host.faults) ==> e != null
    ensures e != null ==>
              && fresh(e) && fresh(e.index) && fresh(e.alloc) && fresh(e.store.Repr - {meta})
              && e.host == host && e.policy == policy && e.perZone == perZone && e.store.meta == meta
              && e.store.step == step
              && e.Valid() && !e.writesStopped && e.acked == map[] && e.index.latest == map[]
              && e.DiskState().zones == host.zones && e.alloc.active == 0 && e.alloc.reserve == |host.zones| - 1
    ensures e != null ==>
              && e.store.puts == 0 && e.store.faults0 == meta.faults && e.store.whole
              && e.store.threshold == threshold && P.Reach(e.store.sys) == meta.wp
              && e.store.reach0 == meta.wp == meta.start + BLOCK_SECTORS
              && FormatOk(crc, e.store.super, Device(uuid, logicalBlocks, meta.length, |host.zones|))
  {
    hide P.SstsView, ReportOk, Stored, Abstracts, Store.Valid, Store.View, FormatOk, BlockAt, SuperFits, Engine.Valid,
         Attachable, LogIs, FactoryNew, EmptyZone, Recovers, LogMap, ChecksumsOk, P.Reach;
    NewDevice(host.zones, host.content, logicalBlocks);
    NothingRecovered(meta.content, step, meta.start);
    var r;
    e, r := AttachEngine(meta, step, crc, host, policy, threshold, logicalBlocks, uuid, [], 1, map[], perZone);
  }

  // ----- Round trip -----

  /** Unfolding what an engine is made of. */
  lemma EngineParts(e: Engine)
    requires e.Valid()
    ensures e.store.Valid() && e.store.View() == e.index.latest && e.host.disciplined && e.host !in e.store.Repr
    ensures Stored(e.index.latest, e.host.content, e.acked) && e.alloc.reserve < |e.alloc.zones|
    ensures Layout(e.alloc.zones, e.host.zones) && Consistent(e.alloc.zones, e.index.Value())
    ensures !e.writesStopped ==>
              && AllInStep(e.alloc.zones, e.host.zones)
              && EmptyZone(e.alloc.zones[e.alloc.reserve], BLOCK_SECTORS)
  {
    hide Store.Valid, Store.View, Layout, AllInStep, Consistent, Stored, EmptyZone;
  }

  /** Mapped and acknowledged are the same blocks. */
  lemma SameBlocks(e: Engine)
    requires e.Valid()
    ensures e.index.latest.Keys == e.acked.Keys && Layout(e.alloc.zones, e.host.zones)
    ensures |e.alloc.zones| == |e.host.zones| > 0 && Consistent(e.alloc.zones, e.index.Value())
    ensures e.host !in e.store.Repr && e.alloc !in e.store.Repr && e.index !in e.store.Repr && e !in e.store.Repr
    ensures e.store.meta in e.store.Repr && e.store.faults0 <= e.store.meta.faults
    ensures !e.writesStopped ==> EmptyZone(e.alloc.zones[e.alloc.reserve], BLOCK_SECTORS)
  {
    hide Store.Valid, Store.View, Layout, AllInStep, Consistent, EmptyZone;
    SameNumber(e.alloc.zones, e.host.zones);
    StoreParts(e.store);
    StoredKeys(e.index.latest, e.host.content, e.acked);
  }

  /** What attach finds behind an engine that is in step with the device. */
  lemma DetachedAttachable(zones: seq<Zone>, device: seq<Zone>, x: Index, reserve: nat, logicalBlocks: nat)
    requires Layout(zones, device) && AllInStep(zones, device) && KeysBelow(x.latest, logicalBlocks)
    requires reserve < |zones|
    requires Consistent(zones, x)
    ensures ReportOk(device) && Restorable(device, logicalBlocks, x.latest)
    ensures EmptyZone(zones[reserve], BLOCK_SECTORS) ==> Attachable(device, logicalBlocks, x.latest)
  {
    hide Layout, AllInStep, Consistent, Restorable, EmptyZone;
    ReportTakesOver(zones, device, x, reserve);
    ConsistentRestorable(device, x, logicalBlocks);
    assert SameLayout(zones, device) && |device| == |zones|;
  }

  /** Equal zones are equal on the device. */
  lemma EvenDevice(zones: seq<Zone>, device: seq<Zone>, c: nat)
    requires Layout(zones, device) && AllInStep(zones, device)
    ensures |zones| == |device| && (Uniform(zones, c) ==> Uniform(device, c))
  {
    forall i | 0 <= i < |zones| && Uniform(zones, c) ensures Zones.Slots(device[i]) == c && Resettable(device[i]) {
      assert SameGeometry(zones[i], device[i]) && InStep(zones[i], device[i]) && Zones.Slots(zones[i]) == c;
    }
  }

  lemma MetaOkHolds(crc: SuperChecksum, content: Media, start: nat, end: nat, wp: nat, device: Super)
    requires FormatOk(crc, BlockAt(content, start), device) && start + BLOCK_SECTORS <= wp
    ensures MetaOk(crc, content, start, end, wp, device) <==> wp <= end
  {
    hide FormatOk, BlockAt;
  }

  lemma SameIndex(zones: seq<Zone>, x: Index, device: seq<Zone>, y: Index)
    requires Layout(zones, device) && ReportOk(device) && x.latest == y.latest
    requires Consistent(zones, x) && Consistent(device, y)
    ensures x == y
  {
    hide Consistent, AllInStep;
    LayoutDisjoint(zones, device);
    LayoutDisjoint(device, device);
    IndexDetermined(zones, x, device, y);
  }

  /** An engine in the state in which attach leaves it: nothing inserted yet, and nothing wrong with the log. */
  ghost predicate Started(e: Engine, meta: MetaZone, step: Checksum, crc: SuperChecksum, host: Host, policy: Policy,
                          threshold: nat, logicalBlocks: u64, uuid: nat, perZone: nat)
    reads e, e.host, e.alloc, e.index, e.store, e.store.Repr, meta, host
  {
    && e.host == host && e.policy == policy && e.perZone == perZone && e.store.meta == meta && e.store.step == step
    && e.Valid() && !e.writesStopped && KeysBelow(e.index.latest, logicalBlocks)
    && e.alloc.zones == host.zones && HighestEmpty(e.alloc.zones, e.alloc.reserve)
    && e.store.puts == 0 && e.store.whole && e.store.threshold == threshold
    && e.store.faults0 == meta.faults && e.store.reach0 == meta.wp == P.Reach(e.store.sys)
    && FormatOk(crc, e.store.super, Device(uuid, logicalBlocks, meta.length, |host.zones|))
  }

  /** Attach to a log of complete tables that fills the metadata zone up to its pointer. */
  method Reattach(meta: MetaZone, step: Checksum, crc: SuperChecksum, host: Host, policy: Policy, threshold: nat,
                  logicalBlocks: u64, uuid: nat, ghost tables: seq<DiskTable>, ghost nextSeq: nat,
                  ghost acked: map<nat, Block>, ghost perZone: nat)
    returns (e: Engine?)
    requires meta.start <= meta.end && SuperFits(Device(uuid, logicalBlocks, meta.length, |host.zones|))
    requires FormatOk(crc, BlockAt(meta.content, meta.start), Device(uuid, logicalBlocks, meta.length, |host.zones|))
    requires LogIs(meta.content, step, tables, meta.start + BLOCK_SECTORS, meta.wp, nextSeq)
    requires ReportOk(host.zones) && host.disciplined && Stored(P.SstsView(Abstracts(tables)), host.content, acked)
    modifies meta, host`faults
    ensures meta.faults >= old(meta.faults) && host.faults >= old(host.faults)
    ensures e != null ==>
              && fresh(e) && fresh(e.index) && fresh(e.alloc) && fresh(e.store) && fresh(e.store.Repr - {meta})
              && meta.wp == old(meta.wp) && e.acked == acked && e.index.latest == P.SstsView(Abstracts(tables))
              && Started(e, meta, step, crc, host, policy, threshold, logicalBlocks, uuid, perZone)
    ensures meta.faults == old(meta.faults) && host.faults == old(host.faults) ==>
              (e != null <==>
                 && 0 < threshold && old(meta.wp) <= meta.end
                 && Attachable(host.zones, logicalBlocks, P.SstsView(Abstracts(tables))))
  {
    hide P.SstsView, Stored, Abstracts, LogIs, LogFound, Recovers, LogMap, ChecksumsOk, ReportOk, Attachable, KeysBelow,
         MetaOk, FormatOk, BlockAt, SuperFits, Store.Valid, Store.View, Engine.Valid, P.Reach, HighestEmpty, Consistent;
    WholeLogFound(meta.content, step, tables, meta.start, meta.wp, nextSeq);
    FoundLog(meta.content, step, tables, meta.start, meta.wp, nextSeq);
    ghost var device := Device(uuid, logicalBlocks, meta.length, |host.zones|);
    MetaOkHolds(crc, meta.content, meta.start, meta.end, meta.wp, device);
    var r;
    e, r := AttachEngine(meta, step, crc, host, policy, threshold, logicalBlocks, uuid, tables, nextSeq, acked,
                         perZone);
  }

  /** What the shutdown of an engine leaves for the next attach. */
  ghost predicate LeftBehind(meta: MetaZone, step: Checksum, crc: SuperChecksum, host: Host, device: Super, reach: nat,
                             latest: map<nat, nat>, acked: map<nat, Block>, tables: seq<DiskTable>, nextSeq: nat)
    reads meta, host
  {
    && FormatOk(crc, BlockAt(meta.content, meta.start), device) && meta.wp == reach && host.disciplined
    && LogIs(meta.content, step, tables, meta.start + BLOCK_SECTORS, meta.wp, nextSeq)
    && P.SstsView(Abstracts(tables)) == latest && Stored(latest, host.content, acked)
  }

  /** zns_engine_exit: without a failure of the log, now or since attach, it leaves everything behind exactly if what
      is resident fits the metadata zone. It also works on an engine whose writes are stopped. */
  method DetachEngine(e: Engine, crc: SuperChecksum, ghost device: Super)
    returns (complete: bool, ghost tables: seq<DiskTable>, ghost nextSeq: nat)
    requires FormatOk(crc, e.store.super, device)
    requires e.Valid()
    modifies e.store.Repr
    ensures e.store.meta.faults >= old(e.store.meta.faults)
    ensures e.store.Quiet() ==> (complete <==> old(P.Reach(e.store.sys)) <= e.store.meta.end)
    ensures e.store.Quiet() && complete ==>
              LeftBehind(e.store.meta, e.store.step, crc, e.host, device, old(P.Reach(e.store.sys)),
                         old(e.index.latest), old(e.acked), tables, nextSeq)
  {
    hide P.SstsView, Stored, Abstracts, LogIs, FormatOk, BlockAt, Layout, Consistent, Store.Valid, Store.View,
         Engine.Valid, P.Reach, EmptyZone, AllInStep;
    EngineParts(e);
    complete, tables, nextSeq := Detach(e.store);
  }

  /** What the zones of an engine promise to the next attach. */
  lemma NextAttach(e: Engine, logicalBlocks: nat)
    requires KeysBelow(e.index.latest, logicalBlocks)
    requires e.Valid()
    ensures e.host !in e.store.Repr && e.store.meta in e.store.Repr && |e.alloc.zones| == |e.host.zones|
    ensures Layout(e.alloc.zones, e.host.zones) && Consistent(e.alloc.zones, e.index.Value())
    ensures !e.writesStopped ==>
              && ReportOk(e.host.zones) && Attachable(e.host.zones, logicalBlocks, e.index.latest)
              && (e.EvenZones() ==> Uniform(e.host.zones, e.perZone))
  {
    hide Stored, Layout, Consistent, Store.Valid, Store.View, Engine.Valid, EmptyZone, AllInStep, Attachable, ReportOk,
         Uniform, KeysBelow;
    EngineParts(e);
    StoreParts(e.store);
    SameNumber(e.alloc.zones, e.host.zones);
    if !e.writesStopped {
      DetachedAttachable(e.alloc.zones, e.host.zones, e.index.Value(), e.alloc.reserve, logicalBlocks);
      EvenDevice(e.alloc.zones, e.host.zones, e.perZone);
    }
  }

  /** The round trip: shut an engine down, then attach to what it left. If nothing has gone wrong with the log and
      nothing fails now, there is a new engine exactly if everything resident fits the metadata zone, the zone report is
      usable, an index can represent the mappings on it and some zone is empty. All but the room is certain while writes
      are not stopped. The new engine accepts writes, holds every acknowledged block, and has the very same index -
      forward map, reverse maps and counters - with the highest-numbered empty zone in reserve; and it can be shut down
      in its turn. */
  method DetachAndAttach(e: Engine, crc: SuperChecksum, threshold: nat, logicalBlocks: u64, uuid: nat)
    returns (e2: Engine?)
    requires KeysBelow(e.index.latest, logicalBlocks) && e.store.meta.start <= e.store.meta.end
    requires SuperFits(Device(uuid, logicalBlocks, e.store.meta.length, |e.host.zones|))
    requires FormatOk(crc, e.store.super, Device(uuid, logicalBlocks, e.store.meta.length, |e.host.zones|))
    requires e.Valid()
    modifies e.store.Repr, e.host`faults
    ensures e.store.meta.faults >= old(e.store.meta.faults) && e.host.faults >= old(e.host.faults)
    ensures !old(e.writesStopped) ==>
              ReportOk(old(e.host.zones)) && Attachable(old(e.host.zones), logicalBlocks, old(e.index.latest))
    ensures e.host.zones == old(e.host.zones)
    ensures e2 != null ==>
              && fresh(e2) && fresh(e2.index) && fresh(e2.alloc) && fresh(e2.store)
              && fresh(e2.store.Repr - {e.store.meta})
              && Started(e2, e.store.meta, e.store.step, crc, e.host, e.policy, threshold, logicalBlocks, uuid,
                         e.perZone)
              && e2.acked == old(e.acked) && e2.index.Value() == old(e.index.Value())
              && e2.store.reach0 == old(P.Reach(e.store.sys)) && |e2.alloc.zones| == |old(e.alloc.zones)|
              && (!old(e.writesStopped) && old(e.EvenZones()) ==> e2.EvenZones())
    ensures e.store.Quiet() && e.host.faults == old(e.host.faults) ==>
              (e2 != null <==>
                 && 0 < threshold && old(P.Reach(e.store.sys)) <= e.store.meta.end
                 && ReportOk(old(e.host.zones)) && Attachable(old(e.host.zones), logicalBlocks, old(e.index.latest)))
  {
    hide P.SstsView, Layout, Consistent, Stored, Abstracts, LogIs, ReportOk, Attachable, KeysBelow, FormatOk, BlockAt,
         SuperFits, Store.Valid, Store.View, Engine.Valid, Uniform, P.Reach, HighestEmpty, Started;
    e2 := null;
    ghost var device := Device(uuid, logicalBlocks, e.store.meta.length, |e.host.zones|);
    ghost var zones, x, acked := e.alloc.zones, e.index.Value(), e.acked;
    NextAttach(e, logicalBlocks);
    var complete;
    ghost var tables, nextSeq;
    complete, tables, nextSeq := DetachEngine(e, crc, device);
    if ReportOk(e.host.zones) && complete && e.store.Quiet() {
      e2 := Reattach(e.store.meta, e.store.step, crc, e.host, e.policy, threshold, logicalBlocks, uuid, tables, nextSeq,
                     acked, e.perZone);
      if e2 != null {
        StartedParts(e2, e.store.meta, e.store.step, crc, e.host, e.policy, threshold, logicalBlocks, uuid, e.perZone);
        SameIndex(zones, x, e.host.zones, e2.index.Value());
      }
    }
  }

  lemma StartedParts(e: Engine, meta: MetaZone, step: Checksum, crc: SuperChecksum, host: Host, policy: Policy,
                     threshold: nat, logicalBlocks: u64, uuid: nat, perZone: nat)
    requires Started(e, meta, step, crc, host, policy, threshold, logicalBlocks, uuid, perZone)
    ensures Consistent(host.zones, e.index.Value()) && e.alloc.zones == host.zones && e.perZone == perZone
    ensures e.store.reach0 == meta.wp
  {
    hide Store.Valid, Store.View, Layout, AllInStep, Consistent, Stored, EmptyZone, FormatOk, P.Reach, HighestEmpty,
         KeysBelow;
  }

  lemma SameNumber(zones: seq<Zone>, device: seq<Zone>)
    requires Layout(zones, device)
    ensures |zones| == |device|
  {
  }
}
