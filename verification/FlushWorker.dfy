/** The flush worker's write step carried out on the metadata zone: what the protocol leaves open is what
    serialising the table can return, and what the protocol publishes is what is on the media. */
module FlushWorkers {
  import opened Prelude
  import opened SstLayout
  import opened MetaZones
  import opened MemTables
  import opened SsTables
  import opened Recovery
  import G = Generations
  import P = FlushProtocol

  /** The published tables are the ones on the media, all below the zone's write pointer. */
  ghost predicate OnDisk(content: Media, wp: nat, step: Checksum, ssts: seq<P.Sst>, tables: seq<DiskTable>) {
    && ssts == Abstracts(tables) && AllDescribed(content, step, tables)
    && forall i | 0 <= i < |tables| :: tables[i].sst.start + Sectors(|tables[i].es|) <= wp
  }

  lemma OnDiskFacts(content: Media, wp: nat, step: Checksum, ssts: seq<P.Sst>, tables: seq<DiskTable>)
    requires OnDisk(content, wp, step, ssts, tables)
    ensures ssts == Abstracts(tables) && AllDescribed(content, step, tables)
  {
  }

  /** Appending behind the write pointer does not disturb the tables below it. */
  lemma OnDiskKept(content: Media, content': Media, wp: nat, wp': nat, step: Checksum, ssts: seq<P.Sst>,
                   tables: seq<DiskTable>)
    requires OnDisk(content, wp, step, ssts, tables) && SameBelow(content, content', wp) && wp <= wp'
    ensures OnDisk(content', wp', step, ssts, tables)
  {
    hide Crc, Payload, EncodeHeader, StoredAt, SameBelow, Abstracts;
    forall i | 0 <= i < |tables| ensures Describes(content', step, tables[i].sst, tables[i].es) {
      assert Describes(content, step, tables[i].sst, tables[i].es);
      StoredBelow(content, content', tables[i].sst.start, Image(step, tables[i].es, tables[i].sst.header.seqNo), wp);
    }
  }

  /** A newly written table joins the ones on the media. */
  lemma OnDiskMore(content: Media, wp: nat, step: Checksum, ssts: seq<P.Sst>, tables: seq<DiskTable>, t: DiskTable)
    requires OnDisk(content, wp, step, ssts, tables)
    requires Describes(content, step, t.sst, t.es) && t.sst.start + Sectors(|t.es|) <= wp
    ensures OnDisk(content, wp, step, [Abstract(t)] + ssts, [t] + tables)
  {
    hide Describes;
    var all := [t] + tables;
    assert Abstracts(all) == [Abstract(t)] + ssts;
    assert forall i | 0 < i < |all| :: all[i] == tables[i - 1];
  }

  /** What a successful write left is a stored table. */
  lemma WrittenIsStored(step: Checksum, es: seq<Entry>, start: nat, seqNo: nat, sst: Option<Sstable>, consumed: nat,
                        wp0: nat, content0: Media, wp: nat, content: Media)
    requires Storable(es, seqNo) && consumed == Sectors(|es|)
    requires WrittenSst(step, es, start, seqNo, Success, sst, consumed, wp0, content0, wp, content)
    ensures sst.Some? && sst.value.start == start && sst.value.header.seqNo == seqNo
    ensures Describes(content, step, Sealed(step, sst.value, es), es)
    ensures start + Sectors(|es|) <= wp
  {
    hide Crc, Payload, EncodeHeader, StoredAt;
    assert Image(step, es, seqNo)[..consumed / BLOCK_SECTORS] == Image(step, es, seqNo);
  }

  lemma WrittenKeeps(step: Checksum, es: seq<Entry>, start: nat, seqNo: nat, r: Errno, sst: Option<Sstable>,
                     consumed: nat, wp0: nat, content0: Media, wp: nat, content: Media)
    requires WrittenSst(step, es, start, seqNo, r, sst, consumed, wp0, content0, wp, content)
    ensures wp0 <= wp && SameBelow(content0, content, wp0)
    ensures r == Success ==> sst.Some? && es != [] && wp == start + consumed
  {
  }

  lemma ValidStorable(table: MemTable, seqNo: nat)
    requires table.Valid() && table.Entries() != [] && seqNo < U64
    ensures Storable(table.Entries(), seqNo)
  {
    ValidFits(table);
  }

  /** A table that was written completely but is not published yet is on the media already. */
  ghost predicate Pending(content: Media, wp: nat, step: Checksum, s: P.Sys, sst: Sstable, es: seq<Entry>) {
    (s.pc.Written? || s.pc.Accounted?) && s.pc.result.outcome == Success ==>
      && Describes(content, step, Sealed(step, sst, es), es) && MapOf(es) == s.pc.entries
      && sst.start == s.pc.start && sst.header.seqNo == s.pc.seqNo
      && s.pc.result.consumed == Sectors(|es|) && s.pc.start + Sectors(|es|) <= wp
  }

  /** The Writing step of the flush worker: serialise the claimed table behind everything written so far. The outcome is
      one the protocol allows for, no published table is disturbed, and on success the table that the next steps
      publish is on the media with the checksum of exactly what was written. If the zone's pointer is where the log
      ends, then without failures the write is not torn and the pointer ends up behind what was consumed. */
  method WriteVictim(meta: MetaZone, step: Checksum, table: MemTable, s: P.Sys, ghost tables: seq<DiskTable>)
    returns (s': P.Sys, sst: Sstable, w: P.SstWrite)
    requires s.pc.Writing? && table.Valid() && table.Contents() == G.Table(s.t, s.pc.victim)
    requires s.metaEnd <= meta.end && P.SeqBehind(s)
    requires OnDisk(meta.content, meta.wp, step, s.ssts, tables)
    requires P.Inv(s)
    modifies meta
    ensures s' == P.FlushStep(s, w) && s'.pc.Written? && s'.pc.result == w && P.Inv(s') && P.View(s') == P.View(s)
    ensures OnDisk(meta.content, meta.wp, step, s'.ssts, tables)
    ensures Pending(meta.content, meta.wp, step, s', sst, table.Entries())
    ensures w.outcome == Success ==> meta.wp == s.pc.start + w.consumed
    ensures meta.faults == old(meta.faults) && old(meta.wp) == s.pc.start ==>
              P.Untorn(w) && meta.wp == s.pc.start + w.consumed
    ensures meta.faults >= old(meta.faults) && old(meta.wp) <= meta.wp
    ensures SameBelow(old(meta.content), meta.content, old(meta.wp))
  {
    hide P.View, WrittenSst, P.Inv, OnDisk, Describes, MapOf, Sorted, InOrder, P.SstWriteAllowed, Crc, Payload, Sectors;
    var r, written, consumed;
    r, written, consumed := SstWrite(meta, step, table, s.pc.start, s.metaEnd, s.pc.seqNo);
    sst := if written.Some? then written.value else Sstable(0, Header(0, 0, 0, 0, 0, 0));
    w := P.SstWrite(r, consumed);
    P.FlushInv(s, w);
    s' := P.FlushStep(s, w);
    WrittenKeeps(step, table.Entries(), s.pc.start, s.pc.seqNo, r, written, consumed, old(meta.wp), old(meta.content),
                 meta.wp, meta.content);
    OnDiskKept(old(meta.content), meta.content, old(meta.wp), meta.wp, step, s.ssts, tables);
    P.WriteConsumed(table.Contents(), s.pc.start, s.metaEnd, w);
    if r == Success {
      TableSize(table);
      WritingSeq(s, w);
      ValidStorable(table, s.pc.seqNo);
      WrittenIsStored(step, table.Entries(), s.pc.start, s.pc.seqNo, written, consumed, old(meta.wp), old(meta.content),
                      meta.wp, meta.content);
    }
  }

  /** The sequence number of a table that was written fits 64 bits: the log is longer than that many blocks. */
  lemma WritingSeq(s: P.Sys, w: P.SstWrite)
    requires s.pc.Writing? && P.SeqBehind(s) && s.metaEnd < U64 && w.outcome == Success
    requires P.SstWriteAllowed(G.Table(s.t, s.pc.victim), s.pc.start, s.metaEnd, w)
    requires P.Inv(s)
    ensures s.pc.seqNo < U64
  {
    hide G.MemoryOk, P.WakeOk, P.LogOk, P.MissOk, Sectors, G.Table;
  }

  /** Publishing what is pending: the table joins the ones on the media. */
  lemma PendingPublished(content: Media, wp: nat, step: Checksum, s: P.Sys, w: P.SstWrite, sst: Sstable, es: seq<Entry>,
                         tables: seq<DiskTable>, all: seq<DiskTable>)
    requires OnDisk(content, wp, step, s.ssts, tables) && Pending(content, wp, step, s, sst, es)
    requires s.pc.Accounted? && s.pc.result.outcome == Success && all == [DiskTable(Sealed(step, sst, es), es)] + tables
    requires P.Inv(s)
    ensures OnDisk(content, wp, step, P.FlushStep(s, w).ssts, all)
  {
    hide P.View, OnDisk, Describes, MapOf, P.SstWriteAllowed, Crc, Payload, Sectors, G.MemoryOk, G.TablesView, P.WakeOk,
         P.LogOk, P.MissOk;
    OnDiskMore(content, wp, step, s.ssts, tables, DiskTable(Sealed(step, sst, es), es));
  }

  /** The round trip of one table: whatever zns_sst_write has put on the media, zns_sst_lookup finds there for any block
      what memtable_lookup finds in the table, unless a read fails. */
  method WriteThenLookup(meta: MetaZone, step: Checksum, table: MemTable, start: nat, end: nat, seqNo: u64, b: nat)
    returns (written: Errno, found: Result<nat>, held: Result<nat>)
    requires table.Valid() && end <= meta.end
    modifies meta
    ensures held == if b in table.Contents() then Ok(table.Contents()[b]) else Err(NoData)
    ensures written == Success && meta.faults == old(meta.faults) ==> found == held
    ensures meta.faults >= old(meta.faults)
    ensures meta.faults == old(meta.faults) && old(meta.wp) == start && start + Sectors(|table.Entries()|) <= end
            && table.Contents() != map[] ==>
              written == Success
  {
    hide WrittenSst, Describes, MapOf, Sorted, InOrder, NrBlocks, Crc, Payload;
    held := table.Lookup(b);
    var sst, consumed;
    written, sst, consumed := SstWrite(meta, step, table, start, end, seqNo);
    found := Err(NoData);
    TableSize(table);
    WrittenKeeps(step, table.Entries(), start, seqNo, written, sst, consumed, old(meta.wp), old(meta.content), meta.wp,
                 meta.content);
    if written == Success {
      P.WriteConsumed(table.Contents(), start, end, P.SstWrite(written, consumed));
      ValidStorable(table, seqNo);
      WrittenIsStored(step, table.Entries(), start, seqNo, sst, consumed, old(meta.wp), old(meta.content), meta.wp,
                      meta.content);
      DescribedWidths(meta.content, step, sst.value, table.Entries());
      found := SstLookup(meta, sst.value, b, step, table.Entries());
    }
  }

  lemma DescribedWidths(content: Media, step: Checksum, sst: Sstable, es: seq<Entry>)
    requires Describes(content, step, Sealed(step, sst, es), es)
    ensures sst.header.nrEntries < U32 && sst.header.nrBlocks < U32
  {
    hide Crc, Payload;
  }
}
