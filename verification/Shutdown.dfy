/** Clean detach: every MemTable generation that is still resident is appended to the log, oldest first. */
module Shutdown {
  import opened Prelude
  import opened Sums
  import opened SstLayout
  import opened MetaZones
  import opened MemTables
  import opened SsTables
  import opened Recovery
  import opened FlushWorkers
  import opened Stores
  import G = Generations
  import P = FlushProtocol

  /** What the first generations map together, later ones winning. */
  function Merged(ms: seq<G.Mapping>): G.Mapping {
    if ms == [] then map[] else Merged(ms[..|ms| - 1]) + ms[|ms| - 1]
  }

  ghost predicate Flushable(t: MemTable?)
    reads t
  {
    t != null ==> t.Valid()
  }

  ghost function Held(t: MemTable?): G.Mapping
    reads t
  {
    if t == null then map[] else t.Contents()
  }

  /** Metadata sectors a generation takes. */
  function Need(t: MemTable?): nat
    reads t
  {
    if t == null then 0 else P.SizeOf(|t.Entries()|)
  }

  /** What is in the log: chained tables up to sector end, with sequence numbers below nextSeq, which itself stays
      behind the log. */
  ghost predicate LogIs(content: Media, step: Checksum, tables: seq<DiskTable>, first: nat, end: nat, nextSeq: nat) {
    && LogHolds(content, step, tables, first, end) && P.Ordered(Abstracts(tables), end, nextSeq)
    && P.Behind(nextSeq, end)
  }

  lemma {:induction false} GaplessIsChain(content: Media, step: Checksum, tables: seq<DiskTable>, first: nat, end: nat)
    requires AllDescribed(content, step, tables) && P.Gapless(Abstracts(tables), first, end)
    ensures Chain(Indexes(tables), first, end)
    decreases |tables|
  {
    hide Describes, MapOf, Sectors, HeaderValid;
    if tables != [] {
      assert Abstracts(tables)[1..] == Abstracts(tables[1..]) && Indexes(tables)[1..] == Indexes(tables[1..]);
      DescribedNonEmpty(content, step, tables[0]);
      assert forall i | 0 <= i < |tables[1..]| :: tables[1..][i] == tables[i + 1];
      GaplessIsChain(content, step, tables[1..], first, tables[0].sst.start);
    }
  }

  /** After a run in which no metadata write was torn, the log is what the recovery walk needs. */
  lemma UntornLog(s: P.Sys, content: Media, wp: nat, step: Checksum, tables: seq<DiskTable>, first: nat)
    requires P.NothingTorn(s, first) && !s.pc.Accounted? && OnDisk(content, wp, step, s.ssts, tables)
    requires P.SeqBehind(s)
    requires P.Inv(s)
    ensures LogIs(content, step, tables, first, s.metaWp, s.nextSeq)
  {
    hide Describes, AllDescribed, P.Gapless, P.Ordered, G.MemoryOk, P.VictimOk, P.WakeOk, P.MissOk, Chain;
    GaplessIsChain(content, step, tables, first, s.metaWp);
  }

  lemma LogKept(content: Media, content': Media, step: Checksum, tables: seq<DiskTable>, first: nat, end: nat,
                nextSeq: nat, wp: nat)
    requires LogIs(content, step, tables, first, end, nextSeq) && SameBelow(content, content', wp) && end <= wp
    ensures LogIs(content', step, tables, first, end, nextSeq)
  {
    hide SameBelow, Describes, P.Ordered;
    LogOnDisk(content, step, tables, first, end);
    OnDiskKept(content, content', wp, wp, step, Abstracts(tables), tables);
  }

  lemma LogOnDisk(content: Media, step: Checksum, tables: seq<DiskTable>, first: nat, end: nat)
    requires LogHolds(content, step, tables, first, end)
    ensures OnDisk(content, end, step, Abstracts(tables), tables)
  {
    hide Describes;
    ChainInside(Indexes(tables), first, end);
    forall i | 0 <= i < |tables| ensures tables[i].sst.start + Sectors(|tables[i].es|) <= end {
      DescribedFits(content, step, tables[i]);
      assert Indexes(tables)[i] == tables[i].sst;
    }
  }

  /** Appending one stored table to the log. */
  lemma LogMore(content: Media, step: Checksum, tables: seq<DiskTable>, all: seq<DiskTable>, first: nat, end: nat,
                end': nat, nextSeq: nat, t: DiskTable)
    requires LogIs(content, step, tables, first, end, nextSeq) && Describes(content, step, t.sst, t.es)
    requires t.sst.start == end && t.sst.header.seqNo == nextSeq && all == [t] + tables && end' == end + Sectors(|t.es|)
    ensures LogIs(content, step, all, first, end', nextSeq + 1)
    ensures P.SstsView(Abstracts(all)) == P.SstsView(Abstracts(tables)) + MapOf(t.es)
  {
    hide Describes, MapOf, P.Ordered, Abstracts, Indexes, Sectors, AllDescribed, P.SstsView, P.Behind;
    DescribedNonEmpty(content, step, t);
    TwoBlocks(|t.es|, nextSeq, end);
    DescribedMore(content, step, tables, all, t);
    ListsMore(tables, all, t);
    ChainMore(Indexes(tables), Indexes(all), first, t.sst, end');
    OrderedMore(tables, all, t, end', nextSeq);
    assert LogHolds(content, step, all, first, end');
    assert P.Ordered(Abstracts(all), end', nextSeq + 1);
    assert P.Behind(nextSeq + 1, end');
    ViewMore(Abstract(t), Abstracts(tables), Abstracts(all));
  }

  lemma TwoBlocks(n: nat, nextSeq: nat, end: nat)
    requires n > 0 && P.Behind(nextSeq, end)
    ensures P.Behind(nextSeq + 1, end + Sectors(n))
  {
  }

  lemma OrderedMore(tables: seq<DiskTable>, all: seq<DiskTable>, t: DiskTable, end: nat, nextSeq: nat)
    requires P.Ordered(Abstracts(tables), t.sst.start, nextSeq) && t.sst.header.seqNo == nextSeq && all == [t] + tables
    requires MapOf(t.es) != map[] && |MapOf(t.es)| == |t.es| && t.sst.start + Sectors(|t.es|) <= end
    ensures P.Ordered(Abstracts(all), end, nextSeq + 1)
  {
    hide MapOf, P.Ordered, Abstracts, Indexes, Sectors;
    ListsMore(tables, all, t);
    P.OrderedCons(Abstract(t), Abstracts(tables), end);
  }

  lemma DescribedMore(content: Media, step: Checksum, tables: seq<DiskTable>, all: seq<DiskTable>, t: DiskTable)
    requires AllDescribed(content, step, tables) && Describes(content, step, t.sst, t.es) && all == [t] + tables
    ensures AllDescribed(content, step, all)
  {
    hide Describes;
    assert forall i | 0 < i < |all| :: all[i] == tables[i - 1];
  }

  lemma ListsMore(tables: seq<DiskTable>, all: seq<DiskTable>, t: DiskTable)
    requires all == [t] + tables
    ensures Abstracts(all) == [Abstract(t)] + Abstracts(tables)
    ensures Indexes(all) == [t.sst] + Indexes(tables)
  {
    hide MapOf;
  }

  lemma ChainMore(ssts: seq<Sstable>, all: seq<Sstable>, first: nat, sst: Sstable, end: nat)
    requires Chain(ssts, first, sst.start) && HeaderValid(sst.header)
    requires all == [sst] + ssts && end == sst.start + Extent(sst)
    ensures Chain(all, first, end)
  {
    assert all[1..] == ssts;
  }

  lemma ViewMore(t: P.Sst, ssts: seq<P.Sst>, all: seq<P.Sst>)
    requires all == [t] + ssts
    ensures P.SstsView(all) == P.SstsView(ssts) + t.entries
  {
    assert all[1..] == ssts;
  }

  lemma DescribedNonEmpty(content: Media, step: Checksum, t: DiskTable)
    requires Describes(content, step, t.sst, t.es)
    ensures MapOf(t.es) != map[] && |MapOf(t.es)| == |t.es| > 0 && HeaderValid(t.sst.header)
    ensures Extent(t.sst) == Sectors(|t.es|)
  {
    hide MapOf, Crc, Payload;
    MapOfSorted(t.es);
    EmptyMap(t.es);
    HeaderOfValid(step, t.es, t.sst.header.seqNo);
  }

  /** The log ends at sector metaWp, and nothing below the zone's write pointer lies above it. */
  ghost predicate Sound(content: Media, wp: nat, step: Checksum, tables: seq<DiskTable>, first: nat, metaWp: nat,
                        nextSeq: nat) {
    LogIs(content, step, tables, first, metaWp, nextSeq) && metaWp <= wp
  }

  /** The sequence number of a table that fits below a 64-bit limit fits 64 bits. */
  lemma SeqFits(content: Media, step: Checksum, tables: seq<DiskTable>, first: nat, metaWp: nat, nextSeq: nat, n: nat,
                end: u64)
    requires LogIs(content, step, tables, first, metaWp, nextSeq) && n > 0 && metaWp + Sectors(n) <= end
    ensures nextSeq < U64
  {
    hide LogHolds, P.Ordered;
  }

  /** A table written behind a log extends it. */
  lemma FlushedOne(content: Media, step: Checksum, es: seq<Entry>, tables: seq<DiskTable>, all: seq<DiskTable>,
                   first: nat, metaWp: nat, nextSeq: nat, sst: Option<Sstable>, consumed: nat, wp0: nat,
                   content0: Media, wp: nat)
    requires LogIs(content, step, tables, first, metaWp, nextSeq) && Storable(es, nextSeq) && consumed == Sectors(|es|)
    requires WrittenSst(step, es, metaWp, nextSeq, Success, sst, consumed, wp0, content0, wp, content)
    requires sst.Some? && all == [DiskTable(Sealed(step, sst.value, es), es)] + tables
    ensures LogIs(content, step, all, first, metaWp + consumed, nextSeq + 1)
    ensures P.SstsView(Abstracts(all)) == P.SstsView(Abstracts(tables)) + MapOf(es)
  {
    hide LogIs, MapOf, P.SstsView, Abstracts, Describes, Sectors, HeaderOf, Storable, WrittenSst;
    WrittenIsStored(step, es, metaWp, nextSeq, sst, consumed, wp0, content0, wp, content);
    LogMore(content, step, tables, all, first, metaWp, metaWp + consumed, nextSeq,
            DiskTable(Sealed(step, sst.value, es), es));
  }

  /** One generation of zns_lsm_flush_all_sync: appended behind the log, or skipped because it holds nothing. */
  method FlushOne(meta: MetaZone, step: Checksum, t: MemTable, metaWp: nat, metaEnd: nat, nextSeq: nat,
                  ghost tables: seq<DiskTable>, ghost first: nat)
    returns (r: Errno, consumed: nat, ghost tables': seq<DiskTable>)
    requires Flushable(t) && metaEnd <= meta.end
    modifies meta
    ensures meta.faults >= old(meta.faults) && old(meta.wp) <= meta.wp
    ensures SameBelow(old(meta.content), meta.content, old(meta.wp))
    ensures old(Sound(meta.content, meta.wp, step, tables, first, metaWp, nextSeq)) ==>
              && Sound(meta.content, meta.wp, step, tables', first, if r == Success then metaWp + consumed else metaWp,
                       if r == Success then nextSeq + 1 else nextSeq)
              && metaWp + consumed <= meta.wp
              && (r == Success ==>
                    && meta.wp == metaWp + consumed
                    && P.SstsView(Abstracts(tables')) == P.SstsView(Abstracts(tables)) + t.Contents())
    ensures r == Success ==> consumed == Need(t)
    ensures r != Success ==> tables' == tables
    ensures r == NoData ==> consumed == 0 && t.Contents() == map[] && meta.wp == old(meta.wp)
    ensures r == NoSpace ==> consumed == 0 && meta.wp == old(meta.wp)
    ensures meta.faults == old(meta.faults) && old(meta.wp) == metaWp ==>
              r == if metaWp >= metaEnd then NoSpace else if Need(t) == 0 then NoData
                   else if metaWp + Need(t) > metaEnd then NoSpace else Success
  {
    hide LogIs, MapOf, InOrder, Sorted, P.SstsView, Abstracts, Describes, P.SstWriteAllowed, Sectors, HeaderOf, Image,
         StoredAt, SameBelow, Sealed, Storable;
    var sst;
    tables' := tables;
    ghost var sound := Sound(meta.content, meta.wp, step, tables, first, metaWp, nextSeq);
    r, sst, consumed := SstWrite(meta, step, t, metaWp, metaEnd, nextSeq);
    TableSize(t);
    P.SizePositive(|t.Entries()|);
    P.WriteConsumed(t.Contents(), metaWp, metaEnd, P.SstWrite(r, consumed));
    if sound {
      LogKept(old(meta.content), meta.content, step, tables, first, metaWp, nextSeq, old(meta.wp));
    }
    if sound && r == Success {
      WrittenFits(t.Contents(), metaWp, metaEnd, P.SstWrite(r, consumed));
      SeqFits(meta.content, step, tables, first, metaWp, nextSeq, |t.Entries()|, meta.end);
      ValidStorable(t, nextSeq);
      tables' := [DiskTable(Sealed(step, sst.value, t.Entries()), t.Entries())] + tables;
      FlushedOne(meta.content, step, t.Entries(), tables, tables', first, metaWp, nextSeq, sst, consumed, old(meta.wp),
                 old(meta.content), meta.wp);
    }
  }

  lemma WrittenFits(m: G.Mapping, start: nat, end: nat, w: P.SstWrite)
    requires P.SstWriteAllowed(m, start, end, w) && w.outcome == Success
    ensures start + Sectors(|m|) <= end
  {
    hide Sectors;
  }

  lemma MergedNext(ms: seq<G.Mapping>, i: nat, base: G.Mapping)
    requires i < |ms|
    ensures base + Merged(ms[..i + 1]) == base + Merged(ms[..i]) + ms[i]
  {
    assert ms[..i + 1][..i] == ms[..i];
    var m := Merged(ms[..i]);
    hide Merged;
  }

  lemma NothingMerged(ms: seq<G.Mapping>, base: G.Mapping)
    ensures base + Merged(ms[..0]) == base && ms[..|ms|] == ms
  {
  }

  lemma AddNothing(m: G.Mapping)
    ensures m + map[] == m
  {
  }

  lemma {:induction false} NothingToMerge(ms: seq<G.Mapping>, i: nat, base: G.Mapping)
    requires i <= |ms| && forall k | i <= k < |ms| :: ms[k] == map[]
    ensures base + Merged(ms) == base + Merged(ms[..i])
    decreases |ms| - i
  {
    if i == |ms| {
      assert ms[..i] == ms;
    } else {
      NothingToMerge(ms, i + 1, base);
      MergedNext(ms, i, base);
      AddNothing(base + Merged(ms[..i]));
    }
  }

  /** Whether the generations from number i on hold nothing. */
  method HoldNothing(generations: seq<MemTable?>, i: nat) returns (empty: bool)
    requires i <= |generations| && forall k | 0 <= k < |generations| :: Flushable(generations[k])
    ensures empty <==> forall k | i <= k < |generations| :: Need(generations[k]) == 0
    ensures empty ==> forall k | i <= k < |generations| :: Held(generations[k]) == map[]
  {
    hide MapOf, InOrder, Sorted, MemTable.Valid, MemTable.Contents, MemTable.Entries;
    for k := i to |generations|
      invariant forall j | i <= j < k :: Need(generations[j]) == 0 && Held(generations[j]) == map[]
    {
      var t := generations[k];
      if t != null {
        EntryCount(t);
        if t.nrEntries != 0 {
          return false;
        }
      }
    }
    return true;
  }

  lemma EntryCount(t: MemTable)
    requires t.Valid()
    ensures Need(t) == 0 <==> t.nrEntries == 0
    ensures t.nrEntries == 0 ==> t.Contents() == map[]
  {
    hide MapOf, InOrder, Sorted;
    TableSize(t);
    SizeIsMapped(t);
    P.SizeNonZero(t.Contents());
  }

  /** Stopping for want of space is exactly what a zone too small for all generations does. */
  lemma StopsExactly(needs: seq<nat>, i: nat, metaWp0: nat, metaWp: nat, metaEnd: nat, empty: bool)
    requires i < |needs| && metaWp == metaWp0 + Sum(needs[..i]) <= metaEnd
    requires empty <==> forall k | i <= k < |needs| :: needs[k] == 0
    requires metaWp >= metaEnd || metaWp + needs[i] > metaEnd
    ensures empty <==> metaWp0 + Sum(needs) <= metaEnd
    ensures empty ==> Sum(needs) == Sum(needs[..i])
  {
    hide Sum;
    SumHalves(needs, i);
    var rest := needs[i..];
    assert rest[0] == needs[i];
    if empty {
      SumAtMost(rest, 0);
    } else {
      var k :| i <= k < |needs| && needs[k] != 0;
      assert rest[k - i] == needs[k];
      SumPart(rest, k - i);
      SumPart(rest, 0);
    }
  }

  lemma NothingSummed(s: seq<nat>)
    ensures Sum(s[..0]) == 0 && s[..|s|] == s
  {
  }

  /** One iteration of zns_lsm_flush_all_sync: an absent or empty generation is skipped. */
  method FlushNext(meta: MetaZone, step: Checksum, t: MemTable?, metaWp: nat, metaEnd: nat, nextSeq: nat,
                   ghost tables: seq<DiskTable>, ghost first: nat)
    returns (r: Errno, metaWp': nat, nextSeq': nat, ghost tables': seq<DiskTable>)
    requires Flushable(t) && metaEnd <= meta.end
    modifies meta
    ensures meta.faults >= old(meta.faults) && old(meta.wp) <= meta.wp
    ensures SameBelow(old(meta.content), meta.content, old(meta.wp)) && metaWp <= metaWp'
    ensures old(Sound(meta.content, meta.wp, step, tables, first, metaWp, nextSeq)) ==>
              && Sound(meta.content, meta.wp, step, tables', first, if r == Success then metaWp' else metaWp, nextSeq')
              && metaWp' <= meta.wp
              && P.SstsView(Abstracts(tables')) ==
                 P.SstsView(Abstracts(tables)) + if r == Success then Held(t) else map[]
    ensures meta.faults == old(meta.faults) && old(meta.wp) == metaWp <= metaEnd ==>
              && (if r == Success then metaWp + Need(t) <= metaEnd else metaWp == metaEnd || metaWp + Need(t) > metaEnd)
              && (old(Sound(meta.content, meta.wp, step, tables, first, metaWp, nextSeq)) ==>
                    meta.wp == metaWp' == metaWp + if r == Success then Need(t) else 0)
  {
    hide LogIs, MapOf, InOrder, Sorted, P.SstsView, Abstracts, Sectors, SameBelow, P.SizeOf, Need, Held;
    r, metaWp', nextSeq', tables' := Success, metaWp, nextSeq, tables;
    AddNothing(P.SstsView(Abstracts(tables)));
    if t == null {
      NoTable(t);
      SameBelowSelf(meta.content, meta.wp);
      return;
    }
    HeldIs(t);
    var consumed;
    r, consumed, tables' := FlushOne(meta, step, t, metaWp, metaEnd, nextSeq, tables, first);
    metaWp' := metaWp + consumed;
    if r == NoData {
      r := Success;
      return;
    }
    nextSeq' := if r == Success then nextSeq + 1 else nextSeq;
  }

  /** zns_lsm_flush_all_sync over the flushing, immutable and active slots. A sound log always ends up holding the
      tables it held plus an oldest-first prefix of the generations, so that nothing stale can outrank anything newer.
      Without failures everything resident gets there exactly if it fits. Where the source only reports an error, the
      result says whether everything resident is in the log. */
  method FlushAllSync(meta: MetaZone, step: Checksum, generations: seq<MemTable?>, metaWp0: nat, metaEnd: nat,
                      nextSeq0: nat, ghost tables0: seq<DiskTable>, ghost first: nat, ghost ms: seq<G.Mapping>,
                      ghost needs: seq<nat>)
    returns (complete: bool, metaWp: nat, nextSeq: nat, ghost tables: seq<DiskTable>, ghost end: nat, ghost done: nat)
    requires |ms| == |generations| == |needs| && metaEnd <= meta.end
    requires forall i | 0 <= i < |generations| ::
               Flushable(generations[i]) && ms[i] == Held(generations[i]) && needs[i] == Need(generations[i])
    modifies meta
    ensures meta.faults >= old(meta.faults) && old(meta.wp) <= meta.wp
    ensures SameBelow(old(meta.content), meta.content, old(meta.wp))
    ensures done <= |generations| && (complete ==> done == |generations|)
    ensures old(Sound(meta.content, meta.wp, step, tables0, first, metaWp0, nextSeq0)) ==>
              && Sound(meta.content, meta.wp, step, tables, first, end, nextSeq) && end <= metaWp <= meta.wp
              && P.SstsView(Abstracts(tables)) == P.SstsView(Abstracts(tables0)) + Merged(ms[..done])
              && (meta.faults == old(meta.faults) && old(meta.wp) == metaWp0 <= metaEnd ==>
                    && meta.wp == metaWp == end == metaWp0 + Sum(needs[..done])
                    && (complete <==> metaWp0 + Sum(needs) <= metaEnd))
  {
    hide LogIs, MapOf, InOrder, Sorted, P.SstsView, Abstracts, Merged, Sum, Sectors, SameBelow, P.SizeOf, Need, Held;
    complete, metaWp, nextSeq, tables, end := false, metaWp0, nextSeq0, tables0, metaWp0;
    ghost var base := P.SstsView(Abstracts(tables0));
    ghost var sound := Sound(meta.content, meta.wp, step, tables0, first, metaWp0, nextSeq0);
    ghost var exact := sound && meta.wp == metaWp0 <= metaEnd;
    NothingMerged(ms, base);
    NothingSummed(needs);
    SameBelowSelf(meta.content, meta.wp);
    for i := 0 to |generations|
      invariant meta.faults >= old(meta.faults) && old(meta.wp) <= meta.wp
      invariant SameBelow(old(meta.content), meta.content, old(meta.wp))
      invariant sound ==>
                  && Sound(meta.content, meta.wp, step, tables, first, metaWp, nextSeq) && end == metaWp
                  && P.SstsView(Abstracts(tables)) == base + Merged(ms[..i])
      invariant exact && meta.faults == old(meta.faults) ==>
                  meta.wp == metaWp == metaWp0 + Sum(needs[..i]) <= metaEnd
    {
      MergedNext(ms, i, base);
      AddNothing(base + Merged(ms[..i]));
      SumPrefix(needs, i);
      done := i;
      var r;
      ghost var content0, wp0 := meta.content, meta.wp;
      r, metaWp, nextSeq, tables := FlushNext(meta, step, generations[i], metaWp, metaEnd, nextSeq, tables, first);
      SameBelowTrans(old(meta.content), content0, meta.content, old(meta.wp), wp0);
      if r != Success {
        complete := HoldNothing(generations, i);
        if exact && meta.faults == old(meta.faults) {
          StopsExactly(needs, i, metaWp0, metaWp, metaEnd, complete);
        }
        if complete {
          NothingToMerge(ms, i, base);
          done := |generations|;
        }
        return;
      }
      end := metaWp;
    }
    complete, done := true, |generations|;
  }

  lemma NoTable(t: MemTable?)
    requires t == null
    ensures Held(t) == map[] && Need(t) == 0
  {
  }

  lemma HeldIs(t: MemTable)
    ensures Held(t) == t.Contents()
  {
  }

  // ----- Detaching a store -----

  lemma MergedThree(ms: seq<G.Mapping>)
    requires |ms| == 3
    ensures Merged(ms) == ms[0] + ms[1] + ms[2]
  {
    assert ms[..2][..1] == ms[..1] && ms[..1][..0] == [];
    assert Merged(ms[..1]) == map[] + ms[0] == ms[0];
    assert Merged(ms[..2]) == ms[0] + ms[1];
  }

  lemma MergedIsView(s: P.Sys, ssts: seq<P.Sst>, ms: seq<G.Mapping>)
    requires ms == [G.Contents(s.t, s.t.flushing), G.Contents(s.t, s.t.immutable), G.Table(s.t, s.t.active)]
    requires ssts == s.ssts
    ensures P.SstsView(ssts) + Merged(ms[..3]) == P.View(s)
  {
    hide P.SstsView, G.Contents, G.Table, Merged;
    assert ms[..3] == ms;
    MergedThree(ms);
  }

  lemma NeedIsSize(t: MemTable?, m: G.Mapping)
    requires if t == null then m == map[] else t.Contents() == m
    requires Flushable(t)
    ensures Need(t) == P.Size(m)
  {
    hide MapOf, InOrder, Sorted, P.SizeOf;
    P.NothingTaken();
    if t != null {
      TableSize(t);
    }
  }

  lemma SumThree(needs: seq<nat>)
    requires |needs| == 3
    ensures Sum(needs) == needs[0] + needs[1] + needs[2]
  {
    hide Sum;
    NothingSummed(needs);
    SumPrefix(needs, 0);
    SumPrefix(needs, 1);
    SumPrefix(needs, 2);
  }

  /** What is resident when the flush worker rests takes exactly what the log still has to grow. */
  lemma ResidentDue(s: P.Sys, flushing: MemTable?, immutable: MemTable?, active: MemTable, needs: seq<nat>)
    requires P.AtRest(s) && needs == [Need(flushing), Need(immutable), Need(active)]
    requires if flushing == null then G.Contents(s.t, s.t.flushing) == map[]
             else flushing.Contents() == G.Contents(s.t, s.t.flushing)
    requires if immutable == null then G.Contents(s.t, s.t.immutable) == map[]
             else immutable.Contents() == G.Contents(s.t, s.t.immutable)
    requires active.Contents() == G.Table(s.t, s.t.active)
    requires Flushable(flushing) && Flushable(immutable) && Flushable(active)
    ensures s.metaWp + Sum(needs) == P.Reach(s)
  {
    hide Flushable, Need, MemTable.Contents, G.Contents, G.Table, P.SizeOf, Sum;
    NeedIsSize(flushing, G.Contents(s.t, s.t.flushing));
    NeedIsSize(immutable, G.Contents(s.t, s.t.immutable));
    NeedIsSize(active, G.Table(s.t, s.t.active));
    SumThree(needs);
  }

  /** A resting store whose log nothing has gone wrong with has a sound log. */
  lemma RestingLog(d: Store)
    requires P.AtRest(d.sys) && d.Quiet()
    requires d.Valid()
    ensures d.meta.wp == d.sys.metaWp <= d.meta.end
    ensures Sound(d.meta.content, d.meta.wp, d.step, d.tables, d.meta.start + BLOCK_SECTORS, d.sys.metaWp,
                  d.sys.nextSeq)
    ensures d.sys.ssts == Abstracts(d.tables) && d.sys.metaEnd == d.meta.end
  {
    hide P.Inv, P.SeqBehind, P.NothingTorn, P.Reach, P.View, P.Roomy, Slots.Valid, Describes, LogIs, Abstracts, OnDisk;
    OnDiskFacts(d.meta.content, d.meta.wp, d.step, d.sys.ssts, d.tables);
    UntornLog(d.sys, d.meta.content, d.meta.wp, d.step, d.tables, d.meta.start + BLOCK_SECTORS);
  }

  /** The shutdown of a store whose flush worker rests. */
  method FlushResident(d: Store) returns (complete: bool, ghost tables: seq<DiskTable>, ghost nextSeq: nat)
    requires P.AtRest(d.sys)
    requires d.Valid()
    modifies d.meta
    ensures d.meta.faults >= old(d.meta.faults)
    ensures d.meta.start < d.meta.wp && BlockAt(d.meta.content, d.meta.start) == d.super
    ensures d.Quiet() ==> (complete <==> P.Reach(d.sys) <= d.meta.end)
    ensures d.Quiet() && complete ==>
              && LogIs(d.meta.content, d.step, tables, d.meta.start + BLOCK_SECTORS, d.meta.wp, nextSeq)
              && P.SstsView(Abstracts(tables)) == d.View() && d.meta.wp == P.Reach(d.sys)
  {
    hide Store.Valid, Store.View, P.AtRest, P.View, P.Reach, LogIs, Merged, Abstracts, P.SstsView, Need, Sum,
         Held, SameBelow, BlockAt, MemTable.Valid, MemTable.Contents, G.Contents, G.Table, Slots.Valid;
    StoreParts(d);
    d.slots.SlotContents();
    ghost var s := d.sys;
    ghost var ms := [Held(d.slots.flushing), Held(d.slots.immutable), Held(d.slots.active)];
    ghost var needs := [Need(d.slots.flushing), Need(d.slots.immutable), Need(d.slots.active)];
    if d.Quiet() {
      RestingLog(d);
      HeldContents(d.slots, ms);
      MergedIsView(s, Abstracts(d.tables), ms);
      ResidentDue(s, d.slots.flushing, d.slots.immutable, d.slots.active, needs);
      assert needs[..3] == needs;
    }
    ghost var content0, wp0 := d.meta.content, d.meta.wp;
    ghost var end, done;
    var metaWp, lastSeq;
    complete, metaWp, lastSeq, tables, end, done :=
      FlushAllSync(d.meta, d.step, [d.slots.flushing, d.slots.immutable, d.slots.active], d.sys.metaWp, d.sys.metaEnd,
                   d.sys.nextSeq, d.tables, d.meta.start + BLOCK_SECTORS, ms, needs);
    nextSeq := lastSeq;
    BlockKept(content0, d.meta.content, d.meta.start, wp0);
  }

  /** The shutdown of the store in zns_engine_exit: drain the flush queue, then flush what is resident, oldest
      generation first. If nothing has ever gone wrong with the log, the shutdown is complete exactly if everything
      resident fits the metadata zone, and then leaves a log that holds exactly the current mapping and ends at the
      zone's write pointer. */
  method Detach(d: Store) returns (complete: bool, ghost tables: seq<DiskTable>, ghost nextSeq: nat)
    requires d.Valid()
    modifies d.Repr
    ensures d.meta.faults >= old(d.meta.faults) && d.puts == old(d.puts)
    ensures d.meta.start < d.meta.wp && BlockAt(d.meta.content, d.meta.start) == d.super
    ensures d.Quiet() ==> (complete <==> old(P.Reach(d.sys)) <= d.meta.end)
    ensures d.Quiet() && complete ==>
              && LogIs(d.meta.content, d.step, tables, d.meta.start + BLOCK_SECTORS, d.meta.wp, nextSeq)
              && P.SstsView(Abstracts(tables)) == old(d.View()) && d.meta.wp == old(P.Reach(d.sys))
  {
    hide Store.Valid, Store.View, P.AtRest, LogIs, P.SstsView, Abstracts, BlockAt, P.Reach;
    StoreParts(d);
    d.Drain();
    StoreParts(d);
    complete, tables, nextSeq := FlushResident(d);
  }

  lemma HeldContents(slots: Slots, ms: seq<G.Mapping>)
    requires ms == [Held(slots.flushing), Held(slots.immutable), Held(slots.active)]
    requires slots.Valid()
    ensures var t := slots.names;
            ms == [G.Contents(t, t.flushing), G.Contents(t, t.immutable), G.Table(t, t.active)]
  {
    hide Slots.Valid, MemTable.Contents, G.Contents, G.Table;
    slots.SlotContents();
  }

  lemma StoreParts(d: Store)
    requires d.Valid()
    ensures d in d.Repr && d.slots in d.Repr && d.meta in d.Repr && d.slots.Valid() && d.slots.names == d.sys.t
    ensures d.sys.metaEnd == d.meta.end && d.meta.start < d.meta.wp && BlockAt(d.meta.content, d.meta.start) == d.super
    ensures d.faults0 <= d.meta.faults && d.View() == P.View(d.sys)
  {
    hide P.Inv, P.SeqBehind, P.Roomy, Undisturbed, OnDisk, Listed, Slots.Valid, Describes, Pending, BlockAt, P.View;
  }
}
