/** The two ordered workers that share the MemTable generations and the SSTable list.
    Every lock-protected section of the source is one step; the I/O worker's steps and the flush worker's steps
    interleave freely, and the flush worker's position is explicit. */
module FlushProtocol {
  import opened Prelude
  import opened Generations
  import opened SstLayout
  import Sums

  /** A published SSTable: its extent in the metadata zone, its sequence number, the mapping its payload holds,
      and the mapping its header checksum was computed from. */
  datatype Sst = Sst(start: nat, sectors: nat, seqNo: nat, entries: Mapping, checked: Mapping)

  /** What one zns_sst_write call returned. */
  datatype SstWrite = SstWrite(outcome: Errno, consumed: nat)

  /** Where the flush worker is. The work item runs from Claiming until it is Idle again. */
  datatype FlushPc =
    | Idle
    | Claiming
    | Claimed(victim: nat)
    | Serialising(victim: nat, start: nat, seqNo: nat)
    | Writing(victim: nat, start: nat, seqNo: nat, checked: Mapping)
    | Written(victim: nat, start: nat, seqNo: nat, checked: Mapping, entries: Mapping, result: SstWrite)
    | Accounted(victim: nat, start: nat, seqNo: nat, checked: Mapping, entries: Mapping, result: SstWrite)
    | Published(victim: nat)
    | Releasing(victim: nat)
    | Clearing(failed: bool)
    | Requeueing(failed: bool)
    | Enqueueing

  /** Where the I/O worker is between two of its critical sections. */
  datatype IoPc = Ready | Missed(block: nat) | OwesQueue | MustEnqueue

  datatype Sys = Sys(
    t: Tables,
    threshold: nat,
    ssts: seq<Sst>,
    metaWp: nat,
    metaEnd: nat,
    nextSeq: nat,
    inFlight: bool,
    queued: bool,
    lastFailed: bool,
    pc: FlushPc,
    io: IoPc)

  /** The results zns_sst_write can have for a table m appended at start with the region ending at end. */
  predicate SstWriteAllowed(m: Mapping, start: nat, end: nat, r: SstWrite) {
    match r.outcome
    case Success => m != map[] && start + Sectors(|m|) <= end && r.consumed == Sectors(|m|)
    case NoData => m == map[] && start < end && r.consumed == 0
    case NoSpace => r.consumed == 0 && (start >= end || start + Sectors(|m|) > end)
    case NoMem => start < end && r.consumed % BLOCK_SECTORS == 0
      && (r.consumed == 0 || r.consumed < Sectors(|m|) <= end - start)
    case IoError => start < end && r.consumed % BLOCK_SECTORS == 0
      && (r.consumed == 0 || r.consumed < Sectors(|m|) <= end - start)
    case _ => false
  }

  /** Newest-first lookup over the SSTable list, whose head is the newest table. */
  function SstsView(ssts: seq<Sst>): Mapping {
    if ssts == [] then map[] else SstsView(ssts[1..]) + ssts[0].entries
  }

  /** The mapping every read resolves against. */
  function View(s: Sys): Mapping {
    SstsView(s.ssts) + TablesView(s.t)
  }

  function WantsFlush(t: Tables): bool { t.immutable.Some? || t.flushing.Some? }

  /** One step of the flush worker; w is what zns_sst_write returns if this step completes that call. */
  function FlushStep(s: Sys, w: SstWrite): Sys {
    match s.pc
    case Idle =>
      if s.queued then s.(queued := false, pc := Claiming) else s
    case Claiming =>
      var t := Claim(s.t);
      s.(t := t, pc := match t.flushing case None => Clearing(false) case Some(v) => Claimed(v))
    case Claimed(v) =>
      s.(pc := Serialising(v, s.metaWp, s.nextSeq))
    case Serialising(v, start, q) =>
      s.(pc := Writing(v, start, q, Table(s.t, v)))
    case Writing(v, start, q, checked) =>
      if SstWriteAllowed(Table(s.t, v), start, s.metaEnd, w)
      then s.(pc := Written(v, start, q, checked, Table(s.t, v), w))
      else s
    case Written(v, start, q, checked, entries, r) =>
      s.(metaWp := if r.consumed > 0 && start + r.consumed > s.metaWp then start + r.consumed else s.metaWp,
         pc := Accounted(v, start, q, checked, entries, r))
    case Accounted(v, start, q, checked, entries, r) =>
      if r.outcome == NoData then s.(t := ClearFlushing(s.t), pc := Releasing(v))
      else if r.outcome != Success then s.(pc := Clearing(true))
      else s.(ssts := [Sst(start, r.consumed, q, entries, checked)] + s.ssts, nextSeq := s.nextSeq + 1,
              pc := Published(v))
    case Published(v) =>
      s.(t := ClearFlushing(s.t), pc := Releasing(v))
    case Releasing(v) =>
      s.(t := Free(s.t, v), pc := Claiming)
    case Clearing(failed) =>
      s.(inFlight := false, lastFailed := failed, pc := Requeueing(failed))
    case Requeueing(failed) =>
      if !failed && !s.inFlight && WantsFlush(s.t)
      then s.(inFlight := true, lastFailed := false, pc := Enqueueing)
      else s.(pc := Idle)
    case Enqueueing =>
      s.(queued := true, pc := Idle)
  }

  /** memtable_put_active by the I/O worker; a success leaves it owing a maybe_queue_flush. */
  function IoPut(s: Sys, b: nat, p: nat, f: PutFaults): (Sys, Errno) {
    var (t, r) := PutActive(s.t, s.threshold, b, p, f);
    (s.(t := t, io := if r == Success then OwesQueue else s.io), r)
  }

  /** The lock-protected part of zns_lsm_maybe_queue_flush, as the I/O worker runs it. */
  function IoMaybeQueue(s: Sys): Sys {
    if !s.inFlight && WantsFlush(s.t)
    then s.(inFlight := true, lastFailed := false, io := MustEnqueue)
    else s.(io := Ready)
  }

  function IoEnqueue(s: Sys): Sys {
    s.(queued := true, io := Ready)
  }

  /** zns_lsm_lookup_memtables: newest generation first under one lock. */
  function MemTableLookup(t: Tables, b: nat): Option<nat> {
    if b in Table(t, t.active) then Some(Table(t, t.active)[b])
    else if b in Contents(t, t.immutable) then Some(Contents(t, t.immutable)[b])
    else if b in Contents(t, t.flushing) then Some(Contents(t, t.flushing)[b])
    else None
  }

  /** zns_lsm_lookup_sstables: the first table, newest first, that holds the block decides. */
  function SstLookup(ssts: seq<Sst>, b: nat): Option<nat> {
    if ssts == [] then None
    else if b in ssts[0].entries then Some(ssts[0].entries[b])
    else SstLookup(ssts[1..], b)
  }

  function Get(m: Mapping, b: nat): Option<nat> {
    if b in m then Some(m[b]) else None
  }

  lemma {:induction false} SstLookupIsView(ssts: seq<Sst>, b: nat)
    ensures SstLookup(ssts, b) == Get(SstsView(ssts), b)
  {
    if ssts != [] {
      SstLookupIsView(ssts[1..], b);
    }
  }

  // ----- Invariant -----

  function Detached(pc: FlushPc): Option<nat> {
    match pc case Releasing(v) => Some(v) case _ => None
  }

  /** The table the flush worker holds is the one in the flushing slot, and what it read of it is what it still
      holds. */
  predicate VictimOk(s: Sys) {
    match s.pc
    case Claimed(v) => s.t.flushing == Some(v)
    case Serialising(v, start, q) => s.t.flushing == Some(v) && start == s.metaWp && q == s.nextSeq
    case Writing(v, start, q, checked) =>
      s.t.flushing == Some(v) && start == s.metaWp && q == s.nextSeq && checked == Table(s.t, v)
    case Written(v, start, q, checked, entries, r) =>
      && s.t.flushing == Some(v) && start == s.metaWp && q == s.nextSeq && checked == entries == Table(s.t, v)
      && SstWriteAllowed(entries, start, s.metaEnd, r)
    case Accounted(v, start, q, checked, entries, r) =>
      && s.t.flushing == Some(v) && start + r.consumed == s.metaWp && q == s.nextSeq
      && checked == entries == Table(s.t, v)
      && SstWriteAllowed(entries, start, s.metaEnd, r)
    case Published(v) =>
      s.t.flushing == Some(v) && s.ssts != [] && s.ssts[0].entries == Table(s.t, v)
    case Releasing(v) => s.t.flushing.None?
    case _ => true
  }

  /** A wakeup is pending whenever there is something to flush, unless the last attempt failed. */
  predicate WakeOk(s: Sys) {
    && (WantsFlush(s.t) && !s.lastFailed ==> s.inFlight || s.io == OwesQueue || s.pc == Requeueing(false))
    && (s.inFlight <==> s.queued || s.io == MustEnqueue || s.pc == Enqueueing || Running(s.pc))
    && (s.queued ==> s.io != MustEnqueue && s.pc != Enqueueing && !Running(s.pc))
    && (s.io == MustEnqueue ==> s.pc != Enqueueing && !Running(s.pc))
    && (s.lastFailed ==> !s.inFlight)
  }

  /** Between claiming a victim and clearing flush_in_flight. */
  predicate Running(pc: FlushPc) {
    !pc.Idle? && !pc.Requeueing? && !pc.Enqueueing?
  }

  /** The end of what earlier flushes wrote; an attempt that is accounted for but not yet published lies above it. */
  function LogEnd(s: Sys): nat {
    if s.pc.Accounted? then s.pc.start else s.metaWp
  }

  /** Published tables occupy disjoint extents below the metadata write pointer, each later flush above every earlier
      one, with increasing sequence numbers; their checksum was computed over exactly what was written. */
  ghost predicate Ordered(ssts: seq<Sst>, end: nat, nextSeq: nat) {
    && (forall i | 0 <= i < |ssts| ::
          && ssts[i].sectors == Sectors(|ssts[i].entries|) && ssts[i].checked == ssts[i].entries != map[]
          && ssts[i].start + ssts[i].sectors <= end
          && ssts[i].seqNo < nextSeq)
    && (forall i, j | 0 <= i < j < |ssts| ::
          ssts[j].start + ssts[j].sectors <= ssts[i].start && ssts[j].seqNo < ssts[i].seqNo)
  }

  ghost predicate LogOk(s: Sys) {
    Ordered(s.ssts, LogEnd(s), s.nextSeq)
  }

  lemma OrderedWeaken(ssts: seq<Sst>, end: nat, end': nat, nextSeq: nat)
    requires Ordered(ssts, end, nextSeq) && end <= end'
    ensures Ordered(ssts, end', nextSeq)
  {
  }

  lemma OrderedCons(x: Sst, ssts: seq<Sst>, end: nat)
    requires Ordered(ssts, x.start, x.seqNo)
    requires x.sectors == Sectors(|x.entries|) && x.checked == x.entries != map[] && x.start + x.sectors <= end
    ensures Ordered([x] + ssts, end, x.seqNo + 1)
  {
    hide Sectors;
    var all := [x] + ssts;
    assert forall i | 0 < i < |all| :: all[i] == ssts[i - 1];
  }

  /** A lookup that missed all MemTables can still be completed from the SSTable list alone. */
  predicate MissOk(s: Sys) {
    s.io.Missed? ==> s.io.block !in TablesView(s.t)
  }

  ghost predicate Inv(s: Sys) {
    && 0 < s.threshold
    && MemoryOk(s.t, Detached(s.pc))
    && VictimOk(s) && WakeOk(s) && LogOk(s) && MissOk(s)
  }

  // ----- Every flush-worker step -----

  lemma FlushMemory(s: Sys, w: SstWrite)
    requires MemoryOk(s.t, Detached(s.pc)) && VictimOk(s)
    ensures MemoryOk(FlushStep(s, w).t, Detached(FlushStep(s, w).pc))
  {
    hide MemoryOk, Claim, ClearFlushing, Free, TablesView, Sectors, SstWriteAllowed;
    match s.pc
    case Claiming => ClaimFacts(s.t);
    case Accounted(v, _, _, _, _, _) => ClearFlushingFacts(s.t, v);
    case Published(v) => ClearFlushingFacts(s.t, v);
    case Releasing(v) => FreeFacts(s.t, v);
    case _ =>
  }

  lemma FlushVictim(s: Sys, w: SstWrite)
    requires MemoryOk(s.t, Detached(s.pc)) && VictimOk(s)
    ensures VictimOk(FlushStep(s, w))
  {
    hide MemoryOk, Sectors, Free, Table, SstWriteAllowed;
    if s.pc.Written? {
      WriteConsumed(s.pc.entries, s.pc.start, s.metaEnd, s.pc.result);
    }
  }

  lemma WriteConsumed(m: Mapping, start: nat, end: nat, r: SstWrite)
    requires SstWriteAllowed(m, start, end, r)
    ensures r.outcome == Success ==> m != map[] && r.consumed == Sectors(|m|)
    ensures r.outcome == NoData ==> m == map[] && r.consumed == 0
    ensures r.outcome == NoSpace ==> r.consumed == 0
  {
  }

  lemma FlushWake(s: Sys, w: SstWrite)
    requires VictimOk(s) && WakeOk(s)
    ensures WakeOk(FlushStep(s, w))
  {
    hide Sectors, SstWriteAllowed, Table, Free;
  }

  /** Steps before and after a table write leave the log alone. */
  lemma LogUntouched(s: Sys, w: SstWrite)
    requires !s.pc.Written? && !s.pc.Accounted?
    ensures var u := FlushStep(s, w);
            && u.ssts == s.ssts && u.nextSeq == s.nextSeq && LogEnd(u) == LogEnd(s) && !u.pc.Accounted?
            && (u.pc.Written? ==> u.pc.result == w)
  {
    hide SstWriteAllowed, Table, Free, Claim, ClearFlushing;
  }

  /** Only publishing touches the list; every other step at most moves the end of the log upwards, and that only for a
      torn write. */
  lemma LogEndGrows(s: Sys, w: SstWrite)
    requires VictimOk(s) && !(s.pc.Accounted? && s.pc.result.outcome == Success)
    ensures var u := FlushStep(s, w);
            && u.ssts == s.ssts && u.nextSeq == s.nextSeq && LogEnd(s) <= LogEnd(u)
            && ((s.pc.Accounted? ==> s.pc.result.consumed == 0) ==> LogEnd(u) == LogEnd(s))
            && (u.pc.Written? || u.pc.Accounted? ==> u.pc.result == if s.pc.Written? then s.pc.result else w)
  {
    hide SstWriteAllowed, Table, ClearFlushing;
    if !s.pc.Written? && !s.pc.Accounted? {
      hide FlushStep, VictimOk;
      LogUntouched(s, w);
    }
  }

  lemma FlushLog(s: Sys, w: SstWrite)
    requires VictimOk(s) && LogOk(s)
    ensures LogOk(FlushStep(s, w))
  {
    hide FlushStep, LogEnd, VictimOk, Ordered;
    if s.pc.Accounted? && s.pc.result.outcome == Success {
      FlushLogPublish(s, w);
    } else {
      LogEndGrows(s, w);
      OrderedWeaken(s.ssts, LogEnd(s), LogEnd(FlushStep(s, w)), s.nextSeq);
    }
  }

  lemma FlushLogPublish(s: Sys, w: SstWrite)
    requires VictimOk(s) && LogOk(s) && s.pc.Accounted? && s.pc.result.outcome == Success
    ensures LogOk(FlushStep(s, w))
  {
    hide Sectors, SstWriteAllowed, Table, Ordered;
    WriteConsumed(s.pc.entries, s.pc.start, s.metaEnd, s.pc.result);
    OrderedCons(Sst(s.pc.start, s.pc.result.consumed, s.pc.seqNo, s.pc.entries, s.pc.checked), s.ssts, s.metaWp);
  }

  /** The flush worker moves mappings between generations and the SSTable list but never changes the view. */
  lemma FlushView(s: Sys, w: SstWrite)
    requires MemoryOk(s.t, Detached(s.pc)) && VictimOk(s)
    ensures View(FlushStep(s, w)) == View(s)
    ensures TablesView(FlushStep(s, w).t).Keys <= TablesView(s.t).Keys
  {
    hide MemoryOk, TablesView, Sectors, SstWriteAllowed, SstsView, Table, Claim, ClearFlushing, Free;
    if s.pc.Claiming? {
      ClaimFacts(s.t);
    } else if s.pc.Accounted? {
      PublishView(s, w);
    } else if s.pc.Published? {
      ReleaseView(s, w);
    } else if s.pc.Releasing? {
      FreeFacts(s.t, s.pc.victim);
    }
  }

  lemma PublishView(s: Sys, w: SstWrite)
    requires MemoryOk(s.t, None) && VictimOk(s) && s.pc.Accounted?
    ensures View(FlushStep(s, w)) == View(s)
    ensures TablesView(FlushStep(s, w).t).Keys <= TablesView(s.t).Keys
  {
    hide MemoryOk, TablesView, Sectors, SstWriteAllowed, SstsView, Table, ClearFlushing;
    ClearFlushingFacts(s.t, s.pc.victim);
    WriteConsumed(s.pc.entries, s.pc.start, s.metaEnd, s.pc.result);
    Overlay(SstsView(s.ssts), s.pc.entries, TablesView(ClearFlushing(s.t)));
    if s.pc.result.outcome == Success {
      SstsViewCons(s.ssts, FlushStep(s, w).ssts);
    }
  }

  lemma ReleaseView(s: Sys, w: SstWrite)
    requires MemoryOk(s.t, None) && VictimOk(s) && s.pc.Published?
    ensures View(FlushStep(s, w)) == View(s)
    ensures TablesView(FlushStep(s, w).t).Keys <= TablesView(s.t).Keys
  {
    hide MemoryOk, TablesView, SstsView, Table, ClearFlushing;
    ClearFlushingFacts(s.t, s.pc.victim);
    Overlay(SstsView(s.ssts[1..]), s.ssts[0].entries, TablesView(ClearFlushing(s.t)));
    SstsViewCons(s.ssts[1..], s.ssts);
  }

  lemma SstsViewCons(older: seq<Sst>, ssts: seq<Sst>)
    requires ssts != [] && ssts[1..] == older
    ensures SstsView(ssts) == SstsView(older) + ssts[0].entries
  {
  }

  /** A generation that is both published and still in memory is seen once. */
  lemma Overlay(a: Mapping, e: Mapping, c: Mapping)
    ensures (a + e) + (e + c) == a + (e + c) == (a + e) + c
    ensures e == map[] ==> e + c == c
    ensures c.Keys <= (e + c).Keys
  {
  }

  lemma FlushInv(s: Sys, w: SstWrite)
    requires Inv(s)
    ensures Inv(FlushStep(s, w)) && View(FlushStep(s, w)) == View(s)
    ensures FlushStep(s, w).io == s.io && FlushStep(s, w).threshold == s.threshold
  {
    hide MemoryOk, VictimOk, WakeOk, LogOk, View, TablesView;
    FlushMemory(s, w);
    FlushVictim(s, w);
    FlushWake(s, w);
    FlushLog(s, w);
    FlushView(s, w);
  }

  // ----- Every I/O-worker step -----

  lemma PutInv(s: Sys, b: nat, p: nat, f: PutFaults)
    requires Inv(s) && s.io == Ready
    ensures var (u, r) := IoPut(s, b, p, f);
            && Inv(u)
            && (r == Success ==> View(u) == View(s)[b := p] && u.io == OwesQueue)
            && (r != Success ==> u == s && r == NoMem)
  {
    hide MemoryOk, PutActive, TablesView, Sectors, SstWriteAllowed, Ordered, Table, Contents;
    PutActiveView(s.t, s.threshold, b, p, f, Detached(s.pc));
    PutActiveMemory(s.t, s.threshold, b, p, f, Detached(s.pc));
    PutVictim(s, b, p, f);
    assert SstsView(s.ssts) + TablesView(s.t)[b := p] == (SstsView(s.ssts) + TablesView(s.t))[b := p];
  }

  /** An insertion during a flush leaves the table being flushed as it was. */
  lemma PutVictim(s: Sys, b: nat, p: nat, f: PutFaults)
    requires MemoryOk(s.t, Detached(s.pc)) && VictimOk(s)
    ensures VictimOk(IoPut(s, b, p, f).0)
  {
    hide MemoryOk, PutActive, TablesView, Sectors, SstWriteAllowed, Table;
    PutActiveView(s.t, s.threshold, b, p, f, Detached(s.pc));
  }

  lemma QueueInv(s: Sys)
    requires Inv(s)
    ensures s.io == OwesQueue ==> Inv(IoMaybeQueue(s)) && View(IoMaybeQueue(s)) == View(s)
    ensures s.io == MustEnqueue ==> Inv(IoEnqueue(s)) && View(IoEnqueue(s)) == View(s)
  {
    hide MemoryOk, TablesView, Sectors, SstWriteAllowed, Ordered, Table, SstsView;
  }

  lemma MemTableLookupIsView(t: Tables, b: nat)
    ensures MemTableLookup(t, b) == Get(TablesView(t), b)
  {
  }

  // ----- Runs -----

  /** One atomic step of either worker. Steps of the I/O worker that its position does not allow do nothing. */
  datatype Event =
    | Flush(w: SstWrite)
    | Put(block: nat, sector: nat, faults: PutFaults)
    | Queue
    | LookupTables(block: nat)
    | LookupSsts

  datatype Outcome = Nothing | Stored(r: Errno) | Found(block: nat, sector: Option<nat>)

  function Apply(s: Sys, e: Event): (Sys, Outcome) {
    match e
    case Flush(w) => (FlushStep(s, w), Nothing)
    case Put(b, p, f) =>
      if s.io != Ready then (s, Nothing) else var (u, r) := IoPut(s, b, p, f); (u, Stored(r))
    case Queue =>
      (if s.io == OwesQueue then IoMaybeQueue(s) else if s.io == MustEnqueue then IoEnqueue(s) else s, Nothing)
    case LookupTables(b) =>
      if s.io != Ready then (s, Nothing)
      else
        var r := MemTableLookup(s.t, b);
        if r.Some? then (s, Found(b, r)) else (s.(io := Missed(b)), Nothing)
    case LookupSsts =>
      if s.io.Missed? then (s.(io := Ready), Found(s.io.block, SstLookup(s.ssts, s.io.block))) else (s, Nothing)
  }

  function Run(s: Sys, events: seq<Event>): Sys
    decreases |events|
  {
    if events == [] then s else Run(Apply(s, events[0]).0, events[1..])
  }

  /** The mapping m after the acknowledged insertions of a run, in order and without regard to generations. */
  function Acknowledged(m: Mapping, s: Sys, events: seq<Event>): Mapping
    decreases |events|
  {
    if events == [] then m
    else
      var (u, o) := Apply(s, events[0]);
      Acknowledged(if o == Stored(Success) then m[events[0].block := events[0].sector] else m, u, events[1..])
  }

  lemma ApplyInv(s: Sys, e: Event)
    requires Inv(s)
    ensures Inv(Apply(s, e).0)
    ensures View(Apply(s, e).0) == if Apply(s, e).1 == Stored(Success) then View(s)[e.block := e.sector] else View(s)
    ensures Apply(s, e).1.Found? ==> Apply(s, e).1.sector == Get(View(s), Apply(s, e).1.block)
  {
    match e
    case Flush(w) =>
      FlushInv(s, w);
    case Put(b, p, f) =>
      if s.io == Ready {
        hide Inv, View, IoPut;
        PutInv(s, b, p, f);
      }
    case Queue =>
      hide Inv, View, IoMaybeQueue, IoEnqueue;
      QueueInv(s);
    case LookupTables(b) =>
      LookupTablesInv(s, b);
    case LookupSsts =>
      LookupSstsInv(s);
  }

  lemma LookupTablesInv(s: Sys, b: nat)
    requires Inv(s)
    ensures var (u, o) := Apply(s, LookupTables(b));
            Inv(u) && View(u) == View(s) && (o.Found? ==> o == Found(b, Get(View(s), b))) && !o.Stored?
  {
    hide MemoryOk, TablesView, Sectors, SstWriteAllowed, Ordered, Table, SstsView, MemTableLookup;
    MemTableLookupIsView(s.t, b);
  }

  /** The SSTable phase of a lookup returns the current mapping even if the flush worker ran since the MemTable
      phase. */
  lemma LookupSstsInv(s: Sys)
    requires Inv(s)
    ensures var (u, o) := Apply(s, LookupSsts);
            Inv(u) && View(u) == View(s) && (o.Found? ==> o.sector == Get(View(s), o.block)) && !o.Stored?
  {
    hide MemoryOk, TablesView, Sectors, SstWriteAllowed, Ordered, Table, SstsView, SstLookup;
    if s.io.Missed? {
      SstLookupIsView(s.ssts, s.io.block);
    }
  }

  /** In every interleaving the invariant holds and the view is exactly the acknowledged insertions. */
  lemma {:induction false} RunRefinesAcknowledged(s: Sys, events: seq<Event>)
    requires Inv(s)
    ensures Inv(Run(s, events)) && View(Run(s, events)) == Acknowledged(View(s), s, events)
    decreases |events|
  {
    hide Inv, View, Apply;
    if events != [] {
      ApplyInv(s, events[0]);
      RunRefinesAcknowledged(Apply(s, events[0]).0, events[1..]);
    }
  }

  /** Lookups are linearizable: whatever the flush worker did between the two phases of a lookup,
      its result is the last acknowledged insertion for the block. */
  lemma LookupsAreCurrent(s: Sys, events: seq<Event>, e: Event)
    requires Inv(s)
    ensures var o := Apply(Run(s, events), e).1;
            o.Found? ==> o.sector == Get(Acknowledged(View(s), s, events), o.block)
  {
    hide Inv, View, Apply, Run, Acknowledged;
    RunRefinesAcknowledged(s, events);
    ApplyInv(Run(s, events), e);
  }

  /** After any interleaving every table ever created is live in exactly one place or was freed exactly once. */
  lemma TablesFreedOnce(s: Sys, events: seq<Event>, id: nat)
    requires Inv(s) && id < Run(s, events).t.created
    ensures var u := Run(s, events);
            && u.t.freed[id] == (if id in u.t.heap then 0 else 1)
            && (id in u.t.heap <==>
                  id == u.t.active || u.t.immutable == Some(id) || u.t.flushing == Some(id) || u.pc == Releasing(id))
            && u.t.immutable != Some(u.t.active) && u.t.flushing != Some(u.t.active)
            && (u.t.immutable.Some? ==> u.t.immutable != u.t.flushing)
  {
    hide VictimOk, WakeOk, LogOk, MissOk, View, Run, Acknowledged;
    RunRefinesAcknowledged(s, events);
  }

  /** After any interleaving every published table lies below the metadata write pointer, is as long as its entries
      need, and holds exactly the mapping its header checksum was computed from. */
  lemma PublishedTableSound(s: Sys, events: seq<Event>, i: nat)
    requires Inv(s) && i < |Run(s, events).ssts|
    ensures var u := Run(s, events);
            && u.ssts[i].start + u.ssts[i].sectors <= u.metaWp
            && u.ssts[i].checked == u.ssts[i].entries != map[] && u.ssts[i].sectors == Sectors(|u.ssts[i].entries|)
            && u.ssts[i].seqNo < u.nextSeq
  {
    hide Sectors, MemoryOk, WakeOk, MissOk, View, Run, Acknowledged, SstWriteAllowed;
    RunRefinesAcknowledged(s, events);
  }

  /** After any interleaving the published tables are disjoint: every newer one lies above every older one and carries
      the higher sequence number. */
  lemma PublishedTablesDisjoint(s: Sys, events: seq<Event>, i: nat, j: nat)
    requires Inv(s) && i < j < |Run(s, events).ssts|
    ensures var u := Run(s, events);
            u.ssts[j].start + u.ssts[j].sectors <= u.ssts[i].start && u.ssts[j].seqNo < u.ssts[i].seqNo
  {
    hide Sectors, MemoryOk, WakeOk, MissOk, View, Run, Acknowledged, SstWriteAllowed;
    RunRefinesAcknowledged(s, events);
  }

  /** No wakeup is lost: once both workers rest, nothing waits to be flushed unless the last attempt failed. */
  lemma NoLostWakeup(s: Sys, events: seq<Event>)
    requires Inv(s)
    ensures var u := Run(s, events);
            && (WantsFlush(u.t) && !u.lastFailed ==> u.inFlight || u.io == OwesQueue || u.pc == Requeueing(false))
            && (u.inFlight ==> u.queued || u.io == MustEnqueue || u.pc == Enqueueing || Running(u.pc))
            && (u.queued ==> !Running(u.pc))
            && (u.pc == Idle && !u.queued && u.io == Ready && WantsFlush(u.t) ==> u.lastFailed)
  {
    hide VictimOk, MemoryOk, LogOk, MissOk, View, Run, Acknowledged;
    RunRefinesAcknowledged(s, events);
  }

  /** How far the flush worker is from resting, with no I/O step in between. */
  function Rank(s: Sys): nat {
    var waiting := (if s.t.immutable.Some? then 1 else 0) + (if s.t.flushing.Some? then 1 else 0);
    20 * waiting +
    match s.pc
    case Idle => if s.queued then 15 else 0
    case Claiming => 12
    case Claimed(_) => 11
    case Serialising(_, _, _) => 10
    case Writing(_, _, _, _) => 9
    case Written(_, _, _, _, _, _) => 8
    case Accounted(_, _, _, _, _, _) => 7
    case Published(_) => 6
    case Releasing(_) => 14
    case Clearing(failed) => if !failed && WantsFlush(s.t) then 18 else 4
    case Requeueing(failed) => if s.queued || (!failed && WantsFlush(s.t)) then 17 else 3
    case Enqueueing => 16
  }

  /** Each step of the flush worker alone is closer to rest than the one before. */
  lemma FlushTerminates(s: Sys, w: SstWrite)
    requires Inv(s) && !(s.pc == Idle && !s.queued)
    requires s.pc.Writing? ==> SstWriteAllowed(Table(s.t, s.pc.victim), s.pc.start, s.metaEnd, w)
    ensures Rank(FlushStep(s, w)) < Rank(s)
  {
    hide MemoryOk, TablesView, Sectors, SstWriteAllowed, Ordered, Table, SstsView, Free;
    if s.pc.Releasing? {
      assert Free(s.t, s.pc.victim).immutable == s.t.immutable && Free(s.t, s.pc.victim).flushing == s.t.flushing by {
        FreeSlots(s.t, s.pc.victim);
      }
    }
  }

  predicate AtRest(s: Sys) { s.pc == Idle && !s.queued }

  /** n steps of the flush worker alone, each table write returning what outcome says. */
  function Steps(s: Sys, outcome: Sys -> SstWrite, n: nat): Sys
    decreases n
  {
    if n == 0 then s else Steps(FlushStep(s, outcome(s)), outcome, n - 1)
  }

  /** Left alone, the flush worker comes to rest: whatever its table writes return, after at most Rank(s) steps its work
      item has run to its end and is not queued again. */
  lemma {:induction false} FlushComesToRest(s: Sys, outcome: Sys -> SstWrite) returns (n: nat)
    requires Inv(s)
    requires forall u: Sys | u.pc.Writing? ::
               SstWriteAllowed(Table(u.t, u.pc.victim), u.pc.start, u.metaEnd, outcome(u))
    ensures n <= Rank(s) && AtRest(Steps(s, outcome, n)) && View(Steps(s, outcome, n)) == View(s)
    decreases Rank(s)
  {
    hide Inv, View, FlushStep, Rank, SstWriteAllowed, Table;
    if AtRest(s) {
      n := 0;
    } else {
      FlushTerminates(s, outcome(s));
      FlushInv(s, outcome(s));
      n := FlushComesToRest(FlushStep(s, outcome(s)), outcome);
      n := n + 1;
    }
  }

  // ----- What is kept going -----

  /** A flush step leaves the active table alone. */
  lemma FlushActive(s: Sys, w: SstWrite)
    requires Inv(s)
    ensures FlushStep(s, w).t.active == s.t.active && FlushStep(s, w).threshold == s.threshold
    ensures Table(FlushStep(s, w).t, s.t.active) == Table(s.t, s.t.active)
  {
    hide Sectors, SstWriteAllowed, MemoryOk, VictimOk, WakeOk, LogOk, MissOk, Table, Free;
    if s.pc.Releasing? {
      FreeActive(s.t, s.pc.victim);
    } else {
      SameHeap(s.t, FlushStep(s, w).t, s.t.active);
    }
  }

  lemma SameHeap(t: Tables, u: Tables, id: nat)
    requires t.heap == u.heap
    ensures Table(t, id) == Table(u, id)
  {
  }

  lemma FreeActive(t: Tables, v: nat)
    requires MemoryOk(t, Some(v))
    ensures Free(t, v).active == t.active && Table(Free(t, v), t.active) == Table(t, t.active)
  {
  }

  lemma PutStaysBelow(s: Sys, b: nat, p: nat)
    requires Inv(s) && |Table(s.t, s.t.active)| < s.threshold
    ensures var t := PutActive(s.t, s.threshold, b, p, NO_FAULT).0; |Table(t, t.active)| < s.threshold
  {
    hide MemoryOk, VictimOk, WakeOk, LogOk, MissOk, PutActive, Table, Contents;
    PutActiveFills(s.t, s.threshold, b, p, NO_FAULT, Detached(s.pc));
  }

  lemma StepStaysBelow(s: Sys, e: Event)
    requires Inv(s) && |Table(s.t, s.t.active)| < s.threshold && (e.Put? ==> e.faults == NO_FAULT)
    ensures var u := Apply(s, e).0; |Table(u.t, u.t.active)| < u.threshold == s.threshold
  {
    hide Inv, View, Table, FlushStep, PutActive, MemTableLookup, SstLookup, IoMaybeQueue, IoEnqueue;
    match e
    case Flush(w) => FlushActive(s, w);
    case Put(b, p, f) => PutStaysBelow(s, b, p);
    case Queue => QueueTables(s);
    case _ =>
  }

  /** In every interleaving without failed allocations the active table stays below the threshold. */
  lemma {:induction false} ActiveStaysBelow(s: Sys, events: seq<Event>)
    requires Inv(s) && |Table(s.t, s.t.active)| < s.threshold
    requires forall i | 0 <= i < |events| :: events[i].Put? ==> events[i].faults == NO_FAULT
    ensures var u := Run(s, events); |Table(u.t, u.t.active)| < s.threshold
    decreases |events|
  {
    hide Inv, View, Table, Apply;
    if events != [] {
      ApplyInv(s, events[0]);
      StepStaysBelow(s, events[0]);
      ActiveStaysBelow(Apply(s, events[0]).0, events[1..]);
    }
  }

  lemma QueueTables(s: Sys)
    ensures IoMaybeQueue(s).t == s.t && IoMaybeQueue(s).threshold == s.threshold
    ensures IoEnqueue(s).t == s.t && IoEnqueue(s).threshold == s.threshold
  {
  }

  /** No table write has failed. */
  predicate Unfailed(s: Sys) {
    && !s.lastFailed && s.pc != Clearing(true) && s.pc != Requeueing(true)
    && (s.pc.Written? || s.pc.Accounted? ==> s.pc.result.outcome == Success || s.pc.result.outcome == NoData)
  }

  lemma UnfailedStep(s: Sys, e: Event)
    requires Unfailed(s) && (e.Flush? ==> e.w.outcome == Success || e.w.outcome == NoData)
    ensures Unfailed(Apply(s, e).0)
  {
    hide SstWriteAllowed, Table, Free, Claim, ClearFlushing, PutActive, MemTableLookup, SstLookup;
  }

  /** In every interleaving without failed table writes, nothing waits in the immutable or the flushing slot once both
      workers rest. */
  lemma {:induction false} EverythingFlushed(s: Sys, events: seq<Event>)
    requires Inv(s) && Unfailed(s)
    requires forall i | 0 <= i < |events| :: events[i].Flush? ==> events[i].w.outcome in {Success, NoData}
    ensures var u := Run(s, events);
            u.pc == Idle && !u.queued && u.io == Ready ==> u.t.immutable.None? && u.t.flushing.None?
    decreases |events|
  {
    hide View, Apply, MemoryOk, VictimOk, LogOk, MissOk;
    if events != [] {
      hide Inv, Unfailed, WakeOk;
      ApplyInv(s, events[0]);
      UnfailedStep(s, events[0]);
      EverythingFlushed(Apply(s, events[0]).0, events[1..]);
    }
  }

  /** After an insertion a waiting table means a flush in flight, also if the last attempt failed. */
  lemma QueueStartsFlush(s: Sys)
    requires Inv(s) && s.io == OwesQueue && (s.t.immutable.Some? || s.t.flushing.Some?)
    ensures Apply(s, Queue).0.inFlight
  {
    hide MemoryOk, VictimOk, LogOk, MissOk;
  }

  /** Queueing leaves the flush worker with work to do if any table waits. */
  lemma QueueLeavesWork(s: Sys)
    requires Inv(s)
    ensures s.io == OwesQueue && (s.t.immutable.Some? || s.t.flushing.Some?) && IoMaybeQueue(s).io != MustEnqueue ==>
              IoMaybeQueue(s).queued || IoMaybeQueue(s).pc != Idle
    ensures IoEnqueue(s).queued && IoMaybeQueue(s).t == s.t
  {
    hide MemoryOk, VictimOk, LogOk, MissOk;
  }

  lemma RunThree(s: Sys, d: Event, e: Event, f: Event)
    ensures Run(s, [d, e, f]) == Apply(Apply(Apply(s, d).0, e).0, f).0
  {
    hide Apply;
    RunNext(s, d, [e, f], [d, e, f]);
    RunNext(Apply(s, d).0, e, [f], [e, f]);
    RunNext(Apply(Apply(s, d).0, e).0, f, [], [f]);
  }

  lemma RunNext(s: Sys, e: Event, rest: seq<Event>, events: seq<Event>)
    requires events == [e] + rest
    ensures Run(s, events) == Run(Apply(s, e).0, rest)
  {
    hide Apply;
    assert events[1..] == rest;
  }

  /** What queueing leaves when the flush worker rests and a table waits. */
  lemma QueuedAtRest(s: Sys)
    requires s.io == OwesQueue && s.pc == Idle && !s.queued && (s.t.immutable.Some? || s.t.flushing.Some?)
    requires WakeOk(s)
    ensures Apply(Apply(s, Queue).0, Queue).0 == s.(inFlight := true, lastFailed := false, queued := true, io := Ready)
  {
  }

  /** A queued work item comes to write the oldest waiting table. */
  lemma FourSteps(s: Sys, outcome: Sys -> SstWrite)
    requires s.pc == Idle && s.queued && (s.t.immutable.Some? || s.t.flushing.Some?)
    ensures Steps(s, outcome, 4).pc.Writing?
    ensures Some(Steps(s, outcome, 4).pc.victim) == if s.t.flushing.Some? then s.t.flushing else s.t.immutable
  {
    hide Table, SstWriteAllowed;
    var s1 := FlushStep(s, outcome(s));
    var s2 := FlushStep(s1, outcome(s1));
    var s3 := FlushStep(s2, outcome(s2));
    var s4 := FlushStep(s3, outcome(s3));
    assert s4.pc.Writing?;
    assert Steps(s3, outcome, 1) == Steps(s4, outcome, 0) == s4;
    assert Steps(s2, outcome, 2) == s4;
    assert Steps(s1, outcome, 3) == s4;
  }

  /** The next insertion retries a failed flush: when both workers rest and a table waits, then after an insertion and
      the I/O worker's queueing steps the fourth step of the flush worker is about to write the oldest waiting table. */
  lemma RetryAfterFailure(s: Sys, b: nat, p: nat, f: PutFaults, outcome: Sys -> SstWrite)
    requires Inv(s) && s.io == Ready && s.pc == Idle && !s.queued && !f.entry
    requires s.t.immutable.Some? || s.t.flushing.Some?
    ensures var u := Run(s, [Put(b, p, f), Queue, Queue]);
            && u.io == Ready && Steps(u, outcome, 4).pc.Writing?
            && Some(Steps(u, outcome, 4).pc.victim) == if s.t.flushing.Some? then s.t.flushing else u.t.immutable
  {
    hide Inv, Steps, View, Run, WakeOk, Apply, IoPut;
    RunThree(s, Put(b, p, f), Queue, Queue);
    PutApplies(s, b, p, f);
    PutInv(s, b, p, f);
    PutWaits(s, b, p, f);
    InvWake(IoPut(s, b, p, f).0);
    QueuedAtRest(IoPut(s, b, p, f).0);
    FourSteps(Run(s, [Put(b, p, f), Queue, Queue]), outcome);
  }

  lemma PutApplies(s: Sys, b: nat, p: nat, f: PutFaults)
    requires s.io == Ready
    ensures Apply(s, Put(b, p, f)).0 == IoPut(s, b, p, f).0
  {
    hide PutActive;
  }

  lemma InvWake(s: Sys)
    requires Inv(s)
    ensures WakeOk(s)
  {
  }

  lemma PutWaits(s: Sys, b: nat, p: nat, f: PutFaults)
    requires Inv(s) && !f.entry
    ensures var (u, r) := IoPut(s, b, p, f);
            && r == Success && u == s.(t := u.t, io := OwesQueue)
            && u.t.flushing == s.t.flushing && (s.t.immutable.Some? ==> u.t.immutable.Some?)
  {
    hide MemoryOk, VictimOk, LogOk, MissOk, WakeOk, PutActive, Table, Contents;
    PutActiveView(s.t, s.threshold, b, p, f, Detached(s.pc));
    PutActiveFills(s.t, s.threshold, b, p, f, Detached(s.pc));
    PutActiveIs(s.t, s.threshold, b, p, f);
  }

  lemma FreeSlots(t: Tables, v: nat)
    ensures Free(t, v).immutable == t.immutable && Free(t, v).flushing == t.flushing
  {
  }

  /** The state after attach: one empty active table, nothing queued. */
  function Initial(threshold: nat, ssts: seq<Sst>, metaWp: nat, metaEnd: nat, nextSeq: nat): Sys {
    Sys(FirstTables(), threshold, ssts, metaWp, metaEnd, nextSeq,
        false, false, false, Idle, Ready)
  }

  lemma NothingWaits()
    ensures !WantsFlush(FirstTables())
  {
  }

  lemma InitialInv(threshold: nat, ssts: seq<Sst>, metaWp: nat, metaEnd: nat, nextSeq: nat)
    requires 0 < threshold && Ordered(ssts, metaWp, nextSeq)
    ensures var s := Initial(threshold, ssts, metaWp, metaEnd, nextSeq);
            Inv(s) && View(s) == SstsView(ssts)
  {
    hide MemoryOk, TablesView, WantsFlush, Ordered, SstsView, Table, Contents;
    FirstTablesFacts();
    NothingWaits();
  }

  // ----- Runs in which no metadata write is torn -----

  /** Published tables, newest first, that lie one behind the other from sector first to sector end. */
  predicate Gapless(ssts: seq<Sst>, first: nat, end: nat) {
    if ssts == [] then first == end
    else ssts[0].start + ssts[0].sectors == end && Gapless(ssts[1..], first, ssts[0].start)
  }

  /** The write wrote the whole table or nothing. */
  predicate Untorn(w: SstWrite) {
    w.outcome == Success || w.consumed == 0
  }

  predicate NothingTorn(s: Sys, first: nat) {
    Gapless(s.ssts, first, LogEnd(s)) && (s.pc.Written? || s.pc.Accounted? ==> Untorn(s.pc.result))
  }

  lemma UntornStep(s: Sys, e: Event, first: nat)
    requires VictimOk(s) && NothingTorn(s, first) && (e.Flush? ==> Untorn(e.w))
    ensures NothingTorn(Apply(s, e).0, first)
  {
    hide Sectors, SstWriteAllowed, Table, Free, Claim, ClearFlushing, PutActive, MemTableLookup, SstLookup, FlushStep;
    if e.Flush? {
      UntornFlush(s, e.w, first);
    }
  }

  lemma UntornFlush(s: Sys, w: SstWrite, first: nat)
    requires VictimOk(s) && NothingTorn(s, first) && Untorn(w)
    ensures NothingTorn(FlushStep(s, w), first)
  {
    if s.pc.Accounted? && s.pc.result.outcome == Success {
      hide Sectors, SstWriteAllowed, Table;
      assert FlushStep(s, w).ssts[1..] == s.ssts;
    } else {
      hide FlushStep, VictimOk, LogEnd, Gapless;
      LogEndGrows(s, w);
    }
  }

  /** As long as no metadata write is torn, the published tables fill the metadata zone without gaps,
      which is what lets the recovery walk find all of them. */
  lemma {:induction false} UntornRun(s: Sys, events: seq<Event>, first: nat)
    requires Inv(s) && NothingTorn(s, first)
    requires forall i | 0 <= i < |events| :: events[i].Flush? ==> Untorn(events[i].w)
    ensures NothingTorn(Run(s, events), first)
    decreases |events|
  {
    hide Inv, View, Apply, NothingTorn;
    if events != [] {
      assert VictimOk(s) by { InvVictim(s); }
      UntornStep(s, events[0], first);
      ApplyInv(s, events[0]);
      UntornRun(Apply(s, events[0]).0, events[1..], first);
    }
  }

  lemma InvVictim(s: Sys)
    requires Inv(s)
    ensures VictimOk(s)
  {
  }

  // ----- How far the log can grow -----

  /** Sequence numbers stay behind the log: every one handed out has used up at least two metadata blocks. */
  predicate Behind(nextSeq: nat, end: nat) {
    2 * BLOCK_SECTORS * nextSeq <= end + 2 * BLOCK_SECTORS
  }

  predicate SeqBehind(s: Sys) {
    Behind(s.nextSeq, LogEnd(s))
  }

  lemma FlushSeqBehind(s: Sys, w: SstWrite)
    requires VictimOk(s) && SeqBehind(s)
    ensures SeqBehind(FlushStep(s, w))
  {
    hide SstWriteAllowed, Table, Free, Claim, ClearFlushing;
    if s.pc.Accounted? {
      WriteConsumed(s.pc.entries, s.pc.start, s.metaEnd, s.pc.result);
      SizeNonZero(s.pc.entries);
    }
  }

  lemma SizeNonZero(m: Mapping)
    ensures m != map[] ==> |m| > 0
  {
    if m != map[] {
      var b :| b in m;
      assert b in m.Keys;
    }
  }

  /** Metadata sectors that a table of n entries takes; an empty one takes none. */
  function SizeOf(n: nat): nat { if n == 0 then 0 else Sectors(n) }

  function Size(m: Mapping): nat { SizeOf(|m|) }

  lemma SizePositive(n: nat)
    ensures SizeOf(n) > 0 <==> n > 0
  {
  }

  lemma SizeOneMore(n: nat)
    ensures SizeOf(n) <= SizeOf(n + 1) <= SizeOf(n) + 2 * BLOCK_SECTORS
  {
  }

  lemma {:induction false} SizeGrows(n: nat, k: nat)
    requires n <= k
    ensures SizeOf(n) <= SizeOf(k)
    decreases k - n
  {
    if n < k {
      SizeOneMore(n);
      SizeGrows(n + 1, k);
    }
  }

  /** Two tables never take less than one that holds the entries of both. */
  lemma SizeTogether(n: nat, k: nat)
    ensures SizeOf(n + k) <= SizeOf(n) + SizeOf(k)
  {
  }

  /** Metadata sectors that the resident tables will take; a flushing table that is in the log already takes no more. */
  function Due(s: Sys): nat {
    Size(Table(s.t, s.t.active)) + Size(Contents(s.t, s.t.immutable)) +
    if s.pc.Published? || (s.pc.Accounted? && s.pc.result.outcome == Success) then 0
    else Size(Contents(s.t, s.t.flushing))
  }

  /** Where the log ends once everything resident has been flushed. */
  function Reach(s: Sys): nat {
    s.metaWp + Due(s)
  }

  /** A flush step that is not torn moves tables into the log without changing where the log will end. */
  lemma FlushReach(s: Sys, w: SstWrite)
    requires Inv(s) && (s.pc.Written? || s.pc.Accounted? ==> Untorn(s.pc.result))
    ensures Reach(FlushStep(s, w)) == Reach(s)
  {
    hide Reach, FlushStep, Inv;
    if s.pc.Claiming? || s.pc.Releasing? {
      assert s.pc.Releasing? ==> MemoryOk(s.t, Detached(s.pc)) by { InvMemory(s); }
      MoveReach(s, w);
    } else if s.pc.Written? {
      InvVictim(s);
      WrittenReach(s, w);
    } else if s.pc.Accounted? || s.pc.Published? {
      InvVictim(s);
      ClearReach(s, w);
    } else {
      IdleReach(s, w);
    }
  }

  lemma InvMemory(s: Sys)
    requires Inv(s)
    ensures MemoryOk(s.t, Detached(s.pc))
  {
  }

  lemma MoveReach(s: Sys, w: SstWrite)
    requires s.pc.Claiming? || (s.pc.Releasing? && MemoryOk(s.t, Detached(s.pc)))
    ensures Reach(FlushStep(s, w)) == Reach(s)
  {
    hide MemoryOk, Claim, Free, Table, Contents, SizeOf;
    if s.pc.Claiming? {
      ClaimSizes(s.t);
    } else {
      FreeSizes(s.t, s.pc.victim);
    }
  }

  lemma ClearReach(s: Sys, w: SstWrite)
    requires VictimOk(s) && (s.pc.Published? || (s.pc.Accounted? && Untorn(s.pc.result)))
    ensures Reach(FlushStep(s, w)) == Reach(s)
  {
    hide SstWriteAllowed, Sectors, ClearFlushing;
    ClearSizes(s.t);
    if s.pc.Accounted? {
      WriteConsumed(s.pc.entries, s.pc.start, s.metaEnd, s.pc.result);
    }
    hide Table, Contents;
  }

  /** Steps that touch neither the tables nor the log. */
  lemma StepIdle(s: Sys, w: SstWrite)
    requires !s.pc.Claiming? && !s.pc.Releasing? && !s.pc.Written? && !s.pc.Accounted? && !s.pc.Published?
    ensures var u := FlushStep(s, w);
            u.t == s.t && u.metaWp == s.metaWp && !u.pc.Accounted? && !u.pc.Published?
  {
    hide SstWriteAllowed, Table, Contents, WantsFlush;
  }

  lemma IdleReach(s: Sys, w: SstWrite)
    requires !s.pc.Claiming? && !s.pc.Releasing? && !s.pc.Written? && !s.pc.Accounted? && !s.pc.Published?
    ensures Reach(FlushStep(s, w)) == Reach(s)
  {
    hide FlushStep, Table, Contents, SizeOf;
    StepIdle(s, w);
  }

  lemma WrittenReach(s: Sys, w: SstWrite)
    requires VictimOk(s) && s.pc.Written? && Untorn(s.pc.result)
    ensures Reach(FlushStep(s, w)) == Reach(s)
  {
    hide SstWriteAllowed, Sectors, Table;
    WriteConsumed(s.pc.entries, s.pc.start, s.metaEnd, s.pc.result);
    if s.pc.result.outcome == Success {
      SizeNonZero(s.pc.entries);
    }
  }

  /** Sectors for the tables in the three slots. */
  function Sizes(t: Tables): nat {
    Size(Table(t, t.active)) + Size(Contents(t, t.immutable)) + Size(Contents(t, t.flushing))
  }

  lemma ClaimSizes(t: Tables)
    ensures Sizes(Claim(t)) == Sizes(t)
  {
    hide SizeOf;
    assert Contents(t, None) == map[] && SizeOf(0) == 0 by { NothingTaken(); }
  }

  lemma NothingTaken()
    ensures SizeOf(0) == 0
  {
  }

  lemma ClearSizes(t: Tables)
    ensures var u := ClearFlushing(t);
            && Table(u, u.active) == Table(t, t.active) && Contents(u, u.immutable) == Contents(t, t.immutable)
            && Contents(u, u.flushing) == map[]
  {
  }

  lemma FreeSizes(t: Tables, v: nat)
    requires MemoryOk(t, Some(v))
    ensures var u := Free(t, v);
            && u.active == t.active && u.immutable == t.immutable && u.flushing == t.flushing
            && Table(u, u.active) == Table(t, t.active) && Contents(u, u.immutable) == Contents(t, t.immutable)
            && Contents(u, u.flushing) == Contents(t, t.flushing)
  {
  }

  lemma MergedSize(a: Mapping, c: Mapping)
    ensures |a + c| <= |a| + |c|
    ensures Size(a + c) <= Size(a) + Size(c)
  {
    hide SizeOf;
    assert (a + c).Keys == a.Keys + c.Keys;
    UnionSize(a.Keys, c.Keys);
    assert |a + c| == |(a + c).Keys| && |a| == |a.Keys| && |c| == |c.Keys|;
    SizeGrows(|a + c|, |a| + |c|);
    SizeTogether(|a|, |c|);
  }

  lemma UnionSize(a: set<nat>, c: set<nat>)
    ensures |a + c| <= |a| + |c|
  {
    assert a + c == a + (c - a);
    assert |c| == |c - a| + |c * a| by {
      assert c == (c - a) + c * a;
    }
  }

  /** Maintenance either leaves active and immutable table as they are, or merges both into the immutable one. */
  lemma MaintainShape(u: Tables, f: PutFaults, detached: Option<nat>)
    requires MemoryOk(u, detached)
    ensures var v := Maintain(u, f);
            || (Table(v, v.active) == Table(u, u.active) && Contents(v, v.immutable) == Contents(u, u.immutable))
            || (Table(v, v.active) == map[]
                && Contents(v, v.immutable) == Contents(u, u.immutable) + Table(u, u.active))
  {
    SlotsLive(u, detached);
    hide MemoryOk;
    assert map[] + Table(u, u.active) == Table(u, u.active);
  }

  /** An insertion makes the slots take at most two blocks more. */
  lemma PutSizes(t: Tables, threshold: nat, b: nat, p: nat, f: PutFaults, detached: Option<nat>)
    requires MemoryOk(t, detached)
    ensures Sizes(PutActive(t, threshold, b, p, f).0) <= Sizes(t) + 2 * BLOCK_SECTORS
    ensures var u := PutActive(t, threshold, b, p, f).0;
            Contents(u, u.flushing) == Contents(t, t.flushing)
  {
    hide MemoryOk, Maintain, Inserted, TablesView, Table, Contents, SizeOf;
    PutActiveView(t, threshold, b, p, f, detached);
    InsertedTables(t, b, p, detached);
    var u := Inserted(t, b, p);
    UpdatedSize(Table(t, t.active), b, p);
    MaintainShape(u, f, detached);
    MergedSize(Contents(u, u.immutable), Table(u, u.active));
    NothingTaken();
  }

  lemma UpdatedSize(m: Mapping, b: nat, p: nat)
    ensures Size(m[b := p]) <= Size(m) + 2 * BLOCK_SECTORS
  {
    hide SizeOf;
    MergedSize(m, map[b := p]);
    assert m + map[b := p] == m[b := p];
    assert |map[b := p]| == |map[b := p].Keys| && map[b := p].Keys == {b};
    SizeOneMore(0);
    NothingTaken();
  }

  /** One insertion moves the end the log is heading for by at most two blocks. */
  lemma PutReach(s: Sys, b: nat, p: nat, f: PutFaults)
    requires Inv(s)
    ensures Reach(IoPut(s, b, p, f).0) <= Reach(s) + 2 * BLOCK_SECTORS
  {
    hide MemoryOk, VictimOk, WakeOk, LogOk, MissOk, PutActive, Table, Contents, SizeOf;
    PutSizes(s.t, s.threshold, b, p, f, Detached(s.pc));
  }

  // ----- Runs in which the active table never fills up -----

  /** Only the active table holds anything, and no flush is under way or wanted. */
  predicate Calm(s: Sys, metaWp: nat) {
    s.t.immutable.None? && s.t.flushing.None? && AtRest(s) && s.io != MustEnqueue && s.metaWp == metaWp
  }

  /** As long as fewer blocks are mapped than a table may hold, the state is calm. */
  predicate Roomy(s: Sys, metaWp: nat) {
    |View(s)| < s.threshold ==> Calm(s, metaWp)
  }

  lemma FlushRoomy(s: Sys, w: SstWrite, metaWp: nat)
    requires Inv(s) && Roomy(s, metaWp)
    ensures Roomy(FlushStep(s, w), metaWp)
  {
    FlushInv(s, w);
    hide View, Inv;
    if AtRest(s) {
      assert FlushStep(s, w) == s;
    }
    hide FlushStep;
  }

  lemma QueueRoomy(s: Sys, metaWp: nat)
    requires Roomy(s, metaWp)
    ensures Roomy(IoMaybeQueue(s), metaWp)
    ensures s.io == MustEnqueue ==> Roomy(IoEnqueue(s), metaWp)
  {
    hide TablesView, SstsView;
  }

  /** As long as fewer blocks are mapped than a table may hold, an insertion leaves everything else calm. */
  lemma PutCalm(s: Sys, b: nat, p: nat, f: PutFaults, metaWp: nat)
    requires Inv(s) && s.io == Ready && Calm(s, metaWp) && |View(IoPut(s, b, p, f).0)| < s.threshold
    ensures Calm(IoPut(s, b, p, f).0, metaWp)
  {
    hide MemoryOk, VictimOk, WakeOk, LogOk, MissOk, Inserted, SstsView, Maintain;
    PutInv(s, b, p, f);
    if !f.entry {
      InsertedTables(s.t, b, p, Detached(s.pc));
      var v, active := View(s)[b := p], Table(s.t, s.t.active)[b := p];
      assert active.Keys <= v.Keys;
      Sums.SubsetAtMost(active.Keys, v.Keys);
      assert |active| == |active.Keys| && |v| == |v.Keys|;
    }
  }

  lemma PutRoomy(s: Sys, b: nat, p: nat, f: PutFaults, metaWp: nat)
    requires Inv(s) && s.io == Ready && Roomy(s, metaWp)
    ensures Roomy(IoPut(s, b, p, f).0, metaWp)
  {
    hide Calm, View, Inv, PutActive;
    PutInv(s, b, p, f);
    var m := View(s)[b := p];
    Sums.SubsetAtMost(View(s).Keys, m.Keys);
    assert |View(s)| == |View(s).Keys| && |m| == |m.Keys|;
    if |View(IoPut(s, b, p, f).0)| < s.threshold {
      PutCalm(s, b, p, f, metaWp);
    }
  }

  /** In a calm state the log will end one table behind where it ends now. */
  lemma CalmReach(s: Sys, metaWp: nat)
    requires Inv(s) && Calm(s, metaWp)
    ensures Reach(s) <= metaWp + SizeOf(|View(s)|)
  {
    hide SizeOf, SstsView, MemoryOk, VictimOk, WakeOk, LogOk, MissOk;
    NothingTaken();
    var active := Table(s.t, s.t.active);
    assert active.Keys <= View(s).Keys;
    Sums.SubsetAtMost(active.Keys, View(s).Keys);
    assert |active| == |active.Keys| && |View(s)| == |View(s).Keys|;
    SizeGrows(|active|, |View(s)|);
  }
}
