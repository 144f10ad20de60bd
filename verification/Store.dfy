/** The mapping store: the MemTable slots, the SSTable list and the metadata zone, with the flush worker running on
    them. The protocol says what each step does to values; here every step is carried out on the objects and the
    media. */
module Stores {
  import opened Prelude
  import opened SstLayout
  import opened MetaZones
  import opened MemTables
  import opened SsTables
  import opened Recovery
  import opened FlushWorkers
  import G = Generations
  import P = FlushProtocol

  /** Where the metadata zone's write pointer is as long as no metadata operation failed. */
  function Pointer(s: P.Sys): nat {
    if s.pc.Written? then s.pc.start + s.pc.result.consumed else s.metaWp
  }

  /** The state of a store to which no metadata failure has happened: nothing is torn, the zone's pointer is where the
      protocol puts it, and every insertion so far costs at most two metadata blocks. */
  predicate Undisturbed(s: P.Sys, first: nat, wp: nat, reach: nat) {
    P.NothingTorn(s, first) && wp == Pointer(s) <= s.metaEnd && P.Reach(s) <= reach
  }

  /** What a step of the flush worker does to the protocol's value. */
  lemma FlushKeeps(s: P.Sys, w: P.SstWrite, reach0: nat)
    requires P.Inv(s) && P.SeqBehind(s) && P.Roomy(s, reach0)
    ensures var u := P.FlushStep(s, w);
            && P.Roomy(u, reach0) && P.Inv(u) && P.SeqBehind(u) && P.View(u) == P.View(s)
            && u.io == s.io && u.threshold == s.threshold && u.metaEnd == s.metaEnd
  {
    hide P.Inv, P.SeqBehind, P.View, P.Roomy;
    P.InvVictim(s);
    P.FlushInv(s, w);
    P.FlushSeqBehind(s, w);
    P.FlushRoomy(s, w, reach0);
  }

  lemma FlushUndisturbed(s: P.Sys, w: P.SstWrite, first: nat, wp: nat, wp': nat, reach: nat)
    requires P.Inv(s) && Undisturbed(s, first, wp, reach)
    requires if s.pc.Writing? then P.Untorn(w) && P.FlushStep(s, w).pc.Written? && wp' == s.pc.start + w.consumed
             else wp' == wp
    ensures Undisturbed(P.FlushStep(s, w), first, wp', reach) && P.Reach(P.FlushStep(s, w)) == P.Reach(s)
  {
    hide P.Reach, P.NothingTorn, P.Inv;
    P.InvVictim(s);
    TornFacts(s, first);
    P.FlushReach(s, w);
    if s.pc.Writing? {
      P.UntornFlush(s, w, first);
      WritingPointer(s, w);
      WritingInside(s, w);
    } else {
      OutcomeUnused(s, w, P.SstWrite(Success, 0));
      P.UntornFlush(s, P.SstWrite(Success, 0), first);
      OtherPointer(s, w);
      EndStays(s, w);
    }
  }

  lemma TornFacts(s: P.Sys, first: nat)
    requires P.NothingTorn(s, first)
    ensures s.pc.Written? || s.pc.Accounted? ==> P.Untorn(s.pc.result)
  {
  }

  lemma OutcomeUnused(s: P.Sys, w: P.SstWrite, v: P.SstWrite)
    requires !s.pc.Writing?
    ensures P.FlushStep(s, w) == P.FlushStep(s, v)
  {
  }

  lemma WritingPointer(s: P.Sys, w: P.SstWrite)
    requires s.pc.Writing? && P.FlushStep(s, w).pc.Written?
    ensures Pointer(P.FlushStep(s, w)) == s.pc.start + w.consumed
  {
  }

  /** An untorn write ends inside the zone. */
  lemma WritingInside(s: P.Sys, w: P.SstWrite)
    requires P.VictimOk(s) && s.pc.Writing? && P.FlushStep(s, w).pc.Written? && P.Untorn(w) && Pointer(s) <= s.metaEnd
    ensures s.pc.start + w.consumed <= s.metaEnd && P.FlushStep(s, w).metaEnd == s.metaEnd
  {
    hide Sectors, G.Table;
  }

  lemma EndStays(s: P.Sys, w: P.SstWrite)
    ensures P.FlushStep(s, w).metaEnd == s.metaEnd
  {
    hide P.SstWriteAllowed, Sectors, G.Table, G.Free, G.Claim, G.ClearFlushing;
  }

  lemma OtherPointer(s: P.Sys, w: P.SstWrite)
    requires P.VictimOk(s) && !s.pc.Writing?
    ensures Pointer(P.FlushStep(s, w)) == Pointer(s)
  {
    hide P.SstWriteAllowed, Sectors, G.Table, G.Free, G.Claim, G.ClearFlushing;
  }

  /** Moving the I/O worker alone leaves everything else about the store as it was. */
  lemma IoMoves(s: P.Sys, u: P.Sys)
    requires || u == s.(io := u.io)
             || u == s.(io := u.io, inFlight := u.inFlight, lastFailed := u.lastFailed, queued := u.queued)
    ensures P.SeqBehind(u) == P.SeqBehind(s) && Pointer(u) == Pointer(s) && P.Reach(u) == P.Reach(s)
    ensures forall first: nat :: P.NothingTorn(u, first) == P.NothingTorn(s, first)
  {
    hide P.Gapless;
  }

  class Store {
    const slots: Slots
    const meta: MetaZone
    const step: Checksum
    /** Entries at which the active MemTable is frozen. */
    const threshold: nat
    /** lsm->sstables, newest first. */
    var ssts: seq<Sstable>
    /** The index of a table that is written but not yet in the list. */
    var pending: Sstable
    /** Program counters, flags, log pointer and sequence number, and the contents of all tables as values. */
    var sys: P.Sys
    ghost var tables: seq<DiskTable>
    ghost var pendingEntries: seq<Entry>
    ghost var Repr: set<object>
    /** Insertions since attach. */
    ghost var puts: nat
    /** Where the log ended at attach, and the metadata failures up to then. */
    ghost const reach0: nat
    const faults0: nat
    /** The log that was found at attach filled the zone up to its write pointer. */
    const whole: bool
    /** The superblock, which nothing overwrites. */
    ghost const super: Block

    ghost predicate Valid()
      reads this, Repr
    {
      && Owns()
      && Matches()
      && OnMedia()
      && meta.start < meta.wp && BlockAt(meta.content, meta.start) == super
      && faults0 <= meta.faults && P.Roomy(sys, reach0)
      && (Quiet() ==> Undisturbed(sys, meta.start + BLOCK_SECTORS, meta.wp, reach0 + 2 * BLOCK_SECTORS * puts))
    }

    /** Nothing has ever gone wrong with the log. */
    predicate Quiet()
      reads meta
    {
      whole && meta.faults == faults0
    }

    ghost predicate Owns()
      reads this, Repr
    {
      && this in Repr && slots in Repr && meta in Repr && slots.live.Values <= Repr
      && forall o | o in Repr :: o == this || o == slots || o == meta || o in slots.live.Values
    }

    /** The objects in the slots are the tables of the protocol. */
    ghost predicate Matches()
      reads this, Repr
      requires Owns()
    {
      && slots.Valid() && slots.names == sys.t && slots.detached == P.Detached(sys.pc)
      && P.Inv(sys) && P.SeqBehind(sys) && sys.metaEnd == meta.end && sys.threshold == threshold
    }

    /** The listed tables are on the media, and so is one that is about to be listed. */
    ghost predicate OnMedia()
      reads this, Repr
      requires Owns()
    {
      && Listed(step, ssts, tables) && OnDisk(meta.content, meta.wp, step, sys.ssts, tables)
      && Pending(meta.content, meta.wp, step, sys, pending, pendingEntries)
    }

    /** The mapping every read resolves against. */
    ghost function View(): G.Mapping
      reads this
    {
      P.View(sys)
    }

    /** What the log must be like for the store to start in a valid state: the listed tables are on the media, in
        order, and fill the zone up to its pointer unless a tail was dropped. */
    static ghost predicate Startable(meta: MetaZone, step: Checksum, ssts: seq<Sstable>, threshold: nat,
                                     listed: seq<P.Sst>, nextSeq: nat, whole: bool, tables: seq<DiskTable>)
      reads meta
    {
      && 0 < threshold && meta.start < meta.wp <= meta.end
      && P.Ordered(listed, meta.wp, nextSeq) && P.Behind(nextSeq, meta.wp)
      && Listed(step, ssts, tables) && OnDisk(meta.content, meta.wp, step, listed, tables)
      && (whole ==> P.Gapless(listed, meta.start + BLOCK_SECTORS, meta.wp))
    }

    /** The store after attach: the given first table, nothing queued, the log ending where the zone's pointer is. */
    constructor (slots: Slots, meta: MetaZone, step: Checksum, ssts: seq<Sstable>, threshold: nat, listed: seq<P.Sst>,
                 nextSeq: nat, whole: bool, ghost tables: seq<DiskTable>)
      requires slots.Valid() && slots.names == G.FirstTables() && slots.detached.None?
      ensures this.slots == slots && this.meta == meta && this.step == step
      ensures this.ssts == ssts && this.tables == tables
      ensures Repr == {this, slots, meta} + slots.live.Values && puts == 0 && faults0 == meta.faults
      ensures reach0 == meta.wp && this.whole == whole && this.threshold == threshold
      ensures super == BlockAt(meta.content, meta.start)
      ensures sys == P.Initial(threshold, listed, meta.wp, meta.end, nextSeq)
      ensures Startable(meta, step, ssts, threshold, listed, nextSeq, whole, tables) ==>
                Valid() && View() == P.SstsView(listed) && sys.io == P.Ready && P.Reach(sys) == meta.wp
    {
      hide P.Initial, P.Inv, P.View, P.SstsView, P.Ordered, P.Gapless, P.LogEnd, OnDisk, Listed, Undisturbed,
           Slots.Valid, Describes, Matches, OnMedia, P.Roomy, P.Reach;
      this.slots, this.meta, this.step, this.ssts, this.tables := slots, meta, step, ssts, tables;
      pending, pendingEntries, puts := Sstable(0, Header(0, 0, 0, 0, 0, 0)), [], 0;
      sys := P.Initial(threshold, listed, meta.wp, meta.end, nextSeq);
      Repr := {this, slots, meta} + slots.live.Values;
      reach0, faults0, super := meta.wp, meta.faults, BlockAt(meta.content, meta.start);
      this.whole, this.threshold := whole, threshold;
      new;
      if Startable(meta, step, ssts, threshold, listed, nextSeq, whole, tables) {
        P.InitialInv(threshold, listed, meta.wp, meta.end, nextSeq);
        InitialFields(threshold, listed, meta.wp, meta.end, nextSeq);
        if whole {
          InitialUndisturbed(threshold, listed, meta.start + BLOCK_SECTORS, meta.wp, meta.end, nextSeq);
        }
        MatchesIs(this);
        OnMediaIs(this);
      }
    }

    /** What the log will grow to: at most two blocks further than at attach for every insertion since then; and while
        fewer blocks are mapped than a MemTable may hold, at most by one table of all of them. */
    lemma Bounds()
      requires Valid()
      ensures Quiet() ==> P.Reach(sys) <= reach0 + 2 * BLOCK_SECTORS * puts
      ensures |View()| < threshold ==> P.Reach(sys) <= reach0 + P.SizeOf(|View()|)
    {
      hide P.Reach, P.Inv, P.SeqBehind, P.View, P.NothingTorn, OnMedia, Slots.Valid;
      if |View()| < threshold {
        P.CalmReach(sys, reach0);
      }
    }

    /** Claiming: zns_lsm_claim_flush_victim. */
    method StepClaim()
      requires Valid() && sys.pc == P.Claiming
      modifies this`sys, slots
      ensures Valid() && sys == P.FlushStep(old(sys), UNUSED)
    {
      hide P.Inv, P.SeqBehind, P.View, P.Roomy, P.Reach, Undisturbed, OnDisk, Listed, Slots.Valid, Describes,
           P.FlushStep, G.Claim;
      FlushKeeps(sys, UNUSED, reach0);
      StepShape(sys, UNUSED);
      if Quiet() {
        FlushUndisturbed(sys, UNUSED, meta.start + BLOCK_SECTORS, meta.wp, meta.wp, reach0 + 2 * BLOCK_SECTORS * puts);
      }
      var victim := slots.Claim();
      sys := P.FlushStep(sys, UNUSED);
    }

    /** Writing: zns_sst_write of the claimed table. */
    method StepWrite() returns (ghost w: P.SstWrite)
      requires Valid() && sys.pc.Writing?
      modifies this`sys, this`pending, this`pendingEntries, meta
      ensures Valid() && sys == P.FlushStep(old(sys), w) && sys.pc.Written? && meta.faults >= old(meta.faults)
    {
      hide P.Inv, P.SeqBehind, P.View, P.Roomy, P.Reach, Undisturbed, OnDisk, Listed, Slots.Valid, Describes,
           P.FlushStep, P.Untorn, Pending, BlockAt, SameBelow;
      VictimTable();
      ghost var s := sys;
      var written;
      sys, pending, written := WriteVictim(meta, step, slots.flushing, sys, tables);
      w := written;
      pendingEntries := slots.flushing.Entries();
      BlockKept(old(meta.content), meta.content, meta.start, old(meta.wp));
      WritingKeepsTables(s, w);
      FlushKeeps(s, w, reach0);
      if Quiet() {
        UndisturbedPointer(s, meta.start + BLOCK_SECTORS, old(meta.wp), reach0 + 2 * BLOCK_SECTORS * puts);
        FlushUndisturbed(s, w, meta.start + BLOCK_SECTORS, old(meta.wp), meta.wp, reach0 + 2 * BLOCK_SECTORS * puts);
      }
    }

    /** The table that the flush worker is about to write is the one in the flushing slot. */
    lemma VictimTable()
      requires Valid() && sys.pc.Writing?
      ensures slots.flushing != null && slots.flushing.Valid()
      ensures slots.flushing.Contents() == G.Table(sys.t, sys.pc.victim)
      ensures slots.flushing in slots.live.Values
    {
      hide P.SeqBehind, P.View, Undisturbed, OnDisk, Listed, Slots.Valid, MemTable.Valid, MemTable.Contents, Pending,
           P.Inv;
      P.InvVictim(sys);
      slots.SlotTables();
    }

    /** Accounted: zns_lsm_publish_sstable. */
    method StepPublish()
      requires Valid() && sys.pc.Accounted? && sys.pc.result.outcome == Success
      modifies this`sys, this`ssts, this`tables
      ensures Valid() && sys == P.FlushStep(old(sys), UNUSED) && ssts == [pending] + old(ssts)
    {
      hide P.Inv, P.SeqBehind, P.View, P.Roomy, P.Reach, Undisturbed, OnDisk, Listed, Slots.Valid, Describes,
           P.FlushStep, Sealed;
      FlushKeeps(sys, UNUSED, reach0);
      StepShape(sys, UNUSED);
      if Quiet() {
        FlushUndisturbed(sys, UNUSED, meta.start + BLOCK_SECTORS, meta.wp, meta.wp, reach0 + 2 * BLOCK_SECTORS * puts);
      }
      ghost var newest := DiskTable(Sealed(step, pending, pendingEntries), pendingEntries);
      ghost var all := [newest] + tables;
      PendingPublished(meta.content, meta.wp, step, sys, UNUSED, pending, pendingEntries, tables, all);
      var longer := [pending] + ssts;
      ListedMore(step, ssts, tables, longer, all, pending, pendingEntries);
      ssts, tables := longer, all;
      sys := P.FlushStep(sys, UNUSED);
    }

    /** Published, or Accounted with nothing to persist: the locked part of zns_lsm_release_flush_victim. */
    method StepClear()
      requires Valid() && (sys.pc.Published? || (sys.pc.Accounted? && sys.pc.result.outcome == NoData))
      modifies this`sys, slots
      ensures Valid() && sys == P.FlushStep(old(sys), UNUSED)
    {
      hide P.Inv, P.SeqBehind, P.View, P.Roomy, P.Reach, Undisturbed, OnDisk, Listed, Slots.Valid, Describes,
           P.FlushStep, G.ClearFlushing;
      FlushKeeps(sys, UNUSED, reach0);
      StepShape(sys, UNUSED);
      VictimHeld(sys);
      slots.SlotTables();
      if Quiet() {
        FlushUndisturbed(sys, UNUSED, meta.start + BLOCK_SECTORS, meta.wp, meta.wp, reach0 + 2 * BLOCK_SECTORS * puts);
      }
      slots.ClearFlushing();
      sys := P.FlushStep(sys, UNUSED);
    }

    /** Releasing: memtable_free of the flushed table. */
    method StepRelease()
      requires Valid() && sys.pc.Releasing?
      modifies this`sys, this`Repr, slots
      ensures Valid() && sys == P.FlushStep(old(sys), UNUSED) && Repr <= old(Repr)
    {
      hide P.Inv, P.SeqBehind, P.View, P.Roomy, P.Reach, Undisturbed, OnDisk, Listed, Slots.Valid, Describes,
           P.FlushStep, G.Free;
      FlushKeeps(sys, UNUSED, reach0);
      StepShape(sys, UNUSED);
      if Quiet() {
        FlushUndisturbed(sys, UNUSED, meta.start + BLOCK_SECTORS, meta.wp, meta.wp, reach0 + 2 * BLOCK_SECTORS * puts);
      }
      slots.Release();
      Repr := {this, slots, meta} + slots.live.Values;
      sys := P.FlushStep(sys, UNUSED);
    }

    /** Every other step moves only the worker, its flags and the log pointer. */
    method StepOther()
      requires Valid() && !sys.pc.Claiming? && !sys.pc.Writing? && !sys.pc.Published? && !sys.pc.Releasing?
      requires sys.pc.Accounted? ==> sys.pc.result.outcome != NoData && sys.pc.result.outcome != Success
      modifies this`sys
      ensures Valid() && sys == P.FlushStep(old(sys), UNUSED)
    {
      hide P.Inv, P.SeqBehind, P.View, P.Roomy, P.Reach, Undisturbed, OnDisk, Listed, Slots.Valid, Describes,
           P.FlushStep;
      FlushKeeps(sys, UNUSED, reach0);
      StepShape(sys, UNUSED);
      if Quiet() {
        FlushUndisturbed(sys, UNUSED, meta.start + BLOCK_SECTORS, meta.wp, meta.wp, reach0 + 2 * BLOCK_SECTORS * puts);
      }
      sys := P.FlushStep(sys, UNUSED);
    }

    /** One step of zns_lsm_flush_worker. */
    method WorkerStep()
      requires Valid()
      modifies Repr
      ensures Valid() && fresh(Repr - old(Repr)) && View() == old(View()) && sys.io == old(sys).io && puts == old(puts)
      ensures meta.faults >= old(meta.faults) && (Quiet() ==> P.Reach(sys) == old(P.Reach(sys)))
      ensures !P.AtRest(old(sys)) ==> P.Rank(sys) < P.Rank(old(sys))
      ensures P.AtRest(old(sys)) ==> sys == old(sys)
    {
      hide Valid, Owns, P.View, P.FlushStep, P.Rank, P.Inv, P.SeqBehind, P.Reach, P.Roomy, P.Untorn;
      ProtocolOk();
      StepsCover(sys);
      ghost var w := UNUSED;
      if sys.pc.Claiming? {
        StepClaim();
      } else if sys.pc.Writing? {
        w := StepWrite();
      } else if sys.pc.Accounted? && sys.pc.result.outcome == Success {
        StepPublish();
      } else if sys.pc.Published? || (sys.pc.Accounted? && sys.pc.result.outcome == NoData) {
        StepClear();
      } else if sys.pc.Releasing? {
        StepRelease();
      } else {
        StepOther();
      }
      FlushKeeps(old(sys), w, reach0);
      if Quiet() {
        P.FlushReach(old(sys), w);
      }
      if P.AtRest(old(sys)) {
        RestStays(old(sys), w);
      } else {
        StepAllowed(old(sys), w);
        P.FlushTerminates(old(sys), w);
      }
    }

    lemma ProtocolOk()
      requires Valid()
      ensures P.Inv(sys) && P.SeqBehind(sys) && P.Roomy(sys, reach0)
      ensures this in Repr && slots in Repr && meta in Repr && faults0 <= meta.faults
      ensures Quiet() && (sys.pc.Written? || sys.pc.Accounted?) ==> P.Untorn(sys.pc.result)
    {
      hide P.Inv, P.SeqBehind, P.Roomy, P.Reach, P.Gapless;
    }

    /** The flush worker runs any number of its steps. */
    method Background()
      requires Valid()
      modifies Repr
      ensures Valid() && fresh(Repr - old(Repr)) && View() == old(View()) && sys.io == old(sys).io && puts == old(puts)
      ensures meta.faults >= old(meta.faults)
    {
      hide Valid, View, P.AtRest;
      var steps: nat := *;
      while steps > 0
        invariant Valid() && fresh(Repr - old(Repr)) && View() == old(View()) && sys.io == old(sys).io
        invariant puts == old(puts)
        invariant meta.faults >= old(meta.faults)
      {
        WorkerStep();
        steps := steps - 1;
      }
    }

    /** The flush worker runs until its work item has ended and is not queued again, as destroying its queue makes
        it. */
    method Drain()
      requires Valid()
      modifies Repr
      ensures Valid() && fresh(Repr - old(Repr)) && View() == old(View()) && sys.io == old(sys).io && puts == old(puts)
      ensures meta.faults >= old(meta.faults) && P.AtRest(sys) && (Quiet() ==> P.Reach(sys) == old(P.Reach(sys)))
      ensures sys.pc == P.Idle && !sys.queued
    {
      hide Valid, View, P.Rank, P.Reach;
      ProtocolOk();
      while !P.AtRest(sys)
        invariant Valid() && fresh(Repr - old(Repr)) && View() == old(View()) && sys.io == old(sys).io
        invariant puts == old(puts)
        invariant meta.faults >= old(meta.faults) && (Quiet() ==> P.Reach(sys) == old(P.Reach(sys)))
        decreases P.Rank(sys)
      {
        WorkerStep();
      }
    }

    /** A step of the I/O worker that touches neither tables nor log. */
    method MoveIo(s: P.Sys)
      requires Valid() && P.Inv(s)
      requires P.Roomy(s, reach0)
      requires || s == sys.(io := s.io)
               || s == sys.(io := s.io, inFlight := s.inFlight, lastFailed := s.lastFailed, queued := s.queued)
      modifies this`sys
      ensures Valid() && sys == s
    {
      hide P.Inv, P.SeqBehind, P.View, P.Roomy, P.NothingTorn, P.Reach, OnDisk, Listed, Slots.Valid, Describes,
           Pointer;
      IoMoves(sys, s);
      sys := s;
    }

    /** zns_lsm_read: the MemTables under one lock, then the SSTables under another, with the flush worker in
        between. */
    method Lookup(b: nat) returns (r: Result<nat>)
      requires Valid() && sys.io == P.Ready
      modifies Repr
      ensures Valid() && fresh(Repr - old(Repr)) && View() == old(View()) && sys.io == P.Ready && puts == old(puts)
      ensures meta.faults >= old(meta.faults)
      ensures r.Ok? ==> b in View() && r.value == View()[b]
      ensures r == Err(NoData) ==> b !in View()
      ensures r.Err? && r.error != NoData ==> meta.faults > old(meta.faults) && r.error != Success
    {
      hide P.Inv, P.SeqBehind, P.View, P.Roomy, P.Reach, Undisturbed, OnDisk, Slots.Valid, Describes, P.Apply,
           P.SstLookup, G.TablesView, P.MemTableLookup;
      Background();
      r := slots.Lookup(b);
      MemTablesMissed(sys, b, r);
      if r.Ok? {
        return;
      }
      MoveIo(sys.(io := P.Missed(b)));
      Background();
      OnDiskFacts(meta.content, meta.wp, step, sys.ssts, tables);
      r := LookupSstables(meta, ssts, b, step, tables);
      SstablesAnswer(sys, b);
      MoveIo(sys.(io := P.Ready));
    }

    /** What an insertion starts from. */
    lemma InsertFacts()
      requires Valid()
      ensures this in Repr && slots in Repr && slots.active in Repr && slots.Valid() && slots.names == sys.t
      ensures slots.detached == P.Detached(sys.pc) && sys.metaEnd == meta.end && 0 < sys.threshold == threshold
      ensures Listed(step, ssts, tables) && OnDisk(meta.content, meta.wp, step, sys.ssts, tables)
      ensures Pending(meta.content, meta.wp, step, sys, pending, pendingEntries) && P.Inv(sys) && P.SeqBehind(sys)
      ensures P.Roomy(sys, reach0)
    {
      hide P.Roomy, P.Reach, Slots.Valid, P.Inv, P.SeqBehind, Listed, OnDisk, Pending, Undisturbed;
      slots.SlotTables();
      ThresholdPositive(sys);
    }

    /** memtable_put_active on behalf of the I/O worker, as a step of the protocol. */
    method InsertStep(b: u64, p: u64) returns (r: Errno, ghost f: G.PutFaults)
      requires Valid() && sys.io == P.Ready
      modifies Repr
      ensures Valid() && fresh(Repr - old(Repr)) && meta.faults == old(meta.faults)
      ensures r == Success ==> View() == old(View())[b := p] && sys.io == P.OwesQueue && puts == old(puts) + 1
      ensures r != Success ==> r == NoMem && View() == old(View()) && sys.io == P.Ready && puts == old(puts)
      ensures (sys.t, r) == G.PutActive(old(sys.t), threshold, b, p, f)
      ensures r == Success ==> !f.entry && (f != G.NO_FAULT ==> G.GivesUp(old(sys.t), f))
    {
      hide P.Inv, P.SeqBehind, P.View, P.Roomy, P.Reach, Undisturbed, OnDisk, Listed, Slots.Valid, Pending, P.IoPut,
           G.PutActive, BlockAt, P.Detached, Matches, OnMedia, MemTable.Contents, Slots.Waiting, Maintained, G.GivesUp;
      InsertFacts();
      ghost var s := sys;
      var faults;
      r, faults := slots.PutActive(sys.threshold, b, p);
      f := faults;
      var (u, stored) := P.IoPut(sys, b, p, faults);
      PutProtocol(s, b, p, f, u, stored);
      PendingSame(meta.content, meta.wp, step, s, u, pending, pendingEntries);
      P.PutRoomy(s, b, p, f, reach0);
      if Quiet() {
        PutUndisturbed(s, b, p, f, u, stored, meta.start + BLOCK_SECTORS, meta.wp, reach0 + 2 * BLOCK_SECTORS * puts);
      }
      sys, Repr, puts := u, {this, slots, meta} + slots.live.Values, puts + if r == Success then 1 else 0;
      MatchesIs(this);
      OnMediaIs(this);
    }

    /** What the tables in the two younger slots hold is what the protocol says. */
    lemma YoungerTables()
      requires Valid()
      ensures slots.active.Contents() == G.Table(sys.t, sys.t.active)
      ensures slots.Waiting() == G.Contents(sys.t, sys.t.immutable)
      ensures G.MemoryOk(sys.t, P.Detached(sys.pc)) && 0 < threshold
    {
      hide P.SeqBehind, P.Roomy, P.Reach, OnMedia, Slots.Valid, MemTable.Contents, MemTable.Valid, G.Table, G.Contents,
           G.MemoryOk, Undisturbed;
      slots.SlotContents();
    }

    /** memtable_put_active. Unless an allocation fails, the active table ends up below the threshold: one that reaches
        it becomes the immutable table, or is merged into it. */
    method Insert(b: u64, p: u64) returns (r: Errno, ghost f: G.PutFaults)
      requires Valid() && sys.io == P.Ready
      modifies Repr
      ensures Valid() && fresh(Repr - old(Repr)) && meta.faults == old(meta.faults)
      ensures r == Success ==> View() == old(View())[b := p] && sys.io == P.OwesQueue && puts == old(puts) + 1
      ensures r != Success ==> r == NoMem && View() == old(View()) && sys.io == P.Ready && puts == old(puts)
      ensures r == Success && f == G.NO_FAULT ==> |slots.active.Contents()| < threshold
      ensures r == Success ==>
                Maintained(threshold, f, old(slots.active.Contents())[b := p], old(slots.Waiting()),
                           slots.active.Contents(), slots.Waiting())
    {
      hide Valid, View, G.PutActive, G.GivesUp, G.Table, G.Contents, G.MemoryOk, MemTable.Contents, Slots.Waiting,
           Maintained;
      YoungerTables();
      ghost var t, detached := sys.t, P.Detached(sys.pc);
      r, f := InsertStep(b, p);
      YoungerTables();
      if r == Success {
        PutMaintains(t, threshold, b, p, f, detached);
      }
    }

    /** zns_lsm_maybe_queue_flush by the I/O worker; the work item may start before the queueing call returns. It leaves
        the flush worker with work to do if any table waits, also one that an earlier attempt failed to write. */
    method MaybeQueueFlush()
      requires Valid() && sys.io == P.OwesQueue
      modifies Repr
      ensures Valid() && fresh(Repr - old(Repr)) && View() == old(View()) && sys.io == P.Ready && puts == old(puts)
      ensures meta.faults >= old(meta.faults)
      ensures slots.immutable != null || slots.flushing != null ==> sys.queued || sys.pc != P.Idle
    {
      hide Valid, P.Inv, P.View, P.Roomy, P.IoMaybeQueue, P.IoEnqueue;
      Background();
      ProtocolOk();
      WaitingTables();
      P.QueueInv(sys);
      P.QueueLeavesWork(sys);
      QueueMoves(sys);
      P.QueueRoomy(sys, reach0);
      MoveIo(P.IoMaybeQueue(sys));
      if sys.io == P.MustEnqueue {
        Background();
        ProtocolOk();
        P.QueueInv(sys);
        P.QueueLeavesWork(sys);
        QueueMoves(sys);
        P.QueueRoomy(sys, reach0);
        MoveIo(P.IoEnqueue(sys));
      }
    }

    lemma WaitingTables()
      requires Valid()
      ensures slots.immutable != null <==> sys.t.immutable.Some?
      ensures slots.flushing != null <==> sys.t.flushing.Some?
    {
      hide P.Inv, P.SeqBehind, P.Roomy, P.Reach, OnMedia, Slots.Valid;
      slots.SlotTables();
    }
  }

  lemma PutMaintains(t: G.Tables, threshold: nat, b: nat, p: nat, f: G.PutFaults, detached: Option<nat>)
    requires G.MemoryOk(t, detached) && 0 < threshold && !f.entry && (f != G.NO_FAULT ==> G.GivesUp(t, f))
    ensures var u := G.PutActive(t, threshold, b, p, f).0;
            && Maintained(threshold, f, G.Table(t, t.active)[b := p], G.Contents(t, t.immutable),
                          G.Table(u, u.active), G.Contents(u, u.immutable))
            && (f == G.NO_FAULT ==> |G.Table(u, u.active)| < threshold)
  {
    hide G.PutActive, G.Table, G.Contents, G.MemoryOk;
    G.PutActiveFills(t, threshold, b, p, f, detached);
  }

  lemma QueueMoves(s: P.Sys)
    ensures var u := P.IoMaybeQueue(s);
            && u == s.(io := u.io, inFlight := u.inFlight, lastFailed := u.lastFailed, queued := u.queued)
            && (u.io == P.Ready || u.io == P.MustEnqueue)
    ensures var u := P.IoEnqueue(s);
            u == s.(io := u.io, inFlight := u.inFlight, lastFailed := u.lastFailed, queued := u.queued)
              && u.io == P.Ready
  {
    hide P.WantsFlush;
  }

  /** What an insertion does to the protocol's value. */
  lemma PutProtocol(s: P.Sys, b: nat, p: nat, f: G.PutFaults, u: P.Sys, r: Errno)
    requires P.Inv(s) && s.io == P.Ready && P.SeqBehind(s) && (u, r) == P.IoPut(s, b, p, f)
    ensures P.Inv(u) && G.PutActive(s.t, s.threshold, b, p, f) == (u.t, r)
    ensures r == Success ==> P.View(u) == P.View(s)[b := p] && u.io == P.OwesQueue
    ensures r != Success ==> u == s && r == NoMem
    ensures P.SeqBehind(u) && u.pc == s.pc && u.metaEnd == s.metaEnd && u.ssts == s.ssts && u.threshold == s.threshold
  {
    hide P.Inv, P.View, G.PutActive;
    P.PutInv(s, b, p, f);
    PutKeeps(s, b, p, f);
  }

  lemma PendingSame(content: Media, wp: nat, step: Checksum, s: P.Sys, u: P.Sys, sst: Sstable, es: seq<Entry>)
    requires u.pc == s.pc
    ensures Pending(content, wp, step, u, sst, es) == Pending(content, wp, step, s, sst, es)
  {
  }

  lemma PutUndisturbed(s: P.Sys, b: nat, p: nat, f: G.PutFaults, u: P.Sys, r: Errno, first: nat, wp: nat, reach: nat)
    requires P.Inv(s) && s.io == P.Ready && (u, r) == P.IoPut(s, b, p, f) && Undisturbed(s, first, wp, reach)
    ensures Undisturbed(u, first, wp, reach + if r == Success then 2 * BLOCK_SECTORS else 0)
  {
    hide P.Inv, P.View, P.Reach, P.NothingTorn, Pointer, G.PutActive;
    P.PutInv(s, b, p, f);
    PutKeeps(s, b, p, f);
    P.PutReach(s, b, p, f);
  }

  /** An insertion touches neither the log nor the flush worker. */
  lemma PutKeeps(s: P.Sys, b: nat, p: nat, f: G.PutFaults)
    ensures var u := P.IoPut(s, b, p, f).0;
            P.SeqBehind(u) == P.SeqBehind(s) && Pointer(u) == Pointer(s)
    ensures forall first: nat :: P.NothingTorn(P.IoPut(s, b, p, f).0, first) == P.NothingTorn(s, first)
  {
    hide P.Gapless, G.PutActive;
  }

  lemma ThresholdPositive(s: P.Sys)
    requires P.Inv(s)
    ensures 0 < s.threshold
  {
  }

  /** The MemTable phase of a lookup, as the protocol sees it. */
  lemma MemTablesMissed(s: P.Sys, b: nat, r: Result<nat>)
    requires P.Inv(s) && s.io == P.Ready
    requires r == if b in G.TablesView(s.t) then Ok(G.TablesView(s.t)[b]) else Err(NoData)
    ensures r.Ok? ==> b in P.View(s) && r.value == P.View(s)[b]
    ensures r.Err? ==> P.Inv(s.(io := P.Missed(b))) && P.View(s.(io := P.Missed(b))) == P.View(s)
    ensures forall reach0: nat :: P.Roomy(s, reach0) ==> P.Roomy(s.(io := P.Missed(b)), reach0)
  {
    hide P.Inv, G.TablesView, P.MemTableLookup;
    P.MemTableLookupIsView(s.t, b);
    P.LookupTablesInv(s, b);
  }

  /** The SSTable phase. */
  lemma SstablesAnswer(s: P.Sys, b: nat)
    requires P.Inv(s) && s.io == P.Missed(b)
    ensures P.Inv(s.(io := P.Ready)) && P.View(s.(io := P.Ready)) == P.View(s)
    ensures forall reach0: nat :: P.Roomy(s, reach0) ==> P.Roomy(s.(io := P.Ready), reach0)
    ensures P.SstLookup(s.ssts, b) == P.Get(P.View(s), b)
  {
    hide P.Inv, P.View, P.SstLookup;
    P.LookupSstsInv(s);
  }

  lemma StepsCover(s: P.Sys)
    ensures P.AtRest(s) ==>
              !s.pc.Claiming? && !s.pc.Writing? && !s.pc.Accounted? && !s.pc.Published? && !s.pc.Releasing?
  {
  }

  lemma RestStays(s: P.Sys, w: P.SstWrite)
    requires P.AtRest(s)
    ensures P.FlushStep(s, w) == s
  {
  }

  lemma StepAllowed(s: P.Sys, w: P.SstWrite)
    requires P.Inv(s)
    ensures s.pc.Writing? && P.FlushStep(s, w).pc.Written? ==>
              P.SstWriteAllowed(G.Table(s.t, s.pc.victim), s.pc.start, s.metaEnd, w)
  {
    hide P.Inv, P.SstWriteAllowed, G.Table, G.Claim, G.ClearFlushing, G.Free;
  }

  lemma ListedMore(step: Checksum, ssts: seq<Sstable>, tables: seq<DiskTable>, longer: seq<Sstable>,
                   all: seq<DiskTable>, sst: Sstable, es: seq<Entry>)
    requires Listed(step, ssts, tables) && longer == [sst] + ssts
    requires all == [DiskTable(Sealed(step, sst, es), es)] + tables
    ensures Listed(step, longer, all)
  {
    hide Sealed;
    forall i | 0 <= i < |longer| ensures Sealed(step, longer[i], all[i].es) == all[i].sst {
      if i > 0 {
        assert longer[i] == ssts[i - 1] && all[i] == tables[i - 1];
      }
    }
  }

  lemma WritingKeepsTables(s: P.Sys, w: P.SstWrite)
    requires s.pc.Writing? && P.FlushStep(s, w).pc.Written?
    ensures P.FlushStep(s, w).t == s.t && P.FlushStep(s, w).metaEnd == s.metaEnd
  {
  }

  lemma UndisturbedPointer(s: P.Sys, first: nat, wp: nat, reach: nat)
    requires Undisturbed(s, first, wp, reach) && s.pc.Writing? && P.Inv(s)
    ensures wp == s.pc.start
  {
    hide P.Reach, P.NothingTorn, P.Inv;
    P.InvVictim(s);
  }

  lemma VictimHeld(s: P.Sys)
    requires P.Inv(s) && (s.pc.Published? || s.pc.Accounted?)
    ensures s.t.flushing == Some(s.pc.victim)
  {
    hide P.Inv;
    P.InvVictim(s);
  }

  /** The write outcome given to a step that does not write. */
  const UNUSED := P.SstWrite(Success, 0)

  /** What the steps of the flush worker do to the tables, the list and the pending table. */
  lemma StepShape(s: P.Sys, w: P.SstWrite)
    ensures var u := P.FlushStep(s, w);
            && (s.pc.Claiming? ==>
                  && u.t == G.Claim(s.t) && u.ssts == s.ssts && !u.pc.Written? && !u.pc.Accounted? && !u.pc.Releasing?)
            && (s.pc.Releasing? ==>
                  && u.t == G.Free(s.t, s.pc.victim) && u.ssts == s.ssts && u.pc.Claiming?)
            && (s.pc.Published? || (s.pc.Accounted? && s.pc.result.outcome == NoData) ==>
                  && u.t == G.ClearFlushing(s.t) && u.ssts == s.ssts && u.pc == P.Releasing(s.pc.victim))
            && (s.pc.Accounted? && s.pc.result.outcome == Success ==>
                  && u.t == s.t && u.pc == P.Published(s.pc.victim))
            && (s.pc.Accounted? && s.pc.result.outcome != NoData && s.pc.result.outcome != Success ==>
                  && u.t == s.t && u.ssts == s.ssts && u.pc == P.Clearing(true))
            && (s.pc.Written? ==>
                  && u.t == s.t && u.ssts == s.ssts && u.pc.Accounted?
                  && u.pc.result == s.pc.result && u.pc.start == s.pc.start && u.pc.seqNo == s.pc.seqNo
                  && u.pc.entries == s.pc.entries)
            && (!s.pc.Claiming? && !s.pc.Releasing? && !s.pc.Published? && !s.pc.Accounted? && !s.pc.Written?
                && !s.pc.Writing? ==>
                  && u.t == s.t && u.ssts == s.ssts && !u.pc.Written? && !u.pc.Accounted? && !u.pc.Releasing?)
  {
    hide G.Claim, G.Free, G.ClearFlushing, P.SstWriteAllowed, G.Table;
  }

  lemma MatchesIs(d: Store)
    requires d.Owns()
    ensures d.Matches() <==>
            && d.slots.Valid() && d.slots.names == d.sys.t && d.slots.detached == P.Detached(d.sys.pc)
            && P.Inv(d.sys) && P.SeqBehind(d.sys) && d.sys.metaEnd == d.meta.end && d.sys.threshold == d.threshold
  {
  }

  lemma OnMediaIs(d: Store)
    requires d.Owns()
    ensures d.OnMedia() <==>
            && Listed(d.step, d.ssts, d.tables) && OnDisk(d.meta.content, d.meta.wp, d.step, d.sys.ssts, d.tables)
            && Pending(d.meta.content, d.meta.wp, d.step, d.sys, d.pending, d.pendingEntries)
  {
  }

  lemma InitialFields(threshold: nat, ssts: seq<P.Sst>, metaWp: nat, metaEnd: nat, nextSeq: nat)
    ensures var s := P.Initial(threshold, ssts, metaWp, metaEnd, nextSeq);
            && P.Detached(s.pc) == None && s.t == G.FirstTables() && s.ssts == ssts
            && s.io == P.Ready && s.metaEnd == metaEnd && s.pc == P.Idle && P.LogEnd(s) == metaWp
            && s.nextSeq == nextSeq && P.Reach(s) == metaWp && P.Roomy(s, metaWp) && s.threshold == threshold
  {
  }

  lemma InitialUndisturbed(threshold: nat, ssts: seq<P.Sst>, first: nat, metaWp: nat, metaEnd: nat, nextSeq: nat)
    requires P.Gapless(ssts, first, metaWp) && metaWp <= metaEnd
    ensures Undisturbed(P.Initial(threshold, ssts, metaWp, metaEnd, nextSeq), first, metaWp, metaWp)
  {
  }
}
