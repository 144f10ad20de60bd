/** The LSM engine: overwritable blocks on append-only zones, with garbage collection, as the ordered I/O worker runs
    it. */
module Engines {
  import opened Prelude
  import opened Zones
  import opened Allocators
  import opened Hosts
  import opened GcIndexes
  import opened GcPolicies
  import opened EngineState
  import opened Space
  import opened Stores
  import M = MemTables
  import P = FlushProtocol

  /** The observable state of an engine: block contents, whether writes are stopped, whether the zones are equal,
      failures so far, free ordinary blocks, blocks moved by collection, insertions into the mapping store, and the
      number of data zones. */
  datatype Observation = Observation(
    acked: map<nat, Block>, stopped: bool, even: bool, faults: nat, free: nat, moved: nat, puts: nat, n: nat)

  /** What one block write does to an observation. */
  ghost predicate WriteStep(policy: Policy, c: nat, s: Observation, s': Observation, r: Errno) {
    && s'.n == s.n > 0 && s'.faults >= s.faults && s'.moved >= s.moved
    && s'.puts == s.puts + (s'.moved - s.moved) + (if r == Success then 1 else 0)
    && (!s.stopped && s'.faults == s.faults ==> !s'.stopped && (r == Success || r == NoSpace))
    && (!s.stopped && s.even && r == Success ==>
          s'.even && !s'.stopped && Charged(policy, s.n, c, |s.acked|, s.free, s'.free, s'.moved - s.moved))
    && (!s.stopped && s.even && s'.faults == s.faults ==>
          && !s'.stopped && s'.even
          && (r == Success <==> |s.acked| < Limit(s.n, c))
          && (r != Success ==> r == NoSpace && s'.free == s.free && s'.moved == s.moved))
  }

  class Engine {
    const host: Host
    const alloc: Allocator
    const index: GcIndex
    const policy: Policy
    /** The number of blocks in a data zone, where the zones are equal. */
    ghost const perZone: nat
    const store: Store
    var writesStopped: bool
    var gcRuns: nat
    var gcMoved: nat
    var gcResets: nat
    /** The contents of every block as of the last write to it that was acknowledged. */
    ghost var acked: map<nat, Block>

    /** What holds between any two steps of the I/O worker, also while a collection is under way and after failures. */
    ghost predicate Core()
      reads this, host, alloc, index, store, store.Repr
    {
      && alloc.Valid() && alloc.spb == BLOCK_SECTORS && alloc.reserve < |alloc.zones|
      && Layout(alloc.zones, host.zones)
      && Consistent(alloc.zones, index.Value())
      && store.Valid() && store.sys.io == P.Ready && store.View() == index.latest
      && this !in store.Repr && host !in store.Repr && alloc !in store.Repr && index !in store.Repr
      && (forall b | b in index.latest :: b < U64)
      && Stored(index.latest, host.content, acked)
      && host.disciplined
    }

    /** What holds between user requests: unless writes are stopped, allocator and device agree and the reserve is
        empty. */
    ghost predicate Valid()
      reads this, host, alloc, index, store, store.Repr
    {
      && Core()
      && (!writesStopped ==>
            AllInStep(alloc.zones, host.zones) && EmptyZone(alloc.zones[alloc.reserve], BLOCK_SECTORS))
    }

    constructor (host: Host, alloc: Allocator, index: GcIndex, policy: Policy, store: Store,
                 ghost acked: map<nat, Block>, ghost perZone: nat)
      ensures this.host == host && this.alloc == alloc && this.index == index && this.policy == policy
      ensures this.store == store && this.acked == acked && this.perZone == perZone && !writesStopped
      ensures gcRuns == gcMoved == gcResets == 0
    {
      this.host, this.alloc, this.index, this.policy, this.store, this.acked := host, alloc, index, policy, store,
        acked;
      this.perZone := perZone;
      writesStopped, gcRuns, gcMoved, gcResets := false, 0, 0, 0;
    }

    /** zns_lsm_read: MemTables under one lock, then SSTables under another, with the flush worker running in
        between. */
    method Lookup(b: nat) returns (r: Result<nat>)
      requires Core()
      modifies store.Repr, host`faults
      ensures Core() && fresh(store.Repr - old(store.Repr)) && store.puts == old(store.puts)
      ensures host.faults >= old(host.faults)
      ensures r.Ok? ==> b in index.latest && r.value == index.latest[b]
      ensures r == Err(NoData) ==> b !in index.latest
      ensures r.Err? && r.error != NoData ==> host.faults > old(host.faults) && r.error != Success
    {
      hide Store.Valid, Store.View, Layout, Consistent, Stored;
      r := store.Lookup(b);
      if r.Err? && r.error != NoData {
        host.faults := host.faults + 1;
      }
    }

    /** zns_lsm_publish_write: reserve index storage, publish the mapping, then move validity in the GC index. */
    method PublishWrite(b: u64, p: nat) returns (r: Errno)
      requires Core() && Unowned(alloc.zones, index.Value(), p) && p in host.content
      modifies store.Repr, this`writesStopped, this`acked, index, host`faults
      ensures Core() && writesStopped == old(writesStopped) && fresh(store.Repr - old(store.Repr))
      ensures host.faults >= old(host.faults)
      ensures r == Success ==>
                && acked == old(acked)[b := host.content[p]] && store.puts == old(store.puts) + 1
                && IsMove(alloc.zones, old(index.Value()), b, p, index.Value())
                && index.latest == old(index.latest)[b := p]
      ensures r != Success ==>
                && acked == old(acked) && store.puts == old(store.puts)
                && index.Value() == old(index.Value()) && host.faults > old(host.faults)
    {
      hide Store.Valid, Store.View, Layout, Consistent, Stored, IsMove, Unowned, MoveAllowed, M.Maintained,
           M.MemTable.Contents;
      var reserved := host.Allocate();
      if !reserved {
        return NoMem;
      }
      UnownedFits(alloc.zones, index.Value(), p);
      ghost var failed;
      r, failed := store.Insert(b, p);
      if r != Success {
        host.faults := host.faults + 1;
        return r;
      }
      assert Disjoint(alloc.zones) by { LayoutDisjoint(alloc.zones, host.zones); }
      MoveAllowedIffUnowned(alloc.zones, index.Value(), b, p);
      r := index.UpdateLocation(alloc.zones, b, p);
      writesStopped := writesStopped || r != Success;
      if r != Success {
        return r;
      }
      StoredAfterMove(old(index.latest), host.content, acked, b, p);
      acked := acked[b := host.content[p]];
      store.MaybeQueueFlush();
    }

    /** zns_lsm_gc_validate_victim. */
    method ValidateVictim(id: nat) returns (r: Errno)
      requires Core()
      ensures r == Success <==>
              && id < |alloc.zones| && id != alloc.reserve && Resettable(alloc.zones[id])
              && index.nrValid[id] <= FreeBlocks(alloc.zones[alloc.reserve])
      ensures r != Success ==> r == Invalid || r == NoSpace
    {
      RevealShape(alloc.zones, index.Value());
      if id >= |alloc.zones| || id == alloc.reserve || alloc.reserve >= |alloc.zones| {
        return Invalid;
      }
      if !Resettable(alloc.zones[id]) {
        return Invalid;
      }
      if index.nrValid[id] > FreeBlocks(alloc.zones[alloc.reserve]) {
        return NoSpace;
      }
      return Success;
    }

    /** One append to zone i, just allocated at sector p: the device sees it at its write pointer. */
    method Submit(ghost zones: seq<Zone>, ghost i: nat, p: nat, data: Block) returns (ok: bool)
      requires Layout(zones, host.zones) && AllInStep(zones, host.zones) && host.disciplined
      requires i < |zones| && CanAppend(zones[i], BLOCK_SECTORS) && p == zones[i].wp
      requires Disjoint(zones) && Consistent(zones, index.Value()) && Stored(index.latest, host.content, acked)
      modifies host
      ensures host.disciplined && host.faults >= old(host.faults)
      ensures Stored(index.latest, host.content, acked) && Layout(Advanced(zones, i), host.zones)
      ensures Consistent(Advanced(zones, i), index.Value()) && Unowned(Advanced(zones, i), index.Value(), p)
      ensures ok ==>
                && AllInStep(Advanced(zones, i), host.zones)
                && p in host.content && host.content[p] == data
                && forall q | q in old(host.content) && q != p ::
                     q in host.content && host.content[q] == old(host.content)[q]
      ensures !ok ==>
                host.faults > old(host.faults) && OnlyZoneOf(old(host.zones), p, host.zones)
                  && ZoneOf(old(host.zones), p) == Some(i)
    {
      hide Layout, AllInStep, Consistent, Stored, Unowned, OnlyZoneOf;
      DeviceAcceptsNext(zones, host.zones, i);
      InStepAfterWrite(zones, host.zones, i);
      AllocatedFacts(zones, host.zones, index.Value(), i);
      StoredAfterWrite(zones, index.Value(), host.content, acked, i, data);
      ok := host.WriteBlock(p, data);
      LayoutAfterAdvance(zones, old(host.zones), host.zones, i);
      if !ok {
        StoredAfterFailedWrite(zones, old(host.zones), index.Value(), old(host.content), host.content, acked, i);
      }
    }

    /** zns_lsm_gc_relocate_block: copy one live block to the reserve and publish it there only after the write
        completed. */
    method RelocateBlock(b: u64, source: nat) returns (r: Errno)
      requires Core() && AllInStep(alloc.zones, host.zones)
      requires b in index.latest && index.latest[b] == source
      modifies store.Repr, this`writesStopped, this`acked, this`gcMoved, index, host, alloc`zones
      ensures fresh(store.Repr - old(store.Repr)) && store.puts - old(store.puts) == gcMoved - old(gcMoved)
      ensures Core() && acked == old(acked) && writesStopped == old(writesStopped)
      ensures alloc.reserve == old(alloc.reserve) && |alloc.zones| == |old(alloc.zones)|
      ensures host.faults >= old(host.faults)
      ensures r == Success ==>
                && AllInStep(alloc.zones, host.zones) && gcMoved == old(gcMoved) + 1
                && CanAppend(old(alloc.zones)[alloc.reserve], BLOCK_SECTORS)
                && alloc.zones == Advanced(old(alloc.zones), alloc.reserve)
                && index.latest == old(index.latest)[b := old(alloc.zones)[alloc.reserve].wp]
                && IsMove(alloc.zones, old(index.Value()), b, old(alloc.zones)[alloc.reserve].wp, index.Value())
      ensures r != Success ==> gcMoved == old(gcMoved) && OnlyFilled(old(alloc.zones), alloc.zones, alloc.reserve)
      ensures r != Success ==>
                host.faults > old(host.faults) || !CanAppend(old(alloc.zones)[alloc.reserve], BLOCK_SECTORS)
    {
      hide Store.Valid, Store.View, Layout, AllInStep, Consistent, Stored, Unowned, IsMove, OnlyZoneOf;
      StoredCopy(index.latest, host.content, acked, b);
      var block := host.ReadBlock(source);
      if block.Err? {
        return block.error;
      }
      LayoutDisjoint(alloc.zones, host.zones);
      var destination := alloc.AllocGc();
      if destination.Err? {
        return destination.error;
      }
      var p := destination.value;
      var ok := Submit(old(alloc.zones), alloc.reserve, p, block.value);
      if !ok {
        return IoError;
      }
      r := PublishWrite(b, p);
      if r != Success {
        return r;
      }
      SameContents(old(acked), acked, b, block.value);
      gcMoved := gcMoved + 1;
    }

    /** One iteration of the slot loop of zns_lsm_gc_clean. */
    method CleanSlot(id: nat, slot: nat) returns (r: Errno)
      requires Core() && AllInStep(alloc.zones, host.zones)
      requires id < |alloc.zones| && id != alloc.reserve && |index.reverse| == |alloc.zones|
      requires slot < |index.reverse[id]|
      modifies store.Repr, this`writesStopped, this`acked, this`gcMoved, index, host, alloc`zones
      ensures fresh(store.Repr - old(store.Repr)) && store.puts - old(store.puts) == gcMoved - old(gcMoved)
      ensures Core() && acked == old(acked) && writesStopped == old(writesStopped)
      ensures alloc.reserve == old(alloc.reserve) && |alloc.zones| == |old(alloc.zones)|
      ensures host.faults >= old(host.faults)
      ensures r == Success ==> AllInStep(alloc.zones, host.zones)
      ensures r == Success && old(index.reverse)[id][slot] == 0 ==>
                alloc.zones == old(alloc.zones) && index.Value() == old(index.Value()) && gcMoved == old(gcMoved)
      ensures r == Success && old(index.reverse)[id][slot] != 0 ==>
                && alloc.zones == Advanced(old(alloc.zones), alloc.reserve) && gcMoved == old(gcMoved) + 1
                && SlotMoved(old(alloc.zones), old(index.Value()), index.Value(), Slot(id, slot),
                             old(index.reverse)[id][slot] - 1,
                             alloc.reserve, old(alloc.zones)[alloc.reserve].wp)
      ensures r != Success ==> OnlyFilled(old(alloc.zones), alloc.zones, alloc.reserve)
      ensures r != Success ==>
                old(index.reverse)[id][slot] != 0 && gcMoved == old(gcMoved) &&
                (host.faults > old(host.faults) || !CanAppend(old(alloc.zones)[alloc.reserve], BLOCK_SECTORS))
    {
      hide Store.Valid, Store.View, Layout, AllInStep, Consistent, Stored, IsMove, SlotMoved, SlotAt;
      if index.reverse[id][slot] == 0 {
        return Success;
      }
      LayoutDisjoint(alloc.zones, host.zones);
      OccupiedSlot(alloc.zones, index.Value(), Slot(id, slot), index.reverse[id][slot] - 1);
      var b := index.reverse[id][slot] - 1;
      var source := alloc.zones[id].start + slot * BLOCK_SECTORS;
      r := RelocateBlock(b, source);
      if r == Success {
        SlotsAfterAdvance(old(alloc.zones), old(host.zones), old(index.Value()), Slot(id, slot), b, alloc.reserve);
        MoveFromSlot(old(alloc.zones), old(index.Value()), index.Value(), Slot(id, slot), b, alloc.reserve);
      }
    }

    /** zns_lsm_gc_clean: move every live block of zone id to the reserve, reset the zone and make it the new reserve.
        Any failure after the first move stops writes; what was moved stays moved, and no block's contents change. */
    method GcClean(id: nat) returns (r: Errno)
      requires Valid() && !writesStopped && (id < |alloc.zones| ==> 0 < Slots(alloc.zones[id]))
      modifies this, index, host, alloc, store.Repr
      ensures fresh(store.Repr - old(store.Repr)) && store.puts - old(store.puts) == gcMoved - old(gcMoved)
      ensures Valid() && acked == old(acked) && host.faults >= old(host.faults)
      ensures |alloc.zones| == |old(alloc.zones)| && gcMoved >= old(gcMoved)
      ensures r == Success ==>
                && !writesStopped && alloc.reserve == id
                && Collected(old(alloc.zones), old(index.Value()), alloc.zones, index.Value(), id, old(alloc.reserve))
                && gcMoved == old(gcMoved) + old(index.nrValid)[id] && gcRuns == old(gcRuns) + 1
                && gcResets == old(gcResets) + 1
      ensures r != Success && host.faults == old(host.faults) ==>
                && (id < |old(alloc.zones)| && id != old(alloc.reserve) && Resettable(old(alloc.zones)[id]) ==>
                      old(index.nrValid)[id] > FreeBlocks(old(alloc.zones)[old(alloc.reserve)]))
                && !writesStopped && unchanged(alloc) && unchanged(index) && unchanged(host)
                && gcMoved == old(gcMoved) && gcRuns == old(gcRuns)
      ensures r != Success ==>
                alloc.reserve == old(alloc.reserve) && OnlyFilled(old(alloc.zones), alloc.zones, alloc.reserve)
      ensures r != Success ==>
                gcRuns == old(gcRuns) &&
                (writesStopped || (alloc.zones == old(alloc.zones) && index.Value() == old(index.Value())
                                   && host.zones == old(host.zones)
                                   && host.content == old(host.content) && gcMoved == old(gcMoved)))
    {
      hide Store.Valid, Store.View, Layout, AllInStep, Consistent, Stored, SlotMoved, Collecting, Collected;
      RevealShape(alloc.zones, index.Value());
      r := ValidateVictim(id);
      if r != Success {
        return r;
      }
      var bufferOk := host.Allocate();
      if !bufferOk {
        return NoMem;
      }
      r := MoveAndReset(id);
      if r != Success {
        writesStopped := true;
      } else {
        gcRuns := gcRuns + 1;
      }
    }

    /** The part of zns_lsm_gc_clean between the allocation of its buffer and the accounting of the outcome. */
    method MoveAndReset(id: nat) returns (r: Errno)
      requires Core() && !writesStopped && AllInStep(alloc.zones, host.zones)
      requires EmptyZone(alloc.zones[alloc.reserve], BLOCK_SECTORS)
      requires id < |alloc.zones| && id != alloc.reserve && id < |index.nrValid| && 0 < Slots(alloc.zones[id])
      requires index.nrValid[id] <= FreeBlocks(alloc.zones[alloc.reserve]) && Resettable(alloc.zones[id])
      modifies store.Repr, this`writesStopped, this`acked, this`gcMoved, this`gcResets, index, host, alloc`zones,
        alloc`reserve
      ensures fresh(store.Repr - old(store.Repr)) && store.puts - old(store.puts) == gcMoved - old(gcMoved)
      ensures Core() && !writesStopped && acked == old(acked) && host.faults >= old(host.faults)
      ensures |alloc.zones| == |old(alloc.zones)| && gcMoved >= old(gcMoved)
      ensures r == Success ==>
                && AllInStep(alloc.zones, host.zones) && EmptyZone(alloc.zones[alloc.reserve], BLOCK_SECTORS)
                && alloc.reserve == id
                && Collected(old(alloc.zones), old(index.Value()), alloc.zones, index.Value(), id, old(alloc.reserve))
                && gcMoved == old(gcMoved) + old(index.nrValid)[id] && gcResets == old(gcResets) + 1
      ensures r != Success ==>
                && host.faults > old(host.faults) && alloc.reserve == old(alloc.reserve)
                && OnlyFilled(old(alloc.zones), alloc.zones, alloc.reserve)
    {
      hide Store.Valid, Store.View, Layout, AllInStep, Consistent, Stored, Collecting, Collected, OnlyFilled;
      assert this !in store.Repr;
      hide Core;
      r := MoveLiveBlocks(id);
      if r == Success {
        CollectingVictim(old(alloc.zones), old(index.Value()), alloc.zones, index.Value(), id, alloc.reserve,
                         gcMoved - old(gcMoved));
        r := ResetVictim(id, old(alloc.zones), old(index.Value()), old(alloc.reserve), gcMoved - old(gcMoved));
      }
    }

    /** The slot loop of zns_lsm_gc_clean. */
    method MoveLiveBlocks(id: nat) returns (r: Errno)
      requires Core() && !writesStopped && AllInStep(alloc.zones, host.zones)
      requires EmptyZone(alloc.zones[alloc.reserve], BLOCK_SECTORS)
      requires id < |alloc.zones| && id != alloc.reserve && id < |index.nrValid|
      requires index.nrValid[id] <= FreeBlocks(alloc.zones[alloc.reserve])
      modifies store.Repr, this`writesStopped, this`acked, this`gcMoved, index, host, alloc`zones
      ensures fresh(store.Repr - old(store.Repr)) && store.puts - old(store.puts) == gcMoved - old(gcMoved)
      ensures Core() && !writesStopped && acked == old(acked)
      ensures alloc.reserve == old(alloc.reserve) && |alloc.zones| == |old(alloc.zones)|
      ensures host.faults >= old(host.faults) && gcMoved >= old(gcMoved)
      ensures r == Success ==>
                && AllInStep(alloc.zones, host.zones)
                && id < |index.nrValid| && index.nrValid[id] == 0
                && Collecting(old(alloc.zones), old(index.Value()), alloc.zones, index.Value(), id, alloc.reserve,
                              gcMoved - old(gcMoved))
      ensures r != Success ==>
                host.faults > old(host.faults) && OnlyFilled(old(alloc.zones), alloc.zones, alloc.reserve)
    {
      hide Store.Valid, Store.View, Layout, AllInStep, Consistent, Stored, SlotMoved, Collecting, OnlyFilled;
      CollectingStart(alloc.zones, index.Value(), id, alloc.reserve);
      var slot := 0;
      while slot < |index.reverse[id]|
        invariant Core() && !writesStopped && acked == old(acked) && alloc.reserve == old(alloc.reserve)
        invariant fresh(store.Repr - old(store.Repr)) && store.puts - old(store.puts) == gcMoved - old(gcMoved)
        invariant AllInStep(alloc.zones, host.zones)
        invariant host.faults >= old(host.faults) && gcMoved >= old(gcMoved)
        invariant |index.reverse| == |alloc.zones| == |old(alloc.zones)| && slot <= |index.reverse[id]|
        invariant Collecting(old(alloc.zones), old(index.Value()), alloc.zones, index.Value(), id, alloc.reserve,
                             gcMoved - old(gcMoved))
        invariant forall t | 0 <= t < slot :: index.reverse[id][t] == 0
        decreases |index.reverse[id]| - slot
      {
        r := CollectSlot(id, slot, old(alloc.zones), old(index.Value()), gcMoved - old(gcMoved));
        if r != Success {
          return r;
        }
        slot := slot + 1;
      }
      SweptZone(alloc.zones, index.Value(), id);
      r := Success;
    }

    /** One iteration of the slot loop, as a step of the collection that began at (zones0, x0). */
    method CollectSlot(id: nat, slot: nat, ghost zones0: seq<Zone>, ghost x0: Index, ghost moved: nat)
      returns (r: Errno)
      requires Core() && !writesStopped && AllInStep(alloc.zones, host.zones)
      requires id < |alloc.zones| && id != alloc.reserve && |index.reverse| == |alloc.zones|
      requires slot < |index.reverse[id]|
      requires Collecting(zones0, x0, alloc.zones, index.Value(), id, alloc.reserve, moved)
      requires alloc.reserve < |zones0| && EmptyZone(zones0[alloc.reserve], BLOCK_SECTORS)
      requires id < |x0.nrValid| && x0.nrValid[id] <= FreeBlocks(zones0[alloc.reserve])
      modifies store.Repr, this`writesStopped, this`acked, this`gcMoved, index, host, alloc`zones
      ensures fresh(store.Repr - old(store.Repr)) && store.puts - old(store.puts) == gcMoved - old(gcMoved)
      ensures Core() && !writesStopped && acked == old(acked)
      ensures alloc.reserve == old(alloc.reserve) && |alloc.zones| == |old(alloc.zones)|
      ensures host.faults >= old(host.faults) && gcMoved >= old(gcMoved)
      ensures r == Success ==>
                && AllInStep(alloc.zones, host.zones)
                && |index.reverse| == |alloc.zones| == |old(alloc.zones)|
                && index.reverse[id] == old(index.reverse)[id][slot := 0]
                && Collecting(zones0, x0, alloc.zones, index.Value(), id, alloc.reserve,
                              moved + (gcMoved - old(gcMoved)))
      ensures r != Success ==> host.faults > old(host.faults) && OnlyFilled(zones0, alloc.zones, alloc.reserve)
    {
      hide Store.Valid, Store.View, Layout, AllInStep, Consistent, Stored, SlotMoved, Collecting, OnlyFilled;
      ghost var x, zones := index.Value(), alloc.zones;
      ghost var occupied := x.reverse[id][slot] != 0;
      LayoutDisjoint(alloc.zones, host.zones);
      if occupied {
        OccupiedSlot(zones, x, Slot(id, slot), x.reverse[id][slot] - 1);
        ReserveHasRoom(zones0, x0, zones, x, id, alloc.reserve, moved);
      }
      r := CleanSlot(id, slot);
      if r != Success {
        CollectingFilled(zones0, x0, zones, x, id, alloc.reserve, moved, alloc.zones);
      }
      if r == Success && occupied {
        SlotMovedRow(zones, x, index.Value(), Slot(id, slot), x.reverse[id][slot] - 1, alloc.reserve,
                     zones[alloc.reserve].wp);
        CollectingStep(zones0, x0, zones, x, index.Value(), Slot(id, slot), x.reverse[id][slot] - 1, alloc.reserve,
                       moved);
      }
    }

    /** The tail of zns_lsm_gc_clean: reset only a zone without live blocks, then rotate the reserve. */
    method ResetVictim(id: nat, ghost zones0: seq<Zone>, ghost x0: Index, ghost r0: nat, ghost moved: nat)
      returns (r: Errno)
      requires Core() && AllInStep(alloc.zones, host.zones) && alloc.reserve == r0
      requires id < |alloc.zones| && id != alloc.reserve && 0 < Slots(alloc.zones[id])
      requires id < |index.nrValid| && index.nrValid[id] == 0
      requires Collecting(zones0, x0, alloc.zones, index.Value(), id, r0, moved)
      requires Resettable(alloc.zones[id])
      modifies this`gcResets, host, alloc`zones, alloc`reserve
      ensures Core() && host.faults >= old(host.faults) && |alloc.zones| == |old(alloc.zones)|
      ensures r == Success ==>
                && AllInStep(alloc.zones, host.zones) && EmptyZone(alloc.zones[id], BLOCK_SECTORS)
                && alloc.reserve == id
                && Collected(zones0, x0, alloc.zones, index.Value(), id, r0) && moved == x0.nrValid[id]
                && gcResets == old(gcResets) + 1
      ensures r != Success ==>
                host.faults > old(host.faults) && alloc.reserve == r0 && OnlyFilled(zones0, alloc.zones, r0)
    {
      hide Store.Valid, Store.View, Layout, AllInStep, Consistent, Stored, Collecting, Collected, OnlyZoneOf,
           InSameZone;
      LayoutDisjoint(alloc.zones, host.zones);
      if index.nrValid[id] != 0 {
        return Invalid;
      }
      InStepAt(alloc.zones, host.zones, id);
      ResetKeepsIndex(alloc.zones, index.Value(), id);
      InStepAfterReset(alloc.zones, host.zones, id);
      CollectingDone(zones0, x0, alloc.zones, index.Value(), id, r0, moved);
      VictimAddress(alloc.zones, host.zones, id);
      CollectingFilled(zones0, x0, alloc.zones, index.Value(), id, r0, moved, alloc.zones);
      var ok := host.ResetZone(alloc.zones[id].start);
      StoredAfterReset(alloc.zones, old(host.zones), index.Value(), old(host.content), host.content, acked, id);
      if !ok {
        LayoutAfterDeviceChange(alloc.zones, old(host.zones), host.zones);
        return IoError;
      }
      gcResets := gcResets + 1;
      DeviceAfterReset(old(host.zones), host.zones, alloc.zones[id].start, id);
      r := alloc.SetReserveAfterReset(id);
    }

    /** zns_lsm_run_gc_if_needed: collect one zone when no ordinary zone can take a block. */
    method RunGcIfNeeded() returns (r: Errno, ghost victim: Option<nat>)
      requires Valid() && !writesStopped
      modifies this, index, host, alloc, store.Repr
      ensures fresh(store.Repr - old(store.Repr)) && store.puts - old(store.puts) == gcMoved - old(gcMoved)
      ensures Valid() && acked == old(acked) && host.faults >= old(host.faults)
      ensures |alloc.zones| == |old(alloc.zones)| && gcMoved >= old(gcMoved)
      ensures r == Success ==> !writesStopped
      ensures r == Success ==>
                && Prepared(policy, old(DiskState()), DiskState(), victim)
                && gcMoved == old(gcMoved) + MovedBy(old(index.nrValid), victim)
                && gcRuns == old(gcRuns) + if victim.Some? then 1 else 0
      ensures r != Success ==> Aborted(old(DiskState()), DiskState()) && gcRuns == old(gcRuns)
      ensures r != Success && host.faults == old(host.faults) ==>
                && r == NoSpace && !writesStopped && Stuck(old(DiskState()))
                && unchanged(alloc) && unchanged(index) && unchanged(host) && gcMoved == old(gcMoved)
                && gcRuns == old(gcRuns)
    {
      hide Store.Valid, Store.View, Layout, AllInStep, Consistent, Stored, Collected, Ordinary, Eligible;
      victim := None;
      RevealShape(alloc.zones, index.Value());
      if alloc.reserve >= |alloc.zones| {
        return Invalid, victim;
      }
      var hasWriteSpace := alloc.HasSpace();
      if hasWriteSpace {
        return Success, victim;
      }
      var reserveFree := FreeBlocks(alloc.zones[alloc.reserve]);
      var chosen;
      match policy {
        case Greedy =>
          SlotsBounded(alloc.zones);
          chosen := SelectGreedy(alloc.zones, alloc.reserve, index.nrValid, reserveFree);
        case Simple =>
          chosen := SelectSimple(alloc.zones, alloc.reserve, index.nrValid, reserveFree);
      }
      if chosen.Err? {
        return chosen.error, victim;
      }
      EligibleFacts(alloc.zones, alloc.reserve, index.nrValid, chosen.value, reserveFree);
      victim := Some(chosen.value);
      r := GcClean(chosen.value);
    }

    /** The failure branch of zns_lsm_append_write: stop writes, and enable them again only if the device's report
        shows that the failed write consumed at most its own block. The failed write is never published. */
    method RecoverFailedWrite(p: nat, ghost zones0: seq<Zone>, ghost device0: seq<Zone>, ghost i: nat)
      requires Core() && EmptyZone(alloc.zones[alloc.reserve], BLOCK_SECTORS)
      requires Layout(zones0, device0) && AllInStep(zones0, device0)
      requires i < |zones0| && i != alloc.reserve && CanAppend(zones0[i], BLOCK_SECTORS) && p == zones0[i].wp
      requires alloc.zones == Advanced(zones0, i) && Consistent(zones0, index.Value())
      requires OnlyZoneOf(device0, p, host.zones) && ZoneOf(device0, p) == Some(i)
      modifies this`writesStopped, host`faults, alloc
      ensures Valid() && host.faults >= old(host.faults) && alloc.reserve == old(alloc.reserve)
      ensures |alloc.zones| == |old(alloc.zones)|
      ensures |host.zones| == |zones0|
      ensures !writesStopped ==>
                !Damaged(old(alloc.zones)[i], host.zones[i]) && alloc.zones[i].wp == host.zones[i].wp
      ensures writesStopped && host.faults == old(host.faults) ==>
                Damaged(old(alloc.zones)[i], host.zones[i]) && alloc.zones == old(alloc.zones)
    {
      hide Store.Valid, Store.View, Layout, AllInStep, Consistent, Stored, OnlyZoneOf, Recoverable, Damaged;
      writesStopped := true;
      FailedZone(zones0, device0, host.zones, i);
      LayoutDisjoint(zones0, device0);
      LayoutDisjoint(alloc.zones, host.zones);
      var report := host.Report(p);
      if report.Err? {
        return;
      }
      ReportedZone(device0, host.zones, p, i);
      StartOf(alloc.zones, host.zones, i);
      var recovered, id := alloc.Resync(p, report.value);
      if recovered == Success {
        SameStart(old(alloc.zones), i, id);
        ResyncInStep(zones0, device0, host.zones, i, alloc.zones);
        ResyncKeepsIndex(zones0, alloc.zones, index.Value(), i, alloc.zones[i].wp);
        writesStopped := false;
      }
    }

    /** The part of zns_lsm_append_write after collection: allocate, write, and publish only after the write
        completed. */
    method AppendOrdinary(b: u64, data: Block) returns (r: Errno, ghost i: nat)
      requires Valid() && !writesStopped
      modifies this, index, host, alloc, store.Repr
      ensures fresh(store.Repr - old(store.Repr)) && store.puts == old(store.puts) + if r == Success then 1 else 0
      ensures Valid() && host.faults >= old(host.faults) && alloc.reserve == old(alloc.reserve)
      ensures |alloc.zones| == |old(alloc.zones)|
      ensures acked == if r == Success then old(acked)[b := data] else old(acked)
      ensures gcMoved == old(gcMoved) && gcRuns == old(gcRuns)
      ensures r == Success ==>
                && !writesStopped
                && PlacedAt(old(DiskState()), b, DiskState(), i)
      ensures r != Success && host.faults == old(host.faults) ==>
                && r == NoSpace && !writesStopped
                && (forall k :: !Ordinary(alloc.zones, alloc.reserve, BLOCK_SECTORS, k))
                && alloc.zones == old(alloc.zones) && index.Value() == old(index.Value())
      ensures writesStopped && host.faults <= old(host.faults) + 1 ==>
                StoppedAt(old(alloc.zones), alloc.zones, host.zones, false, i)
    {
      hide Store.Valid, Store.View, Layout, AllInStep, Consistent, Stored, OnlyZoneOf, Unowned, IsMove;
      var p;
      p, i := alloc.Alloc();
      if p.Err? {
        return p.error, i;
      }
      LayoutDisjoint(old(alloc.zones), host.zones);
      TakenFirst(old(alloc.zones), alloc.reserve, old(alloc.active), i);
      ghost var device0 := host.zones;
      var ok := Submit(old(alloc.zones), i, p.value, data);
      if !ok {
        RecoverFailedWrite(p.value, old(alloc.zones), device0, i);
        return IoError, i;
      }
      r := PublishWrite(b, p.value);
    }

    /** Every data zone has perZone blocks and can be reset. */
    ghost predicate EvenZones()
      reads this, alloc
    {
      Uniform(alloc.zones, perZone)
    }

    /** What decides the fate of the next write. */
    ghost function DiskState(): Disk
      reads alloc, index
    {
      Disk(alloc.zones, alloc.active, alloc.reserve, index.Value())
    }

    ghost function Free(): nat
      reads this, alloc
    {
      OrdinaryFree(alloc.zones, alloc.reserve)
    }

    /** What a run of requests can tell about the engine. */
    ghost function Observe(): Observation
      reads this, host, alloc, store
    {
      Observation(acked, writesStopped, EvenZones(), host.faults, Free(), gcMoved, store.puts, |alloc.zones|)
    }

    /** zns_lsm_append_write: append the block, collecting garbage first if no ordinary zone can take it. On even zones
        and without failures the write succeeds exactly while some slot outside the reserve is not live. */
    method AppendWrite(b: u64, data: Block) returns (r: Errno)
      requires Valid()
      modifies this, index, host, alloc, store.Repr
      ensures fresh(store.Repr - old(store.Repr))
      ensures Valid()
      ensures acked == if r == Success then old(acked)[b := data] else old(acked)
      ensures old(writesStopped) ==> r == IoError && writesStopped
      ensures WriteStep(policy, perZone, old(Observe()), Observe(), r)
      ensures !old(writesStopped) && r != Success && gcRuns == old(gcRuns)
              && (forall i :: !Ordinary(old(alloc.zones), old(alloc.reserve), BLOCK_SECTORS, i)) ==>
                Aborted(old(DiskState()), DiskState())
      ensures !old(writesStopped) && writesStopped && host.faults <= old(host.faults) + 1
              && (gcRuns > old(gcRuns)
                  || exists k :: Ordinary(old(alloc.zones), old(alloc.reserve), BLOCK_SECTORS, k)) ==>
                SomeZoneDamaged(old(alloc.zones), alloc.zones, host.zones, gcRuns > old(gcRuns))
      ensures !old(writesStopped) && host.faults <= old(host.faults) + 1 && Regular(old(host.zones))
              && AtMostOneWritten(old(host.zones), host.zones)
              && (exists k :: Ordinary(old(alloc.zones), old(alloc.reserve), BLOCK_SECTORS, k)) ==>
                !writesStopped
      ensures !old(writesStopped) && host.faults == old(host.faults) ==>
                WriteOutcome(policy, old(DiskState()), b, DiskState(), r)
      ensures !old(writesStopped) && host.faults == old(host.faults) && r != Success && old(Stuck(DiskState())) ==>
                host.zones == old(host.zones) && host.content == old(host.content)
    {
      hide Store.Valid, Store.View, Layout, AllInStep, Consistent, Stored, Collected, Ordinary, Eligible, Chosen,
           Charged, Uniform, OrdinaryFree, Limit, WriteFits, Stuck, PlacedAt, WriteOutcome, SameLayout, Prepared,
           MovedBy, Aborted, StoppedAt, SomeZoneDamaged,
           Regular, AtMostOneWritten;
      if writesStopped {
        return IoError;
      }
      LayoutDisjoint(alloc.zones, host.zones);
      AckedCount(alloc.zones, index.Value(), host.content, acked);
      ghost var even, d := EvenZones(), DiskState();
      ghost var victim, i;
      r, victim := RunGcIfNeeded();
      if r != Success {
        AbortedFull(d, DiskState());
        if host.faults == old(host.faults) {
          OutcomeStuck(policy, d, b);
          if even {
            StuckDisk(d, perZone);
          }
        }
        return r;
      }
      if even {
        EvenPrepared(policy, d, DiskState(), victim, perZone);
      }
      ghost var d1, host1 := DiskState(), host.zones;
      r, i := AppendOrdinary(b, data);
      NotStuck(policy, d, d1, victim);
      if writesStopped && host.faults <= old(host.faults) + 1 {
        StoppedAfter(policy, d, d1, victim, alloc.zones, host.zones, i);
        if victim.None? && Regular(old(host.zones)) {
          DamageIsSeen(d.zones, old(host.zones), alloc.zones, host.zones);
        }
      }
      if host.faults == old(host.faults) {
        OutcomeOf(policy, d, b, d1, victim, DiskState(), r, i);
      }
      if even && r == Success {
        ChargeOf(policy, d, b, d1, victim, DiskState(), i, host1, perZone);
      }
    }

    /** A whole-block read: the newest mapping decides where to read, and an unmapped block reads as zeros. */
    method ReadBlock(b: nat) returns (r: Result<Block>)
      requires Valid()
      modifies store.Repr, host`faults
      ensures fresh(store.Repr - old(store.Repr))
      ensures Valid() && host.faults >= old(host.faults)
      ensures r.Ok? ==> r.value == if b in acked then acked[b] else ZeroBlock()
      ensures r.Err? ==> host.faults > old(host.faults) && r.error != Success
      ensures Observe() == old(Observe()).(faults := host.faults) && DiskState() == old(DiskState())
    {
      hide Store.Valid, Store.View, Layout, AllInStep, Consistent, Stored, Uniform, OrdinaryFree;
      var p := Lookup(b);
      StoredKeys(index.latest, host.content, acked);
      if p == Err(NoData) {
        return Ok(ZeroBlock());
      }
      if p.Err? {
        return Err(p.error);
      }
      StoredCopy(index.latest, host.content, acked, b);
      r := host.ReadBlock(p.value);
    }
  }

  lemma SomeZones(e: Engine)
    requires e.Valid()
    ensures |e.alloc.zones| > 0
  {
  }
}
