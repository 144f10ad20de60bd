/** Recreating an engine whose writes a failed collection stopped: when that works, and when the device can never be
    attached again. */
module Recreate {
  import opened Prelude
  import opened Zones
  import opened Allocators
  import opened MetaZones
  import opened SsTables
  import opened Hosts
  import opened GcIndexes
  import opened EngineState
  import opened Space
  import opened Stores
  import opened Engines
  import opened SuperBlocks
  import opened Rebuild
  import opened Attach
  import opened UnevenZones
  import GcPolicies
  import P = FlushProtocol

  /** Some data zone is empty: what attach needs for a reserve. */
  ghost predicate SomeEmpty(device: seq<Zone>) {
    exists i :: 0 <= i < |device| && EmptyZone(device[i], BLOCK_SECTORS)
  }

  lemma NothingOrdinary(d: Disk, d': Disk)
    requires Aborted(d, d')
    ensures forall i :: !Ordinary(d'.zones, d'.reserve, BLOCK_SECTORS, i)
  {
    hide CanAppend;
    forall i: nat ensures !Ordinary(d'.zones, d'.reserve, BLOCK_SECTORS, i) {
      assert !Ordinary(d.zones, d.reserve, BLOCK_SECTORS, i);
    }
  }

  /** After a failed collection a zone that is in step with the device is empty there only if it is the reserve and no
      block was allocated in it. */
  lemma EmptyAfterAbort(d: Disk, d': Disk, device: seq<Zone>, i: nat)
    requires Aborted(d, d') && Layout(d'.zones, device) && EmptyZone(d.zones[d.reserve], BLOCK_SECTORS)
    requires i < |device| && EmptyZone(device[i], BLOCK_SECTORS) && InStep(d'.zones[i], device[i])
    ensures d'.zones == d.zones
  {
    hide Layout, InStep;
    NothingOrdinary(d, d');
    assert |d'.zones| == |device| by { SameNumber(d'.zones, device); }
    OnlyReserveEmpty(d'.zones, device, d'.reserve, i);
  }

  /** A collection that failed without leaving step with the device leaves an empty zone exactly if it had not yet
      allocated a block in the reserve. Otherwise no attach to this device can succeed any more. */
  lemma AttachableAfterAbort(d: Disk, d': Disk, device: seq<Zone>, logicalBlocks: nat)
    requires Aborted(d, d') && Layout(d'.zones, device) && AllInStep(d'.zones, device)
    requires EmptyZone(d.zones[d.reserve], BLOCK_SECTORS) && KeysBelow(d'.x.latest, logicalBlocks)
    requires Consistent(d'.zones, d'.x)
    ensures ReportOk(device) && (Attachable(device, logicalBlocks, d'.x.latest) <==> d'.zones == d.zones)
    ensures Restorable(device, logicalBlocks, d'.x.latest)
    ensures SomeEmpty(device) <==> d'.zones == d.zones
  {
    hide Layout, InStep, Restorable, EmptyZone, Consistent, Ordinary;
    DetachedAttachable(d'.zones, device, d'.x, d'.reserve, logicalBlocks);
    if SomeEmpty(device) {
      var i :| 0 <= i < |device| && EmptyZone(device[i], BLOCK_SECTORS);
      EmptyAfterAbort(d, d', device, i);
    }
  }

  /** A write that has to collect, and then the recreation of the engine that the driver's message asks for once writes
      are stopped. If the collection fails but the engine is still in step with the device - a read, an allocation or
      the mapping store failed, not a write or a reset - then, without further failures and with room in the metadata
      zone, there is a new engine exactly if no block was allocated in the reserve yet, and it holds all acknowledged
      contents. Once a block was, no zone is empty, and every attach to this device is refused. */
  method WriteAndRecreate(e: Engine, b: u64, data: Block, crc: SuperChecksum, threshold: nat, logicalBlocks: u64,
                          uuid: nat)
    returns (r: Errno, e2: Engine?, ghost faults: nat, ghost reach: nat)
    requires !e.writesStopped && forall i :: !Ordinary(e.alloc.zones, e.alloc.reserve, BLOCK_SECTORS, i)
    requires KeysBelow(e.index.latest, logicalBlocks) && b < logicalBlocks && e.store.meta.start <= e.store.meta.end
    requires SuperFits(Device(uuid, logicalBlocks, e.store.meta.length, |e.host.zones|))
    requires FormatOk(crc, e.store.super, Device(uuid, logicalBlocks, e.store.meta.length, |e.host.zones|))
    requires e.Valid()
    modifies e, e.index, e.host, e.alloc, e.store.Repr
    ensures r != Success && e.gcRuns == old(e.gcRuns) && AllInStep(e.alloc.zones, e.host.zones) ==>
              && (e2 != null ==> e2.Valid() && !e2.writesStopped && e2.acked == old(e.acked))
              && (e2 != null ==> e.alloc.zones == old(e.alloc.zones))
              && (SomeEmpty(e.host.zones) <==> e.alloc.zones == old(e.alloc.zones))
              && (e.store.Quiet() && e.host.faults == faults && 0 < threshold && reach <= e.store.meta.end ==>
                    (e2 != null <==> e.alloc.zones == old(e.alloc.zones)))
  {
    hide Store.Valid, Store.View, Engine.Valid, Layout, AllInStep, Consistent, FormatOk, SuperFits, Attachable,
         ReportOk, SomeEmpty, Ordinary, Aborted, Stuck, WriteOutcome, P.Reach;
    SameBlocks(e);
    ghost var d := e.DiskState();
    r := e.AppendWrite(b, data);
    faults, reach := e.host.faults, P.Reach(e.store.sys);
    SameBlocks(e);
    ghost var d', device := e.DiskState(), e.host.zones;
    if r != Success && e.gcRuns == old(e.gcRuns) && AllInStep(e.alloc.zones, e.host.zones) {
      AttachableAfterAbort(d, d', device, logicalBlocks);
    }
    e2 := DetachAndAttach(e, crc, threshold, logicalBlocks, uuid);
    if e2 != null {
      StartedValid(e2, e.store.meta, e.store.step, crc, e.host, e.policy, threshold, logicalBlocks, uuid, e.perZone);
    }
  }

  lemma StartedValid(e: Engine, meta: MetaZone, step: Checksum, crc: SuperChecksum, host: Host,
                     policy: GcPolicies.Policy, threshold: nat, logicalBlocks: u64, uuid: nat, perZone: nat)
    requires Started(e, meta, step, crc, host, policy, threshold, logicalBlocks, uuid, perZone)
    ensures e.Valid() && !e.writesStopped && SomeEmpty(host.zones)
  {
    hide Engine.Valid, P.Reach, FormatOk, KeysBelow, EmptyZone;
  }

  // ----- A device that cannot be attached any more -----

  /** The filled device of four, four and two blocks as it reports itself, after a collection has allocated one block in
      the reserve. */
  function StrandedReport(): seq<Zone> {
    [Zone(0, 64, 32, 32, Full, false), Zone(64, 64, 32, 96, Full, false), Zone(128, 64, 16, 136, ImpOpen, false)]
  }

  /** The same device as the engine sees it. */
  function StrandedZones(): seq<Zone> {
    [Zone(0, 64, 32, 32, Empty, false), Zone(64, 64, 32, 96, Empty, false), Zone(128, 64, 16, 136, Empty, false)]
  }

  lemma StrandedIs()
    ensures var d := EightDisk();
            && |d.zones| == 3 && d.reserve == 2 && Advanced(d.zones, 2) == StrandedZones()
            && d.zones[2].wp == 128 && CanAppend(d.zones[2], BLOCK_SECTORS)
            && MetadataValid(d.zones[2]) && Aligned(d.zones[2]) && KeysBelow(d.x.latest, 6)
            && OnlyFilled(d.zones, StrandedZones(), 2) && SameLayout(d.zones, StrandedZones())
  {
    var zones := EightDisk().zones;
    assert zones == [Zone(0, 64, 32, 32, Empty, false), Zone(64, 64, 32, 96, Empty, false),
                     Zone(128, 64, 16, 128, Empty, false)];
  }

  lemma StrandedInStep()
    ensures Layout(StrandedZones(), StrandedReport()) && AllInStep(StrandedZones(), StrandedReport())
    ensures Disjoint(StrandedZones())
  {
    var zones, device := StrandedZones(), StrandedReport();
    assert MetadataValid(zones[0]) && MetadataValid(zones[1]) && MetadataValid(zones[2]);
    assert Aligned(zones[0]) && Aligned(zones[1]) && Aligned(zones[2]);
    assert InStep(zones[0], device[0]) && InStep(zones[1], device[1]) && InStep(zones[2], device[2]);
  }

  /** An input on which recreation is refused: on the filled device a collection copies its first block to the reserve
      and then fails to publish it, for want of memory. The engine is in step with the device, its index is unchanged
      and represents every block, but no zone is empty. */
  lemma Stranded()
    ensures var d := EightDisk(); var d' := d.(zones := Advanced(d.zones, 2));
            && Healthy(d) && d.reserve == 2 && Aborted(d, d') && AllInStep(d'.zones, StrandedReport())
            && Consistent(d'.zones, d'.x) && ReportOk(StrandedReport())
            && Restorable(StrandedReport(), 6, d'.x.latest) && !SomeEmpty(StrandedReport())
  {
    hide Consistent, Restorable, AllInStep, ReportOk, Layout, EightDisk, StrandedZones, StrandedReport, WriteFits,
         Stuck, SameLayout, OnlyFilled, KeysBelow;
    EightHealthy();
    RefusedOnce(GcPolicies.Greedy);
    StrandedIs();
    StrandedInStep();
    AllocatedBlock(EightDisk().zones, EightDisk().x, 2);
    AttachableAfterAbort(EightDisk(), EightDisk().(zones := StrandedZones()), StrandedReport(), 6);
  }
}
