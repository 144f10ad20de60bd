/** The relation between allocator zones, device zones, the GC index and stored data that every engine step keeps. */
module EngineState {
  import opened Prelude
  import opened Zones
  import opened GcIndexes
  import opened Hosts
  import Sums
  import opened Allocators

  /** The allocator's picture of a zone and the device's: equal pointers, a device that takes the next block wherever
      the allocator may still append, and equal conditions where it may not. */
  predicate InStep(a: Zone, d: Zone) {
    && a.wp == d.wp && (!Writable(a) ==> a.cond == d.cond)
    && (CanAppend(a, BLOCK_SECTORS) ==> d.cond == Empty || d.cond == ImpOpen || d.cond == ExpOpen || d.cond == Closed)
    && (Resettable(a) ==> Resettable(d))
  }

  predicate AllInStep(zones: seq<Zone>, device: seq<Zone>) {
    |zones| == |device| && forall i | 0 <= i < |zones| :: InStep(zones[i], device[i])
  }

  predicate Layout(zones: seq<Zone>, device: seq<Zone>) {
    && Disjoint(zones) && SameLayout(zones, device)
    && forall i | 0 <= i < |zones| :: MetadataValid(zones[i]) && Aligned(zones[i])
  }

  /** Every mapped block's newest copy is on the device and holds the block's acknowledged contents. */
  ghost predicate Stored(latest: map<nat, nat>, content: map<nat, Block>, acked: map<nat, Block>) {
    && acked.Keys == latest.Keys
    && forall b | b in latest :: latest[b] in content && content[latest[b]] == acked[b]
  }

  /** Zone i after one block was allocated at its write pointer. */
  function Advanced(zones: seq<Zone>, i: nat): seq<Zone>
    requires i < |zones|
  {
    zones[i := zones[i].(wp := zones[i].wp + BLOCK_SECTORS)]
  }

  /** At most the pointer of zone r differs, and it has not moved back. */
  predicate OnlyFilled(zones0: seq<Zone>, zones: seq<Zone>, r: nat) {
    && r < |zones0| == |zones| && zones0[r].wp <= zones[r].wp && zones == zones0[r := zones0[r].(wp := zones[r].wp)]
  }

  /** A mapped sector inside a zone that is not full lies below its write pointer, on a block boundary. */
  lemma MappedBelowPointer(zones: seq<Zone>, x: Index, b: nat, i: nat)
    requires Disjoint(zones) && Consistent(zones, x) && b in x.latest
    requires i < |zones| && InZone(zones[i], x.latest[b])
    ensures zones[i].cond != Full ==> x.latest[b] < zones[i].wp
    ensures (x.latest[b] - zones[i].start) % BLOCK_SECTORS == 0
  {
    hide Consistent;
    MappedRecords(zones, x, b);
    ZoneOfIs(zones, i, x.latest[b]);
  }

  lemma MappedIsWritten(zones: seq<Zone>, x: Index, b: nat)
    requires Consistent(zones, x) && b in x.latest
    ensures SlotAt(zones, x.latest[b]).Some?
  {
    hide Consistent;
    MappedRecords(zones, x, b);
  }

  lemma AdvancedLayout(zones: seq<Zone>, i: nat)
    requires i < |zones| && Disjoint(zones) && CanAppend(zones[i], BLOCK_SECTORS)
    requires forall k | 0 <= k < |zones| :: MetadataValid(zones[k]) && Aligned(zones[k])
    ensures var zones' := Advanced(zones, i);
            && SameLayout(zones, zones') && Disjoint(zones')
            && forall k | 0 <= k < |zones| :: MetadataValid(zones'[k]) && Aligned(zones'[k])
  {
    assert MetadataValid(zones[i]) && Aligned(zones[i]);
  }

  /** The block just allocated is a written block without owner, and the index stays consistent. */
  lemma AllocatedBlock(zones: seq<Zone>, x: Index, i: nat)
    requires i < |zones| && Disjoint(zones) && CanAppend(zones[i], BLOCK_SECTORS)
    requires MetadataValid(zones[i]) && Aligned(zones[i])
    requires Consistent(zones, x) && SameLayout(zones, Advanced(zones, i)) && Disjoint(Advanced(zones, i))
    ensures InZone(zones[i], zones[i].wp) && ZoneOf(zones, zones[i].wp) == Some(i)
    ensures Consistent(Advanced(zones, i), x)
    ensures Unowned(Advanced(zones, i), x, zones[i].wp)
  {
    hide Consistent, SlotAt, Unowned;
    var zones' := Advanced(zones, i);
    var p := zones[i].wp;
    ZoneOfIs(zones, i, p);
    forall b | b in x.latest ensures SlotAt(zones', x.latest[b]).Some? {
      MappedStillWritten(zones, zones', x, b);
    }
    ConsistentUnderZoneChange(zones, zones', x);
    AllocatedUnowned(zones, x, i);
  }

  /** A written block stays one as long as its zone's pointer does not move below it. */
  lemma StillWritten(zones: seq<Zone>, zones': seq<Zone>, p: nat)
    requires SameLayout(zones, zones') && SlotAt(zones, p).Some?
    requires var z, z' := zones[SlotAt(zones, p).value.zone], zones'[SlotAt(zones, p).value.zone];
             p < z'.wp || z'.cond == Full
    ensures SlotAt(zones', p).Some?
  {
    ZoneOfSameLayout(zones, zones', p);
    var i := ZoneOf(zones, p).value;
    assert SameGeometry(zones[i], zones'[i]);
  }

  lemma MappedStillWritten(zones: seq<Zone>, zones': seq<Zone>, x: Index, b: nat)
    requires Consistent(zones, x) && b in x.latest && SameLayout(zones, zones')
    requires forall i | 0 <= i < |zones| ::
               zones[i].wp <= zones'[i].wp && (zones[i].cond == Full ==> zones'[i].cond == Full)
    ensures SlotAt(zones', x.latest[b]).Some?
  {
    hide Consistent;
    MappedIsWritten(zones, x, b);
    StillWritten(zones, zones', x.latest[b]);
  }

  lemma AllocatedUnowned(zones: seq<Zone>, x: Index, i: nat)
    requires i < |zones| && Disjoint(zones) && CanAppend(zones[i], BLOCK_SECTORS)
    requires MetadataValid(zones[i]) && Aligned(zones[i])
    requires Consistent(zones, x) && Disjoint(Advanced(zones, i))
    ensures Unowned(Advanced(zones, i), x, zones[i].wp)
  {
    hide Consistent;
    var zones' := Advanced(zones, i);
    var p := zones[i].wp;
    var s := Slot(i, (p - zones[i].start) / BLOCK_SECTORS);
    assert s.index < Slots(zones[i]);
    SlotOfAddress(zones', s, p);
    RevealShape(zones, x);
    if Owner(x.reverse, s) != 0 {
      OwnedSlotMapped(zones, x, s);
      MappedBelowPointer(zones, x, Owner(x.reverse, s) - 1, i);
    }
  }

  /** Wherever the allocator may append, the device takes the next block exactly there. */
  lemma DeviceAcceptsNext(zones: seq<Zone>, device: seq<Zone>, i: nat)
    requires Layout(zones, device) && AllInStep(zones, device)
    requires i < |zones| && CanAppend(zones[i], BLOCK_SECTORS)
    ensures ZoneOf(device, zones[i].wp) == Some(i) && AcceptsAt(device, zones[i].wp)
  {
    assert MetadataValid(zones[i]) && InStep(zones[i], device[i]) && SameGeometry(zones[i], device[i]);
    ZoneOfIs(zones, i, zones[i].wp);
    ZoneOfSameLayout(zones, device, zones[i].wp);
  }

  /** A completed write moves the device pointer to where allocation already moved the allocator's. */
  lemma InStepAfterWrite(zones: seq<Zone>, device: seq<Zone>, i: nat)
    requires Layout(zones, device) && AllInStep(zones, device)
    requires i < |zones| && CanAppend(zones[i], BLOCK_SECTORS)
    ensures var device' := device[i := AfterWrite(device[i])];
            Layout(Advanced(zones, i), device') && AllInStep(Advanced(zones, i), device')
  {
    var zones', device' := Advanced(zones, i), device[i := AfterWrite(device[i])];
    AdvancedLayout(zones, i);
    assert InStep(zones[i], device[i]) && SameGeometry(zones[i], device[i]);
    forall k | 0 <= k < |zones| ensures InStep(zones'[k], device'[k]) && SameGeometry(zones'[k], device'[k]) {
      assert InStep(zones[k], device[k]) && SameGeometry(zones[k], device[k]);
    }
  }

  lemma LayoutAfterAdvance(zones: seq<Zone>, device: seq<Zone>, device': seq<Zone>, i: nat)
    requires Layout(zones, device) && SameLayout(device, device')
    requires i < |zones| && CanAppend(zones[i], BLOCK_SECTORS)
    ensures Layout(Advanced(zones, i), device')
  {
    AdvancedLayout(zones, i);
    var zones' := Advanced(zones, i);
    forall k | 0 <= k < |zones| ensures SameGeometry(zones'[k], device'[k]) {
      assert SameGeometry(zones[k], device[k]) && SameGeometry(device[k], device'[k]);
    }
  }

  /** No mapping points at the next block to be allocated. */
  lemma NextBlockUnmapped(zones: seq<Zone>, x: Index, i: nat, b: nat)
    requires Disjoint(zones) && Consistent(zones, x) && b in x.latest
    requires i < |zones| && CanAppend(zones[i], BLOCK_SECTORS)
    requires InZone(zones[i], x.latest[b])
    ensures x.latest[b] < zones[i].wp
  {
    hide Consistent;
    MappedBelowPointer(zones, x, b, i);
  }

  lemma StoredAfterWrite(zones: seq<Zone>, x: Index, content: map<nat, Block>, acked: map<nat, Block>, i: nat,
                         data: Block)
    requires Disjoint(zones) && Consistent(zones, x) && Stored(x.latest, content, acked)
    requires i < |zones| && CanAppend(zones[i], BLOCK_SECTORS) && InZone(zones[i], zones[i].wp)
    ensures Stored(x.latest, content[zones[i].wp := data], acked)
  {
    hide Consistent;
    forall b | b in x.latest ensures x.latest[b] != zones[i].wp {
      if InZone(zones[i], x.latest[b]) {
        NextBlockUnmapped(zones, x, i, b);
      }
    }
  }

  /** A failed write spoils only what the write pointer had not passed, and no mapping points there. */
  lemma StoredAfterFailedWrite(zones: seq<Zone>, device: seq<Zone>, x: Index, content: map<nat, Block>,
                               content': map<nat, Block>, acked: map<nat, Block>, i: nat)
    requires Layout(zones, device) && AllInStep(zones, device)
    requires Consistent(zones, x) && Stored(x.latest, content, acked)
    requires i < |zones| && CanAppend(zones[i], BLOCK_SECTORS)
    requires forall q | q in content && !AtRisk(device, zones[i].wp, q) :: q in content' && content'[q] == content[q]
    ensures Stored(x.latest, content', acked)
  {
    hide Consistent;
    DeviceAcceptsNext(zones, device, i);
    assert InStep(zones[i], device[i]) && SameGeometry(zones[i], device[i]);
    forall b | b in x.latest ensures !AtRisk(device, zones[i].wp, x.latest[b]) {
      if InZone(zones[i], x.latest[b]) {
        NextBlockUnmapped(zones, x, i, b);
      }
    }
  }

  /** After a resynchronisation the pointer is back at the failed block or just behind it; either way every mapped
      block is still below it, because the failed block was never published. */
  lemma ResyncKeepsIndex(zones: seq<Zone>, zones': seq<Zone>, x: Index, i: nat, wp: nat)
    requires Disjoint(zones) && Consistent(zones, x) && SameLayout(zones, zones')
    requires i < |zones| && CanAppend(zones[i], BLOCK_SECTORS) && Aligned(zones[i])
    requires wp == zones[i].wp || wp == zones[i].wp + BLOCK_SECTORS
    requires zones'[i].wp == wp && forall k | 0 <= k < |zones| && k != i :: zones'[k] == zones[k]
    ensures Consistent(zones', x)
  {
    hide Consistent;
    forall b | b in x.latest ensures SlotAt(zones', x.latest[b]).Some? {
      MappedIsWritten(zones, x, b);
      if InZone(zones[i], x.latest[b]) {
        MappedBelowPointer(zones, x, b, i);
        ZoneOfIs(zones, i, x.latest[b]);
      }
      StillWritten(zones, zones', x.latest[b]);
    }
    ConsistentUnderZoneChange(zones, zones', x);
  }

  /** When a zone owns no live block, no mapping points into it. */
  lemma NoMappingInto(zones: seq<Zone>, x: Index, i: nat, b: nat)
    requires Disjoint(zones) && Consistent(zones, x) && i < |zones| && x.nrValid[i] == 0 && b in x.latest
    ensures !InZone(zones[i], x.latest[b])
  {
    if InZone(zones[i], x.latest[b]) {
      hide Consistent;
      MappedRecords(zones, x, b);
      ZoneOfIs(zones, i, x.latest[b]);
      OwnedZoneCounted(zones, x, SlotAt(zones, x.latest[b]).value);
    }
  }

  /** Resetting a zone without live blocks keeps the index, whatever older generations still say about it. */
  lemma ResetKeepsIndex(zones: seq<Zone>, x: Index, i: nat)
    requires Disjoint(zones) && Consistent(zones, x) && i < |zones| && x.nrValid[i] == 0
    ensures Consistent(zones[i := zones[i].(wp := zones[i].start, cond := Empty)], x)
  {
    hide Consistent;
    var zones' := zones[i := zones[i].(wp := zones[i].start, cond := Empty)];
    forall b | b in x.latest ensures SlotAt(zones', x.latest[b]).Some? {
      NoMappingInto(zones, x, i, b);
      MappedIsWritten(zones, x, b);
      StillWritten(zones, zones', x.latest[b]);
    }
    ConsistentUnderZoneChange(zones, zones', x);
  }

  lemma StoredAfterReset(zones: seq<Zone>, device: seq<Zone>, x: Index, content: map<nat, Block>,
                         content': map<nat, Block>, acked: map<nat, Block>, i: nat)
    requires Layout(zones, device) && Consistent(zones, x) && Stored(x.latest, content, acked)
    requires i < |zones| && x.nrValid[i] == 0 && 0 < zones[i].capacity
    requires forall q | q in content && !InSameZone(device, zones[i].start, q) ::
               q in content' && content'[q] == content[q]
    ensures ZoneOf(device, zones[i].start) == Some(i)
    ensures Stored(x.latest, content', acked)
  {
    hide Consistent;
    ZoneOfIs(zones, i, zones[i].start);
    ZoneOfSameLayout(zones, device, zones[i].start);
    assert SameGeometry(zones[i], device[i]);
    forall b | b in x.latest ensures !InSameZone(device, zones[i].start, x.latest[b]) {
      NoMappingInto(zones, x, i, b);
    }
  }

  lemma InStepAfterReset(zones: seq<Zone>, device: seq<Zone>, i: nat)
    requires Layout(zones, device) && AllInStep(zones, device) && i < |zones|
    ensures var zones' := zones[i := zones[i].(wp := zones[i].start, cond := Empty)];
            var device' := device[i := device[i].(wp := device[i].start, cond := Empty)];
            Layout(zones', device') && AllInStep(zones', device')
  {
    var zones' := zones[i := zones[i].(wp := zones[i].start, cond := Empty)];
    var device' := device[i := device[i].(wp := device[i].start, cond := Empty)];
    assert SameGeometry(zones[i], device[i]) && MetadataValid(zones[i]);
    forall k | 0 <= k < |zones| ensures InStep(zones'[k], device'[k]) && SameGeometry(zones'[k], device'[k]) {
      assert InStep(zones[k], device[k]) && SameGeometry(zones[k], device[k]);
    }
  }

  lemma LayoutDisjoint(zones: seq<Zone>, device: seq<Zone>)
    requires Layout(zones, device)
    ensures Disjoint(zones) && |zones| == |device|
  {
  }

  lemma StoredAfterMove(latest: map<nat, nat>, content: map<nat, Block>, acked: map<nat, Block>, b: nat, p: nat)
    requires Stored(latest, content, acked) && p in content
    ensures Stored(latest[b := p], content, acked[b := content[p]])
  {
  }

  lemma AllocatedFacts(zones: seq<Zone>, device: seq<Zone>, x: Index, i: nat)
    requires Layout(zones, device) && Consistent(zones, x)
    requires i < |zones| && CanAppend(zones[i], BLOCK_SECTORS)
    ensures InZone(zones[i], zones[i].wp)
    ensures Consistent(Advanced(zones, i), x) && Unowned(Advanced(zones, i), x, zones[i].wp)
  {
    hide Consistent, Unowned;
    AdvancedLayout(zones, i);
    AllocatedBlock(zones, x, i);
  }

  lemma StoredCopy(latest: map<nat, nat>, content: map<nat, Block>, acked: map<nat, Block>, b: nat)
    requires Stored(latest, content, acked) && b in latest
    ensures b in acked && latest[b] in content && content[latest[b]] == acked[b]
  {
  }

  lemma SameContents(acked: map<nat, Block>, acked': map<nat, Block>, b: nat, data: Block)
    requires acked' == acked[b := data] && b in acked && acked[b] == data
    ensures acked' == acked
  {
  }

  // ----- One collection -----

  /** Where a collection of zone id into reserve zone r stands after moving some blocks: only zone r's pointer and the
      mappings and counters of the moved blocks differ from the start (zones0, x0). */
  ghost predicate Collecting(zones0: seq<Zone>, x0: Index, zones: seq<Zone>, x: Index, id: nat, r: nat, moved: nat) {
    && id < |zones0| && r < |zones0| && id != r && |x0.nrValid| == |x.nrValid| == |zones0|
    && zones == zones0[r := zones0[r].(wp := zones0[r].wp + BLOCK_SECTORS * moved)]
    && x.nrValid[id] + moved == x0.nrValid[id] && x.nrValid[r] == x0.nrValid[r] + moved
    && (forall i | 0 <= i < |zones0| && i != id && i != r :: x.nrValid[i] == x0.nrValid[i])
    && x.validBlocks == x0.validBlocks && x.latest.Keys == x0.latest.Keys
    && forall c | c in x.latest ::
         x.latest[c] == x0.latest[c] || (InZone(zones0[id], x0.latest[c]) && InZone(zones0[r], x.latest[c]))
  }

  /** What moving block b from slot s to the reserve's write pointer p does to the index. */
  ghost predicate SlotMoved(zones: seq<Zone>, x: Index, y: Index, s: Slot, b: nat, r: nat, p: nat) {
    && s.zone < |zones| && r < |zones| && s.zone != r && |x.nrValid| == |x.reverse| == |y.reverse| == |zones|
    && Holds(x.reverse, s, b) && x.nrValid[s.zone] > 0
    && y.reverse[s.zone] == x.reverse[s.zone][s.index := 0]
    && y.nrValid == x.nrValid[s.zone := x.nrValid[s.zone] - 1][r := x.nrValid[r] + 1]
    && y.validBlocks == x.validBlocks
    && Maps(x.latest, b, SlotAddress(zones, s)) && InZone(zones[s.zone], x.latest[b])
    && y.latest == x.latest[b := p] && InZone(zones[r], p)
  }

  /** An occupied slot names a block mapped into that slot. */
  lemma OccupiedSlot(zones: seq<Zone>, x: Index, s: Slot, b: nat)
    requires Disjoint(zones) && Holds(x.reverse, s, b) && Consistent(zones, x)
    ensures s.zone < |zones| && s.zone < |x.nrValid| && x.nrValid[s.zone] > 0
    ensures Maps(x.latest, b, SlotAddress(zones, s)) && InZone(zones[s.zone], SlotAddress(zones, s))
    ensures SlotAt(zones, SlotAddress(zones, s)) == Some(s)
  {
    hide Consistent;
    RevealShape(zones, x);
    OwnedSlotMapped(zones, x, s);
    MappedIsWritten(zones, x, b);
    SlotOfAddress(zones, s, SlotAddress(zones, s));
    OwnedZoneCounted(zones, x, s);
  }

  lemma MoveFromSlot(zones: seq<Zone>, x: Index, y: Index, s: Slot, b: nat, r: nat)
    requires Disjoint(zones) && s.zone < |zones| && r < |zones| && s.zone != r && Holds(x.reverse, s, b)
    requires InZone(zones[r], zones[r].wp)
    requires IsMove(Advanced(zones, r), x, b, zones[r].wp, y)
    requires SlotAt(Advanced(zones, r), zones[r].wp).Some? && SlotAt(Advanced(zones, r), zones[r].wp).value.zone == r
    requires b in x.latest && SlotAt(Advanced(zones, r), x.latest[b]) == Some(s)
    requires Consistent(zones, x)
    ensures SlotMoved(zones, x, y, s, b, r, zones[r].wp)
  {
    hide Consistent, IsMove, SlotAt;
    OccupiedSlot(zones, x, s, b);
    RevealShape(zones, x);
    MovedOut(Advanced(zones, r), x, b, zones[r].wp, y, s);
  }

  /** Where sectors of the two zones involved are found again once the reserve has advanced. */
  lemma SlotsAfterAdvance(zones: seq<Zone>, device: seq<Zone>, x: Index, s: Slot, b: nat, r: nat)
    requires s.zone < |zones| && r < |zones| && s.zone != r && Holds(x.reverse, s, b)
    requires CanAppend(zones[r], BLOCK_SECTORS)
    requires Layout(zones, device) && Consistent(zones, x)
    ensures InZone(zones[r], zones[r].wp)
    ensures SlotAt(Advanced(zones, r), zones[r].wp).Some? && SlotAt(Advanced(zones, r), zones[r].wp).value.zone == r
    ensures SlotAt(Advanced(zones, r), SlotAddress(zones, s)) == Some(s)
  {
    hide Consistent;
    OccupiedSlot(zones, x, s, b);
    AdvancedLayout(zones, r);
    AllocatedFacts(zones, device, x, r);
    ZoneOfIs(Advanced(zones, r), r, zones[r].wp);
    ZoneOfIs(Advanced(zones, r), s.zone, SlotAddress(zones, s));
    OccupiedSlot(Advanced(zones, r), x, s, b);
  }

  lemma CollectingStep(zones0: seq<Zone>, x0: Index, zones: seq<Zone>, x: Index, y: Index, s: Slot, b: nat, r: nat,
                       moved: nat)
    requires Collecting(zones0, x0, zones, x, s.zone, r, moved)
    requires SlotMoved(zones, x, y, s, b, r, zones[r].wp)
    ensures Collecting(zones0, x0, Advanced(zones, r), y, s.zone, r, moved + 1)
  {
    assert x.latest[b] == x0.latest[b] || (InZone(zones0[s.zone], x0.latest[b]) && InZone(zones0[r], x.latest[b]));
    assert y.latest.Keys == x.latest.Keys;
  }

  lemma SlotMovedRow(zones: seq<Zone>, x: Index, y: Index, s: Slot, b: nat, r: nat, p: nat)
    requires SlotMoved(zones, x, y, s, b, r, p)
    ensures s.zone < |x.reverse| == |y.reverse| && s.index < |x.reverse[s.zone]|
    ensures y.reverse[s.zone] == x.reverse[s.zone][s.index := 0]
  {
  }

  /** A victim whose live blocks fit the empty reserve never runs it out of space. */
  lemma ReserveHasRoom(zones0: seq<Zone>, x0: Index, zones: seq<Zone>, x: Index, id: nat, r: nat, moved: nat)
    requires Collecting(zones0, x0, zones, x, id, r, moved)
    requires Writable(zones0[r]) && zones0[r].start <= zones0[r].wp && x0.nrValid[id] <= FreeBlocks(zones0[r])
    requires 0 < x.nrValid[id]
    ensures CanAppend(zones[r], BLOCK_SECTORS)
  {
  }

  /** The outcome of a complete collection: zone id is empty, its live blocks follow the old pointer of zone r,
      every block outside zone id stays where it was. */
  ghost predicate Collected(zones0: seq<Zone>, x0: Index, zones: seq<Zone>, x: Index, id: nat, r: nat) {
    && id < |zones0| && r < |zones0| && id != r && |x0.nrValid| == |x.nrValid| == |zones0|
    && zones == zones0[r := zones0[r].(wp := zones0[r].wp + BLOCK_SECTORS * x0.nrValid[id])]
                      [id := zones0[id].(wp := zones0[id].start, cond := Empty)]
    && x.nrValid == x0.nrValid[id := 0][r := x0.nrValid[r] + x0.nrValid[id]]
    && x.validBlocks == x0.validBlocks && x.latest.Keys == x0.latest.Keys
    && forall c | c in x.latest ::
         if InZone(zones0[id], x0.latest[c]) then InZone(zones0[r], x.latest[c]) else x.latest[c] == x0.latest[c]
  }

  lemma CollectingFilled(zones0: seq<Zone>, x0: Index, zones: seq<Zone>, x: Index, id: nat, r: nat, moved: nat,
                         zones': seq<Zone>)
    requires Collecting(zones0, x0, zones, x, id, r, moved) && OnlyFilled(zones, zones', r)
    ensures OnlyFilled(zones0, zones', r)
  {
  }

  lemma CollectingDone(zones0: seq<Zone>, x0: Index, zones: seq<Zone>, x: Index, id: nat, r: nat, moved: nat)
    requires Collecting(zones0, x0, zones, x, id, r, moved) && x.nrValid[id] == 0
    requires Disjoint(zones) && Consistent(zones, x)
    ensures moved == x0.nrValid[id]
    ensures Collected(zones0, x0, zones[id := zones[id].(wp := zones[id].start, cond := Empty)], x, id, r)
  {
    hide Consistent;
    forall c | c in x.latest && InZone(zones0[id], x0.latest[c]) ensures InZone(zones0[r], x.latest[c]) {
      NoMappingInto(zones, x, id, c);
    }
  }

  lemma CollectingStart(zones: seq<Zone>, x: Index, id: nat, r: nat)
    requires id < |zones| && r < |zones| && id != r && Consistent(zones, x)
    ensures Collecting(zones, x, zones, x, id, r, 0)
    ensures |x.nrValid| == |x.reverse| == |zones|
  {
    hide Consistent;
    RevealShape(zones, x);
  }

  /** A zone all of whose slots are free has no live block. */
  lemma SweptZone(zones: seq<Zone>, x: Index, id: nat)
    requires id < |x.reverse| && (forall t | 0 <= t < |x.reverse[id]| :: x.reverse[id][t] == 0)
    requires id < |zones| && Consistent(zones, x)
    ensures id < |x.nrValid| && x.nrValid[id] == 0
  {
    hide SlotAt, Records, OwnerMapped, Sums.Count, Sums.Sum;
    Sums.CountBounds(x.reverse[id]);
  }

  lemma InStepAt(zones: seq<Zone>, device: seq<Zone>, i: nat)
    requires AllInStep(zones, device) && i < |zones|
    ensures |zones| == |device| && InStep(zones[i], device[i])
  {
  }

  lemma VictimAddress(zones: seq<Zone>, device: seq<Zone>, i: nat)
    requires Layout(zones, device) && i < |zones| && 0 < zones[i].capacity
    ensures ZoneOf(device, zones[i].start) == Some(i)
  {
    ZoneOfIs(zones, i, zones[i].start);
    ZoneOfSameLayout(zones, device, zones[i].start);
  }

  lemma LayoutAfterDeviceChange(zones: seq<Zone>, device: seq<Zone>, device': seq<Zone>)
    requires Layout(zones, device) && SameLayout(device, device')
    ensures Layout(zones, device')
  {
    forall k | 0 <= k < |zones| ensures SameGeometry(zones[k], device'[k]) {
      assert SameGeometry(zones[k], device[k]) && SameGeometry(device[k], device'[k]);
    }
  }

  lemma DeviceAfterReset(device: seq<Zone>, device': seq<Zone>, p: nat, i: nat)
    requires ZoneOf(device, p) == Some(i) && OnlyZoneOf(device, p, device')
    requires device'[i] == device[i].(wp := device[i].start, cond := Empty)
    ensures device' == device[i := device[i].(wp := device[i].start, cond := Empty)]
  {
  }

  lemma CollectingVictim(zones0: seq<Zone>, x0: Index, zones: seq<Zone>, x: Index, id: nat, r: nat, moved: nat)
    requires Collecting(zones0, x0, zones, x, id, r, moved)
    ensures id < |zones0| == |zones| && id != r && zones[id] == zones0[id]
  {
  }

  // ----- A failed data write -----

  /** A zone that a failed write left in a state from which the engine cannot go on: a is the allocator's picture, one
      block ahead, and d what the device reports. */
  predicate Damaged(a: Zone, d: Zone) {
    || (d.wp != a.wp && d.wp + BLOCK_SECTORS != a.wp)
    || d.cond == NotWp || d.cond == ReadOnly || d.cond == Offline
    || (d.cond == Empty && d.wp != d.start) || (d.cond == Full && d.wp != d.start + d.capacity)
    || a.wp % BLOCK_SECTORS != 0
  }

  /** The allocator refuses the reports of damaged zones and no other. */
  lemma RecoverableUnlessDamaged(z: Zone, d: Zone)
    requires MetadataValid(z) && CanAppend(z, BLOCK_SECTORS) && SameGeometry(z, d)
    ensures var a := z.(wp := z.wp + BLOCK_SECTORS); Recoverable(a, z.wp, d, BLOCK_SECTORS) <==> !Damaged(a, d)
  {
  }

  /** A failed write that never reached the zone, or that filled just its block, damages nothing. The zone has to start
      on a block boundary of the device, and to report its start as its pointer when it is empty. */
  lemma UntouchedNotDamaged(z: Zone, d: Zone)
    requires MetadataValid(z) && Aligned(z) && CanAppend(z, BLOCK_SECTORS) && SameGeometry(z, d) && InStep(z, d)
    requires z.start % BLOCK_SECTORS == 0 && (d.cond == Empty ==> d.wp == d.start)
    ensures var a := z.(wp := z.wp + BLOCK_SECTORS); !Damaged(a, d) && !Damaged(a, AfterWrite(d))
  {
  }

  /** A failed write left zone i damaged; unless a collection came before it, that is all that happened. */
  ghost predicate StoppedAt(zones0: seq<Zone>, zones: seq<Zone>, device: seq<Zone>, collected: bool, i: nat) {
    && i < |zones| == |device| == |zones0| && Damaged(zones[i], device[i])
    && (!collected ==> CanAppend(zones0[i], BLOCK_SECTORS) && zones == Advanced(zones0, i))
  }

  ghost predicate SomeZoneDamaged(zones0: seq<Zone>, zones: seq<Zone>, device: seq<Zone>, collected: bool) {
    exists i :: StoppedAt(zones0, zones, device, collected, i)
  }

  /** Zones start on block boundaries of the device, and an empty zone's pointer is at its start. */
  predicate Regular(device: seq<Zone>) {
    forall i | 0 <= i < |device| ::
      device[i].start % BLOCK_SECTORS == 0 && (device[i].cond == Empty ==> device[i].wp == device[i].start)
  }

  /** The device took one block, or nothing. */
  predicate AtMostOneWritten(device: seq<Zone>, device': seq<Zone>) {
    device' == device || exists i | 0 <= i < |device| :: device' == device[i := AfterWrite(device[i])]
  }

  /** A write that failed although the device took at most its block leaves no zone damaged. */
  lemma DamageIsSeen(zones0: seq<Zone>, device0: seq<Zone>, zones: seq<Zone>, device: seq<Zone>)
    requires Layout(zones0, device0) && AllInStep(zones0, device0) && Regular(device0)
    requires SomeZoneDamaged(zones0, zones, device, false)
    ensures !AtMostOneWritten(device0, device)
  {
    hide Damaged;
    var i: nat :| StoppedAt(zones0, zones, device, false, i);
    assert MetadataValid(zones0[i]) && Aligned(zones0[i]) && SameGeometry(zones0[i], device0[i])
           && InStep(zones0[i], device0[i]);
    UntouchedNotDamaged(zones0[i], device0[i]);
  }

  /** Zones have distinct starts, so a report names one allocator zone. */
  lemma SameStart(zones: seq<Zone>, i: nat, k: nat)
    requires Disjoint(zones) && i < |zones| && k < |zones| && zones[i].start == zones[k].start
    ensures i == k
  {
  }

  lemma FailedZone(zones0: seq<Zone>, device0: seq<Zone>, device: seq<Zone>, i: nat)
    requires i < |zones0| && CanAppend(zones0[i], BLOCK_SECTORS) && Layout(Advanced(zones0, i), device)
    requires Layout(zones0, device0)
    ensures Recoverable(Advanced(zones0, i)[i], zones0[i].wp, device[i], BLOCK_SECTORS) <==>
            !Damaged(Advanced(zones0, i)[i], device[i])
  {
    assert SameGeometry(Advanced(zones0, i)[i], device[i]);
    RecoverableUnlessDamaged(zones0[i], device[i]);
  }

  /** The zone of a failed write once the allocator has taken over an acceptable report of it. */
  lemma ResyncedZone(z: Zone, d: Zone, d': Zone, z': Zone)
    requires MetadataValid(z) && Aligned(z) && CanAppend(z, BLOCK_SECTORS) && InStep(z, d)
    requires SameGeometry(z, d) && SameGeometry(d, d')
    requires Recoverable(z.(wp := z.wp + BLOCK_SECTORS), z.wp, d', BLOCK_SECTORS)
    requires z' == z.(wp := d'.wp, cond := d'.cond, active := d'.active)
    ensures InStep(z', d') && SameGeometry(z', d') && Aligned(z') && MetadataValid(z') && SameGeometry(z, z')
    ensures z'.wp == z.wp || z'.wp == z.wp + BLOCK_SECTORS
  {
  }

  /** A report the allocator accepts brings it back in step with the device. */
  lemma ResyncInStep(zones: seq<Zone>, device: seq<Zone>, device': seq<Zone>, i: nat, zones': seq<Zone>)
    requires Layout(zones, device) && AllInStep(zones, device)
    requires i < |zones| && CanAppend(zones[i], BLOCK_SECTORS)
    requires OnlyZoneOf(device, zones[i].wp, device') && ZoneOf(device, zones[i].wp) == Some(i)
    requires Recoverable(Advanced(zones, i)[i], zones[i].wp, device'[i], BLOCK_SECTORS)
    requires zones' == zones[i := zones[i].(wp := device'[i].wp, cond := device'[i].cond, active := device'[i].active)]
    ensures Layout(zones', device') && AllInStep(zones', device')
    ensures zones'[i].wp == zones[i].wp || zones'[i].wp == zones[i].wp + BLOCK_SECTORS
    ensures SameLayout(Advanced(zones, i), zones') && SameLayout(zones, zones')
    ensures Aligned(zones[i])
  {
    hide InStep, Aligned, MetadataValid, Recoverable, CanAppend;
    assert MetadataValid(zones[i]) && Aligned(zones[i]) && InStep(zones[i], device[i])
           && SameGeometry(zones[i], device[i]) && SameGeometry(device[i], device'[i]);
    ResyncedZone(zones[i], device[i], device'[i], zones'[i]);
    forall k | 0 <= k < |zones|
      ensures InStep(zones'[k], device'[k]) && SameGeometry(zones'[k], device'[k]) && Aligned(zones'[k])
      ensures MetadataValid(zones'[k])
    {
      assert InStep(zones[k], device[k]) && SameGeometry(zones[k], device[k]) && Aligned(zones[k])
             && MetadataValid(zones[k]);
    }
  }

  lemma ReportedZone(device: seq<Zone>, device': seq<Zone>, p: nat, i: nat)
    requires OnlyZoneOf(device, p, device') && ZoneOf(device, p) == Some(i)
    ensures ZoneOf(device', p) == Some(i)
  {
    ZoneOfSameLayout(device, device', p);
  }

  lemma StartOf(zones: seq<Zone>, device: seq<Zone>, i: nat)
    requires Layout(zones, device) && i < |zones|
    ensures |zones| == |device| && zones[i].start == device[i].start
  {
    assert SameGeometry(zones[i], device[i]);
  }

  /** The number of mapped blocks is the number of blocks ever acknowledged. */
  lemma AckedCount(zones: seq<Zone>, x: Index, content: map<nat, Block>, acked: map<nat, Block>)
    requires Consistent(zones, x) && Stored(x.latest, content, acked)
    ensures |acked| == x.validBlocks
  {
    hide SlotAt, Records, OwnerMapped, Sums.Sum, Sums.Count;
    assert acked.Keys == x.latest.Keys;
    assert |acked| == |acked.Keys| && |x.latest| == |x.latest.Keys|;
  }

  lemma StoredKeys(latest: map<nat, nat>, content: map<nat, Block>, acked: map<nat, Block>)
    requires Stored(latest, content, acked)
    ensures forall b :: b in acked <==> b in latest
  {
  }

  /** While allocator and device are in step, the device's own zone report can take the allocator's place. */
  lemma ReportTakesOver(zones: seq<Zone>, device: seq<Zone>, x: Index, reserve: nat)
    requires Layout(zones, device) && AllInStep(zones, device) && reserve < |zones|
    requires Consistent(zones, x)
    ensures Layout(device, device) && AllInStep(device, device) && SameLayout(zones, device) && Consistent(device, x)
    ensures EmptyZone(zones[reserve], BLOCK_SECTORS) ==> EmptyZone(device[reserve], BLOCK_SECTORS)
  {
    hide Consistent, SlotAt;
    forall i | 0 <= i < |zones| ensures MirrorsZone(zones[i], device[i]) {
      assert SameGeometry(zones[i], device[i]) && InStep(zones[i], device[i]);
      assert MetadataValid(zones[i]) && Aligned(zones[i]);
    }
    forall i, j | 0 <= i < j < |device|
      ensures device[i].start < device[j].start && device[i].End() <= device[j].start
    {
      assert MirrorsZone(zones[i], device[i]) && MirrorsZone(zones[j], device[j]);
    }
    forall b | b in x.latest ensures SlotAt(device, x.latest[b]).Some? {
      MappedRecords(zones, x, b);
      StillWrittenOnDevice(zones, device, x.latest[b]);
    }
    ConsistentUnderZoneChange(zones, device, x);
    assert MirrorsZone(zones[reserve], device[reserve]);
  }

  /** Where nothing is ordinary, a zone in step is empty on the device only if it is the reserve and that is empty. */
  lemma OnlyReserveEmpty(zones: seq<Zone>, device: seq<Zone>, reserve: nat, i: nat)
    requires Layout(zones, device) && i < |zones| && InStep(zones[i], device[i])
    requires !Ordinary(zones, reserve, BLOCK_SECTORS, i) && EmptyZone(device[i], BLOCK_SECTORS)
    ensures i == reserve && EmptyZone(zones[i], BLOCK_SECTORS)
  {
    assert SameGeometry(zones[i], device[i]) && MetadataValid(zones[i]);
  }

  predicate MirrorsZone(a: Zone, d: Zone) {
    && SameGeometry(a, d) && a.wp == d.wp && (a.cond == Full ==> d.cond == Full)
    && MetadataValid(d) && Aligned(d) && InStep(d, d)
    && (EmptyZone(a, BLOCK_SECTORS) ==> EmptyZone(d, BLOCK_SECTORS))
  }

  lemma StillWrittenOnDevice(zones: seq<Zone>, device: seq<Zone>, p: nat)
    requires SameLayout(zones, device) && SlotAt(zones, p).Some?
    requires forall i | 0 <= i < |zones| :: MirrorsZone(zones[i], device[i])
    ensures SlotAt(device, p).Some?
  {
    ZoneOfSameLayout(zones, device, p);
    assert MirrorsZone(zones[ZoneOf(zones, p).value], device[ZoneOf(zones, p).value]);
  }

  /** Every sector that can hold a block has a 64-bit number. */
  lemma UnownedFits(zones: seq<Zone>, x: Index, p: nat)
    requires Unowned(zones, x, p) && forall i | 0 <= i < |zones| :: MetadataValid(zones[i])
    ensures p < U64
  {
    assert MetadataValid(zones[SlotAt(zones, p).value.zone]);
  }
}
