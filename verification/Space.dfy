/** Space arithmetic over equal zones: free ordinary blocks, when a victim exists, and what one collection gains. */
module Space {
  import opened Prelude
  import opened Sums
  import opened Zones
  import opened Allocators
  import opened GcIndexes
  import opened GcPolicies
  import opened EngineState

  /** Every zone holds c whole blocks, and none is read-only or offline. */
  predicate Uniform(zones: seq<Zone>, c: nat) {
    0 < c && forall i | 0 <= i < |zones| ::
      zones[i].capacity / BLOCK_SECTORS == c && zones[i].cond != ReadOnly && zones[i].cond != Offline
  }

  function ZoneFree(zones: seq<Zone>, reserve: nat, i: nat): nat
    requires i < |zones|
  {
    if i != reserve && CanAppend(zones[i], BLOCK_SECTORS) then FreeBlocks(zones[i]) else 0
  }

  function FreeVector(zones: seq<Zone>, reserve: nat): seq<nat> {
    seq(|zones|, i requires 0 <= i < |zones| => ZoneFree(zones, reserve, i))
  }

  /** Blocks ordinary allocation can still hand out. */
  function OrdinaryFree(zones: seq<Zone>, reserve: nat): nat {
    Sum(FreeVector(zones, reserve))
  }

  lemma AdvancedFree(zones: seq<Zone>, reserve: nat, i: nat)
    requires Ordinary(zones, reserve, BLOCK_SECTORS, i) && zones[i].start <= zones[i].wp
    ensures OrdinaryFree(zones, reserve) > 0
    ensures OrdinaryFree(Advanced(zones, i), reserve) == OrdinaryFree(zones, reserve) - 1
  {
    hide Sum;
    var v, v' := FreeVector(zones, reserve), FreeVector(Advanced(zones, i), reserve);
    assert v[i] > 0 && v'[i] == v[i] - 1;
    assert v' == v[i := v'[i]];
    SumUpdate(v, i, v'[i]);
    SumPart(v, i);
  }

  lemma NoneFree(zones: seq<Zone>, reserve: nat)
    requires forall i :: !Ordinary(zones, reserve, BLOCK_SECTORS, i)
    ensures OrdinaryFree(zones, reserve) == 0
  {
    hide Sum;
    forall i | 0 <= i < |zones| ensures ZoneFree(zones, reserve, i) == 0 {
      assert !Ordinary(zones, reserve, BLOCK_SECTORS, i);
    }
    SumAtMost(FreeVector(zones, reserve), 0);
  }

  /** A zone never owns more blocks than it has slots, and an empty zone owns none. */
  lemma ValidAtMostSlots(zones: seq<Zone>, x: Index, i: nat)
    requires i < |zones| && Disjoint(zones) && Consistent(zones, x)
    ensures i < |x.nrValid| && i < |x.reverse| && x.nrValid[i] <= Slots(zones[i])
    ensures x.nrValid[i] == Slots(zones[i]) ==> forall t | 0 <= t < |x.reverse[i]| :: x.reverse[i][t] != 0
    ensures EmptyZone(zones[i], BLOCK_SECTORS) ==> x.nrValid[i] == 0
  {
    hide SlotAt, Records, OwnerMapped, Sum, Count;
    CountBounds(x.reverse[i]);
    if EmptyZone(zones[i], BLOCK_SECTORS) {
      forall t | 0 <= t < |x.reverse[i]| ensures x.reverse[i][t] == 0 {
        if x.reverse[i][t] != 0 {
          EmptySlotFree(zones, x, i, t);
        }
      }
    }
  }

  lemma EmptySlotFree(zones: seq<Zone>, x: Index, i: nat, t: nat)
    requires i < |zones| && EmptyZone(zones[i], BLOCK_SECTORS) && Disjoint(zones)
    requires i < |x.reverse| && t < |x.reverse[i]|
    requires Consistent(zones, x)
    ensures x.reverse[i][t] == 0
  {
    hide Consistent;
    if x.reverse[i][t] != 0 {
      var b := x.reverse[i][t] - 1;
      OccupiedSlot(zones, x, Slot(i, t), b);
      MappedBelowPointer(zones, x, b, i);
    }
  }

  /** Live blocks never exceed the slots outside the empty reserve; at the limit every such slot is live. */
  lemma MappedAtMost(zones: seq<Zone>, x: Index, c: nat, reserve: nat)
    requires Disjoint(zones) && Consistent(zones, x) && Uniform(zones, c)
    requires reserve < |zones| && EmptyZone(zones[reserve], BLOCK_SECTORS)
    ensures x.validBlocks <= (|zones| - 1) * c
    ensures |x.nrValid| == |zones|
    ensures x.validBlocks == (|zones| - 1) * c ==> forall i | 0 <= i < |zones| && i != reserve :: x.nrValid[i] == c
  {
    hide Consistent;
    ConsistentTotals(zones, x);
    ValidAtMostSlots(zones, x, reserve);
    forall i | 0 <= i < |zones| ensures x.nrValid[i] <= c {
      ValidAtMostSlots(zones, x, i);
    }
    SumAtMostExcept(x.nrValid, reserve, c);
  }

  lemma ConsistentTotals(zones: seq<Zone>, x: Index)
    requires Consistent(zones, x)
    ensures |x.nrValid| == |zones| && Sum(x.nrValid) == x.validBlocks == |x.latest|
  {
  }

  /** With live blocks to spare, some full zone can be collected. */
  lemma VictimExists(zones: seq<Zone>, x: Index, c: nat, reserve: nat)
    requires Disjoint(zones) && Consistent(zones, x) && Uniform(zones, c)
    requires reserve < |zones| && EmptyZone(zones[reserve], BLOCK_SECTORS)
    requires forall i :: !Ordinary(zones, reserve, BLOCK_SECTORS, i)
    requires x.validBlocks < (|zones| - 1) * c
    ensures |x.nrValid| == |zones|
    ensures exists i | 0 <= i < |zones| ::
              Eligible(GetZoneInfo(zones, reserve, x.nrValid, i), FreeBlocks(zones[reserve]))
  {
    hide Consistent;
    ConsistentTotals(zones, x);
    ValidAtMostSlots(zones, x, reserve);
    if forall i | 0 <= i < |zones| && i != reserve :: c <= x.nrValid[i] {
      SumAtLeastExcept(x.nrValid, reserve, c);
    } else {
      var i :| 0 <= i < |zones| && i != reserve && x.nrValid[i] < c;
      assert !Ordinary(zones, reserve, BLOCK_SECTORS, i);
      assert Eligible(GetZoneInfo(zones, reserve, x.nrValid, i), FreeBlocks(zones[reserve]));
    }
  }

  /** At the limit no zone can take a block and no zone can be collected. */
  lemma FullDeviceStuck(zones: seq<Zone>, x: Index, c: nat, reserve: nat)
    requires Disjoint(zones) && (forall i | 0 <= i < |zones| :: Aligned(zones[i])) && Uniform(zones, c)
    requires reserve < |zones| && EmptyZone(zones[reserve], BLOCK_SECTORS)
    requires x.validBlocks == (|zones| - 1) * c
    requires Consistent(zones, x)
    ensures |x.nrValid| == |zones|
    ensures forall i :: !Ordinary(zones, reserve, BLOCK_SECTORS, i)
    ensures forall i | 0 <= i < |zones| ::
              !Eligible(GetZoneInfo(zones, reserve, x.nrValid, i), FreeBlocks(zones[reserve]))
  {
    hide Consistent;
    MappedAtMost(zones, x, c, reserve);
    forall i ensures !Ordinary(zones, reserve, BLOCK_SECTORS, i) {
      if Ordinary(zones, reserve, BLOCK_SECTORS, i) {
        FullZoneNotAppendable(zones, x, i);
      }
    }
  }

  lemma FullZoneNotAppendable(zones: seq<Zone>, x: Index, i: nat)
    requires i < |zones| && Disjoint(zones) && Aligned(zones[i])
    requires i < |x.nrValid| && x.nrValid[i] == Slots(zones[i])
    requires Consistent(zones, x)
    ensures !CanAppend(zones[i], BLOCK_SECTORS)
  {
    hide Consistent;
    if CanAppend(zones[i], BLOCK_SECTORS) {
      ValidAtMostSlots(zones, x, i);
      RevealShape(zones, x);
      var t := (zones[i].wp - zones[i].start) / BLOCK_SECTORS;
      var b := x.reverse[i][t] - 1;
      OccupiedSlot(zones, x, Slot(i, t), b);
      MappedBelowPointer(zones, x, b, i);
    }
  }

  /** The greedy victim holds at most the average number of live blocks. */
  lemma GreedyBelowAverage(zones: seq<Zone>, x: Index, c: nat, reserve: nat, v: nat)
    requires Uniform(zones, c) && Disjoint(zones)
    requires reserve < |zones| && v < |zones| == |x.nrValid| && EmptyZone(zones[reserve], BLOCK_SECTORS)
    requires forall i :: !Ordinary(zones, reserve, BLOCK_SECTORS, i)
    requires Eligible(GetZoneInfo(zones, reserve, x.nrValid, v), FreeBlocks(zones[reserve]))
    requires forall i | 0 <= i < |zones| && Eligible(GetZoneInfo(zones, reserve, x.nrValid, i),
                                                     FreeBlocks(zones[reserve])) ::
               x.nrValid[v] <= x.nrValid[i]
    requires Consistent(zones, x)
    ensures (|zones| - 1) * x.nrValid[v] <= x.validBlocks
  {
    hide Consistent;
    ConsistentTotals(zones, x);
    ValidAtMostSlots(zones, x, reserve);
    forall i | 0 <= i < |zones| && i != reserve ensures x.nrValid[v] <= x.nrValid[i] {
      assert !Ordinary(zones, reserve, BLOCK_SECTORS, i);
      if x.nrValid[i] < c {
        assert Eligible(GetZoneInfo(zones, reserve, x.nrValid, i), FreeBlocks(zones[reserve]));
      }
    }
    SumAtLeastExcept(x.nrValid, reserve, x.nrValid[v]);
  }

  /** What one collection gains: the former reserve offers every slot the moved blocks did not take. */
  lemma CollectedFree(zones0: seq<Zone>, x0: Index, zones: seq<Zone>, x: Index, c: nat, id: nat, r: nat)
    requires Uniform(zones0, c) && Collected(zones0, x0, zones, x, id, r)
    requires EmptyZone(zones0[r], BLOCK_SECTORS) && x0.nrValid[id] < c
    requires forall i :: !Ordinary(zones0, r, BLOCK_SECTORS, i)
    ensures Uniform(zones, c) && Ordinary(zones, id, BLOCK_SECTORS, r)
    ensures OrdinaryFree(zones, id) == c - x0.nrValid[id]
  {
    hide Sum;
    var v := FreeVector(zones, id);
    assert Slots(zones0[r]) == c;
    assert v[r] == c - x0.nrValid[id];
    forall i | 0 <= i < |zones| && i != r ensures v[i] == 0 {
      assert !Ordinary(zones0, r, BLOCK_SECTORS, i);
    }
    var none := v[r := 0];
    SumUpdate(v, r, 0);
    SumAtMost(none, 0);
  }

  /** The slots outside the reserve among n zones of c blocks. */
  function Limit(n: nat, c: nat): nat
    requires n > 0
  {
    (n - 1) * c
  }

  /** How one acknowledged block write is paid for: from a free ordinary block or, when there is none,
      from the slots one collection gained beyond the d live blocks it had to move. */
  predicate Charged(policy: Policy, n: nat, c: nat, mapped: nat, free: nat, free': nat, d: nat) {
    && n > 0
    && mapped < Limit(n, c)
    && (free > 0 ==> free' == free - 1 && d == 0)
    && (free == 0 ==> d < c && free' == c - d - 1 && (policy.Greedy? ==> (n - 1) * d <= mapped))
  }

  /** A write that found an ordinary block. */
  lemma ChargedDirectly(policy: Policy, zones: seq<Zone>, device: seq<Zone>, x: Index, c: nat, reserve: nat, i: nat)
    requires Layout(zones, device) && Uniform(zones, c)
    requires reserve < |zones| && EmptyZone(zones[reserve], BLOCK_SECTORS) && Ordinary(zones, reserve, BLOCK_SECTORS, i)
    requires Consistent(zones, x)
    ensures Uniform(Advanced(zones, i), c)
    ensures Charged(policy, |zones|, c, x.validBlocks, OrdinaryFree(zones, reserve),
                    OrdinaryFree(Advanced(zones, i), reserve), 0)
  {
    hide Consistent, OrdinaryFree;
    assert MetadataValid(zones[i]);
    AdvancedFree(zones, reserve, i);
    MappedAtMost(zones, x, c, reserve);
    if x.validBlocks == Limit(|zones|, c) {
      FullDeviceStuck(zones, x, c, reserve);
    }
    forall k | 0 <= k < |zones| ensures Slots(Advanced(zones, i)[k]) == c && Resettable(Advanced(zones, i)[k]) {
      assert Slots(zones[k]) == c && Resettable(zones[k]);
    }
  }

  /** A collection, before the write it makes room for. */
  lemma CollectionGain(policy: Policy, zones0: seq<Zone>, x0: Index, zones: seq<Zone>, x: Index, c: nat, v: nat, r: nat)
    requires Disjoint(zones0) && Uniform(zones0, c)
    requires Chosen(policy, zones0, r, x0.nrValid, v) && EmptyZone(zones0[r], BLOCK_SECTORS)
    requires forall i :: !Ordinary(zones0, r, BLOCK_SECTORS, i)
    requires Collected(zones0, x0, zones, x, v, r)
    requires Consistent(zones0, x0)
    ensures Uniform(zones, c) && Ordinary(zones, v, BLOCK_SECTORS, r) && OrdinaryFree(zones0, r) == 0
    ensures v < |x0.nrValid| && x0.nrValid[v] < c && OrdinaryFree(zones, v) == c - x0.nrValid[v]
    ensures x0.validBlocks < Limit(|zones0|, c)
    ensures policy.Greedy? ==> (|zones0| - 1) * x0.nrValid[v] <= x0.validBlocks
  {
    hide Consistent, OrdinaryFree, Collected;
    assert Slots(zones0[v]) == c;
    EligibleFacts(zones0, r, x0.nrValid, v, FreeBlocks(zones0[r]));
    NoneFree(zones0, r);
    CollectedFree(zones0, x0, zones, x, c, v, r);
    MappedAtMost(zones0, x0, c, r);
    if policy.Greedy? {
      GreedyBelowAverage(zones0, x0, c, r, v);
    }
  }

  /** Nothing to allocate and nothing to collect: every slot outside the reserve holds a live block. */
  lemma StuckMeansFull(zones: seq<Zone>, x: Index, c: nat, reserve: nat)
    requires Disjoint(zones) && Uniform(zones, c) && reserve < |zones| && EmptyZone(zones[reserve], BLOCK_SECTORS)
    requires forall i :: !Ordinary(zones, reserve, BLOCK_SECTORS, i)
    requires |x.nrValid| == |zones|
    requires forall i | 0 <= i < |zones| ::
               !Eligible(GetZoneInfo(zones, reserve, x.nrValid, i), FreeBlocks(zones[reserve]))
    requires Consistent(zones, x)
    ensures x.validBlocks == Limit(|zones|, c)
  {
    hide Consistent;
    MappedAtMost(zones, x, c, reserve);
    if x.validBlocks < Limit(|zones|, c) {
      VictimExists(zones, x, c, reserve);
    }
  }

  /** The two ways to pay, combined: zones0 before, zones1 after collection if any, zones2 after the write. */
  lemma ChargedTotal(policy: Policy, zones0: seq<Zone>, r0: nat, x0: Index, zones1: seq<Zone>, r1: nat, x1: Index,
                     zones2: seq<Zone>, c: nat, victim: Option<nat>)
    requires |zones0| == |zones1| && zones0 != []
    requires Charged(policy, |zones1|, c, x1.validBlocks, OrdinaryFree(zones1, r1), OrdinaryFree(zones2, r1), 0)
    requires victim.None? ==> zones1 == zones0 && r1 == r0 && x1 == x0
    requires victim.Some? ==>
               && victim.value < |x0.nrValid| && x0.nrValid[victim.value] < c
               && OrdinaryFree(zones0, r0) == 0 && OrdinaryFree(zones1, r1) == c - x0.nrValid[victim.value]
               && x0.validBlocks < Limit(|zones0|, c)
               && (policy.Greedy? ==> (|zones0| - 1) * x0.nrValid[victim.value] <= x0.validBlocks)
    ensures Charged(policy, |zones0|, c, x0.validBlocks, OrdinaryFree(zones0, r0), OrdinaryFree(zones2, r1),
                    if victim.Some? then x0.nrValid[victim.value] else 0)
    ensures x0.validBlocks < Limit(|zones0|, c)
  {
    hide OrdinaryFree;
  }

  // ----- Zones of any sizes -----

  /** What decides a write before anything happens: an ordinary block is free, or the policy has a victim whose live
      blocks leave at least one block of the reserve over. */
  ghost predicate WriteFits(policy: Policy, zones: seq<Zone>, reserve: nat, nrValid: seq<nat>) {
    || (exists i :: Ordinary(zones, reserve, BLOCK_SECTORS, i))
    || (exists v: nat :: Chosen(policy, zones, reserve, nrValid, v) && nrValid[v] < FreeBlocks(zones[reserve]))
  }

  lemma ChosenUnique(policy: Policy, zones: seq<Zone>, reserve: nat, nrValid: seq<nat>, u: nat, v: nat)
    requires Chosen(policy, zones, reserve, nrValid, u) && Chosen(policy, zones, reserve, nrValid, v)
    ensures u == v
  {
    hide Eligible, GetZoneInfo;
  }

  /** On zones of any sizes a collection leaves an ordinary block exactly if the victim's live blocks do not fill the
      reserve. The eligibility test only asks that they fit, which is enough when the zones are equal. */
  lemma CollectionLeavesRoom(policy: Policy, zones0: seq<Zone>, x0: Index, zones: seq<Zone>, x: Index, v: nat, r: nat)
    requires Collected(zones0, x0, zones, x, v, r) && EmptyZone(zones0[r], BLOCK_SECTORS)
    requires Chosen(policy, zones0, r, x0.nrValid, v)
    requires forall i :: !Ordinary(zones0, r, BLOCK_SECTORS, i)
    ensures (exists i :: Ordinary(zones, v, BLOCK_SECTORS, i)) <==> WriteFits(policy, zones0, r, x0.nrValid)
  {
    hide Chosen, Consistent;
    ReserveRoom(zones0[r], zones[r], x0.nrValid[v]);
    forall u: nat | Chosen(policy, zones0, r, x0.nrValid, u) ensures u == v {
      ChosenUnique(policy, zones0, r, x0.nrValid, u, v);
    }
    forall i: nat | i != r ensures !Ordinary(zones, v, BLOCK_SECTORS, i) {
      assert !Ordinary(zones0, r, BLOCK_SECTORS, i);
    }
    if x0.nrValid[v] < FreeBlocks(zones0[r]) {
      assert Ordinary(zones, v, BLOCK_SECTORS, r);
      assert Chosen(policy, zones0, r, x0.nrValid, v);
    } else {
      assert !Ordinary(zones, v, BLOCK_SECTORS, r);
    }
  }

  lemma ReserveRoom(z0: Zone, z: Zone, n: nat)
    requires EmptyZone(z0, BLOCK_SECTORS) && z == z0.(wp := z0.wp + BLOCK_SECTORS * n)
    ensures CanAppend(z, BLOCK_SECTORS) <==> n < FreeBlocks(z0)
  {
  }

  /** Nothing free and nothing eligible. */
  lemma NothingFits(policy: Policy, zones: seq<Zone>, reserve: nat, nrValid: seq<nat>)
    requires reserve < |zones| == |nrValid| && forall i :: !Ordinary(zones, reserve, BLOCK_SECTORS, i)
    requires forall i | 0 <= i < |zones| ::
               !Eligible(GetZoneInfo(zones, reserve, nrValid, i), FreeBlocks(zones[reserve]))
    ensures !WriteFits(policy, zones, reserve, nrValid)
  {
    forall v: nat ensures !Chosen(policy, zones, reserve, nrValid, v) {
    }
  }

  lemma OrdinaryFits(policy: Policy, zones: seq<Zone>, reserve: nat, nrValid: seq<nat>)
    ensures (exists i :: Ordinary(zones, reserve, BLOCK_SECTORS, i)) ==> WriteFits(policy, zones, reserve, nrValid)
  {
  }

  // ----- One write, decided in advance -----

  /** What decides the fate of a write: the allocator's zones and cursors, and the index. */
  datatype Disk = Disk(zones: seq<Zone>, active: nat, reserve: nat, x: Index)

  /** Nothing to allocate and nothing that could be collected. */
  ghost predicate Stuck(d: Disk) {
    && d.reserve < |d.zones| == |d.x.nrValid|
    && (forall i :: !Ordinary(d.zones, d.reserve, BLOCK_SECTORS, i))
    && (forall i | 0 <= i < |d.zones| ::
          !Eligible(GetZoneInfo(d.zones, d.reserve, d.x.nrValid, i), FreeBlocks(d.zones[d.reserve])))
  }

  /** Block b went to the write pointer of ordinary zone i, which is the active zone if that had room. */
  ghost predicate PlacedAt(d: Disk, b: nat, d': Disk, i: nat) {
    && Ordinary(d.zones, d.reserve, BLOCK_SECTORS, i)
    && d'.zones == Advanced(d.zones, i) && d'.reserve == d.reserve && d'.x.latest == d.x.latest[b := d.zones[i].wp]
    && d'.zones[i].wp <= d'.zones[i].End() && d'.active == NextActive(d'.zones[i], i, BLOCK_SECTORS)
    && (Ordinary(d.zones, d.reserve, BLOCK_SECTORS, d.active) ==> i == d.active)
  }

  /** The reserve changed to a larger zone. */
  predicate ReserveGrew(d: Disk, d': Disk) {
    && SameLayout(d.zones, d'.zones) && d.reserve < |d.zones| && d'.reserve < |d'.zones|
    && Slots(d.zones[d.reserve]) < Slots(d'.zones[d'.reserve])
  }

  /** What could be reset can still be reset. */
  predicate StillResettable(zones: seq<Zone>, zones': seq<Zone>)
    requires |zones| == |zones'|
  {
    forall i | 0 <= i < |zones| && Resettable(zones[i]) :: Resettable(zones'[i])
  }

  /** A failure-free write, on zones of any sizes. It is refused for good if nothing is ordinary and nothing eligible:
      then it changes nothing, and so will every later one. If there is a victim but its live blocks fill the reserve,
      only this write is refused: the victim was collected all the same, and the reserve is now a larger zone. */
  ghost predicate WriteOutcome(policy: Policy, d: Disk, b: nat, d': Disk, r: Errno) {
    && SameLayout(d.zones, d'.zones) && StillResettable(d.zones, d'.zones)
    && (r == Success <==> WriteFits(policy, d.zones, d.reserve, d.x.nrValid))
    && ((exists i :: Ordinary(d.zones, d.reserve, BLOCK_SECTORS, i)) ==> exists i :: PlacedAt(d, b, d', i))
    && (r != Success ==> r == NoSpace && if Stuck(d) then d' == d else ReserveGrew(d, d'))
  }

  lemma PlacedFacts(d: Disk, b: nat, d': Disk, i: nat)
    requires PlacedAt(d, b, d', i)
    ensures Ordinary(d.zones, d.reserve, BLOCK_SECTORS, i) && d'.zones == Advanced(d.zones, i)
    ensures d'.reserve == d.reserve
    ensures SameLayout(d.zones, d'.zones)
  {
  }

  lemma PlacedKeepsZones(d: Disk, b: nat, d': Disk, i: nat)
    requires PlacedAt(d, b, d', i)
    ensures SameLayout(d.zones, d'.zones) && StillResettable(d.zones, d'.zones)
  {
  }

  /** The first ordinary zone of the scan is the active one if that is ordinary. */
  lemma TakenFirst(zones: seq<Zone>, reserve: nat, active: nat, i: nat)
    requires Ordinary(zones, reserve, BLOCK_SECTORS, i)
    requires var first := if active < |zones| then active else 0;
             forall k | Ordinary(zones, reserve, BLOCK_SECTORS, k) ::
               ScanDistance(first, i, |zones|) <= ScanDistance(first, k, |zones|)
    ensures Ordinary(zones, reserve, BLOCK_SECTORS, active) ==> i == active
  {
    if Ordinary(zones, reserve, BLOCK_SECTORS, active) {
      ScanStart(active, |zones|);
      ScanZero(active, i, |zones|);
    }
  }

  /** On even zones a stuck device is full of live blocks. */
  lemma StuckDisk(d: Disk, c: nat)
    requires Stuck(d) && Disjoint(d.zones) && Uniform(d.zones, c) && EmptyZone(d.zones[d.reserve], BLOCK_SECTORS)
    requires Consistent(d.zones, d.x)
    ensures d.x.validBlocks == Limit(|d.zones|, c)
  {
    StuckMeansFull(d.zones, d.x, c, d.reserve);
  }

  lemma OutcomeStuck(policy: Policy, d: Disk, b: nat)
    requires Stuck(d)
    ensures WriteOutcome(policy, d, b, d, NoSpace)
  {
    NothingFits(policy, d.zones, d.reserve, d.x.nrValid);
  }

  lemma OutcomePlaced(policy: Policy, d: Disk, b: nat, d': Disk, i: nat)
    requires PlacedAt(d, b, d', i)
    ensures WriteOutcome(policy, d, b, d', Success)
  {
  }

  /** The outcome of a write that had to collect first: zones1 is what the collection of v left. */
  lemma OutcomeCollected(policy: Policy, d: Disk, b: nat, zones1: seq<Zone>, x1: Index, v: nat, d': Disk, r: Errno)
    requires Collected(d.zones, d.x, zones1, x1, v, d.reserve) && EmptyZone(d.zones[d.reserve], BLOCK_SECTORS)
    requires Chosen(policy, d.zones, d.reserve, d.x.nrValid, v)
    requires forall i :: !Ordinary(d.zones, d.reserve, BLOCK_SECTORS, i)
    requires d'.reserve == v && SameLayout(zones1, d'.zones) && StillResettable(zones1, d'.zones)
    requires r == Success || r == NoSpace
    requires r == Success <==> exists i :: Ordinary(zones1, v, BLOCK_SECTORS, i)
    ensures WriteOutcome(policy, d, b, d', r)
  {
    CollectionLeavesRoom(policy, d.zones, d.x, zones1, x1, v, d.reserve);
    hide WriteFits, Ordinary, CanAppend;
    assert SameLayout(d.zones, zones1) && StillResettable(d.zones, zones1);
    assert forall i | 0 <= i < |d.zones| :: SameGeometry(d.zones[i], zones1[i]) && SameGeometry(zones1[i], d'.zones[i]);
    if r != Success {
      VictimFillsReserve(policy, d.zones, d.reserve, d.x.nrValid, v);
      assert !Stuck(d);
    }
  }

  /** What a successful run_gc_if_needed says about the disk d before and d1 after it. */
  ghost predicate Prepared(policy: Policy, d: Disk, d1: Disk, victim: Option<nat>) {
    match victim
    case None => d1 == d && exists i :: Ordinary(d.zones, d.reserve, BLOCK_SECTORS, i)
    case Some(v) =>
      && Chosen(policy, d.zones, d.reserve, d.x.nrValid, v) && d1.reserve == v
      && (forall i :: !Ordinary(d.zones, d.reserve, BLOCK_SECTORS, i))
      && Collected(d.zones, d.x, d1.zones, d1.x, v, d.reserve)
  }

  /** What a failed run_gc_if_needed leaves: there was no ordinary block to begin with, and at most the reserve has
      filled up. */
  ghost predicate Aborted(d: Disk, d': Disk) {
    && (forall i :: !Ordinary(d.zones, d.reserve, BLOCK_SECTORS, i))
    && d'.reserve == d.reserve && OnlyFilled(d.zones, d'.zones, d.reserve)
  }

  lemma AbortedFull(d: Disk, d': Disk)
    requires Aborted(d, d')
    ensures forall i :: !Ordinary(d.zones, d.reserve, BLOCK_SECTORS, i)
  {
  }

  /** Blocks a collection moves: the victim's live blocks. */
  function MovedBy(nrValid: seq<nat>, victim: Option<nat>): nat {
    if victim.Some? && victim.value < |nrValid| then nrValid[victim.value] else 0
  }

  /** On even zones there is an ordinary block once run_gc_if_needed has succeeded, and the zones are still even. */
  lemma EvenPrepared(policy: Policy, d: Disk, d1: Disk, victim: Option<nat>, c: nat)
    requires Prepared(policy, d, d1, victim) && Disjoint(d.zones) && Uniform(d.zones, c)
    requires d.reserve < |d.zones| && EmptyZone(d.zones[d.reserve], BLOCK_SECTORS)
    requires Consistent(d.zones, d.x)
    ensures Uniform(d1.zones, c) && exists i :: Ordinary(d1.zones, d1.reserve, BLOCK_SECTORS, i)
  {
    hide Ordinary, Collected, Chosen, Consistent;
    if victim.Some? {
      CollectionGain(policy, d.zones, d.x, d1.zones, d1.x, c, victim.value, d.reserve);
    }
  }

  lemma PreparedLength(policy: Policy, d: Disk, d1: Disk, victim: Option<nat>)
    requires Prepared(policy, d, d1, victim)
    ensures |d1.zones| == |d.zones|
  {
  }

  /** What a write costs on even zones, collection included. */
  lemma ChargeOf(policy: Policy, d: Disk, b: nat, d1: Disk, victim: Option<nat>, d2: Disk, i: nat, device: seq<Zone>,
                 c: nat)
    requires Prepared(policy, d, d1, victim) && PlacedAt(d1, b, d2, i) && Disjoint(d.zones) && Uniform(d.zones, c)
    requires d.reserve < |d.zones| && EmptyZone(d.zones[d.reserve], BLOCK_SECTORS)
    requires d1.reserve < |d1.zones| && EmptyZone(d1.zones[d1.reserve], BLOCK_SECTORS)
    requires Layout(d1.zones, device) && Uniform(d1.zones, c)
    requires Consistent(d.zones, d.x) && Consistent(d1.zones, d1.x)
    ensures Uniform(d2.zones, c)
    ensures Charged(policy, |d.zones|, c, d.x.validBlocks, OrdinaryFree(d.zones, d.reserve),
                    OrdinaryFree(d2.zones, d2.reserve),
                    MovedBy(d.x.nrValid, victim))
    ensures d.x.validBlocks < Limit(|d.zones|, c)
  {
    hide Ordinary, Collected, Chosen, Consistent, Layout, Charged, OrdinaryFree, Uniform, Limit, PlacedAt, EmptyZone,
         Disjoint, Advanced;
    PreparedLength(policy, d, d1, victim);
    PlacedFacts(d1, b, d2, i);
    if victim.Some? {
      CollectionGain(policy, d.zones, d.x, d1.zones, d1.x, c, victim.value, d.reserve);
    }
    ChargedDirectly(policy, d1.zones, device, d1.x, c, d1.reserve, i);
    ChargedTotal(policy, d.zones, d.reserve, d.x, d1.zones, d1.reserve, d1.x, d2.zones, c, victim);
  }

  lemma NotStuck(policy: Policy, d: Disk, d1: Disk, victim: Option<nat>)
    requires Prepared(policy, d, d1, victim)
    ensures !Stuck(d) && ((forall i :: !Ordinary(d.zones, d.reserve, BLOCK_SECTORS, i)) <==> victim.Some?)
  {
    hide Ordinary, Collected;
    if victim.Some? {
      EligibleFacts(d.zones, d.reserve, d.x.nrValid, victim.value, FreeBlocks(d.zones[d.reserve]));
    }
  }

  lemma StoppedAfter(policy: Policy, d: Disk, d1: Disk, victim: Option<nat>, zones: seq<Zone>,
                     device: seq<Zone>, i: nat)
    requires Prepared(policy, d, d1, victim) && StoppedAt(d1.zones, zones, device, false, i)
    ensures SomeZoneDamaged(d.zones, zones, device, victim.Some?)
  {
    hide Damaged, Ordinary, Collected, Chosen;
    PreparedLength(policy, d, d1, victim);
    assert StoppedAt(d.zones, zones, device, victim.Some?, i);
  }

  lemma OutcomeOf(policy: Policy, d: Disk, b: nat, d1: Disk, victim: Option<nat>, d2: Disk, r: Errno, i: nat)
    requires Prepared(policy, d, d1, victim) && d.reserve < |d.zones| && EmptyZone(d.zones[d.reserve], BLOCK_SECTORS)
    requires r == Success ==> PlacedAt(d1, b, d2, i)
    requires r != Success ==>
               && r == NoSpace && d2.zones == d1.zones && d2.reserve == d1.reserve
               && forall k :: !Ordinary(d1.zones, d1.reserve, BLOCK_SECTORS, k)
    ensures WriteOutcome(policy, d, b, d2, r)
  {
    hide WriteOutcome, Collected, Chosen;
    if r == Success {
      PlacedKeepsZones(d1, b, d2, i);
    }
    hide Ordinary, PlacedAt;
    if victim.Some? {
      OutcomeCollected(policy, d, b, d1.zones, d1.x, victim.value, d2, r);
    } else {
      OutcomePlaced(policy, d, b, d2, i);
    }
  }

  lemma VictimFillsReserve(policy: Policy, zones: seq<Zone>, reserve: nat, nrValid: seq<nat>, v: nat)
    requires Chosen(policy, zones, reserve, nrValid, v) && !WriteFits(policy, zones, reserve, nrValid)
    requires EmptyZone(zones[reserve], BLOCK_SECTORS)
    ensures Eligible(GetZoneInfo(zones, reserve, nrValid, v), FreeBlocks(zones[reserve]))
    ensures nrValid[v] == FreeBlocks(zones[reserve]) && Slots(zones[reserve]) < Slots(zones[v])
  {
    EligibleFacts(zones, reserve, nrValid, v, FreeBlocks(zones[reserve]));
  }

  /** Zones larger than the reserve. */
  ghost function LargerZones(d: Disk): set<nat>
    requires d.reserve < |d.zones|
  {
    set i: nat | i < |d.zones| && Slots(d.zones[d.reserve]) < Slots(d.zones[i])
  }

  /** Every refusal that is not for good leaves fewer zones that are larger than the reserve. */
  lemma FewerLarger(d: Disk, d': Disk)
    requires ReserveGrew(d, d')
    ensures |LargerZones(d')| < |LargerZones(d)|
  {
    assert forall i | 0 <= i < |d.zones| :: SameGeometry(d.zones[i], d'.zones[i]);
    assert d'.reserve in LargerZones(d) && d'.reserve !in LargerZones(d');
    assert LargerZones(d') <= LargerZones(d) - {d'.reserve};
    SubsetAtMost(LargerZones(d'), LargerZones(d) - {d'.reserve});
  }

  lemma LargerAtMost(d: Disk)
    requires d.reserve < |d.zones|
    ensures |LargerZones(d)| < |d.zones|
  {
    var larger := LargerZones(d);
    KeysCount(larger + {d.reserve}, |d.zones|);
    assert |larger + {d.reserve}| == |larger| + 1;
  }
}
