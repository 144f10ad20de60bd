/** Zone descriptors and the two predicates shared by the allocator and garbage collection. */
module Zones {
  import opened Prelude

  datatype Condition = NotWp | Empty | ImpOpen | ExpOpen | Closed | ReadOnly | Full | Offline

  datatype Zone = Zone(start: nat, length: nat, capacity: nat, wp: nat, cond: Condition, active: bool) {
    function End(): nat { start + capacity }
  }

  predicate Writable(z: Zone) {
    z.cond != Full && z.cond != ReadOnly && z.cond != Offline
  }

  predicate Resettable(z: Zone) {
    z.cond != ReadOnly && z.cond != Offline
  }

  predicate CanAppend(z: Zone, spb: nat) {
    Writable(z) && z.wp <= z.End() && spb <= z.End() - z.wp
  }

  predicate MetadataValid(z: Zone) {
    && 0 < z.length && z.capacity <= z.length
    && z.capacity <= MAX_SECTOR - z.start
    && (Writable(z) ==> z.start <= z.wp <= z.End())
  }

  predicate InZone(z: Zone, p: nat) {
    z.start <= p < z.End()
  }

  /** Zones in address order without overlap, as a zone report delivers them. */
  predicate Disjoint(zones: seq<Zone>) {
    forall i, j | 0 <= i < j < |zones| :: zones[i].start < zones[j].start && zones[i].End() <= zones[j].start
  }

  predicate SameGeometry(a: Zone, b: Zone) {
    a.start == b.start && a.length == b.length && a.capacity == b.capacity
  }

  predicate SameLayout(zones: seq<Zone>, zones': seq<Zone>) {
    |zones| == |zones'| && forall i | 0 <= i < |zones| :: SameGeometry(zones[i], zones'[i])
  }

  /** Write pointers of appendable zones sit on a block boundary relative to the zone start. */
  predicate Aligned(z: Zone) {
    Writable(z) ==> z.start <= z.wp <= z.End() && (z.wp - z.start) % BLOCK_SECTORS == 0
  }

  function Slots(z: Zone): nat { z.capacity / BLOCK_SECTORS }

  /** Whole blocks left between the write pointer and the end of the zone. */
  function FreeBlocks(z: Zone): nat {
    if z.wp < z.start || z.wp > z.End() then 0 else (z.End() - z.wp) / BLOCK_SECTORS
  }

  /** The first zone, from index i on, whose range holds p. */
  function ZoneFrom(zones: seq<Zone>, p: nat, i: nat): (r: Option<nat>)
    requires i <= |zones|
    ensures r.Some? ==> i <= r.value < |zones| && InZone(zones[r.value], p)
    ensures r.Some? ==> forall k | i <= k < r.value :: !InZone(zones[k], p)
    ensures r.None? ==> forall k | i <= k < |zones| :: !InZone(zones[k], p)
    decreases |zones| - i
  {
    if i == |zones| then None
    else if InZone(zones[i], p) then Some(i)
    else ZoneFrom(zones, p, i + 1)
  }

  function ZoneOf(zones: seq<Zone>, p: nat): Option<nat> { ZoneFrom(zones, p, 0) }

  lemma ZoneOfIs(zones: seq<Zone>, i: nat, p: nat)
    requires Disjoint(zones) && i < |zones| && InZone(zones[i], p)
    ensures ZoneOf(zones, p) == Some(i)
  {
    assert InZone(zones[ZoneOf(zones, p).value], p);
  }

  lemma ZoneOfSameLayout(zones: seq<Zone>, zones': seq<Zone>, p: nat)
    requires SameLayout(zones, zones')
    ensures ZoneOf(zones, p) == ZoneOf(zones', p)
  {
    var a, b := ZoneOf(zones, p), ZoneOf(zones', p);
    assert forall i | 0 <= i < |zones| :: InZone(zones[i], p) <==> InZone(zones'[i], p) by {
      forall i | 0 <= i < |zones| ensures InZone(zones[i], p) <==> InZone(zones'[i], p) {
        assert SameGeometry(zones[i], zones'[i]);
      }
    }
  }
}
