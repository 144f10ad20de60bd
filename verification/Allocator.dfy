/** The zone-capacity-aware append allocator: round-robin ordinary allocation, the GC reserve, and resynchronisation. */
module Allocators {
  import opened Prelude
  import opened Zones

  /** A zone that ordinary allocation may take a block from. */
  predicate Ordinary(zones: seq<Zone>, reserve: nat, spb: nat, i: nat) {
    i < |zones| && i != reserve && CanAppend(zones[i], spb)
  }

  /** How many zones a round-robin scan from zone first passes before it reaches zone i. */
  function ScanDistance(first: nat, i: nat, n: nat): (d: nat)
    requires first < n && i < n
    ensures d < n
  {
    if first <= i then i - first else i + n - first
  }

  lemma ScanStart(first: nat, n: nat)
    requires first < n
    ensures ScanDistance(first, first, n) == 0
  {
  }

  lemma ScanZero(first: nat, i: nat, n: nat)
    requires first < n && i < n && ScanDistance(first, i, n) == 0
    ensures i == first
  {
  }

  lemma NextInScan(first: nat, i: nat, n: nat)
    requires first < n && i < n
    ensures (i + 1) % n < n
    ensures ScanDistance(first, i, n) < n - 1 ==>
              ScanDistance(first, (i + 1) % n, n) == ScanDistance(first, i, n) + 1
  {
    if i + 1 < n {
      assert (i + 1) % n == i + 1;
    } else {
      assert (i + 1) % n == 0;
    }
  }

  /** A scan from zone first upwards, and on from zone 0, finds no room before it comes to zone id. */
  predicate NoneBetween(zones: seq<Zone>, reserve: nat, spb: nat, first: nat, id: nat) {
    forall i | 0 <= i < |zones| && (if first <= id then first <= i < id else first <= i || i < id) ::
      i == reserve || !CanAppend(zones[i], spb)
  }

  lemma PassedOver(zones: seq<Zone>, reserve: nat, spb: nat, first: nat, id: nat)
    requires first < |zones| && id < |zones|
    requires forall i | Ordinary(zones, reserve, spb, i) ::
               ScanDistance(first, id, |zones|) <= ScanDistance(first, i, |zones|)
    ensures NoneBetween(zones, reserve, spb, first, id)
  {
    hide CanAppend;
    forall i | 0 <= i < |zones| && (if first <= id then first <= i < id else first <= i || i < id)
      ensures i == reserve || !CanAppend(zones[i], spb)
    {
      assert ScanDistance(first, i, |zones|) < ScanDistance(first, id, |zones|);
      assert !Ordinary(zones, reserve, spb, i);
    }
  }

  /** The active zone left behind once zone i's write pointer is at its new place. */
  function NextActive(z: Zone, i: nat, spb: nat): nat
    requires z.wp <= z.End()
  {
    if spb > z.End() - z.wp then i + 1 else i
  }

  /** What a zone report must say for a failed write at sector failed to be recoverable in zone z:
      same geometry, a pointer that moved by this one block or not at all, and a matching condition. */
  predicate Recoverable(z: Zone, failed: nat, reported: Zone, spb: nat)
    requires 0 < spb
  {
    && reported.length == z.length && reported.capacity == z.capacity
    && MetadataValid(reported)
    && z.start <= failed <= z.End() && spb <= z.End() - failed
    && failed % spb == 0
    && z.wp == failed + spb
    && (reported.wp == failed || reported.wp == failed + spb)
    && (match reported.cond
        case Empty => reported.wp == z.start
        case ImpOpen => true
        case ExpOpen => true
        case Closed => true
        case Full => reported.wp == z.End()
        case _ => false)
  }

  class Allocator {
    var zones: seq<Zone>
    var active: nat
    var reserve: nat
    var spb: nat

    ghost predicate Valid()
      reads this
    {
      && 0 < |zones| && 0 < spb
      && forall i | 0 <= i < |zones| :: MetadataValid(zones[i])
    }

    /** The zeroed allocator inside a new engine. */
    constructor ()
      ensures zones == [] && active == reserve == spb == 0
    {
      zones, active, reserve, spb := [], 0, 0, 0;
    }

    /** zns_allocator_init_zoned: adopt a copy of the reported zones, with no reserve chosen yet. */
    method InitZoned(reported: seq<Zone>, sectorsPerBlock: nat, memoryOk: bool) returns (r: Errno)
      modifies this
      ensures r == Success <==>
              |reported| > 0 && sectorsPerBlock > 0 && memoryOk && forall i | 0 <= i < |reported| ::
                  var z := reported[i];
                  && 0 < z.length && z.capacity <= z.length && z.start + z.capacity < U64
                  && (z.cond in {Full, ReadOnly, Offline} || z.start <= z.wp <= z.start + z.capacity)
      ensures r == Success ==>
                Valid() && zones == reported && spb == sectorsPerBlock && active == 0 && reserve >= |zones|
      ensures r != Success ==> unchanged(this)
    {
      if reported == [] || sectorsPerBlock == 0 {
        return Invalid;
      }
      for i := 0 to |reported|
        invariant forall k | 0 <= k < i :: MetadataValid(reported[k])
      {
        if !MetadataValid(reported[i]) {
          return Invalid;
        }
      }
      if !memoryOk {
        return NoMem;
      }
      zones, active, reserve, spb := reported, 0, |reported|, sectorsPerBlock;
      return Success;
    }

    /** The taking of one block from the active zone inside zns_allocator_alloc_zoned. */
    method TakeFromActive() returns (p: nat)
      requires Valid() && Ordinary(zones, reserve, spb, active)
      modifies this`zones, this`active
      ensures Valid() && p == old(zones[active].wp)
      ensures zones == old(zones)[old(active) := old(zones[active]).(wp := p + spb)]
      ensures active == NextActive(zones[old(active)], old(active), spb)
    {
      var z := zones[active];
      assert MetadataValid(z);
      p := z.wp;
      z := z.(wp := z.wp + spb);
      zones := zones[active := z];
      if spb > z.End() - z.wp {
        active := active + 1;
      }
    }

    /** zns_allocator_alloc_zoned: take one block from the first ordinary zone of a round-robin scan
        that starts at the active zone. NoSpace means that no ordinary zone can take a block. */
    method Alloc() returns (r: Result<nat>, ghost id: nat)
      requires Valid()
      modifies this
      ensures Valid() && |zones| == |old(zones)| && spb == old(spb) && reserve == old(reserve)
      ensures r.Err? ==> r.error == NoSpace && zones == old(zones) && forall i :: !Ordinary(zones, reserve, spb, i)
      ensures r.Ok? ==>
                && Ordinary(old(zones), reserve, spb, id)
                && r.value == old(zones)[id].wp
                && zones == old(zones)[id := old(zones)[id].(wp := r.value + spb)]
                && active == NextActive(zones[id], id, spb)
      ensures r.Ok? ==>
                var n := |zones|;
                var first := if old(active) < n then old(active) else 0;
                && (forall i | Ordinary(old(zones), reserve, spb, i) ::
                      ScanDistance(first, id, n) <= ScanDistance(first, i, n))
                && NoneBetween(old(zones), reserve, spb, first, id)
    {
      id := 0;
      if active >= |zones| {
        active := 0;
      }
      ghost var first := active;
      var checked := 0;
      ScanStart(first, |zones|);
      hide ScanDistance, NextActive, CanAppend, MetadataValid, NoneBetween;
      while checked < |zones|
        invariant checked <= |zones| && zones == old(zones) && spb == old(spb) && reserve == old(reserve)
        invariant first < |zones| && active < |zones|
        invariant checked < |zones| ==> ScanDistance(first, active, |zones|) == checked
        invariant forall i | Ordinary(zones, reserve, spb, i) :: checked <= ScanDistance(first, i, |zones|)
      {
        if active != reserve && CanAppend(zones[active], spb) {
          id := active;
          PassedOver(zones, reserve, spb, first, id);
          var p := TakeFromActive();
          return Ok(p), id;
        }
        NextInScan(first, active, |zones|);
        active := (active + 1) % |zones|;
        checked := checked + 1;
      }
      r := Err(NoSpace);
    }

    /** zns_allocator_has_space: some ordinary zone can take a block. */
    method HasSpace() returns (found: bool)
      requires Valid()
      ensures found <==> exists i :: Ordinary(zones, reserve, spb, i)
      ensures found <==> exists i | 0 <= i < |zones| && i != reserve ::
                  zones[i].cond !in {Full, ReadOnly, Offline} && zones[i].wp + spb <= zones[i].start + zones[i].capacity
    {
      for i := 0 to |zones|
        invariant forall k | 0 <= k < i :: !Ordinary(zones, reserve, spb, k)
        invariant forall k | 0 <= k < i && k != reserve :: !CanAppend(zones[k], spb)
      {
        if i != reserve && CanAppend(zones[i], spb) {
          assert Ordinary(zones, reserve, spb, i);
          return true;
        }
      }
      return false;
    }

    /** zns_allocator_alloc_gc: take one block from the reserve zone, and only from it. */
    method AllocGc() returns (r: Result<nat>)
      requires Valid()
      modifies this`zones
      ensures Valid() && |zones| == |old(zones)|
      ensures r.Ok? <==> reserve < |zones| && CanAppend(old(zones)[reserve], spb)
      ensures r.Ok? ==>
                && r.value == old(zones)[reserve].wp
                && zones == old(zones)[reserve := old(zones)[reserve].(wp := r.value + spb)]
      ensures r.Err? ==> zones == old(zones) && r.error == if reserve < |zones| then NoSpace else Invalid
    {
      if reserve >= |zones| {
        return Err(Invalid);
      }
      var z := zones[reserve];
      if !CanAppend(z, spb) {
        return Err(NoSpace);
      }
      assert MetadataValid(z);
      zones := zones[reserve := z.(wp := z.wp + spb)];
      return Ok(z.wp);
    }

    /** zns_allocator_set_reserve: only a writable, still empty zone of at least one block may become the reserve. */
    method SetReserve(id: nat) returns (r: Errno)
      requires Valid()
      modifies this`reserve
      ensures r == Success <==> id < |zones| && EmptyZone(zones[id], spb)
      ensures r == Success <==>
              id < |zones| && zones[id].cond !in {Full, ReadOnly, Offline} && spb <= zones[id].capacity &&
              zones[id].wp == zones[id].start
      ensures r == Success ==> reserve == id
      ensures r != Success ==> reserve == old(reserve) && r == if id < |zones| then NoSpace else Invalid
    {
      if id >= |zones| {
        return Invalid;
      }
      var z := zones[id];
      if !Writable(z) || z.capacity < spb || z.wp != z.start {
        return NoSpace;
      }
      reserve := id;
      return Success;
    }

    /** zns_allocator_set_reserve_after_reset: the reset victim becomes the reserve,
        the former reserve becomes ordinary space. */
    method SetReserveAfterReset(victim: nat) returns (r: Errno)
      requires Valid()
      modifies this`zones, this`reserve
      ensures Valid() && |zones| == |old(zones)|
      ensures r == Success <==> victim < |zones| && victim != old(reserve)
      ensures r == Success ==>
                && zones == old(zones)[victim := old(zones)[victim].(wp := old(zones)[victim].start, cond := Empty)]
                && reserve == victim
      ensures r != Success ==> r == Invalid && zones == old(zones) && reserve == old(reserve)
    {
      if victim >= |zones| || victim == reserve {
        return Invalid;
      }
      var z := zones[victim];
      assert MetadataValid(z);
      zones := zones[victim := z.(wp := z.start, cond := Empty)];
      reserve := victim;
      return Success;
    }

    /** zns_allocator_resync: after a failed write, believe the reported write pointer only if it says that
        the write consumed this one block or nothing; any other report changes nothing and is refused. */
    method Resync(failed: nat, reported: Zone) returns (r: Errno, ghost id: nat)
      requires Valid()
      modifies this
      ensures Valid() && |zones| == |old(zones)| && spb == old(spb) && reserve == old(reserve)
      ensures r == Success || r == IoError
      ensures r == Success <==>
              id < |zones| && old(zones)[id].start == reported.start &&
              Recoverable(old(zones)[id], failed, reported, spb)
      ensures id < |zones| && failed % spb == 0 && old(zones)[id].wp == failed + spb && old(zones)[id].start <= failed
              && failed + spb <= reported.start + reported.capacity < U64 && 0 < reported.length
              && reported == old(zones)[id].(wp := reported.wp, cond := reported.cond, active := reported.active) ==>
                (r == Success <==>
                   && (reported.wp == failed || reported.wp == failed + spb)
                   && (reported.cond in {ImpOpen, ExpOpen, Closed}
                       || (reported.cond == Empty && reported.wp == reported.start)
                       || (reported.cond == Full && reported.wp == reported.start + reported.capacity)))
      ensures id <= |zones| && (forall k | 0 <= k < id :: old(zones)[k].start != reported.start)
      ensures id == |zones| || old(zones)[id].start == reported.start
      ensures r == Success ==>
                && zones == old(zones)[id := old(zones)[id].(wp := reported.wp, cond := reported.cond,
                                                             active := reported.active)]
                && active == if reported.cond == Full then id + 1 else NextActive(zones[id], id, spb)
      ensures r != Success ==> unchanged(this)
    {
      var zoneId := 0;
      while zoneId < |zones| && zones[zoneId].start != reported.start
        invariant zoneId <= |zones|
        invariant forall k | 0 <= k < zoneId :: zones[k].start != reported.start
      {
        zoneId := zoneId + 1;
      }
      id := zoneId;
      if zoneId == |zones| {
        return IoError, id;
      }
      var z := zones[zoneId];
      if reported.length != z.length || reported.capacity != z.capacity || !MetadataValid(reported) {
        return IoError, id;
      }
      if failed < z.start || failed > z.End() || spb > z.End() - failed || failed % spb != 0 || z.wp != failed + spb {
        return IoError, id;
      }
      if reported.wp != failed && reported.wp != failed + spb {
        return IoError, id;
      }
      match reported.cond {
        case Empty =>
          if reported.wp != z.start {
            return IoError, id;
          }
        case ImpOpen =>
        case ExpOpen =>
        case Closed =>
        case Full =>
          if reported.wp != z.End() {
            return IoError, id;
          }
        case _ =>
          return IoError, id;
      }
      z := z.(wp := reported.wp, cond := reported.cond, active := reported.active);
      zones := zones[zoneId := z];
      active := zoneId;
      if z.cond == Full || spb > z.End() - z.wp {
        active := active + 1;
      }
      r := Success;
    }
  }

  predicate EmptyZone(z: Zone, spb: nat) {
    Writable(z) && spb <= z.capacity && z.wp == z.start
  }
}
