/** What lies under the engine and may fail at any time: kernel memory and the data zones of the lower device. */
module Hosts {
  import opened Prelude
  import opened Zones

  /** The device takes a block at p only in an open zone, exactly at its write pointer, and only if it fits. */
  predicate Accepts(z: Zone, p: nat) {
    && (z.cond == Empty || z.cond == ImpOpen || z.cond == ExpOpen || z.cond == Closed)
    && p == z.wp && z.start <= p && p + BLOCK_SECTORS <= z.End()
  }

  predicate AcceptsAt(zones: seq<Zone>, p: nat) {
    ZoneOf(zones, p).Some? && Accepts(zones[ZoneOf(zones, p).value], p)
  }

  function AfterWrite(z: Zone): Zone {
    z.(wp := z.wp + BLOCK_SECTORS,
       cond := if z.wp + BLOCK_SECTORS == z.End() then Full else if z.cond == ExpOpen then ExpOpen else ImpOpen)
  }

  /** Sectors whose contents a failed write may spoil: those the zone's write pointer has not passed. */
  predicate AtRisk(zones: seq<Zone>, p: nat, q: nat) {
    var i := ZoneOf(zones, p);
    i.Some? && InZone(zones[i.value], q) && zones[i.value].wp <= q
  }

  predicate InSameZone(zones: seq<Zone>, p: nat, q: nat) {
    var i := ZoneOf(zones, p);
    i.Some? && InZone(zones[i.value], q)
  }

  /** Only the zone of p may differ, and not in its geometry. */
  predicate OnlyZoneOf(zones: seq<Zone>, p: nat, zones': seq<Zone>) {
    && SameLayout(zones, zones')
    && forall j | 0 <= j < |zones| && ZoneOf(zones, p) != Some(j) :: zones'[j] == zones[j]
  }

  class Host {
    var zones: seq<Zone>
    var content: map<nat, Block>
    /** Failures so far: of allocations, reads, writes, reports and resets. */
    ghost var faults: nat
    /** Every block submitted so far was addressed to the write pointer of an open zone with room for it. */
    ghost var disciplined: bool

    method Allocate() returns (ok: bool)
      modifies this`faults
      ensures faults == old(faults) + if ok then 0 else 1
    {
      ok := *;
      if !ok {
        faults := faults + 1;
      }
    }

    method ReadBlock(p: nat) returns (r: Result<Block>)
      modifies this`faults
      ensures r.Err? ==> r.error == IoError
      ensures faults == old(faults) + if r.Ok? then 0 else 1
      ensures r.Ok? && p in content ==> r.value == content[p]
    {
      var fails: bool := *;
      if fails {
        faults := faults + 1;
        return Err(IoError);
      }
      if p in content {
        return Ok(content[p]);
      }
      return Ok(ZeroBlock());
    }

    /** A failed write may leave the zone's pointer and condition anywhere and spoil what the pointer had not passed. */
    method WriteBlock(p: nat, data: Block) returns (ok: bool)
      modifies this
      ensures disciplined == (old(disciplined) && AcceptsAt(old(zones), p))
      ensures SameLayout(old(zones), zones)
      ensures ok ==>
                && AcceptsAt(old(zones), p) && faults == old(faults) && content == old(content)[p := data]
                && var i := ZoneOf(old(zones), p).value; zones == old(zones)[i := AfterWrite(old(zones)[i])]
      ensures !ok ==>
                && (AcceptsAt(old(zones), p) ==> faults > old(faults)) && faults >= old(faults)
                && OnlyZoneOf(old(zones), p, zones)
                && forall q | q in old(content) && !AtRisk(old(zones), p, q) ::
                     q in content && content[q] == old(content)[q]
    {
      var i := ZoneOf(zones, p);
      if i.None? || !Accepts(zones[i.value], p) {
        disciplined := false;
        return false;
      }
      var z := zones[i.value];
      ok := *;
      if ok {
        zones := zones[i.value := AfterWrite(z)];
        content := content[p := data];
      } else {
        var wp: nat := *;
        var cond: Condition := *;
        var junk: map<nat, Block> := *;
        zones := zones[i.value := z.(wp := wp, cond := cond)];
        content := content + (map q | q in junk && InZone(z, q) && z.wp <= q :: junk[q]);
        faults := faults + 1;
      }
    }

    /** zns_zone_report_one: the descriptor of the zone that holds p, as the device sees it. */
    method Report(p: nat) returns (r: Result<Zone>)
      modifies this`faults
      ensures r.Ok? ==> ZoneOf(zones, p).Some? && r.value == zones[ZoneOf(zones, p).value]
      ensures r.Err? ==> r.error == IoError
      ensures faults == old(faults) + if r.Ok? then 0 else 1
    {
      var fails: bool := *;
      if fails || ZoneOf(zones, p).None? {
        faults := faults + 1;
        return Err(IoError);
      }
      return Ok(zones[ZoneOf(zones, p).value]);
    }

    /** Reset the zone that starts at sector start. A failed reset may leave that zone in any state. */
    method ResetZone(start: nat) returns (ok: bool)
      modifies this
      ensures disciplined == old(disciplined)
      ensures SameLayout(old(zones), zones) && OnlyZoneOf(old(zones), start, zones)
      ensures forall q | q in old(content) && !InSameZone(old(zones), start, q) ::
                q in content && content[q] == old(content)[q]
      ensures ok ==> faults == old(faults) && ZoneOf(old(zones), start).Some? &&
                     var z := old(zones)[ZoneOf(old(zones), start).value];
                     && Resettable(z)
                     && zones[ZoneOf(old(zones), start).value] == z.(wp := z.start, cond := Empty)
      ensures !ok ==> faults >= old(faults) &&
                      (ZoneOf(old(zones), start).Some? && Resettable(old(zones)[ZoneOf(old(zones), start).value]) ==>
                         faults > old(faults))
    {
      var i := ZoneOf(zones, start);
      if i.None? || !Resettable(zones[i.value]) {
        return false;
      }
      var z := zones[i.value];
      ok := *;
      if ok {
        zones := zones[i.value := z.(wp := z.start, cond := Empty)];
        content := map q | q in content && !InZone(z, q) :: content[q];
      } else {
        var wp: nat := *;
        var cond: Condition := *;
        var junk: map<nat, Block> := *;
        zones := zones[i.value := z.(wp := wp, cond := cond)];
        content := content + (map q | q in junk && InZone(z, q) :: junk[q]);
        faults := faults + 1;
      }
    }
  }
}
