/** Victim selection: the eligibility filter shared by both policies, first fit, and fewest live blocks. */
module GcPolicies {
  import opened Prelude
  import opened Zones

  datatype ZoneInfo = ZoneInfo(isReserve: bool, resettable: bool, capacityBlocks: nat, freeBlocks: nat,
                               validBlocks: nat)

  datatype Policy = Greedy | Simple

  /** A zone that can be collected now: not the reserve, resettable, full, with garbage, and whose live blocks fit the
      reserve. */
  predicate Eligible(info: ZoneInfo, reserveFree: nat) {
    && !info.isReserve && info.resettable && info.freeBlocks == 0
    && info.validBlocks < info.capacityBlocks && info.validBlocks <= reserveFree
  }

  /** zns_lsm_gc_get_zone_info. */
  function GetZoneInfo(zones: seq<Zone>, reserve: nat, nrValid: seq<nat>, id: nat): ZoneInfo
    requires id < |zones| == |nrValid|
  {
    var z := zones[id];
    ZoneInfo(id == reserve, Resettable(z), Slots(z), if CanAppend(z, BLOCK_SECTORS) then FreeBlocks(z) else 0,
             nrValid[id])
  }

  /** The filter in terms of the zone report: besides the reserve a zone can be collected exactly if it is neither
      read-only nor offline, has no room for a block, keeps fewer live blocks than it has whole blocks, and the reserve
      can take them. */
  lemma EligibleExactly(zones: seq<Zone>, reserve: nat, nrValid: seq<nat>, i: nat, reserveFree: nat)
    requires i < |zones| == |nrValid| && MetadataValid(zones[i])
    ensures var z := zones[i];
            Eligible(GetZoneInfo(zones, reserve, nrValid, i), reserveFree) <==>
            && i != reserve && z.cond != ReadOnly && z.cond != Offline
            && (z.cond == Full || z.start + z.capacity < z.wp + BLOCK_SECTORS)
            && nrValid[i] < z.capacity / BLOCK_SECTORS && nrValid[i] <= reserveFree
  {
  }

  /** select_victim of the greedy policy: the eligible zone with the fewest live blocks, the lowest number among
      equals. */
  method SelectGreedy(zones: seq<Zone>, reserve: nat, nrValid: seq<nat>, reserveFree: nat) returns (r: Result<nat>)
    requires |zones| == |nrValid| && forall i | 0 <= i < |zones| :: Slots(zones[i]) <= MAX_SECTOR
    ensures r.Err? ==>
              r.error == NoSpace && forall i | 0 <= i < |zones| ::
                  !Eligible(GetZoneInfo(zones, reserve, nrValid, i), reserveFree)
    ensures r.Ok? ==>
              && r.value < |zones| && Eligible(GetZoneInfo(zones, reserve, nrValid, r.value), reserveFree)
              && (forall i | 0 <= i < |zones| && Eligible(GetZoneInfo(zones, reserve, nrValid, i), reserveFree) ::
                    nrValid[r.value] < nrValid[i] || (nrValid[r.value] == nrValid[i] && r.value <= i))
  {
    var fewest := MAX_SECTOR;
    r := Err(NoSpace);
    for zone := 0 to |zones|
      invariant r.Err? ==> r.error == NoSpace && fewest == MAX_SECTOR &&
                           forall i | 0 <= i < zone :: !Eligible(GetZoneInfo(zones, reserve, nrValid, i), reserveFree)
      invariant r.Ok? ==>
                  && r.value < zone && fewest == nrValid[r.value]
                  && Eligible(GetZoneInfo(zones, reserve, nrValid, r.value), reserveFree)
                  && (forall i | 0 <= i < zone && Eligible(GetZoneInfo(zones, reserve, nrValid, i), reserveFree) ::
                        nrValid[r.value] < nrValid[i] || (nrValid[r.value] == nrValid[i] && r.value <= i))
    {
      var info := GetZoneInfo(zones, reserve, nrValid, zone);
      if info.isReserve || !info.resettable || info.freeBlocks != 0 ||
         info.validBlocks >= info.capacityBlocks || info.validBlocks > reserveFree {
        continue;
      }
      if info.validBlocks < fewest {
        fewest := info.validBlocks;
        r := Ok(zone);
      }
    }
  }

  /** select_victim of the simple policy: the first eligible zone. */
  method SelectSimple(zones: seq<Zone>, reserve: nat, nrValid: seq<nat>, reserveFree: nat) returns (r: Result<nat>)
    requires |zones| == |nrValid|
    ensures r.Err? ==>
              r.error == NoSpace && forall i | 0 <= i < |zones| ::
                  !Eligible(GetZoneInfo(zones, reserve, nrValid, i), reserveFree)
    ensures r.Ok? ==>
              && r.value < |zones| && Eligible(GetZoneInfo(zones, reserve, nrValid, r.value), reserveFree)
              && forall i | 0 <= i < r.value :: !Eligible(GetZoneInfo(zones, reserve, nrValid, i), reserveFree)
  {
    for zone := 0 to |zones|
      invariant forall i | 0 <= i < zone :: !Eligible(GetZoneInfo(zones, reserve, nrValid, i), reserveFree)
    {
      var info := GetZoneInfo(zones, reserve, nrValid, zone);
      if !info.isReserve && info.resettable && info.freeBlocks == 0 &&
         info.validBlocks < info.capacityBlocks && info.validBlocks <= reserveFree {
        return Ok(zone);
      }
    }
    return Err(NoSpace);
  }

  /** Zone v is what the policy picks among the eligible zones. */
  predicate Chosen(policy: Policy, zones: seq<Zone>, reserve: nat, nrValid: seq<nat>, v: nat) {
    && reserve < |zones| == |nrValid| && v < |zones|
    && Eligible(GetZoneInfo(zones, reserve, nrValid, v), FreeBlocks(zones[reserve]))
    && forall i | 0 <= i < |zones| && Eligible(GetZoneInfo(zones, reserve, nrValid, i), FreeBlocks(zones[reserve])) ::
         match policy
         case Greedy => nrValid[v] < nrValid[i] || (nrValid[v] == nrValid[i] && v <= i)
         case Simple => v <= i
  }

  lemma EligibleFacts(zones: seq<Zone>, reserve: nat, nrValid: seq<nat>, v: nat, reserveFree: nat)
    requires v < |zones| == |nrValid| && Eligible(GetZoneInfo(zones, reserve, nrValid, v), reserveFree)
    ensures v != reserve && Resettable(zones[v]) && nrValid[v] <= reserveFree && nrValid[v] < Slots(zones[v])
  {
  }

  lemma SlotsBounded(zones: seq<Zone>)
    requires forall i | 0 <= i < |zones| :: MetadataValid(zones[i])
    ensures forall i | 0 <= i < |zones| :: Slots(zones[i]) <= MAX_SECTOR
  {
    forall i | 0 <= i < |zones| ensures Slots(zones[i]) <= MAX_SECTOR {
      assert MetadataValid(zones[i]);
    }
  }
}
