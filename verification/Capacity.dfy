/** The capacity the engine exposes, and what it means for writes. */
module Capacity {
  import opened Prelude
  import opened Sums
  import opened Zones
  import opened GcPolicies
  import opened Space
  import opened EngineState
  import opened GcIndexes
  import opened Stores
  import opened Engines

  const METADATA_ZONES: nat := 1
  const GC_RESERVE_ZONES: nat := 1

  /** Whole-block sectors of a zone. */
  function Usable(z: Zone): nat { z.capacity - z.capacity % BLOCK_SECTORS }

  function UsableOf(zones: seq<Zone>): (s: seq<nat>)
    ensures |s| == |zones|
  {
    seq(|zones|, i requires 0 <= i < |zones| => Usable(zones[i]))
  }

  /** The data zones besides zone r. */
  function Others(zones: seq<Zone>, r: nat): seq<Zone>
    requires r < |zones|
  {
    zones[..r] + zones[r + 1..]
  }

  lemma OthersSum(zones: seq<Zone>, r: nat)
    requires r < |zones|
    ensures Sum(UsableOf(Others(zones, r))) == Sum(UsableOf(zones)) - Usable(zones[r])
  {
    hide Sum;
    var s := UsableOf(zones);
    SumSplit(s, r);
    assert UsableOf(Others(zones, r)) == s[..r] + s[r + 1..];
  }

  /** zns_engine_capacity on a zone report whose last zone is the metadata zone: never more than the zones before it can
      hold besides any one of them, and exactly what they can hold besides the largest. */
  method EngineCapacity(zones: seq<Zone>) returns (sectors: nat)
    ensures |zones| <= 2 ==> sectors == 0
    ensures |zones| > 2 ==>
              var data := zones[..|zones| - 1];
              && (forall r | 0 <= r < |data| :: sectors <= Sum(UsableOf(Others(data, r))))
              && (exists r | 0 <= r < |data| :: sectors == Sum(UsableOf(Others(data, r))))
    ensures sectors % BLOCK_SECTORS == 0
  {
    hide Sum;
    if |zones| <= METADATA_ZONES + GC_RESERVE_ZONES {
      return 0;
    }
    ghost var data := zones[..|zones| - METADATA_ZONES];
    ghost var all := UsableOf(data);
    ghost var at: nat := 0;
    var dataSectors: nat, largest: nat := 0, 0;
    assert Sum(all[..0]) == 0 by { SumAtMost(all[..0], 0); }
    for i := 0 to |zones| - METADATA_ZONES
      invariant dataSectors == Sum(all[..i]) && dataSectors % BLOCK_SECTORS == 0 && largest % BLOCK_SECTORS == 0
      invariant forall k | 0 <= k < i :: all[k] <= largest
      invariant at < |data| && (i > 0 ==> largest == all[at])
    {
      var usable := zones[i].capacity - zones[i].capacity % BLOCK_SECTORS;
      SumPrefix(all, i);
      dataSectors := dataSectors + usable;
      if usable > largest || i == 0 {
        largest, at := usable, i;
      }
    }
    assert all[..|data|] == all;
    forall r | 0 <= r < |data| ensures dataSectors - largest <= Sum(UsableOf(Others(data, r))) {
      OthersSum(data, r);
      assert all[r] == Usable(data[r]);
    }
    OthersSum(data, at);
    assert dataSectors - largest == Sum(UsableOf(Others(data, at)));
    sectors := dataSectors - largest;
  }

  /** On even zones the exposed capacity is exactly the space limit of the engine. */
  lemma EvenCapacity(zones: seq<Zone>, c: nat, r: nat)
    requires Uniform(zones, c) && r < |zones|
    ensures Sum(UsableOf(Others(zones, r))) == BLOCK_SECTORS * Limit(|zones|, c)
  {
    hide Sum;
    var s := UsableOf(Others(zones, r));
    forall i | 0 <= i < |s| ensures s[i] == BLOCK_SECTORS * c {
      var z := Others(zones, r)[i];
      assert z == zones[if i < r then i else i + 1];
      assert Slots(z) == c;
    }
    SumAtMost(s, BLOCK_SECTORS * c);
    SumAtLeast(s, BLOCK_SECTORS * c);
    assert (|zones| - 1) * (BLOCK_SECTORS * c) == BLOCK_SECTORS * ((|zones| - 1) * c);
  }

  /** The capacity that the report of an engine's data zones and of a metadata zone behind them gives is, on even zones,
      the space limit of that very engine: what it exposes is what it can hold. */
  method ExposedCapacity(e: Engine, metadata: Zone) returns (sectors: nat)
    requires e.Valid()
    ensures e.EvenZones() && !e.writesStopped ==> sectors == BLOCK_SECTORS * Limit(|e.alloc.zones|, e.perZone)
  {
    hide Engine.Valid, Sum, Uniform, Layout, Consistent;
    SomeZones(e);
    NextZones(e);
    var data := e.host.zones;
    var zones := data + [metadata];
    sectors := EngineCapacity(zones);
    assert zones[..|zones| - 1] == data;
    if e.EvenZones() && !e.writesStopped {
      forall r | 0 <= r < |data| ensures Sum(UsableOf(Others(data, r))) == BLOCK_SECTORS * Limit(|data|, e.perZone) {
        EvenCapacity(data, e.perZone, r);
      }
    }
  }

  lemma NextZones(e: Engine)
    requires e.Valid()
    ensures |e.alloc.zones| == |e.host.zones|
    ensures e.EvenZones() && !e.writesStopped ==> Uniform(e.host.zones, e.perZone)
  {
    hide Store.Valid, Store.View, Consistent, Stored;
  }

  /** What a user of an even device of the exposed capacity can rely on: without failures the first write of any block
      succeeds whatever happened before, and an overwrite is refused only - and always - once every exposed block has
      been written. */
  lemma WritesUpToCapacity(policy: Policy, c: nat, logicalBlocks: nat, s: Observation, s': Observation, b: nat,
                           r: Errno)
    requires WriteStep(policy, c, s, s', r) && !s.stopped && s.even && s'.faults == s.faults
    requires logicalBlocks == Limit(s.n, c) && b < logicalBlocks && forall k | k in s.acked :: k < logicalBlocks
    ensures b !in s.acked ==> r == Success
    ensures r == Success <==> exists k | 0 <= k < logicalBlocks :: k !in s.acked
  {
    hide Charged;
    KeysCount(s.acked.Keys, logicalBlocks);
    assert |s.acked| == |s.acked.Keys|;
  }
}
