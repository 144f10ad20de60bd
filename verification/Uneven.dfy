/** Zones of different sizes: when a write is refused although the device is not full, for how long, and two runs in
    which that happens without any failure. */
module UnevenZones {
  import opened Prelude
  import opened MetaZones
  import opened SsTables
  import opened Hosts
  import opened SuperBlocks
  import opened Attach
  import opened Sums
  import opened Zones
  import opened Allocators
  import opened GcIndexes
  import opened GcPolicies
  import opened EngineState
  import opened Space
  import opened Engines
  import opened Runs
  import opened Stores
  import opened Capacity

  // ----- When the engine is stuck -----

  /** Zone i can neither take a block nor be collected: it is filled, and either every slot of it is live or it keeps
      more live blocks than the reserve has slots. */
  predicate Wedged(d: Disk, i: nat)
    requires i < |d.zones| == |d.x.nrValid| && d.reserve < |d.zones|
  {
    && !CanAppend(d.zones[i], BLOCK_SECTORS)
    && (d.x.nrValid[i] == Slots(d.zones[i]) || Slots(d.zones[d.reserve]) < d.x.nrValid[i])
  }

  /** A disk whose zones can all be reset and whose reserve is empty. */
  ghost predicate Healthy(d: Disk) {
    && d.reserve < |d.zones| && EmptyZone(d.zones[d.reserve], BLOCK_SECTORS)
    && Disjoint(d.zones) && (forall i | 0 <= i < |d.zones| :: d.zones[i].cond != ReadOnly && d.zones[i].cond != Offline)
    && Consistent(d.zones, d.x)
  }

  lemma HealthyShape(d: Disk)
    requires Healthy(d)
    ensures d.reserve < |d.zones| == |d.x.nrValid|
    ensures forall i | 0 <= i < |d.zones| :: d.x.nrValid[i] <= Slots(d.zones[i])
    ensures d.x.nrValid[d.reserve] == 0 && Sum(d.x.nrValid) == d.x.validBlocks
  {
    hide Consistent;
    ConsistentTotals(d.zones, d.x);
    forall i | 0 <= i < |d.zones| ensures d.x.nrValid[i] <= Slots(d.zones[i]) {
      ValidAtMostSlots(d.zones, d.x, i);
    }
    ValidAtMostSlots(d.zones, d.x, d.reserve);
  }

  /** Writes are refused for good exactly if every zone besides the reserve is wedged. */
  lemma StuckExactly(d: Disk)
    requires Healthy(d)
    ensures d.reserve < |d.zones| == |d.x.nrValid|
    ensures Stuck(d) <==> forall i | 0 <= i < |d.zones| && i != d.reserve :: Wedged(d, i)
  {
    HealthyShape(d);
    hide Consistent, Sum;
    assert FreeBlocks(d.zones[d.reserve]) == Slots(d.zones[d.reserve]);
    if Stuck(d) {
      forall i | 0 <= i < |d.zones| && i != d.reserve ensures Wedged(d, i) {
        assert !Ordinary(d.zones, d.reserve, BLOCK_SECTORS, i);
        assert !Eligible(GetZoneInfo(d.zones, d.reserve, d.x.nrValid, i), FreeBlocks(d.zones[d.reserve]));
      }
    }
    if forall i | 0 <= i < |d.zones| && i != d.reserve :: Wedged(d, i) {
      forall i: nat ensures !Ordinary(d.zones, d.reserve, BLOCK_SECTORS, i) {
        assert i < |d.zones| && i != d.reserve ==> Wedged(d, i);
      }
      forall i | 0 <= i < |d.zones|
        ensures !Eligible(GetZoneInfo(d.zones, d.reserve, d.x.nrValid, i), FreeBlocks(d.zones[d.reserve]))
      {
        assert i != d.reserve ==> Wedged(d, i);
      }
    }
  }

  function SlotCounts(zones: seq<Zone>): seq<nat> {
    seq(|zones|, i requires 0 <= i < |zones| => Slots(zones[i]))
  }

  /** With a reserve as large as any zone, refusal for good means that every slot outside the reserve is live. */
  lemma StuckAtLargest(d: Disk)
    requires Healthy(d) && Stuck(d) && LargerZones(d) == {}
    ensures d.x.validBlocks == Sum(SlotCounts(Others(d.zones, d.reserve)))
  {
    StuckExactly(d);
    HealthyShape(d);
    hide Consistent, Stuck, Sum;
    forall i | 0 <= i < |d.zones| && i != d.reserve ensures d.x.nrValid[i] == Slots(d.zones[i]) {
      assert Wedged(d, i) && i !in LargerZones(d);
    }
    SumSplit(d.x.nrValid, d.reserve);
    assert SlotCounts(Others(d.zones, d.reserve)) == d.x.nrValid[..d.reserve] + d.x.nrValid[d.reserve + 1..];
  }

  // ----- Retrying a refused write -----

  lemma ReserveInside(e: Engine)
    requires e.Valid()
    ensures e.alloc.reserve < |e.alloc.zones|
  {
  }

  /** One more attempt, as the count of zones larger than the reserve sees it. */
  lemma AttemptCounts(policy: Policy, d: Disk, b: nat, d': Disk, r: Errno, attempts: nat, larger: nat)
    requires WriteOutcome(policy, d, b, d', r) && r != Success && d.reserve < |d.zones|
    requires Stuck(d) || attempts + |LargerZones(d)| <= larger
    ensures d'.reserve < |d'.zones| == |d.zones|
    ensures Stuck(d') || attempts + 1 + |LargerZones(d')| <= larger
  {
    hide Stuck, WriteFits, LargerZones;
    if !Stuck(d) {
      FewerLarger(d, d');
    }
  }

  /** A user who repeats a refused write, at most as often as there are zones: without failures it is accepted in the
      end unless the engine is stuck. */
  method Retry(e: Engine, b: u64, data: Block) returns (r: Errno)
    requires e.Valid()
    modifies e, e.index, e.host, e.alloc, e.store.Repr
    ensures fresh(e.store.Repr - old(e.store.Repr))
    ensures e.Valid() && e.host.faults >= old(e.host.faults)
    ensures e.acked == if r == Success then old(e.acked)[b := data] else old(e.acked)
    ensures !old(e.writesStopped) && e.host.faults == old(e.host.faults) ==>
              !e.writesStopped && (r == Success || (r == NoSpace && Stuck(e.DiskState())))
  {
    hide Engine.Valid, WriteFits, WriteOutcome, Charged, Limit, Stuck, LargerZones, Engine.EvenZones, Engine.Free;
    ReserveInside(e);
    ghost var larger := |LargerZones(e.DiskState())|;
    LargerAtMost(e.DiskState());
    r := NoSpace;
    var attempts := 0;
    while r != Success && attempts < |e.alloc.zones|
      invariant e.Valid() && fresh(e.store.Repr - old(e.store.Repr)) && e.host.faults >= old(e.host.faults)
      invariant |e.alloc.zones| == |old(e.alloc.zones)| && e.alloc.reserve < |e.alloc.zones| && larger < |e.alloc.zones|
      invariant e.acked == if r == Success then old(e.acked)[b := data] else old(e.acked)
      invariant !old(e.writesStopped) && e.host.faults == old(e.host.faults) ==>
                  && !e.writesStopped && (r == Success || r == NoSpace)
                  && (r == Success || Stuck(e.DiskState()) || attempts + |LargerZones(e.DiskState())| <= larger)
      decreases |e.alloc.zones| - attempts
    {
      ghost var d := e.DiskState();
      r := e.AppendWrite(b, data);
      ReserveInside(e);
      if r != Success && !old(e.writesStopped) && e.host.faults == old(e.host.faults) {
        AttemptCounts(e.policy, d, b, e.DiskState(), r, attempts, larger);
      }
      attempts := attempts + 1;
    }
  }

  lemma StuckOutcome(policy: Policy, d: Disk, b: nat, d': Disk, r: Errno)
    requires Stuck(d) && WriteOutcome(policy, d, b, d', r)
    ensures r == NoSpace && d' == d
  {
    NothingFits(policy, d.zones, d.reserve, d.x.nrValid);
  }

  /** From a stuck engine no sequence of requests leads anywhere without a failure: every write is refused, every read
      returns what it would have returned at the beginning, and zones and index stay as they are. */
  method ServeStuck(e: Engine, requests: seq<Request>) returns (replies: seq<Reply>)
    requires e.Valid()
    modifies e, e.index, e.host, e.alloc, e.store.Repr
    ensures fresh(e.store.Repr - old(e.store.Repr)) && e.Valid() && |replies| == |requests|
    ensures e.host.faults >= old(e.host.faults)
    ensures !old(e.writesStopped) && old(Stuck(e.DiskState())) && e.host.faults == old(e.host.faults) ==>
              && e.acked == old(e.acked) && e.DiskState() == old(e.DiskState()) && !e.writesStopped
              && forall k | 0 <= k < |requests| :: replies[k] == RefusedReply(old(e.acked), requests[k])
  {
    hide Engine.Valid, WriteOutcome, Stuck, Charged, Limit, Engine.EvenZones, Engine.Free, Engine.DiskState;
    replies := [];
    while |replies| < |requests|
      invariant e.Valid() && fresh(e.store.Repr - old(e.store.Repr)) && |replies| <= |requests|
      invariant e.host.faults >= old(e.host.faults)
      invariant !old(e.writesStopped) && old(Stuck(e.DiskState())) && e.host.faults == old(e.host.faults) ==>
                  && e.acked == old(e.acked) && e.DiskState() == old(e.DiskState()) && !e.writesStopped
                  && forall k | 0 <= k < |replies| :: replies[k] == RefusedReply(old(e.acked), requests[k])
    {
      ghost var faults, d := e.host.faults, e.DiskState();
      var q := requests[|replies|];
      var reply := ServeOne(e, q);
      if q.Write? && !old(e.writesStopped) && old(Stuck(e.DiskState())) && e.host.faults == old(e.host.faults) {
        StuckOutcome(e.policy, d, q.block, e.DiskState(), reply.r);
      }
      replies := replies + [reply];
    }
  }

  function RefusedReply(m: map<nat, Block>, q: Request): Reply {
    match q
    case Write(_, _) => Written(NoSpace)
    case Read(b) => Data(BlockOf(m, b))
  }

  // ----- Two runs without failures -----

  /** k data zones of four blocks and one of two, after n blocks were appended to the former in order. */
  function Small(k: nat, n: nat): seq<Zone> {
    seq(k + 1, i requires 0 <= i < k + 1 => SmallZone(k, n, i))
  }

  function SmallZone(k: nat, n: nat, i: nat): Zone {
    Zone(64 * i, 64, if i < k then 32 else 16, 64 * i + BLOCK_SECTORS * Filled(k, n, i), Empty, false)
  }

  function Filled(k: nat, n: nat, i: nat): nat {
    if i >= k || n <= 4 * i then 0 else if n >= 4 * i + 4 then 4 else n - 4 * i
  }

  /** Where the block appended after n others goes. */
  function Address(n: nat): nat { 64 * (n / 4) + BLOCK_SECTORS * (n % 4) }

  /** The forward map after the first n of these writes. */
  function Latest(blocks: seq<u64>, n: nat): map<nat, nat>
    requires n <= |blocks|
  {
    if n == 0 then map[] else Latest(blocks, n - 1)[blocks[n - 1] := Address(n - 1)]
  }

  /** The disk after the first n writes. */
  ghost predicate FilledBy(d: Disk, k: nat, blocks: seq<u64>, n: nat)
    requires n <= |blocks|
  {
    && d.zones == Small(k, n) && d.reserve == k && d.active == n / 4 && d.x.latest == Latest(blocks, n)
  }

  lemma SmallAdvanced(k: nat, n: nat)
    requires n < 4 * k
    ensures n / 4 < k && CanAppend(SmallZone(k, n, n / 4), BLOCK_SECTORS)
    ensures SmallZone(k, n, n / 4).wp == Address(n)
    ensures Advanced(Small(k, n), n / 4) == Small(k, n + 1)
    ensures SmallZone(k, n + 1, n / 4).wp <= SmallZone(k, n + 1, n / 4).End()
    ensures NextActive(SmallZone(k, n + 1, n / 4), n / 4, BLOCK_SECTORS) == (n + 1) / 4
  {
    var i := n / 4;
    assert Filled(k, n, i) == n % 4 && Filled(k, n + 1, i) == n % 4 + 1;
    forall z | 0 <= z <= k && z != i ensures SmallZone(k, n, z) == SmallZone(k, n + 1, z) {
    }
  }

  lemma PlacedSmall(d: Disk, k: nat, blocks: seq<u64>, n: nat, d': Disk, j: nat)
    requires n < |blocks| <= 4 * k && FilledBy(d, k, blocks, n) && PlacedAt(d, blocks[n], d', j)
    ensures FilledBy(d', k, blocks, n + 1)
  {
    SmallAdvanced(k, n);
    hide SmallZone, CanAppend, NextActive;
    assert Ordinary(d.zones, k, BLOCK_SECTORS, n / 4);
    assert d.zones[n / 4] == SmallZone(k, n, n / 4);
    assert d'.zones[n / 4] == SmallZone(k, n + 1, n / 4);
  }

  lemma FilledByMore(policy: Policy, d: Disk, k: nat, blocks: seq<u64>, n: nat, d': Disk, r: Errno)
    requires n < |blocks| <= 4 * k && FilledBy(d, k, blocks, n)
    requires WriteOutcome(policy, d, blocks[n], d', r)
    ensures r == Success && FilledBy(d', k, blocks, n + 1)
  {
    SmallAdvanced(k, n);
    hide SmallZone, CanAppend, WriteFits, Stuck, NextActive, Latest, PlacedAt;
    assert Ordinary(d.zones, d.reserve, BLOCK_SECTORS, n / 4);
    OrdinaryFits(policy, d.zones, d.reserve, d.x.nrValid);
    var j :| PlacedAt(d, blocks[n], d', j);
    PlacedSmall(d, k, blocks, n, d', j);
  }

  /** Write the blocks one after the other. */
  method Fill(e: Engine, k: nat, blocks: seq<u64>, data: Block) returns (accepted: bool)
    requires !e.writesStopped && |blocks| <= 4 * k && FilledBy(e.DiskState(), k, blocks, 0)
    requires e.Valid()
    modifies e, e.index, e.host, e.alloc, e.store.Repr
    ensures fresh(e.store.Repr - old(e.store.Repr)) && e.Valid() && e.host.faults >= old(e.host.faults)
    ensures e.host.faults == old(e.host.faults) ==>
              accepted && !e.writesStopped && FilledBy(e.DiskState(), k, blocks, |blocks|)
  {
    hide Engine.Valid, WriteOutcome, Stuck, Charged, Limit, FilledBy, Engine.EvenZones, Engine.Free, Engine.DiskState;
    accepted := true;
    for n := 0 to |blocks|
      invariant e.Valid() && fresh(e.store.Repr - old(e.store.Repr)) && e.host.faults >= old(e.host.faults)
      invariant e.host.faults == old(e.host.faults) ==>
                  accepted && !e.writesStopped && FilledBy(e.DiskState(), k, blocks, n)
    {
      ghost var d := e.DiskState();
      var r := e.AppendWrite(blocks[n], data);
      if e.host.faults == old(e.host.faults) {
        FilledByMore(e.policy, d, k, blocks, n, e.DiskState(), r);
      }
      accepted := accepted && r == Success;
    }
  }

  lemma SmallDisjoint(k: nat, n: nat)
    ensures Disjoint(Small(k, n)) && EmptyZone(Small(k, n)[k], BLOCK_SECTORS)
    ensures forall i | 0 <= i <= k :: Resettable(Small(k, n)[i]) && Aligned(Small(k, n)[i])
  {
  }

  /** The slot of the block appended after n others. */
  lemma SmallSlot(k: nat, n: nat)
    requires n < 4 * k
    ensures SlotAt(Small(k, 4 * k), Address(n)) == Some(Slot(n / 4, n % 4))
  {
    hide Small, SlotAt, WrittenBlock;
    var zones := Small(k, 4 * k);
    SmallDisjoint(k, 4 * k);
    SmallFull(k, n / 4);
    FullWritten(n / 4, n % 4);
    SlotOfAddress(zones, Slot(n / 4, n % 4), Address(n));
  }

  lemma FullWritten(i: nat, t: nat)
    requires t < 4
    ensures var z := Zone(64 * i, 64, 32, 64 * i + 32, Empty, false);
            t < Slots(z) && InZone(z, 64 * i + BLOCK_SECTORS * t) && WrittenBlock(z, 64 * i + BLOCK_SECTORS * t)
  {
    assert (BLOCK_SECTORS * t) % BLOCK_SECTORS == 0;
  }

  lemma SmallFull(k: nat, i: nat)
    requires i < k
    ensures |Small(k, 4 * k)| == k + 1 && Small(k, 4 * k)[i] == Zone(64 * i, 64, 32, 64 * i + 32, Empty, false)
  {
  }

  /** Eight writes fill the two larger of three zones. */
  const EIGHT: seq<u64> := [0, 1, 2, 3, 0, 1, 0, 1]

  function EightIndex(): Index {
    Index(map[0 := 80, 1 := 88, 2 := 16, 3 := 24], [[0, 0, 3, 4], [0, 0, 1, 2], [0, 0]], [2, 2, 0], 4)
  }

  lemma EightLatest()
    ensures Latest(EIGHT, 8) == EightIndex().latest
  {
    assert Latest(EIGHT, 4) == map[0 := 0, 1 := 8, 2 := 16, 3 := 24];
    assert Latest(EIGHT, 6) == map[0 := 64, 1 := 72, 2 := 16, 3 := 24];
  }

  lemma EightRecords(b: nat)
    requires b in EightIndex().latest
    ensures Records(Small(2, 8), EightIndex().reverse, b, EightIndex().latest[b])
  {
    hide SlotAt, Small;
    var n := EightIndex().latest[b] / 64 * 4 + EightIndex().latest[b] % 64 / 8;
    assert b <= 3;
    assert n < 8 && Address(n) == EightIndex().latest[b];
    SmallSlot(2, n);
  }

  lemma EightOwner(s: Slot)
    requires HasSlot(EightIndex().reverse, s)
    ensures |Small(2, 8)| == 3 && OwnerMapped(Small(2, 8), EightIndex(), s)
  {
    assert s.zone <= 2 && s.index <= 3;
    assert Small(2, 8)[s.zone].start == 64 * s.zone;
  }

  lemma EightConsistent()
    ensures Consistent(Small(2, 8), EightIndex())
  {
    hide Sum, Count, Records, OwnerMapped;
    var zones, x := Small(2, 8), EightIndex();
    forall b | b in x.latest ensures Records(zones, x.reverse, b, x.latest[b]) {
      EightRecords(b);
    }
    forall s | HasSlot(x.reverse, s) ensures OwnerMapped(zones, x, s) {
      EightOwner(s);
    }
    EightCounts();
    assert x.latest.Keys == {0, 1, 2, 3};
    assert |x.latest| == |x.latest.Keys| == 4;
  }

  lemma EightCounts()
    ensures Count([0, 0]) == 0 && Count([0, 0, 3, 4]) == 2 && Count([0, 0, 1, 2]) == 2 && Sum([2, 2, 0]) == 4
  {
  }

  /** Twelve writes fill the three larger of four zones. */
  const TWELVE: seq<u64> := [0, 1, 2, 3, 4, 5, 6, 7, 8, 0, 4, 8]

  function TwelveIndex(): Index {
    Index(map[0 := 136, 1 := 8, 2 := 16, 3 := 24, 4 := 144, 5 := 72, 6 := 80, 7 := 88, 8 := 152],
          [[0, 2, 3, 4], [0, 6, 7, 8], [0, 1, 5, 9], [0, 0]], [3, 3, 3, 0], 9)
  }

  lemma TwelveLatest()
    ensures Latest(TWELVE, 12) == TwelveIndex().latest
  {
    assert Latest(TWELVE, 4) == map[0 := 0, 1 := 8, 2 := 16, 3 := 24];
    assert Latest(TWELVE, 8) == map[0 := 0, 1 := 8, 2 := 16, 3 := 24, 4 := 64, 5 := 72, 6 := 80, 7 := 88];
  }

  lemma TwelveCounts()
    ensures Count([0, 0]) == 0 && Count([0, 2, 3, 4]) == 3 && Count([0, 6, 7, 8]) == 3 && Count([0, 1, 5, 9]) == 3
    ensures Sum([3, 3, 3, 0]) == 9
  {
  }

  lemma TwelveRecords(b: nat)
    requires b in TwelveIndex().latest
    ensures Records(Small(3, 12), TwelveIndex().reverse, b, TwelveIndex().latest[b])
  {
    hide SlotAt, Small;
    var n := TwelveIndex().latest[b] / 64 * 4 + TwelveIndex().latest[b] % 64 / 8;
    assert b <= 8;
    assert n < 12 && Address(n) == TwelveIndex().latest[b];
    SmallSlot(3, n);
  }

  lemma TwelveOwner(s: Slot)
    requires HasSlot(TwelveIndex().reverse, s)
    ensures |Small(3, 12)| == 4 && OwnerMapped(Small(3, 12), TwelveIndex(), s)
  {
    assert s.zone <= 3 && s.index <= 3;
    assert Small(3, 12)[s.zone].start == 64 * s.zone;
  }

  lemma TwelveConsistent()
    ensures Consistent(Small(3, 12), TwelveIndex())
  {
    hide Sum, Count, Records, OwnerMapped;
    var zones, x := Small(3, 12), TwelveIndex();
    forall b | b in x.latest ensures Records(zones, x.reverse, b, x.latest[b]) {
      TwelveRecords(b);
    }
    forall s | HasSlot(x.reverse, s) ensures OwnerMapped(zones, x, s) {
      TwelveOwner(s);
    }
    TwelveCounts();
    assert x.latest.Keys == {0, 1, 2, 3, 4, 5, 6, 7, 8};
    assert |x.latest| == |x.latest.Keys| == 9;
  }

  /** The disk after the eight writes: full of blocks, half of them live, with the small zone in reserve. */
  function EightDisk(): Disk { Disk(Small(2, 8), 2, 2, EightIndex()) }

  function TwelveDisk(): Disk { Disk(Small(3, 12), 3, 3, TwelveIndex()) }

  lemma EightHealthy()
    ensures Healthy(EightDisk())
  {
    hide Consistent, Small;
    EightConsistent();
    SmallDisjoint(2, 8);
    assert |Small(2, 8)| == 3 by { SmallFull(2, 0); }
  }

  lemma TwelveHealthy()
    ensures Healthy(TwelveDisk())
  {
    hide Consistent, Small;
    TwelveConsistent();
    SmallDisjoint(3, 12);
    assert |Small(3, 12)| == 4 by { SmallFull(3, 0); }
  }

  lemma EightExposed()
    ensures Sum(UsableOf(Others(Small(2, 8), 0))) == 6 * BLOCK_SECTORS
  {
    assert UsableOf(Others(Small(2, 8), 0)) == [32, 16];
    assert [32, 16][1..] == [16] && [16][1..] == [];
  }

  lemma TwelveExposed()
    ensures Sum(UsableOf(Others(Small(3, 12), 0))) == 10 * BLOCK_SECTORS
  {
    assert UsableOf(Others(Small(3, 12), 0)) == [32, 32, 16];
    assert [32, 32, 16][1..] == [32, 16] && [32, 16][1..] == [16] && [16][1..] == [];
  }

  /** A refusal of one write: four of the six exposed blocks are mapped and there are victims, but the live blocks of
      either fill the small reserve, so that collecting it frees no ordinary block. */
  lemma RefusedOnce(policy: Policy)
    ensures var d := EightDisk();
            && Healthy(d) && d.x.validBlocks == 4 && Sum(UsableOf(Others(d.zones, 0))) == 6 * BLOCK_SECTORS
            && !Stuck(d) && !WriteFits(policy, d.zones, d.reserve, d.x.nrValid)
            && forall i :: !Ordinary(d.zones, d.reserve, BLOCK_SECTORS, i)
  {
    hide Consistent, Sum;
    EightHealthy();
    EightExposed();
    var d := EightDisk();
    StuckExactly(d);
    assert !Wedged(d, 0);
    forall i: nat ensures !Ordinary(d.zones, d.reserve, BLOCK_SECTORS, i) {
      assert i == 0 || i == 1 || i >= 2;
    }
    forall v: nat | Chosen(policy, d.zones, d.reserve, d.x.nrValid, v) ensures d.x.nrValid[v] == 2 {
      EligibleFacts(d.zones, d.reserve, d.x.nrValid, v, 2);
    }
  }

  /** A refusal for good: nine of the ten exposed blocks are mapped, every larger zone keeps one dead slot and more live
      blocks than the reserve can take. */
  lemma RefusedForGood()
    ensures var d := TwelveDisk();
            && Healthy(d) && d.x.validBlocks == 9 && Sum(UsableOf(Others(d.zones, 0))) == 10 * BLOCK_SECTORS
            && Stuck(d)
  {
    hide Consistent, Sum;
    TwelveHealthy();
    TwelveExposed();
    var d := TwelveDisk();
    StuckExactly(d);
    forall i | 0 <= i < |d.zones| && i != d.reserve ensures Wedged(d, i) {
      assert i == 0 || i == 1 || i == 2;
    }
  }

  lemma EngineFacts(e: Engine)
    requires !e.writesStopped
    requires e.Valid()
    ensures var d := e.DiskState();
            && d.reserve < |d.zones| && EmptyZone(d.zones[d.reserve], BLOCK_SECTORS) && Disjoint(d.zones)
            && d.x.validBlocks == |e.acked| && Consistent(d.zones, d.x)
  {
    hide Store.Valid, Store.View, AllInStep, Consistent, Stored;
    LayoutDisjoint(e.alloc.zones, e.host.zones);
    AckedCount(e.alloc.zones, e.index.Value(), e.host.content, e.acked);
  }

  lemma FilledEight(d: Disk)
    requires FilledBy(d, 2, EIGHT, 8) && Consistent(d.zones, d.x)
    ensures d == EightDisk()
  {
    hide Consistent, Small, Latest;
    EightLatest();
    EightConsistent();
    SmallDisjoint(2, 8);
    IndexDetermined(d.zones, d.x, d.zones, EightIndex());
  }

  lemma FilledTwelve(d: Disk)
    requires FilledBy(d, 3, TWELVE, 12) && Consistent(d.zones, d.x)
    ensures d == TwelveDisk()
  {
    hide Consistent, Small, Latest;
    TwelveLatest();
    TwelveConsistent();
    SmallDisjoint(3, 12);
    IndexDetermined(d.zones, d.x, d.zones, TwelveIndex());
  }

  /** Once the reserve has grown to four blocks and four blocks are mapped, a write is accepted. */
  lemma AcceptedNext(policy: Policy, d: Disk, b: nat, d': Disk, r: Errno)
    requires ReserveGrew(EightDisk(), d) && StillResettable(EightDisk().zones, d.zones)
    requires EmptyZone(d.zones[d.reserve], BLOCK_SECTORS) && Disjoint(d.zones) && d.x.validBlocks == 4
    requires WriteOutcome(policy, d, b, d', r)
    requires Consistent(d.zones, d.x)
    ensures r == Success
  {
    hide Consistent, WriteFits, Sum, Stuck, Disjoint;
    var zones := EightDisk().zones;
    assert |zones| == 3 && Slots(zones[0]) == Slots(zones[1]) == 4 && Slots(zones[2]) == 2;
    forall i | 0 <= i < |d.zones| ensures Resettable(d.zones[i]) && Slots(d.zones[i]) == Slots(zones[i]) {
      assert Resettable(zones[i]) && SameGeometry(zones[i], d.zones[i]);
    }
    assert LargerZones(d) == {};
    if r != Success {
      if Stuck(d) {
        StuckAtLargest(d);
        OthersOfEight(d);
      } else {
        FewerLarger(d, d');
      }
    }
  }

  lemma OthersOfEight(d: Disk)
    requires |d.zones| == 3 && Slots(d.zones[0]) == Slots(d.zones[1]) == 4 && Slots(d.zones[2]) == 2 && d.reserve < 2
    ensures Sum(SlotCounts(Others(d.zones, d.reserve))) == 6
  {
    assert SlotCounts(Others(d.zones, d.reserve)) == [4, 2];
    assert [4, 2][1..] == [2] && [2][1..] == [];
  }

  /** A run without failures on fresh zones of four, four and two blocks: after eight accepted writes of four blocks,
      with six exposed, the next write is refused, and the same write again is accepted. */
  method RefusedThenAccepted(e: Engine, b: u64, data: Block) returns (accepted: bool, first: Errno, second: Errno)
    requires !e.writesStopped && FilledBy(e.DiskState(), 2, EIGHT, 0)
    requires e.Valid()
    modifies e, e.index, e.host, e.alloc, e.store.Repr
    ensures fresh(e.store.Repr - old(e.store.Repr)) && e.Valid() && e.host.faults >= old(e.host.faults)
    ensures e.host.faults == old(e.host.faults) ==> accepted && first == NoSpace && second == Success
  {
    hide Engine.Valid, WriteOutcome, WriteFits, Stuck, Charged, Limit, Latest, Small, EightDisk, Engine.EvenZones,
         Engine.Free, Consistent, Healthy, ReserveGrew, StillResettable;
    accepted := Fill(e, 2, EIGHT, data);
    ghost var full := e.DiskState();
    ghost var quiet := e.host.faults == old(e.host.faults);
    if quiet {
      EngineFacts(e);
      FilledEight(full);
    }
    first := e.AppendWrite(b, data);
    ghost var grown := e.DiskState();
    quiet := e.host.faults == old(e.host.faults);
    if quiet {
      RefusedOnce(e.policy);
      OnceRefused(e.policy, b, grown, first);
      EngineFacts(e);
    }
    second := e.AppendWrite(b, data);
    if e.host.faults == old(e.host.faults) {
      AcceptedNext(e.policy, grown, b, e.DiskState(), second);
    }
  }

  lemma OnceRefused(policy: Policy, b: nat, d': Disk, r: Errno)
    requires WriteOutcome(policy, EightDisk(), b, d', r)
    ensures r == NoSpace && ReserveGrew(EightDisk(), d') && StillResettable(EightDisk().zones, d'.zones)
  {
    hide Stuck, WriteFits, ReserveGrew, StillResettable;
    RefusedOnce(policy);
  }

  /** A run without failures on fresh zones of four, four, four and two blocks: after twelve accepted writes of nine
      blocks, with ten exposed, every later write is refused, whatever else is requested. */
  method RefusedEver(e: Engine, data: Block, requests: seq<Request>) returns (accepted: bool, replies: seq<Reply>)
    requires !e.writesStopped && FilledBy(e.DiskState(), 3, TWELVE, 0)
    requires e.Valid()
    modifies e, e.index, e.host, e.alloc, e.store.Repr
    ensures fresh(e.store.Repr - old(e.store.Repr)) && e.Valid() && e.host.faults >= old(e.host.faults)
    ensures |replies| == |requests|
    ensures e.host.faults == old(e.host.faults) ==>
              && accepted && e.DiskState() == TwelveDisk() && |e.acked| == 9
              && forall k | 0 <= k < |requests| && requests[k].Write? :: replies[k] == Written(NoSpace)
  {
    hide Engine.Valid, Stuck, Latest, Small, Engine.EvenZones, Engine.Free, Consistent, Healthy, TwelveDisk;
    accepted := Fill(e, 3, TWELVE, data);
    ghost var quiet := e.host.faults == old(e.host.faults);
    if quiet {
      EngineFacts(e);
      FilledTwelve(e.DiskState());
      RefusedForGood();
    }
    replies := ServeStuck(e, requests);
  }

  lemma SmallIsNew(k: nat)
    requires k <= 3
    ensures FactoryNew(Small(k, 0)) && |Small(k, 0)| == k + 1
  {
    SmallDisjoint(k, 0);
    forall i | 0 <= i <= k
      ensures var z := Small(k, 0)[i];
              MetadataValid(z) && z.cond == Empty && z.wp == z.start && BLOCK_SECTORS <= z.capacity
    {
      assert Small(k, 0)[i] == SmallZone(k, 0, i);
    }
  }

  /** The first run from the very beginning: a new device with such zones is formatted, filled as above, refuses a write
      and accepts the same write when it is repeated. */
  method NewThenRefusedThenAccepted(meta: MetaZone, step: Checksum, crc: SuperChecksum, host: Host, policy: Policy,
                                    threshold: nat, uuid: nat, b: u64, data: Block)
    returns (accepted: bool, first: Errno, second: Errno)
    requires meta.wp == meta.start && meta.start + BLOCK_SECTORS <= meta.end && 0 < threshold
    requires SuperFits(Device(uuid, 6, meta.length, 3)) && host.zones == Small(2, 0) && host.disciplined
    modifies meta, host
    ensures meta.faults == old(meta.faults) && host.faults == old(host.faults) ==>
              accepted && first == NoSpace && second == Success
  {
    hide Engine.Valid, SuperFits, FormatOk, FactoryNew, Small;
    SmallIsNew(2);
    accepted, first, second := false, IoError, IoError;
    var e := AttachNew(meta, step, crc, host, policy, threshold, 6, uuid, 0);
    if e != null {
      NothingFilled(e.DiskState(), 2, EIGHT);
      accepted, first, second := RefusedThenAccepted(e, b, data);
    }
  }

  /** The second run from the very beginning: a new device with such zones is formatted, filled as above, and from then
      on refuses every write. */
  method NewThenRefusedEver(meta: MetaZone, step: Checksum, crc: SuperChecksum, host: Host, policy: Policy,
                            threshold: nat, uuid: nat, data: Block, requests: seq<Request>)
    returns (accepted: bool, replies: seq<Reply>)
    requires meta.wp == meta.start && meta.start + BLOCK_SECTORS <= meta.end && 0 < threshold
    requires SuperFits(Device(uuid, 10, meta.length, 4)) && host.zones == Small(3, 0) && host.disciplined
    modifies meta, host
    ensures meta.faults == old(meta.faults) && host.faults == old(host.faults) ==>
              accepted && |replies| == |requests| &&
              forall k | 0 <= k < |requests| && requests[k].Write? :: replies[k] == Written(NoSpace)
  {
    hide Engine.Valid, SuperFits, FormatOk, FactoryNew, Small;
    SmallIsNew(3);
    accepted, replies := false, [];
    var e := AttachNew(meta, step, crc, host, policy, threshold, 10, uuid, 0);
    if e != null {
      NothingFilled(e.DiskState(), 3, TWELVE);
      accepted, replies := RefusedEver(e, data, requests);
    }
  }

  lemma NothingFilled(d: Disk, k: nat, blocks: seq<u64>)
    requires d.zones == Small(k, 0) && d.reserve == k && d.active == 0 && d.x.latest == map[]
    ensures FilledBy(d, k, blocks, 0)
  {
  }
}
