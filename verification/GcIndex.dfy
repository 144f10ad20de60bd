/** The garbage-collection index: the forward map from logical block to newest copy, and per zone a reverse map
    from block slot to owner with its counters. */
module GcIndexes {
  import opened Prelude
  import opened Sums
  import opened Zones

  datatype Slot = Slot(zone: nat, index: nat)

  /** One state of the index. An empty reverse slot holds 0, an occupied one its logical block plus 1. */
  datatype Index = Index(latest: map<nat, nat>, reverse: seq<seq<nat>>, nrValid: seq<nat>, validBlocks: nat)

  function SlotAddress(zones: seq<Zone>, s: Slot): nat
    requires s.zone < |zones|
  {
    zones[s.zone].start + BLOCK_SECTORS * s.index
  }

  /** Whether sector p, known to lie in zone z, starts a whole block that has been written. */
  predicate WrittenBlock(z: Zone, p: nat)
    requires InZone(z, p)
  {
    (p - z.start) % BLOCK_SECTORS == 0 && BLOCK_SECTORS <= z.End() - p && (p < z.wp || z.cond == Full)
  }

  /** The reverse-map position of sector p; none unless p starts a whole, already written data block. */
  function SlotAt(zones: seq<Zone>, p: nat): (r: Option<Slot>)
    ensures r.Some? ==> r.value.zone < |zones| && r.value.index < Slots(zones[r.value.zone])
    ensures r.Some? ==> SlotAddress(zones, r.value) == p
  {
    match ZoneOf(zones, p)
    case None => None
    case Some(i) =>
      if WrittenBlock(zones[i], p) then Some(Slot(i, (p - zones[i].start) / BLOCK_SECTORS)) else None
  }

  predicate HasSlot(reverse: seq<seq<nat>>, s: Slot) {
    s.zone < |reverse| && s.index < |reverse[s.zone]|
  }

  function Owner(reverse: seq<seq<nat>>, s: Slot): nat
    requires HasSlot(reverse, s)
  {
    reverse[s.zone][s.index]
  }

  function SetOwner(reverse: seq<seq<nat>>, s: Slot, v: nat): seq<seq<nat>>
    requires HasSlot(reverse, s)
  {
    var row: seq<nat> := reverse[s.zone][s.index := v];
    reverse[s.zone := row]
  }

  lemma SetOwnerAt(reverse: seq<seq<nat>>, s: Slot, v: nat, t: Slot)
    requires HasSlot(reverse, s)
    ensures |SetOwner(reverse, s, v)| == |reverse|
    ensures HasSlot(SetOwner(reverse, s, v), t) <==> HasSlot(reverse, t)
    ensures HasSlot(reverse, t) ==> Owner(SetOwner(reverse, s, v), t) == if t == s then v else Owner(reverse, t)
  {
  }

  /** Slot s records block b. */
  predicate Holds(reverse: seq<seq<nat>>, s: Slot, b: nat) {
    HasSlot(reverse, s) && Owner(reverse, s) == b + 1
  }

  /** Block b is mapped to sector p. */
  predicate Maps(latest: map<nat, nat>, b: nat, p: nat) {
    b in latest && latest[b] == p
  }

  predicate Shape(zones: seq<Zone>, x: Index) {
    && |x.reverse| == |zones| && |x.nrValid| == |zones|
    && forall i | 0 <= i < |zones| :: |x.reverse[i]| == Slots(zones[i])
  }

  /** The slot of sector p records block b as its owner. */
  predicate Records(zones: seq<Zone>, reverse: seq<seq<nat>>, b: nat, p: nat) {
    var s := SlotAt(zones, p);
    s.Some? && HasSlot(reverse, s.value) && Owner(reverse, s.value) == b + 1
  }

  /** The block that slot s records is mapped to s. */
  predicate OwnerMapped(zones: seq<Zone>, x: Index, s: Slot)
    requires HasSlot(x.reverse, s) && |x.reverse| == |zones|
  {
    var v := Owner(x.reverse, s);
    v != 0 ==> v - 1 in x.latest && x.latest[v - 1] == SlotAddress(zones, s)
  }

  /** Forward map, reverse maps and counters all describe the same set of live blocks. */
  ghost predicate Consistent(zones: seq<Zone>, x: Index) {
    && Shape(zones, x)
    && (forall b | b in x.latest :: Records(zones, x.reverse, b, x.latest[b]))
    && (forall s | HasSlot(x.reverse, s) :: OwnerMapped(zones, x, s))
    && (forall i | 0 <= i < |zones| :: x.nrValid[i] == Count(x.reverse[i]))
    && Sum(x.nrValid) == x.validBlocks == |x.latest|
  }

  /** Sector p starts a written block that no logical block owns. */
  predicate Unowned(zones: seq<Zone>, x: Index, p: nat) {
    var s := SlotAt(zones, p);
    s.Some? && HasSlot(x.reverse, s.value) && Owner(x.reverse, s.value) == 0
  }

  /** The checks that precede any change when block b moves to sector p. */
  predicate MoveAllowed(zones: seq<Zone>, x: Index, b: nat, p: nat) {
    Unowned(zones, x, p) && (b in x.latest ==> Records(zones, x.reverse, b, x.latest[b]))
  }

  /** The reverse maps once slot n belongs to block b and the block's previous slot, if any, is free. */
  function Reassign(reverse: seq<seq<nat>>, o: Option<Slot>, n: Slot, b: nat): seq<seq<nat>>
    requires HasSlot(reverse, n) && (o.Some? ==> HasSlot(reverse, o.value))
  {
    SetOwner(if o.Some? then SetOwner(reverse, o.value, 0) else reverse, n, b + 1)
  }

  lemma ReassignAt(reverse: seq<seq<nat>>, o: Option<Slot>, n: Slot, b: nat, t: Slot)
    requires HasSlot(reverse, n) && (o.Some? ==> HasSlot(reverse, o.value))
    ensures |Reassign(reverse, o, n, b)| == |reverse|
    ensures HasSlot(Reassign(reverse, o, n, b), t) <==> HasSlot(reverse, t)
    ensures HasSlot(reverse, t) ==>
              Owner(Reassign(reverse, o, n, b), t) == if t == n then b + 1 else if o == Some(t) then 0
                else Owner(reverse, t)
  {
    hide SetOwner;
    if o.Some? {
      SetOwnerAt(reverse, o.value, 0, t);
      SetOwnerAt(reverse, o.value, 0, n);
      SetOwnerAt(SetOwner(reverse, o.value, 0), n, b + 1, t);
    } else {
      SetOwnerAt(reverse, n, b + 1, t);
    }
  }

  /** The valid-block counters once a block leaves zone o, if any, for zone n. */
  function Recount(nrValid: seq<nat>, o: Option<nat>, n: nat): seq<nat>
    requires n < |nrValid| && (o.Some? ==> o.value < |nrValid| && nrValid[o.value] > 0)
  {
    var nr: seq<nat> := if o.Some? then nrValid[o.value := nrValid[o.value] - 1] else nrValid;
    nr[n := nr[n] + 1]
  }

  /** The slot that block b occupies before a move. */
  function OldSlot(zones: seq<Zone>, x: Index, b: nat): Option<Slot> {
    if b in x.latest then SlotAt(zones, x.latest[b]) else None
  }

  function OldZone(zones: seq<Zone>, x: Index, b: nat): Option<nat> {
    match OldSlot(zones, x, b) case Some(s) => Some(s.zone) case None => None
  }

  /** The index in which block b lives at sector p. */
  function Moved(zones: seq<Zone>, x: Index, b: nat, p: nat): Index
    requires Shape(zones, x) && MoveAllowed(zones, x, b, p)
    requires b in x.latest ==> x.nrValid[OldSlot(zones, x, b).value.zone] > 0
  {
    var n := SlotAt(zones, p).value;
    Index(x.latest[b := p],
          Reassign(x.reverse, OldSlot(zones, x, b), n, b),
          Recount(x.nrValid, OldZone(zones, x, b), n.zone),
          x.validBlocks + if b in x.latest then 0 else 1)
  }

  /** Index y is index x after block b moved to sector p. */
  predicate IsMove(zones: seq<Zone>, x: Index, b: nat, p: nat, y: Index) {
    && Shape(zones, x) && MoveAllowed(zones, x, b, p)
    && (b in x.latest ==> x.nrValid[OldSlot(zones, x, b).value.zone] > 0)
    && y == Moved(zones, x, b, p)
  }

  /** A recorded block is counted in its zone. */
  lemma OwnedZoneCounted(zones: seq<Zone>, x: Index, s: Slot)
    requires Consistent(zones, x) && HasSlot(x.reverse, s) && Owner(x.reverse, s) != 0
    ensures x.nrValid[s.zone] > 0
  {
    CountBounds(x.reverse[s.zone]);
  }

  /** No two mapped blocks share a slot. */
  lemma MappedSlotsDistinct(zones: seq<Zone>, x: Index, b: nat, c: nat)
    requires Consistent(zones, x) && b in x.latest && c in x.latest && b != c
    ensures x.latest[b] != x.latest[c]
  {
    assert Records(zones, x.reverse, b, x.latest[b]);
    assert Records(zones, x.reverse, c, x.latest[c]);
  }

  /** In a consistent index the checks of a move reduce to the target being a written, unowned block:
      the overwrite checks cannot fail. */
  lemma MoveAllowedIffUnowned(zones: seq<Zone>, x: Index, b: nat, p: nat)
    requires Consistent(zones, x)
    ensures MoveAllowed(zones, x, b, p) <==> Unowned(zones, x, p)
    ensures Unowned(zones, x, p) && b in x.latest ==> x.nrValid[SlotAt(zones, x.latest[b]).value.zone] > 0
  {
    if b in x.latest {
      assert Records(zones, x.reverse, b, x.latest[b]);
      OwnedZoneCounted(zones, x, SlotAt(zones, x.latest[b]).value);
    }
  }

  /** The address of a slot belongs to that slot and to no other. */
  lemma SlotOfAddress(zones: seq<Zone>, s: Slot, p: nat)
    requires Disjoint(zones) && s.zone < |zones| && s.index < Slots(zones[s.zone]) && p == SlotAddress(zones, s)
    ensures ZoneOf(zones, p) == Some(s.zone) && InZone(zones[s.zone], p)
    ensures SlotAt(zones, p) == if WrittenBlock(zones[s.zone], p) then Some(s) else None
  {
    ZoneOfIs(zones, s.zone, p);
  }

  lemma SetOwnerCount(reverse: seq<seq<nat>>, s: Slot, v: nat, i: nat)
    requires HasSlot(reverse, s) && i < |reverse|
    ensures i < |SetOwner(reverse, s, v)|
    ensures Count(SetOwner(reverse, s, v)[i]) ==
            Count(reverse[i]) + if i != s.zone then 0
              else (if v != 0 then 1 else 0) - (if Owner(reverse, s) != 0 then 1 else 0)
  {
    CountUpdate(reverse[s.zone], s.index, v);
  }

  /** A move keeps the record of every other block and records the moved one at its new sector. */
  lemma MovedRecords(zones: seq<Zone>, x: Index, b: nat, p: nat, c: nat)
    requires Shape(zones, x) && Unowned(zones, x, p)
    requires b in x.latest ==> Records(zones, x.reverse, b, x.latest[b])
    requires c == b || (c in x.latest && Records(zones, x.reverse, c, x.latest[c]))
    ensures Records(zones, Reassign(x.reverse, OldSlot(zones, x, b), SlotAt(zones, p).value, b), c, x.latest[b := p][c])
  {
    hide SlotAt, Reassign, Count, Sum;
    ReassignAt(x.reverse, OldSlot(zones, x, b), SlotAt(zones, p).value, b, SlotAt(zones, x.latest[b := p][c]).value);
  }

  /** After a move every occupied slot still records a block that is mapped to it. */
  lemma MovedOwner(zones: seq<Zone>, x: Index, b: nat, p: nat, s: Slot)
    requires Disjoint(zones) && Shape(zones, x) && Unowned(zones, x, p)
    requires b in x.latest ==> Records(zones, x.reverse, b, x.latest[b])
    requires HasSlot(x.reverse, s) && OwnerMapped(zones, x, s)
    ensures var r := Reassign(x.reverse, OldSlot(zones, x, b), SlotAt(zones, p).value, b);
            && HasSlot(r, s)
            && (Owner(r, s) != 0 ==>
                  Owner(r, s) - 1 in x.latest[b := p] && x.latest[b := p][Owner(r, s) - 1] == SlotAddress(zones, s))
  {
    ReassignAt(x.reverse, OldSlot(zones, x, b), SlotAt(zones, p).value, b, s);
    if Owner(x.reverse, s) == b + 1 {
      SlotOfAddress(zones, s, x.latest[b]);
    }
  }

  /** A move keeps the forward and the reverse map in agreement. */
  lemma MovedMapsAgree(zones: seq<Zone>, x: Index, b: nat, p: nat)
    requires Disjoint(zones) && Consistent(zones, x) && Unowned(zones, x, p)
    requires MoveAllowed(zones, x, b, p) && (b in x.latest ==> x.nrValid[OldSlot(zones, x, b).value.zone] > 0)
    ensures var y := Moved(zones, x, b, p);
            && |y.reverse| == |zones|
            && (forall c | c in y.latest :: Records(zones, y.reverse, c, y.latest[c]))
            && (forall s | HasSlot(y.reverse, s) :: OwnerMapped(zones, y, s))
  {
    hide SlotAt, Reassign, Recount, Count, Sum, Records;
    var y := Moved(zones, x, b, p);
    ReassignAt(x.reverse, OldSlot(zones, x, b), SlotAt(zones, p).value, b, Slot(0, 0));
    forall c | c in y.latest ensures Records(zones, y.reverse, c, y.latest[c]) {
      MovedRecords(zones, x, b, p, c);
    }
    forall s | HasSlot(y.reverse, s) ensures OwnerMapped(zones, y, s) {
      ReassignAt(x.reverse, OldSlot(zones, x, b), SlotAt(zones, p).value, b, s);
      MovedOwner(zones, x, b, p, s);
    }
  }

  /** A move changes the number of occupied slots of a zone exactly as it changes the zone's counter. */
  lemma MovedCount(zones: seq<Zone>, x: Index, b: nat, p: nat, i: nat)
    requires Shape(zones, x) && Unowned(zones, x, p) && i < |zones|
    requires b in x.latest ==>
              Records(zones, x.reverse, b, x.latest[b]) && x.nrValid[OldSlot(zones, x, b).value.zone] > 0
    requires x.nrValid[i] == Count(x.reverse[i])
    ensures var r := Reassign(x.reverse, OldSlot(zones, x, b), SlotAt(zones, p).value, b);
            && |r| == |zones| && |r[i]| == |x.reverse[i]|
            && Recount(x.nrValid, OldZone(zones, x, b), SlotAt(zones, p).value.zone)[i] == Count(r[i])
  {
    hide Count, Sum;
    var n := SlotAt(zones, p).value;
    if b in x.latest {
      var o := SlotAt(zones, x.latest[b]).value;
      SetOwnerCount(x.reverse, o, 0, i);
      SetOwnerCount(SetOwner(x.reverse, o, 0), n, b + 1, i);
    } else {
      SetOwnerCount(x.reverse, n, b + 1, i);
    }
  }

  lemma RecountSum(nrValid: seq<nat>, o: Option<nat>, n: nat)
    requires n < |nrValid| && (o.Some? ==> o.value < |nrValid| && nrValid[o.value] > 0)
    ensures |Recount(nrValid, o, n)| == |nrValid|
    ensures Sum(Recount(nrValid, o, n)) == Sum(nrValid) + if o.Some? then 0 else 1
  {
    hide Sum;
    if o.Some? {
      var nr: seq<nat> := nrValid[o.value := nrValid[o.value] - 1];
      SumUpdate(nrValid, o.value, nrValid[o.value] - 1);
      SumUpdate(nr, n, nr[n] + 1);
    } else {
      SumUpdate(nrValid, n, nrValid[n] + 1);
    }
  }

  lemma KeysAfterUpdate(m: map<nat, nat>, b: nat, p: nat)
    ensures m[b := p].Keys == m.Keys + {b}
    ensures |m[b := p]| == |m| + if b in m then 0 else 1
  {
    assert m[b := p].Keys == m.Keys + {b};
    if b in m {
      assert m[b := p].Keys == m.Keys;
    }
  }

  /** A move keeps every counter equal to what it counts. */
  lemma MovedCounts(zones: seq<Zone>, x: Index, b: nat, p: nat)
    requires Consistent(zones, x) && Unowned(zones, x, p)
    requires MoveAllowed(zones, x, b, p) && (b in x.latest ==> x.nrValid[OldSlot(zones, x, b).value.zone] > 0)
    ensures var y := Moved(zones, x, b, p);
            && Shape(zones, y)
            && (forall i | 0 <= i < |zones| :: y.nrValid[i] == Count(y.reverse[i]))
            && Sum(y.nrValid) == y.validBlocks == |y.latest|
  {
    hide Count, Sum, SlotAt, Reassign, Recount;
    var y := Moved(zones, x, b, p);
    ReassignAt(x.reverse, OldSlot(zones, x, b), SlotAt(zones, p).value, b, Slot(0, 0));
    RecountSum(x.nrValid, OldZone(zones, x, b), SlotAt(zones, p).value.zone);
    forall i | 0 <= i < |zones| ensures y.nrValid[i] == Count(y.reverse[i]) && |y.reverse[i]| == Slots(zones[i]) {
      MovedCount(zones, x, b, p, i);
    }
    KeysAfterUpdate(x.latest, b, p);
  }

  /** What a move out of zone i into another zone does to zone i's row and to the counters. */
  lemma MovedOut(zones: seq<Zone>, x: Index, b: nat, p: nat, y: Index, o: Slot)
    requires IsMove(zones, x, b, p, y) && b in x.latest && SlotAt(zones, x.latest[b]) == Some(o)
    requires x.nrValid[o.zone] > 0 && HasSlot(x.reverse, o) && SlotAt(zones, p).value.zone != o.zone
    ensures && y.latest == x.latest[b := p]
            && |y.reverse| == |x.reverse| == |y.nrValid| == |x.nrValid|
            && y.reverse[o.zone] == x.reverse[o.zone][o.index := 0]
            && y.validBlocks == x.validBlocks
            && y.nrValid == x.nrValid[o.zone := x.nrValid[o.zone] - 1]
                                     [SlotAt(zones, p).value.zone := x.nrValid[SlotAt(zones, p).value.zone] + 1]
  {
    hide SlotAt, Count, Sum;
  }

  /** Moving a block to a written, unowned sector gives a consistent index whose forward map changes in that one key. */
  lemma MovedConsistent(zones: seq<Zone>, x: Index, b: nat, p: nat)
    requires Disjoint(zones) && Consistent(zones, x) && Unowned(zones, x, p)
    ensures MoveAllowed(zones, x, b, p)
    ensures b in x.latest ==> x.nrValid[OldSlot(zones, x, b).value.zone] > 0
    ensures Consistent(zones, Moved(zones, x, b, p)) && Moved(zones, x, b, p).latest == x.latest[b := p]
  {
    MoveAllowedIffUnowned(zones, x, b, p);
    MovedMapsAgree(zones, x, b, p);
    MovedCounts(zones, x, b, p);
  }

  /** The index only looks at zone ranges, and at write pointers where a block is owned:
      any change of the zones that keeps owned blocks written keeps the index consistent. */
  lemma ConsistentUnderZoneChange(zones: seq<Zone>, zones': seq<Zone>, x: Index)
    requires Consistent(zones, x) && SameLayout(zones, zones')
    requires forall b | b in x.latest :: SlotAt(zones', x.latest[b]).Some?
    ensures Consistent(zones', x)
  {
    hide Sum, Count, SlotAt, Records;
    forall b | b in x.latest ensures Records(zones', x.reverse, b, x.latest[b]) {
      RecordUnderZoneChange(zones, zones', x.reverse, b, x.latest[b]);
    }
    forall i | 0 <= i < |zones| ensures |x.reverse[i]| == Slots(zones'[i]) {
      assert SameGeometry(zones[i], zones'[i]);
    }
    forall s | HasSlot(x.reverse, s) ensures OwnerMapped(zones', x, s) {
      assert OwnerMapped(zones, x, s) && SameGeometry(zones[s.zone], zones'[s.zone]);
    }
  }

  lemma RecordUnderZoneChange(zones: seq<Zone>, zones': seq<Zone>, reverse: seq<seq<nat>>, b: nat, p: nat)
    requires SameLayout(zones, zones') && Records(zones, reverse, b, p) && SlotAt(zones', p).Some?
    ensures SlotAt(zones', p) == SlotAt(zones, p) && Records(zones', reverse, b, p)
  {
    ZoneOfSameLayout(zones, zones', p);
    var i := ZoneOf(zones, p).value;
    assert SameGeometry(zones[i], zones'[i]);
  }

  class GcIndex {
    var latest: map<nat, nat>
    var reverse: seq<seq<nat>>
    var nrValid: seq<nat>
    var validBlocks: nat

    function Value(): Index
      reads this
    {
      Index(latest, reverse, nrValid, validBlocks)
    }

    /** zns_lsm_gc_map_init: an empty reverse map of the right size for every zone. */
    constructor (zones: seq<Zone>)
      ensures latest == map[] && validBlocks == 0 && Consistent(zones, Value())
    {
      latest, validBlocks := map[], 0;
      reverse := seq(|zones|, i requires 0 <= i < |zones| => seq(Slots(zones[i]), k => 0));
      nrValid := seq(|zones|, i => 0);
      new;
      forall i | 0 <= i < |zones| ensures nrValid[i] == Count(reverse[i]) {
        CountBounds(reverse[i]);
      }
      SumAtMost(nrValid, 0);
    }

    /** zns_lsm_physical_to_gc_slot: the first zone whose range holds the sector decides. */
    static method PhysicalToSlot(zones: seq<Zone>, p: nat) returns (r: Result<Slot>)
      ensures r == match SlotAt(zones, p) case Some(s) => Ok(s) case None => Err(Invalid)
      ensures r.Ok? ==> r.value.zone < |zones| && zones[r.value.zone].start + BLOCK_SECTORS * r.value.index == p
      ensures forall i | 0 <= i < |zones| && zones[i].start <= p < zones[i].start + zones[i].capacity
                         && (forall k | 0 <= k < i :: !InZone(zones[k], p)) ::
                  (r.Ok? <==>
                     && (p - zones[i].start) % BLOCK_SECTORS == 0
                     && p + BLOCK_SECTORS <= zones[i].start + zones[i].capacity
                     && (p < zones[i].wp || zones[i].cond == Full))
    {
      var i := 0;
      while i < |zones|
        invariant i <= |zones| && ZoneOf(zones, p) == ZoneFrom(zones, p, i)
      {
        var z := zones[i];
        if p < z.start || p >= z.End() {
          i := i + 1;
          continue;
        }
        if (p - z.start) % BLOCK_SECTORS != 0 || BLOCK_SECTORS > z.End() - p || (p >= z.wp && z.cond != Full) {
          return Err(Invalid);
        }
        return Ok(Slot(i, (p - z.start) / BLOCK_SECTORS));
      }
      return Err(Invalid);
    }

    /** zns_lsm_update_gc_block_location: all checks precede any change, so a refused update changes nothing. */
    method UpdateLocation(zones: seq<Zone>, b: nat, p: nat) returns (r: Errno)
      requires Disjoint(zones) && Consistent(zones, Value())
      modifies this
      ensures Consistent(zones, Value())
      ensures r == Success <==> MoveAllowed(zones, old(Value()), b, p)
      ensures r == Success ==> latest == old(latest)[b := p] && IsMove(zones, old(Value()), b, p, Value())
      ensures r != Success ==> r == Invalid && unchanged(this)
    {
      hide Consistent, SlotAt, Count, Sum, SetOwner;
      RevealShape(zones, Value());
      MoveAllowedIffUnowned(zones, Value(), b, p);
      var target := PhysicalToSlot(zones, p);
      if target.Err? {
        return target.error;
      }
      var n := target.value;
      if reverse[n.zone][n.index] != 0 {
        return Invalid;
      }
      MovedConsistent(zones, Value(), b, p);
      var isOverwrite := b in latest;
      if isOverwrite {
        var previous := PhysicalToSlot(zones, latest[b]);
        if previous.Err? {
          return Invalid;
        }
        var o := previous.value;
        if reverse[o.zone][o.index] != b + 1 {
          return Invalid;
        }
        SetOwnerAt(reverse, o, 0, n);
        reverse := SetOwner(reverse, o, 0);
        nrValid := nrValid[o.zone := nrValid[o.zone] - 1];
      } else {
        validBlocks := validBlocks + 1;
      }
      latest := latest[b := p];
      reverse := SetOwner(reverse, n, b + 1);
      nrValid := nrValid[n.zone := nrValid[n.zone] + 1];
      return Success;
    }

    /** zns_lsm_gc_restore_entry: the first entry restored for a block wins; later ones, from older tables, are skipped
        before their sector is looked at, because it may lie in a zone that was reset since. */
    method RestoreEntry(zones: seq<Zone>, logicalBlocks: nat, b: nat, p: nat, memoryOk: bool) returns (r: Errno)
      requires Disjoint(zones) && Consistent(zones, Value())
      modifies this
      ensures Consistent(zones, Value())
      ensures r == Success ==> latest == if b in old(latest) then old(latest) else old(latest)[b := p]
      ensures r == Success <==> b < logicalBlocks && (b in old(latest) || (memoryOk && Unowned(zones, old(Value()), p)))
      ensures r != Success ==> unchanged(this) && (r == Invalid || r == NoMem) && (r == NoMem ==> !memoryOk)
      ensures r == Invalid ==> b >= logicalBlocks || (b !in old(latest) && !Unowned(zones, old(Value()), p))
    {
      hide Consistent, SlotAt, Count, Sum, SetOwner;
      RevealShape(zones, Value());
      if b >= logicalBlocks {
        return Invalid;
      }
      if b in latest {
        return Success;
      }
      var target := PhysicalToSlot(zones, p);
      if target.Err? || reverse[target.value.zone][target.value.index] != 0 {
        return Invalid;
      }
      if !memoryOk {
        return NoMem;
      }
      var n := target.value;
      MovedConsistent(zones, Value(), b, p);
      latest := latest[b := p];
      reverse := SetOwner(reverse, n, b + 1);
      nrValid := nrValid[n.zone := nrValid[n.zone] + 1];
      validBlocks := validBlocks + 1;
      return Success;
    }
  }

  lemma MappedRecords(zones: seq<Zone>, x: Index, b: nat)
    requires Consistent(zones, x) && b in x.latest
    ensures Records(zones, x.reverse, b, x.latest[b])
  {
    hide SlotAt, Sum, Count, Records, OwnerMapped;
  }

  lemma OwnedSlotMapped(zones: seq<Zone>, x: Index, s: Slot)
    requires Consistent(zones, x) && HasSlot(x.reverse, s) && Owner(x.reverse, s) != 0
    ensures s.zone < |zones| && Owner(x.reverse, s) - 1 in x.latest
    ensures x.latest[Owner(x.reverse, s) - 1] == SlotAddress(zones, s)
  {
    hide SlotAt, Sum, Count, Records;
    assert OwnerMapped(zones, x, s);
  }

  lemma RevealShape(zones: seq<Zone>, x: Index)
    requires Consistent(zones, x)
    ensures Shape(zones, x)
  {
  }

  /** The forward map determines the whole index: equal forward maps over zones of the same layout leave no room for
      different reverse maps or counters. */
  lemma IndexDetermined(zones: seq<Zone>, x: Index, zones': seq<Zone>, y: Index)
    requires Disjoint(zones) && Disjoint(zones') && SameLayout(zones, zones') && x.latest == y.latest
    requires Consistent(zones, x) && Consistent(zones', y)
    ensures x == y
  {
    hide Consistent, SlotAt, Sum, Count;
    RevealShape(zones, x);
    RevealShape(zones', y);
    forall i | 0 <= i < |zones| ensures x.reverse[i] == y.reverse[i] {
      assert SameGeometry(zones[i], zones'[i]);
      forall k | 0 <= k < |x.reverse[i]| ensures x.reverse[i][k] == y.reverse[i][k] {
        SameOwner(zones, x, zones', y, Slot(i, k));
        SameOwner(zones', y, zones, x, Slot(i, k));
      }
    }
    assert x.reverse == y.reverse;
    CountsDetermined(zones, x, zones', y);
  }

  lemma SameOwner(zones: seq<Zone>, x: Index, zones': seq<Zone>, y: Index, s: Slot)
    requires Disjoint(zones') && SameLayout(zones, zones') && x.latest == y.latest
    requires HasSlot(x.reverse, s) && HasSlot(y.reverse, s) && s.zone < |zones| && s.index < Slots(zones[s.zone])
    requires Consistent(zones, x) && Consistent(zones', y)
    ensures Owner(x.reverse, s) != 0 ==> Owner(y.reverse, s) == Owner(x.reverse, s)
  {
    hide Consistent, SlotAt;
    if Owner(x.reverse, s) != 0 {
      OwnedSlotMapped(zones, x, s);
      var b := Owner(x.reverse, s) - 1;
      MappedRecords(zones', y, b);
      assert SameGeometry(zones[s.zone], zones'[s.zone]);
      SlotOfAddress(zones', s, y.latest[b]);
    }
  }

  lemma CountsDetermined(zones: seq<Zone>, x: Index, zones': seq<Zone>, y: Index)
    requires |zones| == |zones'| && x.reverse == y.reverse && x.latest == y.latest
    requires Consistent(zones, x) && Consistent(zones', y)
    ensures x.nrValid == y.nrValid && x.validBlocks == y.validBlocks
  {
    hide SlotAt, Sum, Count, OwnerMapped, Records;
  }
}
