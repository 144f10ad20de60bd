/** The three MemTable generations as identities on a heap of tables, and the view that reads resolve against. */
module Generations {
  import opened Prelude

  type Mapping = map<nat, nat>

  /** The allocation outcomes of one insertion: true means that the allocation fails. */
  datatype PutFaults = PutFaults(entry: bool, mergedTable: bool, mergedEntry: bool, freshTable: bool)

  const NO_FAULT := PutFaults(false, false, false, false)

  /** Live tables by identity, the three slots that refer to them, and the record of creations and releases. */
  datatype Tables = Tables(
    heap: map<nat, Mapping>,
    active: nat,
    immutable: Option<nat>,
    flushing: Option<nat>,
    created: nat,
    freed: multiset<nat>)

  function Table(t: Tables, id: nat): Mapping {
    if id in t.heap then t.heap[id] else map[]
  }

  function Contents(t: Tables, slot: Option<nat>): Mapping {
    if slot.Some? then Table(t, slot.value) else map[]
  }

  /** What the MemTables map, newest generation first. */
  function TablesView(t: Tables): Mapping {
    Contents(t, t.flushing) + Contents(t, t.immutable) + Table(t, t.active)
  }

  function Slot(o: Option<nat>): set<nat> {
    if o.Some? then {o.value} else {}
  }

  predicate Distinct(t: Tables, detached: Option<nat>) {
    && t.immutable != Some(t.active) && t.flushing != Some(t.active) && detached != Some(t.active)
    && (t.immutable.Some? ==> t.immutable != t.flushing && t.immutable != detached)
    && (t.flushing.Some? ==> t.flushing != detached)
  }

  /** No slot aliases another, exactly the tables in a slot (or detached but not yet released) are allocated,
      and every table ever created is either still allocated or was released exactly once. */
  ghost predicate MemoryOk(t: Tables, detached: Option<nat>) {
    && Distinct(t, detached)
    && t.heap.Keys == {t.active} + Slot(t.immutable) + Slot(t.flushing) + Slot(detached)
    && (forall id | id in t.heap :: id < t.created)
    && (forall id: nat :: t.freed[id] == if id < t.created && id !in t.heap then 1 else 0)
  }

  /** memtable_put_active: insert into the active table, then freeze it if it reached the threshold and the immutable
      slot is free, or else merge both into a fresh immutable table. Failing maintenance keeps the tables as they
      are. */
  function PutActive(t: Tables, threshold: nat, b: nat, p: nat, f: PutFaults): (Tables, Errno) {
    if f.entry then (t, NoMem)
    else
      var u := Inserted(t, b, p);
      (if |Table(u, u.active)| < threshold then u else Maintain(u, f), Success)
  }

  lemma PutActiveIs(t: Tables, threshold: nat, b: nat, p: nat, f: PutFaults)
    ensures var u := Inserted(t, b, p);
            PutActive(t, threshold, b, p, f) ==
            if f.entry then (t, NoMem)
            else (if |Table(u, u.active)| < threshold then u else Maintain(u, f), Success)
    ensures Inserted(t, b, p).immutable == t.immutable
  {
  }

  function Maintain(u: Tables, f: PutFaults): Tables {
    var c := u.created;
    match u.immutable
    case None =>
      if f.freshTable then u
      else u.(heap := u.heap[c := map[]], immutable := Some(u.active), active := c, created := c + 1)
    case Some(older) =>
      if f.mergedTable then u
      else if f.mergedEntry || f.freshTable then
        // the merged table was created and is given up again
        u.(created := c + 1, freed := u.freed + multiset{c})
      else
        var merged := Table(u, older) + Table(u, u.active);
        u.(heap := (u.heap - {u.active, older})[c := merged][c + 1 := map[]],
           immutable := Some(c), active := c + 1, created := c + 2, freed := u.freed + multiset{u.active, older})
  }

  /** zns_lsm_claim_flush_victim: a table still parked in the flushing slot is retried before the immutable one is
      taken. */
  function Claim(t: Tables): Tables {
    if t.flushing.None? then t.(flushing := t.immutable, immutable := None) else t
  }

  /** The lock-protected part of zns_lsm_release_flush_victim; the table itself is freed afterwards. */
  function ClearFlushing(t: Tables): Tables { t.(flushing := None) }

  function Free(t: Tables, v: nat): Tables {
    t.(heap := t.heap - {v}, freed := t.freed + multiset{v})
  }

  /** The tables after attach: one empty active table. */
  function FirstTables(): Tables {
    Tables(map[0 := map[]], 0, None, None, 1, multiset{})
  }

  lemma FirstTablesFacts()
    ensures MemoryOk(FirstTables(), None) && TablesView(FirstTables()) == map[]
  {
  }

  lemma ClaimFacts(t: Tables)
    requires MemoryOk(t, None)
    ensures MemoryOk(Claim(t), None) && TablesView(Claim(t)) == TablesView(t)
  {
  }

  lemma ClearFlushingFacts(t: Tables, v: nat)
    requires MemoryOk(t, None) && t.flushing == Some(v)
    ensures MemoryOk(ClearFlushing(t), Some(v))
    ensures Table(t, v) + TablesView(ClearFlushing(t)) == TablesView(t)
  {
  }

  lemma FreeFacts(t: Tables, v: nat)
    requires MemoryOk(t, Some(v))
    ensures MemoryOk(Free(t, v), None) && TablesView(Free(t, v)) == TablesView(t)
  {
    forall id: nat ensures Free(t, v).freed[id] == if id < t.created && id !in Free(t, v).heap then 1 else 0 {
      assert t.freed[id] == if id < t.created && id !in t.heap then 1 else 0;
    }
    assert forall id | id in t.heap && id != v :: Table(Free(t, v), id) == Table(t, id);
  }

  lemma MergeKeepsView(f: Mapping, i: Mapping, a: Mapping)
    ensures f + (i + a) + map[] == f + i + a
    ensures f + a + map[] == f + map[] + a
  {
  }

  /** Maintenance does not touch a live table that is neither active nor immutable. */
  lemma MaintainKeepsOthers(u: Tables, f: PutFaults, id: nat)
    requires id in u.heap && id != u.active && u.immutable != Some(id) && u.created > id
    ensures id in Maintain(u, f).heap && Maintain(u, f).heap[id] == u.heap[id]
  {
  }

  lemma MaintainKeepsView(u: Tables, f: PutFaults, detached: Option<nat>)
    requires MemoryOk(u, detached)
    ensures Maintain(u, f).flushing == u.flushing
    ensures Contents(Maintain(u, f), u.flushing) == Contents(u, u.flushing)
    ensures Contents(Maintain(u, f), detached) == Contents(u, detached)
    ensures TablesView(Maintain(u, f)) == TablesView(u)
  {
    MergeKeepsView(Contents(u, u.flushing), Contents(u, u.immutable), Table(u, u.active));
    if u.flushing.Some? {
      MaintainKeepsOthers(u, f, u.flushing.value);
    }
    if detached.Some? {
      MaintainKeepsOthers(u, f, detached.value);
    }
  }

  /** The insertion itself, before maintenance. */
  function Inserted(t: Tables, b: nat, p: nat): Tables {
    t.(heap := t.heap[t.active := Table(t, t.active)[b := p]])
  }

  lemma InsertedFacts(t: Tables, b: nat, p: nat, detached: Option<nat>)
    requires MemoryOk(t, detached)
    ensures var u := Inserted(t, b, p);
            && MemoryOk(u, detached)
            && TablesView(u) == TablesView(t)[b := p]
            && Contents(u, u.flushing) == Contents(t, t.flushing)
            && Contents(u, detached) == Contents(t, detached)
  {
    InsertedTables(t, b, p, detached);
    hide MemoryOk, Table, Inserted;
    var a := Table(t, t.active);
    assert Contents(t, t.flushing) + Contents(t, t.immutable) + a[b := p] ==
           (Contents(t, t.flushing) + Contents(t, t.immutable) + a)[b := p];
  }

  lemma InsertedTables(t: Tables, b: nat, p: nat, detached: Option<nat>)
    requires MemoryOk(t, detached)
    ensures var u := Inserted(t, b, p);
            && MemoryOk(u, detached) && u.active == t.active && u.immutable == t.immutable && u.flushing == t.flushing
            && Table(u, u.active) == Table(t, t.active)[b := p]
            && Contents(u, t.immutable) == Contents(t, t.immutable)
            && Contents(u, t.flushing) == Contents(t, t.flushing)
            && Contents(u, detached) == Contents(t, detached)
  {
    assert Inserted(t, b, p).heap.Keys == t.heap.Keys;
  }

  /** A successful insertion changes the view in exactly one key; a failed one changes nothing.
      The table being flushed is not touched in either case. */
  lemma PutActiveView(t: Tables, threshold: nat, b: nat, p: nat, f: PutFaults, detached: Option<nat>)
    requires MemoryOk(t, detached)
    ensures var (u, r) := PutActive(t, threshold, b, p, f);
            && (r == Success ==> TablesView(u) == TablesView(t)[b := p])
            && (r != Success ==> u == t && r == NoMem)
            && u.flushing == t.flushing && Contents(u, u.flushing) == Contents(t, t.flushing)
            && Contents(u, detached) == Contents(t, detached)
  {
    hide MemoryOk, Maintain, TablesView, Contents;
    InsertedFacts(t, b, p, detached);
    MaintainKeepsView(Inserted(t, b, p), f, detached);
  }

  /** Maintenance that a failed allocation makes give up. */
  predicate GivesUp(t: Tables, f: PutFaults) {
    if t.immutable.None? then f.freshTable else f.mergedTable || f.mergedEntry || f.freshTable
  }

  /** What an insertion does to the two younger generations. Below the threshold, or if maintenance gives up, the active
      table just grows; a table that reaches the threshold makes way for an empty one, and joins what waits in the
      immutable slot, whose mappings it overrides. */
  lemma PutActiveFills(t: Tables, threshold: nat, b: nat, p: nat, f: PutFaults, detached: Option<nat>)
    requires MemoryOk(t, detached) && !f.entry
    ensures var u, grown := PutActive(t, threshold, b, p, f).0, Table(t, t.active)[b := p];
            if |grown| < threshold || GivesUp(t, f) then
              && u.active == t.active && Table(u, u.active) == grown
              && u.immutable == t.immutable && Contents(u, u.immutable) == Contents(t, t.immutable)
            else
              && Table(u, u.active) == map[]
              && u.immutable.Some? && Contents(u, u.immutable) == Contents(t, t.immutable) + grown
  {
    hide Maintain, Inserted, MemoryOk;
    InsertedTables(t, b, p, detached);
    MaintainFills(Inserted(t, b, p), f, detached);
  }

  lemma MaintainFills(u: Tables, f: PutFaults, detached: Option<nat>)
    requires MemoryOk(u, detached)
    ensures var v := Maintain(u, f);
            if GivesUp(u, f) then
              && v.active == u.active && Table(v, v.active) == Table(u, u.active)
              && v.immutable == u.immutable && Contents(v, v.immutable) == Contents(u, u.immutable)
            else
              && Table(v, v.active) == map[]
              && v.immutable.Some? && Contents(v, v.immutable) == Contents(u, u.immutable) + Table(u, u.active)
  {
    SlotsLive(u, detached);
  }

  /** An insertion neither leaks nor releases a table twice, and never makes two slots refer to one table. */
  lemma PutActiveMemory(t: Tables, threshold: nat, b: nat, p: nat, f: PutFaults, detached: Option<nat>)
    requires MemoryOk(t, detached)
    ensures MemoryOk(PutActive(t, threshold, b, p, f).0, detached)
  {
    hide MemoryOk, Maintain;
    InsertedFacts(t, b, p, detached);
    MaintainMemory(Inserted(t, b, p), f, detached);
  }

  /** Maintenance without any allocation failure: the names it takes over, by case. */
  lemma MaintainSlots(u: Tables, f: PutFaults, detached: Option<nat>)
    requires MemoryOk(u, detached)
    ensures var v := Maintain(u, f);
            Distinct(v, detached) && v.heap.Keys == {v.active} + Slot(v.immutable) + Slot(v.flushing) + Slot(detached)
  {
    assert forall id | id in u.heap :: id < u.created;
  }

  lemma MaintainCounts(u: Tables, f: PutFaults, detached: Option<nat>)
    requires MemoryOk(u, detached)
    ensures var v := Maintain(u, f);
            && (forall id | id in v.heap :: id < v.created)
            && (forall id: nat :: v.freed[id] == if id < v.created && id !in v.heap then 1 else 0)
  {
    hide Distinct, Slot, Table;
    var v := Maintain(u, f);
    forall id: nat ensures v.freed[id] == if id < v.created && id !in v.heap then 1 else 0 {
      assert u.freed[id] == if id < u.created && id !in u.heap then 1 else 0;
      SlotsLive(u, detached);
    }
  }

  lemma SlotsLive(u: Tables, detached: Option<nat>)
    requires MemoryOk(u, detached)
    ensures u.active in u.heap && (u.immutable.Some? ==> u.immutable.value in u.heap && u.immutable.value != u.active)
  {
  }

  lemma MaintainMemory(u: Tables, f: PutFaults, detached: Option<nat>)
    requires MemoryOk(u, detached)
    ensures MemoryOk(Maintain(u, f), detached)
  {
    MaintainSlots(u, f, detached);
    MaintainCounts(u, f, detached);
    hide Maintain, Distinct, Slot;
  }
}
