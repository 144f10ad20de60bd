/** The reserved metadata zone: an append-only log of blocks whose write pointer only moves forward. */
module MetaZones {
  import opened Prelude
  import opened Zones

  type Media = map<nat, Block>

  /** What a read of the block at sector p returns; sectors that hold nothing read as zeros. */
  function BlockAt(content: Media, p: nat): Block {
    if p in content then content[p] else ZeroBlock()
  }

  /** Consecutive blocks from sector p on. */
  predicate StoredAt(content: Media, p: nat, blocks: seq<Block>) {
    forall k | 0 <= k < |blocks| :: BlockAt(content, p + BLOCK_SECTORS * k) == blocks[k]
  }

  /** Nothing below sector p differs. */
  predicate SameBelow(content: Media, content': Media, p: nat) {
    forall q | 0 <= q < p :: BlockAt(content', q) == BlockAt(content, q)
  }

  lemma BlockKept(content: Media, content': Media, q: nat, p: nat)
    requires SameBelow(content, content', p) && q < p
    ensures BlockAt(content', q) == BlockAt(content, q)
  {
  }

  lemma StoredBelow(content: Media, content': Media, p: nat, blocks: seq<Block>, limit: nat)
    requires StoredAt(content, p, blocks) && SameBelow(content, content', limit)
    requires blocks != [] ==> p + BLOCK_SECTORS * (|blocks| - 1) < limit
    ensures StoredAt(content', p, blocks)
  {
    forall k | 0 <= k < |blocks| ensures BlockAt(content', p + BLOCK_SECTORS * k) == blocks[k] {
      assert BlockAt(content, p + BLOCK_SECTORS * k) == blocks[k];
    }
  }

  /** A descriptor of a zone whose append position is at wp. A full zone's descriptor puts the pointer anywhere. */
  predicate Describing(z: Zone, start: nat, end: nat, wp: nat) {
    && z.start == start && z.End() == end
    && (if z.cond == Full then wp == end else z.wp == wp)
  }

  class MetaZone {
    const start: nat
    const end: u64
    const length: nat
    var wp: nat
    var content: Media
    /** Failures so far: of allocations, reads and writes. */
    var faults: nat

    constructor (start: nat, end: u64, length: nat)
      ensures this.start == start && this.end == end && this.length == length
      ensures wp == start && content == map[] && faults == 0
    {
      this.start, this.end, this.length, wp, content, faults := start, end, length, start, map[], 0;
    }

    /** The zone's descriptor in a zone report. */
    method Report() returns (z: Zone)
      requires start <= end
      ensures Describing(z, start, end, wp) && z.length == length && (z.cond == Full ==> z.wp == start + length)
    {
      var cond: Condition := *;
      if wp == end {
        return Zone(start, length, end - start, start + length, Full, false);
      }
      return Zone(start, length, end - start, wp, if cond == Full then Closed else cond, false);
    }

    method Allocate() returns (ok: bool)
      modifies this`faults
      ensures faults == old(faults) + if ok then 0 else 1
    {
      ok := *;
      if !ok {
        faults := faults + 1;
      }
    }

    /** zns_block_read. */
    method ReadBlock(p: nat) returns (r: Result<Block>)
      modifies this`faults
      ensures r.Err? ==> (r.error == NoMem || r.error == IoError) && faults > old(faults)
      ensures r.Ok? ==> faults == old(faults) && r.value == BlockAt(content, p)
    {
      var fails: bool, noBio: bool := *, *;
      if fails {
        faults := faults + 1;
        return Err(if noBio then NoMem else IoError);
      }
      return Ok(BlockAt(content, p));
    }

    /** zns_block_write: the zone takes a block only at its write pointer and below its end. A failed write may move
        the pointer forward, up to the end of the zone, and leave anything behind it, but nothing below the old pointer
        changes. */
    method WriteBlock(p: nat, data: Block) returns (r: Errno)
      modifies this
      ensures r == Success || r == NoMem || r == IoError
      ensures faults >= old(faults) && wp >= old(wp) && SameBelow(old(content), content, old(wp))
      ensures r == Success ==>
                && old(wp) == p && p + BLOCK_SECTORS <= end && wp == p + BLOCK_SECTORS
                && content == old(content)[p := data]
                && faults == old(faults)
      ensures r != Success && old(wp) == p && p + BLOCK_SECTORS <= end ==> faults > old(faults)
    {
      if p != wp || p + BLOCK_SECTORS > end {
        return IoError;
      }
      var fails: bool, noBio: bool := *, *;
      if !fails {
        content, wp := content[p := data], p + BLOCK_SECTORS;
        return Success;
      }
      faults := faults + 1;
      if noBio {
        return NoMem;
      }
      var landed: nat := *;
      var junk: Media := *;
      content := content + (map q | q in junk && wp <= q :: junk[q]);
      wp := if landed <= wp then wp else if landed <= end then landed else if wp < end then end else wp;
      return IoError;
    }
  }
}
