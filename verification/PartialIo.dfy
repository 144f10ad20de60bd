/** Requests of any sector range and segmentation, over the whole-block engine: the device the user sees is a flat array
    of bytes. */
module PartialIo {
  import opened Prelude
  import opened GcPolicies
  import opened Space
  import opened Engines
  import opened Runs
  import opened GcIndexes
  import opened EngineState
  import opened Stores

  /** The byte at address a of a block store. */
  function ByteAt(store: map<nat, Block>, a: nat): byte {
    BlockOf(store, a / BLOCK_BYTES)[a % BLOCK_BYTES]
  }

  // ----- Bios -----

  function Flat(segments: seq<seq<byte>>): seq<byte> {
    if segments == [] then [] else segments[0] + Flat(segments[1..])
  }

  lemma FlatEmpty()
    ensures Flat([]) == []
  {
  }

  lemma {:induction false} FlatSplit(segments: seq<seq<byte>>, i: nat)
    requires i < |segments|
    ensures Flat(segments) == Flat(segments[..i]) + segments[i] + Flat(segments[i + 1..])
    ensures Flat(segments[..i + 1]) == Flat(segments[..i]) + segments[i]
  {
    if i == 0 {
      assert segments[..1][1..] == [];
    } else {
      FlatSplit(segments[1..], i - 1);
      assert segments[..i][1..] == segments[1..][..i - 1];
      assert segments[..i + 1][1..] == segments[1..][..i];
      assert segments[1..][i..] == segments[i + 1..];
    }
  }

  /** A block I/O request: a first sector and its data in segments of any lengths. */
  class Bio {
    const sector: nat
    var segments: seq<seq<byte>>

    constructor (sector: nat, segments: seq<seq<byte>>)
      ensures this.sector == sector && this.segments == segments
    {
      this.sector, this.segments := sector, segments;
    }

    ghost function Bytes(): seq<byte>
      reads this
    {
      Flat(segments)
    }

    method Size() returns (n: nat)
      ensures n == |Bytes()|
    {
      n := 0;
      for i := 0 to |segments|
        invariant n == |Flat(segments[..i])|
      {
        FlatSplit(segments, i);
        n := n + |segments[i]|;
      }
      assert segments[..|segments|] == segments;
    }

    /** zns_lsm_copy_fragment towards the bio: the bytes land at the offset, across segment borders, and nothing else
        in the bio changes; a bio too short for them is an I/O error. */
    method CopyIn(offset: nat, data: seq<byte>) returns (r: Errno)
      requires 0 < |data|
      modifies this
      ensures |Bytes()| == |old(Bytes())|
      ensures r == Success <==> offset + |data| <= |old(Bytes())|
      ensures r == Success ==> Bytes() == Splice(old(Bytes()), offset, data)
      ensures r == Success || r == IoError
    {
      hide Flat, Splice;
      ghost var before := Bytes();
      assert segments[..0] == [] && Flat([]) == [] by { FlatEmpty(); }
      var skip: nat, copied: nat, i: nat := offset, 0, 0;
      while i < |segments|
        invariant i <= |segments| && copied < |data| && |Bytes()| == |before|
        invariant copied == 0 ==> skip + |Flat(segments[..i])| == offset && Bytes() == before
        invariant copied > 0 ==> skip == 0 && |Flat(segments[..i])| == offset + copied <= |before|
        invariant copied > 0 ==> Bytes() == Splice(before, offset, data[..copied])
      {
        FlatSplit(segments, i);
        var s := segments[i];
        if skip >= |s| {
          skip := skip - |s|;
        } else {
          var chunk: nat := if |data| - copied < |s| - skip then |data| - copied else |s| - skip;
          CopiedMore(before, segments, i, skip, offset, data, copied, chunk);
          segments := segments[i := Splice(s, skip, data[copied..copied + chunk])];
          copied := copied + chunk;
          skip := 0;
          if copied == |data| {
            assert data[..copied] == data;
            return Success;
          }
        }
        i := i + 1;
      }
      assert segments[..i] == segments;
      r := IoError;
    }

    /** zns_lsm_copy_fragment from the bio. */
    method CopyOut(offset: nat, bytes: nat) returns (r: Result<seq<byte>>)
      requires 0 < bytes
      ensures r.Ok? <==> offset + bytes <= |Bytes()|
      ensures r.Ok? ==> r.value == Bytes()[offset..offset + bytes]
      ensures r.Err? ==> r.error == IoError
    {
      var data: seq<byte> := [];
      var skip: nat, i: nat := offset, 0;
      while i < |segments|
        invariant i <= |segments| && |data| < bytes
        invariant |data| == 0 ==> skip + |Flat(segments[..i])| == offset
        invariant |data| > 0 ==> skip == 0 && |Flat(segments[..i])| == offset + |data| <= |Bytes()|
        invariant |data| > 0 ==> data == Bytes()[offset..offset + |data|]
      {
        FlatSplit(segments, i);
        var s := segments[i];
        if skip >= |s| {
          skip := skip - |s|;
        } else {
          var chunk: nat := if bytes - |data| < |s| - skip then bytes - |data| else |s| - skip;
          SliceMore(Flat(segments[..i]), s, Flat(segments[i + 1..]), offset, data, skip, chunk);
          data := data + s[skip..skip + chunk];
          skip := 0;
          if |data| == bytes {
            return Ok(data);
          }
        }
        i := i + 1;
      }
      assert segments[..i] == segments;
      r := Err(IoError);
    }
  }

  /** Extending a copied range by the next chunk of a segment. */
  lemma SliceMore(left: seq<byte>, s: seq<byte>, right: seq<byte>, offset: nat, data: seq<byte>, skip: nat, chunk: nat)
    requires |left| + skip == offset + |data| && skip + chunk <= |s|
    requires |data| > 0 ==> data == (left + s + right)[offset..offset + |data|]
    ensures data + s[skip..skip + chunk] == (left + s + right)[offset..offset + |data| + chunk]
  {
  }

  lemma SpliceMore(before: seq<byte>, now: seq<byte>, offset: nat, data: seq<byte>, copied: nat, chunk: nat)
    requires copied + chunk <= |data| && offset + copied + chunk <= |before|
    requires now == if copied > 0 then Splice(before, offset, data[..copied]) else before
    ensures |now| == |before|
    ensures Splice(now, offset + copied, data[copied..copied + chunk]) == Splice(before, offset, data[..copied + chunk])
  {
  }

  /** Overwriting part of one segment overwrites that part of the whole. */
  lemma SetSegment(segments: seq<seq<byte>>, i: nat, skip: nat, data: seq<byte>)
    requires i < |segments| && skip + |data| <= |segments[i]|
    ensures var segments' := segments[i := Splice(segments[i], skip, data)];
            && |Flat(segments[..i])| + skip + |data| <= |Flat(segments)|
            && Flat(segments') == Splice(Flat(segments), |Flat(segments[..i])| + skip, data)
            && Flat(segments'[..i]) == Flat(segments[..i])
            && |Flat(segments'[..i + 1])| == |Flat(segments[..i])| + |segments[i]|
  {
    var s' := Splice(segments[i], skip, data);
    var segments' := segments[i := s'];
    FlatSplit(segments, i);
    FlatSplit(segments', i);
    assert segments'[..i] == segments[..i] && segments'[i + 1..] == segments[i + 1..];
  }

  /** One more chunk copied into segment i. */
  lemma CopiedMore(before: seq<byte>, segments: seq<seq<byte>>, i: nat, skip: nat, offset: nat, data: seq<byte>,
                   copied: nat, chunk: nat)
    requires i < |segments| && skip + chunk <= |segments[i]| && copied + chunk <= |data| && |Flat(segments)| == |before|
    requires |Flat(segments[..i])| + skip == offset + copied
    requires offset + copied <= |before|
    requires Flat(segments) == if copied > 0 then Splice(before, offset, data[..copied]) else before
    ensures var segments' := segments[i := Splice(segments[i], skip, data[copied..copied + chunk])];
            && offset + copied + chunk <= |before| && |Flat(segments')| == |before|
            && Flat(segments') == Splice(before, offset, data[..copied + chunk])
            && |Flat(segments'[..i + 1])| == |Flat(segments[..i])| + |segments[i]|
  {
    hide Flat, Splice;
    SetSegment(segments, i, skip, data[copied..copied + chunk]);
    SpliceMore(before, Flat(segments), offset, data, copied, chunk);
  }

  // ----- Requests -----

  /** A request is none of the objects the engine's mapping store is made of. */
  lemma BioApart(e: Engine, bio: Bio)
    requires e.Valid()
    ensures bio !in e.store.Repr
  {
    hide Layout, Consistent, Stored, AllInStep, Store.Matches, Store.OnMedia, Undisturbed, Store.View;
    assert e.store.Owns();
  }

  lemma AddressInBlock(b: nat, j: nat)
    requires j < BLOCK_BYTES
    ensures (b * BLOCK_BYTES + j) / BLOCK_BYTES == b && (b * BLOCK_BYTES + j) % BLOCK_BYTES == j
  {
  }

  /** The bytes of a store at consecutive addresses. */
  predicate Reads(store: map<nat, Block>, start: nat, data: seq<byte>, n: nat)
    requires n <= |data|
  {
    forall k | 0 <= k < n :: data[k] == ByteAt(store, start + k)
  }

  /** The byte at address a once the first n bytes of data have overwritten those from address start on. */
  function Overwritten(store: map<nat, Block>, start: nat, data: seq<byte>, n: nat, a: nat): byte
    requires n <= |data|
  {
    if start <= a < start + n then data[a - start] else ByteAt(store, a)
  }

  /** The store in which exactly the n bytes from address start on were overwritten by the first n bytes of data. */
  ghost predicate Overwrites(store: map<nat, Block>, start: nat, data: seq<byte>, n: nat, store': map<nat, Block>)
    requires n <= |data|
  {
    forall a: nat :: ByteAt(store', a) == Overwritten(store, start, data, n, a)
  }

  /** One more fragment read: n bytes of block b from offset j on. */
  lemma ReadFragment(store: map<nat, Block>, start: nat, before: seq<byte>, done: nat, b: nat, j: nat, n: nat)
    requires done + n <= |before| && j + n <= BLOCK_BYTES && start + done == b * BLOCK_BYTES + j
    requires Reads(store, start, before, done)
    ensures Reads(store, start, Splice(before, done, BlockOf(store, b)[j..j + n]), done + n)
  {
    var after := Splice(before, done, BlockOf(store, b)[j..j + n]);
    forall k | 0 <= k < done + n ensures after[k] == ByteAt(store, start + k) {
      if done <= k {
        AddressInBlock(b, j + (k - done));
        assert start + k == b * BLOCK_BYTES + (j + (k - done));
      }
    }
  }

  /** One more fragment written: block b with n bytes from offset j on replaced. */
  lemma WriteFragment(store0: map<nat, Block>, start: nat, data: seq<byte>, done: nat, store: map<nat, Block>, b: nat,
                      j: nat, n: nat, block: Block)
    requires done + n <= |data| && j + n <= BLOCK_BYTES && start + done == b * BLOCK_BYTES + j
    requires Overwrites(store0, start, data, done, store)
    requires block == Splice(BlockOf(store, b), j, data[done..done + n])
    ensures Overwrites(store0, start, data, done + n, store[b := block])
  {
    var store' := store[b := block];
    forall a: nat
      ensures ByteAt(store', a) == Overwritten(store0, start, data, done + n, a)
    {
      WrittenAt(store0, start, data, done, store, b, j, n, block, a);
    }
  }

  lemma WrittenAt(store0: map<nat, Block>, start: nat, data: seq<byte>, done: nat, store: map<nat, Block>, b: nat,
                  j: nat, n: nat, block: Block, a: nat)
    requires done + n <= |data| && j + n <= BLOCK_BYTES && start + done == b * BLOCK_BYTES + j
    requires Overwrites(store0, start, data, done, store)
    requires block == Splice(BlockOf(store, b), j, data[done..done + n])
    ensures ByteAt(store[b := block], a) == Overwritten(store0, start, data, done + n, a)
  {
    hide Splice, BlockOf;
    var fragment := data[done..done + n];
    WrittenByte(store, b, j, fragment, block, a);
    assert ByteAt(store, a) == Overwritten(store0, start, data, done, a);
    if start + done <= a < start + (done + n) {
      assert fragment[a - (start + done)] == data[a - start];
    }
  }

  lemma WrittenByte(store: map<nat, Block>, b: nat, j: nat, fragment: seq<byte>, block: Block, a: nat)
    requires j + |fragment| <= BLOCK_BYTES && block == Splice(BlockOf(store, b), j, fragment)
    ensures var first := b * BLOCK_BYTES + j;
            ByteAt(store[b := block], a) == if first <= a < first + |fragment| then fragment[a - first]
              else ByteAt(store, a)
  {
    var first := b * BLOCK_BYTES + j;
    if first <= a < first + |fragment| {
      AddressInBlock(b, a - b * BLOCK_BYTES);
    } else if a / BLOCK_BYTES == b {
      assert a == b * BLOCK_BYTES + a % BLOCK_BYTES;
    }
  }

  /** One iteration of zns_lsm_read_partial: the part of one block that the request still lacks. */
  method ReadNext(e: Engine, bio: Bio, sector: nat, remaining: nat, done: nat) returns (r: Errno, bytes: nat)
    requires 0 < remaining && done + remaining * SECTOR_BYTES == |bio.Bytes()|
    requires sector * SECTOR_BYTES == bio.sector * SECTOR_BYTES + done
    requires Reads(e.acked, bio.sector * SECTOR_BYTES, bio.Bytes(), done)
    requires e.Valid()
    modifies e.store.Repr, e.host`faults, bio
    ensures fresh(e.store.Repr - old(e.store.Repr))
    ensures e.Valid() && |bio.Bytes()| == |old(bio.Bytes())| && e.host.faults >= old(e.host.faults)
    ensures r == Success ==>
              && 0 < bytes <= remaining * SECTOR_BYTES && bytes % SECTOR_BYTES == 0
              && Reads(e.acked, bio.sector * SECTOR_BYTES, bio.Bytes(), done + bytes)
    ensures r != Success ==> e.host.faults > old(e.host.faults)
  {
    hide Engine.Valid, Splice, Reads, BlockOf, Flat;
    BioApart(e, bio);
    var offset := sector % BLOCK_SECTORS;
    var sectors := if remaining < BLOCK_SECTORS - offset then remaining else BLOCK_SECTORS - offset;
    bytes := sectors * SECTOR_BYTES;
    var block := e.ReadBlock(sector / BLOCK_SECTORS);
    if block.Err? {
      return block.error, bytes;
    }
    ReadBlockIs(e.acked, sector / BLOCK_SECTORS);
    ReadFragment(e.acked, bio.sector * SECTOR_BYTES, bio.Bytes(), done, sector / BLOCK_SECTORS, offset * SECTOR_BYTES,
                 bytes);
    r := bio.CopyIn(done, block.value[offset * SECTOR_BYTES..offset * SECTOR_BYTES + bytes]);
  }

  /** zns_lsm_read_partial. */
  method ReadPartial(e: Engine, bio: Bio) returns (r: Errno)
    requires |bio.Bytes()| % SECTOR_BYTES == 0
    requires e.Valid()
    modifies e.store.Repr, e.host`faults, bio
    ensures fresh(e.store.Repr - old(e.store.Repr))
    ensures e.Valid() && |bio.Bytes()| == |old(bio.Bytes())| && e.host.faults >= old(e.host.faults)
    ensures r == Success ==> Reads(e.acked, bio.sector * SECTOR_BYTES, bio.Bytes(), |bio.Bytes()|)
    ensures r != Success ==> e.host.faults > old(e.host.faults)
  {
    hide Engine.Valid, Splice, Reads, BlockOf, Flat;
    BioApart(e, bio);
    var bufferOk := AllocateFor(e);
    if !bufferOk {
      return NoMem;
    }
    var size := bio.Size();
    var sector: nat, remaining: nat, done: nat := bio.sector, size / SECTOR_BYTES, 0;
    ghost var start := bio.sector * SECTOR_BYTES;
    assert Reads(e.acked, start, bio.Bytes(), 0) by { ReadsNothing(e.acked, start, bio.Bytes()); }
    while remaining > 0
      invariant e.Valid() && fresh(e.store.Repr - old(e.store.Repr)) && |bio.Bytes()| == |old(bio.Bytes())| == size
      invariant remaining * SECTOR_BYTES + done == size && sector * SECTOR_BYTES == start + done
      invariant e.host.faults >= old(e.host.faults)
      invariant Reads(e.acked, start, bio.Bytes(), done)
    {
      var bytes;
      r, bytes := ReadNext(e, bio, sector, remaining, done);
      if r != Success {
        return r;
      }
      sector, remaining, done := sector + bytes / SECTOR_BYTES, remaining - bytes / SECTOR_BYTES, done + bytes;
    }
    r := Success;
  }

  lemma ReadsNothing(store: map<nat, Block>, start: nat, data: seq<byte>)
    ensures Reads(store, start, data, 0)
  {
  }

  lemma ReadBlockIs(store: map<nat, Block>, b: nat)
    ensures BlockOf(store, b) == if b in store then store[b] else ZeroBlock()
  {
  }

  /** An allocation on behalf of a request. */
  method AllocateFor(e: Engine) returns (ok: bool)
    requires e.Valid()
    modifies e.host`faults
    ensures e.Valid() && e.Observe() == old(e.Observe()).(faults := e.host.faults)
    ensures e.host.faults == old(e.host.faults) + if ok then 0 else 1
  {
    hide Store.Valid, Store.View, Layout, AllInStep, Consistent, Stored, Uniform, OrdinaryFree;
    ok := e.host.Allocate();
  }

  /** What part of a write request can make of the engine: without failures it stops short only for lack of space. */
  ghost predicate NoneWasted(c: nat, s: Observation, s': Observation, r: Errno) {
    && s'.n == s.n > 0 && s'.faults >= s.faults
    && (!s.stopped && s'.faults == s.faults ==>
          && !s'.stopped && (r == Success || r == NoSpace)
          && (s.even ==> s'.even && (r == NoSpace ==> |s'.acked| >= Limit(s.n, c))))
  }

  lemma NoneWastedYet(c: nat, s: Observation, s': Observation, r: Errno)
    requires s.n > 0 && s' == s.(faults := s'.faults) && s'.faults >= s.faults
    requires r == Success || s.stopped || s'.faults > s.faults
    ensures NoneWasted(c, s, s', r)
  {
  }

  lemma NoneWastedMore(c: nat, s: Observation, s': Observation, s'': Observation, r: Errno)
    requires NoneWasted(c, s, s', Success) && NoneWasted(c, s', s'', r)
    ensures NoneWasted(c, s, s'', r)
  {
  }

  lemma StepNotWasted(policy: Policy, c: nat, s: Observation, s': Observation, r: Errno)
    requires WriteStep(policy, c, s, s', r) && (r != Success ==> s'.acked == s.acked)
    ensures NoneWasted(c, s, s', r)
  {
  }

  /** How many bytes the next block of a request takes: up to the end of the block or of the request. */
  function FragmentBytes(sector: nat, remaining: nat): (bytes: nat)
    requires 0 < remaining
    ensures 0 < bytes <= remaining * SECTOR_BYTES && bytes % SECTOR_BYTES == 0
    ensures bytes == remaining * SECTOR_BYTES || (sector * SECTOR_BYTES + bytes) % BLOCK_BYTES == 0
    ensures sector % BLOCK_SECTORS * SECTOR_BYTES + bytes <= BLOCK_BYTES
  {
    var offset := sector % BLOCK_SECTORS;
    (if remaining < BLOCK_SECTORS - offset then remaining else BLOCK_SECTORS - offset) * SECTOR_BYTES
  }

  lemma SectorAddress(sector: nat)
    ensures sector * SECTOR_BYTES == sector / BLOCK_SECTORS * BLOCK_BYTES + sector % BLOCK_SECTORS * SECTOR_BYTES
  {
  }

  /** The block that the next fragment of a write makes: read and modified; not read if the fragment fills it. */
  method NextBlock(e: Engine, bio: Bio, sector: nat, remaining: nat, done: nat, ghost store0: map<nat, Block>)
    returns (r: Result<Block>)
    requires 0 < remaining && done + remaining * SECTOR_BYTES == |bio.Bytes()| && sector < U64
    requires sector * SECTOR_BYTES == bio.sector * SECTOR_BYTES + done
    requires Overwrites(store0, bio.sector * SECTOR_BYTES, bio.Bytes(), done, e.acked)
    requires e.Valid()
    modifies e.store.Repr, e.host`faults
    ensures bio.Bytes() == old(bio.Bytes()) && fresh(e.store.Repr - old(e.store.Repr))
    ensures e.Observe() == old(e.Observe()).(faults := e.host.faults) && e.host.faults >= old(e.host.faults)
    ensures r.Err? ==> e.host.faults > old(e.host.faults) && r.error != Success
    ensures r.Ok? ==>
              Overwrites(store0, bio.sector * SECTOR_BYTES, bio.Bytes(), done + FragmentBytes(sector, remaining),
                         e.acked[sector / BLOCK_SECTORS := r.value])
    ensures e.Valid()
  {
    hide Engine.Valid, Splice, Overwrites, BlockOf, Flat, Engine.EvenZones, Engine.Free, Engine.DiskState;
    BioApart(e, bio);
    SectorAddress(sector);
    var offset, bytes, b := sector % BLOCK_SECTORS, FragmentBytes(sector, remaining), sector / BLOCK_SECTORS;
    var buffer := ZeroBlock();
    if offset != 0 || bytes != BLOCK_BYTES {
      r := e.ReadBlock(b);
      if r.Err? {
        return;
      }
      buffer := r.value;
    }
    ReadBlockIs(e.acked, b);
    var fragment := bio.CopyOut(done, bytes);
    if fragment.Err? {
      return Err(IoError);
    }
    FullSplice(buffer, BlockOf(e.acked, b), offset * SECTOR_BYTES, fragment.value);
    r := Ok(Splice(buffer, offset * SECTOR_BYTES, fragment.value));
    WriteFragment(store0, bio.sector * SECTOR_BYTES, bio.Bytes(), done, e.acked, b, offset * SECTOR_BYTES, bytes,
                  r.value);
  }

  /** One iteration of zns_lsm_write_partial: read, modify and append one block. */
  method WriteNext(e: Engine, bio: Bio, sector: nat, remaining: nat, done: nat, ghost store0: map<nat, Block>)
    returns (r: Errno, bytes: nat)
    requires 0 < remaining && done + remaining * SECTOR_BYTES == |bio.Bytes()| && sector < U64
    requires sector * SECTOR_BYTES == bio.sector * SECTOR_BYTES + done
    requires Overwrites(store0, bio.sector * SECTOR_BYTES, bio.Bytes(), done, e.acked)
    requires e.Valid()
    modifies e, e.index, e.host, e.alloc, e.store.Repr
    ensures bio.Bytes() == old(bio.Bytes())
    ensures fresh(e.store.Repr - old(e.store.Repr))
    ensures r == Success ==>
              && 0 < bytes <= remaining * SECTOR_BYTES && bytes % SECTOR_BYTES == 0
              && (bytes == remaining * SECTOR_BYTES || (bio.sector * SECTOR_BYTES + done + bytes) % BLOCK_BYTES == 0)
              && Overwrites(store0, bio.sector * SECTOR_BYTES, bio.Bytes(), done + bytes, e.acked)
    ensures r != Success ==> e.acked == old(e.acked)
    ensures forall b | b in e.acked :: b in old(e.acked) || b == sector / BLOCK_SECTORS
    ensures NoneWasted(e.perZone, old(e.Observe()), e.Observe(), r)
    ensures e.Valid()
  {
    hide Engine.Valid, Overwrites, Flat, NoneWasted, WriteStep, WriteOutcome, Stuck, Engine.EvenZones, Engine.Free,
         Engine.DiskState, FragmentBytes;
    BioApart(e, bio);
    SomeZones(e);
    bytes := FragmentBytes(sector, remaining);
    var block := NextBlock(e, bio, sector, remaining, done, store0);
    NoneWastedYet(e.perZone, old(e.Observe()), e.Observe(), if block.Ok? then Success else block.error);
    if block.Err? {
      return block.error, bytes;
    }
    ghost var s := e.Observe();
    BioApart(e, bio);
    r := e.AppendWrite(sector / BLOCK_SECTORS, block.value);
    StepNotWasted(e.policy, e.perZone, s, e.Observe(), r);
    NoneWastedMore(e.perZone, old(e.Observe()), s, e.Observe(), r);
  }

  /** zns_lsm_write_partial: on an error exactly the fragments completed so far (done bytes) have changed. */
  method WritePartial(e: Engine, bio: Bio) returns (r: Errno, ghost done: nat)
    requires 0 < |bio.Bytes()| && |bio.Bytes()| % SECTOR_BYTES == 0 && bio.sector + |bio.Bytes()| / SECTOR_BYTES <= U64
    requires e.Valid()
    modifies e, e.index, e.host, e.alloc, e.store.Repr
    ensures bio.Bytes() == old(bio.Bytes())
    ensures fresh(e.store.Repr - old(e.store.Repr))
    ensures e.Valid()
    ensures done <= |bio.Bytes()| && (r == Success <==> done == |bio.Bytes()|)
    ensures done == |bio.Bytes()| || done == 0 || (bio.sector * SECTOR_BYTES + done) % BLOCK_BYTES == 0
    ensures Overwrites(old(e.acked), bio.sector * SECTOR_BYTES, bio.Bytes(), done, e.acked)
    ensures old(e.writesStopped) ==> r == IoError && done == 0
    ensures forall b | b in e.acked ::
              b in old(e.acked) || b * BLOCK_SECTORS < bio.sector + |bio.Bytes()| / SECTOR_BYTES
    ensures NoneWasted(e.perZone, old(e.Observe()), e.Observe(), r)
  {
    hide Engine.Valid, Splice, Overwrites, BlockOf, Flat, NoneWasted, Engine.EvenZones, Engine.Free;
    BioApart(e, bio);
    SomeZones(e);
    done := 0;
    ghost var start := bio.sector * SECTOR_BYTES;
    OverwritesNothing(e.acked, start, bio.Bytes());
    NoneWastedYet(e.perZone, e.Observe(), e.Observe(), if e.writesStopped then IoError else Success);
    if e.writesStopped {
      return IoError, 0;
    }
    var bufferOk := AllocateFor(e);
    NoneWastedYet(e.perZone, old(e.Observe()), e.Observe(), if bufferOk then Success else NoMem);
    if !bufferOk {
      return NoMem, 0;
    }
    var size := bio.Size();
    var sector: nat, remaining: nat, bioOffset: nat := bio.sector, size / SECTOR_BYTES, 0;
    while remaining > 0
      invariant e.Valid() && fresh(e.store.Repr - old(e.store.Repr)) && done == bioOffset
      invariant forall b | b in e.acked :: b in old(e.acked) || b * BLOCK_SECTORS < bio.sector + size / SECTOR_BYTES
      invariant NoneWasted(e.perZone, old(e.Observe()), e.Observe(), Success)
      invariant remaining * SECTOR_BYTES + done == size && sector * SECTOR_BYTES == start + done
      invariant done == 0 || remaining == 0 || (start + done) % BLOCK_BYTES == 0
      invariant Overwrites(old(e.acked), start, bio.Bytes(), done, e.acked)
    {
      var bytes;
      ghost var s := e.Observe();
      r, bytes := WriteNext(e, bio, sector, remaining, bioOffset, old(e.acked));
      NoneWastedMore(e.perZone, old(e.Observe()), s, e.Observe(), r);
      if r != Success {
        return r, done;
      }
      sector, remaining, bioOffset := sector + bytes / SECTOR_BYTES, remaining - bytes / SECTOR_BYTES,
        bioOffset + bytes;
      done := bioOffset;
    }
    r := Success;
  }

  lemma OverwritesNothing(store: map<nat, Block>, start: nat, data: seq<byte>)
    ensures Overwrites(store, start, data, 0, store)
  {
  }

  /** A fragment that fills the block makes its previous contents irrelevant. */
  lemma FullSplice(a: Block, b: Block, offset: nat, data: seq<byte>)
    requires offset + |data| <= BLOCK_BYTES
    requires a == b || (offset == 0 && |data| == BLOCK_BYTES)
    ensures Splice(a, offset, data) == Splice(b, offset, data)
  {
  }

  // ----- Dispatch -----

  /** The size and range checks of zns_engine_map, in bytes: a non-empty whole number of sectors that ends at the end of
      the device or before. */
  lemma InsideDevice(sector: nat, size: nat, logicalSectors: nat)
    ensures 0 < size && size % SECTOR_BYTES == 0 && sector < logicalSectors
            && size / SECTOR_BYTES <= logicalSectors - sector <==>
            0 < size && size % 512 == 0 && sector * 512 + size <= logicalSectors * 512
  {
  }

  /** zns_lsm_is_aligned_io. */
  predicate IsAligned(sector: nat, sectors: nat) {
    sectors == BLOCK_SECTORS && sector % BLOCK_SECTORS == 0
  }

  lemma AlignedAddress(sector: nat)
    requires sector % BLOCK_SECTORS == 0
    ensures sector * SECTOR_BYTES == (sector / BLOCK_SECTORS) * BLOCK_BYTES
  {
  }

  lemma SpliceAll(s: seq<byte>, data: seq<byte>)
    requires |s| == |data|
    ensures Splice(s, 0, data) == data
  {
  }

  /** A read bio from zns_engine_map to its completion: a non-empty read of whole sectors that ends inside the device
      succeeds unless something failed, any other is refused; on success every byte of the bio, however segmented, is
      the current byte at its address. */
  method HandleRead(e: Engine, bio: Bio, logicalSectors: u64) returns (r: Errno)
    requires e.Valid()
    modifies e.store.Repr, e.host`faults, bio
    ensures fresh(e.store.Repr - old(e.store.Repr))
    ensures e.Valid() && |bio.Bytes()| == |old(bio.Bytes())| && e.host.faults >= old(e.host.faults)
    ensures var n := |bio.Bytes()|; var inside := 0 < n && n % 512 == 0 && bio.sector * 512 + n <= logicalSectors * 512;
            && (r == Success ==> inside && Reads(e.acked, bio.sector * 512, bio.Bytes(), n))
            && (inside && e.host.faults == old(e.host.faults) ==> r == Success) && (!inside ==> r == IoError)
  {
    hide Engine.Valid, Splice, Reads, BlockOf, Flat;
    BioApart(e, bio);
    var size := bio.Size();
    InsideDevice(bio.sector, size, logicalSectors);
    if size == 0 || size % SECTOR_BYTES != 0 || bio.sector >= logicalSectors
       || size / SECTOR_BYTES > logicalSectors - bio.sector {
      return IoError;
    }
    var queued := AllocateFor(e);
    if !queued {
      return IoError;
    }
    if !IsAligned(bio.sector, size / SECTOR_BYTES) {
      r := ReadPartial(e, bio);
      return;
    }
    var cloned := AllocateFor(e);
    if !cloned {
      return NoMem;
    }
    var block := e.ReadBlock(bio.sector / BLOCK_SECTORS);
    if block.Err? {
      return block.error;
    }
    AlignedAddress(bio.sector);
    ReadBlockIs(e.acked, bio.sector / BLOCK_SECTORS);
    ReadsNothing(e.acked, bio.sector * SECTOR_BYTES, bio.Bytes());
    ReadFragment(e.acked, bio.sector * SECTOR_BYTES, bio.Bytes(), 0, bio.sector / BLOCK_SECTORS, 0, BLOCK_BYTES);
    assert block.value[0..0 + BLOCK_BYTES] == block.value;
    r := bio.CopyIn(0, block.value);
  }

  /** A write bio from zns_engine_map to its completion: exactly the first done bytes of the range are overwritten,
      all of them on success; a request that stops early has completed whole blocks only. A write of whole sectors that
      ends inside the device stops early without failures only for want of space, on even zones only when the device is
      full of live blocks; any other is refused. */
  method HandleWrite(e: Engine, bio: Bio, logicalSectors: u64) returns (r: Errno, ghost done: nat)
    requires e.Valid()
    modifies e, e.index, e.host, e.alloc, e.store.Repr
    ensures bio.Bytes() == old(bio.Bytes())
    ensures fresh(e.store.Repr - old(e.store.Repr))
    ensures e.Valid() && done <= |bio.Bytes()|
    ensures Overwrites(old(e.acked), bio.sector * SECTOR_BYTES, bio.Bytes(), done, e.acked)
    ensures r == Success <==> 0 < done == |bio.Bytes()|
    ensures done == |bio.Bytes()| || done == 0 || (bio.sector * SECTOR_BYTES + done) % BLOCK_BYTES == 0
    ensures forall b | b in e.acked :: b in old(e.acked) || b * BLOCK_SECTORS < logicalSectors
    ensures var n := |bio.Bytes()|; var inside := 0 < n && n % 512 == 0 && bio.sector * 512 + n <= logicalSectors * 512;
            && (!inside ==> r == IoError && done == 0) && (old(e.writesStopped) ==> r != Success && done == 0)
            && (inside && !old(e.writesStopped) && e.host.faults == old(e.host.faults) ==>
                  && !e.writesStopped && (r == Success || r == NoSpace)
                  && (old(e.EvenZones()) ==>
                        e.EvenZones() && (r == NoSpace ==> |e.acked| >= Limit(|e.alloc.zones|, e.perZone))))
  {
    hide Engine.Valid, Splice, Overwrites, BlockOf, Flat, Limit, Charged, WriteOutcome, Stuck, Engine.EvenZones,
         Engine.Free, Engine.DiskState;
    BioApart(e, bio);
    SomeZones(e);
    done := 0;
    OverwritesNothing(e.acked, bio.sector * SECTOR_BYTES, bio.Bytes());
    var size := bio.Size();
    InsideDevice(bio.sector, size, logicalSectors);
    if size == 0 || size % SECTOR_BYTES != 0 || bio.sector >= logicalSectors
       || size / SECTOR_BYTES > logicalSectors - bio.sector {
      return IoError, 0;
    }
    var queued := AllocateFor(e);
    if !queued {
      return IoError, 0;
    }
    if !IsAligned(bio.sector, size / SECTOR_BYTES) {
      r, done := WritePartial(e, bio);
      return;
    }
    var cloned := AllocateFor(e);
    if !cloned {
      return NoMem, 0;
    }
    var data := bio.CopyOut(0, BLOCK_BYTES);
    var block := if data.Ok? then data.value else ZeroBlock();
    AlignedAddress(bio.sector);
    SpliceAll(BlockOf(e.acked, bio.sector / BLOCK_SECTORS), block);
    WriteFragment(e.acked, bio.sector * SECTOR_BYTES, bio.Bytes(), 0, e.acked, bio.sector / BLOCK_SECTORS, 0,
                  BLOCK_BYTES, block);
    r := e.AppendWrite(bio.sector / BLOCK_SECTORS, block);
    done := if r == Success then BLOCK_BYTES else 0;
  }
}
