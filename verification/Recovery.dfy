/** The metadata log as a list of stored tables: searching it, and walking it after a restart. */
module Recovery {
  import opened Prelude
  import opened SstLayout
  import opened MetaZones
  import opened MemTables
  import opened SsTables
  import P = FlushProtocol

  /** A stored table: its index in memory and the entries its payload holds. */
  datatype DiskTable = DiskTable(sst: Sstable, es: seq<Entry>)

  /** The protocol's value for a stored table. */
  function Abstract(t: DiskTable): P.Sst {
    P.Sst(t.sst.start, Sectors(|t.es|), t.sst.header.seqNo, MapOf(t.es), MapOf(t.es))
  }

  function Abstracts(tables: seq<DiskTable>): (ssts: seq<P.Sst>)
    ensures |ssts| == |tables|
  {
    seq(|tables|, i requires 0 <= i < |tables| => Abstract(tables[i]))
  }

  function Indexes(tables: seq<DiskTable>): (ssts: seq<Sstable>)
    ensures |ssts| == |tables|
  {
    seq(|tables|, i requires 0 <= i < |tables| => tables[i].sst)
  }

  /** Every listed table is on the media. */
  ghost predicate AllDescribed(content: Media, step: Checksum, tables: seq<DiskTable>) {
    forall i | 0 <= i < |tables| :: Describes(content, step, tables[i].sst, tables[i].es)
  }

  /** The list in memory is that of the given tables. A table that was written since attach carries no checksum
      there. */
  ghost predicate Listed(step: Checksum, ssts: seq<Sstable>, tables: seq<DiskTable>) {
    |ssts| == |tables| && forall i | 0 <= i < |ssts| :: Sealed(step, ssts[i], tables[i].es) == tables[i].sst
  }

  // ----- Searching the list -----

  lemma SearchNext(tables: seq<DiskTable>, k: nat, b: nat)
    requires k < |tables|
    ensures P.SstLookup(Abstracts(tables)[k..], b) ==
            if b in MapOf(tables[k].es) then Some(MapOf(tables[k].es)[b])
               else P.SstLookup(Abstracts(tables)[k + 1..], b)
  {
    assert Abstracts(tables)[k..][1..] == Abstracts(tables)[k + 1..];
  }

  function ToResult(o: Option<nat>): Result<nat> {
    match o case Some(p) => Ok(p) case None => Err(NoData)
  }

  /** zns_lsm_lookup_sstables: newest table first; anything but NoData ends the search. */
  method LookupSstables(meta: MetaZone, ssts: seq<Sstable>, b: nat, ghost step: Checksum, ghost tables: seq<DiskTable>)
    returns (r: Result<nat>)
    requires AllDescribed(meta.content, step, tables) && Listed(step, ssts, tables)
    modifies meta`faults
    ensures meta.faults >= old(meta.faults)
    ensures r == ToResult(P.SstLookup(Abstracts(tables), b)) ||
            ((r == Err(NoMem) || r == Err(IoError)) && meta.faults > old(meta.faults))
  {
    hide Describes, MapOf, P.SstLookup, Abstracts, Crc, Payload;
    r := Err(NoData);
    assert Abstracts(tables)[0..] == Abstracts(tables);
    for k := 0 to |ssts|
      invariant r == Err(NoData) && meta.faults >= old(meta.faults)
      invariant P.SstLookup(Abstracts(tables), b) == P.SstLookup(Abstracts(tables)[k..], b)
    {
      SearchNext(tables, k, b);
      DescribedFits(meta.content, step, tables[k]);
      r := SstLookup(meta, ssts[k], b, step, tables[k].es);
      if r != Err(NoData) {
        return;
      }
    }
    NothingLeft(Abstracts(tables), b);
    assert Abstracts(tables)[|tables|..] == Abstracts(tables)[|Abstracts(tables)|..];
  }

  lemma NothingLeft(ssts: seq<P.Sst>, b: nat)
    ensures P.SstLookup(ssts[|ssts|..], b) == None
  {
  }

  lemma DescribedFits(content: Media, step: Checksum, t: DiskTable)
    requires Describes(content, step, t.sst, t.es)
    ensures t.sst.header.nrEntries == |t.es| < U32 && t.sst.header.nrBlocks == NrBlocks(|t.es|) < U32
  {
  }

  // ----- Walking the log -----

  /** The walk of zns_lsm_recover_sstables from a cursor on: the tables it lists, newest first, and where it ends. */
  function Walk(content: Media, cursor: nat, limit: nat, found: seq<Sstable>): (r: (seq<Sstable>, nat))
    ensures cursor <= r.1
    decreases if cursor < limit then limit - cursor else 0
  {
    if cursor >= limit then (found, cursor)
    else
      match LoadAt(content, cursor, limit)
      case Err(_) => (found, cursor)
      case Ok(sst) => Walk(content, cursor + sst.header.nrBlocks * BLOCK_SECTORS, limit, [sst] + found)
  }

  function Extent(sst: Sstable): nat { sst.header.nrBlocks * BLOCK_SECTORS }

  /** Tables, newest first, that lie one behind the other from sector first to sector end. */
  predicate Chain(ssts: seq<Sstable>, first: nat, end: nat) {
    if ssts == [] then first == end
    else HeaderValid(ssts[0].header) && ssts[0].start + Extent(ssts[0]) == end && Chain(ssts[1..], first, ssts[0].start)
  }

  lemma {:induction false} ChainInside(ssts: seq<Sstable>, first: nat, end: nat)
    requires Chain(ssts, first, end)
    ensures first <= end
    ensures forall i | 0 <= i < |ssts| ::
              first <= ssts[i].start && ssts[i].start + Extent(ssts[i]) <= end && Extent(ssts[i]) >= 2 * BLOCK_SECTORS
  {
    if ssts != [] {
      ChainInside(ssts[1..], first, ssts[0].start);
      forall i | 0 < i < |ssts|
        ensures first <= ssts[i].start && ssts[i].start + Extent(ssts[i]) <= end && Extent(ssts[i]) >= 2 * BLOCK_SECTORS
      {
        assert ssts[i] == ssts[1..][i - 1];
      }
    }
  }

  /** Chained tables do not overlap. */
  lemma {:induction false} ChainDisjoint(ssts: seq<Sstable>, first: nat, end: nat, i: nat, j: nat)
    requires Chain(ssts, first, end) && i < j < |ssts|
    ensures ssts[j].start + Extent(ssts[j]) <= ssts[i].start
  {
    ChainInside(ssts[1..], first, ssts[0].start);
    if i == 0 {
      assert ssts[j] == ssts[1..][j - 1];
    } else {
      ChainDisjoint(ssts[1..], first, ssts[0].start, i - 1, j - 1);
    }
  }

  /** On any content whatever, the walk ends inside the log and lists chained tables only. */
  lemma {:induction false} WalkSound(content: Media, first: nat, cursor: nat, limit: nat, found: seq<Sstable>)
    requires Chain(found, first, cursor) && cursor <= limit
    ensures var (ssts, end) := Walk(content, cursor, limit, found);
            Chain(ssts, first, end) && end <= limit && (end == limit || LoadAt(content, end, limit).Err?)
    decreases limit - cursor
  {
    hide LoadAt;
    if cursor < limit && LoadAt(content, cursor, limit).Ok? {
      var sst := LoadAt(content, cursor, limit).value;
      LoadedFits(content, cursor, limit);
      assert ([sst] + found)[1..] == found;
      WalkSound(content, first, cursor + Extent(sst), limit, [sst] + found);
    }
  }

  lemma LoadedFits(content: Media, cursor: nat, limit: nat)
    requires LoadAt(content, cursor, limit).Ok?
    ensures var sst := LoadAt(content, cursor, limit).value;
            && sst.start == cursor && HeaderValid(sst.header) && HeaderFits(sst.header)
            && Extent(sst) >= 2 * BLOCK_SECTORS && cursor + Extent(sst) <= limit
  {
    hide HeaderFields;
    DecodedIsEncoded(BlockAt(content, cursor));
  }

  /** The tables of a log are chained, and every one is on the media. */
  ghost predicate LogHolds(content: Media, step: Checksum, tables: seq<DiskTable>, first: nat, end: nat) {
    AllDescribed(content, step, tables) && Chain(Indexes(tables), first, end)
  }

  lemma {:induction false} ChainOldest(ssts: seq<Sstable>, first: nat, end: nat)
    requires ssts != [] && Chain(ssts, first, end)
    ensures var n := |ssts| - 1; ssts[n].start == first && Chain(ssts[..n], first + Extent(ssts[n]), end)
  {
    if |ssts| == 1 {
      assert ssts[1..] == [];
      assert Chain(ssts[..0], end, end);
    } else {
      ChainOldest(ssts[1..], first, ssts[0].start);
      assert ssts[1..][..|ssts| - 2] == ssts[..|ssts| - 1][1..];
    }
  }

  /** The walk as far as a log goes, whatever the limit. */
  lemma {:induction false} WalkPrefix(content: Media, step: Checksum, tables: seq<DiskTable>, first: nat, end: nat,
                                      limit: nat, found: seq<Sstable>)
    requires LogHolds(content, step, tables, first, end) && end <= limit
    ensures Walk(content, first, limit, found) == Walk(content, end, limit, Indexes(tables) + found)
    decreases |tables|
  {
    hide LoadAt, Describes;
    ChainInside(Indexes(tables), first, end);
    if tables == [] {
      assert Indexes(tables) + found == found;
    } else {
      var n := |tables| - 1;
      var oldest := tables[n];
      ChainOldest(Indexes(tables), first, end);
      assert Indexes(tables)[n] == oldest.sst;
      LoadDescribed(content, step, oldest, limit);
      assert Indexes(tables)[..n] == Indexes(tables[..n]);
      WalkPrefix(content, step, tables[..n], first + Extent(oldest.sst), end, limit, [oldest.sst] + found);
      assert Indexes(tables[..n]) + ([oldest.sst] + found) == Indexes(tables) + found;
    }
  }

  /** The walk inverts the flushes: on a log of complete tables it lists exactly those, and what follows the last one
      is dropped from the first sector that does not begin a complete table. */
  lemma WalkInverts(content: Media, step: Checksum, tables: seq<DiskTable>, first: nat, end: nat, limit: nat,
                    found: seq<Sstable>)
    requires LogHolds(content, step, tables, first, end) && end <= limit
    requires end < limit ==> LoadAt(content, end, limit).Err?
    ensures Walk(content, first, limit, found) == (Indexes(tables) + found, end)
  {
    hide LoadAt, Describes;
    WalkPrefix(content, step, tables, first, end, limit, found);
  }

  lemma LoadDescribed(content: Media, step: Checksum, t: DiskTable, limit: nat)
    requires Describes(content, step, t.sst, t.es) && t.sst.start + Extent(t.sst) <= limit
    ensures LoadAt(content, t.sst.start, limit) == Ok(t.sst) && Extent(t.sst) > 0 && t.sst.start < limit
  {
    hide LoadAt, EncodeHeader, Crc, Payload, BlockAt;
    assert Image(step, t.es, t.sst.header.seqNo)[0] == EncodeHeader(t.sst.header);
    LoadWritten(content, step, t.es, t.sst.start, t.sst.header.seqNo, limit);
  }

  /** A number above every sequence number listed. */
  predicate Above(ssts: seq<Sstable>, q: nat) {
    forall i | 0 <= i < |ssts| :: ssts[i].header.seqNo < q
  }

  /** Numbering resumes at 1 or right behind a listed number. */
  predicate Resumes(ssts: seq<Sstable>, q: nat) {
    q == 1 || exists i | 0 <= i < |ssts| :: q == ssts[i].header.seqNo + 1
  }

  lemma NothingListed()
    ensures Above([], 1) && Resumes([], 1)
  {
  }

  /** The next number once one more table is listed. */
  lemma NextNumber(sst: Sstable, ssts: seq<Sstable>, all: seq<Sstable>, q: nat)
    requires all == [sst] + ssts && Above(ssts, q) && Resumes(ssts, q)
    ensures var next := if sst.header.seqNo >= q then sst.header.seqNo + 1 else q;
            Above(all, next) && Resumes(all, next)
  {
    assert all[0] == sst && forall i | 0 <= i < |ssts| :: all[i + 1] == ssts[i];
    if sst.header.seqNo >= q {
      assert sst.header.seqNo + 1 == all[0].header.seqNo + 1;
    }
  }

  /** zns_lsm_recover_sstables: the walk, where it ended, and the number that follows the highest listed. */
  method RecoverSstables(meta: MetaZone, metaStart: nat, metaWp: nat)
    returns (r: Errno, ssts: seq<Sstable>, nextSeq: nat, end: nat)
    modifies meta`faults
    ensures meta.faults >= old(meta.faults)
    ensures r == Success ==>
              && (ssts, end) == Walk(meta.content, metaStart + BLOCK_SECTORS, metaWp, [])
              && nextSeq >= 1 && Above(ssts, nextSeq) && Resumes(ssts, nextSeq)
              && forall i | 0 <= i < |ssts| :: HeaderFits(ssts[i].header) && HeaderValid(ssts[i].header)
    ensures r != Success ==> meta.faults > old(meta.faults)
  {
    hide LoadAt, HeaderFits, HeaderValid, Above, Resumes;
    assert Above([], 1) && Resumes([], 1) by { NothingListed(); }
    ssts, nextSeq := [], 1;
    end := metaStart + BLOCK_SECTORS;
    while end < metaWp
      invariant meta.faults >= old(meta.faults) && nextSeq >= 1 && Above(ssts, nextSeq)
      invariant Resumes(ssts, nextSeq)
      invariant forall i | 0 <= i < |ssts| :: HeaderFits(ssts[i].header) && HeaderValid(ssts[i].header)
      invariant Walk(meta.content, end, metaWp, ssts) == Walk(meta.content, metaStart + BLOCK_SECTORS, metaWp, [])
      decreases if end < metaWp then metaWp - end else 0
    {
      var loaded := SstLoad(meta, end, metaWp);
      if loaded == Err(Invalid) {
        break;
      }
      if loaded.Err? {
        return loaded.error, ssts, nextSeq, end;
      }
      LoadedFits(meta.content, end, metaWp);
      var sst := loaded.value;
      NextNumber(sst, ssts, [sst] + ssts, nextSeq);
      ssts := [sst] + ssts;
      if sst.header.seqNo >= nextSeq {
        nextSeq := sst.header.seqNo + 1;
      }
      end := end + sst.header.nrBlocks * BLOCK_SECTORS;
    }
    r := Success;
  }

  // ----- Behind a dropped tail -----

  /** A tail without a header hides everything behind it for good: however far the log has grown since, the walk lists
      the tables before the tail and no other. */
  lemma LostBehindTail(content: Media, step: Checksum, tables: seq<DiskTable>, first: nat, end: nat, wp: nat)
    requires LogHolds(content, step, tables, first, end) && end < wp && DecodeHeader(BlockAt(content, end)).Err?
    ensures Walk(content, first, wp, []) == (Indexes(tables), end)
  {
    hide DecodeHeader, Describes, BlockAt;
    WalkPrefix(content, step, tables, first, end, wp, []);
    assert Indexes(tables) + [] == Indexes(tables);
  }

  lemma TailLoads(content: Media, end: nat, wp: nat)
    requires end < wp && DecodeHeader(BlockAt(content, end)).Ok?
    ensures var sst := Sstable(end, DecodeHeader(BlockAt(content, end)).value);
            LoadAt(content, end, wp) == if end + Extent(sst) <= wp then Ok(sst) else Err(Invalid)
  {
    hide DecodeHeader, BlockAt;
  }

  /** A tail with a valid header is dropped only until the log has grown as far as the header says; from then on the
      walk lists it as a table. */
  lemma TailListed(content: Media, step: Checksum, tables: seq<DiskTable>, first: nat, end: nat, wp: nat)
    requires LogHolds(content, step, tables, first, end) && end < wp && DecodeHeader(BlockAt(content, end)).Ok?
    ensures var sst := Sstable(end, DecodeHeader(BlockAt(content, end)).value);
            if end + Extent(sst) <= wp then sst in Walk(content, first, wp, []).0
            else Walk(content, first, wp, []) == (Indexes(tables), end)
  {
    hide Describes, BlockAt, DecodeHeader, LoadAt, LogHolds, Extent;
    WalkPrefix(content, step, tables, first, end, wp, []);
    assert Indexes(tables) + [] == Indexes(tables);
    TailLoads(content, end, wp);
    var sst := Sstable(end, DecodeHeader(BlockAt(content, end)).value);
    if end + Extent(sst) <= wp {
      WalkMore(content, end, wp, Indexes(tables));
      WalkKeeps(content, end + Extent(sst), wp, [sst] + Indexes(tables), sst);
    }
  }

  lemma WalkMore(content: Media, cursor: nat, limit: nat, found: seq<Sstable>)
    requires cursor < limit && LoadAt(content, cursor, limit).Ok?
    ensures var sst := LoadAt(content, cursor, limit).value;
            Walk(content, cursor, limit, found) == Walk(content, cursor + Extent(sst), limit, [sst] + found)
  {
    hide LoadAt;
  }

  lemma {:induction false} WalkKeeps(content: Media, cursor: nat, limit: nat, found: seq<Sstable>, sst: Sstable)
    requires sst in found
    ensures sst in Walk(content, cursor, limit, found).0
    decreases if cursor < limit then limit - cursor else 0
  {
    hide LoadAt;
    if cursor < limit && LoadAt(content, cursor, limit).Ok? {
      var next := LoadAt(content, cursor, limit).value;
      LoadedFits(content, cursor, limit);
      WalkKeeps(content, cursor + Extent(next), limit, [next] + found, sst);
    }
  }
}
