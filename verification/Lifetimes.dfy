/** Whole lifetimes of a device: any number of sessions, each an engine that serves requests and is then shut down, with
    an attach in between. What was acknowledged in one session is what reads return in every later one. */
module Lifetimes {
  import opened Prelude
  import opened Zones
  import opened MetaZones
  import opened SsTables
  import opened GcPolicies
  import opened Hosts
  import opened GcIndexes
  import opened EngineState
  import opened Space
  import opened Stores
  import opened Engines
  import opened Runs
  import opened SuperBlocks
  import opened Rebuild
  import opened Attach
  import opened Sums
  import P = FlushProtocol

  predicate BlocksBelow(requests: seq<Request>, n: nat) {
    forall i | 0 <= i < |requests| :: requests[i].block < n
  }

  predicate StoreBelow(m: map<nat, Block>, n: nat) {
    forall b | b in m :: b < n
  }

  lemma {:induction false} AfterBelow(m: map<nat, Block>, requests: seq<Request>, replies: seq<Reply>, k: nat, n: nat)
    requires k <= |requests| && k <= |replies| && StoreBelow(m, n) && BlocksBelow(requests, n)
    ensures StoreBelow(After(m, requests, replies, k), n)
  {
    if k > 0 {
      AfterBelow(m, requests, replies, k - 1, n);
      assert requests[k - 1].block < n;
    }
  }

  lemma KeysAlike(e: Engine, n: nat)
    requires e.Valid()
    ensures KeysBelow(e.index.latest, n) <==> StoreBelow(e.acked, n)
    ensures StoreBelow(e.acked, n) ==> |e.acked| <= n
  {
    hide Engine.Valid, Layout, Consistent;
    SameBlocks(e);
    if StoreBelow(e.acked, n) {
      KeysCount(e.acked.Keys, n);
      assert |e.acked| == |e.acked.Keys|;
    }
  }

  /** Whether every reply of a session is one that a block store starting as m owes. */
  ghost predicate Answers(m: map<nat, Block>, requests: seq<Request>, replies: seq<Reply>) {
    |replies| == |requests| && forall i | 0 <= i < |requests| :: Correct(m, requests, replies, i)
  }

  /** The same when nothing failed. */
  ghost predicate ExactAnswers(m: map<nat, Block>, requests: seq<Request>, replies: seq<Reply>, limit: nat) {
    |replies| == |requests| && forall i | 0 <= i < |requests| :: Exact(m, requests, replies, i, limit)
  }

  /** What a device needs in order to be attached again. */
  ghost predicate Reusable(e: Engine, crc: SuperChecksum, logicalBlocks: u64, uuid: nat)
    reads e.host
  {
    && e.store.meta.start <= e.store.meta.end
    && SuperFits(Device(uuid, logicalBlocks, e.store.meta.length, |e.host.zones|))
    && FormatOk(crc, e.store.super, Device(uuid, logicalBlocks, e.store.meta.length, |e.host.zones|))
  }

  /** The metadata sector up to which the log can have grown. */
  ghost function LogBound(e: Engine): nat
    reads e, e.store
  {
    Grown(e.store.reach0, e.store.puts)
  }

  /** A bound on the log after some more insertions, at two metadata blocks each. */
  function Grown(bound: nat, insertions: nat): nat { bound + 2 * BLOCK_SECTORS * insertions }

  lemma GrownMore(bound: nat, some: nat, more: nat)
    ensures Grown(Grown(bound, some), more) == Grown(bound, some + more) >= Grown(bound, some)
  {
  }

  lemma GrownTwice(bound: nat, some: nat, more: nat, reached: nat)
    requires reached <= Grown(bound, some)
    ensures Grown(bound, some) <= Grown(bound, some + more) && Grown(reached, more) <= Grown(bound, some + more)
  {
  }

  lemma NothingGrown(bound: nat)
    ensures Grown(bound, 0) == bound
  {
  }

  /** How a session closes: blocks that collection moved in it, failures so far, where the log is going to end. */
  datatype Closing = Closing(moved: nat, faults: nat, reach: nat)

  /** What the closing session makes the log grow to. */
  lemma ClosingReach(e: Engine)
    requires e.Valid()
    ensures e.store.Quiet() ==> P.Reach(e.store.sys) <= LogBound(e)
    ensures |e.acked| < e.store.threshold ==> P.Reach(e.store.sys) <= e.store.reach0 + P.SizeOf(|e.acked|)
  {
    hide Store.Valid, Layout, AllInStep, Consistent, P.Reach, P.SizeOf, P.View;
    StoredKeys(e.index.latest, e.host.content, e.acked);
    e.store.Bounds();
    assert |e.acked| == |e.acked.Keys| == |e.index.latest.Keys| == |e.index.latest|;
  }

  /** One session: serve the requests, shut down, attach again. If nothing has gone wrong with the log, and apart from
      that without failures in closing, there is a next session exactly if the log fits the metadata zone and the device
      can still be attached, which is certain if nothing failed at all. The log grows by at most two blocks for every
      block written or moved; and while fewer blocks are mapped than a MemTable may hold, by at most one table of all of
      them, however many were written. */
  method Session(e: Engine, requests: seq<Request>, crc: SuperChecksum, threshold: nat, logicalBlocks: u64, uuid: nat)
    returns (replies: seq<Reply>, e2: Engine?, ghost closing: Closing)
    requires Reusable(e, crc, logicalBlocks, uuid) && BlocksBelow(requests, logicalBlocks)
    requires StoreBelow(e.acked, logicalBlocks)
    requires e.Valid()
    modifies e, e.index, e.host, e.alloc, e.store.Repr
    ensures e.store.meta.faults >= e.store.faults0 && e.host.faults >= closing.faults >= old(e.host.faults)
    ensures Answers(old(e.acked), requests, replies) && e.acked == After(old(e.acked), requests, replies, |requests|)
    ensures !old(e.writesStopped) && old(e.EvenZones()) && |old(e.alloc.zones)| > 0
            && closing.faults == old(e.host.faults) ==>
              ExactAnswers(old(e.acked), requests, replies, Limit(|old(e.alloc.zones)|, e.perZone))
    ensures e.store.Quiet() ==>
              closing.reach <= Grown(old(LogBound(e)), closing.moved + Acknowledgements(replies, |replies|))
    ensures |e.acked| <= logicalBlocks
    ensures |e.acked| < e.store.threshold ==> closing.reach <= e.store.reach0 + P.SizeOf(|e.acked|)
    ensures e2 != null ==>
              && fresh(e2) && fresh(e2.index) && fresh(e2.alloc) && fresh(e2.store)
              && fresh(e2.store.Repr - {e.store.meta})
              && Started(e2, e.store.meta, e.store.step, crc, e.host, e.policy, threshold, logicalBlocks, uuid,
                         e.perZone)
              && e2.acked == e.acked && StoreBelow(e2.acked, logicalBlocks)
              && LogBound(e2) == e2.store.reach0 == closing.reach && |e2.alloc.zones| == |old(e.alloc.zones)|
              && (!old(e.writesStopped) && old(e.EvenZones()) && closing.faults == old(e.host.faults) ==>
                    e2.EvenZones())
    ensures !old(e.writesStopped) && closing.faults == old(e.host.faults) ==>
              ReportOk(e.host.zones) && Attachable(e.host.zones, logicalBlocks, e.index.latest)
    ensures e.store.Quiet() && e.host.faults == closing.faults ==>
              (e2 != null <==>
                 && 0 < threshold && closing.reach <= e.store.meta.end
                 && ReportOk(e.host.zones) && Attachable(e.host.zones, logicalBlocks, e.index.latest))
  {
    hide Engine.Valid, Engine.EvenZones, Engine.Free, After, Correct, Exact, Acknowledgements, FormatOk, SuperFits,
         KeysBelow, StoreBelow, Store.Valid, Store.View, Limit, HighestEmpty, Started, ReportOk, Attachable, P.Reach,
         P.SizeOf, Grown, Unfailing, Layout, Consistent;
    SameBlocks(e);
    replies := Serve(e, requests, 0);
    AfterBelow(old(e.acked), requests, replies, |requests|, logicalBlocks);
    KeysAlike(e, logicalBlocks);
    SameBlocks(e);
    ClosingReach(e);
    closing := Closing(e.gcMoved - old(e.gcMoved), e.host.faults, P.Reach(e.store.sys));
    GrownMore(e.store.reach0, old(e.store.puts), closing.moved + Acknowledgements(replies, |replies|));
    e2 := DetachAndAttach(e, crc, threshold, logicalBlocks, uuid);
    if e2 != null {
      JustStarted(e2, e.store.meta, e.store.step, crc, e.host, e.policy, threshold, logicalBlocks, uuid, e.perZone);
    }
  }

  /** What a session begins with. */
  lemma JustStarted(e: Engine, meta: MetaZone, step: Checksum, crc: SuperChecksum, host: Host, policy: Policy,
                    threshold: nat, logicalBlocks: u64, uuid: nat, perZone: nat)
    requires Started(e, meta, step, crc, host, policy, threshold, logicalBlocks, uuid, perZone)
    ensures e.Valid() && !e.writesStopped && e.host == host && e.store.meta == meta && e.perZone == perZone
    ensures e.store.whole && e.store.faults0 == meta.faults && e.store.threshold == threshold
    ensures LogBound(e) == e.store.reach0 && e.alloc.zones == host.zones
    ensures meta.start <= meta.end && SuperFits(Device(uuid, logicalBlocks, meta.length, |host.zones|)) ==>
              Reusable(e, crc, logicalBlocks, uuid)
  {
    hide Engine.Valid, P.Reach, FormatOk, SuperFits, HighestEmpty, KeysBelow, Grown;
    NothingGrown(e.store.reach0);
  }

  /** The block store after the first k sessions, going only by which writes were acknowledged. */
  function AfterSessions(m: map<nat, Block>, sessions: seq<seq<Request>>, replies: seq<seq<Reply>>, k: nat): map<nat,
                         Block>
    requires k <= |replies| && SameLengths(sessions, replies)
  {
    if k == 0 then m else After(AfterSessions(m, sessions, replies, k - 1), sessions[k - 1], replies[k - 1],
                                |sessions[k - 1]|)
  }

  lemma {:induction false} EarlierSessions(m: map<nat, Block>, sessions: seq<seq<Request>>, replies: seq<seq<Reply>>,
                                           all: seq<seq<Reply>>, k: nat)
    requires k <= |replies| < |all| && |all| <= |sessions| && replies == all[..|replies|] && SameLengths(sessions, all)
    ensures SameLengths(sessions, replies)
    ensures AfterSessions(m, sessions, all, k) == AfterSessions(m, sessions, replies, k)
  {
    if k > 0 {
      EarlierSessions(m, sessions, replies, all, k - 1);
    }
  }

  /** Every session was answered in full. */
  predicate SameLengths(sessions: seq<seq<Request>>, replies: seq<seq<Reply>>) {
    |replies| <= |sessions| && forall i | 0 <= i < |replies| :: |replies[i]| == |sessions[i]|
  }

  /** The replies of session k are those that one block store, living through all sessions, owes. */
  ghost predicate SessionOk(m: map<nat, Block>, sessions: seq<seq<Request>>, replies: seq<seq<Reply>>, k: nat)
    requires k < |replies| && SameLengths(sessions, replies)
  {
    Answers(AfterSessions(m, sessions, replies, k), sessions[k], replies[k])
  }

  ghost predicate SessionExact(m: map<nat, Block>, sessions: seq<seq<Request>>, replies: seq<seq<Reply>>, k: nat,
                               limit: nat)
    requires k < |replies| && SameLengths(sessions, replies)
  {
    ExactAnswers(AfterSessions(m, sessions, replies, k), sessions[k], replies[k], limit)
  }

  ghost predicate History(m: map<nat, Block>, sessions: seq<seq<Request>>, replies: seq<seq<Reply>>) {
    SameLengths(sessions, replies) && forall k | 0 <= k < |replies| :: SessionOk(m, sessions, replies, k)
  }

  ghost predicate ExactHistory(m: map<nat, Block>, sessions: seq<seq<Request>>, replies: seq<seq<Reply>>, limit: nat) {
    SameLengths(sessions, replies) && forall k | 0 <= k < |replies| :: SessionExact(m, sessions, replies, k, limit)
  }

  lemma LengthsMore(sessions: seq<seq<Request>>, replies: seq<seq<Reply>>, more: seq<Reply>, all: seq<seq<Reply>>)
    requires SameLengths(sessions, replies) && |replies| < |sessions| && |more| == |sessions[|replies|]|
    requires all == replies + [more]
    ensures SameLengths(sessions, all) && replies == all[..|replies|] && all[|replies|] == more
    ensures |all| == |replies| + 1
  {
  }

  /** What was true of a session stays true when another one follows. */
  lemma SessionKept(m: map<nat, Block>, sessions: seq<seq<Request>>, replies: seq<seq<Reply>>, all: seq<seq<Reply>>,
                    k: nat, limit: nat)
    requires k < |replies| < |all| <= |sessions| && replies == all[..|replies|]
    requires SameLengths(sessions, all) && SameLengths(sessions, replies)
    ensures SessionOk(m, sessions, all, k) == SessionOk(m, sessions, replies, k)
    ensures SessionExact(m, sessions, all, k, limit) == SessionExact(m, sessions, replies, k, limit)
  {
    hide AfterSessions, Answers, ExactAnswers;
    EarlierSessions(m, sessions, replies, all, k);
  }

  lemma SessionAdded(m: map<nat, Block>, sessions: seq<seq<Request>>, replies: seq<seq<Reply>>, more: seq<Reply>,
                     all: seq<seq<Reply>>, limit: nat)
    requires |replies| < |all| == |replies| + 1 <= |sessions| && replies == all[..|replies|] && all[|replies|] == more
    requires SameLengths(sessions, all) && SameLengths(sessions, replies)
    ensures var before := AfterSessions(m, sessions, replies, |replies|);
            && AfterSessions(m, sessions, all, |all|) == After(before, sessions[|replies|], more, |more|)
            && SessionOk(m, sessions, all, |replies|) == Answers(before, sessions[|replies|], more)
            && SessionExact(m, sessions, all, |replies|, limit) ==
               ExactAnswers(before, sessions[|replies|], more, limit)
  {
    hide Answers, ExactAnswers, After;
    EarlierSessions(m, sessions, replies, all, |replies|);
  }

  lemma HistoryMore(m: map<nat, Block>, sessions: seq<seq<Request>>, replies: seq<seq<Reply>>, more: seq<Reply>,
                    all: seq<seq<Reply>>)
    requires History(m, sessions, replies) && |replies| < |sessions| && |more| == |sessions[|replies|]|
    requires all == replies + [more]
    requires Answers(AfterSessions(m, sessions, replies, |replies|), sessions[|replies|], more)
    ensures History(m, sessions, all)
    ensures AfterSessions(m, sessions, all, |all|) ==
            After(AfterSessions(m, sessions, replies, |replies|), sessions[|replies|], more, |more|)
  {
    hide After, AfterSessions, Answers, SessionOk, SameLengths;
    LengthsMore(sessions, replies, more, all);
    SessionAdded(m, sessions, replies, more, all, 0);
    forall k | 0 <= k < |replies| ensures SessionOk(m, sessions, all, k) {
      SessionKept(m, sessions, replies, all, k, 0);
    }
  }

  lemma ExactHistoryMore(m: map<nat, Block>, sessions: seq<seq<Request>>, replies: seq<seq<Reply>>, more: seq<Reply>,
                         all: seq<seq<Reply>>, limit: nat)
    requires ExactHistory(m, sessions, replies, limit) && |replies| < |sessions| && |more| == |sessions[|replies|]|
    requires ExactAnswers(AfterSessions(m, sessions, replies, |replies|), sessions[|replies|], more, limit)
    requires all == replies + [more]
    ensures ExactHistory(m, sessions, all, limit)
  {
    hide After, AfterSessions, ExactAnswers, SessionExact, SameLengths;
    LengthsMore(sessions, replies, more, all);
    SessionAdded(m, sessions, replies, more, all, limit);
    forall k | 0 <= k < |replies| ensures SessionExact(m, sessions, all, k, limit) {
      SessionKept(m, sessions, replies, all, k, limit);
    }
  }

  lemma AnswersLength(m: map<nat, Block>, requests: seq<Request>, replies: seq<Reply>)
    requires Answers(m, requests, replies)
    ensures |replies| == |requests|
  {
  }

  /** Block writes acknowledged in all sessions. */
  function Writes(replies: seq<seq<Reply>>): nat {
    if replies == [] then 0
    else Writes(replies[..|replies| - 1]) + Acknowledgements(replies[|replies| - 1], |replies[|replies| - 1]|)
  }

  lemma WritesMore(replies: seq<seq<Reply>>, more: seq<Reply>, all: seq<seq<Reply>>)
    requires all == replies + [more]
    ensures Writes(all) == Writes(replies) + Acknowledgements(more, |more|)
  {
    assert all[..|all| - 1] == replies;
  }

  /** One more session, in the bound on the log. */
  lemma LogGrows(replies: seq<seq<Reply>>, more: seq<Reply>, all: seq<seq<Reply>>, bound: nat, moved: nat, here: nat,
                 reached: nat)
    requires all == replies + [more]
    ensures var before, now := Grown(bound, moved + Writes(replies)), Grown(bound, moved + here + Writes(all));
            before <= now && (reached <= before ==> Grown(reached, here + Acknowledgements(more, |more|)) <= now)
  {
    hide Writes, Grown, Acknowledgements;
    WritesMore(replies, more, all);
    var total, acked := moved + Writes(replies), Acknowledgements(more, |more|);
    assert total + (here + acked) == moved + here + Writes(all);
    GrownTwice(bound, total, here + acked, Grown(bound, total));
    if reached <= Grown(bound, total) {
      GrownTwice(bound, total, here + acked, reached);
    }
  }

  /** One more session, in the history. */
  lemma HistoryGrows(m: map<nat, Block>, sessions: seq<seq<Request>>, replies: seq<seq<Reply>>, store: map<nat, Block>,
                     more: seq<Reply>, all: seq<seq<Reply>>, limit: nat, exact: bool)
    requires History(m, sessions, replies) && |replies| < |sessions| && all == replies + [more]
    requires store == AfterSessions(m, sessions, replies, |replies|) && Answers(store, sessions[|replies|], more)
    requires exact ==>
              ExactHistory(m, sessions, replies, limit) && ExactAnswers(store, sessions[|replies|], more, limit)
    ensures |more| == |sessions[|replies|]| && History(m, sessions, all)
    ensures (exact ==> ExactHistory(m, sessions, all, limit))
    ensures AfterSessions(m, sessions, all, |all|) == After(store, sessions[|replies|], more, |more|)
  {
    hide AfterSessions, SameLengths, History, ExactHistory, Answers, ExactAnswers, After;
    AnswersLength(store, sessions[|replies|], more);
    HistoryMore(m, sessions, replies, more, all);
    if exact {
      ExactHistoryMore(m, sessions, replies, more, all, limit);
    }
  }

  /** A bound on the log after a number of sessions, at one table of the given size each. */
  function Tables(bound: nat, size: nat, sessions: nat): nat {
    if sessions == 0 then bound else Tables(bound, size, sessions - 1) + size
  }

  lemma {:induction false} TablesMore(bound: nat, size: nat, some: nat, all: nat)
    requires some <= all
    ensures Tables(bound, size, some) <= Tables(bound, size, all)
    decreases all
  {
    if some < all {
      TablesMore(bound, size, some, all - 1);
    }
  }

  /** There is room for the log if every insertion costs two blocks, or every session one table of all blocks. */
  predicate Room(bound: nat, insertions: nat, start: nat, blocks: nat, sessions: nat, calm: bool, end: nat) {
    || Grown(bound, insertions) <= end
    || (calm && Tables(start, P.SizeOf(blocks), sessions) <= end)
  }

  /** The log after one more session, in both bounds. */
  lemma RoomLeft(bound: nat, insertions: nat, start: nat, blocks: nat, sessions: nat, all: nat, calm: bool, end: nat,
                 reached: nat, mapped: nat, reach: nat)
    requires sessions < all && mapped <= blocks && reach <= Grown(bound, insertions)
    requires calm ==> reached <= Tables(start, P.SizeOf(blocks), sessions) && reach <= reached + P.SizeOf(mapped)
    ensures calm ==> reach <= Tables(start, P.SizeOf(blocks), sessions + 1)
    ensures Room(bound, insertions, start, blocks, all, calm, end) ==> reach <= end
  {
    hide P.SizeOf, Grown;
    P.SizeGrows(mapped, blocks);
    TablesMore(start, P.SizeOf(blocks), sessions + 1, all);
  }

  /** The log so far, when nothing failed: within two blocks for every insertion, and if every MemTable may hold more
      than all blocks, within one table of them for every session. */
  ghost predicate LogSmall(e: Engine, bound: nat, insertions: nat, start: nat, blocks: nat, sessions: nat, calm: bool)
    reads e, e.store
  {
    && LogBound(e) <= Grown(bound, insertions)
    && (calm ==> blocks < e.store.threshold && e.store.reach0 <= Tables(start, P.SizeOf(blocks), sessions))
  }

  /** What a series of sessions begins with: the device, the contents, the number and size of its zones, failures so
      far, and how far the log reaches. */
  datatype Setting = Setting(
    host: Host, meta: MetaZone, m: map<nat, Block>, n: nat, c: nat, stopped: bool, even: bool, faults: nat,
    whole: bool, metaFaults: nat, bound: nat, start: nat, blocks: u64, calm: bool)

  /** Nothing has failed since then. */
  ghost predicate Unfailed(g: Setting)
    reads g.host
  {
    !g.stopped && g.host.faults == g.faults
  }

  ghost predicate LogUnfailed(g: Setting)
    reads g.meta
  {
    g.whole && g.meta.faults == g.metaFaults
  }

  /** What can be told after some sessions, whether or not there is a next one. */
  ghost predicate Told(g: Setting, sessions: seq<seq<Request>>, replies: seq<seq<Reply>>)
    reads g.host, g.meta
  {
    && History(g.m, sessions, replies) && g.host.faults >= g.faults && g.meta.faults >= g.metaFaults
    && (Unfailed(g) && g.n > 0 && g.even ==> ExactHistory(g.m, sessions, replies, Limit(g.n, g.c)))
  }

  /** Engine e serves the next session; moved blocks were collected so far. */
  ghost predicate Serving(g: Setting, sessions: seq<seq<Request>>, replies: seq<seq<Reply>>, moved: nat, e: Engine,
                          crc: SuperChecksum, uuid: nat)
    reads g.host, g.meta, e, e.host, e.alloc, e.index, e.store, e.store.Repr
  {
    && e.host == g.host && e.store.meta == g.meta && e.perZone == g.c && |e.alloc.zones| == g.n
    && Reusable(e, crc, g.blocks, uuid) && StoreBelow(e.acked, g.blocks)
    && |replies| <= |sessions| && SameLengths(sessions, replies)
    && e.acked == AfterSessions(g.m, sessions, replies, |replies|)
    && g.metaFaults <= e.store.faults0 && (g.whole ==> e.store.whole) && (!g.stopped ==> !e.writesStopped)
    && (g.whole && e.store.faults0 == g.metaFaults ==>
          LogSmall(e, g.bound, moved + Writes(replies), g.start, g.blocks, |replies|, g.calm))
    && (Unfailed(g) && g.even ==> e.EvenZones())
    && e.Valid()
  }

  /** The insertions of the sessions so far had no room in the log. */
  ghost predicate Outgrown(g: Setting, sessions: nat, insertions: nat, threshold: nat)
    reads g.host, g.meta
  {
    Unfailed(g) && LogUnfailed(g) && 0 < threshold ==>
      !Room(g.bound, insertions, g.start, g.blocks, sessions, g.calm, g.meta.end)
  }

  /** One of any number of sessions. */
  method NextSession(ghost g: Setting, sessions: seq<seq<Request>>, replies: seq<seq<Reply>>, ghost moved: nat,
                     e: Engine, crc: SuperChecksum, threshold: nat, logicalBlocks: u64, uuid: nat)
    returns (all: seq<seq<Reply>>, next: Engine?, ghost moved': nat)
    requires |replies| < |sessions| && BlocksBelow(sessions[|replies|], logicalBlocks) && g.blocks == logicalBlocks
    requires g.calm ==> logicalBlocks < threshold
    requires Told(g, sessions, replies) && Serving(g, sessions, replies, moved, e, crc, uuid)
    modifies e, e.index, e.host, e.alloc, e.store.Repr
    ensures |all| == |replies| + 1 && Told(g, sessions, all)
    ensures next == null ==> Outgrown(g, |sessions|, moved' + Writes(all), threshold)
    ensures next != null ==>
              && fresh(next) && fresh(next.index) && fresh(next.alloc) && fresh(next.store.Repr - {g.meta})
              && Serving(g, sessions, all, moved', next, crc, uuid)
  {
    hide Engine.Valid, Engine.EvenZones, AfterSessions, SameLengths, History, ExactHistory, Answers, ExactAnswers,
         BlocksBelow, StoreBelow, Limit, LogBound, Writes, Grown, Acknowledgements, After, Started, ReportOk,
         Attachable, P.SizeOf, Tables, Room, SuperFits, FormatOk, Layout, Consistent;
    SameBlocks(e);
    KeysAlike(e, logicalBlocks);
    ghost var store, reached := e.acked, LogBound(e);
    ghost var exact := Unfailed(g) && g.n > 0 && g.even;
    var more;
    ghost var closing;
    more, next, closing := Session(e, sessions[|replies|], crc, threshold, logicalBlocks, uuid);
    all, moved' := replies + [more], moved + closing.moved;
    HistoryGrows(g.m, sessions, replies, store, more, all, Limit(g.n, g.c), exact && Unfailed(g));
    LogGrows(replies, more, all, g.bound, moved, closing.moved, reached);
    if LogUnfailed(g) {
      RoomLeft(g.bound, moved' + Writes(all), g.start, g.blocks, |replies|, |sessions|, g.calm, g.meta.end,
               e.store.reach0, |e.acked|, closing.reach);
    }
    if next != null {
      JustStarted(next, g.meta, e.store.step, crc, g.host, e.policy, threshold, logicalBlocks, uuid, g.c);
      HistoryLengths(g.m, sessions, all);
    }
  }

  lemma HistoryLengths(m: map<nat, Block>, sessions: seq<seq<Request>>, replies: seq<seq<Reply>>)
    requires History(m, sessions, replies)
    ensures SameLengths(sessions, replies)
  {
  }

  /** Any number of sessions. Whatever fails, every read of every session returns the last contents acknowledged in this
      or any earlier session, or an error. If nothing fails, every reply is exact on even zones, and if the metadata
      zone has room, all sessions are served. There is room if it suffices for two blocks for every insertion into the
      mapping store - one for each acknowledged write and for each block that collection moves; and also, if a MemTable
      may hold more than all blocks of the device, for one table of all blocks for every session, however much is
      written. */
  method ServeSessions(e0: Engine, sessions: seq<seq<Request>>, crc: SuperChecksum, threshold: nat, logicalBlocks: u64,
                       uuid: nat)
    returns (e: Engine?, replies: seq<seq<Reply>>, ghost moved: nat)
    requires Reusable(e0, crc, logicalBlocks, uuid) && StoreBelow(e0.acked, logicalBlocks)
    requires forall k | 0 <= k < |sessions| :: BlocksBelow(sessions[k], logicalBlocks)
    requires e0.Valid()
    modifies e0, e0.index, e0.host, e0.alloc, e0.store.Repr
    ensures History(old(e0.acked), sessions, replies)
    ensures e0.store.faults0 <= e0.store.meta.faults && old(e0.host.faults) <= e0.host.faults
    ensures e != null ==>
              |replies| == |sessions| && e.Valid()
                && e.acked == AfterSessions(old(e0.acked), sessions, replies, |sessions|)
    ensures !old(e0.writesStopped) && e0.host.faults == old(e0.host.faults) ==>
              && (|old(e0.alloc.zones)| > 0 && old(e0.EvenZones()) ==>
                    ExactHistory(old(e0.acked), sessions, replies, Limit(|old(e0.alloc.zones)|, e0.perZone)))
              && (e0.store.Quiet() && 0 < threshold
                  && Room(old(LogBound(e0)), moved + Writes(replies), e0.store.reach0, logicalBlocks, |sessions|,
                          logicalBlocks < threshold && logicalBlocks < e0.store.threshold, e0.store.meta.end) ==>
                    e != null && !e.writesStopped)
  {
    hide Engine.Valid, Engine.EvenZones, AfterSessions, SameLengths, History, ExactHistory, BlocksBelow, StoreBelow,
         Reusable, Limit, LogBound, Writes, Room, Serving, LogSmall, Layout, Consistent;
    e, replies, moved := e0, [], 0;
    SameBlocks(e0);
    ghost var g :=
      Setting(e0.host, e0.store.meta, e0.acked, |e0.alloc.zones|, e0.perZone, e0.writesStopped, e0.EvenZones(),
              e0.host.faults, e0.store.whole, e0.store.faults0, LogBound(e0), e0.store.reach0, logicalBlocks,
              logicalBlocks < threshold && logicalBlocks < e0.store.threshold);
    SessionsStart(g, sessions, e0, crc, uuid);
    while |replies| < |sessions|
      invariant e != null && Told(g, sessions, replies) && Serving(g, sessions, replies, moved, e, crc, uuid)
      invariant e == e0 || fresh(e)
      invariant e.index == e0.index || fresh(e.index)
      invariant e.alloc == e0.alloc || fresh(e.alloc)
      invariant fresh(e.store.Repr - old(e0.store.Repr)) && g.host == e.host == e0.host && e.store.meta == g.meta
      invariant |replies| <= |sessions|
      decreases |sessions| - |replies|
    {
      replies, e, moved := NextSession(g, sessions, replies, moved, e, crc, threshold, logicalBlocks, uuid);
      if e == null {
        return;
      }
      ServingFacts(g, sessions, replies, moved, e, crc, uuid);
    }
    ServingFacts(g, sessions, replies, moved, e, crc, uuid);
  }

  lemma SessionsStart(g: Setting, sessions: seq<seq<Request>>, e: Engine, crc: SuperChecksum, uuid: nat)
    requires Reusable(e, crc, g.blocks, uuid) && StoreBelow(e.acked, g.blocks)
    requires g.calm ==> g.blocks < e.store.threshold
    requires g == Setting(e.host, e.store.meta, e.acked, |e.alloc.zones|, e.perZone, e.writesStopped, e.EvenZones(),
                          e.host.faults, e.store.whole, e.store.faults0, LogBound(e), e.store.reach0, g.blocks, g.calm)
    requires e.Valid()
    ensures Told(g, sessions, []) && Serving(g, sessions, [], 0, e, crc, uuid)
  {
    hide Engine.Valid, Engine.EvenZones, StoreBelow, Reusable, Limit, LogBound, Layout, Consistent, History,
         ExactHistory, AfterSessions, Writes;
    SameBlocks(e);
    HistoryStarts(g.m, sessions);
    NothingGrown(LogBound(e));
  }

  lemma ServingFacts(g: Setting, sessions: seq<seq<Request>>, replies: seq<seq<Reply>>, moved: nat, e: Engine,
                     crc: SuperChecksum, uuid: nat)
    requires Serving(g, sessions, replies, moved, e, crc, uuid)
    ensures e.host == g.host && e.store.meta == g.meta && e.Valid() && (!g.stopped ==> !e.writesStopped)
    ensures e.acked == AfterSessions(g.m, sessions, replies, |replies|) && |replies| <= |sessions|
  {
    hide Engine.Valid, Reusable, StoreBelow, LogSmall, SameLengths, AfterSessions;
  }

  lemma HistoryStarts(m: map<nat, Block>, sessions: seq<seq<Request>>)
    ensures History(m, sessions, []) && AfterSessions(m, sessions, [], 0) == m && Writes([]) == 0
    ensures forall limit: nat :: ExactHistory(m, sessions, [], limit)
  {
  }

  /** The default of the module parameter for the MemTable threshold, and the most entries that it is raised to. */
  const DEFAULT_THRESHOLD: nat := 16384
  const MAX_RESIDENT: nat := 0x10_0000

  /** The threshold of an engine: the default is raised so that one mapping for every block can stay resident. */
  function Threshold(requested: nat, logicalBlocks: u64): (t: nat)
    ensures 0 < requested ==> 0 < t
    ensures requested != 16384 ==> t == requested
    ensures requested == 16384 ==>
              && (logicalBlocks < t <==> logicalBlocks < 0x10_0000) && 16384 <= t <= 0x10_0000
              && t in {16384, logicalBlocks + 1, 0x10_0000}
  {
    var all := if logicalBlocks + 1 < MAX_RESIDENT then logicalBlocks + 1 else MAX_RESIDENT;
    if requested != DEFAULT_THRESHOLD then requested else if all < DEFAULT_THRESHOLD then DEFAULT_THRESHOLD else all
  }

  /** The whole story: format a new device, then run any number of sessions on it. With the default threshold and less
      than 2^20 blocks, there is room if the metadata zone can take one table of all blocks for every session. */
  method ServeNewDevice(meta: MetaZone, step: Checksum, crc: SuperChecksum, host: Host, policy: Policy, requested: nat,
                        logicalBlocks: u64, uuid: nat, sessions: seq<seq<Request>>, ghost perZone: nat)
    returns (e: Engine?, replies: seq<seq<Reply>>, ghost moved: nat)
    requires meta.wp == meta.start && meta.start + BLOCK_SECTORS <= meta.end && 0 < requested
    requires SuperFits(Device(uuid, logicalBlocks, meta.length, |host.zones|))
    requires FactoryNew(host.zones) && host.disciplined
    requires forall k | 0 <= k < |sessions| :: BlocksBelow(sessions[k], logicalBlocks)
    modifies meta, host
    ensures History(map[], sessions, replies)
    ensures meta.faults == old(meta.faults) && host.faults == old(host.faults) ==>
              && (Room(meta.start + BLOCK_SECTORS, moved + Writes(replies), meta.start + BLOCK_SECTORS, logicalBlocks,
                       |sessions|, logicalBlocks < Threshold(requested, logicalBlocks), meta.end) ==>
                    e != null && |replies| == |sessions|)
              && (requested == 16384 && logicalBlocks < 0x10_0000
                  && Tables(meta.start + BLOCK_SECTORS, P.SizeOf(logicalBlocks), |sessions|) <= meta.end ==>
                    e != null && |replies| == |sessions|)
              && (Uniform(old(host.zones), perZone) ==>
                    ExactHistory(map[], sessions, replies, Limit(|old(host.zones)|, perZone)))
  {
    hide Engine.Valid, AfterSessions, SameLengths, History, ExactHistory, BlocksBelow, SuperFits, FormatOk, Limit,
         Writes, Grown, Uniform, Tables, Layout, Consistent;
    replies, moved := [], 0;
    var threshold := Threshold(requested, logicalBlocks);
    HistoryStarts(map[], sessions);
    SomeData(host.zones);
    e := AttachNew(meta, step, crc, host, policy, threshold, logicalBlocks, uuid, perZone);
    if e != null {
      NothingGrown(e.store.reach0);
      SameBlocks(e);
      e, replies, moved := ServeSessions(e, sessions, crc, threshold, logicalBlocks, uuid);
    }
  }

  lemma SomeData(zones: seq<Zone>)
    requires FactoryNew(zones)
    ensures |zones| > 0
  {
  }
}
