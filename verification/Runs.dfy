/** Whole runs of the engine: refinement of an overwritable block store, progress up to the space limit,
    and the amortised cost of greedy collection. */
module Runs {
  import opened Prelude
  import opened Sums
  import opened GcPolicies
  import opened Space
  import opened Engines

  datatype Request = Write(block: u64, data: Block) | Read(block: u64)

  datatype Reply = Written(r: Errno) | Data(data: Block) | Failed(error: Errno)

  /** The block store after the first k requests, going only by which writes were acknowledged. */
  function After(m: map<nat, Block>, requests: seq<Request>, replies: seq<Reply>, k: nat): map<nat, Block>
    requires k <= |requests| && k <= |replies|
  {
    if k == 0 then m else Effect(After(m, requests, replies, k - 1), requests[k - 1], replies[k - 1])
  }

  function Effect(m: map<nat, Block>, q: Request, reply: Reply): map<nat, Block> {
    if q.Write? && reply == Written(Success) then m[q.block := q.data] else m
  }

  /** The contents of a block in a store; a block never written reads as zeros. */
  function BlockOf(m: map<nat, Block>, b: nat): Block {
    if b in m then m[b] else ZeroBlock()
  }

  /** Acknowledged block writes among the first k replies. */
  function Acknowledgements(replies: seq<Reply>, k: nat): nat
    requires k <= |replies|
  {
    if k == 0 then 0 else Acknowledgements(replies, k - 1) + if replies[k - 1] == Written(Success) then 1 else 0
  }

  lemma {:induction false} PrefixDecides(m: map<nat, Block>, requests: seq<Request>, replies: seq<Reply>, more: Reply,
                                         k: nat)
    requires k <= |requests| && k <= |replies|
    ensures After(m, requests, replies + [more], k) == After(m, requests, replies, k)
    ensures Acknowledgements(replies + [more], k) == Acknowledgements(replies, k)
  {
    if k > 0 {
      PrefixDecides(m, requests, replies, more, k - 1);
    }
  }

  /** The answer the store owes to request k given the answers before it. */
  predicate Correct(m: map<nat, Block>, requests: seq<Request>, replies: seq<Reply>, k: nat)
    requires k < |requests| && k < |replies|
  {
    if requests[k].Write? then replies[k].Written?
    else replies[k].Failed? || replies[k] == Data(BlockOf(After(m, requests, replies, k), requests[k].block))
  }

  /** The answer to request k when nothing failed: reads succeed, and a write succeeds exactly below the space limit. */
  predicate Exact(m: map<nat, Block>, requests: seq<Request>, replies: seq<Reply>, k: nat, limit: nat)
    requires k < |requests| && k < |replies|
  {
    if requests[k].Write? then
      replies[k] == Written(if |After(m, requests, replies, k)| < limit then Success else NoSpace)
    else replies[k].Data?
  }

  /** An answer that no failure had a part in: reads succeed, and a write is refused for want of space only. */
  predicate Unfailing(q: Request, reply: Reply) {
    if q.Write? then reply == Written(Success) || reply == Written(NoSpace) else reply.Data?
  }

  // ----- The cost of greedy collection -----

  /** Moved blocks are paid for by user writes: w of them so far, free ordinary blocks left,
      and at most v live blocks in any victim among zones of c blocks. */
  predicate Budget(moved: nat, w: nat, free: nat, c: nat, v: nat)
    requires v <= c
  {
    && moved * (c - v) <= v * (w + free)
    && moved * (c - v) <= v * (w + (c - v))
  }

  lemma MulMono(a: nat, b: nat, c: nat)
    requires a <= b
    ensures a * c <= b * c && c * a <= c * b
  {
  }

  /** A victim with d <= v live blocks costs no more than v blocks for every block it gains. */
  lemma VictimCost(d: nat, c: nat, v: nat)
    requires d <= v <= c
    ensures d * (c - v) <= v * (c - d) && d * (c - v) <= v * (c - v)
  {
    MulMono(d, v, c - v);
    MulMono(c - v, c - d, v);
  }

  lemma AverageVictim(d: nat, n: nat, mapped: nat, m: nat, v: nat)
    requires n >= 1 && n * d <= mapped <= m && v == m / n
    ensures d <= v
  {
    assert n * (v + 1) == n * v + n;
    assert n * v + m % n == m;
    if v < d {
      MulMono(v + 1, d, n);
    }
  }

  lemma VictimBelowCapacity(n: nat, m: nat, c: nat, v: nat)
    requires n >= 1 && m < n * c && v == m / n
    ensures v < c
  {
    assert n * v + m % n == m;
    if c <= v {
      MulMono(c, v, n);
    }
  }

  lemma BudgetStep(moved: nat, w: nat, free: nat, free': nat, d: nat, c: nat, v: nat)
    requires v < c && Budget(moved, w, free, c, v)
    requires free > 0 ==> free' == free - 1 && d == 0
    requires free == 0 ==> d < c && free' == c - d - 1 && d <= v
    ensures Budget(moved + d, w + 1, free', c, v)
  {
    assert (moved + d) * (c - v) == moved * (c - v) + d * (c - v);
    assert v * (w + 1 + (c - v)) == v * (w + (c - v)) + v;
    if free == 0 {
      VictimCost(d, c, v);
      assert v * (w + 1 + free') == v * w + v * (c - d);
      assert v * (w + (c - v)) == v * w + v * (c - v);
    }
  }

  lemma ChargedBudget(n: nat, c: nat, mapped: nat, free: nat, free': nat, d: nat, moved: nat, w: nat, m: nat, v: nat)
    requires Charged(Greedy, n, c, mapped, free, free', d)
    requires n >= 2 && mapped <= m && v == m / (n - 1) && v < c
    requires Budget(moved, w, free, c, v)
    ensures Budget(moved + d, w + 1, free', c, v)
  {
    if free == 0 {
      AverageVictim(d, n - 1, mapped, m, v);
    }
    BudgetStep(moved, w, free, free', d, c, v);
  }

  lemma InitialBudget(free: nat, c: nat, v: nat)
    requires v <= c
    ensures Budget(0, 0, free, c, v)
  {
    assert 0 * (c - v) == 0;
  }

  // ----- One request -----

  /** What one request does to the observable state, and what it may answer. */
  ghost predicate Served(policy: Policy, c: nat, s: Observation, q: Request, reply: Reply, s': Observation) {
    && s'.acked == Effect(s.acked, q, reply)
    && (q.Write? ==> reply.Written? && WriteStep(policy, c, s, s', reply.r))
    && (q.Read? ==>
          && s'.n == s.n > 0 && s' == s.(faults := s'.faults) && s'.faults >= s.faults
          && (reply.Failed? || reply == Data(BlockOf(s.acked, q.block)))
          && (s'.faults == s.faults ==> reply.Data?))
  }

  method ServeOne(e: Engine, q: Request) returns (reply: Reply)
    requires e.Valid()
    modifies e, e.index, e.host, e.alloc, e.store.Repr
    ensures fresh(e.store.Repr - old(e.store.Repr))
    ensures e.Valid() && Served(e.policy, e.perZone, old(e.Observe()), q, reply, e.Observe())
    ensures q.Read? ==> e.DiskState() == old(e.DiskState())
    ensures q.Write? && !old(e.writesStopped) && e.host.faults == old(e.host.faults) ==>
              WriteOutcome(e.policy, old(e.DiskState()), q.block, e.DiskState(), reply.r)
  {
    hide WriteStep, WriteOutcome, Stuck, Engine.Core;
    SomeZones(e);
    match q {
      case Write(b, data) =>
        var r := e.AppendWrite(b, data);
        reply := Written(r);
      case Read(b) =>
        var r := e.ReadBlock(b);
        reply := if r.Ok? then Data(r.value) else Failed(r.error);
    }
  }

  // ----- All requests -----

  /** m blocks fit below the space limit of n zones, and an average zone then holds v of them. */
  predicate Bounds(n: nat, c: nat, m: nat, v: nat) {
    n >= 2 && m < Limit(n, c) && v == m / (n - 1) && v < c
  }

  lemma BoundsExist(n: nat, c: nat, m: nat)
    requires n >= 2 && m < Limit(n, c)
    ensures Bounds(n, c, m, m / (n - 1))
  {
    VictimBelowCapacity(n - 1, m, c, m / (n - 1));
  }

  /** Where a run that began in state s0 and is now in state s stands. In a run without failures on even zones the
      answers are exact, and greedy collection keeps its budget if at most m blocks are mapped. */
  ghost predicate Running(policy: Policy, c: nat, m: nat, v: nat, s0: Observation, requests: seq<Request>,
                          replies: seq<Reply>, s: Observation) {
    && |replies| <= |requests| && s.n == s0.n > 0 && s.faults >= s0.faults && s.moved >= s0.moved
    && s.puts == s0.puts + (s.moved - s0.moved) + Acknowledgements(replies, |replies|)
    && (!s0.stopped && s.faults == s0.faults ==>
          !s.stopped && forall k | 0 <= k < |replies| :: Unfailing(requests[k], replies[k]))
    && s.acked == After(s0.acked, requests, replies, |replies|)
    && (forall k | 0 <= k < |replies| :: Correct(s0.acked, requests, replies, k))
    && (!s0.stopped && s0.even && s.faults == s0.faults ==>
          && !s.stopped && s.even
          && (forall k | 0 <= k < |replies| :: Exact(s0.acked, requests, replies, k, Limit(s.n, c)))
          && (policy == Greedy && Bounds(s.n, c, m, v) && |s.acked| <= m ==>
                Budget(s.moved - s0.moved, Acknowledgements(replies, |replies|), s.free, c, v)))
  }

  lemma RunStarts(policy: Policy, c: nat, m: nat, v: nat, s: Observation, requests: seq<Request>)
    requires s.n > 0
    ensures Running(policy, c, m, v, s, requests, [], s)
  {
    hide Budget;
    if v < c {
      InitialBudget(s.free, c, v);
    }
  }

  lemma MoreMapped(m: map<nat, Block>, q: Request, reply: Reply)
    ensures |m| <= |Effect(m, q, reply)|
  {
    if q.Write? {
      var m' := m[q.block := q.data];
      assert |m| == |m.Keys| && |m'| == |m'.Keys|;
      SubsetAtMost(m.Keys, m'.Keys);
    }
  }

  /** Judging the answers so far is not affected by the next one. */
  lemma ExtendReplies(m: map<nat, Block>, requests: seq<Request>, replies: seq<Reply>, more: Reply, limit: nat)
    requires |replies| < |requests|
    ensures forall k | 0 <= k < |replies| :: Correct(m, requests, replies, k) ==>
              Correct(m, requests, replies + [more], k)
    ensures forall k | 0 <= k < |replies| :: Exact(m, requests, replies, k, limit) ==>
              Exact(m, requests, replies + [more], k, limit)
    ensures After(m, requests, replies + [more], |replies|) == After(m, requests, replies, |replies|)
    ensures After(m, requests, replies + [more], |replies| + 1) ==
            Effect(After(m, requests, replies, |replies|), requests[|replies|], more)
    ensures Acknowledgements(replies + [more], |replies| + 1) ==
            Acknowledgements(replies, |replies|) + if more == Written(Success) then 1 else 0
  {
    forall k | 0 <= k <= |replies|
      ensures After(m, requests, replies + [more], k) == After(m, requests, replies, k)
    {
      PrefixDecides(m, requests, replies, more, k);
    }
    PrefixDecides(m, requests, replies, more, |replies|);
  }

  lemma RunExtends(policy: Policy, c: nat, m: nat, v: nat, s0: Observation, requests: seq<Request>, replies: seq<Reply>,
                   s: Observation, reply: Reply, s': Observation)
    requires |replies| < |requests| && Running(policy, c, m, v, s0, requests, replies, s)
    requires Served(policy, c, s, requests[|replies|], reply, s')
    ensures Running(policy, c, m, v, s0, requests, replies + [reply], s')
  {
    hide After, Acknowledgements, Budget, Charged, Limit, Bounds;
    ExtendReplies(s0.acked, requests, replies, reply, Limit(s.n, c));
    MoreMapped(s.acked, requests[|replies|], reply);
    if reply == Written(Success) && Bounds(s.n, c, m, v) && policy == Greedy && !s0.stopped && s0.even
       && s'.faults == s0.faults && |s'.acked| <= m {
      BudgetExtends(c, m, v, s, s', s0.moved, Acknowledgements(replies, |replies|));
    }
  }

  lemma BudgetExtends(c: nat, m: nat, v: nat, s: Observation, s': Observation, moved0: nat, w: nat)
    requires Bounds(s.n, c, m, v) && !s.stopped && s.even && |s.acked| <= m && moved0 <= s.moved
    requires WriteStep(Greedy, c, s, s', Success)
    requires Budget(s.moved - moved0, w, s.free, c, v)
    ensures Budget(s'.moved - moved0, w + 1, s'.free, c, v)
  {
    hide Budget, Charged, Limit;
    ChargedBudget(s.n, c, |s.acked|, s.free, s'.free, s'.moved - s.moved, s.moved - moved0, w, m, v);
  }

  lemma RunCost(n: nat, c: nat, m: nat, v: nat, moved: nat, w: nat, free: nat)
    requires Bounds(n, c, m, v) && Budget(moved, w, free, c, v)
    ensures moved * (c - v) <= v * (w + (c - v))
  {
  }

  /** The greedy move bound with an average of v = m / (n - 1) live blocks, as the budget gives it. */
  lemma BoundOf(c: nat, m: nat, s0: Observation, requests: seq<Request>, replies: seq<Reply>, s: Observation)
    requires s.n >= 2 && |s.acked| <= m < Limit(s.n, c) && !s0.stopped && s0.even && s.faults == s0.faults
    requires Running(Greedy, c, m, m / (s.n - 1), s0, requests, replies, s)
    ensures (s.moved - s0.moved) * (c - m / (s.n - 1)) <=
            m / (s.n - 1) * (Acknowledgements(replies, |replies|) + (c - m / (s.n - 1)))
  {
    hide After, Acknowledgements, Budget, Correct, Exact, Limit, Bounds;
    BoundsExist(s.n, c, m);
    RunCost(s.n, c, m, m / (s.n - 1), s.moved - s0.moved, Acknowledgements(replies, |replies|), s.free);
  }

  /** Serve any sequence of block requests, whatever fails along the way and however the flush worker interleaves.
      Reads return the last acknowledged contents or fail. Without failures, on zones of any sizes, reads succeed and a
      write is refused for want of space only. On even zones it is refused exactly when every slot outside the reserve
      is live; and greedy collection moves, with at most m mapped blocks and v = m / (n - 1) for n zones, about v blocks
      for every perZone - v blocks written. */
  method Serve(e: Engine, requests: seq<Request>, ghost m: nat) returns (replies: seq<Reply>)
    requires e.Valid()
    modifies e, e.index, e.host, e.alloc, e.store.Repr
    ensures fresh(e.store.Repr - old(e.store.Repr))
    ensures e.Valid() && |replies| == |requests| && |e.alloc.zones| == |old(e.alloc.zones)|
    ensures forall k | 0 <= k < |requests| :: Correct(old(e.acked), requests, replies, k)
    ensures e.acked == After(old(e.acked), requests, replies, |requests|)
    ensures e.host.faults >= old(e.host.faults) && e.gcMoved >= old(e.gcMoved)
    ensures e.store.puts == old(e.store.puts) + (e.gcMoved - old(e.gcMoved)) + Acknowledgements(replies, |requests|)
    ensures !old(e.writesStopped) && e.host.faults == old(e.host.faults) ==>
              !e.writesStopped && forall k | 0 <= k < |requests| :: Unfailing(requests[k], replies[k])
    ensures !old(e.writesStopped) && old(e.EvenZones()) && e.host.faults == old(e.host.faults) ==>
              e.EvenZones() && forall k | 0 <= k < |requests| ::
                  Exact(old(e.acked), requests, replies, k, Limit(|e.alloc.zones|, e.perZone))
    ensures var n, c := |e.alloc.zones|, e.perZone;
            !old(e.writesStopped) && old(e.EvenZones()) && e.host.faults == old(e.host.faults) && e.policy == Greedy &&
            n >= 2 && |e.acked| <= m < Limit(n, c) ==>
              (e.gcMoved - old(e.gcMoved)) * (c - m / (n - 1)) <=
              m / (n - 1) * (Acknowledgements(replies, |requests|) + (c - m / (n - 1)))
  {
    hide Engine.Valid, Engine.EvenZones, Engine.Free, Limit, Served, Correct, Exact, After, Acknowledgements, Budget,
         Bounds;
    replies := [];
    ghost var s0 := e.Observe();
    SomeZones(e);
    ghost var v := if s0.n >= 2 then m / (s0.n - 1) else 0;
    RunStarts(e.policy, e.perZone, m, v, s0, requests);
    while |replies| < |requests|
      invariant |replies| <= |requests| && e.Valid() && fresh(e.store.Repr - old(e.store.Repr))
      invariant Running(e.policy, e.perZone, m, v, s0, requests, replies, e.Observe())
    {
      ghost var s := e.Observe();
      var reply := ServeOne(e, requests[|replies|]);
      RunExtends(e.policy, e.perZone, m, v, s0, requests, replies, s, reply, e.Observe());
      replies := replies + [reply];
    }
    ghost var s := e.Observe();
    if !s0.stopped && s0.even && s.faults == s0.faults && e.policy == Greedy && s.n >= 2
       && |s.acked| <= m < Limit(s.n, e.perZone) {
      BoundOf(e.perZone, m, s0, requests, replies, s);
    }
  }
}
