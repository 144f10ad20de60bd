/** The in-memory mapping table: an ordered search tree of entries, its in-place insertion, compaction of two
    generations, and the insertion that keeps the active and immutable slots. */
module MemTables {
  import opened Prelude
  import G = Generations

  datatype Entry = Entry(block: nat, sector: nat, sequence: nat)

  datatype Tree = Leaf | Node(left: Tree, entry: Entry, right: Tree)

  /** The entries in the order of an rb_first / rb_next walk. */
  function InOrder(t: Tree): seq<Entry> {
    match t
    case Leaf => []
    case Node(l, e, r) => InOrder(l) + [e] + InOrder(r)
  }

  /** Blocks and sectors of 64 bits each. */
  predicate EntriesFit(es: seq<Entry>) {
    forall i | 0 <= i < |es| :: es[i].block < U64 && es[i].sector < U64
  }

  predicate Sorted(es: seq<Entry>) {
    forall i, j | 0 <= i < j < |es| :: es[i].block < es[j].block
  }

  /** The mapping that a list of entries denotes, the last entry for a block winning. */
  function MapOf(es: seq<Entry>): G.Mapping {
    if es == [] then map[] else MapOf(es[..|es| - 1])[es[|es| - 1].block := es[|es| - 1].sector]
  }

  lemma {:induction false} MapOfKeys(es: seq<Entry>)
    ensures forall b :: b in MapOf(es) <==> exists i | 0 <= i < |es| :: es[i].block == b
  {
    if es != [] {
      var front := es[..|es| - 1];
      MapOfKeys(front);
      forall b ensures b in MapOf(es) <==> exists i | 0 <= i < |es| :: es[i].block == b {
        if b in MapOf(front) {
          var i :| 0 <= i < |front| && front[i].block == b;
          assert es[i].block == b;
        }
        if i :| 0 <= i < |es| && es[i].block == b {
          assert i == |es| - 1 || front[i].block == b;
        }
      }
    }
  }

  /** In a sorted list every entry is its block's mapping, and there are as many blocks as entries. */
  lemma {:induction false} MapOfSorted(es: seq<Entry>)
    requires Sorted(es)
    ensures forall i | 0 <= i < |es| :: es[i].block in MapOf(es) && MapOf(es)[es[i].block] == es[i].sector
    ensures |MapOf(es)| == |es|
  {
    if es != [] {
      var front, last := es[..|es| - 1], es[|es| - 1];
      MapOfSorted(front);
      MapOfKeys(front);
      assert last.block !in MapOf(front);
      assert MapOf(es).Keys == MapOf(front).Keys + {last.block};
      assert |MapOf(es)| == |MapOf(es).Keys| && |MapOf(front)| == |MapOf(front).Keys|;
      assert forall i | 0 <= i < |front| :: es[i] == front[i];
    }
  }

  lemma EmptyMap(es: seq<Entry>)
    ensures MapOf(es) == map[] <==> es == []
  {
    if es != [] {
      assert es[|es| - 1].block in MapOf(es);
    }
  }

  lemma MapOfStep(es: seq<Entry>)
    requires es != []
    ensures MapOf(es) == MapOf(es[..|es| - 1])[es[|es| - 1].block := es[|es| - 1].sector]
  {
  }

  // ----- The search tree -----

  /** One step of a descent: which way it went and what it left behind. */
  datatype Frame = WentLeft(entry: Entry, right: Tree) | WentRight(left: Tree, entry: Entry)

  /** The whole tree, given the path down to a subtree and that subtree. */
  function Plug(path: seq<Frame>, t: Tree): Tree {
    if path == [] then t
    else
      var up := match path[|path| - 1] {
        case WentLeft(e, r) => Node(t, e, r)
        case WentRight(l, e) => Node(l, e, t)
      };
      Plug(path[..|path| - 1], up)
  }

  /** The entries that precede a subtree. */
  function Before(path: seq<Frame>): seq<Entry> {
    if path == [] then []
    else Before(path[..|path| - 1]) + match path[|path| - 1] {
      case WentLeft(_, _) => []
      case WentRight(l, e) => InOrder(l) + [e]
    }
  }

  /** The entries that follow a subtree. */
  function After(path: seq<Frame>): seq<Entry> {
    if path == [] then []
    else
      var nearest := match path[|path| - 1] {
        case WentLeft(e, r) => [e] + InOrder(r)
        case WentRight(_, _) => []
      };
      nearest + After(path[..|path| - 1])
  }

  lemma Regroup(a: seq<Entry>, b: seq<Entry>, c: seq<Entry>, d: seq<Entry>, e: seq<Entry>)
    ensures a + ((b + c) + d) + e == a + b + ((c + d) + e) && a + ((b + c) + d) + e == (a + (b + c)) + d + e
  {
  }

  lemma {:induction false} PlugInOrder(path: seq<Frame>, t: Tree)
    ensures InOrder(Plug(path, t)) == Before(path) + InOrder(t) + After(path)
  {
    if path != [] {
      var front := path[..|path| - 1];
      match path[|path| - 1] {
        case WentLeft(e, r) =>
          PlugInOrder(front, Node(t, e, r));
          Regroup(Before(front), InOrder(t), [e], InOrder(r), After(front));
        case WentRight(l, e) =>
          PlugInOrder(front, Node(l, e, t));
          Regroup(Before(front), InOrder(l), [e], InOrder(t), After(front));
      }
    }
  }

  /** Block b belongs, if anywhere, into the subtree below the path. */
  predicate Enclosed(path: seq<Frame>, b: nat) {
    (forall i | 0 <= i < |Before(path)| :: Before(path)[i].block < b) &&
    (forall i | 0 <= i < |After(path)| :: b < After(path)[i].block)
  }

  /** The whole tree around the root of a subtree. */
  lemma SplitAt(path: seq<Frame>, t: Tree)
    requires t.Node?
    ensures InOrder(Plug(path, t)) == (Before(path) + InOrder(t.left)) + [t.entry] + (InOrder(t.right) + After(path))
  {
    PlugInOrder(path, t);
    InOrderNode(t);
    hide InOrder, Plug, Before, After;
  }

  lemma InOrderNode(t: Tree)
    requires t.Node?
    ensures InOrder(t) == InOrder(t.left) + [t.entry] + InOrder(t.right)
  {
  }

  lemma WentLeftFacts(path: seq<Frame>, t: Tree)
    requires t.Node?
    ensures var down := path + [WentLeft(t.entry, t.right)];
            Before(down) == Before(path) && After(down) == [t.entry] + (InOrder(t.right) + After(path))
              && Plug(down, t.left) == Plug(path, t)
  {
    var down := path + [WentLeft(t.entry, t.right)];
    assert down[..|path|] == path;
    hide InOrder;
  }

  lemma WentRightFacts(path: seq<Frame>, t: Tree)
    requires t.Node?
    ensures var down := path + [WentRight(t.left, t.entry)];
            Before(down) == (Before(path) + InOrder(t.left)) + [t.entry] && After(down) == After(path)
              && Plug(down, t.right) == Plug(path, t)
  {
    var down := path + [WentRight(t.left, t.entry)];
    assert down[..|path|] == path;
    hide InOrder;
  }

  /** Going on towards b keeps b enclosed. */
  lemma DescendEnclosed(path: seq<Frame>, t: Tree, b: nat)
    requires t.Node? && Enclosed(path, b) && Sorted(InOrder(Plug(path, t)))
    ensures b < t.entry.block ==>
              Enclosed(path + [WentLeft(t.entry, t.right)], b)
                && Plug(path + [WentLeft(t.entry, t.right)], t.left) == Plug(path, t)
    ensures b > t.entry.block ==>
              Enclosed(path + [WentRight(t.left, t.entry)], b)
                && Plug(path + [WentRight(t.left, t.entry)], t.right) == Plug(path, t)
  {
    hide InOrder, Plug, Before, After, Sorted;
    SplitAt(path, t);
    SortedAround(Before(path) + InOrder(t.left), t.entry, InOrder(t.right) + After(path));
    WentLeftFacts(path, t);
    WentRightFacts(path, t);
  }

  lemma SortedAround(a: seq<Entry>, e: Entry, c: seq<Entry>)
    requires Sorted(a + [e] + c)
    ensures forall i | 0 <= i < |a| :: a[i].block < e.block
    ensures forall i | 0 <= i < |c| :: e.block < c[i].block
  {
    var all := a + [e] + c;
    assert all[|a|] == e;
    assert forall i | 0 <= i < |a| :: a[i] == all[i];
    assert forall i | 0 <= i < |c| :: c[i] == all[|a| + 1 + i];
  }

  /** The mapping of two lists one after the other: the second list wins. */
  lemma {:induction false} MapOfConcat(a: seq<Entry>, c: seq<Entry>)
    ensures MapOf(a + c) == MapOf(a) + MapOf(c)
  {
    if c == [] {
      assert a + c == a;
    } else {
      assert (a + c)[..|a + c| - 1] == a + c[..|c| - 1];
      MapOfConcat(a, c[..|c| - 1]);
    }
  }

  lemma MapOfSingle(e: Entry)
    ensures MapOf([e]) == map[e.block := e.sector]
  {
    assert [e][..0] == [];
  }

  lemma NotMapped(c: seq<Entry>, b: nat)
    requires forall i | 0 <= i < |c| :: c[i].block != b
    ensures b !in MapOf(c)
  {
    MapOfKeys(c);
  }

  /** Putting an entry between the smaller and the greater blocks, in place of an entry for the same block if there
      is one, changes the mapping in that one block. */
  lemma PutBetween(a: seq<Entry>, m: seq<Entry>, c: seq<Entry>, e: Entry)
    requires m == [] || (|m| == 1 && m[0].block == e.block)
    requires forall i | 0 <= i < |c| :: e.block < c[i].block
    ensures MapOf(a + [e] + c) == MapOf(a + m + c)[e.block := e.sector]
  {
    hide MapOf;
    NotMapped(c, e.block);
    MapOfConcat(a + [e], c);
    MapOfConcat(a, [e]);
    MapOfSingle(e);
    MapOfConcat(a + m, c);
    MapOfConcat(a, m);
    if m == [] {
      assert a + m == a;
    } else {
      MapOfSingle(m[0]);
      assert m == [m[0]];
    }
  }

  lemma SortedJoin(a: seq<Entry>, c: seq<Entry>, e: Entry)
    requires Sorted(a) && Sorted(c)
    requires forall i | 0 <= i < |a| :: a[i].block < e.block
    requires forall i | 0 <= i < |c| :: e.block < c[i].block
    ensures Sorted(a + [e] + c)
  {
    var all := a + [e] + c;
    forall i, j | 0 <= i < j < |all| ensures all[i].block < all[j].block {
      assert all[i] == if i < |a| then a[i] else if i == |a| then e else c[i - |a| - 1];
      assert all[j] == if j < |a| then a[j] else if j == |a| then e else c[j - |a| - 1];
    }
  }

  lemma SortedHalves(a: seq<Entry>, m: seq<Entry>, c: seq<Entry>)
    requires Sorted(a + m + c)
    ensures Sorted(a) && Sorted(c)
  {
    assert forall i | 0 <= i < |a| :: a[i] == (a + m + c)[i];
    assert forall i | 0 <= i < |c| :: c[i] == (a + m + c)[|a| + |m| + i];
  }

  /** A block enclosed by an empty subtree is not mapped. */
  lemma EnclosedLeaf(path: seq<Frame>, b: nat)
    requires Enclosed(path, b)
    ensures b !in MapOf(InOrder(Plug(path, Leaf)))
  {
    PlugInOrder(path, Leaf);
    MapOfKeys(Before(path) + After(path));
    assert InOrder(Plug(path, Leaf)) == Before(path) + After(path);
  }

  /** An entry that a descent stops at is the block's mapping. */
  lemma FoundEntry(path: seq<Frame>, t: Tree)
    requires t.Node? && Sorted(InOrder(Plug(path, t)))
    ensures var m := MapOf(InOrder(Plug(path, t))); t.entry.block in m && m[t.entry.block] == t.entry.sector
  {
    hide InOrder, Plug, Before, After, Sorted;
    SplitAt(path, t);
    var es := InOrder(Plug(path, t));
    MapOfSorted(es);
    assert es[|Before(path)| + |InOrder(t.left)|] == t.entry;
  }

  class MemTable {
    var root: Tree
    var nextSequence: nat
    var nrEntries: nat

    ghost predicate Valid()
      reads this
    {
      && Sorted(InOrder(root))
      && nrEntries == |InOrder(root)| < U32
      && (forall e | e in InOrder(root) :: e.block < U64 && e.sector < U64)
      && forall e | e in InOrder(root) :: e.sequence < nextSequence
    }

    function Entries(): seq<Entry>
      reads this
    {
      InOrder(root)
    }

    ghost function Contents(): G.Mapping
      reads this
    {
      MapOf(Entries())
    }

    /** memtable_init. */
    constructor ()
      ensures Valid() && Entries() == [] && Contents() == map[] && nextSequence == 1
    {
      root, nextSequence, nrEntries := Leaf, 1, 0;
    }

    /** memtable_lookup: a descent from the root. */
    method Lookup(b: nat) returns (r: Result<nat>)
      requires Valid()
      ensures r == if b in Contents() then Ok(Contents()[b]) else Err(NoData)
    {
      hide InOrder, Plug, MapOf, Enclosed, Sorted;
      ghost var path: seq<Frame> := [];
      var node := root;
      assert Enclosed([], b) && Plug([], root) == root by { EmptyPath(root, b); }
      while node.Node?
        invariant Enclosed(path, b) && Plug(path, node) == root
        decreases node
      {
        if b < node.entry.block {
          DescendEnclosed(path, node, b);
          path := path + [WentLeft(node.entry, node.right)];
          node := node.left;
        } else if b > node.entry.block {
          DescendEnclosed(path, node, b);
          path := path + [WentRight(node.left, node.entry)];
          node := node.right;
        } else {
          FoundEntry(path, node);
          return Ok(node.entry.sector);
        }
      }
      EnclosedLeaf(path, b);
      return Err(NoData);
    }

    /** memtable_put: allocate first, then descend; replace the entry found, or link a new one and rebalance.
        Memory runs out before a table has 2^32 entries, so the 32-bit entry count never wraps. */
    method Put(b: u64, p: u64) returns (r: Errno)
      requires Valid()
      modifies this
      ensures Valid()
      ensures r == Success ==> Contents() == old(Contents())[b := p] && nextSequence == old(nextSequence) + 1
      ensures r == Success ==>
                && Entry(b, p, old(nextSequence)) in Entries()
                && forall x | x in Entries() && x.block != b :: x in old(Entries())
      ensures r != Success ==> r == NoMem && unchanged(this)
    {
      var granted: bool := *;
      if !granted || nrEntries + 1 == U32 {
        return NoMem;
      }
      hide InOrder, Plug, MapOf, Enclosed, Sorted;
      var path: seq<Frame> := [];
      var node := root;
      assert Enclosed([], b) && Plug([], root) == root by { EmptyPath(root, b); }
      while node.Node?
        invariant Enclosed(path, b) && Plug(path, node) == root == old(root)
        invariant nextSequence == old(nextSequence) && nrEntries == old(nrEntries)
        decreases node
      {
        if b < node.entry.block {
          DescendEnclosed(path, node, b);
          path := path + [WentLeft(node.entry, node.right)];
          node := node.left;
        } else if b > node.entry.block {
          DescendEnclosed(path, node, b);
          path := path + [WentRight(node.left, node.entry)];
          node := node.right;
        } else {
          root := Plug(path, node.(entry := Entry(b, p, nextSequence)));
          ReplaceEntry(path, node, Entry(b, p, nextSequence));
          nextSequence := nextSequence + 1;
          return Success;
        }
      }
      root := Plug(path, Node(Leaf, Entry(b, p, nextSequence), Leaf));
      LinkEntry(path, Entry(b, p, nextSequence));
      root := Rebalance(root);
      nextSequence := nextSequence + 1;
      nrEntries := nrEntries + 1;
      return Success;
    }
  }

  lemma EmptyPath(t: Tree, b: nat)
    ensures Enclosed([], b) && Plug([], t) == t
  {
  }

  /** rb_insert_color: any restructuring that keeps the order of the entries. */
  method Rebalance(t: Tree) returns (u: Tree)
    ensures InOrder(u) == InOrder(t)
  {
    u := *;
    if InOrder(u) != InOrder(t) {
      u := t;
    }
  }

  lemma ReplaceEntry(path: seq<Frame>, t: Tree, e: Entry)
    requires t.Node? && t.entry.block == e.block && Sorted(InOrder(Plug(path, t)))
    ensures Updated(InOrder(Plug(path, t)), InOrder(Plug(path, t.(entry := e))), e)
    ensures |InOrder(Plug(path, t.(entry := e)))| == |InOrder(Plug(path, t))|
  {
    hide InOrder, Plug, Before, After, Sorted;
    SplitAt(path, t);
    SplitAt(path, t.(entry := e));
    PutInList(Before(path) + InOrder(t.left), [t.entry], InOrder(t.right) + After(path), e);
  }

  lemma LinkEntry(path: seq<Frame>, e: Entry)
    requires Enclosed(path, e.block) && Sorted(InOrder(Plug(path, Leaf)))
    ensures Updated(InOrder(Plug(path, Leaf)), InOrder(Plug(path, Node(Leaf, e, Leaf))), e)
    ensures |InOrder(Plug(path, Node(Leaf, e, Leaf)))| == |InOrder(Plug(path, Leaf))| + 1
  {
    PlugInOrder(path, Leaf);
    PlugInOrder(path, Node(Leaf, e, Leaf));
    var a, c := Before(path), After(path);
    assert InOrder(Plug(path, Leaf)) == a + [] + c;
    assert InOrder(Plug(path, Node(Leaf, e, Leaf))) == a + [e] + c;
    PutInList(a, [], c, e);
  }

  /** A sorted list with entry e put in its place. */
  predicate Updated(es: seq<Entry>, fs: seq<Entry>, e: Entry) {
    && Sorted(fs) && MapOf(fs) == MapOf(es)[e.block := e.sector]
    && e in fs && forall x | x in fs :: x == e || x in es
  }

  lemma PutInList(a: seq<Entry>, m: seq<Entry>, c: seq<Entry>, e: Entry)
    requires Sorted(a + m + c) && (m == [] || (|m| == 1 && m[0].block == e.block))
    requires m == [] ==>
              (forall i | 0 <= i < |a| :: a[i].block < e.block) && (forall i | 0 <= i < |c| :: e.block < c[i].block)
    ensures Updated(a + m + c, a + [e] + c, e)
  {
    if m != [] {
      assert m == [m[0]];
      SortedAround(a, m[0], c);
    }
    SortedHalves(a, m, c);
    SortedJoin(a, c, e);
    PutBetween(a, m, c, e);
  }

  /** A table's entries fit the on-disk format. */
  lemma ValidFits(t: MemTable)
    requires t.Valid()
    ensures Sorted(t.Entries()) && EntriesFit(t.Entries()) && |t.Entries()| < U32
  {
  }

  /** nr_entries is the number of distinct mapped blocks. */
  lemma SizeIsMapped(t: MemTable)
    requires t.Valid()
    ensures t.nrEntries == |t.Contents()|
  {
    MapOfSorted(t.Entries());
  }

  // ----- Compaction -----

  /** memtable_create: an allocation that may fail. */
  method Create() returns (t: MemTable?)
    ensures t != null ==> fresh(t) && t.Valid() && t.Contents() == map[] && t.Entries() == []
  {
    var granted: bool := *;
    if !granted {
      return null;
    }
    t := new MemTable();
  }

  /** memtable_compact_copy: put every entry of one table into another, in block order. */
  method CompactCopy(source: MemTable, destination: MemTable) returns (r: Errno)
    requires source.Valid() && destination.Valid() && source != destination
    modifies destination
    ensures destination.Valid()
    ensures r == Success ==> destination.Contents() == old(destination.Contents()) + source.Contents()
    ensures r == Success || r == NoMem
  {
    hide MapOf, InOrder, Sorted;
    var es := source.Entries();
    assert MapOf(es[..0]) == map[] by { EmptyMap(es[..0]); }
    for i := 0 to |es|
      invariant es == source.Entries() && destination.Valid()
      invariant destination.Contents() == old(destination.Contents()) + MapOf(es[..i])
    {
      r := destination.Put(es[i].block, es[i].sector);
      if r != Success {
        return r;
      }
      assert es[..i + 1][..i] == es[..i];
      MapOfStep(es[..i + 1]);
    }
    assert es[..|es|] == es;
    r := Success;
  }

  /** memtable_compact: a third table, in which the newer generation wins. Neither input changes. */
  method Compact(older: MemTable, newer: MemTable) returns (merged: MemTable?, made: bool)
    requires older.Valid() && newer.Valid()
    ensures merged != null ==>
              made && fresh(merged) && merged.Valid() && merged.Contents() == older.Contents() + newer.Contents()
  {
    hide MapOf, InOrder, Sorted;
    made := false;
    merged := Create();
    if merged == null {
      return;
    }
    made := true;
    var r := CompactCopy(older, merged);
    if r != Success {
      return null, made;
    }
    r := CompactCopy(newer, merged);
    if r != Success {
      return null, made;
    }
  }

  // ----- The slots -----

  /** Distinct live tables hold what the protocol's heap says. */
  ghost predicate Holds(live: map<nat, MemTable>, heap: map<nat, G.Mapping>)
    reads live.Values
  {
    && live.Keys == heap.Keys
    && (forall id | id in live :: live[id].Valid() && live[id].Contents() == heap[id])
    && (forall id, k | id in live && k in live && id != k :: live[id] != live[k])
  }

  lemma HoldsMore(live: map<nat, MemTable>, heap: map<nat, G.Mapping>, id: nat, t: MemTable)
    requires Holds(live, heap) && id !in live && t !in live.Values && t.Valid()
    ensures Holds(live[id := t], heap[id := t.Contents()])
  {
    hide InOrder, MapOf, Sorted, MemTable.Valid, MemTable.Contents;
  }

  lemma HoldsAt(live: map<nat, MemTable>, heap: map<nat, G.Mapping>, id: nat)
    requires Holds(live, heap) && id in live
    ensures id in heap && live[id].Valid() && live[id].Contents() == heap[id]
  {
    hide InOrder, MapOf, Sorted, MemTable.Valid, MemTable.Contents;
  }

  lemma InsertedHeap(t: G.Tables, b: nat, p: nat)
    requires t.active in t.heap
    ensures var m: G.Mapping := t.heap[t.active][b := p];
            G.Inserted(t, b, p).heap == t.heap[t.active := m] && G.Table(G.Inserted(t, b, p), t.active) == m
    ensures G.Inserted(t, b, p).active == t.active
    ensures G.Inserted(t, b, p).immutable == t.immutable && G.Inserted(t, b, p).flushing == t.flushing
  {
  }

  /** All tables but one hold what the protocol's heap says. */
  ghost predicate HoldsExcept(live: map<nat, MemTable>, heap: map<nat, G.Mapping>, id: nat)
    reads (live - {id}).Values
  {
    && live.Keys == heap.Keys
    && (forall k | k in live && k != id ::
          live[k] in (live - {id}).Values && live[k].Valid() && live[k].Contents() == heap[k])
    && (forall k, l | k in live && l in live && k != l :: live[k] != live[l])
  }

  lemma HoldsApart(live: map<nat, MemTable>, heap: map<nat, G.Mapping>, id: nat)
    requires Holds(live, heap) && id in live
    ensures HoldsExcept(live, heap, id) && live[id] !in (live - {id}).Values
  {
    hide InOrder, MapOf, Sorted, MemTable.Valid, MemTable.Contents;
    assert forall k | k in live && k != id :: k in live - {id} && (live - {id})[k] == live[k];
  }

  lemma HoldsAgain(live: map<nat, MemTable>, heap: map<nat, G.Mapping>, id: nat)
    requires HoldsExcept(live, heap, id) && id in live && live[id].Valid()
    ensures Holds(live, heap[id := live[id].Contents()])
  {
    hide InOrder, MapOf, Sorted, MemTable.Valid, MemTable.Contents;
  }

  lemma HoldsBack(live: map<nat, MemTable>, heap: map<nat, G.Mapping>, id: nat)
    requires HoldsExcept(live, heap, id) && id in live && live[id].Valid() && live[id].Contents() == heap[id]
    ensures Holds(live, heap)
  {
    hide InOrder, MapOf, Sorted, MemTable.Valid, MemTable.Contents;
  }

  lemma HoldsFewer(live: map<nat, MemTable>, heap: map<nat, G.Mapping>, ids: set<nat>)
    requires Holds(live, heap)
    ensures Holds(live - ids, heap - ids)
  {
    hide InOrder, MapOf, Sorted, MemTable.Valid, MemTable.Contents;
  }

  lemma HoldsReplaced(live: map<nat, MemTable>, heap: map<nat, G.Mapping>, gone: set<nat>, id: nat, t: MemTable,
                      u: MemTable)
    requires Holds(live, heap) && id !in live && id + 1 !in live && t != u
    requires t !in live.Values && u !in live.Values && t.Valid() && u.Valid()
    ensures Holds((live - gone)[id := t][id + 1 := u], (heap - gone)[id := t.Contents()][id + 1 := u.Contents()])
  {
    hide InOrder, MapOf, Sorted, MemTable.Valid, MemTable.Contents, Holds;
    HoldsFewer(live, heap, gone);
    HoldsMore(live - gone, heap - gone, id, t);
    HoldsMore((live - gone)[id := t], (heap - gone)[id := t.Contents()], id + 1, u);
  }

  /** A slot's name refers to the object in the slot. */
  ghost predicate Refers(live: map<nat, MemTable>, name: Option<nat>, table: MemTable?) {
    match name
    case None => table == null
    case Some(id) => id in live && live[id] == table
  }

  lemma RefersMore(live: map<nat, MemTable>, id: nat, t: MemTable, name: nat, table: MemTable, other: Option<nat>,
                   slot: MemTable?)
    requires Refers(live, Some(name), table) && Refers(live, other, slot) && id !in live
    ensures var live' := live[id := t];
            && Refers(live', Some(id), t) && Refers(live', Some(name), table) && Refers(live', other, slot)
            && live'.Values <= live.Values + {t}
  {
  }

  lemma RefersReplaced(live: map<nat, MemTable>, gone: set<nat>, id: nat, t: MemTable, u: MemTable, name: Option<nat>,
                       table: MemTable?)
    requires Refers(live, name, table) && (name.Some? ==> name.value !in gone) && id !in live && id + 1 !in live
    ensures var live' := (live - gone)[id := t][id + 1 := u];
            && Refers(live', Some(id), t) && Refers(live', Some(id + 1), u) && Refers(live', name, table)
            && live'.Values <= live.Values + {t, u}
  {
  }

  lemma UnusedNames(t: G.Tables, detached: Option<nat>)
    requires G.MemoryOk(t, detached)
    ensures t.created !in t.heap && t.created + 1 !in t.heap && G.Distinct(t, detached)
  {
  }

  lemma FreezeValue(u: G.Tables)
    requires u.immutable.None?
    ensures G.Maintain(u, G.NO_FAULT) ==
            u.(heap := u.heap[u.created := map[]], immutable := Some(u.active), active := u.created,
               created := u.created + 1)
  {
  }

  lemma ReplaceValue(u: G.Tables)
    requires u.immutable.Some? && u.active in u.heap && u.immutable.value in u.heap
    ensures var v := G.Maintain(u, G.NO_FAULT); var c := u.created;
            && v.heap == (u.heap - {u.active, u.immutable.value})
                         [c := u.heap[u.immutable.value] + u.heap[u.active]][c + 1 := map[]]
            && v.immutable == Some(c) && v.active == c + 1 && v.flushing == u.flushing
  {
  }

  /** What an insertion makes of the two younger generations: the active table, grown by one entry, stays as long as it
      is below the threshold or an allocation failed; else it is emptied, and what it held overrides what waited. */
  ghost predicate Maintained(threshold: nat, f: G.PutFaults, grown: G.Mapping, waiting0: G.Mapping, active: G.Mapping,
                             waiting: G.Mapping) {
    if |grown| < threshold || f != G.NO_FAULT then active == grown && waiting == waiting0
    else active == map[] && waiting == waiting0 + grown
  }

  /** The MemTable slots of the engine. Ghost names identify the live tables, so that what the methods do to the
      objects can be compared with what the protocol does to its values; a table is detached between its removal from
      the flushing slot and its release. */
  class Slots {
    var active: MemTable
    var immutable: MemTable?
    var flushing: MemTable?
    ghost var live: map<nat, MemTable>
    ghost var names: G.Tables
    ghost var detached: Option<nat>

    /** The slots after attach: one empty active table. */
    constructor (first: MemTable)
      requires first.Valid() && first.Contents() == map[]
      ensures Valid() && active == first && immutable == null && flushing == null
      ensures names == G.FirstTables() && detached.None? && live.Values == {first}
    {
      active, immutable, flushing := first, null, null;
      live, names, detached := map[0 := first], G.FirstTables(), None;
      new;
      G.FirstTablesFacts();
      hide MapOf, InOrder, Sorted, G.MemoryOk, MemTable.Valid, MemTable.Contents;
    }

    ghost predicate Valid()
      reads this, live.Values
    {
      && Holds(live, names.heap)
      && Refers(live, Some(names.active), active) && Refers(live, names.immutable, immutable)
      && Refers(live, names.flushing, flushing)
      && G.MemoryOk(names, detached)
    }

    /** zns_lsm_lookup_memtables, under table_lock: the newest generation that maps the block decides. */
    method Lookup(b: nat) returns (r: Result<nat>)
      requires Valid()
      ensures r == if b in G.TablesView(names) then Ok(G.TablesView(names)[b]) else Err(NoData)
    {
      hide MapOf, InOrder, Sorted, G.MemoryOk, MemTable.Valid, MemTable.Contents;
      r := active.Lookup(b);
      if r == Err(NoData) && immutable != null {
        r := immutable.Lookup(b);
      }
      if r == Err(NoData) && flushing != null {
        r := flushing.Lookup(b);
      }
    }

    /** memtable_freeze_prepared: the active table becomes immutable, a new empty one active. It is refused for want of
        a new table, and while an immutable table still waits. */
    method Freeze(next: MemTable?) returns (r: Errno)
      requires Valid() && (next != null ==> next.Valid() && next.Contents() == map[] && next !in live.Values)
      modifies this
      ensures Valid() && detached == old(detached) && flushing == old(flushing)
      ensures r == if next == null then NoMem else if old(immutable) != null then Busy else Success
      ensures r == Success ==>
                && names == G.Maintain(old(names), G.NO_FAULT) && immutable == old(active) && active == next
                && live.Values <= old(live.Values) + {next}
      ensures r != Success ==> unchanged(this)
    {
      hide Valid, G.Maintain, MemTable.Valid, MemTable.Contents;
      if next == null {
        return NoMem;
      }
      if immutable != null {
        return Busy;
      }
      MakeImmutable(next);
      return Success;
    }

    /** The exchange of pointers in memtable_freeze_prepared. */
    method MakeImmutable(next: MemTable)
      requires Valid() && immutable == null && next.Valid() && next.Contents() == map[] && next !in live.Values
      modifies this
      ensures Valid() && names == G.Maintain(old(names), G.NO_FAULT) && detached == old(detached)
      ensures immutable == old(active) && active == next && flushing == old(flushing)
      ensures live.Values <= old(live.Values) + {next}
    {
      hide MapOf, InOrder, Sorted, G.MemoryOk, G.Maintain, MemTable.Valid, MemTable.Contents;
      UnusedNames(names, detached);
      FreezeValue(names);
      G.MaintainMemory(names, G.NO_FAULT, detached);
      HoldsMore(live, names.heap, names.created, next);
      RefersMore(live, names.created, next, names.active, active, names.flushing, flushing);
      hide Holds, Refers;
      ghost var names' := G.Maintain(names, G.NO_FAULT);
      assert names'.heap == names.heap[names.created := next.Contents()];
      live := live[names.created := next];
      names := names';
      immutable, active := active, next;
    }

    /** The replacement of both generations by a compacted one and a new active one. */
    method Replace(merged: MemTable, next: MemTable)
      requires Valid() && immutable != null && merged.Valid() && next.Valid() && merged != next
      requires merged.Contents() == immutable.Contents() + active.Contents() && next.Contents() == map[]
      requires merged !in live.Values && next !in live.Values
      modifies this
      ensures Valid() && names == G.Maintain(old(names), G.NO_FAULT)
      ensures immutable == merged && active == next && flushing == old(flushing) && detached == old(detached)
      ensures live.Values <= old(live.Values) + {merged, next}
    {
      hide MapOf, InOrder, Sorted, G.MemoryOk, G.Maintain, MemTable.Valid, MemTable.Contents;
      UnusedNames(names, detached);
      ReplaceValue(names);
      HoldsAt(live, names.heap, names.active);
      HoldsAt(live, names.heap, names.immutable.value);
      G.MaintainMemory(names, G.NO_FAULT, detached);
      ghost var gone, c := {names.active, names.immutable.value}, names.created;
      HoldsReplaced(live, names.heap, gone, c, merged, next);
      RefersReplaced(live, gone, c, merged, next, names.flushing, flushing);
      hide Holds, Refers;
      ghost var live' := (live - gone)[c := merged][c + 1 := next];
      ghost var names' := G.Maintain(names, G.NO_FAULT);
      assert names'.heap == (names.heap - gone)[c := merged.Contents()][c + 1 := next.Contents()];
      live, names := live', names';
      immutable, active := merged, next;
    }

    /** The tables in the slots are live tables. */
    lemma SlotTables()
      requires Valid()
      ensures active.Valid() && active in live.Values && (immutable == null <==> names.immutable.None?)
      ensures immutable != null ==> immutable.Valid() && immutable in live.Values
      ensures flushing == null <==> names.flushing.None?
      ensures flushing != null ==>
                && names.flushing.value in names.heap && flushing.Valid() && flushing in live.Values
                && flushing.Contents() == names.heap[names.flushing.value]
    {
      hide MapOf, InOrder, Sorted, G.MemoryOk, MemTable.Valid, MemTable.Contents;
    }

    /** What the tables in the slots hold is what the names stand for. */
    lemma SlotContents()
      requires Valid()
      ensures active.Contents() == G.Table(names, names.active)
      ensures if immutable == null then G.Contents(names, names.immutable) == map[]
              else immutable.Valid() && immutable.Contents() == G.Contents(names, names.immutable)
      ensures if flushing == null then G.Contents(names, names.flushing) == map[]
              else flushing.Valid() && flushing.Contents() == G.Contents(names, names.flushing)
      ensures active.Valid()
    {
      hide MapOf, InOrder, Sorted, G.MemoryOk, MemTable.Valid, MemTable.Contents;
    }

    /** The maintenance part of memtable_put_active. A failed allocation leaves the slots as they were. */
    method Maintain() returns (f: G.PutFaults)
      requires Valid()
      modifies this
      ensures Valid() && !f.entry && names == G.Maintain(old(names), f) && detached == old(detached)
      ensures fresh(live.Values - old(live.Values)) && flushing == old(flushing)
      ensures f != G.NO_FAULT ==> G.GivesUp(old(names), f)
    {
      hide Valid, MapOf, InOrder, Sorted, G.MemoryOk, G.Maintain, MemTable.Valid, MemTable.Contents;
      SlotTables();
      f := G.NO_FAULT;
      if immutable == null {
        var next := Create();
        var frozen := Freeze(next);
        if frozen != Success {
          f := G.NO_FAULT.(freshTable := true);
          GivenUp(f);
        }
        return;
      }
      var merged, made := Compact(immutable, active);
      if merged == null {
        f := G.PutFaults(false, !made, made, false);
        GivenUp(f);
        return;
      }
      var next := Create();
      if next != null {
        Replace(merged, next);
      } else {
        f := G.NO_FAULT.(freshTable := true);
        GivenUp(f);
      }
    }

    /** Maintenance abandoned for want of memory: only the record of tables made and released changes. */
    ghost method GivenUp(f: G.PutFaults)
      requires Valid() && !f.entry
      requires if immutable == null then f.freshTable else f.mergedTable || f.mergedEntry || f.freshTable
      modifies this`names
      ensures Valid() && names == G.Maintain(old(names), f)
    {
      hide MapOf, InOrder, Sorted, G.MemoryOk, MemTable.Valid, MemTable.Contents;
      G.MaintainMemory(names, f, detached);
      names := G.Maintain(names, f);
    }

    /** memtable_put into the active table. */
    method PutIntoActive(b: u64, p: u64) returns (r: Errno)
      requires Valid()
      modifies this`names, active
      ensures Valid() && (r == Success || r == NoMem)
      ensures names == if r == Success then G.Inserted(old(names), b, p) else old(names)
      ensures r == Success ==> active.nrEntries == |G.Table(names, names.active)|
    {
      hide MapOf, InOrder, Sorted, G.MemoryOk, MemTable.Valid, MemTable.Contents, HoldsExcept, G.TablesView, G.Inserted,
           G.Table;
      HoldsApart(live, names.heap, names.active);
      HoldsAt(live, names.heap, names.active);
      hide Holds;
      r := active.Put(b, p);
      if r == Success {
        G.InsertedFacts(names, b, p, detached);
        InsertedHeap(names, b, p);
        HoldsAgain(live, names.heap, names.active);
        SizeIsMapped(active);
        names := G.Inserted(names, b, p);
      } else {
        HoldsBack(live, names.heap, names.active);
      }
    }

    /** What the immutable table holds. */
    ghost function Waiting(): G.Mapping
      reads this, immutable
    {
      if immutable == null then map[] else immutable.Contents()
    }

    /** memtable_put_active: the tables do exactly what the protocol's PutActive does to their values. Without failed
        allocations a table that reaches the threshold becomes, or joins, the immutable one, and an empty table takes
        its place; with one, nothing but the insertion happens, if at all. */
    method PutActive(threshold: nat, b: u64, p: u64) returns (r: Errno, f: G.PutFaults)
      requires Valid() && 0 < threshold
      modifies this, active
      ensures Valid() && (names, r) == G.PutActive(old(names), threshold, b, p, f)
      ensures detached == old(detached) && fresh(live.Values - old(live.Values)) && flushing == old(flushing)
      ensures (r == Success <==> !f.entry) && (r != Success ==> names == old(names))
      ensures r == Success && f != G.NO_FAULT ==> G.GivesUp(old(names), f)
      ensures r == Success ==>
                Maintained(threshold, f, old(active.Contents())[b := p], old(Waiting()), active.Contents(), Waiting())
    {
      hide Valid, G.PutActive, G.Inserted, G.Maintain, G.Table, G.Contents, G.MemoryOk, MemTable.Contents;
      SlotContents();
      ghost var t, held := names, Waiting();
      assert held == G.Contents(t, t.immutable);
      MemoryFacts();
      f := G.NO_FAULT;
      r := PutIntoActive(b, p);
      if r != Success {
        f := f.(entry := true);
      } else if active.nrEntries >= threshold {
        f := Maintain();
      }
      G.PutActiveIs(t, threshold, b, p, f);
      SlotContents();
      assert Waiting() == G.Contents(names, names.immutable);
      if r == Success {
        G.PutActiveFills(t, threshold, b, p, f, detached);
      }
    }

    lemma MemoryFacts()
      requires Valid()
      ensures G.MemoryOk(names, detached)
    {
    }

    /** zns_lsm_claim_flush_victim: a table parked by a failed flush comes first, else the immutable one moves over. */
    method Claim() returns (victim: MemTable?)
      requires Valid() && detached.None?
      modifies this
      ensures Valid() && detached.None? && names == G.Claim(old(names)) && live == old(live)
      ensures victim == flushing && (victim == null <==> names.flushing.None?)
    {
      hide MapOf, InOrder, Sorted, G.MemoryOk, Holds;
      G.ClaimFacts(names);
      names := G.Claim(names);
      if flushing == null {
        flushing, immutable := immutable, null;
      }
      victim := flushing;
    }

    /** The part of zns_lsm_release_flush_victim under table_lock. */
    method ClearFlushing()
      requires Valid() && detached.None? && flushing != null
      modifies this
      ensures Valid() && names == G.ClearFlushing(old(names)) && detached == old(names.flushing) && live == old(live)
    {
      hide MapOf, InOrder, Sorted, G.MemoryOk, Holds;
      G.ClearFlushingFacts(names, names.flushing.value);
      detached := names.flushing;
      names := G.ClearFlushing(names);
      flushing := null;
    }

    /** memtable_free of the table that left the flushing slot. */
    ghost method Release()
      requires Valid() && detached.Some?
      modifies this
      ensures Valid() && names == G.Free(old(names), old(detached).value) && detached.None?
      ensures live.Values <= old(live.Values)
    {
      hide MapOf, InOrder, Sorted, G.MemoryOk, MemTable.Valid, MemTable.Contents;
      var v := detached.value;
      G.FreeFacts(names, v);
      HoldsFewer(live, names.heap, {v});
      UnusedNames(names, detached);
      live, names, detached := live - {v}, G.Free(names, v), None;
    }
  }
}
