/** How the memory manager's blocks are laid out at the start: each data part is cut, from its beginning,
    into powers of two, each the largest that still fits. */
module MmSetup {
  import opened Limits
  import opened Bits
  import opened UsableMemory
  import opened Handover
  import opened MmBlocks
  import opened MmLists
  import opened MmState

  /** The base-two logarithm, rounded down. */
  function Log2From(n: nat, k: nat): (r: nat)
    requires Pow2(k) <= n
    ensures k <= r && Pow2(r) <= n < Pow2(r + 1)
    decreases n - Pow2(k)
  {
    if n < Pow2(k + 1) then k else Log2From(n, k + 1)
  }

  function Log2(n: nat): (r: nat)
    requires n >= 1
    ensures Pow2(r) <= n < Pow2(r + 1)
  {
    Log2From(n, 0)
  }

  lemma {:induction false} Log2Unique(n: nat, r: nat)
    requires n >= 1 && Pow2(r) <= n < Pow2(r + 1)
    ensures r == Log2(n)
  {
    var q := Log2(n);
    if r < q {
      PowMonotone(r + 1, q);
    } else if q < r {
      PowMonotone(q + 1, r);
    }
  }

  /** The levels of the blocks, in order. */
  function Pieces(space: nat): seq<nat>
  {
    if space < PAGE_SIZE then [] else [Log2(space)] + Pieces(space - Pow2(Log2(space)))
  }

  function Sum(levels: seq<nat>): nat {
    if levels == [] then 0 else Pow2(levels[0]) + Sum(levels[1..])
  }

  lemma LevelOfSpace(space: nat)
    requires PAGE_SIZE <= space < LIMIT_64
    ensures MIN_LEVEL <= Log2(space) <= MAX_LEVEL
  {
    PageSizes();
    HalfSize(64);
    if Log2(space) < MIN_LEVEL {
      PowMonotone(Log2(space) + 1, MIN_LEVEL);
    } else if Log2(space) > MAX_LEVEL {
      PowMonotone(64, Log2(space));
    }
  }

  /** The blocks get strictly smaller, and fill whole pages of space exactly. */
  lemma {:induction false} PiecesDecrease(space: nat)
    requires space < LIMIT_64 && space % PAGE_SIZE == 0
    ensures Sum(Pieces(space)) == space
    ensures forall i, j | 0 <= i < j < |Pieces(space)| :: Pieces(space)[j] < Pieces(space)[i]
    ensures forall i | 0 <= i < |Pieces(space)| :: MIN_LEVEL <= Pieces(space)[i] <= MAX_LEVEL
    ensures forall i | 0 <= i < |Pieces(space)| :: Pow2(Pieces(space)[i]) <= space
    decreases space
  {
    if space >= PAGE_SIZE {
      var k := Log2(space);
      var rest := space - Pow2(k);
      LevelOfSpace(space);
      PowPages(k);
      WholeRest(space, Pow2(k));
      PiecesDecrease(rest);
      assert Pieces(space)[1..] == Pieces(rest);
      forall j | 0 <= j < |Pieces(rest)|
        ensures Pieces(rest)[j] < k
      {
        SmallerLevel(Pieces(rest)[j], k, rest);
      }
    }
  }

  lemma WholeRest(a: nat, b: nat)
    requires a % PAGE_SIZE == 0 && b % PAGE_SIZE == 0 && b <= a
    ensures (a - b) % PAGE_SIZE == 0
  {
    DivModUnique(a - b, PAGE_SIZE, a / PAGE_SIZE - b / PAGE_SIZE, 0);
  }

  lemma SmallerLevel(j: nat, k: nat, rest: nat)
    requires Pow2(j) <= rest < Pow2(k)
    ensures j < k
  {
    if k <= j {
      PowMonotone(k, j);
    }
  }

  // Laying out the blocks

  /** Entries before n are covered; of entry n, the part below `top`; and nothing lies above. */
  ghost predicate Laid(u: seq<Entry>, all: set<Block>, n: nat, top: nat) {
    && n <= |u| && Apart(all) && (forall b | b in all :: InSomeData(u, b))
    && (forall i | 0 <= i < n :: Covered(all, DataStart(u[i]), u[i].End()))
    && (n < |u| ==> Covered(all, DataStart(u[n]), top) && forall b | b in all :: b.End() <= top)
  }

  lemma CoveredMore(all: set<Block>, from: nat, to: nat, b: Block)
    requires Covered(all, from, to) && b.start <= to
    ensures Covered(all + {b}, from, b.End())
    ensures Covered(all + {b}, from, to)
  {
    hide Pow2;
    forall a: nat | from <= a < to || from <= a < b.End()
      ensures Held(all + {b}, a)
    {
      if a < to {
        assert Held(all, a);
        var c :| c in all && c.Holds(a);
        assert c in all + {b};
      } else {
        assert b in all + {b} && b.Holds(a);
      }
    }
  }

  lemma LayBlock(u: seq<Entry>, all: set<Block>, n: nat, top: nat, b: Block)
    requires Laid(u, all, n, top) && n < |u| && InData(u[n], b) && b.start == top
    ensures Laid(u, all + {b}, n, b.End()) && b !in all
  {
    hide Pow2, InData, DataStart;
    assert InSomeData(u, b);
    forall c | c in all
      ensures Disjoint(b, c) && Disjoint(c, b)
    {
    }
    hide Held;
    forall i | 0 <= i < n
      ensures Covered(all + {b}, DataStart(u[i]), u[i].End())
    {
      CoveredAlso(all, DataStart(u[i]), u[i].End(), b);
    }
    CoveredMore(all, DataStart(u[n]), top, b);
  }

  lemma CoveredAlso(all: set<Block>, from: nat, to: nat, b: Block)
    requires Covered(all, from, to)
    ensures Covered(all + {b}, from, to)
  {
    forall a: nat | from <= a < to
      ensures Held(all + {b}, a)
    {
      assert Held(all, a);
      var c :| c in all && c.Holds(a);
      assert c in all + {b};
    }
  }

  lemma NextEntry(u: seq<Entry>, all: set<Block>, n: nat)
    requires KernelMap(u) && n < |u| && Laid(u, all, n, u[n].End())
    ensures Laid(u, all, n + 1, if n + 1 < |u| then u[n + 1].base else 0)
  {
    hide Pow2, Held, InData;
    if n + 1 < |u| {
      EntriesApart(u, n, n + 1);
    }
  }

  lemma LaidIsTiled(u: seq<Entry>, all: set<Block>)
    requires Laid(u, all, |u|, 0)
    ensures Tiled(u, all)
  {
    hide Held, InData;
  }

  // The lists while they are being set up

  /** Descriptor memory, without what is left in it from before. */
  function Live(nodes: Nodes, free: map<nat, Block>): Nodes {
    map a | a in nodes && a in free :: nodes[a]
  }

  /** What is left from before lies in the reserved parts of entries from n on. */
  ghost predicate GarbageFrom(u: seq<Entry>, nodes: Nodes, free: map<nat, Block>, n: nat) {
    forall a | a in nodes && a !in free :: exists j :: n <= j < |u| && u[j].base <= a < DataStart(u[j])
  }

  function Cleared(nodes: Nodes, from: nat, to: nat): Nodes {
    map a | a in nodes && !(from <= a < to) :: nodes[a]
  }

  /** The state while entry n is being filled. */
  ghost predicate SettingUp(u: seq<Entry>, nodes: Nodes, heads: seq<nat>, pos: seq<nat>, lists: seq<seq<nat>>,
                            free: map<nat, Block>, all: set<Block>, n: nat, top: nat, clean: nat)
  {
    && KernelMap(u) && Laid(u, all, n, top) && Described(u, free, all) && free.Values == all
    && Lists(Live(nodes, free), heads, pos, lists, free) && GarbageFrom(u, nodes, free, clean)
  }

  lemma DescriptorIsBelow(u: seq<Entry>, b: Block, a: nat)
    requires KernelMap(u) && DescribedBy(u, b, a)
    ensures a < b.start
  {
    var i :| 0 <= i < |u| && InData(u[i], b) && a == Slot(u[i], b.start);
    SlotInReserved(u[i], b);
  }

  lemma NodesBelow(u: seq<Entry>, free: map<nat, Block>, all: set<Block>, n: nat, top: nat)
    requires KernelMap(u) && n < |u| && Laid(u, all, n, top) && Described(u, free, all)
    ensures forall a | a in free :: a < top
  {
    hide Pow2, InSomeData, Covered, DescribedBy, DataStart, KernelMap, Apart;
    forall a | a in free
      ensures a < top
    {
      DescriptorIsBelow(u, free[a], a);
      assert free[a] in all;
    }
  }

  lemma ClearedGarbage(u: seq<Entry>, nodes: Nodes, free: map<nat, Block>, n: nat)
    requires n < |u| && GarbageFrom(u, nodes, free, n) && forall a | a in free :: a < u[n].base
    ensures var nodes' := Cleared(nodes, u[n].base, DataStart(u[n]));
      Live(nodes', free) == Live(nodes, free) && GarbageFrom(u, nodes', free, n + 1)
  {
    var nodes' := Cleared(nodes, u[n].base, DataStart(u[n]));
    hide DataStart;
    forall a | a in nodes' && a !in free
      ensures exists j :: n + 1 <= j < |u| && u[j].base <= a < DataStart(u[j])
    {
      var j :| n <= j < |u| && u[j].base <= a < DataStart(u[j]);
      assert j != n;
    }
    assert Live(nodes', free) == Live(nodes, free);
  }

  /** Clearing the reserved part of an entry removes what was left in it, and no node. */
  lemma ClearEntry(u: seq<Entry>, nodes: Nodes, heads: seq<nat>, pos: seq<nat>, lists: seq<seq<nat>>,
                   free: map<nat, Block>, all: set<Block>, n: nat)
    requires n < |u| && SettingUp(u, nodes, heads, pos, lists, free, all, n, u[n].base, n)
    ensures SettingUp(u, Cleared(nodes, u[n].base, DataStart(u[n])), heads, pos, lists, free, all, n, u[n].base, n + 1)
  {
    hide Lists, KernelMap, Laid, Described, GarbageFrom, Live, Cleared;
    NodesBelow(u, free, all, n, u[n].base);
    ClearedGarbage(u, nodes, free, n);
  }

  lemma ToDataStart(u: seq<Entry>, nodes: Nodes, heads: seq<nat>, pos: seq<nat>, lists: seq<seq<nat>>,
                    free: map<nat, Block>, all: set<Block>, n: nat)
    requires n < |u| && SettingUp(u, nodes, heads, pos, lists, free, all, n, u[n].base, n + 1)
    ensures SettingUp(u, nodes, heads, pos, lists, free, all, n, DataStart(u[n]), n + 1)
  {
    hide Lists, Pow2, InSomeData, Held, DescribedBy, KernelMap, GarbageFrom;
  }

  /** The node of the next block is linked in at the end of the position list. */
  lemma PushSettingUp(u: seq<Entry>, nodes: Nodes, heads: seq<nat>, pos: seq<nat>, lists: seq<seq<nat>>,
                      free: map<nat, Block>, all: set<Block>, n: nat, top: nat, b: Block, a: nat)
    requires n < |u| && SettingUp(u, nodes, heads, pos, lists, free, all, n, top, n + 1)
    requires InData(u[n], b) && b.start == top && a == Slot(u[n], top)
    ensures |heads| == |lists| == LEVELS && b.level < LEVELS && a !in nodes && a != 0
    ensures 0 !in nodes && (Top(pos) == 0 || Top(pos) in nodes) && (heads[b.level] == 0 || heads[b.level] in nodes)
    ensures SettingUp(u, Pushed(nodes, a, b.start, Top(pos), 0, heads[b.level]), heads[b.level := a],
      pos + [a], lists[b.level := lists[b.level] + [a]], free[a := b], all + {b}, n, b.End(), n + 1)
  {
    hide Pow2, InSomeData, Covered, DataStart, KernelMap, Laid, Lists, Pushed, InData, Slot, Live, GarbageFrom, Top;
    assert DescribedBy(u, b, a);
    hide DescribedBy;
    DescriptorIsPositive(u, b, a);
    NewSlot(u, free, all, n, top, b, a);
    ListSizes(Live(nodes, free), heads, pos, lists, free);
    NotGarbage(u, nodes, free, n, b, a);
    NoNodeAtZero(u, Live(nodes, free), heads, pos, lists, free, nodes, n + 1);
    LayBlock(u, all, n, top, b);
    ValuesAdd(free, a, b);
    LiveLinks(nodes, heads, pos, lists, free, b.level);
    PushAtEnd(Live(nodes, free), heads, pos, lists, free, a, b);
    LivePushed(nodes, heads, pos, lists, free, a, b);
    GarbageKept(u, nodes, heads, pos, lists, free, a, b, n + 1);
  }

  lemma NoNodeAtZero(u: seq<Entry>, live: Nodes, heads: seq<nat>, pos: seq<nat>, lists: seq<seq<nat>>,
                     free: map<nat, Block>, nodes: Nodes, n: nat)
    requires KernelMap(u) && Lists(live, heads, pos, lists, free) && GarbageFrom(u, nodes, free, n)
    ensures 0 !in nodes
  {
    HeadIsNode(live, heads, pos, lists, free, 0);
    hide Lists, DataStart;
  }

  lemma LiveLinks(nodes: Nodes, heads: seq<nat>, pos: seq<nat>, lists: seq<seq<nat>>, free: map<nat, Block>, l: nat)
    requires Lists(Live(nodes, free), heads, pos, lists, free) && l < LEVELS && |heads| == LEVELS
    ensures Top(pos) == 0 || Top(pos) in nodes
    ensures heads[l] == 0 || heads[l] in nodes
  {
    HeadIsNode(Live(nodes, free), heads, pos, lists, free, l);
    TopIsNode(pos, free);
    hide Lists;
  }

  lemma PushAtEnd(nodes: Nodes, heads: seq<nat>, pos: seq<nat>, lists: seq<seq<nat>>, free: map<nat, Block>,
                  a: nat, b: Block)
    requires Lists(nodes, heads, pos, lists, free) && a !in free && a != 0 && b.start != 0 && b.level < LEVELS
    requires |heads| == |lists| == LEVELS && forall x | x in free :: free[x].start < b.start
    ensures Lists(Pushed(nodes, a, b.start, Top(pos), 0, heads[b.level]), heads[b.level := a],
      pos + [a], lists[b.level := lists[b.level] + [a]], free[a := b])
  {
    hide Lists, Pushed, Inserted;
    HeadIsNode(nodes, heads, pos, lists, free, 0);
    InsertedAtEnd(pos, a);
    PushLists(nodes, heads, pos, lists, free, |pos|, a, b);
  }

  lemma InsertedAtEnd(pos: seq<nat>, a: nat)
    ensures Inserted(pos, |pos|, a) == pos + [a]
    ensures Before(pos, |pos|) == Top(pos) && After(pos, |pos|) == 0
  {
  }

  lemma NewSlot(u: seq<Entry>, free: map<nat, Block>, all: set<Block>, n: nat, top: nat, b: Block, a: nat)
    requires KernelMap(u) && n < |u| && Laid(u, all, n, top) && Described(u, free, all)
    requires DescribedBy(u, b, a) && b.start == top
    ensures a !in free && forall x | x in free :: free[x].start < b.start
  {
    hide Pow2, InSomeData, Covered, DescribedBy, KernelMap, Apart;
    forall x | x in free
      ensures x != a && free[x].start < b.start
    {
      assert free[x] in all;
      SlotOrder(u, free[x], b, x, a);
    }
  }

  lemma NotGarbage(u: seq<Entry>, nodes: Nodes, free: map<nat, Block>, n: nat, b: Block, a: nat)
    requires KernelMap(u) && n < |u| && GarbageFrom(u, nodes, free, n + 1) && a !in free
    requires InData(u[n], b) && a == Slot(u[n], b.start)
    ensures a !in nodes
  {
    SlotInReserved(u[n], b);
    ReservedPart(u[n]);
    if a in nodes {
      var j :| n + 1 <= j < |u| && u[j].base <= a < DataStart(u[j]);
      EntriesApart(u, n, j);
    }
  }

  lemma LivePushed(nodes: Nodes, heads: seq<nat>, pos: seq<nat>, lists: seq<seq<nat>>, free: map<nat, Block>,
                   a: nat, b: Block)
    requires Lists(Live(nodes, free), heads, pos, lists, free) && b.level < LEVELS && |heads| == LEVELS
    requires a !in nodes && a !in free && a != 0 && 0 !in nodes
    ensures Live(Pushed(nodes, a, b.start, Top(pos), 0, heads[b.level]), free[a := b])
      == Pushed(Live(nodes, free), a, b.start, Top(pos), 0, heads[b.level])
    ensures Pushed(nodes, a, b.start, Top(pos), 0, heads[b.level]).Keys == nodes.Keys + {a}
  {
    var live, head := Live(nodes, free), heads[b.level];
    HeadIsNode(live, heads, pos, lists, free, b.level);
    TopIsNode(pos, free);
    hide Lists, Pushed, Top;
    assert live.Keys == free.Keys;
    SameFields(nodes, live, free, a, b, Pushed(nodes, a, b.start, Top(pos), 0, head),
               Pushed(live, a, b.start, Top(pos), 0, head), Top(pos), head);
  }

  lemma TopIsNode(pos: seq<nat>, free: map<nat, Block>)
    requires forall i | 0 <= i < |pos| :: pos[i] in free
    ensures Top(pos) == 0 || Top(pos) in free
  {
  }

  lemma SameFields(nodes: Nodes, live: Nodes, free: map<nat, Block>, a: nat, b: Block, nodes': Nodes, live': Nodes,
                   prev: nat, head: nat)
    requires live == Live(nodes, free) && live.Keys == free.Keys && a !in free
    requires LinkedIn(nodes, nodes', a, b.start, prev, 0, head) && LinkedIn(live, live', a, b.start, prev, 0, head)
    ensures Live(nodes', free[a := b]) == live'
  {
    forall x | x in live'
      ensures x in nodes' && nodes'[x] == live'[x]
    {
    }
  }

  lemma GarbageKept(u: seq<Entry>, nodes: Nodes, heads: seq<nat>, pos: seq<nat>, lists: seq<seq<nat>>,
                    free: map<nat, Block>, a: nat, b: Block, n: nat)
    requires GarbageFrom(u, nodes, free, n) && b.level < |heads|
    requires Pushed(nodes, a, b.start, Top(pos), 0, heads[b.level]).Keys == nodes.Keys + {a}
    ensures GarbageFrom(u, Pushed(nodes, a, b.start, Top(pos), 0, heads[b.level]), free[a := b], n)
  {
    hide Pushed, DataStart;
  }

  /** When all entries are done, everything is in place, and everything is free. */
  lemma SetupDone(u: seq<Entry>, nodes: Nodes, heads: seq<nat>, pos: seq<nat>, lists: seq<seq<nat>>,
                  free: map<nat, Block>, all: set<Block>)
    requires SettingUp(u, nodes, heads, pos, lists, free, all, |u|, 0, |u|)
    ensures Consistent(u, nodes, heads, pos, lists, free, all)
  {
    hide KernelMap, Laid, Tiled, Described, Lists, DataStart;
    LaidIsTiled(u, all);
    ListKeys(Live(nodes, free), heads, pos, lists, free);
    assert Live(nodes, free) == nodes;
  }

  lemma ListKeys(nodes: Nodes, heads: seq<nat>, pos: seq<nat>, lists: seq<seq<nat>>, free: map<nat, Block>)
    requires Lists(nodes, heads, pos, lists, free)
    ensures nodes.Keys == free.Keys
  {
  }

  // Which blocks there are at the start

  /** Blocks of the given levels, one after the other. */
  function Row(start: nat, levels: seq<nat>): set<Block>
    decreases levels
  {
    if levels == [] then {} else {Block(start, levels[0])} + Row(start + Pow2(levels[0]), levels[1..])
  }

  function DataSpace(e: Entry): nat
  {
    if Reserved(e) <= e.limit then e.limit - Reserved(e) else 0
  }

  /** The rows of the first n entries. */
  function Rows(u: seq<Entry>, n: nat): set<Block>
    requires n <= |u|
  {
    if n == 0 then {} else Rows(u, n - 1) + Row(DataStart(u[n - 1]), Pieces(DataSpace(u[n - 1])))
  }

  lemma RowStep(start: nat, space: nat)
    requires space >= PAGE_SIZE
    ensures var k := Log2(space);
      Row(start, Pieces(space)) == {Block(start, k)} + Row(start + Pow2(k), Pieces(space - Pow2(k)))
  {
    hide Pow2, Log2;
    assert Pieces(space)[1..] == Pieces(space - Pow2(Log2(space)));
  }

  /** How far the cutting of an entry has got. */
  ghost predicate Filling(e: Entry, offset: nat, space: nat) {
    && GoodEntry(e) && e.End() < LIMIT_64 && DataStart(e) + offset + space == e.End() && space < LIMIT_64 / 2
    && offset % PAGE_SIZE == 0 && space % PAGE_SIZE == 0
  }

  lemma NextPiece(e: Entry, offset: nat, space: nat)
    requires Filling(e, offset, space) && space >= PAGE_SIZE
    ensures var k := Log2(space); var b := Block(DataStart(e) + offset, k);
      && MIN_LEVEL <= k <= MAX_LEVEL && 0 < Pow2(k) <= space < LIMIT_64 / 2 && InData(e, b)
      && Filling(e, offset + Pow2(k), space - Pow2(k))
      && Slot(e, b.start) == e.base + offset / SCALING && b.start == e.base + Reserved(e) + offset
  {
    LevelOfSpace(space);
    PowPages(Log2(space));
    WholeRest(space, Pow2(Log2(space)));
    hide Pow2, DataStart;
    DivModUnique(offset + Pow2(Log2(space)), PAGE_SIZE, offset / PAGE_SIZE + Pow2(Log2(space)) / PAGE_SIZE, 0);
  }

  lemma Filled(e: Entry, offset: nat, space: nat)
    requires Filling(e, offset, space) && space < PAGE_SIZE
    ensures DataStart(e) + offset == e.End() && Row(DataStart(e) + offset, Pieces(space)) == {}
  {
  }

  lemma ShiftIsZero(n: nat, k: nat)
    ensures n / Pow2(k) == 0 <==> n < Pow2(k)
  {
    var p := Pow2(k);
    hide Pow2;
    if n < p {
      DivModUnique(n, p, 0, n);
    } else {
      assert n == p * (n / p) + n % p;
    }
  }

  lemma PowZero()
    ensures Pow2(0) == 1
  {
  }

  /** What is needed of the entry that is going to be filled. */
  lemma EntryFacts(u: seq<Entry>, nodes: Nodes, heads: seq<nat>, pos: seq<nat>, lists: seq<seq<nat>>,
                   free: map<nat, Block>, all: set<Block>, n: nat, top: nat, clean: nat)
    requires n < |u| && SettingUp(u, nodes, heads, pos, lists, free, all, n, top, clean)
    ensures Reserved(u[n]) <= u[n].limit && Filling(u[n], 0, u[n].limit - Reserved(u[n]))
    ensures DataSpace(u[n]) == u[n].limit - Reserved(u[n]) >= u[n].limit / 2
  {
    hide Laid, Described, Lists, GarbageFrom, Live;
    ReservedPart(u[n]);
  }

  lemma EmptySetup(u: seq<Entry>, nodes: Nodes, heads: seq<nat>)
    requires KernelMap(u) && GarbageFrom(u, nodes, map[], 0)
    requires |heads| == LEVELS && forall l | 0 <= l < LEVELS :: heads[l] == 0
    ensures SettingUp(u, nodes, heads, [], seq(LEVELS, _ => []), map[], {}, 0, u[0].base, 0)
  {
    DataAfterBase(u[0]);
    hide GarbageFrom, KernelMap, DataStart;
    assert Live(nodes, map[]) == map[];
    assert Covered({}, DataStart(u[0]), u[0].base);
  }

  lemma DataAfterBase(e: Entry)
    ensures e.base <= DataStart(e)
  {
  }

  lemma EntryDone(u: seq<Entry>, nodes: Nodes, heads: seq<nat>, pos: seq<nat>, lists: seq<seq<nat>>,
                  free: map<nat, Block>, all: set<Block>, n: nat)
    requires n < |u| && SettingUp(u, nodes, heads, pos, lists, free, all, n, u[n].End(), n + 1)
    ensures SettingUp(u, nodes, heads, pos, lists, free, all, n + 1, if n + 1 < |u| then u[n + 1].base else 0, n + 1)
  {
    hide KernelMap, Laid, Described, Lists, GarbageFrom, Live;
    NextEntry(u, all, n);
  }

  lemma AllFree(u: seq<Entry>, nodes: Nodes, heads: seq<nat>, pos: seq<nat>, lists: seq<seq<nat>>,
                free: map<nat, Block>, all: set<Block>)
    requires SettingUp(u, nodes, heads, pos, lists, free, all, |u|, 0, |u|)
    ensures all - free.Values == {}
  {
    hide KernelMap, Laid, Described, Lists, GarbageFrom, Live;
  }
}
