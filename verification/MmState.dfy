/** What holds of the memory manager's lists and blocks between its operations, and the single steps. */
module MmState {
  import opened Limits
  import opened Bits
  import opened UsableMemory
  import opened MmBlocks
  import opened MmLists

  /** Every free block is one of the blocks, and its node is at its descriptor slot. */
  ghost predicate Described(u: seq<Entry>, free: map<nat, Block>, all: set<Block>) {
    forall a | a in free :: free[a] in all && DescribedBy(u, free[a], a)
  }

  /** Everything that holds between calls, once the manager has been set up. */
  ghost predicate Consistent(u: seq<Entry>, nodes: Nodes, heads: seq<nat>, pos: seq<nat>, lists: seq<seq<nat>>,
                             free: map<nat, Block>, all: set<Block>)
  {
    && KernelMap(u) && Tiled(u, all) && Described(u, free, all) && Lists(nodes, heads, pos, lists, free)
  }

  /** A block that is not free has a slot of its own, which is not in use. */
  lemma FreshSlot(u: seq<Entry>, free: map<nat, Block>, all: set<Block>, b: Block, a: nat)
    requires KernelMap(u) && Tiled(u, all) && Described(u, free, all)
    requires b in all && b !in free.Values && DescribedBy(u, b, a)
    ensures a !in free
    ensures a != 0 && b.start != 0 && MIN_LEVEL <= b.level <= MAX_LEVEL
  {
    hide KernelMap, DescribedBy;
    DescriptorIsPositive(u, b, a);
    if a in free {
      assert free[a] in free.Values;
      SlotIsFree(u, all, b, a, free[a], a);
    }
  }

  lemma PushConsistent(u: seq<Entry>, nodes: Nodes, heads: seq<nat>, pos: seq<nat>, lists: seq<seq<nat>>,
                       free: map<nat, Block>, all: set<Block>, i: nat, a: nat, b: Block)
    requires Consistent(u, nodes, heads, pos, lists, free, all) && i <= |pos|
    requires b in all && b !in free.Values && DescribedBy(u, b, a)
    requires i > 0 ==> pos[i - 1] in free && free[pos[i - 1]].start < b.start
    requires i < |pos| ==> pos[i] in free && b.start < free[pos[i]].start
    ensures |heads| == |lists| == LEVELS && b.level < LEVELS && b.start != 0 && a !in free && a != 0
    ensures a !in nodes && 0 !in nodes && (heads[b.level] == 0 || heads[b.level] in nodes)
    ensures (Before(pos, i) == 0 || Before(pos, i) in nodes) && (After(pos, i) == 0 || After(pos, i) in nodes)
    ensures Consistent(u, Pushed(nodes, a, b.start, Before(pos, i), After(pos, i), heads[b.level]),
      heads[b.level := a], Inserted(pos, i, a), lists[b.level := lists[b.level] + [a]], free[a := b], all)
  {
    hide Tiled, KernelMap, DescribedBy, Pushed, Lists, Inserted;
    FreshSlot(u, free, all, b, a);
    ListSizes(nodes, heads, pos, lists, free);
    PushLinks(nodes, heads, pos, lists, free, i, b.level);
    PushLists(nodes, heads, pos, lists, free, i, a, b);
  }

  lemma PopConsistent(u: seq<Entry>, nodes: Nodes, heads: seq<nat>, pos: seq<nat>, lists: seq<seq<nat>>,
                      free: map<nat, Block>, all: set<Block>, l: nat, i: nat)
    requires Consistent(u, nodes, heads, pos, lists, free, all) && l < LEVELS
    requires |heads| == LEVELS && heads[l] != 0 && i < |pos| && pos[i] == heads[l]
    ensures |lists| == LEVELS && lists[l] != [] && heads[l] in nodes && LinksOthers(nodes, heads[l])
    ensures Consistent(u, Popped(nodes, heads[l]), heads[l := nodes[heads[l]].sizePrev], Removed(pos, i),
      lists[l := lists[l][..|lists[l]| - 1]], free - {pos[i]}, all)
  {
    hide Tiled, KernelMap, DescribedBy, Popped, LinksOthers;
    HeadIsNode(nodes, heads, pos, lists, free, l);
    PopLists(nodes, heads, pos, lists, free, l, i);
  }

  lemma SplitConsistent(u: seq<Entry>, nodes: Nodes, heads: seq<nat>, pos: seq<nat>, lists: seq<seq<nat>>,
                        free: map<nat, Block>, all: set<Block>, b: Block)
    requires Consistent(u, nodes, heads, pos, lists, free, all)
    requires b in all && b !in free.Values && b.level > MIN_LEVEL
    ensures Consistent(u, nodes, heads, pos, lists, free, SplitBlock(all, b))
    ensures LeftHalf(b) !in all && RightHalf(b) !in all
  {
    hide KernelMap, DescribedBy, Lists;
    SplitTiled(u, all, b);
    hide Tiled;
    forall a | a in free
      ensures free[a] in SplitBlock(all, b)
    {
      assert free[a] in free.Values;
    }
  }

  /** What is known of the top node of a level. */
  lemma HeadFacts(u: seq<Entry>, nodes: Nodes, heads: seq<nat>, pos: seq<nat>, lists: seq<seq<nat>>,
                  free: map<nat, Block>, all: set<Block>, l: nat)
    requires Consistent(u, nodes, heads, pos, lists, free, all) && l < LEVELS
    ensures |heads| == LEVELS && |lists| == LEVELS
    ensures heads[l] != 0 ==>
      && heads[l] in free && heads[l] in pos && heads[l] in nodes
      && free[heads[l]] in all && free[heads[l]].level == l && DescribedBy(u, free[heads[l]], heads[l])
      && nodes[heads[l]].pointer == free[heads[l]].start != 0
  {
    HeadIsNode(nodes, heads, pos, lists, free, l);
    hide Tiled, KernelMap, DescribedBy, PosList, AllSizes, SortedByAddress;
  }

  lemma NeighbourFacts(u: seq<Entry>, nodes: Nodes, heads: seq<nat>, pos: seq<nat>, lists: seq<seq<nat>>,
                       free: map<nat, Block>, all: set<Block>, i: nat)
    requires Consistent(u, nodes, heads, pos, lists, free, all) && i < |pos|
    ensures pos[i] in nodes && pos[i] in free
    ensures nodes[pos[i]].posPrev == Before(pos, i) && nodes[pos[i]].posNext == After(pos, i + 1)
    ensures i > 0 ==> pos[i - 1] in free && free[pos[i - 1]].start < free[pos[i]].start
    ensures i + 1 < |pos| ==> pos[i + 1] in free && free[pos[i]].End() <= free[pos[i + 1]].start
    ensures nodes[pos[i]].posPrev == 0 || (nodes[pos[i]].posPrev in nodes && nodes[pos[i]].posPrev != pos[i])
    ensures nodes[pos[i]].posNext == 0 || (nodes[pos[i]].posNext in nodes && nodes[pos[i]].posNext != pos[i])
  {
    hide Tiled, KernelMap, DescribedBy, AllSizes, SortedByAddress, PosList, Before, After;
    HeadIsNode(nodes, heads, pos, lists, free, 0);
    assert SortedByAddress(pos, free) && PosList(nodes, pos);
    PosDistinct(pos, free);
    PopPosition(nodes, pos, free, i);
    if i > 0 {
      InOrder(free, all, pos, i - 1, i) by {
        TiledIsApart(u, all);
      }
    }
    if i + 1 < |pos| {
      InOrder(free, all, pos, i, i + 1) by {
        TiledIsApart(u, all);
      }
    }
  }

  lemma TiledIsApart(u: seq<Entry>, all: set<Block>)
    requires Tiled(u, all)
    ensures Apart(all)
  {
  }

  lemma InOrder(free: map<nat, Block>, all: set<Block>, pos: seq<nat>, i: nat, j: nat)
    requires SortedByAddress(pos, free) && i < j < |pos| && pos[i] in free && pos[j] in free
    requires Apart(all) && free[pos[i]] in all && free[pos[j]] in all
    ensures free[pos[i]].start < free[pos[j]].start && free[pos[i]].End() <= free[pos[j]].start
  {
    assert free[pos[i]].start < free[pos[j]].start;
    hide SortedByAddress;
    var b, c := free[pos[i]], free[pos[j]];
    assert Disjoint(b, c);
  }

  /** The piece of the target size at the upper end of a block. */
  ghost predicate LastPiece(b: Block, target: nat, piece: Block) {
    piece.level == target && piece.End() == b.End()
  }

  /** Free blocks other than the divided one stay as they are, and new ones lie inside it. */
  ghost predicate OthersKept(free0: map<nat, Block>, free: map<nat, Block>, node: nat) {
    && (forall x | x in free0 && x != node :: x in free && free[x] == free0[x])
    && (forall x | x in free && node in free0 && (x !in free0 || x == node) ::
          free0[node].start <= free[x].start && free[x].End() <= free0[node].End())
  }

  lemma BlocksDiffer(u: seq<Entry>, nodes: Nodes, heads: seq<nat>, pos: seq<nat>, lists: seq<seq<nat>>,
                     free: map<nat, Block>, all: set<Block>, a: nat)
    requires Consistent(u, nodes, heads, pos, lists, free, all) && a in free
    ensures free[a] !in (free - {a}).Values
  {
    hide KernelMap, Tiled, AllSizes, PosList;
    forall x | x in free && x != a
      ensures free[x] != free[a]
    {
      var i :| 0 <= i < |pos| && pos[i] == x;
      var j :| 0 <= j < |pos| && pos[j] == a;
      assert i < j ==> free[pos[i]].start < free[pos[j]].start;
      assert j < i ==> free[pos[j]].start < free[pos[i]].start;
    }
  }

  // Dividing a block

  /** While a block is being divided, all that is left of it is one block, which nobody else holds. */
  ghost predicate Remainder(all: set<Block>, free: map<nat, Block>, out0: set<Block>, b: Block, rem: Block) {
    && all - free.Values == out0 + {rem} && rem !in out0 && rem in all
    && b.start <= rem.start && rem.End() == b.End()
  }

  lemma ValuesInAll(u: seq<Entry>, nodes: Nodes, heads: seq<nat>, pos: seq<nat>, lists: seq<seq<nat>>,
                    free: map<nat, Block>, all: set<Block>)
    requires Consistent(u, nodes, heads, pos, lists, free, all)
    ensures free.Values <= all
  {
    hide Lists, Tiled, DescribedBy;
  }

  lemma ValuesAdd(free: map<nat, Block>, a: nat, b: Block)
    requires a !in free
    ensures free[a := b].Values == free.Values + {b}
  {
    var free' := free[a := b];
    assert free'[a] == b;
    forall x | x in free.Values + {b}
      ensures x in free'.Values
    {
      if x in free.Values {
        var y :| y in free && free[y] == x;
        assert free'[y] == x;
      }
    }
  }

  lemma StartDividing(all: set<Block>, free0: map<nat, Block>, node: nat)
    requires node in free0 && free0[node] in all && free0[node] !in (free0 - {node}).Values
    ensures Remainder(all, free0 - {node}, all - free0.Values, free0[node], free0[node])
    ensures OthersKept(free0, free0 - {node}, node)
  {
    ValuesAdd(free0 - {node}, node, free0[node]);
    assert (free0 - {node})[node := free0[node]] == free0;
  }

  /** One more piece is split off and becomes free; the other half remains. */
  lemma NextRemainder(all: set<Block>, free: map<nat, Block>, out0: set<Block>, b: Block, rem: Block, a: nat)
    requires Remainder(all, free, out0, b, rem) && rem.level > 0 && free.Values <= all && a !in free
    requires LeftHalf(rem) !in all && RightHalf(rem) !in all
    ensures LeftHalf(rem) in SplitBlock(all, rem) - free.Values
    ensures Remainder(SplitBlock(all, rem), free[a := LeftHalf(rem)], out0, b, RightHalf(rem))
  {
    ValuesAdd(free, a, LeftHalf(rem));
    HalfSize(rem.level);
    hide Pow2;
    var L, R := LeftHalf(rem), RightHalf(rem);
    assert L != R;
    assert rem !in free.Values;
    assert SplitBlock(all, rem) - free.Values == out0 + {L, R};
  }

  lemma LastRemainder(all: set<Block>, free: map<nat, Block>, out0: set<Block>, b: Block, rem: Block, a: nat)
    requires Remainder(all, free, out0, b, rem) && a !in free
    ensures rem in all - free.Values && all - free[a := rem].Values == out0
    ensures LastPiece(b, rem.level, rem)
  {
    ValuesAdd(free, a, rem);
  }

  lemma OthersStillKept(free0: map<nat, Block>, free: map<nat, Block>, node: nat, a: nat, piece: Block)
    requires OthersKept(free0, free, node) && a !in free && node in free0
    requires free0[node].start <= piece.start && piece.End() <= free0[node].End()
    ensures OthersKept(free0, free[a := piece], node)
  {
  }

  lemma HalvesInside(b: Block, rem: Block)
    requires b.start <= rem.start && rem.End() == b.End() && rem.level > 0
    ensures LeftHalf(rem).start == rem.start && LeftHalf(rem).End() <= b.End()
    ensures RightHalf(rem).start == rem.start + Pow2(rem.level - 1) && rem.start < RightHalf(rem).start < b.End()
  {
    HalfSize(rem.level);
  }

  lemma PositionIsUnique(u: seq<Entry>, nodes: Nodes, heads: seq<nat>, pos: seq<nat>, lists: seq<seq<nat>>,
                         free: map<nat, Block>, all: set<Block>, j: nat, i: nat)
    requires Consistent(u, nodes, heads, pos, lists, free, all) && j < |pos| && i < |pos| && pos[i] == pos[j]
    ensures i == j
  {
    hide Tiled, KernelMap, Described, AllSizes, PosList;
    PosDistinct(pos, free);
  }

  lemma PoppedNeighbours(pos: seq<nat>, j: nat)
    requires j < |pos|
    ensures |Removed(pos, j)| == |pos| - 1
    ensures Before(Removed(pos, j), j) == Before(pos, j) && After(Removed(pos, j), j) == After(pos, j + 1)
  {
  }

  lemma RemainderFacts(all: set<Block>, free: map<nat, Block>, out0: set<Block>, b: Block, rem: Block)
    requires Remainder(all, free, out0, b, rem)
    ensures rem in all - free.Values && rem in all && rem !in free.Values
    ensures b.start <= rem.start < rem.End() == b.End()
  {
  }

  lemma LeftIsHandedOut(all: set<Block>, free: map<nat, Block>, out0: set<Block>, b: Block, rem: Block)
    requires Remainder(all, free, out0, b, rem) && rem.level > 0 && free.Values <= all && LeftHalf(rem) !in all
    ensures LeftHalf(rem) in SplitBlock(all, rem) - free.Values
  {
  }

  lemma PopOut(all: set<Block>, free: map<nat, Block>, a: nat)
    requires a in free && free[a] in all && free[a] !in (free - {a}).Values
    ensures all - (free - {a}).Values == (all - free.Values) + {free[a]}
    ensures free[a] !in all - free.Values
  {
    ValuesAdd(free - {a}, a, free[a]);
    assert (free - {a})[a := free[a]] == free;
  }

  // Allocation

  /** The smallest level, from k on, whose blocks are large enough. */
  function LevelFrom(length: nat, k: nat): (r: nat)
    requires k <= MAX_LEVEL && length <= Pow2(MAX_LEVEL)
    ensures k <= r <= MAX_LEVEL && length <= Pow2(r)
    ensures r == k || Pow2(r - 1) < length
    decreases MAX_LEVEL - k
  {
    if length <= Pow2(k) then k else LevelFrom(length, k + 1)
  }

  function LevelFor(length: nat): nat
    requires length <= Pow2(MAX_LEVEL)
  {
    LevelFrom(length, MIN_LEVEL)
  }

  /** The first level from k on that has a free block. */
  ghost predicate FirstFree(heads: seq<nat>, k: nat, l: nat) {
    && |heads| == LEVELS && k <= l < LEVELS && heads[l] != 0
    && forall m | k <= m < l :: heads[m] == 0
  }

  ghost predicate NoneFree(heads: seq<nat>, k: nat) {
    |heads| == LEVELS && forall l | k <= l < LEVELS :: heads[l] == 0
  }

  /** An allocation that fails: nothing is asked for, or nothing large enough is free. */
  ghost predicate Refused(blocks: set<Block>, length: nat) {
    length == 0 || forall b | b in blocks :: b.End() - b.start < length
  }

  /** A block of level k that is the smallest free block, or the upper end of it. */
  ghost predicate CutFrom(heads: seq<nat>, free: map<nat, Block>, k: nat, piece: Block) {
    exists l: nat :: FirstFree(heads, k, l) && heads[l] in free && free[heads[l]].level == l
      && piece.level == k && piece.End() == free[heads[l]].End()
  }

  /** A block that has just been handed out: of the right size, at the upper end of the block it was cut
      from, page-aligned, in a data part, and not handed out before. */
  ghost predicate Granted(u: seq<Entry>, heads: seq<nat>, free: map<nat, Block>, out0: set<Block>, out: set<Block>,
                          k: nat, p: nat)
  {
    && out == out0 + {Block(p, k)} && Block(p, k) !in out0
    && p != 0 && p % PAGE_SIZE == 0 && InSomeData(u, Block(p, k))
    && CutFrom(heads, free, k, Block(p, k))
  }

  lemma BlockPlace(u: seq<Entry>, nodes: Nodes, heads: seq<nat>, pos: seq<nat>, lists: seq<seq<nat>>,
                   free: map<nat, Block>, all: set<Block>, b: Block)
    requires Consistent(u, nodes, heads, pos, lists, free, all) && b in all
    ensures InSomeData(u, b) && b.start % PAGE_SIZE == 0
  {
    hide Lists, Described, Pow2;
    var i :| 0 <= i < |u| && InData(u[i], b);
    ReservedPart(u[i]);
    PagesAddUp(u[i].base, Reserved(u[i]), b.start);
  }

  lemma CutHere(heads: seq<nat>, free: map<nat, Block>, k: nat)
    requires |heads| == LEVELS && k < LEVELS && heads[k] != 0 && heads[k] in free && free[heads[k]].level == k
    ensures CutFrom(heads, free, k, free[heads[k]]) && !NoneFree(heads, k)
  {
    hide Pow2;
    assert FirstFree(heads, k, k);
  }

  lemma CutAbove(heads: seq<nat>, free: map<nat, Block>, k: nat, l: nat, piece: Block)
    requires FirstFree(heads, k, l) && heads[l] in free && free[heads[l]].level == l
    requires LastPiece(free[heads[l]], k, piece)
    ensures CutFrom(heads, free, k, piece) && !NoneFree(heads, k)
  {
    hide Pow2;
  }

  lemma HeadNotNull(u: seq<Entry>, nodes: Nodes, heads: seq<nat>, pos: seq<nat>, lists: seq<seq<nat>>,
                    free: map<nat, Block>, all: set<Block>, a: nat)
    requires Consistent(u, nodes, heads, pos, lists, free, all) && a in free
    ensures a != 0
  {
    hide Tiled, KernelMap, Described, PosList, AllSizes;
  }

  lemma FitsLevel(length: nat)
    requires length <= Pow2(MAX_LEVEL)
    ensures length <= Pow2(LevelFor(length))
  {
  }

  lemma MapIsNotEmpty(u: seq<Entry>, nodes: Nodes, heads: seq<nat>, pos: seq<nat>, lists: seq<seq<nat>>,
                      free: map<nat, Block>, all: set<Block>)
    requires Consistent(u, nodes, heads, pos, lists, free, all)
    ensures u != []
  {
  }

  /** A block that joins those already handed out is disjoint from them. */
  lemma NewIsDisjoint(u: seq<Entry>, nodes: Nodes, heads: seq<nat>, pos: seq<nat>, lists: seq<seq<nat>>,
                      free: map<nat, Block>, all: set<Block>, out0: set<Block>, b: Block)
    requires Consistent(u, nodes, heads, pos, lists, free, all)
    requires all - free.Values == out0 + {b} && b !in out0
    ensures forall c | c in out0 :: Disjoint(b, c) && Disjoint(c, b)
  {
    TiledIsApart(u, all);
    hide Consistent, Pow2;
    assert b in all - free.Values;
    forall c | c in out0
      ensures Disjoint(b, c) && Disjoint(c, b)
    {
      assert c in all - free.Values && c != b;
    }
  }

  // What consistency means

  /** Descriptors ascend along the position list, as the blocks do: no two share a slot. */
  lemma DescriptorsAscend(u: seq<Entry>, nodes: Nodes, heads: seq<nat>, pos: seq<nat>, lists: seq<seq<nat>>,
                          free: map<nat, Block>, all: set<Block>, i: nat, j: nat)
    requires Consistent(u, nodes, heads, pos, lists, free, all) && i < j < |pos|
    ensures pos[i] < pos[j] && pos[i] in free && pos[j] in free && free[pos[i]].End() <= free[pos[j]].start
  {
    hide KernelMap, DescribedBy, Tiled, PosList, AllSizes, AllEntered, AllLevels, Pow2;
    TiledIsApart(u, all);
    InOrder(free, all, pos, i, j);
    SlotOrder(u, free[pos[i]], free[pos[j]], pos[i], pos[j]);
  }

  /** Every byte of a data part is in one block, free or handed out, and in one only. */
  lemma OneBlockPerByte(u: seq<Entry>, all: set<Block>, i: nat, a: nat)
    requires Tiled(u, all) && i < |u| && DataStart(u[i]) <= a < u[i].End()
    ensures exists b :: b in all && b.Holds(a) && forall c | c in all && c.Holds(a) :: c == b
  {
    assert Held(all, a);
    hide Pow2;
    var b :| b in all && b.Holds(a);
    forall c | c in all && c.Holds(a)
      ensures c == b
    {
      assert c != b ==> Disjoint(c, b);
    }
  }

  /** When nothing is handed out, a byte of an entry is in a free block unless it is among the first ones, which are set
      aside: one byte for every 64 of the entry, in whole pages. */
  lemma {:induction false} FreeBytes(u: seq<Entry>, all: set<Block>, i: nat, a: nat)
    requires KernelMap(u) && Tiled(u, all) && i < |u| && u[i].base <= a < u[i].base + u[i].limit
    ensures Held(all, a) <==> u[i].limit <= 64 * ((a - u[i].base) / 0x1000 * 0x1000)
  {
    hide Pow2, DataStart;
    ReservedLeast(u[i], a);
    if DataStart(u[i]) <= a {
      OneBlockPerByte(u, all, i, a);
    }
    forall b | b in all && b.Holds(a)
      ensures DataStart(u[i]) <= a
    {
      BlocksAvoidDescriptors(u, all, b, i);
    }
  }

  /** No block reaches into a descriptor area, its own entry's or another's. */
  lemma BlocksAvoidDescriptors(u: seq<Entry>, all: set<Block>, b: Block, i: nat)
    requires KernelMap(u) && Tiled(u, all) && b in all && i < |u|
    ensures b.End() <= u[i].base || DataStart(u[i]) <= b.start
  {
    hide Pow2, Apart, Covered;
    var j :| 0 <= j < |u| && InData(u[j], b);
    EntriesApart(u, i, j);
    EntriesApart(u, j, i);
    ReservedPart(u[i]);
  }

  // What is granted, in terms of the free blocks

  /** A block can be found on the list of its level. */
  lemma FreeIsListed(u: seq<Entry>, nodes: Nodes, heads: seq<nat>, pos: seq<nat>, lists: seq<seq<nat>>,
                     free: map<nat, Block>, all: set<Block>, b: Block)
    requires Consistent(u, nodes, heads, pos, lists, free, all) && b in free.Values
    ensures MIN_LEVEL <= b.level <= MAX_LEVEL && |heads| == LEVELS && heads[b.level] != 0
  {
    hide Tiled, KernelMap, PosList, SortedByAddress, Pow2, Described, Listed, AllSizes;
    var a :| a in free && free[a] == b;
    LevelInBounds(u, free, all, a);
    TopIsThere(nodes, heads, pos, lists, free, a);
  }

  lemma TopIsThere(nodes: Nodes, heads: seq<nat>, pos: seq<nat>, lists: seq<seq<nat>>, free: map<nat, Block>, a: nat)
    requires Listed(nodes, pos, lists, free) && AllSizes(nodes, heads, lists) && a in free
    ensures free[a].level < LEVELS == |heads| && heads[free[a].level] != 0
  {
    hide SizeList, AllNodes, Distinct;
    var l := free[a].level;
    var xs := lists[l];
    assert a in xs && xs != [];
    var k := |xs| - 1;
    assert lists[l][k] in free;
  }

  lemma LevelInBounds(u: seq<Entry>, free: map<nat, Block>, all: set<Block>, a: nat)
    requires Described(u, free, all) && a in free
    ensures MIN_LEVEL <= free[a].level <= MAX_LEVEL
  {
    hide Pow2;
  }

  lemma {:induction false} LevelAndSize(length: nat, l: nat)
    requires length <= Pow2(MAX_LEVEL) && MIN_LEVEL <= l
    ensures LevelFor(length) <= l <==> length <= Pow2(l)
    ensures var size := Pow2(LevelFor(length));
      length <= size && 0x1000 <= size && (size == 0x1000 || size < 2 * length)
  {
    hide Pow2;
    var k := LevelFor(length);
    PageSizes();
    PowPages(k);
    if k <= l {
      PowMonotone(k, l);
    } else {
      PowMonotone(l, k - 1);
    }
    if k > MIN_LEVEL {
      Doubled(k);
    }
  }

  lemma Doubled(k: nat)
    requires k > 0
    ensures Pow2(k) == 2 * Pow2(k - 1)
  {
  }

  /** No level that is high enough has a block if and only if every free block is too small. */
  lemma {:induction false} NoneFreeExactly(u: seq<Entry>, nodes: Nodes, heads: seq<nat>, pos: seq<nat>,
                                           lists: seq<seq<nat>>, free: map<nat, Block>, all: set<Block>, length: nat)
    requires Consistent(u, nodes, heads, pos, lists, free, all) && length <= Pow2(MAX_LEVEL)
    ensures NoneFree(heads, LevelFor(length)) <==> forall b | b in free.Values :: b.End() - b.start < length
  {
    hide Pow2, Consistent, LevelFor;
    forall b | b in free.Values
      ensures |heads| == LEVELS && b.level < LEVELS && heads[b.level] != 0
      ensures b.End() - b.start < length <==> b.level < LevelFor(length)
    {
      FreeIsListed(u, nodes, heads, pos, lists, free, all, b);
      LevelAndSize(length, b.level);
    }
    if !NoneFree(heads, LevelFor(length)) {
      HeadsHold(u, nodes, heads, pos, lists, free, all, LevelFor(length));
    }
  }

  lemma HeadsHold(u: seq<Entry>, nodes: Nodes, heads: seq<nat>, pos: seq<nat>, lists: seq<seq<nat>>,
                  free: map<nat, Block>, all: set<Block>, k: nat)
    requires Consistent(u, nodes, heads, pos, lists, free, all) && !NoneFree(heads, k)
    ensures exists b :: b in free.Values && k <= b.level
  {
    hide Pow2, Consistent;
    HeadFacts(u, nodes, heads, pos, lists, free, all, 0);
    var l: nat :| k <= l < LEVELS && heads[l] != 0;
    HeadFacts(u, nodes, heads, pos, lists, free, all, l);
    assert free[heads[l]] in free.Values;
  }

  /** A page, or less than twice what was asked for, from the upper end of a free block that no large enough one is
      smaller than. */
  ghost predicate BestFit(free: map<nat, Block>, length: nat, p: nat) {
    exists whole :: whole in free.Values && whole.start <= p < whole.End()
      && length <= whole.End() - p && 0x1000 <= whole.End() - p
      && (whole.End() - p == 0x1000 || whole.End() - p < 2 * length)
      && forall b | b in free.Values && length <= b.End() - b.start :: whole.End() - whole.start <= b.End() - b.start
  }

  lemma {:induction false} GrantedIsBestFit(u: seq<Entry>, nodes: Nodes, heads: seq<nat>, pos: seq<nat>,
                                            lists: seq<seq<nat>>, free: map<nat, Block>, all: set<Block>, length: nat,
                                            p: nat)
    requires Consistent(u, nodes, heads, pos, lists, free, all) && length <= Pow2(MAX_LEVEL)
    requires CutFrom(heads, free, LevelFor(length), Block(p, LevelFor(length)))
    ensures BestFit(free, length, p)
  {
    hide Pow2, Consistent, LevelFor;
    var k := LevelFor(length);
    var l: nat :| FirstFree(heads, k, l) && heads[l] in free && free[heads[l]].level == l
      && Block(p, k).End() == free[heads[l]].End();
    var whole, size := free[heads[l]], Pow2(k);
    FreeIsListed(u, nodes, heads, pos, lists, free, all, whole);
    LevelAndSize(length, l);
    PowMonotone(k, l);
    forall b | b in free.Values && length <= b.End() - b.start
      ensures whole.End() - whole.start <= b.End() - b.start
    {
      FreeIsListed(u, nodes, heads, pos, lists, free, all, b);
      LevelAndSize(length, b.level);
      PowMonotone(l, b.level);
    }
  }

  /** Of every entry all bytes are in free blocks but the first ones, one for every 64 bytes of it, in whole pages. */
  ghost predicate AllButDescriptorsFree(u: seq<Entry>, blocks: set<Block>) {
    forall i, a: nat | 0 <= i < |u| && u[i].base <= a < u[i].base + u[i].limit ::
      Held(blocks, a) <==> u[i].limit <= 64 * ((a - u[i].base) / 0x1000 * 0x1000)
  }

  lemma NothingElseIsSetAside(u: seq<Entry>, nodes: Nodes, heads: seq<nat>, pos: seq<nat>, lists: seq<seq<nat>>,
                              free: map<nat, Block>, all: set<Block>)
    requires Consistent(u, nodes, heads, pos, lists, free, all) && all - free.Values == {}
    ensures AllButDescriptorsFree(u, free.Values)
  {
    hide Lists, Described, Pow2, KernelMap, Tiled;
    ValuesInAll(u, nodes, heads, pos, lists, free, all);
    forall b | b in all
      ensures b in free.Values
    {
      assert b !in all - free.Values;
    }
    assert free.Values == all;
    forall i, a: nat | 0 <= i < |u| && u[i].base <= a < u[i].base + u[i].limit
      ensures Held(all, a) <==> u[i].limit <= 64 * ((a - u[i].base) / 0x1000 * 0x1000)
    {
      FreeBytes(u, all, i, a);
    }
  }
}
