/**
 The lists that the memory manager keeps of its free blocks.  Every free block has a node on two doubly
 linked lists: the position list, sorted by address, and the list of its level, a stack.
 */
module MmLists {
  import opened MmBlocks

  const LEVELS := 64

  datatype Node = Node(pointer: nat, posPrev: nat, posNext: nat, sizePrev: nat, sizeNext: nat)

  const ZERO_NODE := Node(0, 0, 0, 0, 0)

  /** Descriptor memory; slots that are not in the map are zero. */
  type Nodes = map<nat, Node>

  function At(nodes: Nodes, a: nat): Node { if a in nodes then nodes[a] else ZERO_NODE }

  function Before(xs: seq<nat>, i: nat): nat
    requires i <= |xs|
  {
    if i == 0 then 0 else xs[i - 1]
  }

  function After(xs: seq<nat>, i: nat): nat {
    if i < |xs| then xs[i] else 0
  }

  function Top(xs: seq<nat>): nat { Before(xs, |xs|) }

  ghost predicate PosList(nodes: Nodes, pos: seq<nat>) {
    forall i | 0 <= i < |pos| ::
      pos[i] in nodes && nodes[pos[i]].posPrev == Before(pos, i) && nodes[pos[i]].posNext == After(pos, i + 1)
  }

  ghost predicate SizeList(nodes: Nodes, xs: seq<nat>) {
    forall i | 0 <= i < |xs| ::
      xs[i] in nodes && nodes[xs[i]].sizePrev == Before(xs, i) && nodes[xs[i]].sizeNext == After(xs, i + 1)
  }

  ghost predicate Distinct(xs: seq<nat>) {
    forall i, j | 0 <= i < j < |xs| :: xs[i] != xs[j]
  }

  ghost predicate AllNodes(pos: seq<nat>, free: map<nat, Block>) {
    forall i | 0 <= i < |pos| :: pos[i] in free
  }

  ghost predicate AllLevels(lists: seq<seq<nat>>, free: map<nat, Block>) {
    && |lists| == LEVELS
    && (forall l, i | 0 <= l < LEVELS && 0 <= i < |lists[l]| :: lists[l][i] in free && free[lists[l][i]].level == l)
    && (forall l | 0 <= l < LEVELS :: Distinct(lists[l]))
  }

  ghost predicate AllEntered(nodes: Nodes, pos: seq<nat>, lists: seq<seq<nat>>, free: map<nat, Block>) {
    && |lists| == LEVELS && nodes.Keys == free.Keys
    && forall a | a in free ::
         a != 0 && a in pos && free[a].start != 0 && nodes[a].pointer == free[a].start && free[a].level < LEVELS
         && a in lists[free[a].level]
  }

  /** The nodes stand for free blocks, each in its place on both lists. */
  ghost predicate Listed(nodes: Nodes, pos: seq<nat>, lists: seq<seq<nat>>, free: map<nat, Block>) {
    AllEntered(nodes, pos, lists, free) && AllNodes(pos, free) && AllLevels(lists, free)
  }

  ghost predicate SortedByAddress(pos: seq<nat>, free: map<nat, Block>) {
    forall i, j | 0 <= i < j < |pos| && pos[i] in free && pos[j] in free :: free[pos[i]].start < free[pos[j]].start
  }

  ghost predicate AllSizes(nodes: Nodes, heads: seq<nat>, lists: seq<seq<nat>>) {
    && |heads| == |lists| == LEVELS
    && forall l | 0 <= l < LEVELS :: SizeList(nodes, lists[l]) && heads[l] == Top(lists[l])
  }

  /** Both kinds of list are well formed, over the same nodes. */
  ghost predicate Lists(nodes: Nodes, heads: seq<nat>, pos: seq<nat>, lists: seq<seq<nat>>, free: map<nat, Block>) {
    && Listed(nodes, pos, lists, free) && SortedByAddress(pos, free)
    && PosList(nodes, pos) && AllSizes(nodes, heads, lists)
  }

  lemma PosDistinct(pos: seq<nat>, free: map<nat, Block>)
    requires SortedByAddress(pos, free) && forall i | 0 <= i < |pos| :: pos[i] in free
    ensures Distinct(pos)
  {
  }

  // Pushing

  /** A node has come in: its neighbours' links lead to it, its own to them, and nothing else has changed. */
  ghost predicate LinkedIn(nodes: Nodes, nodes': Nodes, a: nat, pointer: nat, prev: nat, next: nat, head: nat) {
    && nodes'.Keys == nodes.Keys + {a}
    && nodes'[a] == Node(pointer, prev, next, head, 0)
    && forall x | x in nodes ::
         x != a ==> nodes'[x] == Node(nodes[x].pointer,
           if x == next then a else nodes[x].posPrev, if x == prev then a else nodes[x].posNext,
           nodes[x].sizePrev, if x == head then a else nodes[x].sizeNext)
  }

  ghost predicate PositionLinked(nodes: Nodes, nodes': Nodes, a: nat, pointer: nat, prev: nat, next: nat) {
    && nodes'.Keys == nodes.Keys + {a}
    && nodes'[a].pointer == pointer && nodes'[a].posPrev == prev && nodes'[a].posNext == next
    && forall x | x in nodes ::
         x != a ==> nodes'[x] == Node(nodes[x].pointer,
           if x == next then a else nodes[x].posPrev, if x == prev then a else nodes[x].posNext,
           nodes[x].sizePrev, nodes[x].sizeNext)
  }

  ghost predicate LevelLinked(nodes: Nodes, nodes': Nodes, a: nat, head: nat)
    requires a in nodes
  {
    && nodes'.Keys == nodes.Keys && nodes'[a] == nodes[a].(sizePrev := head, sizeNext := 0)
    && forall x | x in nodes :: x != a ==>
      nodes'[x] == nodes[x].(sizeNext := if x == head then a else nodes[x].sizeNext)
  }

  /** There is one such memory. */
  function Pushed(nodes: Nodes, a: nat, pointer: nat, prev: nat, next: nat, head: nat): (r: Nodes)
    ensures LinkedIn(nodes, r, a, pointer, prev, next, head)
  {
    map x | x in nodes.Keys + {a} ::
      if x == a then Node(pointer, prev, next, head, 0)
      else Node(nodes[x].pointer, if x == next then a else nodes[x].posPrev, if x == prev then a else nodes[x].posNext,
                nodes[x].sizePrev, if x == head then a else nodes[x].sizeNext)
  }

  lemma LinkedIsPushed(nodes: Nodes, nodes': Nodes, a: nat, pointer: nat, prev: nat, next: nat, head: nat)
    requires LinkedIn(nodes, nodes', a, pointer, prev, next, head)
    ensures nodes' == Pushed(nodes, a, pointer, prev, next, head)
  {
    hide Pushed;
    var r := Pushed(nodes, a, pointer, prev, next, head);
    forall x | x in r
      ensures nodes'[x] == r[x]
    {
    }
  }

  function Inserted(pos: seq<nat>, i: nat, a: nat): seq<nat>
    requires i <= |pos|
  {
    pos[..i] + [a] + pos[i..]
  }

  lemma PosInsertOne(pos: seq<nat>, i: nat, a: nat, k: nat, n: Node, n': Node)
    requires i <= |pos| && k < |pos|
    requires n.posPrev == Before(pos, k) && n.posNext == After(pos, k + 1)
    requires n'.posPrev == if k == i then a else n.posPrev
    requires n'.posNext == if k == i - 1 then a else n.posNext
    ensures var j := if k < i then k else k + 1;
      && Inserted(pos, i, a)[j] == pos[k]
      && n'.posPrev == Before(Inserted(pos, i, a), j) && n'.posNext == After(Inserted(pos, i, a), j + 1)
  {
  }

  lemma SameIndex(xs: seq<nat>, i: nat, k: nat)
    requires Distinct(xs) && i < |xs| && k < |xs|
    ensures xs[i] == xs[k] <==> i == k
  {
  }

  lemma PosAt(nodes: Nodes, pos: seq<nat>, k: nat)
    requires PosList(nodes, pos) && k < |pos|
    ensures pos[k] in nodes && nodes[pos[k]].posPrev == Before(pos, k) && nodes[pos[k]].posNext == After(pos, k + 1)
  {
  }

  lemma NewFields(nodes: Nodes, nodes': Nodes, pos: seq<nat>, i: nat, a: nat, pointer: nat, head: nat, k: nat)
    requires PosList(nodes, pos) && Distinct(pos) && i <= |pos| && k < |pos| && a !in nodes && 0 !in nodes
    requires LinkedIn(nodes, nodes', a, pointer, Before(pos, i), After(pos, i), head)
    ensures pos[k] in nodes && pos[k] in nodes'
    ensures nodes[pos[k]].posPrev == Before(pos, k) && nodes[pos[k]].posNext == After(pos, k + 1)
    ensures nodes'[pos[k]].posPrev == if k == i then a else nodes[pos[k]].posPrev
    ensures nodes'[pos[k]].posNext == if k == i - 1 then a else nodes[pos[k]].posNext
  {
    hide Distinct, PosList;
    PosAt(nodes, pos, k);
    if i < |pos| {
      SameIndex(pos, i, k);
    }
    if i > 0 {
      SameIndex(pos, i - 1, k);
    }
  }

  lemma PosInsertAt(nodes: Nodes, nodes': Nodes, pos: seq<nat>, i: nat, a: nat, pointer: nat, head: nat, k: nat)
    requires PosList(nodes, pos) && Distinct(pos) && i <= |pos| && k < |pos| && a !in nodes && 0 !in nodes
    requires LinkedIn(nodes, nodes', a, pointer, Before(pos, i), After(pos, i), head)
    ensures var j := if k < i then k else k + 1;
      && j < |Inserted(pos, i, a)| && Inserted(pos, i, a)[j] == pos[k] && pos[k] in nodes'
      && nodes'[pos[k]].posPrev == Before(Inserted(pos, i, a), j)
      && nodes'[pos[k]].posNext == After(Inserted(pos, i, a), j + 1)
  {
    hide Distinct, PosList, LinkedIn, Before, After;
    NewFields(nodes, nodes', pos, i, a, pointer, head, k);
    PosInsertOne(pos, i, a, k, nodes[pos[k]], nodes'[pos[k]]);
  }

  lemma NewNeighbours(pos: seq<nat>, i: nat, a: nat)
    requires i <= |pos|
    ensures |Inserted(pos, i, a)| == |pos| + 1 && Inserted(pos, i, a)[i] == a
    ensures Before(Inserted(pos, i, a), i) == Before(pos, i) && After(Inserted(pos, i, a), i + 1) == After(pos, i)
  {
  }

  ghost predicate LinkedAt(nodes: Nodes, pos: seq<nat>, j: nat)
    requires j < |pos|
  {
    pos[j] in nodes && nodes[pos[j]].posPrev == Before(pos, j) && nodes[pos[j]].posNext == After(pos, j + 1)
  }

  lemma AllLinked(nodes: Nodes, pos: seq<nat>)
    requires forall j | 0 <= j < |pos| :: LinkedAt(nodes, pos, j)
    ensures PosList(nodes, pos)
  {
    hide Before, After;
    forall j | 0 <= j < |pos|
      ensures pos[j] in nodes && nodes[pos[j]].posPrev == Before(pos, j) && nodes[pos[j]].posNext == After(pos, j + 1)
    {
      assert LinkedAt(nodes, pos, j);
    }
  }

  lemma NewLinked(nodes: Nodes, nodes': Nodes, pos: seq<nat>, i: nat, a: nat, pointer: nat, head: nat)
    requires i <= |pos| && LinkedIn(nodes, nodes', a, pointer, Before(pos, i), After(pos, i), head)
    ensures |Inserted(pos, i, a)| == |pos| + 1 && LinkedAt(nodes', Inserted(pos, i, a), i)
  {
    NewNeighbours(pos, i, a);
    hide Before, After, Inserted;
  }

  lemma PosInsert(nodes: Nodes, nodes': Nodes, pos: seq<nat>, i: nat, a: nat, pointer: nat, head: nat)
    requires PosList(nodes, pos) && Distinct(pos) && i <= |pos| && a !in nodes && 0 !in nodes
    requires LinkedIn(nodes, nodes', a, pointer, Before(pos, i), After(pos, i), head)
    ensures PosList(nodes', Inserted(pos, i, a))
  {
    hide PosList, Before, After, Distinct, LinkedIn, Inserted;
    NewLinked(nodes, nodes', pos, i, a, pointer, head);
    forall j: nat | j < |Inserted(pos, i, a)|
      ensures LinkedAt(nodes', Inserted(pos, i, a), j)
    {
      if j != i {
        PosInsertAt(nodes, nodes', pos, i, a, pointer, head, if j < i then j else j - 1);
      }
    }
    AllLinked(nodes', Inserted(pos, i, a));
  }

  lemma SizePush(nodes: Nodes, nodes': Nodes, xs: seq<nat>, a: nat, pointer: nat, prev: nat, next: nat)
    requires SizeList(nodes, xs) && Distinct(xs) && a !in nodes && 0 !in nodes
    requires LinkedIn(nodes, nodes', a, pointer, prev, next, Top(xs))
    ensures SizeList(nodes', xs + [a])
  {
    forall j: nat | j < |xs + [a]|
      ensures (xs + [a])[j] in nodes'
      ensures nodes'[(xs + [a])[j]].sizePrev == Before(xs + [a], j)
      ensures nodes'[(xs + [a])[j]].sizeNext == After(xs + [a], j + 1)
    {
      if j < |xs| {
        assert xs[j] in nodes && xs[j] != a;
        TopIsLast(xs, j);
        SizePushOld(nodes[xs[j]], nodes'[xs[j]], xs, j, a);
      }
    }
  }

  lemma TopIsLast(xs: seq<nat>, j: nat)
    requires Distinct(xs) && j < |xs|
    ensures xs[j] == Top(xs) <==> j == |xs| - 1
  {
  }

  lemma SizePushOld(n: Node, n': Node, xs: seq<nat>, j: nat, a: nat)
    requires j < |xs| && n.sizePrev == Before(xs, j) && n.sizeNext == After(xs, j + 1)
    requires n'.sizePrev == n.sizePrev && n'.sizeNext == (if j == |xs| - 1 then a else n.sizeNext)
    ensures n'.sizePrev == Before(xs + [a], j) && n'.sizeNext == After(xs + [a], j + 1)
  {
  }

  lemma SizeKept(nodes: Nodes, nodes': Nodes, xs: seq<nat>, a: nat, pointer: nat, prev: nat, next: nat, head: nat)
    requires SizeList(nodes, xs) && a !in nodes && head !in xs
    requires LinkedIn(nodes, nodes', a, pointer, prev, next, head)
    ensures SizeList(nodes', xs)
  {
  }

  lemma EnteredInsert(nodes: Nodes, nodes': Nodes, pos: seq<nat>, lists: seq<seq<nat>>, free: map<nat, Block>,
                      i: nat, a: nat, b: Block, prev: nat, next: nat, head: nat)
    requires AllEntered(nodes, pos, lists, free) && i <= |pos|
    requires a !in nodes && a != 0 && b.start != 0 && b.level < LEVELS
    requires LinkedIn(nodes, nodes', a, b.start, prev, next, head)
    ensures AllEntered(nodes', Inserted(pos, i, a), lists[b.level := lists[b.level] + [a]], free[a := b])
  {
    hide Inserted;
    var pos', lists', free' := Inserted(pos, i, a), lists[b.level := lists[b.level] + [a]], free[a := b];
    forall x | x in free'
      ensures x != 0 && x in pos' && free'[x].start != 0 && nodes'[x].pointer == free'[x].start
      ensures free'[x].level < LEVELS && x in lists'[free'[x].level]
    {
      InsertedHas(pos, i, a, x);
      if x == a {
        assert lists'[b.level][|lists[b.level]|] == a;
      }
    }
  }

  lemma InsertedHas(pos: seq<nat>, i: nat, a: nat, x: nat)
    requires i <= |pos|
    ensures x in Inserted(pos, i, a) <==> x == a || x in pos
  {
    var pos' := Inserted(pos, i, a);
    assert pos'[i] == a;
    if x in pos {
      var j :| 0 <= j < |pos| && pos[j] == x;
      assert pos'[if j < i then j else j + 1] == x;
    }
  }

  lemma LevelsInsert(lists: seq<seq<nat>>, free: map<nat, Block>, a: nat, b: Block)
    requires AllLevels(lists, free) && a !in free && b.level < LEVELS
    ensures AllLevels(lists[b.level := lists[b.level] + [a]], free[a := b])
  {
    var lists', free' := lists[b.level := lists[b.level] + [a]], free[a := b];
    forall l, j | 0 <= l < LEVELS && 0 <= j < |lists'[l]|
      ensures lists'[l][j] in free' && free'[lists'[l][j]].level == l
    {
      assert j < |lists[l]| ==> lists'[l][j] == lists[l][j];
    }
    assert forall j | 0 <= j < |lists[b.level]| :: lists[b.level][j] in free;
  }

  lemma ListedInsert(nodes: Nodes, nodes': Nodes, pos: seq<nat>, lists: seq<seq<nat>>, free: map<nat, Block>,
                     i: nat, a: nat, b: Block, prev: nat, next: nat, head: nat)
    requires Listed(nodes, pos, lists, free) && i <= |pos|
    requires a !in nodes && a != 0 && b.start != 0 && b.level < LEVELS
    requires LinkedIn(nodes, nodes', a, b.start, prev, next, head)
    ensures Listed(nodes', Inserted(pos, i, a), lists[b.level := lists[b.level] + [a]], free[a := b])
  {
    hide LinkedIn, AllLevels;
    EnteredInsert(nodes, nodes', pos, lists, free, i, a, b, prev, next, head);
    LevelsInsert(lists, free, a, b);
    forall j | 0 <= j < |Inserted(pos, i, a)|
      ensures Inserted(pos, i, a)[j] in free[a := b]
    {
      InsertedHas(pos, i, a, Inserted(pos, i, a)[j]);
    }
  }

  lemma SortedInsert(pos: seq<nat>, free: map<nat, Block>, i: nat, a: nat, b: Block)
    requires SortedByAddress(pos, free) && i <= |pos| && a !in free
    requires forall j | 0 <= j < |pos| :: pos[j] in free
    requires i > 0 ==> free[pos[i - 1]].start < b.start
    requires i < |pos| ==> b.start < free[pos[i]].start
    ensures SortedByAddress(Inserted(pos, i, a), free[a := b])
  {
    var pos', free' := Inserted(pos, i, a), free[a := b];
    forall x, y | 0 <= x < y < |pos'|
      ensures free'[pos'[x]].start < free'[pos'[y]].start
    {
      assert pos'[x] == (if x < i then pos[x] else if x == i then a else pos[x - 1]);
      assert pos'[y] == (if y < i then pos[y] else if y == i then a else pos[y - 1]);
      if x == i && y - 1 > i {
        assert free[pos[i]].start < free[pos[y - 1]].start;
      }
      if y == i && x < i - 1 {
        assert free[pos[x]].start < free[pos[i - 1]].start;
      }
    }
  }

  /** The links of a new node lead to nodes, or nowhere. */
  lemma PushLinks(nodes: Nodes, heads: seq<nat>, pos: seq<nat>, lists: seq<seq<nat>>, free: map<nat, Block>,
                  i: nat, l: nat)
    requires Lists(nodes, heads, pos, lists, free) && i <= |pos| && l < |heads| == LEVELS
    ensures 0 !in nodes && nodes.Keys == free.Keys
    ensures Before(pos, i) == 0 || Before(pos, i) in nodes
    ensures After(pos, i) == 0 || After(pos, i) in nodes
    ensures heads[l] == 0 || heads[l] in nodes
  {
    HeadIsNode(nodes, heads, pos, lists, free, l);
    hide Lists;
    assert forall j | 0 <= j < |pos| :: pos[j] in free;
  }

  /** Linking a node in keeps both kinds of list well formed. */
  lemma PushLists(nodes: Nodes, heads: seq<nat>, pos: seq<nat>, lists: seq<seq<nat>>, free: map<nat, Block>,
                  i: nat, a: nat, b: Block)
    requires Lists(nodes, heads, pos, lists, free) && i <= |pos|
    requires a !in free && a != 0 && b.start != 0 && b.level < LEVELS
    requires i > 0 ==> free[pos[i - 1]].start < b.start
    requires i < |pos| ==> b.start < free[pos[i]].start
    ensures Lists(Pushed(nodes, a, b.start, Before(pos, i), After(pos, i), heads[b.level]), heads[b.level := a],
      Inserted(pos, i, a), lists[b.level := lists[b.level] + [a]], free[a := b])
  {
    var prev, next, head := Before(pos, i), After(pos, i), heads[b.level];
    var nodes' := Pushed(nodes, a, b.start, prev, next, head);
    HeadIsNode(nodes, heads, pos, lists, free, b.level);
    PosDistinct(pos, free);
    hide Pushed, PosList, AllSizes, SortedByAddress, Inserted, Listed, LinkedIn;
    PosInsert(nodes, nodes', pos, i, a, b.start, head);
    SortedInsert(pos, free, i, a, b);
    ListedInsert(nodes, nodes', pos, lists, free, i, a, b, prev, next, head);
    PushOthers(nodes, nodes', heads, pos, lists, free, a, b, prev, next);
  }

  lemma PushOthers(nodes: Nodes, nodes': Nodes, heads: seq<nat>, pos: seq<nat>, lists: seq<seq<nat>>,
                   free: map<nat, Block>, a: nat, b: Block, prev: nat, next: nat)
    requires Lists(nodes, heads, pos, lists, free) && b.level < LEVELS && a !in nodes && 0 !in nodes
    requires LinkedIn(nodes, nodes', a, b.start, prev, next, heads[b.level])
    ensures AllSizes(nodes', heads[b.level := a], lists[b.level := lists[b.level] + [a]])
  {
    DistinctLevel(nodes, pos, lists, free, b.level);
    var lists', heads' := lists[b.level := lists[b.level] + [a]], heads[b.level := a];
    hide Listed, LinkedIn, SizeList, Distinct, PosList, SortedByAddress;
    forall l | 0 <= l < LEVELS
      ensures SizeList(nodes', lists'[l]) && heads'[l] == Top(lists'[l])
    {
      if l == b.level {
        SizePush(nodes, nodes', lists[l], a, b.start, prev, next);
      } else {
        HeadElsewhere(nodes, heads, pos, lists, free, b.level, l);
        SizeKept(nodes, nodes', lists[l], a, b.start, prev, next, heads[b.level]);
      }
    }
  }

  lemma HeadIsNode(nodes: Nodes, heads: seq<nat>, pos: seq<nat>, lists: seq<seq<nat>>, free: map<nat, Block>, l: nat)
    requires Lists(nodes, heads, pos, lists, free) && l < LEVELS
    ensures 0 !in nodes && nodes.Keys == free.Keys
    ensures heads[l] != 0 <==> lists[l] != []
    ensures heads[l] != 0 ==> heads[l] in free && free[heads[l]].level == l
    ensures forall i | 0 <= i < |pos| :: pos[i] in free
  {
    if lists[l] != [] {
      assert lists[l][|lists[l]| - 1] in free;
    }
  }

  lemma HeadElsewhere(nodes: Nodes, heads: seq<nat>, pos: seq<nat>, lists: seq<seq<nat>>, free: map<nat, Block>,
                      l: nat, k: nat)
    requires Lists(nodes, heads, pos, lists, free) && l < LEVELS && k < LEVELS && l != k
    ensures heads[l] !in lists[k]
  {
    HeadIsNode(nodes, heads, pos, lists, free, l);
    forall i | 0 <= i < |lists[k]|
      ensures lists[k][i] != heads[l]
    {
      assert lists[k][i] in free && free[lists[k][i]].level == k;
    }
  }

  // Popping

  /** A node has gone: its neighbours are each other's, and nothing else has changed. */
  ghost predicate LinkedOut(nodes: Nodes, nodes': Nodes, a: nat, prev: nat, next: nat, below: nat) {
    && nodes'.Keys == nodes.Keys - {a}
    && forall x | x in nodes && x != a ::
         nodes'[x] == Node(nodes[x].pointer,
           if x == next then prev else nodes[x].posPrev, if x == prev then next else nodes[x].posNext,
           nodes[x].sizePrev, if x == below then 0 else nodes[x].sizeNext)
  }

  /** The links of a node lead to other nodes, or nowhere. */
  ghost predicate LinksOthers(nodes: Nodes, a: nat)
    requires a in nodes
  {
    var n := nodes[a];
    && 0 !in nodes && (n.posPrev == 0 || (n.posPrev in nodes && n.posPrev != a))
    && (n.posNext == 0 || (n.posNext in nodes && n.posNext != a))
    && (n.sizePrev == 0 || (n.sizePrev in nodes && n.sizePrev != a))
  }

  function Popped(nodes: Nodes, a: nat): (r: Nodes)
    requires a in nodes
    ensures LinkedOut(nodes, r, a, nodes[a].posPrev, nodes[a].posNext, nodes[a].sizePrev)
  {
    var prev, next, below := nodes[a].posPrev, nodes[a].posNext, nodes[a].sizePrev;
    map x | x in nodes.Keys - {a} ::
      Node(nodes[x].pointer, if x == next then prev else nodes[x].posPrev, if x == prev then next else nodes[x].posNext,
           nodes[x].sizePrev, if x == below then 0 else nodes[x].sizeNext)
  }

  lemma LinkedIsPopped(nodes: Nodes, nodes': Nodes, a: nat)
    requires a in nodes && LinkedOut(nodes, nodes', a, nodes[a].posPrev, nodes[a].posNext, nodes[a].sizePrev)
    ensures nodes' == Popped(nodes, a)
  {
    hide Popped;
    var r := Popped(nodes, a);
    forall x | x in r
      ensures nodes'[x] == r[x]
    {
    }
  }

  /** Between neighbours that were each other's, and on top of a level, taking out undoes putting in. */
  lemma PopUndoesPush(nodes: Nodes, nodes': Nodes, nodes'': Nodes, a: nat, pointer: nat, prev: nat, next: nat,
                      head: nat)
    requires a !in nodes && LinkedIn(nodes, nodes', a, pointer, prev, next, head)
    requires LinkedOut(nodes', nodes'', a, prev, next, head)
    requires prev in nodes ==> nodes[prev].posNext == next
    requires next in nodes ==> nodes[next].posPrev == prev
    requires head in nodes ==> nodes[head].sizeNext == 0
    ensures nodes'' == nodes
  {
    forall x | x in nodes
      ensures x in nodes'' && nodes''[x] == nodes[x]
    {
      assert x in nodes' && x != a;
    }
  }

  function Removed(pos: seq<nat>, i: nat): seq<nat>
    requires i < |pos|
  {
    pos[..i] + pos[i + 1..]
  }

  lemma PosRemoveOne(pos: seq<nat>, i: nat, k: nat, n: Node, n': Node)
    requires i < |pos| && k < |pos| && k != i
    requires n.posPrev == Before(pos, k) && n.posNext == After(pos, k + 1)
    requires n'.posPrev == if k == i + 1 then Before(pos, i) else n.posPrev
    requires n'.posNext == if k == i - 1 then After(pos, i + 1) else n.posNext
    ensures var j := if k < i then k else k - 1;
      n'.posPrev == Before(Removed(pos, i), j) && n'.posNext == After(Removed(pos, i), j + 1)
  {
  }

  lemma NeighbourFields(nodes: Nodes, nodes': Nodes, pos: seq<nat>, i: nat, k: nat, below: nat)
    requires i < |pos| && k < |pos| && pos[k] != pos[i] && pos[k] in nodes
    requires LinkedOut(nodes, nodes', pos[i], Before(pos, i), After(pos, i + 1), below)
    requires pos[k] == After(pos, i + 1) <==> k == i + 1
    requires pos[k] == Before(pos, i) <==> k == i - 1
    ensures pos[k] in nodes'
    ensures nodes'[pos[k]].posPrev == if k == i + 1 then Before(pos, i) else nodes[pos[k]].posPrev
    ensures nodes'[pos[k]].posNext == if k == i - 1 then After(pos, i + 1) else nodes[pos[k]].posNext
  {
    hide Before, After;
  }

  lemma RemovedIndex(pos: seq<nat>, i: nat, k: nat)
    requires Distinct(pos) && i < |pos| && k < |pos| && k != i
    ensures var j := if k < i then k else k - 1;
      j < |Removed(pos, i)| && Removed(pos, i)[j] == pos[k] && pos[k] != pos[i]
  {
  }

  lemma RemovedLength(pos: seq<nat>, i: nat)
    requires i < |pos|
    ensures |Removed(pos, i)| == |pos| - 1
  {
  }

  lemma PosRemove(nodes: Nodes, nodes': Nodes, pos: seq<nat>, i: nat, below: nat)
    requires PosList(nodes, pos) && Distinct(pos) && i < |pos| && 0 !in nodes
    requires LinkedOut(nodes, nodes', pos[i], Before(pos, i), After(pos, i + 1), below)
    ensures PosList(nodes', Removed(pos, i))
  {
    hide PosList, Before, After, Distinct, LinkedOut, Removed;
    RemovedLength(pos, i);
    forall j: nat | j < |Removed(pos, i)|
      ensures LinkedAt(nodes', Removed(pos, i), j)
    {
      PosRemoveAt(nodes, nodes', pos, i, if j < i then j else j + 1, below);
    }
    AllLinked(nodes', Removed(pos, i));
  }

  lemma PosRemoveAt(nodes: Nodes, nodes': Nodes, pos: seq<nat>, i: nat, k: nat, below: nat)
    requires PosList(nodes, pos) && Distinct(pos) && i < |pos| && k < |pos| && k != i && 0 !in nodes
    requires LinkedOut(nodes, nodes', pos[i], Before(pos, i), After(pos, i + 1), below)
    ensures var j := if k < i then k else k - 1;
      && j < |Removed(pos, i)| && Removed(pos, i)[j] == pos[k] && pos[k] in nodes'
      && nodes'[pos[k]].posPrev == Before(Removed(pos, i), j)
      && nodes'[pos[k]].posNext == After(Removed(pos, i), j + 1)
  {
    AllIn(nodes, pos);
    hide Before, After, Distinct, LinkedOut, PosList, Removed;
    RemovedIndex(pos, i, k);
    PosAt(nodes, pos, k);
    RemovedNeighbours(nodes, pos, i, k);
    NeighbourFields(nodes, nodes', pos, i, k, below);
    PosRemoveOne(pos, i, k, nodes[pos[k]], nodes'[pos[k]]);
  }

  lemma AllIn(nodes: Nodes, pos: seq<nat>)
    requires PosList(nodes, pos)
    ensures forall j | 0 <= j < |pos| :: pos[j] in nodes
  {
  }

  lemma RemovedNeighbours(nodes: Nodes, pos: seq<nat>, i: nat, k: nat)
    requires Distinct(pos) && i < |pos| && k < |pos| && k != i && 0 !in nodes
    requires forall j | 0 <= j < |pos| :: pos[j] in nodes
    ensures pos[k] == After(pos, i + 1) <==> k == i + 1
    ensures pos[k] == Before(pos, i) <==> k == i - 1
  {
  }

  lemma SizePop(nodes: Nodes, nodes': Nodes, xs: seq<nat>, prev: nat, next: nat)
    requires SizeList(nodes, xs) && Distinct(xs) && xs != [] && 0 !in nodes
    requires LinkedOut(nodes, nodes', Top(xs), prev, next, Before(xs, |xs| - 1))
    ensures SizeList(nodes', xs[..|xs| - 1])
  {
    var xs' := xs[..|xs| - 1];
    forall j: nat | j < |xs'|
      ensures xs'[j] in nodes' && nodes'[xs'[j]].sizePrev == Before(xs', j)
      ensures nodes'[xs'[j]].sizeNext == After(xs', j + 1)
    {
      SizePopAt(nodes, nodes', xs, prev, next, j);
    }
  }

  lemma SizePopAt(nodes: Nodes, nodes': Nodes, xs: seq<nat>, prev: nat, next: nat, j: nat)
    requires SizeList(nodes, xs) && Distinct(xs) && xs != [] && 0 !in nodes && j < |xs| - 1
    requires LinkedOut(nodes, nodes', Top(xs), prev, next, Before(xs, |xs| - 1))
    ensures var xs' := xs[..|xs| - 1];
      xs[j] in nodes' && nodes'[xs[j]].sizePrev == Before(xs', j) && nodes'[xs[j]].sizeNext == After(xs', j + 1)
  {
    assert xs[j] != Top(xs);
    assert xs[j] == Before(xs, |xs| - 1) <==> j == |xs| - 2;
  }

  lemma SizeKeptOut(nodes: Nodes, nodes': Nodes, xs: seq<nat>, a: nat, prev: nat, next: nat, below: nat)
    requires SizeList(nodes, xs) && a !in xs && below !in xs
    requires LinkedOut(nodes, nodes', a, prev, next, below)
    ensures SizeList(nodes', xs)
  {
  }

  lemma RemovedKeeps(pos: seq<nat>, i: nat, x: nat)
    requires i < |pos| && x in pos && x != pos[i]
    ensures x in Removed(pos, i)
  {
    var j :| 0 <= j < |pos| && pos[j] == x;
    assert Removed(pos, i)[if j < i then j else j - 1] == x;
  }

  lemma RemovedOnly(pos: seq<nat>, i: nat, j: nat)
    requires Distinct(pos) && i < |pos| && j < |Removed(pos, i)|
    ensures Removed(pos, i)[j] in pos && Removed(pos, i)[j] != pos[i]
  {
    assert Removed(pos, i)[j] == pos[if j < i then j else j + 1];
  }

  lemma ButLast(xs: seq<nat>, x: nat)
    requires x in xs && x != Top(xs)
    ensures xs != [] && x in xs[..|xs| - 1]
  {
    var k :| 0 <= k < |xs| && xs[k] == x;
    assert xs[..|xs| - 1][k] == x;
  }

  lemma EnteredRemove(nodes: Nodes, nodes': Nodes, pos: seq<nat>, lists: seq<seq<nat>>, free: map<nat, Block>,
                      i: nat, l: nat, prev: nat, next: nat, below: nat)
    requires AllEntered(nodes, pos, lists, free) && Distinct(pos) && i < |pos| && l < LEVELS
    requires lists[l] != [] && pos[i] == Top(lists[l])
    requires LinkedOut(nodes, nodes', pos[i], prev, next, below)
    ensures AllEntered(nodes', Removed(pos, i), lists[l := lists[l][..|lists[l]| - 1]], free - {pos[i]})
  {
    hide Removed, Distinct;
    var a := pos[i];
    var pos', lists', free' := Removed(pos, i), lists[l := lists[l][..|lists[l]| - 1]], free - {a};
    forall x | x in free'
      ensures x in pos' && x in lists'[free'[x].level]
    {
      RemovedKeeps(pos, i, x);
      if free[x].level == l {
        ButLast(lists[l], x);
      }
    }
  }

  lemma LevelsRemove(lists: seq<seq<nat>>, free: map<nat, Block>, l: nat, a: nat)
    requires AllLevels(lists, free) && l < LEVELS && lists[l] != [] && a == Top(lists[l])
    ensures AllLevels(lists[l := lists[l][..|lists[l]| - 1]], free - {a})
  {
    var lists', free' := lists[l := lists[l][..|lists[l]| - 1]], free - {a};
    assert lists[l][|lists[l]| - 1] == a && free[a].level == l;
    forall k, j | 0 <= k < LEVELS && 0 <= j < |lists'[k]|
      ensures lists'[k][j] in free' && free'[lists'[k][j]].level == k
    {
      assert lists'[k][j] == lists[k][j] && lists[k][j] in free;
    }
  }

  lemma ListedRemove(nodes: Nodes, nodes': Nodes, pos: seq<nat>, lists: seq<seq<nat>>, free: map<nat, Block>,
                     i: nat, l: nat, prev: nat, next: nat, below: nat)
    requires Listed(nodes, pos, lists, free) && Distinct(pos) && i < |pos| && l < LEVELS
    requires lists[l] != [] && pos[i] == Top(lists[l])
    requires LinkedOut(nodes, nodes', pos[i], prev, next, below)
    ensures Listed(nodes', Removed(pos, i), lists[l := lists[l][..|lists[l]| - 1]], free - {pos[i]})
  {
    hide LinkedOut, AllLevels, Removed, Distinct, Top;
    LevelsSize(lists, free);
    EnteredRemove(nodes, nodes', pos, lists, free, i, l, prev, next, below);
    LevelsRemove(lists, free, l, pos[i]);
    forall j | 0 <= j < |Removed(pos, i)|
      ensures Removed(pos, i)[j] in free - {pos[i]}
    {
      RemovedOnly(pos, i, j);
    }
  }

  lemma LevelsSize(lists: seq<seq<nat>>, free: map<nat, Block>)
    requires AllLevels(lists, free)
    ensures |lists| == LEVELS
  {
  }

  lemma SortedRemove(pos: seq<nat>, free: map<nat, Block>, i: nat)
    requires SortedByAddress(pos, free) && i < |pos|
    ensures SortedByAddress(Removed(pos, i), free - {pos[i]})
  {
    var pos' := Removed(pos, i);
    forall x | 0 <= x < |pos'|
      ensures pos'[x] == pos[if x < i then x else x + 1]
    {
    }
  }

  lemma PopPosition(nodes: Nodes, pos: seq<nat>, free: map<nat, Block>, i: nat)
    requires PosList(nodes, pos) && Distinct(pos) && i < |pos|
    ensures pos[i] in nodes
    ensures var n := nodes[pos[i]];
      && n.posPrev == Before(pos, i) && n.posNext == After(pos, i + 1)
      && (n.posPrev == 0 || (n.posPrev in nodes && n.posPrev != pos[i]))
      && (n.posNext == 0 || (n.posNext in nodes && n.posNext != pos[i]))
  {
  }

  lemma PopSize(nodes: Nodes, pos: seq<nat>, lists: seq<seq<nat>>, free: map<nat, Block>, l: nat)
    requires Listed(nodes, pos, lists, free) && l < LEVELS && SizeList(nodes, lists[l]) && lists[l] != []
    ensures var a := Top(lists[l]);
      && a in free && a in nodes && free[a].level == l && nodes[a].sizePrev == Before(lists[l], |lists[l]| - 1)
      && var n := nodes[a];
         || n.sizePrev == 0
         || (n.sizePrev in free && n.sizePrev in nodes && n.sizePrev != a && free[n.sizePrev].level == l)
  {
    var xs := lists[l];
    assert xs[|xs| - 1] in free && free[xs[|xs| - 1]].level == l;
    if |xs| > 1 {
      assert xs[|xs| - 2] in free && free[xs[|xs| - 2]].level == l;
      assert xs[|xs| - 2] != xs[|xs| - 1];
    }
  }

  /** The top node of a level: its neighbours, and the node below it. */
  lemma TopNode(nodes: Nodes, heads: seq<nat>, pos: seq<nat>, lists: seq<seq<nat>>, free: map<nat, Block>,
                l: nat, i: nat)
    requires Lists(nodes, heads, pos, lists, free) && l < LEVELS && lists[l] != [] && i < |pos| && pos[i] == heads[l]
    ensures heads[l] in nodes && LinksOthers(nodes, heads[l])
    ensures var a, xs := heads[l], lists[l];
      && nodes[a].posPrev == Before(pos, i) && nodes[a].posNext == After(pos, i + 1)
      && nodes[a].sizePrev == Before(xs, |xs| - 1) && a == Top(xs) && a in free && free[a].level == l
      && (nodes[a].sizePrev == 0 || (nodes[a].sizePrev in free && free[nodes[a].sizePrev].level == l))
    ensures Distinct(pos) && forall j | 0 <= j < |pos| :: pos[j] in free
  {
    HeadIsNode(nodes, heads, pos, lists, free, l);
    PosDistinct(pos, free);
    hide SortedByAddress, Before, After;
    PopPosition(nodes, pos, free, i);
    PopSize(nodes, pos, lists, free, l);
  }

  /** Taking the top node of a level off keeps both kinds of list well formed. */
  lemma PopLists(nodes: Nodes, heads: seq<nat>, pos: seq<nat>, lists: seq<seq<nat>>, free: map<nat, Block>,
                 l: nat, i: nat)
    requires Lists(nodes, heads, pos, lists, free) && l < LEVELS && lists[l] != []
    requires i < |pos| && pos[i] == heads[l]
    ensures heads[l] in nodes && LinksOthers(nodes, heads[l])
    ensures Lists(Popped(nodes, heads[l]), heads[l := nodes[heads[l]].sizePrev], Removed(pos, i),
      lists[l := lists[l][..|lists[l]| - 1]], free - {pos[i]})
  {
    hide Popped, PosList, AllSizes, SortedByAddress, Removed, Listed, LinkedOut, LinksOthers, Distinct, Before, After;
    ListSizes(nodes, heads, pos, lists, free);
    var a := pos[i];
    TopNode(nodes, heads, pos, lists, free, l, i);
    var prev, next, below := nodes[a].posPrev, nodes[a].posNext, nodes[a].sizePrev;
    var nodes' := Popped(nodes, a);
    PosRemove(nodes, nodes', pos, i, below);
    SortedRemove(pos, free, i);
    ListedRemove(nodes, nodes', pos, lists, free, i, l, prev, next, below);
    PopOthers(nodes, nodes', heads, pos, lists, free, l, a, prev, next, below);
  }

  lemma ListSizes(nodes: Nodes, heads: seq<nat>, pos: seq<nat>, lists: seq<seq<nat>>, free: map<nat, Block>)
    requires Lists(nodes, heads, pos, lists, free)
    ensures |heads| == |lists| == LEVELS && 0 !in nodes && nodes.Keys == free.Keys
  {
    HeadIsNode(nodes, heads, pos, lists, free, 0);
    hide PosList, SortedByAddress, Listed, SizeList;
  }

  lemma PopOther(nodes: Nodes, nodes': Nodes, heads: seq<nat>, pos: seq<nat>, lists: seq<seq<nat>>,
                 free: map<nat, Block>, l: nat, a: nat, prev: nat, next: nat, below: nat, k: nat)
    requires Listed(nodes, pos, lists, free) && k < LEVELS && l != k && SizeList(nodes, lists[k])
    requires a in free && free[a].level == l && (below == 0 || (below in free && free[below].level == l))
    requires LinkedOut(nodes, nodes', a, prev, next, below)
    ensures SizeList(nodes', lists[k])
  {
    LevelElsewhere(nodes, pos, lists, free, a, l, k);
    LevelElsewhere(nodes, pos, lists, free, below, l, k);
    hide LinkedOut, SizeList, Listed;
    SizeKeptOut(nodes, nodes', lists[k], a, prev, next, below);
  }

  lemma PopOthers(nodes: Nodes, nodes': Nodes, heads: seq<nat>, pos: seq<nat>, lists: seq<seq<nat>>,
                  free: map<nat, Block>, l: nat, a: nat, prev: nat, next: nat, below: nat)
    requires Listed(nodes, pos, lists, free) && AllSizes(nodes, heads, lists) && 0 !in nodes
    requires l < LEVELS && lists[l] != [] && a == Top(lists[l])
    requires a in free && free[a].level == l && (below == 0 || (below in free && free[below].level == l))
    requires below == Before(lists[l], |lists[l]| - 1)
    requires LinkedOut(nodes, nodes', a, prev, next, below)
    ensures AllSizes(nodes', heads[l := below], lists[l := lists[l][..|lists[l]| - 1]])
  {
    hide Listed, LinkedOut, SizeList, Distinct, Top, Before;
    DistinctLevel(nodes, pos, lists, free, l);
    TopOfRest(lists[l]);
    SizePop(nodes, nodes', lists[l], prev, next);
    forall k | 0 <= k < LEVELS && k != l
      ensures SizeList(nodes', lists[k])
    {
      PopOther(nodes, nodes', heads, pos, lists, free, l, a, prev, next, below, k);
    }
  }

  lemma TopOfRest(xs: seq<nat>)
    requires xs != []
    ensures Top(xs[..|xs| - 1]) == Before(xs, |xs| - 1)
  {
  }

  lemma DistinctLevel(nodes: Nodes, pos: seq<nat>, lists: seq<seq<nat>>, free: map<nat, Block>, l: nat)
    requires Listed(nodes, pos, lists, free) && l < LEVELS
    ensures Distinct(lists[l])
  {
  }

  lemma LevelElsewhere(nodes: Nodes, pos: seq<nat>, lists: seq<seq<nat>>, free: map<nat, Block>, a: nat, l: nat, k: nat)
    requires Listed(nodes, pos, lists, free) && k < LEVELS && l != k
    requires a == 0 || (a in free && free[a].level == l)
    ensures a !in lists[k]
  {
    forall i | 0 <= i < |lists[k]|
      ensures lists[k][i] != a
    {
      assert lists[k][i] in free && free[lists[k][i]].level == k;
    }
  }
}
