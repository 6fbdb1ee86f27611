/** The kernel's memory manager (Common/Kernel/Memory/Mm.c): initialisation and allocation. */
module Mm {
  import opened Limits
  import opened Bits
  import opened UsableMemory
  import opened Handover
  import opened MmBlocks
  import opened MmLists
  import opened MmState
  import opened MmSetup

  class MemoryManager {
    const heads: array<nat>
    var nodes: Nodes
    var kernelMap: seq<Entry>
    ghost var pos: seq<nat>
    ghost var lists: seq<seq<nat>>
    ghost var free: map<nat, Block>
    ghost var all: set<Block>

    /** Before initialisation: empty lists, and whatever memory happens to hold where descriptors will be. */
    constructor (garbage: Nodes)
      ensures heads.Length == LEVELS && (forall l | 0 <= l < LEVELS :: heads[l] == 0)
      ensures nodes == garbage && kernelMap == []
    {
      heads := new nat[LEVELS](_ => 0);
      nodes := garbage;
      kernelMap := [];
    }

    ghost predicate Ready()
      reads this, heads
    {
      heads.Length == LEVELS && Consistent(kernelMap, nodes, heads[..], pos, lists, free, all)
    }

    /** The blocks that callers hold. */
    ghost function HandedOut(): set<Block>
      reads this
    {
      all - free.Values
    }

    /** How many bits a number has, minus one; by shifting until nothing is left. */
    method Logarithm(space: nat) returns (l: nat)
      requires 1 <= space < LIMIT_64 / 2
      ensures l == Log2(space)
    {
      PageSizes();
      hide Pow2;
      l := 0;
      ShiftIsZero(space, 0);
      PowZero();
      while space / Pow2(l) != 0
        invariant l <= MAX_LEVEL && (l == 0 || Pow2(l - 1) <= space)
        decreases MAX_LEVEL - l
      {
        ShiftIsZero(space, l);
        l := l + 1;
        ShiftIsZero(space, l);
      }
      ShiftIsZero(space, l);
      l := l - 1;
      Log2Unique(space, l);
    }

    /** Cuts the data part of an entry into blocks, all of them free. */
    method FillEntry(u: seq<Entry>, n: nat, prev: nat) returns (previous: nat)
      requires n < |u| && heads.Length == LEVELS && prev == Top(pos)
      requires SettingUp(u, nodes, heads[..], pos, lists, free, all, n, DataStart(u[n]), n + 1)
      modifies this, heads
      ensures SettingUp(u, nodes, heads[..], pos, lists, free, all, n, u[n].End(), n + 1)
      ensures previous == Top(pos) && kernelMap == old(kernelMap)
      ensures all == old(all) + Row(DataStart(u[n]), Pieces(DataSpace(u[n])))
    {
      hide SettingUp, Pow2, Pushed, Row, Pieces, InData, Log2, Slot, Filling, Reserved, DataStart, DataSpace;
      EntryFacts(u, nodes, heads[..], pos, lists, free, all, n, DataStart(u[n]), n + 1);
      previous := prev;
      var reserved := Reserved(u[n]);
      var start, offset: nat, space: nat := u[n].base, 0, u[n].limit - reserved;
      while space >= PAGE_SIZE
        invariant Filling(u[n], offset, space)
        invariant SettingUp(u, nodes, heads[..], pos, lists, free, all, n, DataStart(u[n]) + offset, n + 1)
        invariant previous == Top(pos) && kernelMap == old(kernelMap)
        invariant all + Row(DataStart(u[n]) + offset, Pieces(space))
          == old(all) + Row(DataStart(u[n]), Pieces(DataSpace(u[n])))
        decreases space
      {
        NextPiece(u[n], offset, space);
        RowStep(DataStart(u[n]) + offset, space);
        var log := Logarithm(space);
        var address := start + offset / SCALING;
        var pointer := start + reserved + offset;
        AddBlock(address, pointer, previous, log, u, n);
        previous := address;
        space := space - Pow2(log);
        offset := offset + Pow2(log);
      }
      Filled(u[n], offset, space);
    }

    /** Adds the next block of an entry that is being filled. */
    method AddBlock(address: nat, pointer: nat, prev: nat, level: nat, ghost u: seq<Entry>, ghost n: nat)
      requires n < |u| && heads.Length == LEVELS && prev == Top(pos) && level < LEVELS
      requires SettingUp(u, nodes, heads[..], pos, lists, free, all, n, pointer, n + 1)
      requires InData(u[n], Block(pointer, level)) && address == Slot(u[n], pointer)
      modifies this, heads
      ensures SettingUp(u, nodes, heads[..], pos, lists, free, all, n, pointer + Pow2(level), n + 1)
      ensures Top(pos) == address && kernelMap == old(kernelMap)
      ensures all == old(all) + {Block(pointer, level)}
    {
      hide SettingUp, Pow2, Pushed, InData, Slot, LinkedIn;
      ghost var b := Block(pointer, level);
      PushSettingUp(u, nodes, heads[..], pos, lists, free, all, n, pointer, b, address);
      ghost var nodes0, below := nodes, heads[level];
      AddNode(address, pointer, prev, level);
      LinkedIsPushed(nodes0, nodes, address, pointer, prev, 0, below);
      free := free[address := b];
      all := all + {b};
      pos := pos + [address];
      lists := lists[level := lists[level] + [address]];
    }

    /** Writes the fields of a new node at the end of the position list; the field that is not written is
        zero because the memory has been cleared. */
    method AddNode(a: nat, pointer: nat, prev: nat, level: nat)
      requires level < heads.Length && a !in nodes && a != 0 && 0 !in nodes
      requires (prev == 0 || prev in nodes) && (heads[level] == 0 || heads[level] in nodes)
      modifies this`nodes, heads
      ensures LinkedIn(old(nodes), nodes, a, pointer, prev, 0, old(heads[level]))
      ensures heads[..] == old(heads[..])[level := a]
    {
      nodes := nodes[a := At(nodes, a).(pointer := pointer, posPrev := prev, posNext := 0)];
      if prev != 0 {
        nodes := nodes[prev := At(nodes, prev).(posNext := a)];
      }
      var below := heads[level];
      nodes := nodes[a := At(nodes, a).(sizePrev := below)];
      heads[level] := a;
      if below != 0 {
        nodes := nodes[below := At(nodes, below).(sizeNext := a)];
      }
    }

    /** Sets the manager up over a map that has passed the kernel's checks. */
    method Initialize(u: seq<Entry>) returns (ok: bool)
      requires u == [] || KernelMap(u)
      requires heads.Length == LEVELS && (forall l | 0 <= l < LEVELS :: heads[l] == 0)
      requires GarbageFrom(u, nodes, map[], 0)
      modifies this, heads
      ensures ok <==> u != []
      ensures ok ==> Ready() && kernelMap == u && HandedOut() == {} && all == Rows(u, |u|)
      ensures ok ==> AllButDescriptorsFree(u, free.Values)
    {
      hide SettingUp, Pow2, Row, Pieces, GoodEntry, Reserved, DataStart, DataSpace, Filling, Consistent, Cleared,
           GarbageFrom, KernelMap;
      if u == [] {
        return false;
      }
      kernelMap := u;
      free, all, pos := map[], {}, [];
      lists := seq(LEVELS, _ => []);
      EmptySetup(u, nodes, heads[..]);
      var previous, entry := 0, 0;
      while entry < |u|
        invariant 0 <= entry <= |u| && heads.Length == LEVELS && previous == Top(pos) && kernelMap == u
        invariant SettingUp(u, nodes, heads[..], pos, lists, free, all, entry,
                            if entry < |u| then u[entry].base else 0, entry)
        invariant all == Rows(u, entry)
      {
        EntryFacts(u, nodes, heads[..], pos, lists, free, all, entry, u[entry].base, entry);
        var reserved := Reserved(u[entry]);
        ClearEntry(u, nodes, heads[..], pos, lists, free, all, entry);
        nodes := Cleared(nodes, u[entry].base, DataStart(u[entry]));
        var space := u[entry].limit - reserved;
        if space < u[entry].limit / 2 {
          return false;
        }
        ToDataStart(u, nodes, heads[..], pos, lists, free, all, entry);
        previous := FillEntry(u, entry, previous);
        EntryDone(u, nodes, heads[..], pos, lists, free, all, entry);
        entry := entry + 1;
      }
      SetupDone(u, nodes, heads[..], pos, lists, free, all);
      AllFree(u, nodes, heads[..], pos, lists, free, all);
      NothingElseIsSetAside(u, nodes, heads[..], pos, lists, free, all);
      ok := true;
    }

    /** Links a block in, between two neighbours on the position list and on top of its level. */
    method PushBlock(a: nat, pointer: nat, prev: nat, next: nat, level: nat, ghost i: nat)
      requires Ready() && i <= |pos| && prev == Before(pos, i) && next == After(pos, i)
      requires var b := Block(pointer, level); b in HandedOut() && DescribedBy(kernelMap, b, a)
      requires i > 0 ==> prev in free && free[prev].start < pointer
      requires i < |pos| ==> next in free && pointer < free[next].start
      modifies this, heads
      ensures Ready() && kernelMap == old(kernelMap) && all == old(all)
      ensures free == old(free)[a := Block(pointer, level)] && a !in old(free) && a != 0
      ensures pos == Inserted(old(pos), i, a)
      ensures heads[..] == old(heads[..])[level := a]
    {
      hide Consistent, DescribedBy, Pushed, Inserted, LinkedIn;
      ghost var b := Block(pointer, level);
      PushConsistent(kernelMap, nodes, heads[..], pos, lists, free, all, i, a, b);
      free := free[a := b];
      pos := Inserted(pos, i, a);
      lists := lists[level := lists[level] + [a]];
      ghost var nodes0, below := nodes, heads[level];
      LinkNode(a, pointer, prev, next, level);
      LinkedIsPushed(nodes0, nodes, a, pointer, prev, next, below);
    }

    method LinkNode(a: nat, pointer: nat, prev: nat, next: nat, level: nat)
      requires level < heads.Length && a !in nodes && a != 0 && 0 !in nodes
      requires (prev == 0 || prev in nodes) && (next == 0 || next in nodes)
      requires heads[level] == 0 || heads[level] in nodes
      modifies this`nodes, heads
      ensures LinkedIn(old(nodes), nodes, a, pointer, prev, next, old(heads[level]))
      ensures heads[..] == old(heads[..])[level := a]
    {
      LinkPosition(a, pointer, prev, next);
      LinkLevel(a, level);
    }

    method LinkPosition(a: nat, pointer: nat, prev: nat, next: nat)
      requires a !in nodes && a != 0 && 0 !in nodes
      requires (prev == 0 || prev in nodes) && (next == 0 || next in nodes)
      modifies this`nodes
      ensures PositionLinked(old(nodes), nodes, a, pointer, prev, next)
    {
      nodes := nodes[a := At(nodes, a).(pointer := pointer, posPrev := prev, posNext := next)];
      if prev != 0 {
        nodes := nodes[prev := At(nodes, prev).(posNext := a)];
      }
      if next != 0 {
        nodes := nodes[next := At(nodes, next).(posPrev := a)];
      }
    }

    method LinkLevel(a: nat, level: nat)
      requires level < heads.Length && a in nodes && 0 !in nodes && heads[level] != a
      requires heads[level] == 0 || heads[level] in nodes
      modifies this`nodes, heads
      ensures LevelLinked(old(nodes), nodes, a, old(heads[level]))
      ensures heads[..] == old(heads[..])[level := a]
    {
      var below := heads[level];
      nodes := nodes[a := At(nodes, a).(sizePrev := below)];
      heads[level] := a;
      if below != 0 {
        nodes := nodes[below := At(nodes, below).(sizeNext := a)];
      }
      nodes := nodes[a := At(nodes, a).(sizeNext := 0)];
    }

    /** Takes the top block of a level off both lists, and clears its node. */
    method PopBlock(level: nat) returns (pointer: nat, ghost i: nat)
      requires Ready() && level < LEVELS
      modifies this, heads
      ensures Ready() && kernelMap == old(kernelMap) && all == old(all)
      ensures old(heads[level]) == 0 ==> pointer == 0 && free == old(free) && heads[..] == old(heads[..])
      ensures var a := old(heads[level]); a != 0 ==>
        && a in old(free) && old(free)[a] == Block(pointer, level) && pointer != 0
        && free == old(free) - {a} && HandedOut() == old(HandedOut()) + {Block(pointer, level)}
        && Block(pointer, level) !in old(HandedOut()) && Block(pointer, level) !in free.Values
        && i < |old(pos)| && old(pos)[i] == a && pos == Removed(old(pos), i)
      ensures forall l | 0 <= l < LEVELS && l != level :: heads[l] == old(heads[l])
    {
      hide Consistent, DescribedBy, Popped, LinkedOut, LinksOthers;
      i := 0;
      HeadFacts(kernelMap, nodes, heads[..], pos, lists, free, all, level);
      var a := heads[level];
      pointer := 0;
      if a != 0 {
        pointer := At(nodes, a).pointer;
        if pointer != 0 {
          i :| 0 <= i < |pos| && pos[i] == a;
          PopConsistent(kernelMap, nodes, heads[..], pos, lists, free, all, level, i);
          BlocksDiffer(kernelMap, nodes, heads[..], pos, lists, free, all, a);
          PopOut(all, free, a);
          free := free - {a};
          pos := Removed(pos, i);
          lists := lists[level := lists[level][..|lists[level]| - 1]];
          ghost var nodes0 := nodes;
          UnlinkNode(a, level);
          LinkedIsPopped(nodes0, nodes, a);
        }
      }
    }

    method UnlinkNode(a: nat, level: nat)
      requires level < heads.Length && a == heads[level] && a in nodes && LinksOthers(nodes, a)
      modifies this`nodes, heads
      ensures var n := old(nodes)[a]; LinkedOut(old(nodes), nodes, a, n.posPrev, n.posNext, n.sizePrev)
      ensures heads[..] == old(heads[..])[level := old(nodes)[a].sizePrev]
    {
      var prev, next, below := At(nodes, a).posPrev, At(nodes, a).posNext, At(nodes, a).sizePrev;
      if prev != 0 {
        nodes := nodes[prev := At(nodes, prev).(posNext := next)];
      }
      if next != 0 {
        nodes := nodes[next := At(nodes, next).(posPrev := prev)];
      }
      heads[level] := below;
      if below != 0 {
        nodes := nodes[below := At(nodes, below).(sizeNext := 0)];
      }
      nodes := nodes - {a};
    }

    /** Breaks the top block of a level up: into one block of every level below it down to the target,
        and a second one of the target level, which comes last and ends up on top. */
    method DivideBlock(node: nat, level: nat, target: nat) returns (ok: bool)
      requires Ready() && level < LEVELS && node == heads[level]
      modifies this, heads
      ensures Ready() && kernelMap == old(kernelMap)
      ensures ok <==> node != 0 && MIN_LEVEL <= target < level
      ensures !ok ==> free == old(free) && all == old(all) && heads[..] == old(heads[..])
      ensures ok ==> node in old(free) && old(free)[node].level == level
      ensures ok ==> HandedOut() == old(HandedOut())
      ensures ok ==> heads[target] in free && LastPiece(old(free)[node], target, free[heads[target]])
      ensures ok ==> OthersKept(old(free), free, node)
    {
      hide Consistent, DescribedBy, Pushed, Inserted, Removed, OthersKept, Remainder, LastPiece, Pow2;
      HeadFacts(kernelMap, nodes, heads[..], pos, lists, free, all, level);
      if node == 0 || At(nodes, node).pointer == 0 {
        return false;
      } else if target >= level {
        return false;
      }
      if target < MIN_LEVEL {
        return false;
      } else if level > MAX_LEVEL {
        return false;
      }
      var buffer := PieceLevels(level, target);
      ghost var b, out0, free0 := free[node], HandedOut(), free;
      var previous, next := nodes[node].posPrev, nodes[node].posNext;
      ghost var pos0 := pos;
      ghost var j :| 0 <= j < |pos| && pos[j] == node;
      NeighbourFacts(kernelMap, nodes, heads[..], pos, lists, free, all, j);
      ghost var nodes0, heads0, lists0 := nodes, heads[..], lists;
      var pointer, i := PopBlock(level);
      if pointer == 0 {
        return false;
      }
      PositionIsUnique(kernelMap, nodes0, heads0, pos0, lists0, free0, all, j, i);
      PoppedNeighbours(pos0, j);
      StartDividing(all, free0, node);
      PushPieces(node, pointer, previous, next, buffer, level, target, j, b, out0, free0);
      ok := true;
    }

    /** The loop that makes the pieces: what is left of the block is always the second half of what was
        left before, until it has the target size itself. */
    method PushPieces(node: nat, pointer: nat, prev: nat, next: nat, buffer: array<nat>, level: nat, target: nat,
                      ghost j: nat, ghost b: Block, ghost out0: set<Block>, ghost free0: map<nat, Block>)
      requires Ready() && MIN_LEVEL <= target < level < LEVELS && buffer.Length == level - target + 1
      requires forall k | 0 <= k < buffer.Length :: buffer[k] == if k < level - target then level - k - 1 else target
      requires buffer != heads && b == Block(pointer, level) && node in free0 && free0[node] == b
      requires j <= |pos| && prev == Before(pos, j) && next == After(pos, j)
      requires j < |pos| ==> next in free && b.End() <= free[next].start
      requires j > 0 ==> prev in free && free[prev].start < pointer
      requires Remainder(all, free, out0, b, b) && DescribedBy(kernelMap, b, node)
      requires OthersKept(free0, free, node)
      modifies this, heads
      ensures Ready() && kernelMap == old(kernelMap)
      ensures HandedOut() == out0 && OthersKept(free0, free, node)
      ensures heads[target] in free && LastPiece(b, target, free[heads[target]])
    {
      hide Consistent, DescribedBy, Pushed, Inserted, OthersKept, Remainder, LastPiece, Pow2;
      var address: nat, location: nat, previous, index := node, pointer, prev, 0;
      while index < buffer.Length
        invariant 0 <= index <= buffer.Length && Ready() && kernelMap == old(kernelMap)
        invariant j + index <= |pos| && previous == Before(pos, j + index) && next == After(pos, j + index)
        invariant j + index < |pos| ==> next in free && b.End() <= free[next].start
        invariant index < buffer.Length ==>
          && Remainder(all, free, out0, b, Block(location, level - index))
          && DescribedBy(kernelMap, Block(location, level - index), address)
          && (j + index > 0 ==> previous in free && free[previous].start < location)
        invariant index == buffer.Length ==>
          HandedOut() == out0 && heads[target] in free && LastPiece(b, target, free[heads[target]])
        invariant OthersKept(free0, free, node)
      {
        ghost var rem, all1, free1, pos1 := Block(location, level - index), all, free, pos;
        ValuesInAll(kernelMap, nodes, heads[..], pos, lists, free, all);
        RemainderFacts(all, free, out0, b, rem);
        if index < level - target {
          SplitConsistent(kernelMap, nodes, heads[..], pos, lists, free, all, rem);
          HalvesDescribed(kernelMap, rem, address);
          HalvesInside(b, rem);
          LeftIsHandedOut(all, free, out0, b, rem);
          all := SplitBlock(all, rem);
        }
        PushBlock(address, location, previous, next, buffer[index], j + index);
        NewNeighbours(pos1, j + index, address);
        OthersStillKept(free0, free1, node, address, Block(location, buffer[index]));
        if index < level - target {
          NextRemainder(all1, free1, out0, b, rem, address);
        } else {
          LastRemainder(all1, free1, out0, b, rem, address);
        }
        previous := address;
        address := address + Pow2(buffer[index]) / SCALING;
        location := location + Pow2(buffer[index]);
        index := index + 1;
      }
    }

    method PieceLevels(level: nat, target: nat) returns (buffer: array<nat>)
      requires target < level
      ensures fresh(buffer) && buffer.Length == level - target + 1
      ensures forall k | 0 <= k < buffer.Length :: buffer[k] == if k < level - target then level - k - 1 else target
    {
      buffer := new nat[level - target + 1];
      var index := 0;
      while index < buffer.Length - 1
        invariant 0 <= index < buffer.Length
        invariant forall k | 0 <= k < index :: buffer[k] == level - k - 1
      {
        buffer[index] := level - index - 1;
        index := index + 1;
      }
      buffer[buffer.Length - 1] := target;
    }

    /** Hands out the smallest block that is large enough, cut from the smallest free one; or zero. */
    method Allocate(length: nat) returns (p: nat)
      requires kernelMap == [] || Ready()
      requires length <= Pow2(MAX_LEVEL)
      modifies this, heads
      ensures kernelMap == old(kernelMap) && (kernelMap != [] ==> Ready())
      ensures length == 0 || kernelMap == [] ==> p == 0
      ensures p == 0 ==> free == old(free) && all == old(all) && heads[..] == old(heads[..])
      ensures length > 0 && kernelMap != [] ==> (p == 0 <==> NoneFree(old(heads[..]), LevelFor(length)))
      ensures length > 0 && kernelMap != [] ==>
        (p == 0 <==> forall b | b in old(free.Values) :: b.End() - b.start < length)
      ensures p != 0 ==>
        && Granted(kernelMap, old(heads[..]), old(free), old(HandedOut()), HandedOut(), LevelFor(length), p)
        && BestFit(old(free), length, p)
    {
      if kernelMap == [] {
        return 0;
      } else if length == 0 {
        return 0;
      }
      hide Consistent, Pow2, LevelFor, CutFrom, NoneFree, HandedOut, BestFit, InSomeData;
      NoneFreeExactly(kernelMap, nodes, heads[..], pos, lists, free, all, length);
      ghost var u0, nodes0, heads0, pos0, lists0, free0, all0 := kernelMap, nodes, heads[..], pos, lists, free, all;
      var level := BlockLevel(length);
      p := 0;
      var ok := MakeAvailable(level);
      if !ok {
        return;
      }
      p := Serve(level, old(heads[..]), old(free), old(HandedOut()));
      if p != 0 {
        GrantedIsBestFit(u0, nodes0, heads0, pos0, lists0, free0, all0, length, p);
      }
    }

    method BlockLevel(length: nat) returns (level: nat)
      requires length <= Pow2(MAX_LEVEL)
      ensures level == LevelFor(length) && MIN_LEVEL <= level <= MAX_LEVEL
    {
      hide Pow2;
      level := MIN_LEVEL;
      while length > Pow2(level)
        invariant MIN_LEVEL <= level <= MAX_LEVEL && LevelFrom(length, level) == LevelFor(length)
        decreases MAX_LEVEL - level
      {
        level := level + 1;
      }
    }

    /** If the level has no free block, looks for the first larger one, and divides it down to the level. */
    method MakeAvailable(level: nat) returns (ok: bool)
      requires Ready() && MIN_LEVEL <= level <= MAX_LEVEL
      modifies this, heads
      ensures ok && Ready() && kernelMap == old(kernelMap) && HandedOut() == old(HandedOut())
      ensures NoneFree(old(heads[..]), level) ==>
        heads[level] == 0 && free == old(free) && all == old(all) && heads[..] == old(heads[..])
      ensures !NoneFree(old(heads[..]), level) ==>
        heads[level] != 0 && heads[level] in free && CutFrom(old(heads[..]), old(free), level, free[heads[level]])
    {
      hide Consistent, OthersKept, LastPiece, Pow2, CutFrom;
      ok := true;
      HeadFacts(kernelMap, nodes, heads[..], pos, lists, free, all, level);
      if heads[level] != 0 {
        CutHere(heads[..], free, level);
        return;
      }
      var l := level + 1;
      while l <= MAX_LEVEL
        invariant level + 1 <= l <= MAX_LEVEL + 1
        invariant forall m | level <= m < l :: heads[m] == 0
        invariant Ready() && kernelMap == old(kernelMap)
        invariant free == old(free) && all == old(all) && heads[..] == old(heads[..])
      {
        if heads[l] != 0 {
          HeadFacts(kernelMap, nodes, heads[..], pos, lists, free, all, l);
          ok := DivideBlock(heads[l], l, level);
          HeadNotNull(kernelMap, nodes, heads[..], pos, lists, free, all, heads[level]);
          CutAbove(old(heads[..]), old(free), level, l, free[heads[level]]);
          break;
        }
        l := l + 1;
      }
    }

    /** Pops the block that was found or made. */
    method Serve(level: nat, ghost heads0: seq<nat>, ghost free0: map<nat, Block>, ghost out0: set<Block>)
      returns (p: nat)
      requires Ready() && level < LEVELS && HandedOut() == out0
      requires heads[level] != 0 ==> heads[level] in free && CutFrom(heads0, free0, level, free[heads[level]])
      modifies this, heads
      ensures Ready() && kernelMap == old(kernelMap)
      ensures p == 0 <==> old(heads[level]) == 0
      ensures p == 0 ==> free == old(free) && all == old(all) && heads[..] == old(heads[..])
      ensures p != 0 ==> Granted(kernelMap, heads0, free0, out0, HandedOut(), level, p)
    {
      hide Consistent, CutFrom, Pow2, InSomeData;
      ghost var i;
      p, i := PopBlock(level);
      if p != 0 {
        BlockPlace(kernelMap, nodes, heads[..], pos, lists, free, all, Block(p, level));
      }
    }

    /** Any run of allocations: what is handed out is disjoint, and NULL comes only when nothing fits at the time. */
    method AllocateAll(lengths: seq<nat>) returns (ps: seq<nat>, ghost trace: seq<set<Block>>)
      requires Ready() && forall i | 0 <= i < |lengths| :: lengths[i] <= Pow2(MAX_LEVEL)
      modifies this, heads
      ensures Ready() && kernelMap == old(kernelMap) && |ps| == |lengths| == |trace| - 1
      ensures trace[0] == old(free.Values) && trace[|lengths|] == free.Values
      ensures forall i | 0 <= i < |ps| :: ps[i] == 0 <==> Refused(trace[i], lengths[i])
      ensures old(HandedOut()) <= HandedOut()
      ensures forall i | 0 <= i < |ps| && ps[i] != 0 ::
        var b := Block(ps[i], LevelFor(lengths[i]));
        && lengths[i] <= b.Size() && InSomeData(kernelMap, b) && b in HandedOut()
        && (forall c | c in old(HandedOut()) :: Disjoint(b, c))
      ensures forall i, j | 0 <= i < j < |ps| && ps[i] != 0 && ps[j] != 0 ::
        Disjoint(Block(ps[i], LevelFor(lengths[i])), Block(ps[j], LevelFor(lengths[j])))
    {
      hide Consistent, LevelFor, CutFrom, NoneFree, InSomeData, Disjoint, Pow2, KernelMap, BestFit, Block.End;
      ps, trace := [], [free.Values];
      while |ps| < |lengths|
        invariant |ps| == |trace| - 1 && |ps| <= |lengths| && Ready() && kernelMap == old(kernelMap)
        invariant trace[0] == old(free.Values) && trace[|ps|] == free.Values
        invariant forall i | 0 <= i < |ps| :: ps[i] == 0 <==> Refused(trace[i], lengths[i])
        invariant old(HandedOut()) <= HandedOut()
        invariant forall i | 0 <= i < |ps| && ps[i] != 0 ::
          var b := Block(ps[i], LevelFor(lengths[i]));
          && lengths[i] <= b.Size() && InSomeData(kernelMap, b) && b in HandedOut()
          && (forall c | c in old(HandedOut()) :: Disjoint(b, c))
        invariant forall i, j | 0 <= i < j < |ps| && ps[i] != 0 && ps[j] != 0 ::
          Disjoint(Block(ps[i], LevelFor(lengths[i])), Block(ps[j], LevelFor(lengths[j])))
      {
        ghost var out := HandedOut();
        var length := lengths[|ps|];
        MapIsNotEmpty(kernelMap, nodes, heads[..], pos, lists, free, all);
        var p := Allocate(length);
        if p != 0 {
          FitsLevel(length);
          NewIsDisjoint(kernelMap, nodes, heads[..], pos, lists, free, all, out, Block(p, LevelFor(length)));
        }
        ps, trace := ps + [p], trace + [free.Values];
      }
    }
  }
}
