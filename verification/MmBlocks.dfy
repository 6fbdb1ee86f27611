/**
 The blocks of the kernel's memory manager (Common/Kernel/Memory/Mm.c): powers of two that tile the data
 part of every usable entry, behind a reserved part that holds one descriptor slot per page.
 */
module MmBlocks {
  import opened Limits
  import opened Bits
  import opened UsableMemory
  import opened Handover

  const MIN_LEVEL := 12
  const MAX_LEVEL := 63
  const SCALING := 64 // SystemPageSize / sizeof(allocationNode)

  datatype Block = Block(start: nat, level: nat) {
    function Size(): (n: nat)
      ensures n >= 1
    {
      Pow2(level)
    }

    function End(): nat { start + Size() }

    predicate Holds(a: nat) { start <= a < End() }
  }

  predicate Disjoint(b: Block, c: Block) {
    b.End() <= c.start || c.End() <= b.start
  }

  // The two parts of an entry

  function Reserved(e: Entry): nat { PageAlign(e.limit / SCALING) }

  function DataStart(e: Entry): nat { e.base + Reserved(e) }

  /** Where the descriptor of the block at a given place is kept. */
  function Slot(e: Entry, start: int): int { e.base + (start - DataStart(e)) / SCALING }

  /** A map that the kernel accepts, with the assumptions that it does not check: no entry begins at
      address zero, wraps around the end of the address space, or is larger than half of it. */
  ghost predicate KernelMap(u: seq<Entry>) {
    && |u| > 0 && NeighboursDisjoint(u)
    && (forall i | 0 <= i < |u| :: 
         GoodEntry(u[i]) && u[i].base > 0 && u[i].End() < LIMIT_64 && u[i].limit <= LIMIT_64 / 2)
  }

  /** A block in the data part of an entry, at a page boundary. */
  predicate InData(e: Entry, b: Block) {
    && DataStart(e) <= b.start && b.End() <= e.End() && (b.start - DataStart(e)) % PAGE_SIZE == 0
    && MIN_LEVEL <= b.level <= MAX_LEVEL
  }

  ghost predicate InSomeData(u: seq<Entry>, b: Block) {
    exists i :: 0 <= i < |u| && InData(u[i], b)
  }

  /** The descriptor of a block, in the entry that the block lies in. */
  ghost predicate DescribedBy(u: seq<Entry>, b: Block, a: nat) {
    exists i :: 0 <= i < |u| && InData(u[i], b) && a == Slot(u[i], b.start)
  }

  lemma PageSizes()
    ensures Pow2(12) == PAGE_SIZE && Pow2(63) == LIMIT_64 / 2
  {
    assert Pow2(10) == 0x400;
    assert Pow2(20) == 0x10_0000;
    assert Pow2(30) == 0x4000_0000;
    assert Pow2(40) == 0x100_0000_0000;
    assert Pow2(50) == 0x4_0000_0000_0000;
    assert Pow2(60) == 0x1000_0000_0000_0000;
  }

  lemma {:induction false} PowMonotone(j: nat, k: nat)
    requires j <= k
    ensures Pow2(j) <= Pow2(k)
    decreases k
  {
    if j < k {
      PowMonotone(j, k - 1);
    }
  }

  lemma {:induction false} PowPages(k: nat)
    requires k >= MIN_LEVEL
    ensures Pow2(k) % PAGE_SIZE == 0 && Pow2(k) >= PAGE_SIZE
    decreases k
  {
    PageSizes();
    if k > MIN_LEVEL {
      PowPages(k - 1);
    }
  }

  /** The reserved part of an acceptable entry leaves more than half of it, in whole pages, and has a
      descriptor slot for each of these pages. */
  lemma ReservedPart(e: Entry)
    requires GoodEntry(e)
    ensures Reserved(e) % PAGE_SIZE == 0 && e.limit % PAGE_SIZE == 0
    ensures Reserved(e) <= e.limit && e.limit - Reserved(e) >= e.limit / 2
    ensures (e.limit - Reserved(e)) % PAGE_SIZE == 0
    ensures (e.limit - Reserved(e)) / SCALING <= Reserved(e)
  {
    DivModUnique(e.limit, PAGE_SIZE, e.End() / PAGE_SIZE - e.base / PAGE_SIZE, 0);
    DivModUnique(e.limit - Reserved(e), PAGE_SIZE, e.limit / PAGE_SIZE - Reserved(e) / PAGE_SIZE, 0);
  }

  /** It is the least number of whole pages with 64 bytes for each page of the entry: no more is set aside. */
  lemma {:induction false} ReservedLeast(e: Entry, a: nat)
    requires GoodEntry(e) && e.base <= a
    ensures DataStart(e) <= a <==> e.limit <= 64 * ((a - e.base) / 0x1000 * 0x1000)
    ensures e.limit <= 64 * (DataStart(e) - e.base) < e.limit + 64 * 0x1000
  {
    ReservedPart(e);
    var r, d := Reserved(e), a - e.base;
    var n, k := r / PAGE_SIZE, d / PAGE_SIZE;
    assert r == n * PAGE_SIZE && d == k * PAGE_SIZE + d % PAGE_SIZE;
    var q := e.limit / SCALING;
    LimitBy64(e.limit);
    hide Reserved;
    assert q <= r < q + PAGE_SIZE;
    assert r <= d <==> n <= k;
    assert n <= k <==> q <= k * PAGE_SIZE;
  }

  lemma LimitBy64(limit: nat)
    requires limit % PAGE_SIZE == 0
    ensures limit == 64 * (limit / SCALING)
  {
    DivModUnique(limit, SCALING, 64 * (limit / PAGE_SIZE), 0);
  }

  /** A descriptor slot lies in the reserved part, on a 64-byte boundary of its own. */
  lemma SlotInReserved(e: Entry, b: Block)
    requires GoodEntry(e) && InData(e, b)
    ensures e.base <= Slot(e, b.start) && Slot(e, b.start) + 64 <= DataStart(e)
    ensures (Slot(e, b.start) - e.base) % 64 == 0
  {
    ReservedPart(e);
    PowPages(b.level);
    hide Reserved, Pow2;
    var q := (b.start - DataStart(e)) / PAGE_SIZE;
    DivModUnique(b.start - DataStart(e), SCALING, 64 * q, 0);
    assert Slot(e, b.start) == e.base + 64 * q;
    DivModUnique(64 * q, 64, q, 0);
    SlotBound(e.limit - Reserved(e), q);
  }

  lemma SlotBound(space: nat, q: nat)
    requires space % PAGE_SIZE == 0 && q * PAGE_SIZE + PAGE_SIZE <= space
    ensures 64 * q + 64 <= space / SCALING
  {
    DivModUnique(space, SCALING, 64 * (space / PAGE_SIZE), 0);
  }

  /** Blocks further up have descriptors further up. */
  lemma SlotOrder(u: seq<Entry>, b: Block, c: Block, a: nat, a': nat)
    requires KernelMap(u) && DescribedBy(u, b, a) && DescribedBy(u, c, a')
    ensures b.start < c.start ==> a < a'
    ensures b.start == c.start ==> a == a'
  {
    var i :| 0 <= i < |u| && InData(u[i], b) && a == Slot(u[i], b.start);
    var j :| 0 <= j < |u| && InData(u[j], c) && a' == Slot(u[j], c.start);
    SlotInReserved(u[i], b);
    SlotInReserved(u[j], c);
    hide Slot, KernelMap;
    EntriesApart(u, i, j);
    EntriesApart(u, j, i);
    if i == j {
      SlotMonotone(u[i], b, c);
    }
  }

  lemma EntriesApart(u: seq<Entry>, i: nat, j: nat)
    requires KernelMap(u) && i < |u| && j < |u|
    ensures i < j ==> u[i].End() <= u[j].base
  {
    if i < j {
      AcceptedDisjoint(u, i, j);
    }
  }

  lemma SlotMonotone(e: Entry, b: Block, c: Block)
    requires InData(e, b) && InData(e, c)
    ensures b.start < c.start ==> Slot(e, b.start) < Slot(e, c.start)
  {
  }

  // Tilings

  /** All blocks, free or handed out. */
  ghost predicate Apart(all: set<Block>) {
    forall b, c | b in all && c in all && b != c :: Disjoint(b, c)
  }

  ghost predicate Held(all: set<Block>, a: nat) {
    exists b :: b in all && b.Holds(a)
  }

  ghost predicate Covered(all: set<Block>, from: nat, to: nat) {
    forall a: nat | from <= a < to :: Held(all, a)
  }

  /** Every byte of every data part lies in exactly one block, and no block reaches anywhere else. */
  ghost predicate Tiled(u: seq<Entry>, all: set<Block>) {
    && Apart(all)
    && (forall b | b in all :: InSomeData(u, b))
    && (forall i | 0 <= i < |u| :: Covered(all, DataStart(u[i]), u[i].End()))
  }

  function LeftHalf(b: Block): Block
    requires b.level > 0
  {
    Block(b.start, b.level - 1)
  }

  function RightHalf(b: Block): Block
    requires b.level > 0
  {
    Block(b.start + Pow2(b.level - 1), b.level - 1)
  }

  function SplitBlock(all: set<Block>, b: Block): set<Block>
    requires b.level > 0
  {
    all - {b} + {LeftHalf(b), RightHalf(b)}
  }

  lemma SplitApart(all: set<Block>, b: Block)
    requires Apart(all) && b in all && b.level > 0
    ensures Apart(SplitBlock(all, b))
    ensures LeftHalf(b) !in all && RightHalf(b) !in all
  {
    hide Pow2;
    assert Pow2(b.level) == 2 * Pow2(b.level - 1) by { HalfSize(b.level); }
  }

  lemma HalfSize(level: nat)
    requires level > 0
    ensures Pow2(level) == 2 * Pow2(level - 1)
  {
  }

  lemma SplitCovered(all: set<Block>, b: Block, from: nat, to: nat)
    requires Covered(all, from, to) && b.level > 0
    ensures Covered(SplitBlock(all, b), from, to)
  {
    HalfSize(b.level);
    hide Pow2;
    forall a: nat | from <= a < to
      ensures Held(SplitBlock(all, b), a)
    {
      assert Held(all, a);
      var c :| c in all && c.Holds(a);
      if c == b {
        assert LeftHalf(b) in SplitBlock(all, b) && RightHalf(b) in SplitBlock(all, b);
        assert LeftHalf(b).Holds(a) || RightHalf(b).Holds(a);
      } else {
        assert c in SplitBlock(all, b);
      }
    }
  }

  lemma SplitInData(e: Entry, b: Block)
    requires InData(e, b) && b.level > MIN_LEVEL
    ensures InData(e, LeftHalf(b)) && InData(e, RightHalf(b))
  {
    HalfSize(b.level);
    PowPages(b.level - 1);
    hide Pow2;
    DivModUnique(RightHalf(b).start - DataStart(e), PAGE_SIZE,
      (b.start - DataStart(e)) / PAGE_SIZE + Pow2(b.level - 1) / PAGE_SIZE, 0);
  }

  /** Halving a block keeps the tiling. */
  lemma SplitTiled(u: seq<Entry>, all: set<Block>, b: Block)
    requires Tiled(u, all) && b in all && b.level > MIN_LEVEL
    ensures Tiled(u, SplitBlock(all, b))
    ensures LeftHalf(b) !in all && RightHalf(b) !in all
  {
    SplitApart(all, b);
    hide Apart, InData, LeftHalf, RightHalf, DataStart;
    var i :| 0 <= i < |u| && InData(u[i], b);
    SplitInData(u[i], b);
    forall j | 0 <= j < |u|
      ensures Covered(SplitBlock(all, b), DataStart(u[j]), u[j].End())
    {
      SplitCovered(all, b, DataStart(u[j]), u[j].End());
    }
  }

  /** Two blocks of a tiling that begin at the same place are one. */
  lemma SameStart(all: set<Block>, b: Block, c: Block)
    requires Apart(all) && b in all && c in all && b.start == c.start
    ensures b == c
  {
  }

  /** The descriptor slot of a block that is not free is not in use. */
  lemma SlotIsFree(u: seq<Entry>, all: set<Block>, b: Block, a: nat, c: Block, a': nat)
    requires KernelMap(u) && Apart(all) && b in all && c in all && b != c
    requires DescribedBy(u, b, a) && DescribedBy(u, c, a')
    ensures a != a'
  {
    hide KernelMap, DescribedBy, Apart;
    SlotOrder(u, b, c, a, a');
    SlotOrder(u, c, b, a', a);
    if b.start == c.start {
      SameStart(all, b, c);
    }
  }

  /** The next block along has its descriptor the same way along, 64 times closer. */
  lemma SlotStep(e: Entry, b: Block, level: nat)
    requires InData(e, b) && level >= MIN_LEVEL
    ensures Slot(e, b.start + Pow2(level)) == Slot(e, b.start) + Pow2(level) / SCALING
  {
    PowPages(level);
    hide Pow2;
    var x, y := b.start - DataStart(e), Pow2(level);
    DivModUnique(x, SCALING, 64 * (x / PAGE_SIZE), 0);
    DivModUnique(y, SCALING, 64 * (y / PAGE_SIZE), 0);
    DivModUnique(x + y, SCALING, 64 * (x / PAGE_SIZE) + 64 * (y / PAGE_SIZE), 0);
  }

  lemma DescriptorIsPositive(u: seq<Entry>, b: Block, a: nat)
    requires KernelMap(u) && DescribedBy(u, b, a)
    ensures a > 0 && b.start > 0 && InSomeData(u, b) && MIN_LEVEL <= b.level <= MAX_LEVEL && b.start % PAGE_SIZE == 0
  {
    hide Pow2, Slot, GoodEntry, NeighboursDisjoint, PageAlign;
    var i :| 0 <= i < |u| && InData(u[i], b) && a == Slot(u[i], b.start);
    SlotInReserved(u[i], b);
    ReservedPart(u[i]);
    BaseIsAligned(u[i]);
    PagesAddUp(u[i].base, Reserved(u[i]), b.start);
  }

  lemma BaseIsAligned(e: Entry)
    requires GoodEntry(e)
    ensures e.base % PAGE_SIZE == 0
  {
  }

  lemma PagesAddUp(base: nat, reserved: nat, start: nat)
    requires base % PAGE_SIZE == 0 && reserved % PAGE_SIZE == 0 && (start - (base + reserved)) % PAGE_SIZE == 0
    ensures start % PAGE_SIZE == 0
  {
    var below := base / PAGE_SIZE + reserved / PAGE_SIZE;
    DivModUnique(start, PAGE_SIZE, below + (start - (base + reserved)) / PAGE_SIZE, 0);
  }

  lemma HalvesDescribed(u: seq<Entry>, b: Block, a: nat)
    requires DescribedBy(u, b, a) && b.level > MIN_LEVEL
    ensures DescribedBy(u, LeftHalf(b), a) && DescribedBy(u, RightHalf(b), a + Pow2(b.level - 1) / SCALING)
  {
    hide Pow2, InData, Slot;
    var i :| 0 <= i < |u| && InData(u[i], b) && a == Slot(u[i], b.start);
    SplitInData(u[i], b);
    SlotStep(u[i], b, b.level - 1);
    assert InData(u[i], LeftHalf(b)) && InData(u[i], RightHalf(b));
  }
}
