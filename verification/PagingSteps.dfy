/**
 The steps of the page-table builder, each with what it does to the translation: storing a leaf,
 keeping an existing table, hanging a fresh one under an empty entry; and the arithmetic of the
 four nested index ranges.
 */
module PagingSteps {
  import opened Limits
  import opened Bits
  import opened Options
  import opened PageWalk
  import opened PageEntry
  import opened PageTree
  import opened UsableMemory

  function ClearPages(mem: Memory, from: nat, count: nat): Memory {
    if count == 0 then mem else ClearPages(mem, from, count - 1)[from + PAGE_SIZE * (count - 1) := ZeroPage()]
  }

  /** One call: what was there before, and the range [v, end) that is to be mapped to phys onwards.
      `end` is past the last page, the one that holds the address Start + Size; `bits` is what a leaf holds besides its
      address, `flags` what an entry for a table does, and `uniform` tells if all those entries do so already. */
  datatype Job = Job(before: Memory, root: nat, v: nat, end: nat, phys: nat, large: bool, flags: nat, bits: nat,
                     uniform: bool)
  {
    function Level(): nat { if large then 2 else 1 }

    function LeafSize(): nat { if large then LARGE_PAGE else PAGE_SIZE }

    /** The address at which a leaf slot begins. */
    function SlotStart(s: nat): nat { if large then s * LARGE_PAGE else s * PAGE_SIZE }

    ghost predicate Valid() {
      && v < end <= VIRT_LIMIT && phys + (end - v) <= PHYS_LIMIT
      && (if large then v % LARGE_PAGE == 0 && end % LARGE_PAGE == 0 && phys % LARGE_PAGE == 0
          else v % PAGE_SIZE == 0 && end % PAGE_SIZE == 0 && phys % PAGE_SIZE == 0)
    }

    function Clamp(a: nat): (r: nat)
      requires v <= end
      ensures v <= r <= end
    {
      if a < v then v else if a > end then end else a
    }

    /** The leaf of an address of the range. */
    function LeafAt(va: nat): Hit
      requires v <= va
    {
      Hit(Level(), phys + (va - v) / LeafSize() * LeafSize() + bits)
    }

    /** The leaves once everything below `bound` has been mapped. */
    function Target(va: nat, bound: nat): Option<Hit> {
      if v <= va < bound then Some(LeafAt(va)) else LeafOf(before, root, va)
    }
  }

  ghost predicate Progress(job: Job, mem: Memory, bound: nat) {
    forall va: nat | va < VIRT_LIMIT :: LeafOf(mem, job.root, va) == job.Target(va, bound)
  }

  /** Every table page lies below the offset at which the next one is looked for. */
  ghost predicate Below(own: Places, offset: nat) {
    forall p | p in own :: p + PAGE_SIZE <= offset
  }

  /** No 2 MiB page stands where 4 KiB pages are to be mapped. */
  ghost predicate NoLargePages(mem: Memory, own: Places, lo: nat, hi: nat) {
    forall q, i | q in own && q in mem && own[q].level == 2 && 0 <= i < 512 && lo <= 512 * own[q].index + i <= hi ::
      !Decode(2, mem[q][i]).Leaf?
  }

  ghost predicate Inv(job: Job, mem: Memory, own: Places, offset: nat, bound: nat) {
    && job.Valid() && job.v <= bound <= job.end
    && Tree(mem, job.root, own)
    && Below(own, offset) && offset % PAGE_SIZE == 0 && offset <= LIMIT_32
    && Progress(job, mem, bound)
    && (!job.large ==> NoLargePages(mem, own, job.v / LARGE_PAGE, (job.end - 1) / LARGE_PAGE))
    && (job.uniform ==> TablesHave(mem, own, job.flags))
  }

  ghost predicate Extends(own: Places, own': Places) {
    forall p | p in own :: p in own' && own'[p] == own[p]
  }

  // The two kinds of step

  lemma LeafRange(va: nat, level: nat, s: nat)
    requires 1 <= level <= 2
    ensures var unit := if level == 2 then LARGE_PAGE else PAGE_SIZE;
      Slot(va, level) == s <==> s * unit <= va < s * unit + unit
  {
    SlotShifts(va);
  }

  /** All addresses of a page have one leaf. */
  lemma LeafOfPage(job: Job, bound: nat, s: nat, va: nat)
    requires job.Valid() && job.v <= bound == job.SlotStart(s) <= va < bound + job.LeafSize()
    ensures job.LeafAt(va) == Hit(job.Level(), job.phys + (bound - job.v) + job.bits)
  {
    var unit := job.LeafSize();
    var k := s - job.v / unit;
    assert bound - job.v == unit * k;
    DivModUnique(va - job.v, unit, k, va - bound);
  }

  lemma LeafTarget(job: Job, bound: nat, s: nat, va: nat, was: Option<Hit>, now: Option<Hit>)
    requires job.Valid() && job.v <= bound && bound == job.SlotStart(s)
    requires was == job.Target(va, bound)
    requires now == if Slot(va,
                            job.Level()) == s then Some(Hit(job.Level(),
                                                            job.phys + (bound - job.v) + job.bits)) else was
    ensures now == job.Target(va, bound + job.LeafSize())
  {
    hide Slot, LeafOf, Job.LeafAt;
    LeafRange(va, job.Level(), s);
    if bound <= va < bound + job.LeafSize() {
      LeafOfPage(job, bound, s, va);
    }
  }

  lemma LeafProgress(job: Job, mem: Memory, mem': Memory, own: Places, q: nat, i: nat, bound: nat, s: nat)
    requires Progress(job, mem, bound) && job.Valid() && job.v <= bound
    requires Tree(mem, job.root, own) && Same(mem, mem', own, q, i) && q in own && i < 512 && q in mem'
    requires own[q].level == job.Level()
    requires s == 512 * own[q].index + i && bound == job.SlotStart(s)
    requires Decode(own[q].level, mem'[q][i]).Leaf? && mem'[q][i] == job.phys + (bound - job.v) + job.bits
    requires TableAt(mem', job.root, own[q].level, own[q].index) == Some(q)
    ensures Progress(job, mem', bound + job.LeafSize())
  {
    hide LeafOf, Slot, TableAt, Tree, Decode, Job.Target, Job.Valid;
    forall va: nat | va < VIRT_LIMIT
      ensures LeafOf(mem', job.root, va) == job.Target(va, bound + job.LeafSize())
    {
      assert LeafOf(mem, job.root, va) == job.Target(va, bound);
      WriteLeafWalk(mem, mem', job.root, own, q, i, va);
      LeafTarget(job, bound, s, va, LeafOf(mem, job.root, va), LeafOf(mem', job.root, va));
    }
  }

  lemma SameProgress(job: Job, mem: Memory, mem': Memory, bound: nat)
    requires Progress(job, mem, bound) && SameWalks(mem, mem', job.root)
    ensures Progress(job, mem', bound)
  {
    forall va: nat | va < VIRT_LIMIT
      ensures LeafOf(mem', job.root, va) == job.Target(va, bound)
    {
      assert LeafOf(mem, job.root, va) == job.Target(va, bound);
    }
  }

  lemma NextPageFits(job: Job, s: nat)
    requires job.Valid() && job.SlotStart(s) < job.end
    ensures job.SlotStart(s) + job.LeafSize() <= job.end
  {
  }

  /** Storing the next leaf advances the mapped range by one page. */
  lemma LeafStep(job: Job, mem: Memory, own: Places, offset: nat, bound: nat, q: nat, i: nat, e: nat)
    requires Inv(job, mem, own, offset, bound) && bound < job.end
    requires q in own && q in mem && i < 512 && own[q].level == job.Level()
    requires TableAt(mem, job.root, own[q].level, own[q].index) == Some(q)
    requires bound == job.SlotStart(512 * own[q].index + i)
    requires Decode(own[q].level, e).Leaf? && e == job.phys + (bound - job.v) + job.bits
    ensures Inv(job, SetEntry(mem, q, i, e), own, offset, bound + job.LeafSize())
    ensures UpperTablesKept(mem, SetEntry(mem, q, i, e), job.root, own[q].level)
  {
    var mem' := SetEntry(mem, q, i, e);
    WriteLeaf(mem, job.root, own, q, i, e);
    LeafProgress(job, mem, mem', own, q, i, bound, 512 * own[q].index + i);
    NextPageFits(job, 512 * own[q].index + i);
    if !job.large {
      SmallLeafKeepsNoLarge(mem, mem', own, q, job.v / LARGE_PAGE, (job.end - 1) / LARGE_PAGE);
    }
    if job.uniform {
      SetEntryHas(mem, own, q, i, e, job.flags);
    }
  }

  lemma SmallLeafKeepsNoLarge(mem: Memory, mem': Memory, own: Places, q: nat, lo: nat, hi: nat)
    requires NoLargePages(mem, own, lo, hi) && q in own && own[q].level == 1
    requires forall p | p in own && p in mem' && p != q :: p in mem && mem'[p] == mem[p]
    ensures NoLargePages(mem', own, lo, hi)
  {
  }

  /** Making sure that an entry leads to a table leaves the translation as it is. */
  lemma RelinkStep(job: Job, mem: Memory, own: Places, offset: nat, bound: nat, q: nat, i: nat, p: nat, e: nat)
    requires Inv(job, mem, own, offset, bound)
    requires q in own && q in mem && i < 512 && 2 <= own[q].level <= 4
    requires Decode(own[q].level, mem[q][i]) == Table(p) && TablePointer(mem[q][i]) == p
    requires Decode(own[q].level, e) == Table(p) && TablePointer(e) == p && e == p + job.flags
    ensures Inv(job, SetEntry(mem, q, i, e), own, offset, bound)
    ensures UpperTablesKept(mem, SetEntry(mem, q, i, e), job.root, own[q].level)
  {
    RelinkTable(mem, job.root, own, q, i, e);
    var mem' := SetEntry(mem, q, i, e);
    SameProgress(job, mem, mem', bound);
    if job.uniform {
      SetEntryHas(mem, own, q, i, e, job.flags);
    }
  }

  lemma LinkStep(job: Job, mem: Memory, own: Places, offset: nat, bound: nat, q: nat, i: nat, n: nat, e: nat)
    requires Inv(job, mem, own, offset, bound)
    requires q in own && q in mem && i < 512 && 2 <= own[q].level <= 4
    requires mem[q][i] == 0 && Decode(own[q].level, e) == Table(n) && TablePointer(e) == n && e == n + job.flags
    requires offset <= n && n % PAGE_SIZE == 0 && n + PAGE_SIZE <= LIMIT_32
    ensures n !in own
    ensures var own' := own[n := Place(own[q].level - 1, 512 * own[q].index + i)];
      Inv(job, SetEntry(mem[n := ZeroPage()], q, i, e), own', n + PAGE_SIZE, bound)
    ensures UpperTablesKept(mem, SetEntry(mem[n := ZeroPage()], q, i, e), job.root, own[q].level)
  {
    hide Decode, LeafOf, EntryFits, TablesHave;
    assert q + PAGE_SIZE <= offset;
    assert TableFits(mem, own, q);
    LinkTable(mem, job.root, own, q, i, n, e);
    var mem' := SetEntry(mem[n := ZeroPage()], q, i, e);
    SameProgress(job, mem, mem', bound);
    if job.uniform {
      LinkHas(mem, own, q, i, n, e, job.flags);
    }
    if !job.large {
      LinkKeepsNoLarge(mem, own, q, i, n, e, job.v / LARGE_PAGE, (job.end - 1) / LARGE_PAGE);
    }
  }

  lemma LinkHas(mem: Memory, own: Places, q: nat, i: nat, n: nat, e: nat, flags: nat)
    requires TablesHave(mem, own, flags) && q in own && q in mem && i < 512 && n !in own && own[q].level > 0
    requires Decode(own[q].level, e) == Table(n) && e == n + flags
    ensures TablesHave(SetEntry(mem[n := ZeroPage()], q, i, e),
                       own[n := Place(own[q].level - 1, 512 * own[q].index + i)],
                       flags)
  {
    hide TablesHave;
    var place := Place(own[q].level - 1, 512 * own[q].index + i);
    AdoptHas(mem, own, n, place, flags);
    SetEntryHas(mem[n := ZeroPage()], own[n := place], q, i, e, flags);
  }

  lemma LinkKeepsNoLarge(mem: Memory, own: Places, q: nat, i: nat, n: nat, e: nat, lo: nat, hi: nat)
    requires NoLargePages(mem, own, lo, hi) && q in own && q in mem && i < 512 && n !in own && own[q].level > 0
    requires Decode(own[q].level, e) == Table(n)
    ensures NoLargePages(SetEntry(mem[n := ZeroPage()], q, i, e),
                         own[n := Place(own[q].level - 1, 512 * own[q].index + i)],
                         lo, hi)
  {
    assert Decode(2, 0) == Fault;
    assert forall j | 0 <= j < 512 :: ZeroPage()[j] == 0;
  }

  /** Going through a stored table entry. */
  lemma TableBelow(mem: Memory, root: nat, own: Places, q: nat, i: nat, p: nat)
    requires q in own && q in mem && i < 512 && 2 <= own[q].level <= 4
    requires TableAt(mem, root, own[q].level, own[q].index) == Some(q)
    requires Decode(own[q].level, mem[q][i]) == Table(p)
    ensures TableAt(mem, root, own[q].level - 1, 512 * own[q].index + i) == Some(p)
  {
    assert (512 * own[q].index + i) / 512 == own[q].index;
  }

  /** What allocating one zeroed page gives. */
  lemma FreshPage(u: seq<Entry>, offset: nat, mem: Memory)
    requires UsableMap(u) && offset % PAGE_SIZE == 0 && Allocate(u, offset, PAGE_SIZE).Allocated?
    ensures var n := Allocate(u, offset, PAGE_SIZE).end - PAGE_SIZE;
      && n >= offset && n % PAGE_SIZE == 0 && n + PAGE_SIZE <= LIMIT_32
      && ClearPages(mem, n, PAGE_SIZE / PAGE_SIZE) == mem[n := ZeroPage()]
  {
    AllocateSound(u, offset, PAGE_SIZE);
    assert ClearPages(mem, Allocate(u, offset, PAGE_SIZE).end - PAGE_SIZE, 0) == mem;
  }

  lemma EmptyEntry(mem: Memory, own: Places, q: nat, i: nat)
    requires q in own && i < 512 && TableFits(mem, own, q) && 2 <= own[q].level <= 4
    requires forall p | p in own :: TableFits(mem, own, p)
    requires own[q].level == 2 ==> !Decode(2, mem[q][i]).Leaf?
    requires TablePointer(mem[q][i]) == 0
    ensures mem[q][i] == 0
  {
    assert EntryFits(mem[q][i], own[q].level, 512 * own[q].index + i, own);
  }

  /** What making sure of a table delivers. */
  ghost predicate Ensured(job: Job, mem: Memory, own: Places, q: nat, i: nat, bound: nat,
                          mem': Memory, own': Places, offset: nat, p: nat)
  {
    && Inv(job, mem', own', offset, bound) && Extends(own, own')
    && q in own && own[q].level >= 2
    && UpperTablesKept(mem, mem', job.root, own[q].level)
    && p in own' && own'[p] == Place(own[q].level - 1, 512 * own[q].index + i)
    && TableAt(mem', job.root, own[q].level - 1, 512 * own[q].index + i) == Some(p)
  }

  ghost predicate Entrance(job: Job, mem: Memory, own: Places, q: nat, i: nat, flags: nat) {
    && q in own && q in mem && i < 512 && 2 <= own[q].level <= 4 && TableFlags(flags) && flags == job.flags
    && TableAt(mem, job.root, own[q].level, own[q].index) == Some(q)
    && (own[q].level == 2 ==> !Decode(2, mem[q][i]).Leaf?)
  }

  lemma RelinkEnsured(job: Job, mem: Memory, own: Places, offset: nat, bound: nat, q: nat, i: nat, flags: nat)
    requires Inv(job, mem, own, offset, bound) && Entrance(job, mem, own, q, i, flags)
    requires TablePointer(mem[q][i]) != 0
    ensures var p := TablePointer(mem[q][i]);
      Ensured(job, mem, own, q, i, bound, SetEntry(mem, q, i, MakePageEntry(p, flags)), own, offset, p)
  {
    hide LeafOf, Progress, NoLargePages, TableAt;
    var p := TablePointer(mem[q][i]);
    assert TableFits(mem, own, q);
    assert EntryFits(mem[q][i], own[q].level, 512 * own[q].index + i, own);
    assert TableFits(mem, own, p);
    TableEntry(p, flags, own[q].level);
    EntryIsSum(p, flags);
    RelinkStep(job, mem, own, offset, bound, q, i, p, MakePageEntry(p, flags));
    TableBelow(SetEntry(mem, q, i, MakePageEntry(p, flags)), job.root, own, q, i, p);
  }

  lemma LinkEnsured(job: Job, mem: Memory, own: Places, offset: nat, bound: nat, q: nat, i: nat, flags: nat, p: nat)
    requires Inv(job, mem, own, offset, bound) && Entrance(job, mem, own, q, i, flags)
    requires TablePointer(mem[q][i]) == 0
    requires offset <= p && p % PAGE_SIZE == 0 && p + PAGE_SIZE <= LIMIT_32
    ensures Ensured(job, mem, own, q, i, bound, SetEntry(mem[p := ZeroPage()], q, i, MakePageEntry(p, flags)),
      own[p := Place(own[q].level - 1, 512 * own[q].index + i)], p + PAGE_SIZE, p)
  {
    hide LeafOf, Progress, NoLargePages, EntryFits, Decode, TableAt;
    assert TableFits(mem, own, q);
    EmptyEntry(mem, own, q, i);
    TableEntry(p, flags, own[q].level);
    EntryIsSum(p, flags);
    LinkStep(job, mem, own, offset, bound, q, i, p, MakePageEntry(p, flags));
    var own' := own[p := Place(own[q].level - 1, 512 * own[q].index + i)];
    TableBelow(SetEntry(mem[p := ZeroPage()], q, i, MakePageEntry(p, flags)), job.root, own', q, i, p);
  }

  lemma OffsetBounds(job: Job, mem: Memory, own: Places, offset: nat, bound: nat)
    requires Inv(job, mem, own, offset, bound)
    ensures offset % PAGE_SIZE == 0 && offset <= LIMIT_32
  {
  }

  lemma LinkAllocated(job: Job, mem: Memory, own: Places, offset: nat, bound: nat, q: nat, i: nat, flags: nat,
                      u: seq<Entry>)
    requires Inv(job, mem, own, offset, bound) && Entrance(job, mem, own, q, i, flags) && UsableMap(u)
    requires TablePointer(mem[q][i]) == 0
    ensures Allocate(u, offset, PAGE_SIZE).Allocated? ==>
      var end := Allocate(u, offset, PAGE_SIZE).end;
      && end >= PAGE_SIZE
      && ClearPages(mem, end - PAGE_SIZE, PAGE_SIZE / PAGE_SIZE) == mem[end - PAGE_SIZE := ZeroPage()]
      && Ensured(job, mem, own, q, i, bound,
           SetEntry(mem[end - PAGE_SIZE := ZeroPage()], q, i, MakePageEntry(end - PAGE_SIZE, flags)),
           own[end - PAGE_SIZE := Place(own[q].level - 1, 512 * own[q].index + i)], end, end - PAGE_SIZE)
  {
    hide Ensured, Inv, Entrance, Allocate, TablePointer;
    OffsetBounds(job, mem, own, offset, bound);
    if Allocate(u, offset, PAGE_SIZE).Allocated? {
      FreshPage(u, offset, mem);
      LinkEnsured(job, mem, own, offset, bound, q, i, flags, Allocate(u, offset, PAGE_SIZE).end - PAGE_SIZE);
    }
  }

  // The four nested index ranges

  /** The address at which a slot of a level begins. */
  function SlotStart(level: nat, s: nat): nat {
    if level == 1 then s * PAGE_SIZE
    else if level == 2 then s * LARGE_PAGE
    else if level == 3 then s * HUGE_PAGE
    else s * 0x80_0000_0000
  }

  function FirstIndex(job: Job, level: nat, t: nat): nat {
    if t == Slot(job.v, level + 1) then Slot(job.v, level) % 512 else 0
  }

  function LastIndex(job: Job, level: nat, t: nat): nat
    requires job.end > 0
  {
    if t == Slot(job.end - 1, level + 1) then Slot(job.end - 1, level) % 512 else 511
  }

  ghost predicate InRange(job: Job, level: nat, s: nat)
    requires job.end > 0
  {
    Slot(job.v, level) <= s <= Slot(job.end - 1, level)
  }

  lemma SlotBounds(va: nat, level: nat)
    requires 1 <= level <= 4
    ensures SlotStart(level, Slot(va, level)) <= va < SlotStart(level, Slot(va, level) + 1)
  {
    SlotShifts(va);
  }

  lemma StartMonotone(level: nat, s: nat, s': nat)
    requires s <= s'
    ensures SlotStart(level, s) <= SlotStart(level, s')
  {
  }

  lemma RadixStart(level: nat, t: nat)
    requires 1 <= level <= 3
    ensures SlotStart(level + 1, t) == SlotStart(level, 512 * t)
  {
  }

  lemma IndexBounds(job: Job, level: nat, t: nat)
    requires 1 <= level <= 3 && job.v < job.end && InRange(job, level + 1, t)
    ensures FirstIndex(job, level, t) <= LastIndex(job, level, t) <= 511
    ensures Slot(job.v, level) <= 512 * t + FirstIndex(job, level, t)
    ensures 512 * t + LastIndex(job, level, t) <= Slot(job.end - 1, level)
    ensures t == Slot(job.v, level + 1) ==> 512 * t + FirstIndex(job, level, t) == Slot(job.v, level)
    ensures t == Slot(job.end - 1, level + 1) ==> 512 * t + LastIndex(job, level, t) == Slot(job.end - 1, level)
  {
    hide Slot;
    SlotUp(job.v, level);
    SlotUp(job.end - 1, level);
    SlotOrder(job.v, job.end - 1, level);
  }

  /** The indices to visit in the table at place t of a level cover exactly the part of the range
      that lies in the table's own slot. */
  lemma IndexRange(job: Job, level: nat, t: nat)
    requires 1 <= level <= 3 && job.v < job.end && InRange(job, level + 1, t)
    ensures job.Clamp(SlotStart(level, 512 * t + FirstIndex(job, level, t))) == job.Clamp(SlotStart(level + 1, t))
    ensures job.Clamp(SlotStart(level, 512 * t + LastIndex(job, level, t) + 1))
      == job.Clamp(SlotStart(level + 1, t + 1))
  {
    hide Slot, SlotStart;
    var s, e := 512 * t + FirstIndex(job, level, t), 512 * t + LastIndex(job, level, t);
    IndexBounds(job, level, t);
    SlotBounds(job.v, level);
    SlotBounds(job.end - 1, level);
    RadixStart(level, t);
    RadixStart(level, t + 1);
    StartMonotone(level, 512 * t, s);
    StartMonotone(level, e + 1, 512 * (t + 1));
  }

  lemma SlotOrder(a: nat, b: nat, level: nat)
    requires a <= b && 1 <= level <= 4
    ensures Slot(a, level) <= Slot(b, level)
  {
    SlotShifts(a);
    SlotShifts(b);
  }

  /** At the leaf level, every visited slot begins inside the range and ends inside it. */
  lemma LeafSlot(job: Job, s: nat)
    requires job.Valid() && InRange(job, if job.large then 2 else 1, s)
    ensures job.Clamp(job.SlotStart(s)) == job.SlotStart(s) < job.end
    ensures job.Clamp(job.SlotStart(s + 1)) == job.SlotStart(s) + job.LeafSize()
  {
    SlotShifts(job.v);
    SlotShifts(job.end - 1);
    NextPageFits(job, s);
  }

  /** The indices of the first and of the last page, from the PML4 down, as the builder computes them. */
  ghost predicate Digits(job: Job, initial: seq<nat>, final: seq<nat>)
    requires job.end > 0
  {
    && |initial| == 4 && |final| == 4
    && (forall k | 0 <= k < 4 :: initial[k] == Slot(job.v, 4 - k) % 512)
    && (forall k | 0 <= k < 4 && !(job.large && k == 3) :: final[k] == Slot(job.end - 1, 4 - k) % 512)
  }

  lemma TopDigit(va: nat)
    requires va < VIRT_LIMIT
    ensures Slot(va, 4) < 512
  {
    SlotShifts(va);
  }

  /** Comparing indices level by level is comparing slot numbers. */
  lemma DigitsMatch(va: nat, i4: nat, i3: nat, i2: nat)
    requires va < VIRT_LIMIT && i4 < 512 && i3 < 512 && i2 < 512
    ensures i4 == Slot(va, 4) % 512 <==> i4 == Slot(va, 4)
    ensures i4 == Slot(va, 4) % 512 && i3 == Slot(va, 3) % 512 <==> 512 * i4 + i3 == Slot(va, 3)
    ensures i4 == Slot(va, 4) % 512 && i3 == Slot(va, 3) % 512 && i2 == Slot(va, 2) % 512
      <==> 512 * (512 * i4 + i3) + i2 == Slot(va, 2)
  {
    TopDigit(va);
    assert Slot(va, 4) == Slot(va, 3) / 512 && Slot(va, 3) == Slot(va, 2) / 512;
    hide Slot;
  }

  /** The builder stands at address `a` of the range: everything below is mapped, and `phys` is next. */
  ghost predicate At(job: Job, mem: Memory, own: Places, offset: nat, phys: nat, a: nat) {
    && job.v <= job.end && Inv(job, mem, own, offset, job.Clamp(a))
    && phys == job.phys + (job.Clamp(a) - job.v)
  }

  /** A table of the tree that the walk really goes through. */
  ghost predicate Stands(job: Job, mem: Memory, own: Places, q: nat, level: nat, t: nat) {
    && level <= 4 && q in own && q in mem && own[q] == Place(level, t)
    && TableAt(mem, job.root, level, t) == Some(q)
  }

  lemma PhysAligned(job: Job, s: nat)
    requires job.Valid() && job.v <= job.SlotStart(s) < job.end
    ensures var phys := job.phys + (job.SlotStart(s) - job.v);
      phys < PHYS_LIMIT && if job.large then phys % LARGE_PAGE == 0 else phys % PAGE_SIZE == 0
  {
    var phys := job.phys + (job.SlotStart(s) - job.v);
    if job.large {
      DivModUnique(phys, LARGE_PAGE, job.phys / LARGE_PAGE + s - job.v / LARGE_PAGE, 0);
    } else {
      DivModUnique(phys, PAGE_SIZE, job.phys / PAGE_SIZE + s - job.v / PAGE_SIZE, 0);
    }
  }

  lemma SmallLeafStep(job: Job, mem: Memory, own: Places, offset: nat, phys: nat, q: nat, t: nat, i: nat,
                      flags: nat, pat: bool)
    requires At(job, mem, own, offset, phys, SlotStart(1, 512 * t + i)) && !job.large && TableFlags(flags)
    requires job.bits == LeafBits(flags, false, pat)
    requires Stands(job, mem, own, q, 1, t) && i < 512 && job.end > 0 && InRange(job, 1, 512 * t + i)
    ensures var mem' := SetEntry(mem, q, i, MakePageEntry(phys, SmallLeafFlags(flags, pat)));
      && At(job, mem', own, offset, phys + PAGE_SIZE, SlotStart(1, 512 * t + i + 1))
      && Stands(job, mem', own, q, 1, t) && UpperTablesKept(mem, mem', job.root, 1)
  {
    hide Tree, Progress, NoLargePages, Below, LeafOf, Decode, MakePageEntry, SmallLeafFlags, TableFlags, TableAt,
         InRange;
    var s := 512 * t + i;
    LeafSlot(job, s);
    PhysAligned(job, s);
    SmallLeafEntry(phys, flags, pat);
    LeafWord(phys, flags, pat);
    LeafStep(job, mem, own, offset, job.SlotStart(s), q, i, MakePageEntry(phys, SmallLeafFlags(flags, pat)));
  }

  lemma LargeLeafStep(job: Job, mem: Memory, own: Places, offset: nat, phys: nat, q: nat, t: nat, i: nat,
                      flags: nat, pat: bool)
    requires At(job, mem, own, offset, phys, SlotStart(2, 512 * t + i)) && job.large && TableFlags(flags)
    requires job.bits == LeafBits(flags, true, pat)
    requires Stands(job, mem, own, q, 2, t) && i < 512 && job.end > 0 && InRange(job, 2, 512 * t + i)
    ensures var mem' := SetEntry(mem, q, i, MakePageEntry(phys, LargeLeafFlags(flags, pat)));
      && At(job, mem', own, offset, phys + LARGE_PAGE, SlotStart(2, 512 * t + i + 1))
      && Stands(job, mem', own, q, 2, t) && UpperTablesKept(mem, mem', job.root, 2)
  {
    hide Tree, Progress, NoLargePages, Below, LeafOf, Decode, MakePageEntry, LargeLeafFlags, TableFlags, TableAt,
         InRange;
    var s := 512 * t + i;
    LeafSlot(job, s);
    PhysAligned(job, s);
    LargeLeafEntry(phys, flags, pat);
    LeafWord(phys, flags, pat);
    LeafStep(job, mem, own, offset, job.SlotStart(s), q, i, MakePageEntry(phys, LargeLeafFlags(flags, pat)));
  }

  /** What one of the nested loops delivers: its own slot is done, and tables from its level up stay put. */
  ghost predicate Filled(job: Job, mem: Memory, own: Places, mem': Memory, own': Places,
                         offset: nat, phys: nat, level: nat, t: nat)
  {
    && At(job, mem', own', offset, phys, SlotStart(level + 1, t + 1))
    && Extends(own, own') && UpperTablesKept(mem, mem', job.root, level)
  }

  lemma StandsKept(job: Job, mem: Memory, own: Places, mem': Memory, own': Places, offset: nat, bound: nat,
                   q: nat, level: nat, t: nat)
    requires Stands(job, mem, own, q, level, t)
    requires Inv(job, mem', own', offset, bound) && Extends(own, own') && UpperTablesKept(mem, mem', job.root, level)
    ensures Stands(job, mem', own', q, level, t)
  {
    assert TableAt(mem', job.root, level, t) == TableAt(mem, job.root, level, t);
    assert TableFits(mem', own', q);
  }

  lemma KeptTrans(mem: Memory, mem': Memory, mem'': Memory, root: nat, level: nat, level': nat)
    requires UpperTablesKept(mem, mem', root, level) && UpperTablesKept(mem', mem'', root, level') && level' <= level
    ensures UpperTablesKept(mem, mem'', root, level)
  {
    hide TableAt;
  }

  /** Where a table is to stand in the way of 4 KiB pages, no 2 MiB page stands. */
  lemma NoLeafHere(job: Job, mem: Memory, own: Places, offset: nat, bound: nat, q: nat, i: nat, t: nat)
    requires Inv(job, mem, own, offset, bound) && !job.large && q in own && q in mem && own[q] == Place(2, t)
    requires i < 512 && job.end > 0 && InRange(job, 2, 512 * t + i)
    ensures !Decode(2, mem[q][i]).Leaf?
  {
    SlotShifts(job.v);
    SlotShifts(job.end - 1);
    hide Decode, Slot;
  }

  lemma EntranceHere(job: Job, mem: Memory, own: Places, offset: nat, phys: nat, a: nat, q: nat, level: nat, t: nat,
                     i: nat, flags: nat)
    requires At(job, mem, own, offset, phys, a) && Stands(job, mem, own, q, level, t)
    requires TableFlags(flags) && flags == job.flags && i < 512 && 2 <= level && job.end > 0
    requires level == 2 ==> !job.large && InRange(job, 2, 512 * t + i)
    ensures Entrance(job, mem, own, q, i, flags)
  {
    if level == 2 {
      NoLeafHere(job, mem, own, offset, job.Clamp(a), q, i, t);
    }
  }

  /** After a table has been made sure of, the builder stands where it stood, above a table one level down. */
  lemma EnsuredAt(job: Job, mem: Memory, own: Places, mem': Memory, own': Places, offset: nat, phys: nat, a: nat,
                  q: nat, level: nat, t: nat, i: nat, p: nat)
    requires Stands(job, mem, own, q, level, t) && level >= 2 && i < 512
    requires job.v <= job.end && phys == job.phys + (job.Clamp(a) - job.v)
    requires Ensured(job, mem, own, q, i, job.Clamp(a), mem', own', offset, p)
    ensures At(job, mem', own', offset, phys, a)
    ensures Stands(job, mem', own', q, level, t)
    ensures Stands(job, mem', own', p, level - 1, 512 * t + i)
    ensures UpperTablesKept(mem, mem', job.root, level) && Extends(own, own')
  {
    hide LeafOf, Progress, NoLargePages, Below;
    StandsKept(job, mem, own, mem', own', offset, job.Clamp(a), q, level, t);
    assert TableFits(mem', own', p);
  }

  /** The bounds of the innermost loop, as the builder computes them. */
  lemma PteIndices(job: Job, initial: seq<nat>, final: seq<nat>, i4: nat, i3: nat, i2: nat, t: nat)
    requires job.Valid() && !job.large && Digits(job, initial, final)
    requires i4 < 512 && i3 < 512 && i2 < 512 && t == 512 * (512 * i4 + i3) + i2
    ensures |initial| == |final| == 4
    ensures FirstIndex(job, 1, t) == if i4 == initial[0] && i3 == initial[1] && i2 == initial[2] then initial[3] else 0
    ensures LastIndex(job, 1, t) == if i4 == final[0] && i3 == final[1] && i2 == final[2] then final[3] else 511
  {
    hide Slot;
    DigitsMatch(job.v, i4, i3, i2);
    DigitsMatch(job.end - 1, i4, i3, i2);
  }

  lemma Pml2Indices(job: Job, initial: seq<nat>, final: seq<nat>, i4: nat, i3: nat, t: nat)
    requires job.Valid() && Digits(job, initial, final)
    requires i4 < 512 && i3 < 512 && t == 512 * i4 + i3
    ensures |initial| == |final| == 4
    ensures FirstIndex(job, 2, t) == if i4 == initial[0] && i3 == initial[1] then initial[2] else 0
    ensures LastIndex(job, 2, t) == if i4 == final[0] && i3 == final[1] then final[2] else 511
  {
    hide Slot;
    DigitsMatch(job.v, i4, i3, 0);
    DigitsMatch(job.end - 1, i4, i3, 0);
  }

  lemma Pml3Indices(job: Job, initial: seq<nat>, final: seq<nat>, i4: nat)
    requires job.Valid() && Digits(job, initial, final) && i4 < 512
    ensures |initial| == |final| == 4
    ensures FirstIndex(job, 3, i4) == if i4 == initial[0] then initial[1] else 0
    ensures LastIndex(job, 3, i4) == if i4 == final[0] then final[1] else 511
  {
    hide Slot;
    DigitsMatch(job.v, i4, 0, 0);
    DigitsMatch(job.end - 1, i4, 0, 0);
  }

  lemma IndexInRange(job: Job, level: nat, t: nat, i: nat)
    requires 1 <= level <= 3 && job.v < job.end && InRange(job, level + 1, t)
    requires FirstIndex(job, level, t) <= i <= LastIndex(job, level, t)
    ensures i < 512 && InRange(job, level, 512 * t + i)
  {
    hide Slot;
    IndexBounds(job, level, t);
  }

  lemma AtInv(job: Job, mem: Memory, own: Places, offset: nat, phys: nat, a: nat)
    requires At(job, mem, own, offset, phys, a)
    ensures job.v <= job.end && Inv(job, mem, own, offset, job.Clamp(a))
    ensures phys == job.phys + (job.Clamp(a) - job.v)
  {
    hide Inv;
  }

  lemma AtSame(job: Job, mem: Memory, own: Places, offset: nat, phys: nat, a: nat, b: nat)
    requires At(job, mem, own, offset, phys, a) && job.Clamp(a) == job.Clamp(b)
    ensures At(job, mem, own, offset, phys, b)
  {
    hide Inv;
  }

  lemma Reflexive(mem: Memory, own: Places, root: nat, level: nat)
    ensures UpperTablesKept(mem, mem, root, level) && Extends(own, own)
  {
    hide TableAt;
  }

  lemma MakeFilled(job: Job, mem: Memory, own: Places, mem': Memory, own': Places, offset: nat, phys: nat,
                   level: nat, t: nat)
    requires 1 <= level <= 3 && job.v < job.end && InRange(job, level + 1, t)
    requires At(job, mem', own', offset, phys, SlotStart(level, 512 * t + LastIndex(job, level, t) + 1))
    requires Extends(own, own') && UpperTablesKept(mem, mem', job.root, level)
    ensures Filled(job, mem, own, mem', own', offset, phys, level, t)
  {
    hide Inv, InRange, SlotStart, Extends, UpperTablesKept, LastIndex;
    IndexRange(job, level, t);
  }

  /** One round of an outer loop: a table was made sure of, and the loop below it ran. */
  lemma RoundDone(job: Job, mem0: Memory, own0: Places, mem: Memory, own: Places, mem1: Memory, own1: Places,
                  mem2: Memory, own2: Places, offset: nat, phys: nat, q: nat, level: nat, t: nat, i: nat)
    requires 2 <= level && job.v <= job.end
    requires Extends(own0, own) && UpperTablesKept(mem0, mem, job.root, level)
    requires Extends(own, own1) && UpperTablesKept(mem, mem1, job.root, level)
    requires Stands(job, mem1, own1, q, level, t)
    requires Filled(job, mem1, own1, mem2, own2, offset, phys, level - 1, 512 * t + i)
    ensures At(job, mem2, own2, offset, phys, SlotStart(level, 512 * t + i + 1))
    ensures Stands(job, mem2, own2, q, level, t)
    ensures Extends(own0, own2) && UpperTablesKept(mem0, mem2, job.root, level)
  {
    hide Inv, TableAt, Stands;
    Reflexive(mem1, own1, job.root, level);
    KeptTrans(mem1, mem1, mem2, job.root, level, level - 1);
    KeptTrans(mem0, mem, mem1, job.root, level, level);
    KeptTrans(mem0, mem1, mem2, job.root, level, level);
    StandsKept(job, mem1, own1, mem2, own2, offset, job.Clamp(SlotStart(level, 512 * t + i + 1)), q, level, t);
  }

  lemma PageIsNew(job: Job, mem: Memory, own: Places, offset: nat, bound: nat, u: seq<Entry>)
    requires Inv(job, mem, own, offset, bound) && UsableMap(u) && Allocate(u, offset, PAGE_SIZE).Allocated?
    ensures Allocate(u, offset, PAGE_SIZE).end >= PAGE_SIZE && Allocate(u, offset, PAGE_SIZE).end - PAGE_SIZE !in own
  {
    hide LeafOf, Progress, Tree;
    AllocateSound(u, offset, PAGE_SIZE);
  }

  // What is written, and where the new tables come from

  /** Only table pages were written, and the new ones were taken, zeroed, from one entry each of the
      usable map, at or above `from` and below `to`. */
  ghost predicate Footprint(u: seq<Entry>, mem: Memory, own: Places, mem': Memory, own': Places, from: nat, to: nat) {
    && from <= to && Extends(own, own')
    && (forall p | p !in own' :: (p in mem' <==> p in mem) && (p in mem ==> mem'[p] == mem[p]))
    && (forall p | p in own' && p !in own :: from <= p && p + PAGE_SIZE <= to && InsideEntry(u, p, p + PAGE_SIZE))
  }

  lemma FootprintNone(u: seq<Entry>, mem: Memory, own: Places, from: nat)
    ensures Footprint(u, mem, own, mem, own, from, from)
  {
  }

  lemma FootprintTrans(u: seq<Entry>, mem: Memory, own: Places, mem1: Memory, own1: Places, mem2: Memory, own2: Places,
                       a: nat, b: nat, c: nat)
    requires Footprint(u, mem, own, mem1, own1, a, b) && Footprint(u, mem1, own1, mem2, own2, b, c)
    ensures Footprint(u, mem, own, mem2, own2, a, c)
  {
    hide InsideEntry;
  }

  /** Storing an entry of a table that is already there. */
  lemma FootprintStore(u: seq<Entry>, mem: Memory, own: Places, mem1: Memory, own1: Places, a: nat, b: nat,
                       q: nat, i: nat, e: nat)
    requires Footprint(u, mem, own, mem1, own1, a, b) && q in own1 && q in mem1 && i < 512
    ensures Footprint(u, mem, own, SetEntry(mem1, q, i, e), own1, a, b)
  {
    hide InsideEntry;
  }

  lemma FootprintLink(u: seq<Entry>, mem: Memory, own: Places, q: nat, i: nat, e: nat, offset: nat, place: Place)
    requires UsableMap(u) && offset % PAGE_SIZE == 0 && Allocate(u, offset, PAGE_SIZE).Allocated?
    requires q in own && q in mem && i < 512
    requires Allocate(u, offset, PAGE_SIZE).end - PAGE_SIZE !in own
    ensures var p := Allocate(u, offset, PAGE_SIZE).end - PAGE_SIZE;
      Footprint(u, mem, own, SetEntry(mem[p := ZeroPage()], q, i, e), own[p := place], offset, p + PAGE_SIZE)
  {
    hide InsideEntry;
    AllocateSound(u, offset, PAGE_SIZE);
  }

  // A whole call

  lemma LowDigit(x: nat, unit: nat, high: nat)
    requires (unit, high) in {(0x1000, 0x800_0000), (0x20_0000, 0x4_0000), (0x4000_0000, 0x200), (0x80_0000_0000, 1)}
    ensures x % VIRT_LIMIT / unit % 512 == x / unit % 512
  {
    var q, r := x / VIRT_LIMIT, x % VIRT_LIMIT;
    assert x == unit * (512 * high * q + r / unit) + r % unit by {
      assert unit * 512 * high == VIRT_LIMIT;
      assert r == unit * (r / unit) + r % unit;
    }
    DivModUnique(x, unit, 512 * high * q + r / unit, r % unit);
    var k := r / unit;
    DivModUnique(512 * (high * q) + k, 512, high * q + k / 512, k % 512);
  }

  function IndicesOf(a: nat): (r: seq<nat>)
    ensures |r| == 4
  {
    [a / 0x80_0000_0000 % 512, a / 0x4000_0000 % 512, a / 0x20_0000 % 512, a / 0x1000 % 512]
  }

  lemma IndicesOfLow(a: nat, k: nat)
    requires k < 4
    ensures IndicesOf(a)[k] == Slot(a % VIRT_LIMIT, 4 - k) % 512
  {
    var b := a % VIRT_LIMIT;
    SlotShifts(b);
    hide Slot;
    LowDigit(a, 0x80_0000_0000, 1);
    LowDigit(a, 0x4000_0000, 0x200);
    LowDigit(a, 0x20_0000, 0x4_0000);
    LowDigit(a, 0x1000, 0x800_0000);
  }

  function LeafSizeOf(large: bool): nat { if large then LARGE_PAGE else PAGE_SIZE }

  /** One past the last address that a call maps: the page that holds Start + Size is mapped as well. */
  function MappedEnd(v: nat, size: nat, large: bool): nat {
    if large then ((v + size) / LARGE_PAGE + 1) * LARGE_PAGE else ((v + size) / PAGE_SIZE + 1) * PAGE_SIZE
  }

  /** The call as its arguments describe it. */
  ghost function JobOf(mem: Memory, own: Places, root: nat, phys: nat, virt: nat, size: nat, flags: nat, large: bool,
                       pat: bool): Job
  {
    var v := virt % VIRT_LIMIT;
    Job(mem, root, v, MappedEnd(v, size, large), phys, large, flags, LeafBits(flags, large, pat),
        TablesHave(mem, own, flags))
  }

  /** What the callers of the builder have to respect. */
  ghost predicate Mappable(phys: nat, virt: nat, size: nat, large: bool) {
    && virt % VIRT_LIMIT + size < VIRT_LIMIT
    && phys % LeafSizeOf(large) == 0 && virt % LeafSizeOf(large) == 0
    && phys + size + LeafSizeOf(large) <= PHYS_LIMIT
  }

  lemma JobIsValid(mem: Memory, own: Places, root: nat, phys: nat, virt: nat, size: nat, flags: nat, large: bool,
           pat: bool)
    requires Mappable(phys, virt, size, large)
    ensures JobOf(mem, own, root, phys, virt, size, flags, large, pat).Valid()
  {
    var v := virt % VIRT_LIMIT;
    if large {
      DivModUnique(v, LARGE_PAGE, virt / LARGE_PAGE - 0x800_0000 * (virt / VIRT_LIMIT), 0);
    } else {
      DivModUnique(v, PAGE_SIZE, virt / PAGE_SIZE - 0x10_0000_0000 * (virt / VIRT_LIMIT), 0);
    }
  }

  /** The last address of the range has the indices of Start + Size, down to the leaf level. */
  lemma LastPage(v: nat, size: nat, large: bool, k: nat)
    requires k < 4 && !(large && k == 3)
    ensures MappedEnd(v, size, large) > 0
    ensures Slot(MappedEnd(v, size, large) - 1, 4 - k) == Slot(v + size, 4 - k)
  {
    hide Slot;
    var a, b := v + size, MappedEnd(v, size, large) - 1;
    var unit, base := LeafSizeOf(large), if large then 2 else 1;
    SlotBase(a);
    SlotBase(b);
    DivModUnique(b, unit, a / unit, unit - 1);
    SlotsAbove(a, b, base, 4 - k);
  }

  lemma SlotBase(va: nat)
    ensures Slot(va, 1) == va / PAGE_SIZE && Slot(va, 2) == va / LARGE_PAGE
  {
    SlotShifts(va);
  }

  /** Addresses in one slot are in one slot of every level further up. */
  lemma {:induction false} SlotsAbove(a: nat, b: nat, level: nat, up: nat)
    requires 1 <= level <= up && Slot(a, level) == Slot(b, level)
    ensures Slot(a, up) == Slot(b, up)
    decreases up
  {
    if level < up {
      SlotsAbove(a, b, level, up - 1);
      SlotUp(a, up - 1);
      SlotUp(b, up - 1);
    }
  }

  lemma SlotUp(va: nat, level: nat)
    requires level >= 1
    ensures Slot(va, level + 1) == Slot(va, level) / 512
  {
  }

  lemma FinalDigit(virt: nat, size: nat, large: bool, k: nat)
    requires virt % VIRT_LIMIT + size < VIRT_LIMIT && k < 4 && !(large && k == 3)
    ensures MappedEnd(virt % VIRT_LIMIT, size, large) > 0
    ensures IndicesOf(virt + size)[k] == Slot(MappedEnd(virt % VIRT_LIMIT, size, large) - 1, 4 - k) % 512
  {
    hide Slot, MappedEnd, IndicesOf;
    LastPage(virt % VIRT_LIMIT, size, large, k);
    SumLow(virt, size);
    IndicesOfLow(virt + size, k);
  }

  lemma JobDigits(mem: Memory, own: Places, root: nat, phys: nat, virt: nat, size: nat, flags: nat, large: bool,
           pat: bool)
    requires Mappable(phys, virt, size, large)
    ensures JobOf(mem, own, root, phys, virt, size, flags, large, pat).end > 0
    ensures Digits(JobOf(mem, own, root, phys, virt, size, flags, large, pat), IndicesOf(virt), IndicesOf(virt + size))
  {
    hide Slot, MappedEnd, IndicesOf;
    FinalDigit(virt, size, large, 0);
    var final := IndicesOf(virt + size);
    forall k | 0 <= k < 4
      ensures IndicesOf(virt)[k] == Slot(virt % VIRT_LIMIT, 4 - k) % 512
    {
      IndicesOfLow(virt, k);
    }
    forall k | 0 <= k < 4 && !(large && k == 3)
      ensures final[k] == Slot(MappedEnd(virt % VIRT_LIMIT, size, large) - 1, 4 - k) % 512
    {
      FinalDigit(virt, size, large, k);
    }
  }

  lemma SumLow(virt: nat, size: nat)
    requires virt % VIRT_LIMIT + size < VIRT_LIMIT
    ensures (virt + size) % VIRT_LIMIT == virt % VIRT_LIMIT + size
  {
    DivModUnique(virt + size, VIRT_LIMIT, virt / VIRT_LIMIT, virt % VIRT_LIMIT + size);
  }

  lemma TopRange(job: Job)
    requires job.Valid()
    ensures job.Clamp(SlotStart(4, Slot(job.v, 4))) == job.v
    ensures job.Clamp(SlotStart(4, Slot(job.end - 1, 4) + 1)) == job.end
    ensures Slot(job.v, 4) <= Slot(job.end - 1, 4) < 512
    ensures Slot(job.v, 4) % 512 == Slot(job.v, 4) && Slot(job.end - 1, 4) % 512 == Slot(job.end - 1, 4)
  {
    hide Slot, SlotStart;
    SlotBounds(job.v, 4);
    SlotBounds(job.end - 1, 4);
    SlotOrder(job.v, job.end - 1, 4);
    TopDigit(job.end - 1);
  }

  /** Before anything is mapped. */
  lemma StartAt(job: Job, own: Places, offset: nat)
    requires job.Valid() && Tree(job.before, job.root, own)
    requires Below(own, offset) && offset % PAGE_SIZE == 0 && offset <= LIMIT_32
    requires !job.large ==> NoLargePages(job.before, own, job.v / LARGE_PAGE, (job.end - 1) / LARGE_PAGE)
    requires job.uniform ==> TablesHave(job.before, own, job.flags)
    ensures At(job, job.before, own, offset, job.phys, SlotStart(4, Slot(job.v, 4)))
    ensures Stands(job, job.before, own, job.root, 4, 0)
  {
    TopRange(job);
    assert TableFits(job.before, own, job.root);
    hide LeafOf, SlotStart, Slot;
  }

  lemma Low32(a: nat, large: bool)
    ensures a % 0x1_0000_0000 % LeafSizeOf(large) == a % LeafSizeOf(large)
  {
    var q, r := a / 0x1_0000_0000, a % 0x1_0000_0000;
    if large {
      DivModUnique(a, LARGE_PAGE, 0x800 * q + r / LARGE_PAGE, r % LARGE_PAGE);
    } else {
      DivModUnique(a, PAGE_SIZE, 0x10_0000 * q + r / PAGE_SIZE, r % PAGE_SIZE);
    }
  }

  lemma Finished(job: Job, mem: Memory, own: Places, offset: nat, phys: nat)
    requires job.Valid() && At(job, mem, own, offset, phys, SlotStart(4, Slot(job.end - 1, 4) + 1))
    ensures Inv(job, mem, own, offset, job.end)
  {
    hide Inv, Slot, SlotStart;
    TopRange(job);
  }

  lemma TopInRange(job: Job, i: nat)
    requires job.Valid() && Slot(job.v, 4) <= i <= Slot(job.end - 1, 4)
    ensures i < 512 && InRange(job, 4, i)
  {
    TopRange(job);
    hide Slot;
  }

  lemma JobParts(mem: Memory, own: Places, root: nat, phys: nat, virt: nat, size: nat, flags: nat, large: bool,
           pat: bool)
    ensures var job := JobOf(mem, own, root, phys, virt, size, flags, large, pat);
      && job.before == mem && job.root == root && job.phys == phys && job.large == large
      && job.flags == flags && job.bits == LeafBits(flags, large, pat) && job.uniform == TablesHave(mem, own, flags)
      && job.v == virt % VIRT_LIMIT && job.end == MappedEnd(virt % VIRT_LIMIT, size, large)
  {
  }

  lemma Pml4Indices(job: Job, initial: seq<nat>, final: seq<nat>)
    requires job.Valid() && Digits(job, initial, final)
    ensures |initial| == |final| == 4
    ensures initial[0] == Slot(job.v, 4) && final[0] == Slot(job.end - 1, 4)
    ensures Slot(job.v, 4) <= Slot(job.end - 1, 4)
  {
    hide Slot;
    TopRange(job);
    assert initial[0] == Slot(job.v, 4 - 0) % 512;
    assert final[0] == Slot(job.end - 1, 4 - 0) % 512;
  }

  /** Every page of the range has its leaf, and all other addresses have the one they had. */
  ghost predicate LeavesMade(job: Job, mem: Memory) {
    forall va: nat | va < VIRT_LIMIT ::
      LeafOf(mem, job.root, va) == if job.v <= va < job.end then Some(job.LeafAt(va)) else LeafOf(job.before, job.root,
          va)
  }

  /** The range is mapped, page by page, and what lies outside is translated as before. */
  ghost predicate Mapped(job: Job, mem: Memory) {
    forall va: nat | va < VIRT_LIMIT ::
      Walk(mem, job.root, va) ==
      if job.v <= va < job.end then Some(job.phys + (va - job.v)) else Walk(job.before, job.root, va)
  }

  /** What the processor makes of a leaf. */
  lemma LeafTranslates(job: Job, flags: nat, pat: bool, va: nat)
    requires job.Valid() && TableFlags(flags) && job.bits == LeafBits(flags, job.large, pat) && job.v <= va < job.end
    ensures var hit := job.LeafAt(va);
      && Decode(hit.level, hit.entry).Leaf?
      && Decode(hit.level, hit.entry).base + PageOffset(va, hit.level) == job.phys + (va - job.v)
  {
    hide Decode, TableFlags, LeafBits, MakePageEntry, SmallLeafFlags, LargeLeafFlags;
    var a := PageOf(job, va);
    LeafWord(a, flags, pat);
    if job.large {
      LargeLeafEntry(a, flags, pat);
    } else {
      SmallLeafEntry(a, flags, pat);
    }
  }

  lemma PageOf(job: Job, va: nat) returns (a: nat)
    requires job.Valid() && job.v <= va < job.end
    ensures job.LeafAt(va) == Hit(job.Level(), a + job.bits) && a < PHYS_LIMIT
    ensures if job.large then a % LARGE_PAGE == 0 else a % PAGE_SIZE == 0
    ensures a + PageOffset(va, job.Level()) == job.phys + (va - job.v)
  {
    var unit := job.LeafSize();
    var k, r := (va - job.v) / unit, (va - job.v) % unit;
    assert va - job.v == unit * k + r;
    a := job.phys + k * unit;
    PageStart(job.v, unit, k, r);
    PageStart(job.phys, unit, k, 0);
  }

  lemma PageStart(from: nat, unit: nat, k: nat, r: nat)
    requires unit > 0 && from % unit == 0 && r < unit
    ensures (from + k * unit + r) % unit == r
  {
    var q := from / unit;
    assert from == unit * q;
    DivModUnique(from + k * unit + r, unit, q + k, r);
  }

  /**
   The page of every address of the range, and of the one right behind it, is mapped to its place by a leaf with the
   given flags, the size bit if it is 2 MiB, and the PAT bit of its size if and only if that is asked for. All other
   addresses keep the leaf they had, and with it their translation.
   */
  ghost predicate MapsPages(before: Memory, after: Memory, root: nat, phys: nat, virt: nat, size: nat, flags: nat,
                            large: bool, pat: bool)
  {
    var v, unit := virt % 0x1_0000_0000_0000, if large then 0x20_0000 else 0x1000;
    var level, bits := if large then 2 else 1,
                       (if large then 0x80 else 0) + (if !pat then 0 else if large then 0x1000 else 0x80);
    forall va: nat | va < 0x1_0000_0000_0000 ::
      if v <= va && va / unit <= (v + size) / unit then
        && LeafOf(after, root, va) == Some(Hit(level, phys + (va - v) / unit * unit + flags + bits))
        && Walk(after, root, va) == Some(phys + (va - v))
      else
        && LeafOf(after, root, va) == LeafOf(before, root, va)
        && Walk(after, root, va) == Walk(before, root, va)
  }

  lemma EndOfRange(a: nat, va: nat, unit: nat)
    requires unit > 0
    ensures va < (a / unit + 1) * unit <==> va / unit <= a / unit
  {
    var q, k := a / unit, va / unit;
    assert va == unit * k + va % unit;
    if k <= q {
      MulLess(k, q, unit);
    } else {
      MulLess(q + 1, k, unit);
    }
  }

  lemma MulLess(x: nat, y: nat, unit: nat)
    requires x <= y
    ensures x * unit <= y * unit && (y + 1) * unit == y * unit + unit
  {
    assert (y - x) * unit >= 0;
    assert y * unit == x * unit + (y - x) * unit;
  }

  lemma MapsItsPages(mem: Memory, own: Places, mem': Memory, root: nat, phys: nat, virt: nat, size: nat, flags: nat,
                     large: bool, pat: bool)
    requires var job := JobOf(mem, own, root, phys, virt, size, flags, large, pat);
      LeavesMade(job, mem') && Mapped(job, mem')
    ensures MapsPages(mem, mem', root, phys, virt, size, flags, large, pat)
  {
    hide LeafOf, Walk, TablesHave, MappedEnd, LeavesMade, Mapped;
    var job := JobOf(mem, own, root, phys, virt, size, flags, large, pat);
    forall va: nat | va < VIRT_LIMIT
      ensures var unit := if large then 0x20_0000 else 0x1000;
        job.v <= va < job.end <==> job.v <= va && va / unit <= (job.v + size) / unit
      ensures LeafOf(mem', root, va) ==
        if job.v <= va < job.end then Some(job.LeafAt(va)) else LeafOf(mem, root, va)
      ensures Walk(mem', root, va) ==
        if job.v <= va < job.end then Some(job.phys + (va - job.v)) else Walk(mem, root, va)
    {
      EndIs(job.v, size, large, va);
      LeafMade(job, mem', va);
    }
  }

  lemma LeafMade(job: Job, mem: Memory, va: nat)
    requires LeavesMade(job, mem) && Mapped(job, mem) && va < VIRT_LIMIT
    ensures LeafOf(mem, job.root, va) ==
      if job.v <= va < job.end then Some(job.LeafAt(va)) else LeafOf(job.before, job.root, va)
    ensures Walk(mem, job.root, va) ==
      if job.v <= va < job.end then Some(job.phys + (va - job.v)) else Walk(job.before, job.root, va)
  {
    hide LeafOf, Walk, Job.LeafAt;
  }

  lemma EndIs(v: nat, size: nat, large: bool, va: nat)
    ensures var unit := if large then 0x20_0000 else 0x1000;
      va < MappedEnd(v, size, large) <==> va / unit <= (v + size) / unit
  {
    EndOfRange(v + size, va, if large then 0x20_0000 else 0x1000);
  }

  lemma FinishedMeans(job: Job, mem: Memory, own: Places, offset: nat, flags: nat, pat: bool)
    requires Inv(job, mem, own, offset, job.end) && TableFlags(flags) && job.bits == LeafBits(flags, job.large, pat)
    ensures Tree(mem, job.root, own) && Below(own, offset) && offset % PAGE_SIZE == 0 && offset <= LIMIT_32
    ensures LeavesMade(job, mem) && Mapped(job, mem)
    ensures job.uniform ==> TablesHave(mem, own, job.flags)
  {
    hide Tree, LeafOf, Decode, Job.LeafAt, TableFlags, LeafBits, TablesHave;
    forall va: nat | va < VIRT_LIMIT
      ensures LeafOf(mem, job.root, va) ==
        if job.v <= va < job.end then Some(job.LeafAt(va)) else LeafOf(job.before, job.root, va)
      ensures Walk(mem, job.root, va) ==
        if job.v <= va < job.end then Some(job.phys + (va - job.v)) else Walk(job.before, job.root, va)
    {
      assert LeafOf(mem, job.root, va) == job.Target(va, job.end);
      if job.v <= va < job.end {
        LeafTranslates(job, flags, pat, va);
      }
    }
  }
}
