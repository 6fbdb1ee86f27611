/**
 The memory side of the third boot stage, from the first allocation to the identity-mapped address
 space (Boot/Legacy/Stage3/Bootloader.c, 1024-1222 and 1383-1407).
 */
module Boot {
  import opened Limits
  import opened Bits
  import opened Options
  import opened PageWalk
  import opened PageEntry
  import opened PageTree
  import opened UsableMemory
  import opened Allocations
  import opened PagingSteps
  import opened PagingTables
  import opened BootTables
  import opened Paging
  import opened Handover

  const IDENTITY_THRESHOLD := 0x100_0000 // IdentityMapThreshold, 16 MiB
  const ONE_MIB := 0x10_0000

  /** The range that one identity-mapping call really maps for an area of memory: its start is rounded
      down and its size up, and the page after that is mapped as well. */
  predicate Reached(e: Entry, va: nat) {
    DownToLarge(e.base) <= va < MappedEnd(DownToLarge(e.base), UpToLarge(e.limit), true)
  }

  /** Rounding start and size separately would miss the end of some areas; the extra page makes up for it. */
  lemma AreaIsReached(e: Entry, a: nat)
    requires e.base <= a < e.End()
    ensures Reached(e, a)
  {
    var s, n := DownToLarge(e.base), UpToLarge(e.limit);
    assert (s + n) % LARGE_PAGE == 0 by {
      DivModUnique(s + n, LARGE_PAGE, e.base / LARGE_PAGE + n / LARGE_PAGE, 0);
    }
    assert MappedEnd(s, n, true) == s + n + LARGE_PAGE;
  }

  /** Without the page after the range, the last byte of an area can be missed. */
  lemma RoundingAloneIsNotEnough()
    ensures var e := Entry(0x1F_F000, 0x20_0000);
      e.base <= e.End() - 1 && DownToLarge(e.base) + UpToLarge(e.limit) <= e.End() - 1
  {
  }

  ghost predicate AnyReaches(areas: seq<Entry>, va: nat) {
    exists i :: 0 <= i < |areas| && Reached(areas[i], va)
  }

  /** Counted in pages of 2 MiB: from the one that the area begins in, as many as its size asks for, and one more. */
  lemma {:induction false} ReachedExactly(e: Entry, va: nat)
    ensures Reached(e, va) <==>
      e.base / 0x20_0000 <= va / 0x20_0000 <= e.base / 0x20_0000 + (e.limit + 0x1F_FFFF) / 0x20_0000
  {
    var first, n := e.base / LARGE_PAGE, (e.limit + 0x1F_FFFF) / 0x20_0000;
    WholePagesOf(e.limit);
    DivModUnique(DownToLarge(e.base) + UpToLarge(e.limit), LARGE_PAGE, first + n, 0);
  }

  lemma WholePagesOf(limit: nat)
    ensures UpToLarge(limit) == (limit + 0x1F_FFFF) / 0x20_0000 * 0x20_0000
  {
    var q, r := limit / LARGE_PAGE, limit % LARGE_PAGE;
    DivModUnique(limit + 0x1F_FFFF, LARGE_PAGE, if r == 0 then q else q + 1, if r == 0 then 0x1F_FFFF else r - 1);
  }

  /** The entry that maps an address to itself: present, writable, 2 MiB, with or without the PAT bit. */
  function IdentityLeaf(va: nat, pat: bool): Hit {
    Hit(2, va / 0x20_0000 * 0x20_0000 + if pat then 0x1083 else 0x83)
  }

  /** Exactly the given areas are mapped, every address to itself; the first n of them without the PAT bit. */
  ghost predicate IdentityMapped(mem: Memory, root: nat, areas: seq<Entry>, n: nat)
    requires n <= |areas|
  {
    forall va: nat | va < VIRT_LIMIT ::
      && Walk(mem, root, va) == (if AnyReaches(areas, va) then Some(va) else None)
      && LeafOf(mem, root, va) ==
           if AnyReaches(areas, va) then Some(IdentityLeaf(va, AnyReaches(areas[n..], va))) else None
  }

  ghost predicate Addressable(e: Entry) {
    e.End() + 2 * LARGE_PAGE < VIRT_LIMIT
  }

  lemma OneMore(mem: Memory, mem': Memory, root: nat, areas: seq<Entry>, n: nat, e: Entry, job: Job, pat: bool)
    requires n <= |areas| && IdentityMapped(mem, root, areas, n) && (pat || n == |areas|)
    requires Mapped(job, mem') && LeavesMade(job, mem') && job.before == mem && job.root == root && job.large
    requires job.phys == job.v == DownToLarge(e.base) && job.bits == LeafBits(PRESENT + RW, true, pat)
    requires job.end == MappedEnd(DownToLarge(e.base), UpToLarge(e.limit), true)
    ensures IdentityMapped(mem', root, areas + [e], if pat then n else |areas| + 1)
  {
    hide IdentityMapped, LeavesMade, Mapped, AnyReaches, IdentityLeaf, Walk, LeafOf;
    var n' := if pat then n else |areas| + 1;
    forall va: nat | va < VIRT_LIMIT
      ensures IdentityAt(mem', root, areas + [e], n', va)
    {
      OneMoreAt(mem, mem', root, areas, n, e, job, pat, va);
    }
    MappedEverywhere(mem', root, areas + [e], n');
  }

  /** What the mapping is for one address. */
  ghost predicate IdentityAt(mem: Memory, root: nat, areas: seq<Entry>, n: nat, va: nat)
    requires n <= |areas|
  {
    && Walk(mem, root, va) == (if AnyReaches(areas, va) then Some(va) else None)
    && LeafOf(mem, root, va) ==
         if AnyReaches(areas, va) then Some(IdentityLeaf(va, AnyReaches(areas[n..], va))) else None
  }

  lemma MappedEverywhere(mem: Memory, root: nat, areas: seq<Entry>, n: nat)
    requires n <= |areas| && forall va: nat | va < VIRT_LIMIT :: IdentityAt(mem, root, areas, n, va)
    ensures IdentityMapped(mem, root, areas, n)
  {
    hide Walk, LeafOf, AnyReaches, IdentityLeaf;
    forall va: nat | va < VIRT_LIMIT
      ensures Walk(mem, root, va) == (if AnyReaches(areas, va) then Some(va) else None)
      ensures LeafOf(mem, root, va) ==
        if AnyReaches(areas, va) then Some(IdentityLeaf(va, AnyReaches(areas[n..], va))) else None
    {
      assert IdentityAt(mem, root, areas, n, va);
    }
  }

  lemma MappedHere(mem: Memory, root: nat, areas: seq<Entry>, n: nat, va: nat)
    requires n <= |areas| && IdentityMapped(mem, root, areas, n) && va < VIRT_LIMIT
    ensures IdentityAt(mem, root, areas, n, va)
  {
    hide Walk, LeafOf, AnyReaches, IdentityLeaf;
  }

  lemma OneMoreAt(mem: Memory, mem': Memory, root: nat, areas: seq<Entry>, n: nat, e: Entry, job: Job, pat: bool,
                  va: nat)
    requires n <= |areas| && IdentityMapped(mem, root, areas, n) && (pat || n == |areas|) && va < VIRT_LIMIT
    requires Mapped(job, mem') && LeavesMade(job, mem') && job.before == mem && job.root == root && job.large
    requires job.phys == job.v == DownToLarge(e.base) && job.bits == LeafBits(PRESENT + RW, true, pat)
    requires job.end == MappedEnd(DownToLarge(e.base), UpToLarge(e.limit), true)
    ensures IdentityAt(mem', root, areas + [e], if pat then n else |areas| + 1, va)
  {
    hide Walk, LeafOf, MappedEnd, DownToLarge, UpToLarge, AnyReaches, Job.LeafAt, IdentityLeaf, IdentityMapped,
         LeavesMade, Mapped, LeafBits;
    MappedHere(mem, root, areas, n, va);
    LeafMade(job, mem', va);
    ReachesAppend(areas, e, va);
    ReachesBehind(areas, n, e, pat, va);
    if Reached(e, va) {
      LeafIsIdentity(e, job, pat, va);
    }
  }

  lemma LeafIsIdentity(e: Entry, job: Job, pat: bool, va: nat)
    requires job.large && job.v == job.phys == DownToLarge(e.base) && job.bits == LeafBits(PRESENT + RW, true, pat)
    requires job.v <= va
    ensures job.LeafAt(va) == IdentityLeaf(va, pat)
  {
    var k := e.base / LARGE_PAGE;
    var q, r := (va - job.v) / LARGE_PAGE, (va - job.v) % LARGE_PAGE;
    DivModUnique(va, LARGE_PAGE, k + q, r);
  }

  lemma ReachesBehind(areas: seq<Entry>, n: nat, e: Entry, pat: bool, va: nat)
    requires n <= |areas| && (pat || n == |areas|)
    ensures var n' := if pat then n else |areas| + 1;
      AnyReaches((areas + [e])[n'..], va) <==> pat && (AnyReaches(areas[n..], va) || Reached(e, va))
    ensures n == |areas| ==> !AnyReaches(areas[n..], va)
  {
    hide Reached;
    if pat {
      assert (areas + [e])[n..] == areas[n..] + [e];
      ReachesAppend(areas[n..], e, va);
    }
  }

  lemma ReachesAppend(areas: seq<Entry>, e: Entry, va: nat)
    ensures AnyReaches(areas + [e], va) <==> AnyReaches(areas, va) || Reached(e, va)
  {
    hide Reached;
    var all := areas + [e];
    if AnyReaches(areas, va) {
      var i :| 0 <= i < |areas| && Reached(areas[i], va);
      assert Reached(all[i], va);
    }
    if Reached(e, va) {
      assert Reached(all[|areas|], va);
    }
  }

  lemma AreaIsMappable(e: Entry)
    requires Addressable(e)
    ensures Mappable(DownToLarge(e.base), DownToLarge(e.base), UpToLarge(e.limit), true)
    ensures DownToLarge(e.base) % VIRT_LIMIT == DownToLarge(e.base) && DownToLarge(e.base) % LeafSizeOf(true) == 0
  {
    var s := DownToLarge(e.base);
    DivModUnique(s, LARGE_PAGE, e.base / LARGE_PAGE, 0);
    DivModUnique(s, VIRT_LIMIT, 0, s);
  }

  lemma AreaRounded(e: Entry)
    ensures e.base - e.base % LARGE_PAGE == DownToLarge(e.base)
    ensures (if e.limit % LARGE_PAGE != 0 then e.limit + (LARGE_PAGE - e.limit % LARGE_PAGE) else e.limit)
      == UpToLarge(e.limit)
  {
  }

  /** A zeroed PML4 is a tree in which nothing is mapped. */
  lemma EmptyTree(mem: Memory, pml4: nat)
    requires pml4 in mem && mem[pml4] == ZeroPage()
    requires pml4 % PAGE_SIZE == 0 && 0 < pml4 < LIMIT_32
    ensures Tree(mem, pml4, map[pml4 := Place(4, 0)])
    ensures IdentityMapped(mem, pml4, [], 0) && TablesHave(mem, map[pml4 := Place(4, 0)], PRESENT + RW)
  {
    assert TableFits(mem, map[pml4 := Place(4, 0)], pml4);
    forall va: nat | va < VIRT_LIMIT
      ensures LeafOf(mem, pml4, va) == None
    {
      assert mem[pml4][Slot(va, 4) % 512] == 0;
    }
  }

  const LOW_MEMORY := Entry(0, IDENTITY_THRESHOLD)

  /** Where the framebuffer is and how large, as the video BIOS says it, in 32 bits. */
  predicate Framebuffer(e: Entry) { e.base < LIMIT_32 && e.limit < LIMIT_32 }

  /** Its size is rounded up in 32 bits. */
  function InWords(e: Entry): Entry { Entry(e.base, UpToLarge(e.limit) % LIMIT_32) }

  lemma FramebufferIsAddressable(e: Entry)
    requires Framebuffer(e)
    ensures Addressable(InWords(e))
  {
  }

  ghost predicate AllReached(e: Entry, area: Entry) {
    forall a: nat | e.base <= a < e.End() :: Reached(area, a)
  }

  /**
   All of it is mapped if and only if rounding its size up does not wrap: for less than 2 MiB below 4 GiB, it does.
   */
  lemma {:induction false} FramebufferExactly(e: Entry)
    requires Framebuffer(e)
    ensures AllReached(e, InWords(e)) <==> e.limit <= LIMIT_32 - LARGE_PAGE
  {
    hide Reached;
    if e.limit <= LIMIT_32 - LARGE_PAGE {
      assert UpToLarge(e.limit) % LIMIT_32 == UpToLarge(e.limit);
      forall a: nat | e.base <= a < e.End()
        ensures Reached(InWords(e), a)
      {
        AreaIsReached(e, a);
        SameReach(e, a);
      }
    } else {
      LastIsMissed(e);
    }
  }

  /** It does for the largest size that the mode's two 16-bit numbers, lines and bytes per line, can make. */
  lemma LargestFramebufferIsMissed()
    ensures var e := Entry(0xD000_0000, 0xFFFF * 0xFFFF); Framebuffer(e) && !AllReached(e, InWords(e))
  {
    FramebufferExactly(Entry(0xD000_0000, 0xFFFF * 0xFFFF));
  }

  lemma SameReach(e: Entry, a: nat)
    requires Framebuffer(e) && e.limit <= LIMIT_32 - LARGE_PAGE
    ensures Reached(InWords(e), a) <==> Reached(e, a)
  {
    assert UpToLarge(e.limit) < LIMIT_32 || UpToLarge(e.limit) == e.limit;
    assert UpToLarge(InWords(e).limit) == UpToLarge(e.limit);
  }

  lemma LastIsMissed(e: Entry)
    requires Framebuffer(e) && e.limit > LIMIT_32 - LARGE_PAGE
    ensures !Reached(InWords(e), e.End() - 1) && e.base <= e.End() - 1
  {
    assert UpToLarge(e.limit) == LIMIT_32;
  }

  lemma TableFlagsForBoot()
    ensures TableFlags(PRESENT + RW)
  {
  }

  class Stage3 {
    const loader: Loader
    var offset: nat

    constructor (loader: Loader, offset: nat)
      ensures this.loader == loader && this.offset == offset
    {
      this.loader := loader;
      this.offset := offset;
    }

    ghost predicate TablesReady(pml4: nat)
      reads this, loader
    {
      && Tree(loader.memory, pml4, loader.places)
      && Below(loader.places, offset) && offset % PAGE_SIZE == 0 && offset <= LIMIT_32
      && TablesHave(loader.memory, loader.places, PRESENT + RW)
    }

    /** The offset after so many more pages have been taken. */
    ghost predicate Took(u: seq<Entry>, from: nat, n: nat)
      requires |u| > 0
      reads this
    {
      Pages(u, from, n) == Allocated(offset)
    }

    /** One identity-mapping call: it needs a page for every table that the areas mapped before have not needed, and
        nothing else. */
    method IdentityMapRange(start: nat, size: nat, pat: bool, pml4: nat, u: seq<Entry>, ghost e: Entry,
                            ghost areas: seq<Entry>, ghost n: nat)
      returns (ok: bool)
      requires UsableMap(u) && Addressable(e) && TablesReady(pml4)
      requires start == DownToLarge(e.base) && size == UpToLarge(e.limit)
      requires n <= |areas| && (pat || n == |areas|)
      requires IdentityMapped(loader.memory, pml4, areas, n) && TablesOf(loader.memory, pml4, areas)
      modifies this, loader
      ensures ok <==> Pages(u, old(offset), |AreaTables(e) - Tables(areas)|).Allocated?
      ensures ok ==> Took(u, old(offset), |AreaTables(e) - Tables(areas)|)
      ensures ok ==>
        TablesReady(pml4) && IdentityMapped(loader.memory, pml4, areas + [e], if pat then n else |areas| + 1)
      ensures ok ==> TablesOf(loader.memory, pml4, areas + [e])
      ensures ok ==>
        Footprint(u, old(loader.memory), old(loader.places), loader.memory, loader.places, old(offset), offset)
    {
      hide Tree, Below, Mapped, LeavesMade, MapsPages, TablesHave, LeafBits, IdentityMapped, Footprint, Mappable,
           MappedEnd, NoLargePages, UsableMap, JobOf, Addressable, TablesOf, Missing, Pages, AreaTables, Tables,
           Complete, DownToLarge, UpToLarge, LeafSizeOf, TableFlags;
      TableFlagsForBoot();
      AreaIsMappable(e);
      JobParts(loader.memory, loader.places, pml4, start, start, size, PRESENT + RW, true, pat);
      ghost var job := JobOf(loader.memory, loader.places, pml4, start, start, size, PRESENT + RW, true, pat);
      AreaIsJob(e, job);
      AreaMisses(loader.memory, areas, e, job);
      var r := loader.InitializePageEntries(start, start, size, pml4, PRESENT + RW, true, pat, offset, u);
      ok := r.Allocated?;
      if ok {
        offset := r.end;
        OneMore(old(loader.memory), loader.memory, pml4, areas, n, e, job, pat);
        AreaDone(loader.memory, areas, e, job);
      }
    }

    /** The same with start rounded down and size rounded up. */
    method IdentityMapArea(e: Entry, pat: bool, pml4: nat, u: seq<Entry>, ghost areas: seq<Entry>, ghost n: nat)
      returns (ok: bool)
      requires UsableMap(u) && Addressable(e) && TablesReady(pml4)
      requires n <= |areas| && (pat || n == |areas|)
      requires IdentityMapped(loader.memory, pml4, areas, n) && TablesOf(loader.memory, pml4, areas)
      modifies this, loader
      ensures ok <==> Pages(u, old(offset), |AreaTables(e) - Tables(areas)|).Allocated?
      ensures ok ==> Took(u, old(offset), |AreaTables(e) - Tables(areas)|)
      ensures ok ==>
        TablesReady(pml4) && IdentityMapped(loader.memory, pml4, areas + [e], if pat then n else |areas| + 1)
      ensures ok ==> TablesOf(loader.memory, pml4, areas + [e])
      ensures ok ==>
        Footprint(u, old(loader.memory), old(loader.places), loader.memory, loader.places, old(offset), offset)
    {
      hide Tree, Below, TablesHave, IdentityMapped, Footprint, UsableMap, Addressable, TablesOf, Pages, AreaTables,
           Tables, DownToLarge, UpToLarge;
      var start, size := e.base, e.limit;
      start := start - start % LARGE_PAGE;
      if size % LARGE_PAGE != 0 {
        size := size + (LARGE_PAGE - size % LARGE_PAGE);
      }
      AreaRounded(e);
      ok := IdentityMapRange(start, size, pat, pml4, u, e, areas, n);
    }

    /** One area more, after those that have been mapped since the offset was `from`. */
    method IdentityMapNext(e: Entry, pat: bool, pml4: nat, u: seq<Entry>, ghost areas: seq<Entry>, ghost n: nat,
                           ghost all: seq<Entry>, ghost mem: Memory, ghost own: Places, ghost from: nat)
      returns (ok: bool)
      requires UsableMap(u) && Addressable(e) && TablesReady(pml4)
      requires n <= |areas| && (pat || n == |areas|)
      requires IdentityMapped(loader.memory, pml4, areas, n) && TablesOf(loader.memory, pml4, areas)
      requires areas + [e] <= all && Took(u, from, |Tables(areas)|)
      requires Footprint(u, mem, own, loader.memory, loader.places, from, offset)
      modifies this, loader
      ensures ok ==>
        TablesReady(pml4) && IdentityMapped(loader.memory, pml4, areas + [e], if pat then n else |areas| + 1)
      ensures ok ==> TablesOf(loader.memory, pml4, areas + [e]) && Took(u, from, |Tables(areas + [e])|)
      ensures ok ==> Footprint(u, mem, own, loader.memory, loader.places, from, offset)
      ensures !ok ==> !Pages(u, from, |Tables(all)|).Allocated?
    {
      hide Tree, Below, TablesHave, IdentityMapped, Footprint, Addressable, TablesOf, Pages, Tables, AreaTables;
      ghost var mem1, own1, o := loader.memory, loader.places, offset;
      ghost var more := |AreaTables(e) - Tables(areas)|;
      ok := IdentityMapArea(e, pat, pml4, u, areas, n);
      CountOneMore(areas, e);
      PagesSplit(u, from, |Tables(areas)|, more);
      if ok {
        FootprintTrans(u, mem, own, mem1, own1, loader.memory, loader.places, from, o, offset);
      } else {
        assert all[..|areas + [e]|] == areas + [e];
        TablesGrow(all, |areas + [e]|);
        PagesSplit(u, from, |Tables(areas + [e])|, |Tables(all)| - |Tables(areas + [e])|);
      }
    }

    /** Low memory first, then every usable entry, then the framebuffer if there is one. It works if and only if there
        is a page for every table that these areas need. */
    method IdentityMapAll(pml4: nat, u: seq<Entry>, framebuffer: Option<Entry>) returns (ok: bool)
      requires UsableMap(u) && (forall i | 0 <= i < |u| :: Addressable(u[i]))
      requires framebuffer.Some? ==> Framebuffer(framebuffer.value)
      requires TablesReady(pml4) && IdentityMapped(loader.memory, pml4, [], 0) && TablesOf(loader.memory, pml4, [])
      modifies this, loader
      ensures ok <==> Pages(u, old(offset), |Tables(MappedAreas(u, framebuffer))|).Allocated?
      ensures ok ==> Took(u, old(offset), |Tables(MappedAreas(u, framebuffer))|)
      ensures ok ==>
        TablesReady(pml4) && IdentityMapped(loader.memory, pml4, MappedAreas(u, framebuffer), 1 + |u|)
      ensures ok ==>
        Footprint(u, old(loader.memory), old(loader.places), loader.memory, loader.places, old(offset), offset)
    {
      hide Tree, Below, TablesHave, IdentityMapped, Footprint, Addressable, TablesOf, Pages, AreaTables, Tables,
           Framebuffer, UpToLarge;
      ghost var mem, own, from, all := loader.memory, loader.places, offset, MappedAreas(u, framebuffer);
      LowMemoryIsAddressable();
      FootprintNone(u, mem, own, from);
      NoPages(u, from);
      assert [] + [LOW_MEMORY] == [LOW_MEMORY] + u[..0];
      ok := IdentityMapNext(LOW_MEMORY, false, pml4, u, [], 0, all, mem, own, from);
      if !ok {
        return;
      }
      var entry := 0;
      while entry < |u|
        invariant 0 <= entry <= |u| && TablesReady(pml4)
        invariant IdentityMapped(loader.memory, pml4, [LOW_MEMORY] + u[..entry], 1 + entry)
        invariant TablesOf(loader.memory, pml4, [LOW_MEMORY] + u[..entry])
        invariant Took(u, from, |Tables([LOW_MEMORY] + u[..entry])|)
        invariant Footprint(u, mem, own, loader.memory, loader.places, from, offset)
      {
        assert [LOW_MEMORY] + u[..entry] + [u[entry]] == [LOW_MEMORY] + u[..entry + 1];
        ok := IdentityMapNext(u[entry], false, pml4, u, [LOW_MEMORY] + u[..entry], 1 + entry, all, mem, own, from);
        if !ok {
          return;
        }
        entry := entry + 1;
      }
      assert [LOW_MEMORY] + u[..entry] == [LOW_MEMORY] + u;
      if framebuffer.Some? {
        var e := framebuffer.value;
        FramebufferIsAddressable(e);
        var size := e.limit;
        if size % LARGE_PAGE != 0 {
          size := (size + (LARGE_PAGE - size % LARGE_PAGE)) % LIMIT_32;
        }
        SizeInWords(e, size);
        ok := IdentityMapNext(Entry(e.base, size), true, pml4, u, [LOW_MEMORY] + u, 1 + |u|, all, mem, own, from);
      } else {
        assert [LOW_MEMORY] + u + [] == [LOW_MEMORY] + u;
        ok := true;
      }
    }

    /** The first usable entry at or above 1 MiB, or 1 MiB itself if there is none. */
    method FirstOffset(u: seq<Entry>) returns (start: nat)
      ensures start == FirstStart(u, 0)
    {
      start := ONE_MIB;
      var entry := 0;
      while entry < |u|
        invariant 0 <= entry <= |u| && start == ONE_MIB && FirstStart(u, entry) == FirstStart(u, 0)
      {
        if u[entry].base >= ONE_MIB {
          return u[entry].base;
        }
        entry := entry + 1;
      }
    }

    /** Takes the next block, and the offset moves past it; a block that ends at 4 GiB counts as none. */
    method Take(size: nat, clear: bool, u: seq<Entry>) returns (block: Option<Span>)
      requires UsableMap(u) && offset % PAGE_SIZE == 0 && offset <= PHYS_LIMIT
      requires size < LIMIT_32 && (clear ==> size % PAGE_SIZE == 0)
      modifies this, loader`memory
      ensures block == NextBlock(u, old(offset), size)
      ensures block.Some? ==>
        && offset == block.value.end && block.value.end == block.value.start + size
        && old(offset) <= block.value.start && block.value.start % PAGE_SIZE == 0
        && (size % PAGE_SIZE == 0 ==> block.value.end % PAGE_SIZE == 0)
        && InsideEntry(u, block.value.start, block.value.end) && offset < LIMIT_32
        && loader.memory == (if clear then ClearPages(old(loader.memory), block.value.start, size / PAGE_SIZE)
                             else old(loader.memory))
    {
      hide UsableMap, InsideEntry, Allocate;
      var r := loader.AllocateFromMmap(offset, size, clear, u);
      if !r.Allocated? {
        return None;
      }
      AllocateSound(u, offset, size);
      var end := r.end % LIMIT_32;
      if end == 0 {
        return None;
      }
      block := Some(Span(end - size, end));
      offset := end;
    }

    /** The blocks for kernel file, kernel stack and PML4, the last of them zeroed. */
    method TakeFirstBlocks(u: seq<Entry>, kernelFileSize: nat, stackSize: nat)
      returns (ok: bool, image: Span, stack: Span, pml4: Span)
      requires UsableMap(u) && kernelFileSize < LIMIT_32 - PAGE_SIZE && stackSize % PAGE_SIZE == 0
        && stackSize < LIMIT_32
      modifies this, loader`memory
      ensures FirstBlocks(u, kernelFileSize, stackSize) == if ok then Some((image, stack, pml4)) else None
      ensures ok ==>
        && InBlock(u, image) && InBlock(u, stack) && InBlock(u, pml4)
        && 0x10_0000 <= pml4.start && image.end % PAGE_SIZE == 0
        && image.end == image.start + PageAlign(kernelFileSize) && stack.end == stack.start + stackSize
        && image.end <= stack.start && stack.end <= pml4.start && pml4.end == pml4.start + PAGE_SIZE
        && offset == pml4.end && offset % PAGE_SIZE == 0 && offset <= LIMIT_32
        && pml4.start in loader.memory && loader.memory[pml4.start] == ZeroPage()
    {
      hide UsableMap, PageAlign, InsideEntry, NextBlock, FirstStart, ZeroPage, ClearPages;
      ok, image, stack, pml4 := false, Span(0, 0), Span(0, 0), Span(0, 0);
      var start := FirstOffset(u);
      StartIsAligned(u, 0);
      offset := start;
      PagesOfFile(kernelFileSize);
      var block := Take(PageAlign(kernelFileSize), false, u);
      if block == None {
        return;
      }
      image := block.value;
      block := Take(stackSize, false, u);
      if block == None {
        return;
      }
      stack := block.value;
      block := Take(PAGE_SIZE, true, u);
      if block == None {
        return;
      }
      pml4 := block.value;
      ClearedPage(old(loader.memory), pml4.start);
      ok := true;
    }

    /** Everything the boot stage allocates, in its order. */
    method Run(u: seq<Entry>, kernelFileSize: nat, stackSize: nat, framebuffer: Option<Entry>, kernelAreaSize: nat)
      returns (layout: Option<Layout>)
      requires UsableMap(u) && (forall i | 0 <= i < |u| :: Addressable(u[i]))
      requires framebuffer.Some? ==> Framebuffer(framebuffer.value)
      requires kernelFileSize < LIMIT_32 - PAGE_SIZE
      requires stackSize % PAGE_SIZE == 0 && stackSize < LIMIT_32
      requires kernelAreaSize % PAGE_SIZE == 0 && 0 < kernelAreaSize < LIMIT_32
      modifies this, loader
      ensures layout == LayoutFor(u, kernelFileSize, stackSize, |Tables(MappedAreas(u, framebuffer))|, kernelAreaSize)
      ensures layout.Some? ==>
        && LaidOut(layout.value, u, loader.places, offset)
        && Tree(loader.memory, layout.value.pml4.start, loader.places)
        && |MappedAreas(u, framebuffer)| >= 1 + |u| && TablesHave(loader.memory, loader.places, PRESENT + RW)
        && IdentityMapped(loader.memory, layout.value.pml4.start, MappedAreas(u, framebuffer), 1 + |u|)
      ensures layout.Some? ==> HasSizes(layout.value, kernelFileSize, stackSize, kernelAreaSize)
    {
      hide UsableMap, Addressable, Framebuffer, Tree, Below, IdentityMapped, Footprint, PageAlign, TablesHave,
           MappedAreas, InsideEntry, TablesOf, Tables, Pages, NextBlock, FirstBlocks, LaidOut, InBlock;
      PagesOfFile(kernelFileSize);
      AreasAre(u, framebuffer);
      var ok, image, stack, pml4 := TakeFirstBlocks(u, kernelFileSize, stackSize);
      if !ok {
        return None;
      }
      var root := pml4.start;
      EmptyTree(loader.memory, root);
      NoTables(loader.memory, root);
      loader.places := map[root := Place(4, 0)];
      ghost var mem, own := loader.memory, loader.places;
      RootIsBelow(root, offset);
      ghost var from := offset;
      ok := IdentityMapAll(root, u, framebuffer);
      if !ok {
        return None;
      }
      ghost var to := offset;
      var area := Take(kernelAreaSize, false, u);
      if area == None {
        return None;
      }
      layout := Some(Layout(image, stack, pml4, area.value));
      TablesBetween(u, mem, own, loader.memory, loader.places, from, to, root);
      BlocksAreLaidOut(layout.value, u, loader.places, offset);
    }
  }

  // Which blocks these are, and when there are enough

  function FirstStart(u: seq<Entry>, k: nat): nat
    requires k <= |u|
    decreases |u| - k
  {
    if k == |u| then ONE_MIB
    else if u[k].base >= ONE_MIB then u[k].base
    else FirstStart(u, k + 1)
  }

  function NextBlock(u: seq<Entry>, offset: nat, size: nat): Option<Span>
    requires |u| > 0
  {
    match Allocate(u, offset, size)
    case Allocated(end) => if end % LIMIT_32 == 0 then None else Some(Span(end - size, end))
    case _ => None
  }

  function FirstBlocks(u: seq<Entry>, fileSize: nat, stackSize: nat): Option<(Span, Span, Span)>
    requires |u| > 0
  {
    match NextBlock(u, FirstStart(u, 0), PageAlign(fileSize))
    case None => None
    case Some(image) =>
      match NextBlock(u, image.end, stackSize)
      case None => None
      case Some(stack) =>
        match NextBlock(u, stack.end, PAGE_SIZE)
        case None => None
        case Some(pml4) => Some((image, stack, pml4))
  }

  /** The blocks one after the other, with so many page tables between the PML4 and the kernel. */
  function LayoutFor(u: seq<Entry>, fileSize: nat, stackSize: nat, tables: nat, areaSize: nat): Option<Layout>
    requires |u| > 0
  {
    match FirstBlocks(u, fileSize, stackSize)
    case None => None
    case Some((image, stack, pml4)) =>
      match Pages(u, pml4.end, tables)
      case NoSpace => None
      case Panicked => None
      case Allocated(o) =>
        match NextBlock(u, o, areaSize)
        case None => None
        case Some(area) => Some(Layout(image, stack, pml4, area))
  }

  lemma RoomForBlock(u: seq<Entry>, offset: nat, size: nat, bytes: nat)
    requires UsableMap(u) && 0 < offset && offset % PAGE_SIZE == 0 && size % PAGE_SIZE == 0 && size <= bytes
    requires Room(u, offset, bytes)
    ensures var b := NextBlock(u, offset, size);
      && b.Some? && offset <= b.value.end && b.value.end % PAGE_SIZE == 0 && Room(u, b.value.end, bytes - size)
  {
    hide UsableMap, Room, Allocate;
    RoomIsFound(u, offset, size, bytes);
  }

  /** It is enough if all of it together fits into one usable entry, below 4 GiB. */
  lemma RoomForLayout(u: seq<Entry>, fileSize: nat, stackSize: nat, tables: nat, areaSize: nat)
    requires UsableMap(u) && stackSize % PAGE_SIZE == 0 && areaSize % PAGE_SIZE == 0
    requires Room(u, FirstStart(u, 0), PageAlign(fileSize) + stackSize + PAGE_SIZE + tables * PAGE_SIZE + areaSize)
    ensures LayoutFor(u, fileSize, stackSize, tables, areaSize).Some?
  {
    hide Room, NextBlock, Pages, FirstStart, PageAlign;
    StartIsAligned(u, 0);
    PagesOfFile(fileSize);
    var rest := tables * PAGE_SIZE + areaSize;
    var start := FirstStart(u, 0);
    RoomForBlock(u, start, PageAlign(fileSize), PageAlign(fileSize) + stackSize + PAGE_SIZE + rest);
    var image := NextBlock(u, start, PageAlign(fileSize)).value;
    RoomForBlock(u, image.end, stackSize, stackSize + PAGE_SIZE + rest);
    var stack := NextBlock(u, image.end, stackSize).value;
    RoomForBlock(u, stack.end, PAGE_SIZE, PAGE_SIZE + rest);
    var pml4 := NextBlock(u, stack.end, PAGE_SIZE).value;
    RoomForPages(u, pml4.end, tables, rest);
    RoomForBlock(u, Pages(u, pml4.end, tables).end, areaSize, areaSize);
  }

  /** So a machine boots that has an entry at or above 1 MiB with as much memory below 4 GiB. */
  lemma EnoughMemory(u: seq<Entry>, framebuffer: Option<Entry>, fileSize: nat, stackSize: nat, areaSize: nat, i: nat)
    requires UsableMap(u) && stackSize % PAGE_SIZE == 0 && areaSize % PAGE_SIZE == 0
    requires i < |u| && u[i].base >= 0x10_0000
    requires var tables := 1 + TotalCount(MappedAreas(u, framebuffer));
      var bytes := PageAlign(fileSize) + stackSize + areaSize + tables * PAGE_SIZE;
      bytes < u[i].limit && u[i].base + bytes < LIMIT_32
    ensures LayoutFor(u, fileSize, stackSize, |Tables(MappedAreas(u, framebuffer))|, areaSize).Some?
  {
    hide MappedAreas, TotalCount, Tables, PageAlign, LayoutFor, UsableMap;
    var areas := MappedAreas(u, framebuffer);
    TablesAreFew(areas);
    StartIsFirst(u, i, 0);
    var bytes := PageAlign(fileSize) + stackSize + PAGE_SIZE + |Tables(areas)| * PAGE_SIZE + areaSize;
    assert RoomIn(u, FirstStart(u, 0), bytes, i);
    RoomForLayout(u, fileSize, stackSize, |Tables(areas)|, areaSize);
  }

  /** For example with 1 GiB from 1 MiB on: a kernel of 1 MiB on disk and 16 MiB in memory, and a stack of 64 KiB. */
  lemma OneGigabyteIsEnough()
    ensures var u := [Entry(0x10_0000, 0x4000_0000)];
      UsableMap(u) && LayoutFor(u, 0x10_0000, 0x1_0000, |Tables(MappedAreas(u, None))|, 0x100_0000).Some?
  {
    var u := [Entry(ONE_MIB, 0x4000_0000)];
    var areas := MappedAreas(u, None);
    assert areas[..1] == [LOW_MEMORY] && areas[..1][..0] == [];
    FewTables(LOW_MEMORY);
    FewTables(u[0]);
    assert TotalCount(areas[..1]) <= 4;
    assert TotalCount(areas) <= 8;
    EnoughMemory(u, None, ONE_MIB, 0x1_0000, 0x100_0000, 0);
  }

  lemma FewTables(e: Entry)
    requires e.base < LARGE_PAGE && e.limit <= HUGE_PAGE
    ensures TableCount(e) <= 4
  {
    var job := AreaJob(e);
    AreaRange(e);
    SlotShifts(job.v);
    SlotShifts(job.end - 1);
  }

  lemma {:induction false} StartIsFirst(u: seq<Entry>, i: nat, k: nat)
    requires UsableMap(u) && k <= i < |u| && u[i].base >= ONE_MIB
    ensures FirstStart(u, k) <= u[i].base
    decreases i - k
  {
    if u[k].base < ONE_MIB {
      StartIsFirst(u, i, k + 1);
    } else if k < i {
      UsableOrder(u, k, i);
    }
  }

  function MappedAreas(u: seq<Entry>, framebuffer: Option<Entry>): seq<Entry> {
    [LOW_MEMORY] + u + (if framebuffer.Some? then [InWords(framebuffer.value)] else [])
  }

  lemma AreasAre(u: seq<Entry>, framebuffer: Option<Entry>)
    ensures |MappedAreas(u, framebuffer)| >= 1 + |u|
  {
  }

  lemma LowMemoryIsAddressable()
    ensures Addressable(LOW_MEMORY)
  {
  }

  /** The blocks that the boot stage keeps: kernel file, kernel stack, PML4, loaded kernel. */
  datatype Layout = Layout(image: Span, stack: Span, pml4: Span, area: Span)

  /** A block above low memory, page-aligned and inside a single usable entry. */
  ghost predicate InBlock(u: seq<Entry>, b: Span) {
    0x10_0000 <= b.start <= b.end && b.start % PAGE_SIZE == 0 && InsideEntry(u, b.start, b.end)
  }

  /** The file has a block of whole pages, and each of the others one of its own size. */
  predicate HasSizes(l: Layout, fileSize: nat, stackSize: nat, areaSize: nat) {
    && l.image.start + fileSize <= l.image.end < l.image.start + fileSize + 0x1000 && l.image.end % 0x1000 == 0
    && l.stack.end == l.stack.start + stackSize && l.pml4.end == l.pml4.start + 0x1000
    && l.area.end == l.area.start + areaSize
  }

  /** The blocks lie one above the other, the further page tables between PML4 and kernel, the offset
      at the end; and each of them lies in a single usable entry. */
  ghost predicate LaidOut(l: Layout, u: seq<Entry>, places: Places, offset: nat) {
    && l.image.end <= l.stack.start && l.stack.end <= l.pml4.start && l.pml4.end == l.pml4.start + PAGE_SIZE
    && l.pml4.end <= l.area.start && l.area.start < l.area.end == offset && offset % PAGE_SIZE == 0
    && (forall b | b in {l.image, l.stack, l.pml4, l.area} ::
          InBlock(u, b))
    && (forall p | p in places && p != l.pml4.start ::
          l.pml4.end <= p && p + PAGE_SIZE <= l.area.start && InsideEntry(u, p, p + PAGE_SIZE))
  }

  /** The first usable entry at or above 1 MiB is the lowest; 1 MiB itself is the start only if there is none. */
  lemma {:induction false} StartIsAligned(u: seq<Entry>, k: nat)
    requires UsableMap(u) && k <= |u|
    ensures var start := FirstStart(u, k);
      && 0x10_0000 <= start <= PHYS_LIMIT && start % 0x1000 == 0
      && (forall i | k <= i < |u| && u[i].base >= 0x10_0000 :: start <= u[i].base)
      && ((exists i :: k <= i < |u| && u[i].base == start)
          || (start == 0x10_0000 && forall i | k <= i < |u| :: u[i].base < 0x10_0000))
    decreases |u| - k
  {
    if k < |u| {
      UsableEntry(u, k);
      if u[k].base < ONE_MIB {
        StartIsAligned(u, k + 1);
      }
    }
  }

  lemma AreaIsJob(e: Entry, job: Job)
    requires job.v == DownToLarge(e.base) && job.large
    requires job.end == MappedEnd(DownToLarge(e.base), UpToLarge(e.limit), true)
    ensures job.end > 0 && Needed(job) == AreaTables(e)
  {
    AreaRange(e);
    hide MappedEnd, DownToLarge, UpToLarge;
    SameNeeds(job, AreaJob(e));
  }

  lemma CountOneMore(areas: seq<Entry>, e: Entry)
    ensures |Tables(areas + [e])| == |Tables(areas)| + |AreaTables(e) - Tables(areas)|
  {
    hide AreaTables, Tables;
    TablesOneMore(areas, e);
    Disjoint(Tables(areas), AreaTables(e) - Tables(areas));
    assert Tables(areas) + AreaTables(e) == Tables(areas) + (AreaTables(e) - Tables(areas));
  }

  lemma NoPages(u: seq<Entry>, from: nat)
    requires |u| > 0
    ensures Tables([]) == {} && Pages(u, from, 0) == Allocated(from)
  {
  }

  lemma SizeInWords(e: Entry, size: nat)
    requires Framebuffer(e)
    requires size ==
      if e.limit % LARGE_PAGE != 0 then (e.limit + (LARGE_PAGE - e.limit % LARGE_PAGE)) % LIMIT_32 else e.limit
    ensures Entry(e.base, size) == InWords(e)
  {
  }

  lemma PagesOfFile(n: nat)
    ensures n <= PageAlign(n) < n + PAGE_SIZE && PageAlign(n) % PAGE_SIZE == 0
  {
  }

  lemma ClearedPage(mem: Memory, p: nat)
    ensures var mem' := ClearPages(mem, p, PAGE_SIZE / PAGE_SIZE); p in mem' && mem'[p] == ZeroPage()
  {
  }

  lemma BlocksAreLaidOut(l: Layout, u: seq<Entry>, places: Places, offset: nat)
    requires InBlock(u, l.image) && InBlock(u, l.stack) && InBlock(u, l.pml4)
      && InsideEntry(u, l.area.start, l.area.end)
    requires l.image.end <= l.stack.start && l.stack.end <= l.pml4.start && l.pml4.end == l.pml4.start + PAGE_SIZE
    requires l.pml4.end <= l.area.start < l.area.end == offset && l.area.start % PAGE_SIZE == 0
      && offset % PAGE_SIZE == 0
    requires forall p | p in places && p != l.pml4.start ::
      l.pml4.end <= p && p + PAGE_SIZE <= l.area.start && InsideEntry(u, p, p + PAGE_SIZE)
    ensures LaidOut(l, u, places, offset)
  {
    hide InsideEntry;
  }

  lemma RootIsBelow(root: nat, offset: nat)
    requires root + PAGE_SIZE <= offset
    ensures Below(map[root := Place(4, 0)], offset)
  {
  }

  lemma TablesBetween(u: seq<Entry>, mem: Memory, own: Places, mem': Memory, own': Places, from: nat, to: nat,
                      root: nat)
    requires Footprint(u, mem, own, mem', own', from, to) && own == map[root := Place(4, 0)]
    ensures from <= to
    ensures forall p | p in own' && p != root :: from <= p && p + PAGE_SIZE <= to && InsideEntry(u, p, p + PAGE_SIZE)
  {
    hide InsideEntry;
  }

  /**
   Every byte of usable memory, of low memory and of the framebuffer is mapped, to itself, and can be written. Its page
   has the PAT bit if and only if the mapping of the framebuffer reaches it.
   */
  lemma UsableMemoryIsMapped(mem: Memory, root: nat, places: Places, u: seq<Entry>, framebuffer: Option<Entry>,
                             e: Entry,
                             a: nat)
    requires Tree(mem, root, places) && TablesHave(mem, places, PRESENT + RW)
    requires IdentityMapped(mem, root, MappedAreas(u, framebuffer), 1 + |u|)
    requires e in MappedAreas(u, framebuffer) && e.base <= a < e.End() && a < VIRT_LIMIT
    ensures Walk(mem, root, a) == Some(a) && MayWrite(mem, root, a) && LeafOf(mem, root, a).Some?
    ensures LeafOf(mem, root, a).value.entry / 0x1000 % 2 == 1
      <==> framebuffer.Some? && Reached(InWords(framebuffer.value), a)
  {
    hide Walk, LeafOf, Reached, Tree, TablesHave, InWords;
    var areas := MappedAreas(u, framebuffer);
    var i :| 0 <= i < |areas| && areas[i] == e;
    AreaIsReached(e, a);
    assert Reached(areas[i], a);
    assert Walk(mem, root, a) == if AnyReaches(areas, a) then Some(a) else None;
    var fast := areas[1 + |u|..];
    assert fast == if framebuffer.Some? then [InWords(framebuffer.value)] else [];
    if framebuffer.Some? && Reached(InWords(framebuffer.value), a) {
      assert Reached(fast[0], a);
    }
    IdentityBits(a, AnyReaches(fast, a));
    MayWriteAll(mem, root, places, a, PRESENT + RW);
  }

  lemma IdentityBits(va: nat, pat: bool)
    ensures var e := IdentityLeaf(va, pat).entry;
      Writable(e) && (e / 0x1000 % 2 == 1 <==> pat) && Writable(PRESENT + RW)
  {
    var k, bit := va / 0x20_0000, if pat then 1 else 0;
    LowBits(512 * k + bit, 0x83);
    assert IdentityLeaf(va, pat).entry == 0x1000 * (512 * k + bit) + 0x83;
    DivModUnique(512 * k + bit, 2, 256 * k, bit);
  }

  lemma LowBits(q: nat, low: nat)
    requires low < 0x1000
    ensures var e := 0x1000 * q + low; e / 0x1000 == q && (Writable(low) ==> Writable(e))
  {
    var e := 0x1000 * q + low;
    DivModUnique(e, 0x1000, q, low);
    DivModUnique(e, 2, 0x800 * q + low / 2, low % 2);
    DivModUnique(0x800 * q + low / 2, 2, 0x400 * q + low / 2 / 2, low / 2 % 2);
  }

  /** So are the first 16 MiB, whatever the map says. */
  lemma LowMemoryIsMapped(mem: Memory, root: nat, places: Places, u: seq<Entry>, framebuffer: Option<Entry>, a: nat)
    requires Tree(mem, root, places) && TablesHave(mem, places, PRESENT + RW)
    requires IdentityMapped(mem, root, MappedAreas(u, framebuffer), 1 + |u|) && a < 0x100_0000
    ensures Walk(mem, root, a) == Some(a) && MayWrite(mem, root, a)
  {
    hide Walk, LeafOf, Tree, TablesHave, InWords, IdentityMapped;
    assert MappedAreas(u, framebuffer)[0] == LOW_MEMORY;
    UsableMemoryIsMapped(mem, root, places, u, framebuffer, LOW_MEMORY, a);
  }

  /** No other address is mapped, and none to anything but itself. */
  lemma NothingElseIsMapped(mem: Memory, root: nat, areas: seq<Entry>, n: nat, va: nat, pa: nat)
    requires n <= |areas| && IdentityMapped(mem, root, areas, n) && va < VIRT_LIMIT && Walk(mem, root, va) == Some(pa)
    ensures pa == va && AnyReaches(areas, va)
  {
    hide Walk, AnyReaches, LeafOf, IdentityLeaf;
  }

  /** The last block always cuts a usable entry, so the kernel gets exactly the usable memory above it,
      and shares no byte with the kernel file, the stack, the loaded kernel or a page table. */
  lemma HandoverSharesNothing(l: Layout, u: seq<Entry>, places: Places, offset: nat, a: nat)
    requires UsableMap(u) && LaidOut(l, u, places, offset)
    ensures Exact(u, offset)
    ensures Contains(HandedOver(u, offset), a) ==>
      && (forall b | b in {l.image, l.stack, l.pml4, l.area} :: !(b.start <= a < b.end))
      && (forall p | p in places :: !(p <= a < p + PAGE_SIZE))
  {
    assert InBlock(u, l.image) && InBlock(u, l.stack) && InBlock(u, l.pml4) && InBlock(u, l.area);
    assert InsideEntry(u, l.area.start, l.area.end);
    var e :| 0 <= e < |u| && u[e].base <= l.area.start && l.area.end < u[e].End();
    assert u[e].base < offset <= u[e].End();
    HandedOverExactly(u, offset);
    hide HandedOver, Contains, InsideEntry, UsableMap;
    assert offset <= PageAlign(offset);
    hide PageAlign;
    assert Contains(HandedOver(u, offset), a) ==> PageAlign(offset) <= a;
  }
}
