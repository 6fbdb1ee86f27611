/**
 The page-table builder of the third boot stage (Boot/Legacy/Stage3/Memory/Paging/Paging.c), proved
 against the hardware page walk.
 */
module Paging {
  import opened Limits
  import opened PageWalk
  import opened PageEntry
  import opened PageTree
  import opened UsableMemory
  import opened Allocations
  import opened PagingSteps
  import opened PagingTables

  class Loader {
    var memory: Memory
    ghost var places: Places

    /** Zeroes whole pages. */
    method ClearMemory(from: nat, count: nat)
      modifies this`memory
      ensures memory == ClearPages(old(memory), from, count)
    {
      var i := 0;
      while i < count
        invariant i <= count
        invariant memory == ClearPages(old(memory), from, i)
      {
        memory := memory[from + PAGE_SIZE * i := ZeroPage()];
        i := i + 1;
      }
    }

    method LocateEntry(start: nat, u: seq<Entry>) returns (entry: nat, from: nat)
      requires UsableMap(u)
      ensures entry == EntryFor(u, start) && from == SearchFrom(u, start, entry)
    {
      from, entry := start, |u| - 1;
      while from < u[entry].base
        invariant 0 <= entry < |u| && from == start
        invariant Located(u, start, entry) == EntryFor(u, start)
        decreases entry
      {
        if entry == 0 {
          from := u[0].base;
          break;
        }
        entry := entry - 1;
      }
    }

    method AllocateFromMmap(start: nat, size: nat, clear: bool, u: seq<Entry>) returns (r: Allocation)
      requires UsableMap(u) && start <= PHYS_LIMIT && size < LIMIT_32
      requires clear ==> size % PAGE_SIZE == 0
      modifies this`memory
      ensures r == Allocate(u, start, size)
      ensures memory ==
        if clear && r.Allocated? then ClearPages(old(memory), r.end - size, size / PAGE_SIZE) else old(memory)
    {
      var entry, from := LocateEntry(start, u);
      while entry < |u|
        invariant EntryFor(u, start) <= entry < |u| && from == SearchFrom(u, start, entry)
        invariant AllocateFrom(u, start, size, entry) == Allocate(u, start, size)
        invariant memory == old(memory)
        decreases |u| - entry
      {
        if from + size > LIMIT_32 {
          return Panicked;
        }
        from := PageAlign(from);
        if from + size < u[entry].End() {
          if clear {
            ClearMemory(from, size / PAGE_SIZE);
          }
          return Allocated(from + size);
        }
        entry := entry + 1;
        if entry >= |u| {
          return NoSpace;
        }
        from := u[entry].base;
      }
      return Panicked;
    }

    /** Makes an entry lead to a table, a zeroed one from the usable map if there was none. */
    method EnsureTable(q: nat, i: nat, flags: nat, offset: nat, u: seq<Entry>, ghost job: Job, ghost bound: nat)
      returns (r: Allocation, p: nat)
      requires Inv(job, memory, places, offset, bound) && UsableMap(u)
      requires Entrance(job, memory, places, q, i, flags)
      requires Needs(job, places[q].level - 1, 512 * places[q].index + i)
      modifies this
      ensures Bumped(job, u, old(memory), memory, offset, r)
      ensures r.Allocated? ==>
        && Ensured(job, old(memory), old(places), q, i, bound, memory, places, r.end, p)
        && Footprint(u, old(memory), old(places), memory, places, offset, r.end)
    {
      hide Ensured, Inv, Footprint, Bumped, Needs;
      FootprintNone(u, memory, places, offset);
      OffsetBounds(job, memory, places, offset, bound);
      p := TablePointer(memory[q][i]);
      r := Allocated(offset);
      if p == 0 {
        if Allocate(u, offset, PAGE_SIZE).Allocated? {
          LinkedIsBumped(job, u, memory, places, offset, bound, q, i, flags);
        } else {
          FailedIsBumped(job, u, memory, places, offset, bound, q, i, flags);
        }
        LinkAllocated(job, memory, places, offset, bound, q, i, flags, u);
        r := AllocateFromMmap(offset, PAGE_SIZE, true, u);
        if !r.Allocated? {
          return;
        }
        p := r.end - PAGE_SIZE;
        PageIsNew(job, old(memory), places, offset, bound, u);
        FootprintLink(u, old(memory), places, q, i, MakePageEntry(p, flags), offset,
                      Place(places[q].level - 1, 512 * places[q].index + i));
        places := places[p := Place(places[q].level - 1, 512 * places[q].index + i)];
      } else {
        RelinkedIsBumped(job, u, memory, places, offset, bound, q, i, flags);
        RelinkEnsured(job, memory, places, offset, bound, q, i, flags);
        FootprintStore(u, memory, places, memory, places, offset, offset, q, i, MakePageEntry(p, flags));
      }
      memory := memory[q := memory[q][i := MakePageEntry(p, flags)]];
    }

    /** The innermost loop: the 4 KiB entries of one page table. */
    method FillPte(pte: nat, i4: nat, i3: nat, i2: nat, initial: seq<nat>, final: seq<nat>,
                   flags: nat, pat: bool, phys0: nat, ghost offset: nat, ghost u: seq<Entry>,
                   ghost job: Job, ghost t: nat)
      returns (phys: nat)
      requires job.Valid() && !job.large && TableFlags(flags) && Digits(job, initial, final) && |u| > 0
      requires job.bits == LeafBits(flags, false, pat)
      requires i4 < 512 && i3 < 512 && i2 < 512 && t == 512 * (512 * i4 + i3) + i2 && InRange(job, 2, t)
      requires At(job, memory, places, offset, phys0, SlotStart(2, t)) && Stands(job, memory, places, pte, 1, t)
      modifies this`memory
      ensures Filled(job, old(memory), old(places), memory, places, offset, phys, 1, t)
      ensures Footprint(u, old(memory), old(places), memory, places, offset, offset)
      ensures Bumped(job, u, old(memory), memory, offset, Allocated(offset))
    {
      hide At, Inv, Tree, TableAt, InRange, Slot, SlotStart, FirstIndex, LastIndex, UpperTablesKept, Digits,
           TableFlags, MakePageEntry, SmallLeafFlags, Filled, Footprint, Bumped;
      phys := phys0;
      PteIndices(job, initial, final, i4, i3, i2, t);
      IndexRange(job, 1, t);
      IndexBounds(job, 1, t);
      var index := if i4 == initial[0] && i3 == initial[1] && i2 == initial[2] then initial[3] else 0;
      var last := if i4 == final[0] && i3 == final[1] && i2 == final[2] then final[3] else 511;
      AtSame(job, memory, places, offset, phys, SlotStart(2, t), SlotStart(1, 512 * t + index));
      Reflexive(memory, places, job.root, 1);
      FootprintNone(u, memory, places, offset);
      while index <= last
        invariant FirstIndex(job, 1, t) <= index <= last + 1 && last == LastIndex(job, 1, t)
        invariant At(job, memory, places, offset, phys, SlotStart(1, 512 * t + index))
        invariant Stands(job, memory, places, pte, 1, t)
        invariant UpperTablesKept(old(memory), memory, job.root, 1)
        invariant Footprint(u, old(memory), places, memory, places, offset, offset)
      {
        IndexInRange(job, 1, t, index);
        FootprintStore(u, old(memory), places, memory, places, offset, offset, pte, index,
                       MakePageEntry(phys, SmallLeafFlags(flags, pat)));
        SmallLeafStep(job, memory, places, offset, phys, pte, t, index, flags, pat);
        KeptTrans(old(memory), memory, SetEntry(memory, pte, index, MakePageEntry(phys, SmallLeafFlags(flags, pat))),
                  job.root, 1, 1);
        memory := memory[pte := memory[pte][index := MakePageEntry(phys, SmallLeafFlags(flags, pat))]];
        phys := phys + PAGE_SIZE;
        index := index + 1;
      }
      BumpedStore(job, u, old(memory), memory, offset);
      MakeFilled(job, old(memory), places, memory, places, offset, phys, 1, t);
    }

    /** The loop over a PML2: 2 MiB pages are stored at once, otherwise every entry gets a page table. */
    method FillPml2(pml2: nat, i4: nat, i3: nat, initial: seq<nat>, final: seq<nat>,
                    flags: nat, large: bool, pat: bool, phys0: nat, offset: nat, u: seq<Entry>,
                    ghost job: Job, ghost t: nat)
      returns (r: Allocation, phys: nat)
      requires job.Valid() && job.large == large && TableFlags(flags) && Digits(job, initial, final) && UsableMap(u)
      requires job.flags == flags && job.bits == LeafBits(flags, large, pat)
      requires i4 < 512 && i3 < 512 && t == 512 * i4 + i3 && InRange(job, 3, t)
      requires At(job, memory, places, offset, phys0, SlotStart(3, t)) && Stands(job, memory, places, pml2, 2, t)
      modifies this
      ensures r.Allocated? ==> Filled(job, old(memory), old(places), memory, places, r.end, phys, 2, t)
      ensures r.Allocated? ==> Footprint(u, old(memory), old(places), memory, places, offset, r.end)
      ensures Bumped(job, u, old(memory), memory, offset, r)
    {
      hide At, Inv, Tree, TableAt, InRange, Slot, SlotStart, FirstIndex, LastIndex, UpperTablesKept, Extends, Digits,
           TableFlags, MakePageEntry, SmallLeafFlags, LargeLeafFlags, Filled, Ensured, Entrance, Footprint, Bumped,
           Needs, LeafBits;
      phys := phys0;
      r := Allocated(offset);
      Pml2Indices(job, initial, final, i4, i3, t);
      IndexRange(job, 2, t);
      IndexBounds(job, 2, t);
      var index := if i4 == initial[0] && i3 == initial[1] then initial[2] else 0;
      var last := if i4 == final[0] && i3 == final[1] then final[2] else 511;
      AtSame(job, memory, places, offset, phys, SlotStart(3, t), SlotStart(2, 512 * t + index));
      Reflexive(memory, places, job.root, 2);
      FootprintNone(u, memory, places, offset);
      BumpedNone(job, u, memory, offset);
      while index <= last
        invariant FirstIndex(job, 2, t) <= index <= last + 1 && last == LastIndex(job, 2, t)
        invariant r.Allocated? && At(job, memory, places, r.end, phys, SlotStart(2, 512 * t + index))
        invariant Stands(job, memory, places, pml2, 2, t)
        invariant UpperTablesKept(old(memory), memory, job.root, 2) && Extends(old(places), places)
        invariant Footprint(u, old(memory), old(places), memory, places, offset, r.end)
        invariant Bumped(job, u, old(memory), memory, offset, r)
      {
        IndexInRange(job, 2, t, index);
        ghost var mem, own, from := memory, places, r.end;
        if large {
          LargeLeafStep(job, memory, places, r.end, phys, pml2, t, index, flags, pat);
          FootprintStore(u, old(memory), old(places), memory, places, offset, r.end, pml2, index,
                         MakePageEntry(phys, LargeLeafFlags(flags, pat)));
          memory := memory[pml2 := memory[pml2][index := MakePageEntry(phys, LargeLeafFlags(flags, pat))]];
          KeptTrans(old(memory), mem, memory, job.root, 2, 2);
          BumpedStore(job, u, mem, memory, r.end);
          BumpedTrans(job, u, old(memory), mem, memory, offset, r.end, r);
          phys := phys + LARGE_PAGE;
        } else {
          var pte;
          ghost var here := SlotStart(2, 512 * t + index);
          NeedsHere(job, 1, 512 * t + index);
          EntranceHere(job, memory, places, r.end, phys, here, pml2, 2, t, index, flags);
          AtInv(job, memory, places, r.end, phys, here);
          r, pte := EnsureTable(pml2, index, flags, r.end, u, job, job.Clamp(here));
          BumpedTrans(job, u, old(memory), mem, memory, offset, from, r);
          if !r.Allocated? {
            return;
          }
          EnsuredAt(job, mem, own, memory, places, r.end, phys, here, pml2, 2, t, index, pte);
          FootprintTrans(u, old(memory), old(places), mem, own, memory, places, offset, from, r.end);
          ghost var mem1, own1 := memory, places;
          phys := FillPte(pte, i4, i3, index, initial, final, flags, pat, phys, r.end, u, job, 512 * t + index);
          FootprintTrans(u, old(memory), old(places), mem1, own1, memory, places, offset, r.end, r.end);
          BumpedTrans(job, u, old(memory), mem1, memory, offset, r.end, r);
          RoundDone(job, old(memory), old(places), mem, own, mem1, own1, memory, places, r.end, phys, pml2, 2, t,
                    index);
        }
        index := index + 1;
      }
      MakeFilled(job, old(memory), old(places), memory, places, r.end, phys, 2, t);
    }

    /** The loop over a PML3. */
    method FillPml3(pml3: nat, i4: nat, initial: seq<nat>, final: seq<nat>,
                    flags: nat, large: bool, pat: bool, phys0: nat, offset: nat, u: seq<Entry>, ghost job: Job)
      returns (r: Allocation, phys: nat)
      requires job.Valid() && job.large == large && TableFlags(flags) && Digits(job, initial, final) && UsableMap(u)
      requires job.flags == flags && job.bits == LeafBits(flags, large, pat)
      requires i4 < 512 && InRange(job, 4, i4)
      requires At(job, memory, places, offset, phys0, SlotStart(4, i4)) && Stands(job, memory, places, pml3, 3, i4)
      modifies this
      ensures r.Allocated? ==> Filled(job, old(memory), old(places), memory, places, r.end, phys, 3, i4)
      ensures r.Allocated? ==> Footprint(u, old(memory), old(places), memory, places, offset, r.end)
      ensures Bumped(job, u, old(memory), memory, offset, r)
    {
      hide At, Inv, Tree, TableAt, InRange, Slot, SlotStart, FirstIndex, LastIndex, UpperTablesKept, Extends, Digits,
           TableFlags, MakePageEntry, SmallLeafFlags, LargeLeafFlags, Filled, Ensured, Entrance, Footprint, Bumped,
           Needs, LeafBits;
      phys := phys0;
      r := Allocated(offset);
      Pml3Indices(job, initial, final, i4);
      IndexRange(job, 3, i4);
      IndexBounds(job, 3, i4);
      var index := if i4 == initial[0] then initial[1] else 0;
      var last := if i4 == final[0] then final[1] else 511;
      AtSame(job, memory, places, offset, phys, SlotStart(4, i4), SlotStart(3, 512 * i4 + index));
      Reflexive(memory, places, job.root, 3);
      FootprintNone(u, memory, places, offset);
      BumpedNone(job, u, memory, offset);
      while index <= last
        invariant FirstIndex(job, 3, i4) <= index <= last + 1 && last == LastIndex(job, 3, i4)
        invariant r.Allocated? && At(job, memory, places, r.end, phys, SlotStart(3, 512 * i4 + index))
        invariant Stands(job, memory, places, pml3, 3, i4)
        invariant UpperTablesKept(old(memory), memory, job.root, 3) && Extends(old(places), places)
        invariant Footprint(u, old(memory), old(places), memory, places, offset, r.end)
        invariant Bumped(job, u, old(memory), memory, offset, r)
      {
        IndexInRange(job, 3, i4, index);
        ghost var mem, own, from := memory, places, r.end;
        var pml2;
        ghost var here := SlotStart(3, 512 * i4 + index);
        NeedsHere(job, 2, 512 * i4 + index);
        EntranceHere(job, memory, places, r.end, phys, here, pml3, 3, i4, index, flags);
        AtInv(job, memory, places, r.end, phys, here);
        r, pml2 := EnsureTable(pml3, index, flags, r.end, u, job, job.Clamp(here));
        BumpedTrans(job, u, old(memory), mem, memory, offset, from, r);
        if !r.Allocated? {
          return;
        }
        EnsuredAt(job, mem, own, memory, places, r.end, phys, here, pml3, 3, i4, index, pml2);
        FootprintTrans(u, old(memory), old(places), mem, own, memory, places, offset, from, r.end);
        ghost var mem1, own1, from1 := memory, places, r.end;
        r, phys := FillPml2(pml2, i4, index, initial, final, flags, large, pat, phys, r.end, u, job, 512 * i4 + index);
        BumpedTrans(job, u, old(memory), mem1, memory, offset, from1, r);
        if !r.Allocated? {
          return;
        }
        FootprintTrans(u, old(memory), old(places), mem1, own1, memory, places, offset, from1, r.end);
        RoundDone(job, old(memory), old(places), mem, own, mem1, own1, memory, places, r.end, phys, pml3, 3, i4, index);
        index := index + 1;
      }
      MakeFilled(job, old(memory), old(places), memory, places, r.end, phys, 3, i4);
    }

    /** Maps [virt, virt + size] to phys onwards, page by page. */
    method InitializePageEntries(phys0: nat, virt: nat, size: nat, pml4: nat, flags: nat, large: bool, pat: bool,
                                 offset: nat, u: seq<Entry>)
      returns (r: Allocation)
      requires UsableMap(u) && TableFlags(flags) && Tree(memory, pml4, places)
      requires Below(places, offset) && offset % PAGE_SIZE == 0 && offset <= LIMIT_32
      requires phys0 % LeafSizeOf(large) == 0 && virt % LeafSizeOf(large) == 0 ==> Mappable(phys0, virt, size, large)
      requires var v := virt % VIRT_LIMIT;
        !large ==> NoLargePages(memory, places, v / LARGE_PAGE, (MappedEnd(v, size, large) - 1) / LARGE_PAGE)
      modifies this
      ensures var job := JobOf(old(memory), old(places), pml4, phys0, virt, size, flags, large, pat);
        if phys0 % LeafSizeOf(large) != 0 || virt % LeafSizeOf(large) != 0 then r == Panicked
        else
          && job.end > 0 && r == Pages(u, offset, |Missing(job, old(memory))|)
          && (r.Allocated? ==> Complete(job, memory))
      ensures r.Allocated? ==>
        var job := JobOf(old(memory), old(places), pml4, phys0, virt, size, flags, large, pat);
        && Tree(memory, pml4, places) && Below(places, r.end) && r.end % PAGE_SIZE == 0 && r.end <= LIMIT_32
        && Footprint(u, old(memory), old(places), memory, places, offset, r.end)
        && Mapped(job, memory) && LeavesMade(job, memory)
        && MapsPages(old(memory), memory, pml4, phys0, virt, size, flags, large, pat)
      ensures r.Allocated? && TablesHave(old(memory), old(places), flags) ==> TablesHave(memory, places, flags)
    {
      hide At, Inv, Tree, TableAt, InRange, Slot, SlotStart, FirstIndex, LastIndex, UpperTablesKept, Extends, Digits,
           TableFlags, MakePageEntry, SmallLeafFlags, LargeLeafFlags, Filled, Ensured, Entrance, Footprint, Bumped,
           Needs, Missing, Pages, Mapped, LeavesMade, MapsPages, LeafBits, TablesHave, JobOf, Mappable, IndicesOf,
           MappedEnd, NoLargePages, Below;
      Low32(phys0, large);
      Low32(virt, large);
      if phys0 % 0x1_0000_0000 % LeafSizeOf(large) != 0 {
        return Panicked;
      } else if virt % 0x1_0000_0000 % LeafSizeOf(large) != 0 {
        return Panicked;
      }
      var initial, final := IndicesOf(virt), IndicesOf(virt + size);
      ghost var job := JobOf(memory, places, pml4, phys0, virt, size, flags, large, pat);
      JobIsValid(memory, places, pml4, phys0, virt, size, flags, large, pat);
      JobDigits(memory, places, pml4, phys0, virt, size, flags, large, pat);
      JobParts(memory, places, pml4, phys0, virt, size, flags, large, pat);
      StartAt(job, places, offset);
      Pml4Indices(job, initial, final);
      FootprintNone(u, memory, places, offset);
      BumpedNone(job, u, memory, offset);
      r := Allocated(offset);
      var phys, index, last := phys0, initial[0], final[0];
      while index <= last
        invariant Slot(job.v, 4) <= index <= last + 1 && last == Slot(job.end - 1, 4)
        invariant r.Allocated? && At(job, memory, places, r.end, phys, SlotStart(4, index))
        invariant Stands(job, memory, places, pml4, 4, 0)
        invariant Footprint(u, old(memory), old(places), memory, places, offset, r.end)
        invariant Bumped(job, u, old(memory), memory, offset, r)
      {
        TopInRange(job, index);
        ghost var mem, own, from := memory, places, r.end;
        var pml3;
        ghost var here := SlotStart(4, index);
        NeedsHere(job, 3, index);
        EntranceHere(job, memory, places, r.end, phys, here, pml4, 4, 0, index, flags);
        AtInv(job, memory, places, r.end, phys, here);
        r, pml3 := EnsureTable(pml4, index, flags, r.end, u, job, job.Clamp(here));
        BumpedTrans(job, u, old(memory), mem, memory, offset, from, r);
        if !r.Allocated? {
          AllIsTaken(job, u, old(memory), memory, offset, r);
          return;
        }
        EnsuredAt(job, mem, own, memory, places, r.end, phys, here, pml4, 4, 0, index, pml3);
        FootprintTrans(u, old(memory), old(places), mem, own, memory, places, offset, from, r.end);
        ghost var mem1, own1, from1 := memory, places, r.end;
        r, phys := FillPml3(pml3, index, initial, final, flags, large, pat, phys, r.end, u, job);
        BumpedTrans(job, u, old(memory), mem1, memory, offset, from1, r);
        if !r.Allocated? {
          AllIsTaken(job, u, old(memory), memory, offset, r);
          return;
        }
        FootprintTrans(u, old(memory), old(places), mem1, own1, memory, places, offset, from1, r.end);
        Reflexive(mem1, own1, job.root, 4);
        RoundDone(job, mem1, own1, mem1, own1, mem1, own1, memory, places, r.end, phys, pml4, 4, 0, index);
        index := index + 1;
      }
      Finished(job, memory, places, r.end, phys);
      NothingMissing(job, memory, places, r.end);
      AllIsTaken(job, u, old(memory), memory, offset, r);
      GrownComplete(job, u, old(memory), memory, offset, r);
      FinishedMeans(job, memory, places, r.end, flags, pat);
      MapsItsPages(old(memory), old(places), memory, pml4, phys0, virt, size, flags, large, pat);
    }
  }
}
