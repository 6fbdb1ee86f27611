/**
 From the boot stage to the kernel: what the kernel's allocator assumes of the memory map beyond what the kernel checks
 (Common/Kernel/Entry.c), and why maps from this boot loader have it.
 */
module KernelMaps {
  import opened Limits
  import opened PageTree
  import opened UsableMemory
  import opened Handover
  import opened Boot
  import opened MmBlocks

  /** What the checks leave open. */
  ghost predicate Unchecked(u: seq<Entry>) {
    forall i | 0 <= i < |u| :: u[i].base > 0 && u[i].End() < LIMIT_64 && u[i].limit <= LIMIT_64 / 2
  }

  /** A map is right for the allocator if and only if it passes the kernel's checks of its entries, and has the rest. */
  lemma {:induction false} KernelMapExactly(u: seq<Entry>)
    requires forall i | 0 <= i < |u| :: Fits64(u[i])
    ensures KernelMap(u) <==> |u| > 0 && NeighboursPass(u) && AllGood(u) && Unchecked(u)
  {
    hide GoodEntry, Fits64, NeighboursPass, NeighboursDisjoint;
    NeighboursExactly(u);
  }

  /** Where the last block of the boot stage ends, it cuts an entry. */
  lemma LayoutCuts(l: Layout, u: seq<Entry>, places: Places, offset: nat)
    requires UsableMap(u) && LaidOut(l, u, places, offset)
    ensures Cuts(u, offset) && 0 < offset && offset % PAGE_SIZE == 0
  {
    assert InBlock(u, l.area);
    var e :| 0 <= e < |u| && u[e].base <= l.area.start && l.area.end < u[e].End();
    assert FirstReaching(u, offset, 0) <= e;
  }

  lemma HandedOverIsUnchecked(u: seq<Entry>, offset: nat)
    requires UsableMap(u) && 0 < offset && Cuts(u, offset)
    ensures Unchecked(HandedOver(u, offset))
  {
    hide UsableMap, HandedOver;
    var v, k := HandedOver(u, offset), FirstReaching(u, offset, 0);
    forall i | 0 <= i < |v|
      ensures v[i].base > 0 && v[i].End() < LIMIT_64 && v[i].limit <= LIMIT_64 / 2
    {
      HandedOverAt(u, offset, i);
      UsableEntry(u, k + i);
      if i > 0 {
        UsableOrder(u, k, k + i);
      }
    }
  }

  /**
   What the boot stage hands over has all that the allocator needs, checked or not, if and only if the last block has
   left enough of its entry.
   */
  lemma {:induction false} BootMapExactly(l: Layout, u: seq<Entry>, places: Places, offset: nat)
    requires UsableMap(u) && (forall i | 0 <= i < |u| :: u[i].limit >= 0x2_0000) && LaidOut(l, u, places, offset)
    ensures var k := FirstReaching(u, offset, 0);
      k < |u| && (KernelMap(HandedOver(u, offset)) <==> u[k].End() - offset >= 0x2_0000)
  {
    hide UsableMap, LaidOut, HandedOver, GoodEntry;
    LayoutCuts(l, u, places, offset);
    HandedOverIsUnchecked(u, offset);
    HandedOverChecks(u, offset);
    HandedOverSize(u, offset);
  }

  lemma HandedOverSize(u: seq<Entry>, offset: nat)
    requires UsableMap(u) && Cuts(u, offset)
    ensures |HandedOver(u, offset)| > 0
  {
    hide PageAlign;
  }
}
