/**
 Trimming the usable memory map before the kernel gets it (Boot/Legacy/Stage3/Bootloader.c, 1608-1662),
 and the checks that the kernel then makes of it (Common/Kernel/Entry.c, 228-291).
 */
module Handover {
  import opened Limits
  import opened UsableMemory
  import opened RawMemory

  /** The first entry, from `k` on, that does not end below the offset. */
  function FirstReaching(u: seq<Entry>, offset: nat, k: nat): (r: nat)
    requires k <= |u|
    ensures k <= r <= |u|
    ensures forall i | k <= i < r :: u[i].End() < offset
    ensures r < |u| ==> u[r].End() >= offset
    decreases |u| - k
  {
    if k < |u| && u[k].End() < offset then FirstReaching(u, offset, k + 1) else k
  }

  ghost predicate Cuts(u: seq<Entry>, offset: nat) {
    var k := FirstReaching(u, offset, 0);
    k < |u| && u[k].base < offset
  }

  /** The map as it is handed over: only an entry that the offset cuts makes anything go away. */
  function HandedOver(u: seq<Entry>, offset: nat): seq<Entry>
    requires UsableMap(u)
  {
    var k := FirstReaching(u, offset, 0);
    if k < |u| && u[k].base < offset then
      AlignedEnd(u[k], offset);
      [Entry(PageAlign(offset), u[k].End() - PageAlign(offset))] + u[k + 1..]
    else u
  }

  lemma AlignedEnd(e: Entry, offset: nat)
    requires e.base % PAGE_SIZE == 0 && e.limit % PAGE_SIZE == 0 && e.base < offset <= e.End()
    ensures PageAlign(offset) <= e.End()
  {
  }

  lemma CutResult(u: seq<Entry>, offset: nat, k: nat)
    requires UsableMap(u) && k == FirstReaching(u, offset, 0) && Cuts(u, offset)
    ensures PageAlign(offset) <= u[k].End()
    ensures HandedOver(u, offset) == [Entry(PageAlign(offset), u[k].End() - PageAlign(offset))] + u[k + 1..]
  {
    hide PageAlign, UsableMap;
    UsableEntry(u, k);
    AlignedEnd(u[k], offset);
  }

  lemma UncutResult(u: seq<Entry>, offset: nat)
    requires UsableMap(u)
    ensures !Cuts(u, offset) ==> HandedOver(u, offset) == u
  {
  }

  lemma RestIsAbove(u: seq<Entry>, offset: nat, i: nat)
    requires UsableMap(u) && Cuts(u, offset) && 0 < i < |HandedOver(u, offset)|
    ensures HandedOver(u, offset)[i].base >= offset
  {
    var k := FirstReaching(u, offset, 0);
    assert HandedOver(u, offset)[i] == u[k + i];
  }

  lemma FirstIsBelow(u: seq<Entry>, offset: nat, k: nat)
    requires UsableMap(u) && k == FirstReaching(u, offset, 0)
    ensures forall i | 0 <= i < k :: u[i].End() < offset
    ensures k < |u| ==> forall i | k < i < |u| :: offset <= u[i].base
  {
  }

  /** Nothing below the offset is handed over, and nothing from the offset up is lost. */
  ghost predicate Exact(u: seq<Entry>, offset: nat)
    requires UsableMap(u)
  {
    forall a: nat :: Contains(HandedOver(u, offset), a) <==> Contains(u, a) && PageAlign(offset) <= a
  }

  lemma ExactWhenCut(u: seq<Entry>, offset: nat)
    requires UsableMap(u) && Cuts(u, offset)
    ensures Exact(u, offset) && exists k | 0 <= k < |u| :: u[k].base < offset <= u[k].End()
  {
    hide UsableMap, HandedOver, Contains, PageAlign;
    forall a: nat
      ensures Contains(HandedOver(u, offset), a) <==> Contains(u, a) && PageAlign(offset) <= a
    {
      CutContents(u, offset, FirstReaching(u, offset, 0), a);
    }
  }

  lemma ExactWhenAbove(u: seq<Entry>, offset: nat)
    requires UsableMap(u) && offset <= u[0].base
    ensures Exact(u, offset)
  {
    forall a: nat | Contains(u, a)
      ensures PageAlign(offset) <= a
    {
      AlignBelow(offset, u[0].base);
      var i :| 0 <= i < |u| && u[i].base <= a < u[i].End();
    }
  }

  lemma InexactOtherwise(u: seq<Entry>, offset: nat)
    requires UsableMap(u) && !Cuts(u, offset) && u[0].base < offset
    ensures !Exact(u, offset) && !exists k | 0 <= k < |u| :: u[k].base < offset <= u[k].End()
  {
    FirstIsBelow(u, offset, FirstReaching(u, offset, 0));
    assert u[0].base <= u[0].base < u[0].End();
    assert Contains(HandedOver(u, offset), u[0].base);
    hide PageAlign, HandedOver;
  }

  /** What is handed over is exactly the usable memory from the offset up if, and only if, the offset
      cuts an entry or nothing lies below it. */
  lemma HandedOverExactly(u: seq<Entry>, offset: nat)
    requires UsableMap(u)
    ensures Exact(u, offset)
      <==> offset <= u[0].base || exists k | 0 <= k < |u| :: u[k].base < offset <= u[k].End()
  {
    hide Exact;
    if Cuts(u, offset) {
      ExactWhenCut(u, offset);
    } else if offset <= u[0].base {
      ExactWhenAbove(u, offset);
    } else {
      InexactOtherwise(u, offset);
    }
  }

  /** With an offset in a gap between entries, the entry below it is handed over although it lies below the offset. */
  lemma GapOffsetKeepsBelow()
    ensures var u := [Entry(0x10_0000, 0x2_0000), Entry(0x20_0000, 0x2_0000)];
      UsableMap(u) && HandedOver(u, 0x15_0000) == u && !Exact(u, 0x15_0000)
  {
    var u := [Entry(0x10_0000, 0x2_0000), Entry(0x20_0000, 0x2_0000)];
    assert FirstReaching(u, 0x15_0000, 2) == 2 && FirstReaching(u, 0x15_0000, 1) == 1;
    InexactOtherwise(u, 0x15_0000);
  }

  /** Where the entries that are handed over come from. */
  lemma HandedOverAt(u: seq<Entry>, offset: nat, i: nat)
    requires UsableMap(u) && i < |HandedOver(u, offset)|
    ensures var k, v := if Cuts(u, offset) then FirstReaching(u, offset, 0) else 0, HandedOver(u, offset);
      && k + i < |u| && v[i].End() == u[k + i].End()
      && v[i] ==
         if i == 0 && Cuts(u, offset) then Entry(PageAlign(offset), u[k].End() - PageAlign(offset)) else u[k + i]
  {
    hide UsableMap, PageAlign, HandedOver;
    UncutResult(u, offset);
    if Cuts(u, offset) {
      var k := FirstReaching(u, offset, 0);
      CutResult(u, offset, k);
      assert i > 0 ==> u[k + 1..][i - 1] == u[k + i];
    }
  }

  lemma CutEntry(u: seq<Entry>, offset: nat, i: nat)
    requires UsableMap(u) && Cuts(u, offset) && i < |HandedOver(u, offset)|
    ensures var k, v := FirstReaching(u, offset, 0), HandedOver(u, offset);
      && k + i < |u| && v[i].End() == u[k + i].End()
      && v[i].base == (if i == 0 then PageAlign(offset) else u[k + i].base)
      && PageAlign(offset) <= v[i].base && u[k + i].base <= v[i].base
  {
    hide UsableMap, PageAlign, HandedOver;
    var k := FirstReaching(u, offset, 0);
    HandedOverAt(u, offset, i);
    FirstIsBelow(u, offset, k);
    if i > 0 {
      UsableEntry(u, k + i);
      AlignBelow(offset, u[k + i].base);
    } else {
      BaseBelowAligned(u[k].base, offset);
    }
  }

  lemma BaseBelowAligned(base: nat, offset: nat)
    requires base < offset
    ensures base <= PageAlign(offset)
  {
  }

  lemma AlignBelow(a: nat, b: nat)
    requires a <= b && b % PAGE_SIZE == 0
    ensures PageAlign(a) <= b
  {
  }

  lemma CutContentsKept(u: seq<Entry>, offset: nat, k: nat, a: nat)
    requires UsableMap(u) && Cuts(u, offset) && k == FirstReaching(u, offset, 0)
    requires Contains(HandedOver(u, offset), a)
    ensures Contains(u, a) && PageAlign(offset) <= a
  {
    var v := HandedOver(u, offset);
    hide PageAlign, UsableMap, HandedOver, FirstReaching, Cuts;
    var i: nat :| 0 <= i < |v| && v[i].base <= a < v[i].End();
    CutEntry(u, offset, i);
    assert u[k + i].base <= a < u[k + i].End();
  }

  lemma CutSize(u: seq<Entry>, offset: nat)
    requires UsableMap(u) && Cuts(u, offset)
    ensures |HandedOver(u, offset)| == |u| - FirstReaching(u, offset, 0)
  {
  }

  lemma CutContentsFound(u: seq<Entry>, offset: nat, k: nat, a: nat)
    requires UsableMap(u) && Cuts(u, offset) && k == FirstReaching(u, offset, 0)
    requires Contains(u, a) && PageAlign(offset) <= a
    ensures Contains(HandedOver(u, offset), a)
  {
    hide PageAlign, UsableMap, HandedOver, FirstReaching, Cuts;
    CutSize(u, offset);
    var v := HandedOver(u, offset);
    var j: nat :| 0 <= j < |u| && u[j].base <= a < u[j].End();
    CutReached(u, offset, k, a, j);
    CutEntry(u, offset, j - k);
    assert v[j - k].base <= a < v[j - k].End();
  }

  lemma CutContents(u: seq<Entry>, offset: nat, k: nat, a: nat)
    requires UsableMap(u) && Cuts(u, offset) && k == FirstReaching(u, offset, 0)
    ensures Contains(HandedOver(u, offset), a) <==> Contains(u, a) && PageAlign(offset) <= a
  {
    hide PageAlign, UsableMap, HandedOver, FirstReaching, Cuts, Contains;
    if Contains(HandedOver(u, offset), a) {
      CutContentsKept(u, offset, k, a);
    }
    if Contains(u, a) && PageAlign(offset) <= a {
      CutContentsFound(u, offset, k, a);
    }
  }

  lemma CutReached(u: seq<Entry>, offset: nat, k: nat, a: nat, j: nat)
    requires UsableMap(u) && k == FirstReaching(u, offset, 0)
    requires j < |u| && u[j].base <= a < u[j].End() && PageAlign(offset) <= a
    ensures j >= k
  {
  }

  // What the kernel checks

  datatype Verdict = Accepted | NoEntries | Overlapping | NotPageAligned | UnderMinSize | UnderLimit

  ghost predicate NeighboursDisjoint(u: seq<Entry>) {
    forall i | 0 < i < |u| :: u[i - 1].End() <= u[i].base
  }

  predicate PageAligned(e: Entry) {
    e.base % 0x1000 == 0 && e.End() % 0x1000 == 0
  }

  predicate GoodEntry(e: Entry) {
    PageAligned(e) && e.limit >= 0x2_0000
  }

  /** The end of an entry, in 64 bits. */
  function WrappedEnd(e: Entry): nat { e.End() % LIMIT_64 }

  /** What the kernel compares: the ends as they come out in 64 bits. */
  ghost predicate NeighboursPass(u: seq<Entry>) {
    forall i | 0 < i < |u| :: WrappedEnd(u[i - 1]) <= u[i].base
  }

  predicate Fits64(e: Entry) { e.base < LIMIT_64 && e.limit < LIMIT_64 }

  /** The comparison proves neighbours disjoint if and only if no entry but the last wraps around. */
  lemma {:induction false} NeighboursExactly(u: seq<Entry>)
    requires forall i | 0 <= i < |u| :: Fits64(u[i])
    ensures NeighboursDisjoint(u) <==> NeighboursPass(u) && forall i | 0 <= i < |u| - 1 :: u[i].End() < LIMIT_64
  {
    if NeighboursDisjoint(u) {
      forall i | 0 <= i < |u| - 1
        ensures u[i].End() < LIMIT_64
      {
        assert u[(i + 1) - 1].End() <= u[i + 1].base;
        assert Fits64(u[i + 1]);
      }
    } else {
      var i :| 0 < i < |u| && u[i - 1].End() > u[i].base;
      assert u[i - 1].End() < LIMIT_64 ==> WrappedEnd(u[i - 1]) == u[i - 1].End();
    }
  }

  /** An entry up to the end of the address space ends at zero, and lets anything follow. */
  lemma WrapHidesOverlap()
    ensures var u := [Entry(0x2_0000, LIMIT_64 - 0x2_0000), Entry(0x2_0000, 0x2_0000)];
      && (forall i | 0 <= i < |u| :: Fits64(u[i]) && GoodEntry(u[i])) && NeighboursPass(u) && !NeighboursDisjoint(u)
  {
    var u := [Entry(0x2_0000, LIMIT_64 - 0x2_0000), Entry(0x2_0000, 0x2_0000)];
    assert u[1 - 1].End() > u[1].base;
  }

  lemma SizeIn64(e: Entry)
    requires Fits64(e)
    ensures (WrappedEnd(e) - e.base) % LIMIT_64 == e.limit && WrappedEnd(e) % PAGE_SIZE == e.End() % PAGE_SIZE
  {
    if e.End() < LIMIT_64 {
      assert WrappedEnd(e) == e.End();
    } else {
      assert WrappedEnd(e) == e.End() - LIMIT_64;
      assert (WrappedEnd(e) - e.base) % LIMIT_64 == WrappedEnd(e) - e.base + LIMIT_64;
    }
  }

  /** The first entry, from k on, that is not good. */
  function FirstBad(u: seq<Entry>, k: nat): (r: nat)
    requires k <= |u|
    ensures k <= r <= |u| && (r < |u| ==> !GoodEntry(u[r]))
    ensures forall i | k <= i < r :: GoodEntry(u[i])
    decreases |u| - k
  {
    if k < |u| && GoodEntry(u[k]) then FirstBad(u, k + 1) else k
  }

  ghost predicate AllGood(u: seq<Entry>) {
    forall i | 0 <= i < |u| :: GoodEntry(u[i])
  }

  /** The checks on the usable map before anything else is done with it, in their order. */
  method CheckMap(u: seq<Entry>, kernelLimit: nat) returns (v: Verdict)
    requires forall i | 0 <= i < |u| :: Fits64(u[i])
    ensures v == NoEntries <==> |u| == 0
    ensures v == Overlapping <==> |u| > 0 && !NeighboursPass(u)
    ensures v == NotPageAligned <==>
      |u| > 0 && NeighboursPass(u) && !AllGood(u) && !PageAligned(u[FirstBad(u, 0)])
    ensures v == UnderMinSize <==>
      |u| > 0 && NeighboursPass(u) && !AllGood(u) && PageAligned(u[FirstBad(u, 0)])
    ensures v == UnderLimit <==> |u| > 0 && NeighboursPass(u) && AllGood(u) && Total(u) % LIMIT_64 < kernelLimit
    ensures v == Accepted <==> |u| > 0 && NeighboursPass(u) && AllGood(u) && kernelLimit <= Total(u) % LIMIT_64
  {
    hide WrappedEnd, GoodEntry, PageAligned, FirstBad, Total, AllGood, Fits64;
    if |u| == 0 {
      return NoEntries;
    }
    var index := 1;
    while index < |u|
      invariant 1 <= index <= |u|
      invariant forall i | 0 < i < index :: WrappedEnd(u[i - 1]) <= u[i].base
    {
      if u[index].base < WrappedEnd(u[index - 1]) {
        return Overlapping;
      }
      index := index + 1;
    }
    v := CheckEntries(u, kernelLimit);
  }

  method CheckEntries(u: seq<Entry>, kernelLimit: nat) returns (v: Verdict)
    requires forall i | 0 <= i < |u| :: Fits64(u[i])
    ensures v != NoEntries && v != Overlapping
    ensures v == NotPageAligned <==> !AllGood(u) && !PageAligned(u[FirstBad(u, 0)])
    ensures v == UnderMinSize <==> !AllGood(u) && PageAligned(u[FirstBad(u, 0)])
    ensures v == UnderLimit <==> AllGood(u) && Total(u) % LIMIT_64 < kernelLimit
    ensures v == Accepted <==> AllGood(u) && kernelLimit <= Total(u) % LIMIT_64
  {
    hide WrappedEnd, Fits64, Total;
    TotalOfNone();
    var available, index := 0, 0;
    while index < |u|
      invariant 0 <= index <= |u| && available == Total(u[..index]) % LIMIT_64
      invariant FirstBad(u, index) == FirstBad(u, 0)
      invariant forall i | 0 <= i < index :: GoodEntry(u[i])
    {
      var start, end := u[index].base, WrappedEnd(u[index]);
      SizeIn64(u[index]);
      OneMoreSize(u, index);
      available := (available + (end - start) % LIMIT_64) % LIMIT_64;
      if start % PAGE_SIZE != 0 || end % PAGE_SIZE != 0 {
        return NotPageAligned;
      }
      if (end - start) % LIMIT_64 < ENTRY_LIMIT {
        return UnderMinSize;
      }
      index := index + 1;
    }
    assert u[..|u|] == u;
    return if available < kernelLimit then UnderLimit else Accepted;
  }

  lemma TotalOfNone()
    ensures Total([]) == 0
  {
  }

  lemma OneMoreSize(u: seq<Entry>, n: nat)
    requires n < |u|
    ensures Total(u[..n + 1]) % LIMIT_64 == (Total(u[..n]) % LIMIT_64 + u[n].limit) % LIMIT_64
  {
    assert u[..n + 1][..n] == u[..n];
  }

  function Total(u: seq<Entry>): nat {
    if u == [] then 0 else Total(u[..|u| - 1]) + u[|u| - 1].limit
  }

  /** Entries that are only checked against their neighbours are disjoint from all others. */
  lemma {:induction false} AcceptedDisjoint(u: seq<Entry>, i: nat, j: nat)
    requires NeighboursDisjoint(u) && i < j < |u|
    ensures u[i].End() <= u[j].base
    decreases j
  {
    if i < j - 1 {
      AcceptedDisjoint(u, i, j - 1);
    }
  }

  /** The kernel finds nothing wrong with what is handed over, except that the entry in which the boot
      stage stopped allocating may have become too small for it. */
  lemma HandedOverChecks(u: seq<Entry>, offset: nat)
    requires UsableMap(u) && forall i | 0 <= i < |u| :: u[i].limit >= 0x2_0000
    ensures NeighboursDisjoint(HandedOver(u, offset))
    ensures forall i | 0 < i < |HandedOver(u, offset)| :: GoodEntry(HandedOver(u, offset)[i])
    ensures GoodEntry(HandedOver(u, offset)[0])
      <==> !Cuts(u, offset) || u[FirstReaching(u, offset, 0)].End() - PageAlign(offset) >= 0x2_0000
  {
    hide GoodEntry, UsableMap, Cuts, HandedOver;
    forall i | 0 < i < |HandedOver(u, offset)|
      ensures HandedOver(u, offset)[i - 1].End() <= HandedOver(u, offset)[i].base
      ensures GoodEntry(HandedOver(u, offset)[i])
    {
      HandedOverEntry(u, offset, i);
    }
    HandedOverFirst(u, offset);
  }

  lemma HandedOverEntry(u: seq<Entry>, offset: nat, i: nat)
    requires UsableMap(u) && 0 < i < |HandedOver(u, offset)|
    requires forall j | 0 <= j < |u| :: u[j].limit >= 0x2_0000
    ensures HandedOver(u, offset)[i - 1].End() <= HandedOver(u, offset)[i].base
    ensures GoodEntry(HandedOver(u, offset)[i])
  {
    hide PageAlign, UsableMap, HandedOver, Cuts, PageAligned;
    var k := if Cuts(u, offset) then FirstReaching(u, offset, 0) else 0;
    HandedOverAt(u, offset, i);
    HandedOverAt(u, offset, i - 1);
    UsableOrder(u, k + i - 1, k + i);
    UsableEntry(u, k + i);
    AlignedSize(u[k + i]);
  }

  lemma SomethingLeft(u: seq<Entry>, offset: nat)
    requires UsableMap(u)
    ensures |HandedOver(u, offset)| > 0
  {
  }

  lemma HandedOverFirst(u: seq<Entry>, offset: nat)
    requires UsableMap(u) && forall j | 0 <= j < |u| :: u[j].limit >= 0x2_0000
    ensures GoodEntry(HandedOver(u, offset)[0])
      <==> !Cuts(u, offset) || u[FirstReaching(u, offset, 0)].End() - PageAlign(offset) >= 0x2_0000
  {
    hide UsableMap, HandedOver;
    SomethingLeft(u, offset);
    var k := if Cuts(u, offset) then FirstReaching(u, offset, 0) else 0;
    HandedOverAt(u, offset, 0);
    UsableEntry(u, k);
    AlignedSize(u[k]);
  }

  lemma AlignedSize(e: Entry)
    requires e.base % PAGE_SIZE == 0 && e.limit % PAGE_SIZE == 0
    ensures e.End() % PAGE_SIZE == 0 && PageAligned(e)
  {
  }

  /** The table of usable entries, and the number of entries that was published for the kernel. */
  class MapTable {
    var entries: array<Entry>
    var count: nat
    var published: nat

    ghost predicate Valid()
      reads this
    {
      count <= entries.Length && published <= entries.Length
    }

    constructor (entries: array<Entry>)
      ensures Valid() && this.entries == entries && count == published == entries.Length
    {
      this.entries := entries;
      count, published := entries.Length, entries.Length;
    }

    /** Replaces an entry, moves the map down onto the beginning of the table, and publishes it. */
    method DiscardBefore(index: nat, first: Entry)
      requires Valid() && index < count
      modifies this, entries
      ensures Valid() && entries == old(entries) && count == old(count) - index && published == count
      ensures entries[..count] == [first] + old(entries[index + 1..count])
    {
      entries[index] := first;
      if index > 0 {
        Memmove(entries, 0, index, count - index);
        count := count - index;
      }
      published := count;
    }

    method Trim(offset: nat)
      requires Valid() && published == count && UsableMap(entries[..count])
      modifies this, entries
      ensures Valid() && entries == old(entries)
      ensures count == published && entries[..published] == HandedOver(old(entries[..count]), offset)
    {
      hide UsableMap, HandedOver, PageAlign;
      ghost var u := entries[..count];
      UncutResult(u, offset);
      var index := 0;
      var trimmed := false;
      while index < count
        invariant Valid() && entries == old(entries) && published == count
        invariant !trimmed ==>
          index <= count && entries[..count] == u && FirstReaching(u, offset, index) == FirstReaching(u, offset, 0)
        invariant trimmed ==> 0 < index && entries[..count] == HandedOver(u, offset) && Cuts(u, offset)
      {
        var start, end := entries[index].base, entries[index].End();
        assert entries[..count][index] == entries[index];
        if trimmed {
          RestIsAbove(u, offset, index);
        }
        if end < offset {
          index := index + 1;
          continue;
        } else if start < offset {
          CutResult(u, offset, index);
          start := PageAlign(offset);
          DiscardBefore(index, Entry(start, end - start));
          trimmed := true;
        } else {
          break;
        }
        index := index + 1;
      }
    }
  }
}
