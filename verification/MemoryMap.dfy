/**
 From the firmware's memory map to the usable one (Boot/Legacy/Stage3/Bootloader.c, 341-472): entries
 are sorted in place, then type-1 entries are clipped against their neighbours and collected.
 */
module MemoryMap {
  import opened Limits
  import opened RawMemory
  import opened UsableMemory

  datatype Raw = Raw(base: nat, limit: nat, kind: nat) {
    function End(): nat { base + limit }

    predicate Covers(a: nat) { base <= a < End() }
  }

  ghost predicate Sorted(m: seq<Raw>) {
    forall i, j | 0 <= i < j < |m| :: m[i].base <= m[j].base
  }

  ghost predicate Permuted(m: seq<Raw>, m': seq<Raw>) {
    multiset(m) == multiset(m')
  }

  /** The first n elements are sorted, were it not for the element at p. */
  ghost predicate SortedBut(m: seq<Raw>, n: nat, p: nat)
    requires n <= |m|
  {
    forall i, j | 0 <= i < j < n && j != p :: m[i].base <= m[j].base
  }

  function Swapped(m: seq<Raw>, p: nat): seq<Raw>
    requires 0 < p < |m|
  {
    m[p := m[p - 1]][p - 1 := m[p]]
  }

  /** Counts the type-1 entries from i on. */
  function Usable(m: seq<Raw>, i: nat): nat
    requires i <= |m|
    decreases |m| - i
  {
    if i == |m| then 0 else (if m[i].kind == 1 then 1 else 0) + Usable(m, i + 1)
  }

  lemma {:induction false} UsableSuffix(m: seq<Raw>, m': seq<Raw>, i: nat)
    requires i <= |m| == |m'| && m[i..] == m'[i..]
    ensures Usable(m, i) == Usable(m', i)
    decreases |m| - i
  {
    if i < |m| {
      assert m[i] == m[i..][0] && m'[i] == m'[i..][0];
      assert m[i + 1..] == m[i..][1..] && m'[i + 1..] == m'[i..][1..];
      UsableSuffix(m, m', i + 1);
    }
  }

  /** Sorting does not change how many usable entries there are. */
  lemma {:induction false} UsableSwap(m: seq<Raw>, p: nat, i: nat)
    requires 0 < p < |m| && i < p
    ensures Usable(Swapped(m, p), i) == Usable(m, i)
    decreases p - i
  {
    if i < p - 1 {
      UsableSwap(m, p, i + 1);
    } else {
      UsableSuffix(m, Swapped(m, p), p + 1);
      assert Usable(m, i) == Usable(m, p + 1) + (if m[i].kind == 1 then 1 else 0) + (if m[p].kind == 1 then 1 else 0);
    }
  }

  lemma SwapPermutes(m: seq<Raw>, p: nat)
    requires 0 < p < |m|
    ensures Permuted(m, Swapped(m, p))
  {
    assert m == m[..p - 1] + [m[p - 1], m[p]] + m[p + 1..];
    assert Swapped(m, p) == m[..p - 1] + [m[p], m[p - 1]] + m[p + 1..];
  }

  lemma SwapSinks(m: seq<Raw>, n: nat, p: nat)
    requires 0 < p < n <= |m| && SortedBut(m, n, p) && m[p].base < m[p - 1].base
    ensures SortedBut(Swapped(m, p), n, p - 1)
  {
  }

  /** Exchanges two neighbours. */
  method SwapDown(mmap: array<Raw>, p: nat)
    requires 0 < p < mmap.Length
    modifies mmap
    ensures mmap[..] == Swapped(old(mmap[..]), p)
  {
    Memswap(mmap, p, p - 1, 1);
  }

  /** Moves the element at `threshold` down to its place among the elements before it. */
  method SinkDown(mmap: array<Raw>, threshold: nat)
    requires threshold < mmap.Length && Sorted(mmap[..threshold])
    modifies mmap
    ensures Sorted(mmap[..threshold + 1]) && Permuted(old(mmap[..]), mmap[..])
    ensures Usable(mmap[..], 0) == Usable(old(mmap[..]), 0)
  {
    hide Swapped, Permuted, SortedBut, Usable;
    var position := threshold;
    SinkStart(mmap[..], threshold);
    while position > 0
      invariant 0 <= position <= threshold
      invariant SortedBut(mmap[..], threshold + 1, position)
      invariant Permuted(old(mmap[..]), mmap[..])
      invariant Usable(mmap[..], 0) == Usable(old(mmap[..]), 0)
    {
      if mmap[position].base < mmap[position - 1].base {
        SwapSinks(mmap[..], threshold + 1, position);
        SwapPermutes(mmap[..], position);
        UsableSwap(mmap[..], position, 0);
        PermutedTrans(old(mmap[..]), mmap[..], Swapped(mmap[..], position));
        SwapDown(mmap, position);
      } else {
        break;
      }
      position := position - 1;
    }
    SinkDone(mmap[..], threshold + 1, position);
  }

  lemma SinkStart(m: seq<Raw>, threshold: nat)
    requires threshold < |m| && Sorted(m[..threshold])
    ensures SortedBut(m, threshold + 1, threshold) && Permuted(m, m)
  {
    assert forall i | 0 <= i < threshold :: m[..threshold][i] == m[i];
  }

  lemma SinkDone(m: seq<Raw>, n: nat, p: nat)
    requires p < n <= |m| && SortedBut(m, n, p) && (p == 0 || m[p - 1].base <= m[p].base)
    ensures Sorted(m[..n])
  {
  }

  lemma PermutedTrans(a: seq<Raw>, b: seq<Raw>, c: seq<Raw>)
    requires Permuted(a, b) && Permuted(b, c)
    ensures Permuted(a, c)
  {
  }

  method SortMap(mmap: array<Raw>)
    modifies mmap
    ensures Sorted(mmap[..]) && Permuted(old(mmap[..]), mmap[..])
    ensures Usable(mmap[..], 0) == Usable(old(mmap[..]), 0)
  {
    hide Permuted, Usable;
    if mmap.Length == 0 {
      PermutedRefl(mmap[..]);
      return;
    }
    var threshold := 1;
    PermutedRefl(mmap[..]);
    while threshold < mmap.Length
      invariant 1 <= threshold <= mmap.Length
      invariant Sorted(mmap[..threshold]) && Permuted(old(mmap[..]), mmap[..])
      invariant Usable(mmap[..], 0) == Usable(old(mmap[..]), 0)
    {
      ghost var m := mmap[..];
      SinkDown(mmap, threshold);
      PermutedTrans(old(mmap[..]), m, mmap[..]);
      threshold := threshold + 1;
    }
    assert mmap[..threshold] == mmap[..];
  }

  lemma PermutedRefl(m: seq<Raw>)
    ensures Permuted(m, m)
  {
  }

  // Clipping

  function AlignDown(a: nat): (r: nat)
    ensures r <= a < r + PAGE_SIZE && r % PAGE_SIZE == 0
    ensures a % PAGE_SIZE == 0 ==> r == a
  {
    if a % PAGE_SIZE != 0 then a - a % PAGE_SIZE else a
  }

  /** 64-bit subtraction. */
  function Minus(a: nat, b: nat): nat
    requires a < LIMIT_64 && b < LIMIT_64
  {
    (a - b) % LIMIT_64
  }

  /** Where the usable part of an entry starts, given the end of what came before. */
  function ClipStart(m: seq<Raw>, i: nat, min: nat): nat
    requires i < |m|
  {
    PageAlign(if m[i].base < min then min else m[i].base)
  }

  /** Where it ends: at the latest where the next entry begins. */
  function ClipEnd(m: seq<Raw>, i: nat): nat
    requires i < |m|
  {
    AlignDown(if i + 1 < |m| && m[i].End() > m[i + 1].base then m[i + 1].base else m[i].End())
  }

  ghost predicate Physical(m: seq<Raw>) {
    forall i | 0 <= i < |m| :: m[i].End() <= PHYS_LIMIT
  }

  /** The usable list made of the entries from i on, when everything below `min` is taken. */
  function Clip(m: seq<Raw>, i: nat, min: nat): seq<Entry>
    requires i <= |m| && Physical(m) && min <= PHYS_LIMIT
    decreases |m| - i
  {
    if i == |m| then []
    else if m[i].End() <= min then Clip(m, i + 1, min)
    else if m[i].kind != 1 then Clip(m, i + 1, m[i].End())
    else
      var size := Minus(ClipEnd(m, i), ClipStart(m, i, min));
      if size < ENTRY_LIMIT then Clip(m, i + 1, min)
      else [Entry(ClipStart(m, i, min), size)] + Clip(m, i + 1, ClipEnd(m, i))
  }

  /** No type-1 entry is looked at whose clipped and aligned end comes before its start. */
  predicate NoUnderflow(m: seq<Raw>, i: nat, min: nat)
    requires i <= |m| && Physical(m) && min <= PHYS_LIMIT
    decreases |m| - i
  {
    if i == |m| then true
    else if m[i].End() <= min then NoUnderflow(m, i + 1, min)
    else if m[i].kind != 1 then NoUnderflow(m, i + 1, m[i].End())
    else
      ClipStart(m, i, min) <= ClipEnd(m, i)
      && NoUnderflow(m, i + 1,
           if Minus(ClipEnd(m, i), ClipStart(m, i, min)) < ENTRY_LIMIT then min else ClipEnd(m, i))
  }

  /** Builds the list; `count` comes in as the number of type-1 entries and goes out as that of the
      slots written, one lower for each type-1 entry that was left out. */
  method BuildUsable(m: seq<Raw>, usable: array<Entry>) returns (count: nat)
    requires Physical(m) && usable.Length == Usable(m, 0)
    modifies usable
    ensures count <= usable.Length && usable[..count] == Clip(m, 0, 0)
  {
    hide PageAlign, AlignDown, Physical, Minus;
    count := usable.Length;
    var minStart: nat, slot: nat, position: nat := 0, 0, 0;
    while position < |m|
      invariant 0 <= position <= |m| && minStart <= PHYS_LIMIT && slot <= usable.Length
      invariant count == slot + Usable(m, position) && count <= usable.Length
      invariant usable[..slot] + Clip(m, position, minStart) == Clip(m, 0, 0)
    {
      EndIsPhysical(m, position);
      ClipBounds(m, position, minStart);
      var start, end := m[position].base, m[position].End();
      if start < minStart {
        start := minStart;
      }
      if end <= minStart {
        if m[position].kind == 1 {
          count := count - 1;
        }
        position := position + 1;
        continue;
      }
      if m[position].kind == 1 {
        if position < |m| - 1 {
          if end > m[position + 1].base {
            end := m[position + 1].base;
          }
        }
        start := PageAlign(start);
        end := AlignDown(end);
        var size := Minus(end, start);
        if size < ENTRY_LIMIT {
          count := count - 1;
          position := position + 1;
          continue;
        }
        usable[slot] := Entry(start, size);
        slot := slot + 1;
      }
      minStart := end;
      position := position + 1;
    }
  }

  /** Sorts the firmware's map and makes the usable map of it. */
  method MakeUsableMap(mmap: array<Raw>, usable: array<Entry>) returns (count: nat)
    requires Physical(mmap[..]) && usable.Length == Usable(mmap[..], 0)
    modifies mmap, usable
    ensures Sorted(mmap[..]) && Permuted(old(mmap[..]), mmap[..]) && Physical(mmap[..])
    ensures count <= usable.Length && usable[..count] == Clip(mmap[..], 0, 0)
  {
    hide Sorted, Usable, Clip;
    ghost var before := mmap[..];
    SortMap(mmap);
    PhysicalPermuted(before, mmap[..]);
    count := BuildUsable(mmap[..], usable);
  }

  lemma PhysicalPermuted(m: seq<Raw>, m': seq<Raw>)
    requires Physical(m) && Permuted(m, m')
    ensures Physical(m')
  {
    forall i | 0 <= i < |m'|
      ensures m'[i].End() <= PHYS_LIMIT
    {
      assert m'[i] in multiset(m');
      assert m'[i] in m;
    }
  }

  // What the list is good for

  ghost predicate Apart(e: Entry, r: Raw) {
    e.End() <= r.base || r.End() <= e.base
  }

  /** An element of the usable list, made from the entries from i on above `min`. */
  ghost predicate GoodElement(m: seq<Raw>, i: nat, min: nat, e: Entry) {
    && min <= e.base && e.base % 0x1000 == 0 && e.limit % 0x1000 == 0 && e.limit >= 0x2_0000
    && (exists k :: i <= k < |m| && m[k].kind == 1 && m[k].base <= e.base && e.End() <= m[k].End())
    && (forall j | i <= j < |m| && m[j].kind != 1 :: Apart(e, m[j]))
  }

  ghost predicate GoodList(m: seq<Raw>, i: nat, min: nat, u: seq<Entry>) {
    && (forall x | 0 <= x < |u| :: GoodElement(m, i, min, u[x]))
    && (forall x, y | 0 <= x < y < |u| :: u[x].End() <= u[y].base)
  }

  lemma SkipKeepsGood(m: seq<Raw>, i: nat, min: nat, min': nat, u: seq<Entry>)
    requires i < |m| && GoodList(m, i + 1, min', u) && min <= min'
    requires m[i].kind == 1 || m[i].End() <= min'
    ensures GoodList(m, i, min, u)
  {
    forall x | 0 <= x < |u|
      ensures GoodElement(m, i, min, u[x])
    {
      assert GoodElement(m, i + 1, min', u[x]);
    }
  }

  lemma TakenIsGood(m: seq<Raw>, i: nat, min: nat)
    requires i < |m| && Sorted(m) && Physical(m) && min <= PHYS_LIMIT && min < m[i].End() && m[i].kind == 1
    requires ClipStart(m, i, min) <= ClipEnd(m, i)
    requires Minus(ClipEnd(m, i), ClipStart(m, i, min)) >= ENTRY_LIMIT
    ensures var s := ClipStart(m, i, min);
      GoodElement(m, i, min, Entry(s, Minus(ClipEnd(m, i), s)))
  {
    var s, t := ClipStart(m, i, min), ClipEnd(m, i);
    assert Minus(t, s) == t - s;
    AlignedDifference(s, t);
    var e := Entry(s, t - s);
    assert m[i].base <= e.base && e.End() <= m[i].End();
    forall j | i <= j < |m| && m[j].kind != 1
      ensures Apart(e, m[j])
    {
      assert e.End() <= m[i + 1].base <= m[j].base;
    }
  }

  lemma AlignedDifference(s: nat, t: nat)
    requires s % PAGE_SIZE == 0 && t % PAGE_SIZE == 0 && s <= t
    ensures (t - s) % PAGE_SIZE == 0
  {
  }

  lemma PrependKeepsGood(m: seq<Raw>, i: nat, min: nat, e: Entry, u: seq<Entry>)
    requires i < |m| && m[i].kind == 1 && GoodElement(m, i, min, e) && GoodList(m, i + 1, e.End(), u)
    ensures GoodList(m, i, min, [e] + u)
  {
    var v := [e] + u;
    forall x | 0 <= x < |v|
      ensures GoodElement(m, i, min, v[x])
    {
      if x > 0 {
        assert GoodElement(m, i + 1, e.End(), u[x - 1]);
      }
    }
    forall x, y | 0 <= x < y < |v|
      ensures v[x].End() <= v[y].base
    {
      assert GoodElement(m, i + 1, e.End(), u[y - 1]);
    }
  }

  /** As long as nothing underflows, every element lies inside a type-1 entry and away from all entries
      of other types, and the list is sorted, disjoint and page-aligned. */
  lemma {:induction false} ClipIsGood(m: seq<Raw>, i: nat, min: nat)
    requires i <= |m| && Sorted(m) && Physical(m) && min <= PHYS_LIMIT && NoUnderflow(m, i, min)
    ensures GoodList(m, i, min, Clip(m, i, min))
    decreases |m| - i
  {
    hide Sorted, Physical, GoodList, GoodElement, ClipStart, ClipEnd;
    if i == |m| {
      EmptyIsGood(m, i, min);
    } else if m[i].End() <= min {
      ClipIsGood(m, i + 1, min);
      SkipKeepsGood(m, i, min, min, Clip(m, i + 1, min));
    } else if m[i].kind != 1 {
      EndIsPhysical(m, i);
      ClipIsGood(m, i + 1, m[i].End());
      SkipKeepsGood(m, i, min, m[i].End(), Clip(m, i + 1, m[i].End()));
    } else {
      var s, t := ClipStart(m, i, min), ClipEnd(m, i);
      ClipBounds(m, i, min);
      if Minus(t, s) < ENTRY_LIMIT {
        ClipIsGood(m, i + 1, min);
        SkipKeepsGood(m, i, min, min, Clip(m, i + 1, min));
      } else {
        ClipIsGood(m, i + 1, t);
        TakenIsGood(m, i, min);
        PrependKeepsGood(m, i, min, Entry(s, Minus(t, s)), Clip(m, i + 1, t));
      }
    }
  }

  lemma EmptyIsGood(m: seq<Raw>, i: nat, min: nat)
    ensures GoodList(m, i, min, [])
  {
  }

  lemma EndIsPhysical(m: seq<Raw>, i: nat)
    requires Physical(m) && i < |m|
    ensures m[i].End() <= PHYS_LIMIT
  {
  }

  lemma ClipBounds(m: seq<Raw>, i: nat, min: nat)
    requires Physical(m) && i < |m| && min <= PHYS_LIMIT
    ensures ClipStart(m, i, min) < PHYS_LIMIT + PAGE_SIZE && ClipEnd(m, i) <= PHYS_LIMIT
  {
  }

  ghost predicate Overruns(u: seq<Entry>) {
    exists x :: 0 <= x < |u| && u[x].End() >= LIMIT_64
  }

  /** When something underflows, an element comes out that reaches past the end of memory. */
  lemma {:induction false} UnderflowSpoils(m: seq<Raw>, i: nat, min: nat)
    requires i <= |m| && Physical(m) && min <= PHYS_LIMIT && !NoUnderflow(m, i, min)
    ensures Overruns(Clip(m, i, min))
    decreases |m| - i
  {
    hide Physical, ClipStart, ClipEnd;
    if m[i].End() <= min {
      UnderflowSpoils(m, i + 1, min);
    } else if m[i].kind != 1 {
      EndIsPhysical(m, i);
      UnderflowSpoils(m, i + 1, m[i].End());
    } else {
      var s, t := ClipStart(m, i, min), ClipEnd(m, i);
      ClipBounds(m, i, min);
      var rest := Clip(m, i + 1, if Minus(t, s) < ENTRY_LIMIT then min else t);
      if t < s {
        assert Minus(t, s) == t - s + LIMIT_64;
        assert Clip(m, i, min)[0].End() == t + LIMIT_64;
      } else if Minus(t, s) < ENTRY_LIMIT {
        UnderflowSpoils(m, i + 1, min);
      } else {
        UnderflowSpoils(m, i + 1, t);
        var x :| 0 <= x < |rest| && rest[x].End() >= LIMIT_64;
        assert Clip(m, i, min)[x + 1] == rest[x];
      }
    }
  }

  /** It is not always right: an entry inside a single page underflows. */
  lemma SmallEntryUnderflows()
    ensures var m := [Raw(0x1100, 0x200, 1)];
      Sorted(m) && Physical(m) && !NoUnderflow(m, 0, 0) && Clip(m, 0, 0) == [Entry(0x2000, LIMIT_64 - 0x1000)]
  {
    var m := [Raw(0x1100, 0x200, 1)];
    assert ClipStart(m, 0, 0) == 0x2000 && ClipEnd(m, 0) == 0x1000;
    assert Minus(0x1000, 0x2000) == LIMIT_64 - 0x1000;
    assert Clip(m, 1, 0x1000) == [];
  }

  /** So does an empty one that does not lie at a page boundary. */
  lemma EmptyEntryUnderflows()
    ensures var m := [Raw(0x1100, 0, 1)];
      Sorted(m) && Physical(m) && !NoUnderflow(m, 0, 0) && Clip(m, 0, 0) == [Entry(0x2000, LIMIT_64 - 0x1000)]
  {
    var m := [Raw(0x1100, 0, 1)];
    assert ClipStart(m, 0, 0) == 0x2000 && ClipEnd(m, 0) == 0x1000;
    assert Minus(0x1000, 0x2000) == LIMIT_64 - 0x1000;
    assert Clip(m, 1, 0x1000) == [];
  }

  // What is enough for the list to be right

  ghost predicate WholePages(m: seq<Raw>) {
    forall i | 0 <= i < |m| :: m[i].base % PAGE_SIZE == 0 && m[i].limit % PAGE_SIZE == 0 && m[i].limit > 0
  }

  ghost predicate AtMostTwice(m: seq<Raw>) {
    forall i, j, k, a | 0 <= i < j < k < |m| :: !(m[i].Covers(a) && m[j].Covers(a) && m[k].Covers(a))
  }

  /** Where the end of the part that is already taken can come from. */
  ghost predicate TakenFrom(m: seq<Raw>, i: nat, min: nat) {
    && min % PAGE_SIZE == 0
    && (min == 0 || i >= |m| || min <= m[i].base || exists j :: 0 <= j < i && m[j].End() == min)
  }

  lemma NextBegins(m: seq<Raw>, i: nat, min: nat)
    requires Sorted(m) && WholePages(m) && AtMostTwice(m) && TakenFrom(m, i, min)
    requires i < |m| && min < m[i].End() && i + 1 < |m|
    ensures min <= m[i + 1].base
  {
    if min > m[i + 1].base {
      assert m[i].base <= m[i + 1].base;
      var j :| 0 <= j < i && m[j].End() == min;
      assert m[j].Covers(m[i + 1].base) && m[i].Covers(m[i + 1].base) && m[i + 1].Covers(m[i + 1].base);
      assert false;
    }
  }

  lemma TakenOnward(m: seq<Raw>, i: nat, min: nat)
    requires Sorted(m) && i < |m| && TakenFrom(m, i, min)
    ensures TakenFrom(m, i + 1, min)
  {
  }

  lemma WholePageEnd(m: seq<Raw>, i: nat)
    requires WholePages(m) && i < |m|
    ensures m[i].End() % PAGE_SIZE == 0
  {
  }

  /** Whole-page entries, of which no three share an address, never underflow. */
  lemma {:induction false} WholePagesDoNotUnderflow(m: seq<Raw>, i: nat, min: nat)
    requires i <= |m| && Sorted(m) && Physical(m) && WholePages(m) && AtMostTwice(m)
    requires min <= PHYS_LIMIT && TakenFrom(m, i, min)
    ensures NoUnderflow(m, i, min)
    decreases |m| - i
  {
    if i < |m| {
      WholePageEnd(m, i);
      EndIsPhysical(m, i);
      TakenOnward(m, i, min);
      if i + 1 < |m| && min < m[i].End() {
        NextBegins(m, i, min);
        assert m[i].base <= m[i + 1].base;
      }
      hide Sorted, Physical, AtMostTwice;
      if m[i].End() <= min {
        WholePagesDoNotUnderflow(m, i + 1, min);
      } else if m[i].kind != 1 {
        WholePagesDoNotUnderflow(m, i + 1, m[i].End());
      } else {
        assert ClipStart(m, i, min) <= ClipEnd(m, i) <= PHYS_LIMIT;
        WholePagesDoNotUnderflow(m, i + 1,
          if Minus(ClipEnd(m, i), ClipStart(m, i, min)) < ENTRY_LIMIT then min else ClipEnd(m, i));
      }
    }
  }

  /** A good list is what the rest of the boot stage relies on. */
  lemma GoodListIsUsable(m: seq<Raw>, u: seq<Entry>)
    requires Physical(m) && GoodList(m, 0, 0, u) && 0 < |u| < 256
    ensures UsableMap(u) && forall i | 0 <= i < |u| :: u[i].limit >= 0x2_0000
  {
    forall x | 0 <= x < |u|
      ensures u[x].base % PAGE_SIZE == 0 && u[x].limit % PAGE_SIZE == 0 && u[x].limit >= 0x2_0000
      ensures u[x].End() <= PHYS_LIMIT
    {
      assert GoodElement(m, 0, 0, u[x]);
    }
  }
}
