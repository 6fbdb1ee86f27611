/** How many page tables the areas need that the boot stage identity-maps, in 2 MiB pages. */
module BootTables {
  import opened Options
  import opened PageWalk
  import opened PageTree
  import opened UsableMemory
  import opened PagingSteps
  import opened PagingTables

  function DownToLarge(a: nat): nat { a - a % LARGE_PAGE }

  function UpToLarge(n: nat): nat { if n % LARGE_PAGE != 0 then n + (LARGE_PAGE - n % LARGE_PAGE) else n }

  /** The range that is mapped for an area: start rounded down, size up, and the page after that as well. */
  function AreaJob(e: Entry): (job: Job)
    ensures job.end > 0 && job.large
  {
    var s := DownToLarge(e.base);
    Job(map[], 0, s, MappedEnd(s, UpToLarge(e.limit), true), s, true, 0, 0, false)
  }

  /** The tables below the PML4 that an area needs, at one place each. */
  ghost function AreaTables(e: Entry): set<Place> { Needed(AreaJob(e)) }

  /** Those of several areas, which may have tables in common. */
  ghost function Tables(areas: seq<Entry>): set<Place> {
    if areas == [] then {} else Tables(areas[..|areas| - 1]) + AreaTables(areas[|areas| - 1])
  }

  lemma TablesOneMore(areas: seq<Entry>, e: Entry)
    ensures Tables(areas + [e]) == Tables(areas) + AreaTables(e)
  {
    assert (areas + [e])[..|areas|] == areas;
  }

  lemma {:induction false} TablesPrefix(areas: seq<Entry>, n: nat)
    requires n <= |areas|
    ensures Tables(areas[..n]) <= Tables(areas)
    decreases |areas|
  {
    if n < |areas| {
      TablesPrefix(areas[..|areas| - 1], n);
      assert areas[..|areas| - 1][..n] == areas[..n];
    } else {
      assert areas[..n] == areas;
    }
  }

  /** The tree has the PML4 and the tables of these areas, and no others. */
  ghost predicate TablesOf(mem: Memory, root: nat, areas: seq<Entry>) {
    forall place: Place | 2 <= place.level <= 4 ::
      IsTable(mem, root, place) <==> place == Place(4, 0) || place in Tables(areas)
  }

  lemma SameNeeds(job: Job, other: Job)
    requires job.end > 0 && job.v == other.v && job.end == other.end && job.large == other.large
    ensures Needed(job) == Needed(other)
    ensures forall place: Place :: Needs(job, place.level, place.index) <==> place in Needed(other)
  {
    hide Slot;
  }

  /** What an area is missing is what it adds. */
  lemma AreaMisses(mem: Memory, areas: seq<Entry>, e: Entry, job: Job)
    requires job.end > 0 && Needed(job) == AreaTables(e) && job.large && TablesOf(mem, job.root, areas)
    ensures Missing(job, mem) == AreaTables(e) - Tables(areas)
    ensures |Tables(areas + [e])| == |Tables(areas)| + |Missing(job, mem)|
  {
    hide Tables, IsTable, AreaTables, InRange;
    TablesOneMore(areas, e);
    forall place | place in Needed(job)
      ensures 2 <= place.level <= 3
    {
    }
    assert Missing(job, mem) == AreaTables(e) - Tables(areas);
    assert Tables(areas + [e]) == Tables(areas) + Missing(job, mem);
    assert Tables(areas) !! Missing(job, mem);
  }

  lemma AreaDone(mem': Memory, areas: seq<Entry>, e: Entry, job: Job)
    requires job.end > 0 && Needed(job) == AreaTables(e) && job.large && TablesOf(job.before, job.root, areas)
    requires Complete(job, mem')
    ensures TablesOf(mem', job.root, areas + [e])
  {
    hide Tables, IsTable, AreaTables, InRange;
    TablesOneMore(areas, e);
  }

  lemma NoTables(mem: Memory, root: nat)
    requires root in mem && mem[root] == ZeroPage()
    ensures TablesOf(mem, root, [])
  {
    forall place: Place | 2 <= place.level <= 4
      ensures IsTable(mem, root, place) <==> place == Place(4, 0)
    {
      NothingBelow(mem, root, place.level, place.index);
    }
  }

  lemma {:induction false} NothingBelow(mem: Memory, root: nat, level: nat, s: nat)
    requires root in mem && mem[root] == ZeroPage() && level <= 4
    ensures level < 4 ==> TableAt(mem, root, level, s) == None
    decreases 4 - level
  {
    if level < 4 {
      NothingBelow(mem, root, level + 1, s / 512);
      ZeroIsFault(level + 1);
      assert mem[root][s % 512] == 0;
    }
  }

  // How many

  ghost function Row(level: nat, lo: nat, hi: nat): set<Place> {
    set s: nat | lo <= s < hi :: Place(level, s)
  }

  lemma {:induction false} RowSize(level: nat, lo: nat, hi: nat)
    requires lo <= hi
    ensures |Row(level, lo, hi)| == hi - lo
    decreases hi
  {
    if lo < hi {
      RowSize(level, lo, hi - 1);
      assert Row(level, lo, hi) == Row(level, lo, hi - 1) + {Place(level, hi - 1)};
    } else {
      assert Row(level, lo, hi) == {};
    }
  }

  lemma Disjoint(a: set<Place>, b: set<Place>)
    requires a !! b
    ensures |a + b| == |a| + |b|
  {
  }

  lemma AreaRange(e: Entry)
    ensures var job := AreaJob(e); job.v < job.end && job.v == DownToLarge(e.base)
  {
    var s, n := DownToLarge(e.base), UpToLarge(e.limit);
    assert s + n < MappedEnd(s, n, true);
  }

  /** One PML3 for each 512 GiB that the range has a part of, and one PML2 for each GiB. */
  function TableCount(e: Entry): nat {
    AreaRange(e);
    var job := AreaJob(e);
    var first, last := job.v, job.end - 1;
    SlotOrder(first, last, 3);
    SlotOrder(first, last, 4);
    (Slot(last, 4) - Slot(first, 4) + 1) + (Slot(last, 3) - Slot(first, 3) + 1)
  }

  lemma {:induction false} AreaTableCount(e: Entry)
    ensures |AreaTables(e)| == TableCount(e)
  {
    hide Slot, AreaJob, Row, AreaTables;
    AreaRange(e);
    var job := AreaJob(e);
    var first, last := job.v, job.end - 1;
    SlotOrder(first, last, 3);
    SlotOrder(first, last, 4);
    var upper, lower := Row(3, Slot(first, 4), Slot(last, 4) + 1), Row(2, Slot(first, 3), Slot(last, 3) + 1);
    RowSize(3, Slot(first, 4), Slot(last, 4) + 1);
    RowSize(2, Slot(first, 3), Slot(last, 3) + 1);
    forall place
      ensures place in AreaTables(e) <==> place in upper + lower
    {
      AreaMembers(e, place);
      RowMembers(3, Slot(first, 4), Slot(last, 4) + 1, place);
      RowMembers(2, Slot(first, 3), Slot(last, 3) + 1, place);
    }
    assert AreaTables(e) == upper + lower;
    forall place
      ensures !(place in upper && place in lower)
    {
      RowMembers(3, Slot(first, 4), Slot(last, 4) + 1, place);
      RowMembers(2, Slot(first, 3), Slot(last, 3) + 1, place);
    }
    Disjoint(upper, lower);
  }

  lemma AreaMembers(e: Entry, place: Place)
    ensures place in AreaTables(e) <==> var job := AreaJob(e);
      2 <= place.level <= 3 && InRange(job, place.level + 1, place.index)
  {
    hide InRange;
  }

  lemma RowMembers(level: nat, lo: nat, hi: nat, place: Place)
    ensures place in Row(level, lo, hi) <==> place.level == level && lo <= place.index < hi
  {
    if place.level == level && lo <= place.index < hi {
      assert place == Place(level, place.index);
    }
  }

  /** No more than that many for each of the areas. */
  function TotalCount(areas: seq<Entry>): nat {
    if areas == [] then 0 else TotalCount(areas[..|areas| - 1]) + TableCount(areas[|areas| - 1])
  }

  lemma {:induction false} TablesAreFew(areas: seq<Entry>)
    ensures |Tables(areas)| <= TotalCount(areas)
    decreases |areas|
  {
    hide TableCount, AreaTables;
    if areas != [] {
      var front, e := areas[..|areas| - 1], areas[|areas| - 1];
      TablesAreFew(front);
      AreaTableCount(e);
      assert Tables(front) + AreaTables(e) == Tables(front) + (AreaTables(e) - Tables(front));
      Disjoint(Tables(front), AreaTables(e) - Tables(front));
      FewerLeft(AreaTables(e), Tables(front));
    }
  }

  lemma FewerLeft(a: set<Place>, b: set<Place>)
    ensures |a - b| <= |a|
  {
    Disjoint(a - b, a * b);
    assert a == (a - b) + (a * b);
  }

  lemma TablesGrow(areas: seq<Entry>, n: nat)
    requires n <= |areas|
    ensures |Tables(areas[..n])| <= |Tables(areas)|
  {
    TablesPrefix(areas, n);
    Contained(Tables(areas[..n]), Tables(areas));
  }

  lemma Contained(a: set<Place>, b: set<Place>)
    requires a <= b
    ensures |a| <= |b|
  {
    Disjoint(a, b - a);
    assert b == a + (b - a);
  }
}
