/**
 Which tables a call of the page-table builder needs, which of them are missing, and how many pages of usable
 memory that takes.
 */
module PagingTables {
  import opened Limits
  import opened Options
  import opened PageWalk
  import opened PageEntry
  import opened PageTree
  import opened UsableMemory
  import opened Allocations
  import opened PagingSteps

  function LowestTable(job: Job): nat { if job.large then 2 else 1 }

  /** A table below the PML4 whose slot has a part of the range in it. */
  ghost predicate Needs(job: Job, level: nat, s: nat) {
    LowestTable(job) <= level <= 3 && job.end > 0 && InRange(job, level + 1, s)
  }

  ghost function Needed(job: Job): (t: set<Place>)
    requires job.end > 0
    ensures forall place :: place in t <==> Needs(job, place.level, place.index)
  {
    set level: nat, s: nat | level <= 3 && s <= Slot(job.end - 1, level + 1) && Needs(job, level, s) :: Place(level, s)
  }

  predicate IsTable(mem: Memory, root: nat, place: Place) {
    place.level <= 4 && TableAt(mem, root, place.level, place.index).Some?
  }

  ghost function Missing(job: Job, mem: Memory): (t: set<Place>)
    requires job.end > 0
    ensures forall place :: place in t <==> place in Needed(job) && !IsTable(mem, job.root, place)
  {
    set place | place in Needed(job) && !IsTable(mem, job.root, place)
  }

  /** No table has gone, and all that have come are needed. */
  ghost predicate Grown(job: Job, mem: Memory, mem': Memory) {
    forall place: Place | LowestTable(job) <= place.level <= 4 ::
      && (IsTable(mem, job.root, place) ==> IsTable(mem', job.root, place))
      && (IsTable(mem', job.root, place) ==> IsTable(mem, job.root, place) || Needs(job, place.level, place.index))
  }

  /** As many pages were taken as are no longer missing; and there is no other one, if the result is a failure. */
  predicate Taken(u: seq<Entry>, offset: nat, r: Allocation, before: nat, after: nat) {
    && |u| > 0 && after <= before
    && if r.Allocated? then r == Pages(u, offset, before - after)
       else after > 0 && r == Pages(u, offset, before - after + 1)
  }

  lemma TakenTrans(u: seq<Entry>, offset: nat, o: nat, r: Allocation, a: nat, b: nat, c: nat)
    requires Taken(u, offset, Allocated(o), a, b) && Taken(u, o, r, b, c)
    ensures Taken(u, offset, r, a, c)
  {
    hide Pages;
    PagesSplit(u, offset, a - b, if r.Allocated? then b - c else b - c + 1);
  }

  lemma TakenInAll(u: seq<Entry>, offset: nat, r: Allocation, before: nat, after: nat)
    requires Taken(u, offset, r, before, after) && (r.Allocated? ==> after == 0)
    ensures r == Pages(u, offset, before)
  {
    hide Pages;
    if !r.Allocated? {
      PagesSplit(u, offset, before - after + 1, after - 1);
    }
  }

  ghost predicate Bumped(job: Job, u: seq<Entry>, mem: Memory, mem': Memory, offset: nat, r: Allocation) {
    job.end > 0 && Grown(job, mem, mem') && Taken(u, offset, r, |Missing(job, mem)|, |Missing(job, mem')|)
  }

  lemma BumpedNone(job: Job, u: seq<Entry>, mem: Memory, offset: nat)
    requires |u| > 0 && job.end > 0
    ensures Bumped(job, u, mem, mem, offset, Allocated(offset))
  {
    hide Missing, IsTable;
  }

  lemma GrownTrans(job: Job, mem: Memory, mem1: Memory, mem2: Memory)
    requires Grown(job, mem, mem1) && Grown(job, mem1, mem2)
    ensures Grown(job, mem, mem2)
  {
    hide IsTable;
    forall place: Place | LowestTable(job) <= place.level <= 4
      ensures IsTable(mem, job.root, place) ==> IsTable(mem2, job.root, place)
      ensures IsTable(mem2, job.root, place) ==> IsTable(mem, job.root, place) || Needs(job, place.level, place.index)
    {
      assert IsTable(mem, job.root, place) ==> IsTable(mem1, job.root, place);
    }
  }

  /** One after the other, as the offset is handed on. */
  lemma BumpedTrans(job: Job, u: seq<Entry>, mem: Memory, mem1: Memory, mem2: Memory, offset: nat, o: nat,
                    r: Allocation)
    requires Bumped(job, u, mem, mem1, offset, Allocated(o)) && Bumped(job, u, mem1, mem2, o, r)
    ensures Bumped(job, u, mem, mem2, offset, r)
  {
    hide Missing, Grown, Taken;
    GrownTrans(job, mem, mem1, mem2);
    TakenTrans(u, offset, o, r, |Missing(job, mem)|, |Missing(job, mem1)|, |Missing(job, mem2)|);
  }

  /** Storing leaves moves no table that matters. */
  lemma BumpedStore(job: Job, u: seq<Entry>, mem: Memory, mem': Memory, offset: nat)
    requires |u| > 0 && job.end > 0 && UpperTablesKept(mem, mem', job.root, LowestTable(job))
    ensures Bumped(job, u, mem, mem', offset, Allocated(offset))
  {
    hide TableAt, Needed;
    forall place: Place | LowestTable(job) <= place.level <= 4
      ensures IsTable(mem', job.root, place) <==> IsTable(mem, job.root, place)
    {
      assert TableAt(mem', job.root, place.level, place.index) == TableAt(mem, job.root, place.level, place.index);
    }
    assert Missing(job, mem') == Missing(job, mem);
  }

  /** One table has come in one place. */
  ghost predicate Hung(mem: Memory, mem': Memory, root: nat, place: Place) {
    && IsTable(mem', root, place)
    && forall other: Place | other != place && 1 <= other.level <= 4 ::
         IsTable(mem', root, other) <==> IsTable(mem, root, other)
  }

  lemma HungGrows(job: Job, mem: Memory, mem': Memory, place: Place)
    requires job.end > 0 && Hung(mem, mem', job.root, place) && Needs(job, place.level, place.index)
    ensures Grown(job, mem, mem') && Missing(job, mem') == Missing(job, mem) - {place}
  {
    hide IsTable, InRange;
    forall other
      ensures other in Missing(job, mem') <==> other in Missing(job, mem) - {place}
    {
    }
  }

  /** An allocated table is one less that is missing. */
  lemma BumpedLink(job: Job, u: seq<Entry>, mem: Memory, mem': Memory, place: Place, offset: nat, r: Allocation)
    requires |u| > 0 && job.end > 0 && Hung(mem, mem', job.root, place) && Needs(job, place.level, place.index)
    requires !IsTable(mem, job.root, place) && r.Allocated? && r == Allocate(u, offset, PAGE_SIZE)
    ensures Bumped(job, u, mem, mem', offset, r)
  {
    hide IsTable, Needs, Grown, Missing, Allocate;
    HungGrows(job, mem, mem', place);
    assert place in Missing(job, mem);
    assert Pages(u, offset, 0) == Allocated(offset);
    assert Pages(u, offset, 1) == r;
  }

  /** One that was there already is none less. */
  lemma BumpedRelink(job: Job, u: seq<Entry>, mem: Memory, mem': Memory, place: Place, offset: nat)
    requires |u| > 0 && job.end > 0 && Hung(mem, mem', job.root, place) && Needs(job, place.level, place.index)
    requires IsTable(mem, job.root, place)
    ensures Bumped(job, u, mem, mem', offset, Allocated(offset))
  {
    hide IsTable, Needs, Grown, Missing;
    HungGrows(job, mem, mem', place);
    assert Missing(job, mem') == Missing(job, mem);
  }

  /** When there is no page for it, it stays missing. */
  lemma BumpedFails(job: Job, u: seq<Entry>, mem: Memory, place: Place, offset: nat, r: Allocation)
    requires |u| > 0 && job.end > 0 && Needs(job, place.level, place.index) && !IsTable(mem, job.root, place)
    requires !r.Allocated? && r == Allocate(u, offset, PAGE_SIZE)
    ensures Bumped(job, u, mem, mem, offset, r)
  {
    hide IsTable, Needs, Missing, Allocate;
    assert place in Missing(job, mem);
    assert Pages(u, offset, 0) == Allocated(offset);
    assert Pages(u, offset, 1) == r;
  }

  // The table that an entry leads to, before and after it is made sure of

  lemma TableOfEntry(mem: Memory, root: nat, own: Places, q: nat, i: nat)
    requires Tree(mem, root, own) && q in own && q in mem && i < 512 && 2 <= own[q].level <= 4
    requires TableAt(mem, root, own[q].level, own[q].index) == Some(q)
    requires own[q].level == 2 ==> !Decode(2, mem[q][i]).Leaf?
    ensures IsTable(mem, root, Place(own[q].level - 1, 512 * own[q].index + i)) <==> TablePointer(mem[q][i]) != 0
  {
    assert TableFits(mem, own, q);
    assert EntryFits(mem[q][i], own[q].level, 512 * own[q].index + i, own);
    assert (512 * own[q].index + i) / 512 == own[q].index;
    ZeroIsFault(own[q].level);
    if TablePointer(mem[q][i]) == 0 {
      EmptyEntry(mem, own, q, i);
    }
  }

  /** Storing an entry that leads to a table, in the place of one that led there too or nowhere, to a zeroed page. */
  lemma {:induction false} TableAtLink(mem: Memory, mem': Memory, root: nat, own: Places, q: nat, i: nat, n: nat,
                                       level: nat, s: nat)
    requires Tree(mem, root, own) && Same(mem, mem', own, q, i) && q in own && q in mem && q in mem' && i < 512
    requires 2 <= own[q].level <= 4 && TableAt(mem, root, own[q].level, own[q].index) == Some(q)
    requires Decode(own[q].level, mem'[q][i]) == Table(n)
    requires mem[q][i] == 0 ==> n in mem' && mem'[n] == ZeroPage()
    requires mem[q][i] != 0 ==> Decode(own[q].level, mem[q][i]) == Table(n)
    requires 1 <= level <= 4
    ensures TableAt(mem', root, level, s) ==
      if level == own[q].level - 1 && s == 512 * own[q].index + i then Some(n) else TableAt(mem, root, level, s)
    decreases 4 - level
  {
    hide Tree, Same, Decode;
    if level < 4 {
      TableAtLink(mem, mem', root, own, q, i, n, level + 1, s / 512);
      var t := TableAt(mem, root, level + 1, s / 512);
      if level + 1 == own[q].level - 1 && s / 512 == 512 * own[q].index + i {
        BelowLink(mem, mem', root, own, q, i, n, level, s);
      } else if t.Some? {
        TableAtPlace(mem, root, own, level + 1, s / 512);
        assert s == 512 * (s / 512) + s % 512;
        StepLink(mem, mem', root, own, q, i, n, level, s, t.value);
      }
    }
  }

  lemma StepLink(mem: Memory, mem': Memory, root: nat, own: Places, q: nat, i: nat, n: nat, level: nat, s: nat, p: nat)
    requires Tree(mem, root, own) && Same(mem, mem', own, q, i) && q in own && q in mem && q in mem' && i < 512
    requires 1 <= level < 4 && p in own && own[p] == Place(level + 1, s / 512)
    requires TableAt(mem, root, level + 1, s / 512) == Some(p) == TableAt(mem', root, level + 1, s / 512)
    requires TableAt(mem, root, own[q].level, own[q].index) == Some(q) && 2 <= own[q].level <= 4
    requires Decode(own[q].level, mem'[q][i]) == Table(n)
    ensures TableAt(mem', root, level, s) ==
      if level == own[q].level - 1 && s == 512 * own[q].index + i then Some(n) else TableAt(mem, root, level, s)
  {
    hide EntryFits, Decode, Tree, TableAt;
    InTree(mem, root, own, p);
    OneStep(mem, root, level, s, p);
    OneStep(mem', root, level, s, p);
    assert s == 512 * (s / 512) + s % 512;
    if p == q && s % 512 == i {
      assert mem'[p][s % 512] == mem'[q][i];
    } else {
      assert mem'[p][s % 512] == mem[p][s % 512];
    }
  }

  lemma OneStep(mem: Memory, root: nat, level: nat, s: nat, p: nat)
    requires level < 4 && TableAt(mem, root, level + 1, s / 512) == Some(p) && p in mem
    ensures TableAt(mem, root, level, s) ==
      match Decode(level + 1, mem[p][s % 512])
      case Table(next) => Some(next)
      case _ => None
  {
    hide Decode;
  }

  lemma BelowLink(mem: Memory, mem': Memory, root: nat, own: Places, q: nat, i: nat, n: nat, level: nat, s: nat)
    requires Tree(mem, root, own) && Same(mem, mem', own, q, i) && q in own && q in mem && i < 512
    requires 2 <= own[q].level <= 4 && TableAt(mem, root, own[q].level, own[q].index) == Some(q)
    requires mem[q][i] == 0 ==> n in mem' && mem'[n] == ZeroPage()
    requires mem[q][i] != 0 ==> Decode(own[q].level, mem[q][i]) == Table(n)
    requires 1 <= level && level + 1 == own[q].level - 1 && s / 512 == 512 * own[q].index + i
    requires TableAt(mem', root, level + 1, s / 512) == Some(n)
    ensures TableAt(mem', root, level, s) == TableAt(mem, root, level, s)
  {
    hide EntryFits, Tree, TableAt;
    assert s / 512 / 512 == own[q].index && s / 512 % 512 == i;
    OneStep(mem, root, level + 1, s / 512, q);
    if mem[q][i] != 0 {
      BelowKept(mem, mem', root, own, q, i, n, level, s);
    } else {
      ZeroIsFault(own[q].level);
      ZeroIsFault(level + 1);
      BelowNone(mem, root, level, s);
      OneStep(mem', root, level, s, n);
      assert mem'[n][s % 512] == 0;
    }
  }

  lemma BelowKept(mem: Memory, mem': Memory, root: nat, own: Places, q: nat, i: nat, n: nat, level: nat, s: nat)
    requires Tree(mem, root, own) && Same(mem, mem', own, q, i) && q in own && q in mem && i < 512
    requires 1 <= level && level + 1 == own[q].level - 1 && own[q].level <= 4
    requires TableAt(mem, root, level + 1, s / 512) == Some(n) == TableAt(mem', root, level + 1, s / 512)
    ensures TableAt(mem', root, level, s) == TableAt(mem, root, level, s)
  {
    hide TableAt, Decode, Tree;
    TableAtPlace(mem, root, own, level + 1, s / 512);
    InTree(mem, root, own, n);
    OneStep(mem, root, level, s, n);
    OneStep(mem', root, level, s, n);
    assert mem'[n][s % 512] == mem[n][s % 512];
  }

  lemma BelowNone(mem: Memory, root: nat, level: nat, s: nat)
    requires level < 4 && TableAt(mem, root, level + 1, s / 512) == None
    ensures TableAt(mem, root, level, s) == None
  {
  }

  lemma TableHung(mem: Memory, mem': Memory, root: nat, own: Places, q: nat, i: nat, n: nat)
    requires Tree(mem, root, own) && Same(mem, mem', own, q, i) && q in own && q in mem && q in mem' && i < 512
    requires 2 <= own[q].level <= 4 && TableAt(mem, root, own[q].level, own[q].index) == Some(q)
    requires Decode(own[q].level, mem'[q][i]) == Table(n)
    requires mem[q][i] == 0 ==> n in mem' && mem'[n] == ZeroPage()
    requires mem[q][i] != 0 ==> Decode(own[q].level, mem[q][i]) == Table(n)
    ensures Hung(mem, mem', root, Place(own[q].level - 1, 512 * own[q].index + i))
  {
    hide Tree, Same, Decode;
    var place := Place(own[q].level - 1, 512 * own[q].index + i);
    TableAtLink(mem, mem', root, own, q, i, n, place.level, place.index);
    forall other: Place | other != place && 1 <= other.level <= 4
      ensures IsTable(mem', root, other) <==> IsTable(mem, root, other)
    {
      TableAtLink(mem, mem', root, own, q, i, n, other.level, other.index);
    }
  }

  lemma LinkedIsBumped(job: Job, u: seq<Entry>, mem: Memory, own: Places, offset: nat, bound: nat, q: nat, i: nat,
                       flags: nat)
    requires Inv(job, mem, own, offset, bound) && Entrance(job, mem, own, q, i, flags) && UsableMap(u)
    requires Needs(job, own[q].level - 1, 512 * own[q].index + i)
    requires TablePointer(mem[q][i]) == 0 && Allocate(u, offset, PAGE_SIZE).Allocated?
    ensures var r := Allocate(u, offset, PAGE_SIZE);
      && r.end >= PAGE_SIZE
      && var p := r.end - PAGE_SIZE;
         Bumped(job, u, mem, SetEntry(mem[p := ZeroPage()], q, i, MakePageEntry(p, flags)), offset, r)
  {
    hide LeafOf, Progress, NoLargePages, Decode, TableAt, Bumped, InRange, Hung, IsTable, EntryFits, MakePageEntry,
         TablePointer, Allocate;
    OffsetBounds(job, mem, own, offset, bound);
    FreshPage(u, offset, mem);
    PageIsNew(job, mem, own, offset, bound, u);
    assert TableFits(mem, own, q);
    EmptyEntry(mem, own, q, i);
    var r := Allocate(u, offset, PAGE_SIZE);
    var p := r.end - PAGE_SIZE;
    TableEntry(p, flags, own[q].level);
    var mem' := SetEntry(mem[p := ZeroPage()], q, i, MakePageEntry(p, flags));
    assert Same(mem, mem', own, q, i);
    TableHung(mem, mem', job.root, own, q, i, p);
    TableOfEntry(mem, job.root, own, q, i);
    BumpedLink(job, u, mem, mem', Place(own[q].level - 1, 512 * own[q].index + i), offset, r);
  }

  lemma RelinkedIsBumped(job: Job, u: seq<Entry>, mem: Memory, own: Places, offset: nat, bound: nat, q: nat, i: nat,
                         flags: nat)
    requires Inv(job, mem, own, offset, bound) && Entrance(job, mem, own, q, i, flags) && |u| > 0
    requires Needs(job, own[q].level - 1, 512 * own[q].index + i) && TablePointer(mem[q][i]) != 0
    ensures var p := TablePointer(mem[q][i]);
      Bumped(job, u, mem, SetEntry(mem, q, i, MakePageEntry(p, flags)), offset, Allocated(offset))
  {
    hide LeafOf, Progress, NoLargePages, TableAt, Bumped, InRange, Hung, IsTable, MakePageEntry;
    var p := TablePointer(mem[q][i]);
    assert TableFits(mem, own, q);
    assert EntryFits(mem[q][i], own[q].level, 512 * own[q].index + i, own);
    assert TableFits(mem, own, p);
    TableEntry(p, flags, own[q].level);
    var mem' := SetEntry(mem, q, i, MakePageEntry(p, flags));
    assert Same(mem, mem', own, q, i);
    TableHung(mem, mem', job.root, own, q, i, p);
    TableOfEntry(mem, job.root, own, q, i);
    BumpedRelink(job, u, mem, mem', Place(own[q].level - 1, 512 * own[q].index + i), offset);
  }

  lemma FailedIsBumped(job: Job, u: seq<Entry>, mem: Memory, own: Places, offset: nat, bound: nat, q: nat, i: nat,
                       flags: nat)
    requires Inv(job, mem, own, offset, bound) && Entrance(job, mem, own, q, i, flags) && |u| > 0
    requires Needs(job, own[q].level - 1, 512 * own[q].index + i)
    requires TablePointer(mem[q][i]) == 0 && !Allocate(u, offset, PAGE_SIZE).Allocated?
    ensures Bumped(job, u, mem, mem, offset, Allocate(u, offset, PAGE_SIZE))
  {
    hide LeafOf, Progress, NoLargePages, TableAt, Bumped, InRange, IsTable, Allocate, Decode;
    TableOfEntry(mem, job.root, own, q, i);
    BumpedFails(job, u, mem, Place(own[q].level - 1, 512 * own[q].index + i), offset, Allocate(u, offset, PAGE_SIZE));
  }

  // Once all is mapped, no table is missing

  lemma {:induction false} WalkHasTable(mem: Memory, root: nat, own: Places, va: nat, level: nat)
    requires Tree(mem, root, own) && va < VIRT_LIMIT && Walk(mem, root, va).Some? && 1 <= level <= 4
    requires level == 1 ==> forall q | q in own && q in mem && own[q] == Place(2, Slot(va, 3)) ::
      !Decode(2, mem[q][Slot(va, 2) % 512]).Leaf?
    ensures TableAt(mem, root, level, Slot(va, level + 1)).Some?
    decreases 4 - level
  {
    hide Decode, LeafOf;
    if level == 4 {
      SlotShifts(va);
    } else {
      WalkHasTable(mem, root, own, va, level + 1);
      var s := Slot(va, level + 1);
      assert Slot(va, level + 2) == s / 512;
      TableAtPlace(mem, root, own, level + 1, s / 512);
      WalkVia(mem, root, level + 1, va);
      var p := TableAt(mem, root, level + 1, s / 512).value;
      assert TableFits(mem, own, p);
      assert EntryFits(mem[p][s % 512], level + 1, 512 * (s / 512) + s % 512, own);
      ZeroIsFault(level + 1);
    }
  }

  lemma ZeroIsFault(level: nat)
    ensures Decode(level, 0) == Fault
  {
  }

  lemma SlotOfStart(level: nat, s: nat)
    requires 1 <= level <= 4
    ensures Slot(SlotStart(level, s), level) == s
  {
    SlotShifts(SlotStart(level, s));
  }

  /** An address of the range in a given slot. */
  lemma AddressIn(job: Job, level: nat, s: nat) returns (va: nat)
    requires job.v < job.end && 1 <= level <= 4 && InRange(job, level, s)
    ensures job.v <= va < job.end && Slot(va, level) == s
  {
    hide Slot, SlotStart;
    SlotBounds(job.v, level);
    SlotBounds(job.end - 1, level);
    if s == Slot(job.v, level) {
      va := job.v;
    } else {
      va := SlotStart(level, s);
      StartMonotone(level, Slot(job.v, level) + 1, s);
      StartMonotone(level, s, Slot(job.end - 1, level));
      SlotOfStart(level, s);
    }
  }

  lemma SlotOrderBelow(job: Job, va: nat, level: nat)
    requires job.v <= va < job.end && 1 <= level <= 4
    ensures InRange(job, level, Slot(va, level))
  {
    SlotOrder(job.v, va, level);
    SlotOrder(va, job.end - 1, level);
  }

  lemma TableIsThere(job: Job, mem: Memory, own: Places, offset: nat, level: nat, s: nat)
    requires Inv(job, mem, own, offset, job.end) && Needs(job, level, s)
    ensures IsTable(mem, job.root, Place(level, s))
  {
    hide LeafOf, InRange, Slot, Decode, TableAt, TableFits;
    var va := AddressIn(job, level + 1, s);
    assert LeafOf(mem, job.root, va) == job.Target(va, job.end);
    if level == 1 {
      SlotOrderBelow(job, va, 2);
      NoLeafAt(job, mem, own, offset, va);
    }
    WalkHasTable(mem, job.root, own, va, level);
  }

  lemma NoLeafAt(job: Job, mem: Memory, own: Places, offset: nat, va: nat)
    requires Inv(job, mem, own, offset, job.end) && !job.large && InRange(job, 2, Slot(va, 2))
    ensures forall q | q in own && q in mem && own[q] == Place(2, Slot(va, 3)) ::
      !Decode(2, mem[q][Slot(va, 2) % 512]).Leaf?
  {
    hide LeafOf, Decode, Tree;
    var s := Slot(va, 2);
    assert Slot(va, 3) == s / 512 && s == 512 * (s / 512) + s % 512;
    forall q | q in own && q in mem && own[q] == Place(2, Slot(va, 3))
      ensures !Decode(2, mem[q][s % 512]).Leaf?
    {
      NoLeafHere(job, mem, own, offset, job.end, q, s % 512, s / 512);
    }
  }

  lemma NothingMissing(job: Job, mem: Memory, own: Places, offset: nat)
    requires Inv(job, mem, own, offset, job.end)
    ensures job.end > 0 && Missing(job, mem) == {}
  {
    hide Inv, Needs, IsTable;
    assert job.Valid() by { InvIsValid(job, mem, own, offset); }
    forall place | place in Needed(job)
      ensures IsTable(mem, job.root, place)
    {
      TableIsThere(job, mem, own, offset, place.level, place.index);
    }
  }

  lemma InvIsValid(job: Job, mem: Memory, own: Places, offset: nat)
    requires Inv(job, mem, own, offset, job.end)
    ensures job.Valid()
  {
    hide Tree, Progress;
  }

  /** The result of a whole call: as many pages as tables were missing, or the failure to get them. */
  lemma AllIsTaken(job: Job, u: seq<Entry>, mem: Memory, mem': Memory, offset: nat, r: Allocation)
    requires Bumped(job, u, mem, mem', offset, r) && (r.Allocated? ==> Missing(job, mem') == {})
    ensures r == Pages(u, offset, |Missing(job, mem)|)
  {
    hide Missing, Grown, Taken;
    TakenInAll(u, offset, r, |Missing(job, mem)|, |Missing(job, mem')|);
  }

  lemma NeedsHere(job: Job, level: nat, s: nat)
    requires job.end > 0 && LowestTable(job) <= level <= 3 && InRange(job, level + 1, s)
    ensures Needs(job, level, s)
  {
  }

  /** The tables that the range needs have come to those that were there, and no others. */
  ghost predicate Complete(job: Job, mem: Memory) {
    forall place: Place | LowestTable(job) <= place.level <= 4 ::
      IsTable(mem, job.root, place) <==> IsTable(job.before, job.root, place) || Needs(job, place.level, place.index)
  }

  lemma GrownComplete(job: Job, u: seq<Entry>, mem: Memory, mem': Memory, offset: nat, r: Allocation)
    requires job.before == mem && Bumped(job, u, mem, mem', offset, r) && Missing(job, mem') == {}
    ensures Complete(job, mem')
  {
    hide IsTable, Taken, InRange;
    forall place: Place | LowestTable(job) <= place.level <= 4
      ensures IsTable(mem', job.root, place)
        <==> IsTable(job.before, job.root, place) || Needs(job, place.level, place.index)
    {
      assert place !in Missing(job, mem');
    }
  }
}
