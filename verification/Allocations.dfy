/** Taking pages from the usable memory map one after the other, and how much of it that needs. */
module Allocations {
  import opened Limits
  import opened UsableMemory

  /** So many pages, each from where the one before it ended: the end of the last one, or the first failure. */
  function Pages(u: seq<Entry>, offset: nat, n: nat): (r: Allocation)
    requires |u| > 0
    decreases n
  {
    if n == 0 then Allocated(offset)
    else
      match Pages(u, offset, n - 1)
      case Allocated(o) => Allocate(u, o, PAGE_SIZE)
      case NoSpace => NoSpace
      case Panicked => Panicked
  }

  /** Pages taken in two goes. */
  lemma {:induction false} PagesSplit(u: seq<Entry>, offset: nat, a: nat, b: nat)
    requires |u| > 0
    ensures var first := Pages(u, offset, a);
      Pages(u, offset, a + b) == if first.Allocated? then Pages(u, first.end, b) else first
    decreases b
  {
    hide Allocate;
    if b > 0 {
      PagesSplit(u, offset, a, b - 1);
    }
  }

  /** Where the search begins in an entry, if all below the offset is taken. */
  function From(u: seq<Entry>, offset: nat, e: nat): nat
    requires e < |u|
  {
    if offset < u[e].base then u[e].base else offset
  }

  /** Are so many bytes left in one entry, below 4 GiB? */
  predicate RoomIn(u: seq<Entry>, offset: nat, bytes: nat, e: nat) {
    e < |u| && From(u, offset, e) + bytes < u[e].End() && From(u, offset, e) + bytes < LIMIT_32
  }

  ghost predicate Room(u: seq<Entry>, offset: nat, bytes: nat) {
    exists e :: RoomIn(u, offset, bytes, e)
  }

  lemma LocatedBelow(u: seq<Entry>, offset: nat, bytes: nat, e: nat)
    requires UsableMap(u) && RoomIn(u, offset, bytes, e)
    ensures EntryFor(u, offset) <= e
  {
    hide UsableMap;
    LocatedEntry(u, offset, |u| - 1);
    if EntryFor(u, offset) > e {
      UsableOrder(u, e, EntryFor(u, offset));
    }
  }

  lemma SearchReaches(u: seq<Entry>, offset: nat, j: nat, e: nat)
    requires UsableMap(u) && EntryFor(u, offset) <= j <= e < |u|
    ensures SearchFrom(u, offset, j) <= From(u, offset, e)
    ensures SearchFrom(u, offset, j) == From(u, offset, j)
  {
    hide UsableMap, Located;
    LocatedEntry(u, offset, |u| - 1);
    if j < e {
      UsableEntry(u, j);
      UsableOrder(u, j, e);
    }
  }

  lemma {:induction false} RoomFrom(u: seq<Entry>, offset: nat, size: nat, bytes: nat, e: nat, j: nat)
    requires UsableMap(u) && offset % PAGE_SIZE == 0 && size % PAGE_SIZE == 0 && size <= bytes
    requires RoomIn(u, offset, bytes, e) && EntryFor(u, offset) <= j <= e
    ensures var r := AllocateFrom(u, offset, size, j);
      && r.Allocated? && offset <= r.end < LIMIT_32 && r.end % PAGE_SIZE == 0
      && RoomIn(u, r.end, bytes - size, e)
    decreases e - j
  {
    hide UsableMap, EntryFor;
    SearchReaches(u, offset, j, e);
    SearchReaches(u, offset, e, e);
    UsableEntry(u, j);
    if j < e {
      UsableOrder(u, j, e);
    }
    if !Fits(u, offset, size, j) {
      RoomFrom(u, offset, size, bytes, e, j + 1);
    }
  }

  /** Where there is room, a block is found, below 4 GiB, and the rest of the room is left behind it. */
  lemma RoomIsFound(u: seq<Entry>, offset: nat, size: nat, bytes: nat)
    requires UsableMap(u) && offset % PAGE_SIZE == 0 && size % PAGE_SIZE == 0 && size <= bytes && Room(u, offset, bytes)
    ensures var r := Allocate(u, offset, size);
      && r.Allocated? && offset <= r.end < LIMIT_32 && r.end % PAGE_SIZE == 0
      && Room(u, r.end, bytes - size)
  {
    hide UsableMap, RoomIn;
    var e :| RoomIn(u, offset, bytes, e);
    LocatedBelow(u, offset, bytes, e);
    RoomFrom(u, offset, size, bytes, e, EntryFor(u, offset));
  }

  /** Room for so many pages is enough to take them. */
  lemma {:induction false} RoomForPages(u: seq<Entry>, offset: nat, n: nat, bytes: nat)
    requires UsableMap(u) && offset % PAGE_SIZE == 0 && n * PAGE_SIZE <= bytes && Room(u, offset, bytes)
    ensures var r := Pages(u, offset, n);
      && r.Allocated? && offset <= r.end && r.end % PAGE_SIZE == 0 && Room(u, r.end, bytes - n * PAGE_SIZE)
    decreases n
  {
    hide Room, Allocate;
    if n > 0 {
      RoomForPages(u, offset, n - 1, bytes);
      RoomIsFound(u, Pages(u, offset, n - 1).end, PAGE_SIZE, bytes - (n - 1) * PAGE_SIZE);
    }
  }

  // The lowest place that will do

  /** A page boundary not below the start, with so many bytes behind it in one entry and below 4 GiB. */
  ghost predicate WillDo(u: seq<Entry>, start: nat, size: nat, s: nat) {
    start <= s && s % 0x1000 == 0 && s + size <= 0x1_0000_0000
    && exists e :: 0 <= e < |u| && u[e].base <= s && s + size < u[e].base + u[e].limit
  }

  lemma {:induction false} LowestFrom(u: seq<Entry>, start: nat, size: nat, s: nat, k: nat, e: nat)
    requires UsableMap(u) && start % PAGE_SIZE == 0 && start <= s && s + size <= LIMIT_32
    requires EntryFor(u, start) <= e <= k < |u| && u[k].base <= s && s + size < u[k].End()
    ensures var r := AllocateFrom(u, start, size, e); r.Allocated? && r.end - size <= s
    decreases k - e
  {
    hide UsableMap, EntryFor;
    SearchReaches(u, start, e, k);
    SearchReaches(u, start, k, k);
    UsableEntry(u, e);
    if !Fits(u, start, size, e) {
      LowestFrom(u, start, size, s, k, e + 1);
    }
  }

  lemma LocatedAtOrBelow(u: seq<Entry>, start: nat, s: nat, k: nat)
    requires UsableMap(u) && k < |u| && start <= s < u[k].End()
    ensures EntryFor(u, start) <= k
  {
    hide UsableMap;
    LocatedEntry(u, start, |u| - 1);
    if EntryFor(u, start) > k {
      UsableOrder(u, k, EntryFor(u, start));
    }
  }

  /** A block is found if and only if some place will do, and then it is at the lowest. */
  lemma {:induction false} AllocateLowest(u: seq<Entry>, start: nat, size: nat)
    requires UsableMap(u) && start % 0x1000 == 0
    ensures var r := Allocate(u, start, size);
      && (r.Allocated? <==> exists s :: WillDo(u, start, size, s))
      && (r.Allocated? ==>
            WillDo(u, start, size, r.end - size) && forall s | WillDo(u, start, size, s) :: r.end - size <= s)
  {
    var r := Allocate(u, start, size);
    hide Allocate, UsableMap;
    if r.Allocated? {
      AllocateSound(u, start, size);
      assert WillDo(u, start, size, r.end - size);
    }
    forall s | WillDo(u, start, size, s)
      ensures r.Allocated? && r.end - size <= s
    {
      LowestHere(u, start, size, s);
    }
  }

  lemma LowestHere(u: seq<Entry>, start: nat, size: nat, s: nat)
    requires UsableMap(u) && start % PAGE_SIZE == 0 && WillDo(u, start, size, s)
    ensures var r := Allocate(u, start, size); r.Allocated? && r.end - size <= s
  {
    hide UsableMap;
    var k: nat :| k < |u| && u[k].base <= s && s + size < u[k].base + u[k].limit;
    LocatedAtOrBelow(u, start, s, k);
    LowestFrom(u, start, size, s, k, EntryFor(u, start));
  }
}
