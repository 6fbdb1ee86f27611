/** The usable memory map, and the bump allocator over it. */
module UsableMemory {
  import opened Limits

  const ENTRY_LIMIT := 0x2_0000 // MmapEntryMemoryLimit, 128 KiB
  const PHYS_LIMIT := 0x10_0000_0000_0000 // physical addresses have at most 52 bits

  datatype Entry = Entry(base: nat, limit: nat) {
    function End(): nat { base + limit }
  }

  /** What the map-building pass delivers: sorted, disjoint, page-aligned, non-empty entries. */
  ghost predicate UsableMap(u: seq<Entry>) {
    && 0 < |u| < 256
    && (forall i | 0 <= i < |u| :: 
         && u[i].base % PAGE_SIZE == 0 && u[i].limit % PAGE_SIZE == 0
         && u[i].limit > 0 && u[i].End() <= PHYS_LIMIT)
    && (forall i, j | 0 <= i < j < |u| :: u[i].End() <= u[j].base)
  }

  /** Is this address in one of the entries? */
  ghost predicate Contains(u: seq<Entry>, a: nat) {
    exists i :: 0 <= i < |u| && u[i].base <= a < u[i].End()
  }

  lemma UsableEntry(u: seq<Entry>, i: nat)
    requires UsableMap(u) && i < |u|
    ensures u[i].base % PAGE_SIZE == 0 && u[i].limit % PAGE_SIZE == 0 && u[i].limit > 0 && u[i].End() <= PHYS_LIMIT
  {
  }

  lemma UsableOrder(u: seq<Entry>, i: nat, j: nat)
    requires UsableMap(u) && i < j < |u|
    ensures u[i].End() <= u[j].base
  {
  }

  function PageAlign(a: nat): (r: nat)
    ensures r % PAGE_SIZE == 0 && a <= r < a + PAGE_SIZE
    ensures a % PAGE_SIZE == 0 ==> r == a
  {
    if a % PAGE_SIZE != 0 then a + (PAGE_SIZE - a % PAGE_SIZE) else a
  }

  /** `Panicked` is the call that never returns; `NoSpace` is the value zero. */
  datatype Allocation = Allocated(end: nat) | NoSpace | Panicked

  /** The last entry that begins at or below an address, or the first entry if there is none. */
  function Located(u: seq<Entry>, start: nat, e: nat): (r: nat)
    requires e < |u|
    ensures r <= e
    decreases e
  {
    if e == 0 || u[e].base <= start then e else Located(u, start, e - 1)
  }

  function EntryFor(u: seq<Entry>, start: nat): (e: nat)
    requires |u| > 0
    ensures e < |u|
  {
    Located(u, start, |u| - 1)
  }

  /** Where the search begins in an entry. */
  function SearchFrom(u: seq<Entry>, start: nat, e: nat): nat
    requires e < |u|
  {
    if e == EntryFor(u, start) && u[e].base <= start then start else u[e].base
  }

  predicate Fits(u: seq<Entry>, start: nat, size: nat, e: nat)
    requires e < |u|
  {
    PageAlign(SearchFrom(u, start, e)) + size < u[e].End()
  }

  predicate Exceeds(u: seq<Entry>, start: nat, size: nat, e: nat)
    requires e < |u|
  {
    SearchFrom(u, start, e) + size > LIMIT_32
  }

  function AllocateFrom(u: seq<Entry>, start: nat, size: nat, e: nat): (r: Allocation)
    requires 0 < |u| && e <= |u|
    ensures r.Allocated? ==> size <= r.end
    decreases |u| - e
  {
    if e == |u| then NoSpace
    else if Exceeds(u, start, size, e) then Panicked
    else if Fits(u, start, size, e) then Allocated(PageAlign(SearchFrom(u, start, e)) + size)
    else AllocateFrom(u, start, size, e + 1)
  }

  function Allocate(u: seq<Entry>, start: nat, size: nat): (r: Allocation)
    requires |u| > 0
    ensures r.Allocated? ==> size <= r.end
  {
    AllocateFrom(u, start, size, EntryFor(u, start))
  }

  lemma {:induction false} LocatedEntry(u: seq<Entry>, start: nat, e: nat)
    requires e < |u|
    ensures var r := Located(u, start, e);
      && (u[r].base <= start || r == 0)
      && forall j | r < j <= e :: start < u[j].base
    decreases e
  {
    if !(e == 0 || u[e].base <= start) {
      LocatedEntry(u, start, e - 1);
    }
  }

  // What a single call promises

  ghost predicate InsideEntry(u: seq<Entry>, from: nat, to: nat) {
    exists e :: 0 <= e < |u| && u[e].base <= from && to < u[e].End()
  }

  lemma SearchStartsAbove(u: seq<Entry>, start: nat, e: nat)
    requires UsableMap(u) && EntryFor(u, start) <= e < |u|
    ensures u[e].base <= SearchFrom(u, start, e) && start <= SearchFrom(u, start, e)
  {
    LocatedEntry(u, start, |u| - 1);
  }

  /** The block is page-aligned, lies in one entry, and begins at or above the given start. */
  lemma {:induction false} AllocateFromSound(u: seq<Entry>, start: nat, size: nat, e: nat)
    requires UsableMap(u) && EntryFor(u, start) <= e <= |u|
    requires AllocateFrom(u, start, size, e).Allocated?
    ensures var end := AllocateFrom(u, start, size, e).end;
      && end >= size + start && (end - size) % PAGE_SIZE == 0
      && InsideEntry(u, end - size, end)
      && (start % PAGE_SIZE == 0 ==> end <= LIMIT_32)
    decreases |u| - e
  {
    SearchStartsAbove(u, start, e);
    if !Fits(u, start, size, e) {
      AllocateFromSound(u, start, size, e + 1);
    } else {
      var from := SearchFrom(u, start, e);
      var end := PageAlign(from) + size;
      assert u[e].base <= end - size && end < u[e].End();
    }
  }

  lemma AllocateSound(u: seq<Entry>, start: nat, size: nat)
    requires UsableMap(u) && Allocate(u, start, size).Allocated?
    ensures var end := Allocate(u, start, size).end;
      && end >= size + start && (end - size) % PAGE_SIZE == 0
      && InsideEntry(u, end - size, end)
      && (start % PAGE_SIZE == 0 ==> end <= LIMIT_32)
  {
    AllocateFromSound(u, start, size, EntryFor(u, start));
  }

  ghost predicate Rejected(u: seq<Entry>, start: nat, size: nat, e: nat)
    requires e < |u|
  {
    !Exceeds(u, start, size, e) && !Fits(u, start, size, e)
  }

  /** Zero comes back exactly when every entry from the located one on was looked at and is too small. */
  lemma {:induction false} NoSpaceExactly(u: seq<Entry>, start: nat, size: nat, e: nat)
    requires 0 < |u| && e <= |u|
    ensures AllocateFrom(u, start, size, e) == NoSpace
      <==> forall k | e <= k < |u| :: Rejected(u, start, size, k)
    decreases |u| - e
  {
    if e < |u| {
      assert Rejected(u, start, size, e) <==> !Exceeds(u, start, size, e) && !Fits(u, start, size, e);
      NoSpaceExactly(u, start, size, e + 1);
    }
  }

  /** A block is found exactly when some entry fits before any entry exceeds the 32-bit limit. */
  lemma {:induction false} AllocatedExactly(u: seq<Entry>, start: nat, size: nat, e: nat)
    requires 0 < |u| && e <= |u|
    ensures AllocateFrom(u, start, size, e).Allocated?
      <==> exists k | e <= k < |u| ::
        !Exceeds(u, start, size, k) && Fits(u, start, size, k)
        && forall j | e <= j < k :: Rejected(u, start, size, j)
    decreases |u| - e
  {
    if e < |u| {
      AllocatedExactly(u, start, size, e + 1);
      if Rejected(u, start, size, e) && AllocateFrom(u, start, size, e + 1).Allocated? {
        var k :| e + 1 <= k < |u| && !Exceeds(u, start, size, k) && Fits(u, start, size, k)
          && forall j | e + 1 <= j < k :: Rejected(u, start, size, j);
        assert forall j | e <= j < k :: Rejected(u, start, size, j);
      }
      if !Rejected(u, start, size, e) && !Exceeds(u, start, size, e) {
        assert Fits(u, start, size, e);
      }
    }
  }

  // Threading the result through several calls

  datatype Span = Span(start: nat, end: nat)

  /** The blocks handed out when every call starts where the previous one ended; None when one fails. */
  function Thread(u: seq<Entry>, start: nat, sizes: seq<nat>): seq<Span>
    requires |u| > 0
    decreases |sizes|
  {
    if sizes == [] then []
    else
      match Allocate(u, start, sizes[0])
      case Allocated(end) =>
        [Span(end - sizes[0], end)] + Thread(u, end, sizes[1..])
      case _ => []
  }

  /** Threaded blocks are aligned, inside single entries, and each lies above all earlier ones. */
  lemma {:induction false} ThreadedBlocks(u: seq<Entry>, start: nat, sizes: seq<nat>)
    requires UsableMap(u)
    ensures var bs := Thread(u, start, sizes);
      && |bs| <= |sizes|
      && (forall i | 0 <= i < |bs| ::
           && start <= bs[i].start && bs[i].start % PAGE_SIZE == 0 && bs[i].end == bs[i].start + sizes[i]
           && InsideEntry(u, bs[i].start, bs[i].end))
      && (forall i, j | 0 <= i < j < |bs| :: bs[i].end <= bs[j].start)
    decreases |sizes|
  {
    hide Allocate, InsideEntry;
    if sizes != [] && Allocate(u, start, sizes[0]).Allocated? {
      AllocateSound(u, start, sizes[0]);
      ThreadedBlocks(u, Allocate(u, start, sizes[0]).end, sizes[1..]);
    }
  }
}
