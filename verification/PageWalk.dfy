/**
 The x86-64 four-level page walk, written from section 4.5 of volume 3A of the Intel SDM,
 and nothing else: it is the specification that the page-table builder is proved against.

 Physical memory is a map from page addresses to the 512 words of the page.  Levels are numbered
 as in the bootloader: 4 is the PML4, 3 the page-directory-pointer table ("PML3"), 2 the page
 directory ("PML2"), 1 the page table.
 */
module PageWalk {
  import opened Limits
  import opened Options

  const LARGE_PAGE := 0x20_0000
  const HUGE_PAGE := 0x4000_0000
  const VIRT_LIMIT := 0x1_0000_0000_0000 // 48 bits are translated

  type Page = p: seq<nat> | |p| == 512 witness seq(512, _ => 0)
  type Memory = map<nat, Page>

  function ZeroPage(): Page { seq(512, _ => 0) }

  /** What one table entry tells the processor to do next. */
  datatype Hop = Fault | Table(address: nat) | Leaf(base: nat)

  function Present(e: nat): bool { e % 2 == 1 }

  function SizeBit(e: nat): bool { e / 128 % 2 == 1 }

  /** Bits 51:12 of an entry. */
  function AddressField(e: nat): nat { e / 0x1000 % 0x100_0000_0000 * 0x1000 }

  function Decode(level: nat, e: nat): Hop {
    if !Present(e) then Fault
    else if level == 1 then Leaf(AddressField(e))
    else if !SizeBit(e) then Table(AddressField(e))
    else if level == 2 && e / 0x2000 % 0x100 == 0 then Leaf(e / 0x20_0000 % 0x8000_0000 * 0x20_0000)
    else if level == 3 && e / 0x2000 % 0x2_0000 == 0 then Leaf(e / 0x4000_0000 % 0x40_0000 * 0x4000_0000)
    else Fault // a reserved bit is set
  }

  /** The number of the slot, counted over all tables of a level, through which an address goes. */
  function Slot(va: nat, level: nat): nat
    decreases level
  {
    if level == 0 then va
    else if level == 1 then va / 0x1000
    else Slot(va, level - 1) / 512
  }

  function PageOffset(va: nat, level: nat): nat {
    if level == 1 then va % PAGE_SIZE else if level == 2 then va % LARGE_PAGE else va % HUGE_PAGE
  }

  /** The entry that maps an address, and the level it stands at. */
  datatype Hit = Hit(level: nat, entry: nat)

  function LeafFrom(mem: Memory, table: nat, level: nat, va: nat): (r: Option<Hit>)
    ensures r.Some? ==> Decode(r.value.level, r.value.entry).Leaf?
    decreases level
  {
    if level == 0 || table !in mem then None
    else
      var e := mem[table][Slot(va, level) % 512];
      match Decode(level, e)
      case Fault => None
      case Leaf(base) => Some(Hit(level, e))
      case Table(next) => LeafFrom(mem, next, level - 1, va)
  }

  /** What the processor finds for an address, starting at the PML4 whose address CR3 holds. */
  function LeafOf(mem: Memory, cr3: nat, va: nat): (r: Option<Hit>)
    ensures r.Some? ==> Decode(r.value.level, r.value.entry).Leaf?
  {
    LeafFrom(mem, cr3, 4, va)
  }

  /** The address that it is translated to. */
  function Walk(mem: Memory, cr3: nat, va: nat): Option<nat> {
    match LeafOf(mem, cr3, va)
    case None => None
    case Some(hit) => Some(Decode(hit.level, hit.entry).base + PageOffset(va, hit.level))
  }

  function Writable(e: nat): bool { e / 2 % 2 == 1 }

  /** A write goes through if every entry on the way has its bit 1 set. */
  predicate WritableFrom(mem: Memory, table: nat, level: nat, va: nat)
    decreases level
  {
    level > 0 && table in mem &&
    var e := mem[table][Slot(va, level) % 512];
    Writable(e) &&
    match Decode(level, e)
    case Fault => false
    case Leaf(base) => true
    case Table(next) => WritableFrom(mem, next, level - 1, va)
  }

  predicate MayWrite(mem: Memory, cr3: nat, va: nat) { WritableFrom(mem, cr3, 4, va) }

  lemma SlotShifts(va: nat)
    ensures Slot(va, 1) == va / 0x1000
    ensures Slot(va, 2) == va / 0x20_0000
    ensures Slot(va, 3) == va / 0x4000_0000
    ensures Slot(va, 4) == va / 0x80_0000_0000
    ensures Slot(va, 5) == va / 0x1_0000_0000_0000
  {
  }
}
