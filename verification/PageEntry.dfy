/** How the bootloader composes page-table entries, and what the processor reads back from them. */
module PageEntry {
  import opened Bits
  import opened PageWalk

  const PRESENT := 1
  const RW := 2
  const SIZE := 0x80
  const PTE_PAT := 0x80
  const PDE_PAT := 0x1000

  /** An address with its page offset cleared, as the `pageAddress` macro does. */
  function PageAddress(a: nat): nat { a - a % 0x1000 }

  /** The same, stored in a 32-bit pointer. */
  function TablePointer(e: nat): nat { PageAddress(e) % 0x1_0000_0000 }

  function MakePageEntry(a: nat, flags: nat): nat { Or(PageAddress(a), flags) }

  function LargeLeafFlags(flags: nat, pat: bool): nat {
    Or(Or(flags, SIZE), if pat then PDE_PAT else 0)
  }

  function SmallLeafFlags(flags: nat, pat: bool): nat {
    Or(flags, if pat then PTE_PAT else 0)
  }

  /** Flags that leave the address field alone, mark the page present, and do not ask for a large page. */
  predicate TableFlags(flags: nat) {
    Present(flags) && !SizeBit(flags) && flags / 0x1000 % 0x100_0000_0000 == 0
  }

  lemma PowersOfTwo()
    ensures Pow2(1) == 2 && Pow2(7) == 0x80 && Pow2(12) == 0x1000 && Pow2(13) == 0x2000
    ensures Pow2(39) == 0x80_0000_0000 && Pow2(40) == 0x100_0000_0000
  {
    assert Pow2(10) == 0x400;
    assert Pow2(13) == 0x2000;
    assert Pow2(20) == 0x10_0000;
    assert Pow2(30) == 0x4000_0000;
    assert Pow2(39) == 0x80_0000_0000;
  }

  lemma OrShift7(a: nat, b: nat)
    ensures Or(a, b) / 0x80 == Or(a / 0x80, b / 0x80)
  {
    PowersOfTwo();
    OrSplit(a, b, 7, 0x80, a / 0x80, a % 0x80, b / 0x80, b % 0x80);
  }

  lemma OrShift12(a: nat, b: nat)
    ensures Or(a, b) / 0x1000 == Or(a / 0x1000, b / 0x1000)
    ensures Or(a, b) % 0x1000 == Or(a % 0x1000, b % 0x1000)
  {
    PowersOfTwo();
    OrSplit(a, b, 12, 0x1000, a / 0x1000, a % 0x1000, b / 0x1000, b % 0x1000);
  }

  lemma OrShift13(a: nat, b: nat)
    ensures Or(a, b) / 0x2000 == Or(a / 0x2000, b / 0x2000)
  {
    PowersOfTwo();
    OrSplit(a, b, 13, 0x2000, a / 0x2000, a % 0x2000, b / 0x2000, b % 0x2000);
  }

  lemma OrJoin40(a: nat, q: nat)
    requires a < 0x100_0000_0000
    ensures Or(a, 0x100_0000_0000 * q) == 0x100_0000_0000 * q + a
  {
    PowersOfTwo();
    OrSplit(a, 0x100_0000_0000 * q, 40, 0x100_0000_0000, 0, a, q, 0);
    OrZero(q);
    OrZero(a);
  }

  lemma OrJoin39(a: nat, q: nat)
    requires a < 0x80_0000_0000
    ensures Or(a, 0x80_0000_0000 * q) == 0x80_0000_0000 * q + a
  {
    PowersOfTwo();
    OrSplit(a, 0x80_0000_0000 * q, 39, 0x80_0000_0000, 0, a, q, 0);
    OrZero(q);
    OrZero(a);
  }

  lemma FieldArithmetic(e: nat, q: nat, b: nat)
    requires e / 0x1000 == 0x100_0000_0000 * q + b && b < 0x100_0000_0000
    ensures AddressField(e) == b * 0x1000
    ensures b < 0x10_0000 ==> TablePointer(e) == b * 0x1000
  {
    DivModUnique(e / 0x1000, 0x100_0000_0000, q, b);
    if b < 0x10_0000 {
      assert PageAddress(e) == 0x1_0000_0000 * (0x10_0000 * q) + b * 0x1000;
      DivModUnique(PageAddress(e), 0x1_0000_0000, 0x10_0000 * q, b * 0x1000);
    }
  }

  lemma LargeFieldArithmetic(e: nat, q: nat, a: nat)
    requires e / 0x2000 == 0x80_0000_0000 * q + a / 0x2000
    requires a % 0x20_0000 == 0 && a < 0x10_0000_0000_0000
    ensures e / 0x2000 % 0x100 == 0
    ensures e / 0x20_0000 % 0x8000_0000 * 0x20_0000 == a
  {
    assert e / 0x2000 == 0x100 * (0x8000_0000 * q + a / 0x20_0000);
    assert e / 0x20_0000 == 0x8000_0000 * q + a / 0x20_0000;
  }

  /** Bits 51:12 of an entry made from an aligned address are that address. */
  lemma EntryAddress(a: nat, flags: nat)
    requires a % 0x1000 == 0 && a < 0x10_0000_0000_0000
    requires flags / 0x1000 % 0x100_0000_0000 == 0
    ensures AddressField(MakePageEntry(a, flags)) == a
    ensures a < 0x1_0000_0000 ==> TablePointer(MakePageEntry(a, flags)) == a
  {
    hide Or;
    var e, q := MakePageEntry(a, flags), flags / 0x1000 / 0x100_0000_0000;
    OrShift12(a, flags);
    assert flags / 0x1000 == 0x100_0000_0000 * q;
    OrJoin40(a / 0x1000, q);
    FieldArithmetic(e, q, a / 0x1000);
  }

  lemma AlignedBits(a: nat)
    requires a % 0x1000 == 0
    ensures PageAddress(a) == a && a % 2 == 0 && a / 0x80 % 2 == 0
  {
    var k := a / 0x1000;
    DivModUnique(a, 0x80, 32 * k, 0);
    DivModUnique(32 * k, 2, 16 * k, 0);
  }

  lemma EntryFlags(a: nat, flags: nat)
    requires a % 0x1000 == 0
    ensures Present(MakePageEntry(a, flags)) == Present(flags)
    ensures SizeBit(MakePageEntry(a, flags)) == SizeBit(flags)
  {
    hide Or, PageAddress;
    AlignedBits(a);
    OrParity(a, flags);
    OrShift7(a, flags);
    OrParity(a / 0x80, flags / 0x80);
  }

  /** An entry made for a table leads the processor to that table, and reads back as its address. */
  lemma TableEntry(a: nat, flags: nat, level: nat)
    requires a % 0x1000 == 0 && a < 0x1_0000_0000 && TableFlags(flags) && 2 <= level <= 4
    ensures Decode(level, MakePageEntry(a, flags)) == Table(a)
    ensures TablePointer(MakePageEntry(a, flags)) == a
  {
    EntryAddress(a, flags);
    EntryFlags(a, flags);
  }

  lemma SmallLeafEntry(a: nat, flags: nat, pat: bool)
    requires a % 0x1000 == 0 && a < 0x10_0000_0000_0000 && TableFlags(flags)
    ensures Decode(1, MakePageEntry(a, SmallLeafFlags(flags, pat))) == Leaf(a)
  {
    hide Or;
    var b := if pat then PTE_PAT else 0;
    var f := SmallLeafFlags(flags, pat);
    OrParity(flags, b);
    OrShift12(flags, b);
    OrZero(flags / 0x1000);
    EntryAddress(a, f);
    EntryFlags(a, f);
  }

  lemma LargeLeafFlagBits(flags: nat, pat: bool)
    requires TableFlags(flags)
    ensures var f := LargeLeafFlags(flags, pat);
      Present(f) && SizeBit(f) && f / 0x2000 == flags / 0x2000
  {
    hide Or;
    var g, b := Or(flags, SIZE), if pat then PDE_PAT else 0;
    OrParity(flags, SIZE);
    OrParity(g, b);
    OrShift7(flags, SIZE);
    OrParity(flags / 0x80, 1);
    OrShift7(g, b);
    OrParity(g / 0x80, b / 0x80);
    OrShift13(flags, SIZE);
    OrShift13(g, b);
    OrZero(flags / 0x2000);
    OrZero(g / 0x2000);
  }

  lemma LargeLeafHigh(a: nat, f: nat, q: nat)
    requires a % 0x1000 == 0 && a < 0x10_0000_0000_0000
    requires f / 0x2000 == 0x80_0000_0000 * q
    ensures MakePageEntry(a, f) / 0x2000 == 0x80_0000_0000 * q + a / 0x2000
  {
    hide Or;
    OrShift13(a, f);
    OrJoin39(a / 0x2000, q);
  }

  lemma HalvedField(flags: nat, q: nat)
    requires flags / 0x1000 == 0x100_0000_0000 * q
    ensures flags / 0x2000 == 0x80_0000_0000 * q
  {
    DivModUnique(flags, 0x2000, 0x80_0000_0000 * q, flags % 0x1000);
  }

  lemma AlignedLarge(a: nat)
    requires a % 0x20_0000 == 0
    ensures a % 0x1000 == 0
  {
    DivModUnique(a, 0x1000, 512 * (a / 0x20_0000), 0);
  }

  lemma TableFlagQuotient(flags: nat)
    requires TableFlags(flags)
    ensures flags / 0x1000 == 0x100_0000_0000 * (flags / 0x1000 / 0x100_0000_0000)
  {
  }

  lemma LargeLeafFields(a: nat, flags: nat, pat: bool)
    requires a % 0x20_0000 == 0 && a < 0x10_0000_0000_0000 && TableFlags(flags)
    ensures var e := MakePageEntry(a, LargeLeafFlags(flags, pat));
      e / 0x2000 % 0x100 == 0 && e / 0x20_0000 % 0x8000_0000 * 0x20_0000 == a
  {
    var f := LargeLeafFlags(flags, pat);
    var q := flags / 0x1000 / 0x100_0000_0000;
    hide Or, LargeLeafFlags, TableFlags, MakePageEntry, Present, SizeBit;
    AlignedLarge(a);
    LargeLeafFlagBits(flags, pat);
    TableFlagQuotient(flags);
    HalvedField(flags, q);
    LargeLeafHigh(a, f, q);
    LargeFieldArithmetic(MakePageEntry(a, f), q, a);
  }

  lemma LargeLeafEntry(a: nat, flags: nat, pat: bool)
    requires a % 0x20_0000 == 0 && a < 0x10_0000_0000_0000 && TableFlags(flags)
    ensures Decode(2, MakePageEntry(a, LargeLeafFlags(flags, pat))) == Leaf(a)
  {
    hide Or, LargeLeafFlags, TableFlags, MakePageEntry, SizeBit, Present;
    AlignedLarge(a);
    LargeLeafFlagBits(flags, pat);
    LargeLeafFields(a, flags, pat);
    EntryFlags(a, LargeLeafFlags(flags, pat));
  }

  // The whole word of an entry

  lemma OrOne(x: nat)
    requires x % 2 == 0
    ensures Or(x, 1) == x + 1
  {
    var h := x / 2;
    OrZero(h);
    assert Or(x, 1) == 2 * Or(h, 0) + Bit0(x, 1);
  }

  /** Setting a bit that is clear. */
  lemma OrBit(x: nat, k: nat, p: nat)
    requires p == Pow2(k) > 0 && x / p % 2 == 0
    ensures Or(x, p) == x + p
  {
    hide Or;
    var h, l := x / p, x % p;
    assert x == p * h + l;
    OrSplit(x, p, k, p, h, l, 1, 0);
    OrOne(h);
    OrZero(l);
    assert p * (h + 1) == p * h + p;
  }

  /** What a leaf holds besides its address: the flags, bit 7 for a 2 MiB page, and the PAT bit if it is asked for. */
  function LeafBits(flags: nat, large: bool, pat: bool): nat {
    flags + (if large then 0x80 else 0) + (if !pat then 0 else if large then 0x1000 else 0x80)
  }

  /** For addresses below bit 52, and flags above the address and below a given bit, OR is addition. */
  lemma EntryIsSum(a: nat, f: nat)
    requires a % 0x1000 == 0 && a < 0x10_0000_0000_0000 && f / 0x1000 % 0x100_0000_0000 == 0
    ensures MakePageEntry(a, f) == a + f
  {
    hide Or;
    OrShift12(a, f);
    var q := f / 0x1000 / 0x100_0000_0000;
    assert f / 0x1000 == 0x100_0000_0000 * q;
    OrJoin40(a / 0x1000, q);
    OrZero(f % 0x1000);
  }

  lemma OrLow13(a: nat, f: nat)
    requires a % 0x2000 == 0
    ensures Or(a, f) % 0x2000 == f % 0x2000
  {
    hide Or;
    PowersOfTwo();
    var h, l := f / 0x2000, f % 0x2000;
    assert f == 0x2000 * h + l;
    OrSplit(a, f, 13, 0x2000, a / 0x2000, 0, h, l);
    OrZero(l);
    DivModUnique(Or(a, f), 0x2000, Or(a / 0x2000, h), l);
  }

  lemma LargeEntryIsSum(a: nat, f: nat)
    requires a % 0x20_0000 == 0 && a < 0x10_0000_0000_0000 && f / 0x2000 % 0x80_0000_0000 == 0
    ensures MakePageEntry(a, f) == a + f
  {
    hide Or;
    AlignedLarge(a);
    var q := f / 0x2000 / 0x80_0000_0000;
    assert f / 0x2000 == 0x80_0000_0000 * q;
    LargeLeafHigh(a, f, q);
    Aligned13(a);
    OrLow13(a, f);
  }

  lemma Aligned13(a: nat)
    requires a % 0x20_0000 == 0
    ensures a % 0x2000 == 0 && PageAddress(a) == a
  {
    DivModUnique(a, 0x2000, 256 * (a / 0x20_0000), 0);
    AlignedLarge(a);
  }

  lemma TableFlagParts(flags: nat)
    requires TableFlags(flags)
    ensures flags / 0x80 % 2 == 0 && flags / 0x1000 % 2 == 0 && (flags + 0x80) / 0x1000 == flags / 0x1000
    ensures (flags + 0x80) / 0x1000 % 2 == 0
  {
    var k, j, r := flags / 0x1000, flags % 0x1000 / 0x80, flags % 0x80;
    FlagDigits(flags);
    DivModUnique(flags + 0x80, 0x1000, k, 0x80 * (j + 1) + r);
    Halves40(k);
  }

  lemma FlagDigits(flags: nat)
    requires flags / 0x80 % 2 == 0
    ensures var k, j, r := flags / 0x1000, flags % 0x1000 / 0x80, flags % 0x80;
      flags == 0x1000 * k + 0x80 * j + r && j <= 30
  {
    var k, m := flags / 0x1000, flags % 0x1000;
    var j, r := m / 0x80, m % 0x80;
    assert flags == 0x80 * (32 * k + j) + r;
    DivModUnique(flags, 0x80, 32 * k + j, r);
    DivModUnique(32 * k + j, 2, 16 * k + j / 2, j % 2);
  }

  lemma Halves40(k: nat)
    requires k % 0x100_0000_0000 == 0
    ensures k % 2 == 0
  {
    DivModUnique(k, 2, 0x80_0000_0000 * (k / 0x100_0000_0000), 0);
  }

  /** The flags that the builder puts together for its leaves. */
  lemma LeafFlagsAre(flags: nat, pat: bool)
    requires TableFlags(flags)
    ensures LargeLeafFlags(flags, pat) == LeafBits(flags, true, pat)
    ensures SmallLeafFlags(flags, pat) == LeafBits(flags, false, pat)
  {
    hide Or, TableFlags;
    PowersOfTwo();
    TableFlagParts(flags);
    OrBit(flags, 7, 0x80);
    OrZero(flags);
    OrZero(flags + 0x80);
    OrBit(flags + 0x80, 12, 0x1000);
  }

  lemma LeafFieldsClear(flags: nat, pat: bool)
    requires TableFlags(flags)
    ensures LeafBits(flags, true, pat) / 0x2000 % 0x80_0000_0000 == 0
    ensures LeafBits(flags, false, pat) / 0x1000 % 0x100_0000_0000 == 0
  {
    hide TableFlags;
    FlagParts(flags);
    var h, m := flags / 0x10_0000_0000_0000, flags % 0x1000;
    DivModUnique(LeafBits(flags, true, pat), 0x2000, 0x80_0000_0000 * h, LeafBits(m, true, pat));
    DivModUnique(LeafBits(flags, false, pat), 0x1000, 0x100_0000_0000 * h, LeafBits(m, false, pat));
    DivModUnique(0x80_0000_0000 * h, 0x80_0000_0000, h, 0);
    DivModUnique(0x100_0000_0000 * h, 0x100_0000_0000, h, 0);
  }

  /** A leaf entry is its address plus these bits. */
  lemma LeafWord(a: nat, flags: nat, pat: bool)
    requires a < 0x10_0000_0000_0000 && TableFlags(flags)
    ensures a % 0x1000 == 0 ==> MakePageEntry(a, SmallLeafFlags(flags, pat)) == a + LeafBits(flags, false, pat)
    ensures a % 0x20_0000 == 0 ==> MakePageEntry(a, LargeLeafFlags(flags, pat)) == a + LeafBits(flags, true, pat)
  {
    hide TableFlags, SmallLeafFlags, LargeLeafFlags, MakePageEntry, LeafBits;
    LeafFlagsAre(flags, pat);
    LeafFieldsClear(flags, pat);
    if a % 0x1000 == 0 {
      EntryIsSum(a, LeafBits(flags, false, pat));
    }
    if a % 0x20_0000 == 0 {
      LargeEntryIsSum(a, LeafBits(flags, true, pat));
    }
  }

  /**
   Taken apart again, such a word has the PAT bit if and only if it was asked for, and otherwise the flags' own
   bits.
   */
  lemma LeafTakenApart(a: nat, flags: nat, pat: bool)
    requires a < 0x10_0000_0000_0000 && TableFlags(flags)
    ensures a % 0x1000 == 0 ==> var e := a + LeafBits(flags, false, pat);
      && (e / 0x80 % 2 == 1 <==> pat) && e % 0x1000 == flags % 0x1000 + (if pat then 0x80 else 0)
      && e / 0x10_0000_0000_0000 == flags / 0x10_0000_0000_0000
    ensures a % 0x20_0000 == 0 ==> var e := a + LeafBits(flags, true, pat);
      && (e / 0x1000 % 2 == 1 <==> pat) && e % 0x1000 == flags % 0x1000 + 0x80
      && e / 0x10_0000_0000_0000 == flags / 0x10_0000_0000_0000
  {
    hide TableFlags;
    FlagParts(flags);
    var h, m := flags / 0x10_0000_0000_0000, flags % 0x1000;
    if a % 0x1000 == 0 {
      Composed(h, a / 0x1000, m + if pat then 0x80 else 0);
      BitSeven(m, pat);
      EighthBit(a + LeafBits(flags, false, pat));
    }
    if a % 0x20_0000 == 0 {
      var p, bit := a / 0x20_0000, if pat then 1 else 0;
      Composed(h, 512 * p + bit, m + 0x80);
      DivModUnique(0x100_0000_0000 * h + (512 * p + bit), 2, 0x80_0000_0000 * h + 256 * p, bit);
    }
  }

  lemma Composed(h: nat, mid: nat, low: nat)
    requires mid < 0x100_0000_0000 && low < 0x1000
    ensures var e := 0x10_0000_0000_0000 * h + 0x1000 * mid + low;
      && e / 0x10_0000_0000_0000 == h && e / 0x1000 == 0x100_0000_0000 * h + mid && e % 0x1000 == low
  {
    var e := 0x10_0000_0000_0000 * h + 0x1000 * mid + low;
    DivModUnique(e, 0x10_0000_0000_0000, h, 0x1000 * mid + low);
    DivModUnique(e, 0x1000, 0x100_0000_0000 * h + mid, low);
  }

  lemma BitSeven(m: nat, pat: bool)
    requires m + 0x80 < 0x1000 && m / 0x80 % 2 == 0
    ensures (m + if pat then 0x80 else 0) / 0x80 % 2 == 1 <==> pat
  {
  }

  lemma EighthBit(e: nat)
    ensures e / 0x80 % 2 == e % 0x1000 / 0x80 % 2
  {
    var k, j, r := e / 0x1000, e % 0x1000 / 0x80, e % 0x80;
    var l := e % 0x1000 % 0x80;
    DivModUnique(e, 0x80, 32 * k + j, l);
    DivModUnique(32 * k + j, 2, 16 * k + j / 2, j % 2);
  }

  lemma FlagParts(flags: nat)
    requires TableFlags(flags)
    ensures flags == 0x10_0000_0000_0000 * (flags / 0x10_0000_0000_0000) + flags % 0x1000
    ensures flags % 0x1000 + 0x80 < 0x1000 && flags % 0x1000 / 0x80 % 2 == 0
  {
    var q, m := flags / 0x1000 / 0x100_0000_0000, flags % 0x1000;
    FlagDigits(flags);
    DivModUnique(flags, 0x10_0000_0000_0000, q, m);
    EighthBit(flags);
  }
}
