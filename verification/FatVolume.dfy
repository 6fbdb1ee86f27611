/**
 A FAT volume: where the clusters of a chain and its table entries are, by the file system's own rules and as the boot
 loader computes it in 32 bits (Boot/Legacy/Shared/Disk/Disk.c).
 */
module FatVolume {
  import opened Limits
  import opened Bits
  import opened RawMemory
  import opened Endian
  import opened FatSectors
  import opened Products

  const RESERVED := 0x1000_0000 // the bits of a FAT32 entry from here on are reserved

  /** The cluster that an entry names. */
  function Number(entry: nat): nat { entry % RESERVED }

  /** Two less, in 32 bits. */
  function LessTwo(cluster: nat): nat { if cluster >= 2 then cluster - 2 else cluster + (LIMIT_32 - 2) }

  datatype Volume = Volume(sizes: Sizes, sectorsPerCluster: nat, partitionOffset: nat, fatOffset: nat,
                           dataOffset: nat, isFat32: bool)
  {
    predicate Valid() {
      sizes.Valid() && 0 < sectorsPerCluster < 256
    }

    function Limit(): nat {
      if isFat32 then 0x0FFF_FFF6 else 0xFFF6
    }

    predicate Ends(cluster: nat) {
      Number(cluster) >= Limit()
    }

    function ClusterSize(): (n: nat)
      requires Valid()
      ensures n > 0
    {
      AtLeastOne(sectorsPerCluster, sizes.logical);
      sectorsPerCluster * sizes.logical
    }

    function FirstSector(cluster: nat): nat
      requires Number(cluster) >= 2
    {
      partitionOffset + dataOffset + (Number(cluster) - 2) * sectorsPerCluster
    }

    function EntrySize(): nat { if isFat32 then 4 else 2 }

    function FatSector(cluster: nat): nat
      requires Valid()
    {
      partitionOffset + fatOffset + Quotient(Number(cluster) * EntrySize(), sizes.logical)
    }

    // What the code computes

    /** A sector of a cluster. */
    function DataSector(cluster: nat, sector: nat): nat {
      U32(partitionOffset + dataOffset + U32(LessTwo(cluster) * sectorsPerCluster) + sector)
    }

    /** Where in the table a cluster's entry is. */
    function TableByte(cluster: nat): nat {
      if isFat32 then U32(U32(cluster * 2) * 2) else U32(cluster * 2)
    }

    function TableSector(cluster: nat): nat
      requires Valid()
    {
      U32(partitionOffset + fatOffset + Quotient(TableByte(cluster), sizes.logical))
    }

    function TableOffset(cluster: nat): nat
      requires Valid()
    {
      U16(TableByte(cluster) % sizes.logical)
    }

    /** The sectors of the cluster that an entry names are the ones that are read. */
    predicate Fits(cluster: nat)
      requires Valid()
    {
      && Number(cluster) >= 2 && cluster / RESERVED * sectorsPerCluster % 16 == 0
      && sizes.Addressable(FirstSector(cluster) + sectorsPerCluster - 1)
    }

    /** So is its entry in the table. */
    predicate Continues(cluster: nat)
      requires Valid()
    {
      cluster / RESERVED * EntrySize() % 16 == 0 && sizes.Addressable(FatSector(cluster))
    }

    /** As much as one chunk reads: SectorReadLimit, the last 8 bits of it. */
    function ReadLimit(): nat
      requires Valid()
    {
      CHUNK / sizes.logical % 256
    }

    /** The chunks that a cluster is read in. */
    predicate Chunk(sector: nat, n: nat)
      requires Valid()
    {
      && ReadLimit() > 0 && sector % ReadLimit() == 0 && sector < sectorsPerCluster
      && n == if sectorsPerCluster - sector < ReadLimit() then sectorsPerCluster - sector else ReadLimit()
    }

    /** Enough physical sectors are read for every chunk of the cluster. */
    ghost predicate Served(cluster: nat)
      requires Valid() && Number(cluster) >= 2
    {
      forall sector: nat, n: nat | n > 0 && Chunk(sector, n) :: sizes.Suffices(FirstSector(cluster) + sector, n)
    }
  }

  // What a file on the device consists of

  function Clamp(n: nat, image: seq<Byte>): nat { if n <= |image| then n else |image| }

  function Slice(image: seq<Byte>, from: nat, n: nat): seq<Byte> {
    image[Clamp(from, image)..Clamp(from + n, image)]
  }

  function ClusterBytes(vol: Volume, image: seq<Byte>, cluster: nat): seq<Byte>
    requires vol.Valid() && Number(cluster) >= 2
  {
    Slice(image, vol.FirstSector(cluster) * vol.sizes.logical, vol.ClusterSize())
  }

  /** The allocation table is an array of entries on the device. */
  function Entry(vol: Volume, image: seq<Byte>, cluster: nat): nat
    requires vol.Valid()
  {
    var table := (vol.partitionOffset + vol.fatOffset) * vol.sizes.logical;
    LittleEndian(Slice(image, table + Number(cluster) * vol.EntrySize(), vol.EntrySize()))
  }

  /** The entry that the code finds. */
  function EntryRead(vol: Volume, image: seq<Byte>, cluster: nat): nat
    requires vol.Valid()
  {
    var at := vol.sizes.PlaceRead(vol.TableSector(cluster)) + vol.TableOffset(cluster);
    LittleEndian(Slice(image, at, vol.EntrySize()))
  }

  /** The clusters along the chain, one after the other, until there are as many bytes as are wanted. */
  ghost function Content(vol: Volume, image: seq<Byte>, cluster: nat, wanted: nat): seq<Byte>
    requires vol.Valid()
    decreases wanted
  {
    if vol.Ends(cluster) || Number(cluster) < 2 then
      []
    else if vol.ClusterSize() >= wanted then
      ClusterBytes(vol, image, cluster)
    else
      ClusterBytes(vol, image, cluster) + Content(vol, image, Entry(vol, image, cluster), wanted - vol.ClusterSize())
  }

  /** Along the part of the chain that is read, the code finds the right sectors and reads enough of them. */
  ghost predicate Followable(vol: Volume, image: seq<Byte>, cluster: nat, wanted: nat)
    requires vol.Valid()
    decreases wanted
  {
    vol.Ends(cluster) ||
    (vol.Fits(cluster) && vol.Served(cluster) &&
     (vol.ClusterSize() < wanted ==>
        vol.Continues(cluster) &&
        (Entry(vol, image, cluster) != 0 ==>
           Followable(vol, image, Entry(vol, image, cluster), wanted - vol.ClusterSize()))))
  }

  /** Moreover, all of it lies on the device, and no cluster of it is marked free. */
  ghost predicate Intact(vol: Volume, image: seq<Byte>, cluster: nat, wanted: nat)
    requires vol.Valid()
    decreases wanted
  {
    vol.Ends(cluster) ||
    (Number(cluster) >= 2 && (vol.FirstSector(cluster) + vol.sectorsPerCluster) * vol.sizes.logical <= |image| &&
     (vol.ClusterSize() < wanted ==>
        && (vol.FatSector(cluster) + 1) * vol.sizes.logical <= |image|
        && Entry(vol, image, cluster) != 0
        && Intact(vol, image, Entry(vol, image, cluster), wanted - vol.ClusterSize())))
  }

  // The reserved bits of FAT32 entries

  lemma SameRemainder(a: nat, d: nat)
    ensures U32(a + d) == U32(a) <==> U32(d) == 0
  {
  }

  lemma ReservedPart(h: nat, s: nat)
    ensures U32(h * RESERVED * s) == 0 <==> h * s % 16 == 0
  {
    var p := h * s;
    MulAssoc(RESERVED, h, s);
    assert h * RESERVED * s == RESERVED * p;
    assert p == 16 * (p / 16) + p % 16;
    DivModUnique(RESERVED * p, LIMIT_32, p / 16, RESERVED * (p % 16));
  }

  /** A product in 32 bits does not show the reserved bits if and only if they make a multiple of 16. */
  lemma ProductExactly(entry: nat, less: nat, s: nat)
    requires Number(entry) >= less
    ensures U32((entry - less) * s) == U32((Number(entry) - less) * s) <==> entry / RESERVED * s % 16 == 0
  {
    var h, m := entry / RESERVED, Number(entry);
    assert entry - less == (m - less) + h * RESERVED;
    MulAdd(m - less, h * RESERVED, s);
    SameRemainder((m - less) * s, h * RESERVED * s);
    ReservedPart(h, s);
  }

  lemma SameSum(b: nat, x: nat, y: nat)
    requires x < LIMIT_32 && y < LIMIT_32
    ensures U32(b + x) == U32(b + y) <==> x == y
  {
    if x <= y {
      SameRemainder(b + x, y - x);
    } else {
      SameRemainder(b + y, x - y);
    }
  }

  lemma DataSectorExactly(vol: Volume, entry: nat, sector: nat)
    requires Number(entry) >= 2
    ensures vol.DataSector(entry, sector) == vol.DataSector(Number(entry), sector)
      <==> entry / RESERVED * vol.sectorsPerCluster % 16 == 0
  {
    hide U32;
    ProductExactly(entry, 2, vol.sectorsPerCluster);
    var x, y := U32((entry - 2) * vol.sectorsPerCluster), U32((Number(entry) - 2) * vol.sectorsPerCluster);
    U32Bound((entry - 2) * vol.sectorsPerCluster);
    U32Bound((Number(entry) - 2) * vol.sectorsPerCluster);
    SameSum(vol.partitionOffset + vol.dataOffset + sector, x, y);
  }

  lemma U32Bound(x: nat)
    ensures U32(x) < LIMIT_32
  {
  }

  lemma Wrapped(q: nat, r: nat)
    requires r < LIMIT_32
    ensures U32(q * LIMIT_32 + r) == r
  {
    DivModUnique(q * LIMIT_32 + r, LIMIT_32, q, r);
  }

  lemma TwiceIn32(x: nat)
    ensures U32(U32(x * 2) * 2) == U32(x * 4)
  {
    var q, r := Split(x);
    TwiceParts(q, r);
  }

  lemma Split(x: nat) returns (q: nat, r: nat)
    ensures x == q * 0x4000_0000 + r && r < 0x4000_0000
  {
    q, r := x / 0x4000_0000, x % 0x4000_0000;
  }

  lemma TwiceParts(q: nat, r: nat)
    requires r < 0x4000_0000
    ensures U32(U32((q * 0x4000_0000 + r) * 2) * 2) == U32((q * 0x4000_0000 + r) * 4)
  {
    hide U32;
    var h, o := Halves(q);
    Wrapped(h, o * 0x8000_0000 + r * 2);
    Wrapped(o, r * 4);
    Wrapped(q, r * 4);
  }

  lemma Halves(q: nat) returns (h: nat, o: nat)
    ensures q == 2 * h + o && o < 2
  {
    h, o := q / 2, q % 2;
  }

  lemma TableByteIs(vol: Volume, cluster: nat)
    ensures vol.TableByte(cluster) == U32(cluster * vol.EntrySize()) < LIMIT_32
  {
    hide U32;
    U32Bound(cluster * vol.EntrySize());
    TwiceIn32(cluster);
  }

  lemma PlaceExactly(base: nat, x: nat, y: nat, l: nat)
    requires x < LIMIT_32 && y < LIMIT_32 && 0 < l <= CHUNK
    ensures U32(base + Quotient(x, l)) == U32(base + Quotient(y, l)) && U16(x % l) == U16(y % l) <==> x == y
  {
    hide U16, U32, Quotient;
    QuotientIs(x, l);
    QuotientIs(y, l);
    SameSum(base, Quotient(x, l), Quotient(y, l));
    Below16(x % l);
    Below16(y % l);
  }

  lemma TableExactly(vol: Volume, entry: nat)
    requires vol.Valid()
    ensures vol.TableSector(entry) == vol.TableSector(Number(entry))
      && vol.TableOffset(entry) == vol.TableOffset(Number(entry))
      <==> entry / RESERVED * vol.EntrySize() % 16 == 0
  {
    hide U16, U32, Quotient, Volume.TableByte;
    TableByteIs(vol, entry);
    TableByteIs(vol, Number(entry));
    ProductExactly(entry, 0, vol.EntrySize());
    PlaceExactly(vol.partitionOffset + vol.fatOffset, vol.TableByte(entry), vol.TableByte(Number(entry)),
                 vol.sizes.logical);
  }

  /**
   The reserved bits of an entry are ignored when the end of a chain is looked for. Where its cluster and its own entry
   are looked for, they are not: each is found if and only if these bits, times the sectors per cluster or the size of
   an entry, make a multiple of 16.
   */
  lemma {:induction false} ReservedBitsExactly(vol: Volume, entry: nat, sector: nat)
    requires vol.Valid() && Number(entry) >= 2
    ensures vol.Ends(entry) <==> vol.Ends(Number(entry))
    ensures vol.DataSector(entry, sector) == vol.DataSector(Number(entry), sector)
      <==> entry / RESERVED * vol.sectorsPerCluster % 16 == 0
    ensures vol.TableSector(entry) == vol.TableSector(Number(entry))
      && vol.TableOffset(entry) == vol.TableOffset(Number(entry))
      <==> entry / RESERVED * vol.EntrySize() % 16 == 0
  {
    hide Volume.DataSector, Volume.TableSector, Volume.TableOffset;
    DataSectorExactly(vol, entry, sector);
    TableExactly(vol, entry);
  }

  /** With one sector per cluster, cluster 2 with a reserved bit set is looked for far away. */
  lemma ReservedBitMisleads()
    ensures var vol := Volume(Sizes(512, 512), 1, 0, 0, 0, true);
      vol.Valid() && Number(0x1000_0002) == 2 && vol.DataSector(0x1000_0002, 0) != vol.DataSector(2, 0)
  {
  }

  /** With 16 of them cluster 3 is found, but not the entry that says how the chain goes on. */
  lemma ReservedBitMisleadsTable()
    ensures var vol := Volume(Sizes(512, 512), 16, 0, 0, 0, true);
      && vol.Valid() && Number(0x1000_0003) == 3 && vol.DataSector(0x1000_0003, 0) == vol.DataSector(3, 0)
      && vol.TableSector(0x1000_0003) == 0x20_0000 && vol.TableSector(3) == 0
  {
  }

  lemma NumberOfNumber(entry: nat)
    ensures Number(Number(entry)) == Number(entry) <= entry
  {
  }

  lemma SectorFits(vol: Volume, cluster: nat, sector: nat)
    requires vol.Valid() && vol.Fits(cluster) && sector < vol.sectorsPerCluster
    ensures Number(cluster) >= 2 && cluster / RESERVED * vol.sectorsPerCluster % 16 == 0
    ensures vol.sizes.Addressable(vol.FirstSector(cluster) + sector)
  {
    hide Number, Sizes.Parts;
    MulMonotone(vol.FirstSector(cluster) + sector, vol.FirstSector(cluster) + vol.sectorsPerCluster - 1,
                vol.sizes.Parts());
  }

  lemma SmallSector(vol: Volume, cluster: nat, sector: nat)
    requires Number(cluster) >= 2 && vol.FirstSector(cluster) + sector < LIMIT_32
    ensures vol.DataSector(Number(cluster), sector) == vol.FirstSector(cluster) + sector
  {
    hide U32, Number;
    NumberOfNumber(cluster);
    Below32((Number(cluster) - 2) * vol.sectorsPerCluster);
    Below32(vol.FirstSector(cluster) + sector);
  }

  /** A cluster that fits is looked for where it is. */
  lemma DataSectorIs(vol: Volume, cluster: nat, sector: nat)
    requires vol.Valid() && vol.Fits(cluster) && sector < vol.sectorsPerCluster
    ensures cluster >= 2 && vol.DataSector(cluster, sector) == vol.FirstSector(cluster) + sector
    ensures vol.sizes.Addressable(vol.FirstSector(cluster) + sector)
  {
    hide Volume.Fits, Volume.FirstSector, Volume.DataSector, Number, Sizes.Parts;
    SectorFits(vol, cluster, sector);
    NumberOfNumber(cluster);
    DataSectorExactly(vol, cluster, sector);
    SmallSector(vol, cluster, sector);
  }

  /** So is its entry. */
  lemma TablePlaceIs(vol: Volume, cluster: nat)
    requires vol.Valid() && vol.Continues(cluster)
    ensures vol.TableSector(cluster) == vol.FatSector(cluster)
    ensures vol.TableOffset(cluster) == Number(cluster) * vol.EntrySize() % vol.sizes.logical
    ensures vol.sizes.Addressable(vol.FatSector(cluster))
  {
    hide U32, U16, Quotient, Volume.TableByte;
    var x := Number(cluster) * vol.EntrySize();
    TableExactly(vol, cluster);
    TableByteIs(vol, Number(cluster));
    Below32(x);
    Below32(vol.FatSector(cluster));
    Below16(x % vol.sizes.logical);
  }

  lemma WordsFit(w: nat, m: nat, q: nat, x: nat, r: nat)
    requires (w == 2 || w == 4) && x * w == (w * m) * q + r && r < w * m
    ensures r + w <= w * m
  {
    MulAssoc(w, m, q);
    var mq := m * q;
    if w == 2 {
      assert r == 2 * (x - mq);
    } else {
      assert r == 4 * (x - mq);
    }
  }

  lemma WordInSector(base: nat, x: nat, w: nat, l: nat)
    requires l > 0 && l % 4 == 0 && (w == 2 || w == 4)
    ensures (base + Quotient(x * w, l)) * l + x * w % l == base * l + x * w
    ensures x * w % l + w <= l
  {
    hide Quotient;
    var m := WordsOf(l, w);
    RestOf(x * w, l);
    MulAdd(base, Quotient(x * w, l), l);
    WordsFit(w, m, Quotient(x * w, l), x, x * w % l);
  }

  lemma WordsOf(l: nat, w: nat) returns (m: nat)
    requires l % 4 == 0 && (w == 2 || w == 4)
    ensures l == w * m
  {
    m := if w == 4 then l / 4 else l / 2;
  }

  lemma RestOf(x: nat, l: nat)
    requires l > 0
    ensures x == Quotient(x, l) * l + x % l == l * Quotient(x, l) + x % l && x % l < l
  {
    QuotientIs(x, l);
  }

  /** The entry is found in the one sector of the table that is read for it. */
  lemma {:induction false} EntryInSector(vol: Volume, cluster: nat)
    requires vol.Valid()
    ensures vol.TableOffset(cluster) + vol.EntrySize() <= vol.sizes.logical
    ensures vol.Continues(cluster) ==>
      vol.TableSector(cluster) * vol.sizes.logical + vol.TableOffset(cluster)
      == (vol.partitionOffset + vol.fatOffset) * vol.sizes.logical + Number(cluster) * vol.EntrySize()
  {
    hide U32, U16, Quotient, Volume.TableByte, Sizes.Addressable;
    TableByteIs(vol, cluster);
    var w, l := vol.EntrySize(), vol.sizes.logical;
    var k := EntryIndex(cluster, w);
    WordInSector(0, k, w, l);
    Below16(k * w % l);
    if vol.Continues(cluster) {
      TablePlaceIs(vol, cluster);
      WordInSector(vol.partitionOffset + vol.fatOffset, Number(cluster), w, l);
    }
  }

  lemma EntryIndex(cluster: nat, w: nat) returns (k: nat)
    requires w == 2 || w == 4
    ensures U32(cluster * w) == k * w
  {
    k := if w == 4 then cluster % 0x4000_0000 else cluster % 0x8000_0000;
  }

  /** Where a chain goes on as it should, the entry that is read is the right one. */
  lemma EntryReadIs(vol: Volume, image: seq<Byte>, cluster: nat)
    requires vol.Valid() && vol.Continues(cluster)
    ensures EntryRead(vol, image, cluster) == Entry(vol, image, cluster)
  {
    hide Volume.TableSector, Volume.TableOffset, Volume.Continues, LittleEndian, Sizes.Valid, Sizes.PlaceRead,
         Sizes.WrappedLba, Sizes.PhysicalLba, Sizes.Addressable;
    EntryInSector(vol, cluster);
    TablePlaceIs(vol, cluster);
    PlaceIs(vol.sizes, vol.TableSector(cluster));
  }

  // Which volumes are read completely

  lemma Factor(x: nat, d: nat) returns (k: nat)
    requires d > 0 && x % d == 0
    ensures x == k * d
  {
    k := x / d;
    assert x == d * (x / d) + x % d;
  }

  lemma DividesSum(a: nat, b: nat, g: nat)
    requires g > 0 && a % g == 0 && b % g == 0
    ensures (a + b) % g == 0
  {
    var i := Factor(a, g);
    var j := Factor(b, g);
    MulAdd(i, j, g);
    DivModUnique(a + b, g, i + j, 0);
  }

  lemma DividesProduct(k: nat, a: nat, g: nat)
    requires g > 0 && a % g == 0
    ensures (k * a) % g == 0
  {
    var i := Factor(a, g);
    MulAssoc(k, i, g);
    DivModUnique(k * a, g, k * i, 0);
  }

  lemma ReadLimitFacts(vol: Volume)
    requires vol.Valid()
    ensures 0 < vol.ReadLimit() < 256 && vol.ReadLimit() * vol.sizes.logical <= CHUNK
  {
    var l := vol.sizes.logical;
    var q := CHUNK / l;
    assert CHUNK == l * q + CHUNK % l;
    if q == 0 {
      DivModUnique(CHUNK, l, 0, 0);
    }
    if q >= 256 {
      MulMonotone(256, q, l);
    }
  }

  lemma SumsDivide(base: nat, k: nat, spc: nat, sector: nat, limit: nat, g: nat)
    requires g > 0 && limit > 0 && base % g == 0 && spc % g == 0 && limit % g == 0 && sector % limit == 0
    ensures (base + k * spc + sector) % g == 0
  {
    var j := Factor(sector, limit);
    DividesProduct(j, limit, g);
    DividesProduct(k, spc, g);
    DividesSum(base, k * spc, g);
    DividesSum(base + k * spc, sector, g);
  }

  /** A chunk that starts so many clusters after the first is served. */
  predicate ChunkServed(vol: Volume, r: nat, sector: nat, n: nat)
    requires vol.Valid() && n > 0 && vol.sizes.Group() > 0
  {
    var g := vol.sizes.Group();
    (vol.partitionOffset + vol.dataOffset + r * vol.sectorsPerCluster + sector) % g + (n - 1) % g < g
  }

  ghost predicate VolumeServed(vol: Volume)
    requires vol.Valid()
  {
    forall cluster: nat | 2 <= cluster < RESERVED :: vol.Served(cluster)
  }

  ghost predicate FirstOnesServed(vol: Volume)
    requires vol.Valid() && vol.sizes.Group() > 0
  {
    forall r: nat, sector: nat, n: nat | r < vol.sizes.Group() && n > 0 && vol.Chunk(sector, n) ::
      ChunkServed(vol, r, sector, n)
  }

  lemma ChunkServedExactly(vol: Volume, cluster: nat, sector: nat, n: nat)
    requires vol.Valid() && 2 <= cluster < RESERVED && n > 0 && vol.sizes.Group() > 0
    ensures vol.sizes.Suffices(vol.FirstSector(cluster) + sector, n) <==> ChunkServed(vol, cluster - 2, sector, n)
  {
    hide Sizes.Valid, Sizes.Suffices, Sizes.Group;
    SufficesExactly(vol.sizes, vol.FirstSector(cluster) + sector, n);
  }

  lemma ChunkPeriod(vol: Volume, r: nat, q: nat, sector: nat, n: nat)
    requires vol.Valid() && n > 0 && vol.sizes.Group() > 0
    ensures ChunkServed(vol, q * vol.sizes.Group() + r, sector, n) <==> ChunkServed(vol, r, sector, n)
  {
    hide Sizes.Valid, Sizes.Group;
    var g, s := vol.sizes.Group(), vol.sectorsPerCluster;
    var b := vol.partitionOffset + vol.dataOffset + r * s + sector;
    MulAdd(q * g, r, s);
    MulAssoc(q, g, s);
    MulAssoc(q, s, g);
    assert q * g * s == q * s * g;
    AddMultiple(b, q * s, g);
  }

  lemma AddMultiple(b: nat, k: nat, g: nat)
    requires g > 0
    ensures (b + k * g) % g == b % g
  {
    var q := Quotient(b, g);
    assert b == g * (b / g) + b % g;
    MulAdd(q, k, g);
    DivModUnique(b + k * g, g, q + k, b % g);
  }

  lemma ServedFromFirst(vol: Volume, cluster: nat)
    requires vol.Valid() && vol.sizes.Group() > 0 && FirstOnesServed(vol) && 2 <= cluster < RESERVED
    ensures vol.Served(cluster)
  {
    hide Sizes.Valid, Sizes.Suffices, Sizes.Group, ChunkServed, Volume.Chunk;
    var g := vol.sizes.Group();
    var q, r := Quotient(cluster - 2, g), (cluster - 2) % g;
    QuotientIs(cluster - 2, g);
    forall sector: nat, n: nat | n > 0 && vol.Chunk(sector, n)
      ensures vol.sizes.Suffices(vol.FirstSector(cluster) + sector, n)
    {
      ChunkPeriod(vol, r, q, sector, n);
      ChunkServedExactly(vol, cluster, sector, n);
    }
  }

  /**
   Every cluster is read completely if and only if the first ones are, as many as there are logical sectors in a
   physical one.
   */
  lemma {:induction false} ServedExactly(vol: Volume)
    requires vol.Valid()
    ensures vol.sizes.Group() > 0 && (VolumeServed(vol) <==> FirstOnesServed(vol))
  {
    hide Sizes.Suffices, ChunkServed, Volume.Chunk, Volume.FirstSector;
    SizesRatio(vol.sizes);
    var g := vol.sizes.Group();
    if FirstOnesServed(vol) {
      forall cluster: nat | 2 <= cluster < RESERVED
        ensures vol.Served(cluster)
      {
        ServedFromFirst(vol, cluster);
      }
    }
    if VolumeServed(vol) {
      GroupIsSmall(vol.sizes);
      forall r: nat, sector: nat, n: nat | r < g && n > 0 && vol.Chunk(sector, n)
        ensures ChunkServed(vol, r, sector, n)
      {
        assert vol.Served(r + 2);
        ChunkServedExactly(vol, r + 2, sector, n);
      }
    }
  }

  lemma GroupIsSmall(z: Sizes)
    requires z.Valid()
    ensures z.Group() < LIMIT_16
  {
    SizesRatio(z);
    if z.physical >= z.logical {
      MulMonotone(1, z.logical, z.Group());
    }
  }

  /** It is so where sectors are read one by one, or clusters and chunks start at physical sectors. */
  lemma {:induction false} AlignedIsServed(vol: Volume)
    requires vol.Valid()
    requires vol.sectorsPerCluster == 1 || (vol.sizes.Group() > 0 &&
      (vol.partitionOffset + vol.dataOffset) % vol.sizes.Group() == 0 &&
      vol.sectorsPerCluster % vol.sizes.Group() == 0 && vol.ReadLimit() % vol.sizes.Group() == 0)
    ensures VolumeServed(vol)
  {
    hide Sizes.Valid, Sizes.Suffices, Sizes.Group, Volume.ReadLimit;
    SizesRatio(vol.sizes);
    ServedExactly(vol);
    var g := vol.sizes.Group();
    forall r: nat, sector: nat, n: nat | r < g && n > 0 && vol.Chunk(sector, n)
      ensures ChunkServed(vol, r, sector, n)
    {
      if vol.sectorsPerCluster == 1 {
        assert n == 1;
      } else {
        SumsDivide(vol.partitionOffset + vol.dataOffset, r, vol.sectorsPerCluster, sector, vol.ReadLimit(), g);
      }
    }
  }

  lemma TwoOfFour(vol: Volume, r: nat, sector: nat, n: nat)
    requires vol == Volume(Sizes(512, 2048), 2, 0, 4, 8, true) && vol.Valid() && n > 0 && vol.Chunk(sector, n)
    ensures vol.sizes.Group() == 4 && ChunkServed(vol, r, sector, n)
  {
    assert sector == 0 && n == 2;
  }

  /** But also for two sectors per cluster of 512 bytes on sectors of 2048, two clusters to each. */
  lemma SmallClustersAreServed()
    ensures var vol := Volume(Sizes(512, 2048), 2, 0, 4, 8, true); vol.Valid() && VolumeServed(vol)
  {
    hide Sizes.Suffices, ChunkServed, Volume.Served;
    var vol := Volume(Sizes(512, 2048), 2, 0, 4, 8, true);
    assert vol.sizes.Group() == 4 && vol.ReadLimit() == 64;
    ServedExactly(vol);
    forall r: nat, sector: nat, n: nat | r < 4 && n > 0 && vol.Chunk(sector, n)
      ensures ChunkServed(vol, r, sector, n)
    {
      TwoOfFour(vol, r, sector, n);
    }
  }
}
