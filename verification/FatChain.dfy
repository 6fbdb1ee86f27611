/**
 A file as the file system lays it out: a list of clusters that the table links, by the numbers and byte places that FAT
 gives them; and that reading its chain reads it.
 */
module FatChain {
  import opened Bits
  import opened RawMemory
  import opened Products
  import opened Endian
  import opened FatSectors
  import opened FatVolume
  import opened Fat

  /** The numbers of clusters. */
  predicate IsCluster(vol: Volume, c: nat) {
    2 <= c <= if vol.isFat32 then 0x0FFF_FFF5 else 0xFFF5
  }

  /** The marks for the end of a chain; of a FAT32 entry 28 bits count. */
  predicate IsEndMark(vol: Volume, e: nat) {
    if vol.isFat32 then e % 0x1000_0000 >= 0x0FFF_FFF8 else 0xFFF8 <= e <= 0xFFFF
  }

  /** No cluster ends a chain, and every end mark does. */
  lemma EndsRightly(vol: Volume, e: nat)
    ensures IsCluster(vol, e) ==> !vol.Ends(e) && Number(e) == e
    ensures IsEndMark(vol, e) ==> vol.Ends(e) && e != 0
  {
  }

  /** The entry of a cluster, byte by byte. */
  ghost predicate Links(vol: Volume, image: seq<Byte>, c: nat, e: nat) {
    var table := (vol.partitionOffset + vol.fatOffset) * vol.sizes.logical;
    if vol.isFat32 then
      table + 4 * c + 4 <= |image| &&
      e == image[table + 4 * c] as nat + 0x100 * (image[table + 4 * c + 1] as nat)
           + 0x1_0000 * (image[table + 4 * c + 2] as nat) + 0x100_0000 * (image[table + 4 * c + 3] as nat)
    else
      table + 2 * c + 2 <= |image| && e == image[table + 2 * c] as nat + 0x100 * (image[table + 2 * c + 1] as nat)
  }

  lemma LinkIsEntry(vol: Volume, image: seq<Byte>, c: nat, e: nat)
    requires vol.Valid() && Number(c) == c && Links(vol, image, c, e)
    ensures Entry(vol, image, c) == e
  {
    hide LittleEndian, Sizes.Valid, Number;
    var table := (vol.partitionOffset + vol.fatOffset) * vol.sizes.logical;
    if vol.isFat32 {
      FourAt(image, table + 4 * c);
    } else {
      TwoAt(image, table + 2 * c);
    }
  }

  lemma FourAt(image: seq<Byte>, at: nat)
    requires at + 4 <= |image|
    ensures LittleEndian(image[at..at + 4]) ==
      image[at] as nat + 0x100 * (image[at + 1] as nat) + 0x1_0000 * (image[at + 2] as nat)
      + 0x100_0000 * (image[at + 3] as nat)
  {
    FourBytes(image[at..at + 4]);
    assert image[at..at + 4][4..] == [];
  }

  lemma TwoAt(image: seq<Byte>, at: nat)
    requires at + 2 <= |image|
    ensures LittleEndian(image[at..at + 2]) == image[at] as nat + 0x100 * (image[at + 1] as nat)
  {
    TwoBytes(image[at..at + 2]);
    assert image[at..at + 2][2..] == [];
  }

  /** Where the bytes of a cluster begin on the device. */
  function Start(vol: Volume, c: nat): nat
    requires c >= 2
  {
    (vol.partitionOffset + vol.dataOffset + (c - 2) * vol.sectorsPerCluster) * vol.sizes.logical
  }

  /** The cluster lies on the device, in reach of 32-bit sector numbers, and is read completely; so is its entry. */
  ghost predicate InReach(vol: Volume, image: seq<Byte>, c: nat)
    requires vol.Valid()
  {
    && IsCluster(vol, c) && vol.Fits(c) && vol.Served(c) && vol.Continues(c)
    && Start(vol, c) + vol.sectorsPerCluster * vol.sizes.logical <= |image|
    && (vol.FatSector(c) + 1) * vol.sizes.logical <= |image|
  }

  /** With sectors of one size only this is asked: 32-bit numbers, and that cluster and entry are on the device. */
  lemma {:induction false} PlainlyInReach(vol: Volume, image: seq<Byte>, c: nat)
    requires vol.Valid() && vol.sizes.logical == vol.sizes.physical && IsCluster(vol, c)
    requires var first := vol.partitionOffset + vol.dataOffset + (c - 2) * vol.sectorsPerCluster;
      && first + vol.sectorsPerCluster <= 0x1_0000_0000
      && (first + vol.sectorsPerCluster) * vol.sizes.logical <= |image|
    requires var entry := vol.partitionOffset + vol.fatOffset + (if vol.isFat32 then 4 else 2) * c / vol.sizes.logical;
      entry < 0x1_0000_0000 && (entry + 1) * vol.sizes.logical <= |image|
    ensures InReach(vol, image, c)
  {
    hide Volume.Fits, Volume.Served, Volume.Continues, Volume.FatSector, Sizes.Valid, Number, Volume.Ends, Start;
    EndsRightly(vol, c);
    PlainEnd(vol, c);
    PlainlyServed(vol, c);
    PlainlyFits(vol, c);
    PlainlyContinues(vol, c);
  }

  lemma PlainEnd(vol: Volume, c: nat)
    requires c >= 2
    ensures var first := vol.partitionOffset + vol.dataOffset + (c - 2) * vol.sectorsPerCluster;
      Start(vol, c) + vol.sectorsPerCluster * vol.sizes.logical == (first + vol.sectorsPerCluster) * vol.sizes.logical
  {
    var first := vol.partitionOffset + vol.dataOffset + (c - 2) * vol.sectorsPerCluster;
    MulAdd(first, vol.sectorsPerCluster, vol.sizes.logical);
  }

  lemma PlainlyServed(vol: Volume, c: nat)
    requires vol.Valid() && vol.sizes.logical == vol.sizes.physical && Number(c) >= 2
    ensures vol.Served(c)
  {
    hide Sizes.Valid, Sizes.Suffices, Volume.FirstSector;
    forall sector: nat, n: nat | n > 0 && vol.Chunk(sector, n)
      ensures vol.sizes.Suffices(vol.FirstSector(c) + sector, n)
    {
      PlainSuffices(vol.sizes, vol.FirstSector(c) + sector, n);
    }
  }

  lemma PlainlyFits(vol: Volume, c: nat)
    requires vol.Valid() && vol.sizes.logical == vol.sizes.physical && IsCluster(vol, c)
    requires vol.partitionOffset + vol.dataOffset + (c - 2) * vol.sectorsPerCluster + vol.sectorsPerCluster
      <= 0x1_0000_0000
    ensures vol.Fits(c)
  {
    hide Sizes.Valid, Sizes.Parts;
    EndsRightly(vol, c);
    NoReservedBits(vol, c);
    OneForOne(vol.sizes);
  }

  lemma PlainlyContinues(vol: Volume, c: nat)
    requires vol.Valid() && vol.sizes.logical == vol.sizes.physical && IsCluster(vol, c)
    requires vol.partitionOffset + vol.fatOffset + (if vol.isFat32 then 4 else 2) * c / vol.sizes.logical
      < 0x1_0000_0000
    ensures vol.Continues(c)
    ensures vol.FatSector(c)
      == vol.partitionOffset + vol.fatOffset + (if vol.isFat32 then 4 else 2) * c / vol.sizes.logical
  {
    hide Sizes.Parts;
    EndsRightly(vol, c);
    NoReservedBits(vol, c);
    OneForOne(vol.sizes);
  }

  lemma NoReservedBits(vol: Volume, c: nat)
    requires IsCluster(vol, c)
    ensures c / RESERVED == 0 && 0 * vol.sectorsPerCluster % 16 == 0 && 0 * vol.EntrySize() % 16 == 0
  {
  }

  lemma OneForOne(z: Sizes)
    requires z.Valid() && z.logical == z.physical
    ensures z.Parts() == 1 && z.Group() == 1
  {
    DivModUnique(z.physical, z.logical, 1, 0);
  }

  lemma PlainSuffices(z: Sizes, lba: nat, n: nat)
    requires z.Valid() && z.logical == z.physical && n > 0
    ensures z.Suffices(lba, n)
  {
    OneForOne(z);
    SufficesExactly(z, lba, n);
  }

  /** These clusters are linked one to the next, and are enough for the file, or followed by an end mark. */
  ghost predicate IsChain(vol: Volume, image: seq<Byte>, clusters: seq<nat>, size: nat)
    requires vol.Valid()
  {
    && |clusters| > 0 && (forall i | 0 <= i < |clusters| :: InReach(vol, image, clusters[i]))
    && (forall i | 0 < i < |clusters| :: Links(vol, image, clusters[i - 1], clusters[i]))
    && (size <= |clusters| * (vol.sectorsPerCluster * vol.sizes.logical)
        || exists e :: Links(vol, image, clusters[|clusters| - 1], e) && IsEndMark(vol, e))
  }

  /** The contents of some clusters, one after the other. */
  function Contents(vol: Volume, image: seq<Byte>, clusters: seq<nat>): seq<Byte>
    requires forall i | 0 <= i < |clusters| :: clusters[i] >= 2
  {
    if clusters == [] then []
    else
      var from := Start(vol, clusters[0]);
      var to := from + vol.sectorsPerCluster * vol.sizes.logical;
      (if to <= |image| then image[from..to] else []) + Contents(vol, image, clusters[1..])
  }

  lemma BytesOfCluster(vol: Volume, image: seq<Byte>, c: nat)
    requires vol.Valid() && InReach(vol, image, c)
    ensures Number(c) == c >= 2 && vol.FirstSector(c) * vol.sizes.logical == Start(vol, c)
    ensures ClusterBytes(vol, image, c) == image[Start(vol, c)..Start(vol, c) + vol.ClusterSize()]
    ensures (vol.FirstSector(c) + vol.sectorsPerCluster) * vol.sizes.logical <= |image|
  {
    hide Volume.Served, Volume.Continues, Volume.Fits, Sizes.Valid;
    EndsRightly(vol, c);
    MulAdd(vol.FirstSector(c), vol.sectorsPerCluster, vol.sizes.logical);
  }

  /** Both have the same bytes, as far as they are wanted. */
  ghost predicate SameStart(a: seq<Byte>, b: seq<Byte>, wanted: nat) {
    var n := if wanted <= |b| then wanted else |b|;
    n <= |a| && a[..n] == b[..n] && (|a| < wanted ==> |a| == |b|)
  }

  lemma Prepend(a: seq<Byte>, b: seq<Byte>, c: seq<Byte>, wanted: nat)
    requires |a| < wanted && SameStart(b, c, wanted - |a|)
    ensures SameStart(a + b, a + c, wanted)
  {
    var n := if wanted <= |a + c| then wanted else |a + c|;
    assert (a + b)[..n] == a + b[..n - |a|] && (a + c)[..n] == a + c[..n - |a|];
  }

  lemma FirstOfContents(vol: Volume, image: seq<Byte>, clusters: seq<nat>)
    requires vol.Valid() && clusters != [] && InReach(vol, image, clusters[0])
    requires forall i | 0 <= i < |clusters| :: clusters[i] >= 2
    ensures Number(clusters[0]) >= 2
    ensures Contents(vol, image, clusters) == ClusterBytes(vol, image, clusters[0]) + Contents(vol, image,
        clusters[1..])
    ensures |ClusterBytes(vol, image, clusters[0])| == vol.ClusterSize()
  {
    hide InReach, ClusterBytes, Start;
    BytesOfCluster(vol, image, clusters[0]);
    EndOfCluster(vol, image, clusters[0]);
  }

  lemma EndOfCluster(vol: Volume, image: seq<Byte>, c: nat)
    requires vol.Valid() && InReach(vol, image, c)
    ensures c >= 2 && Start(vol, c) + vol.sectorsPerCluster * vol.sizes.logical <= |image|
  {
  }

  /** What is known of a cluster that is in reach. */
  lemma InReachMeans(vol: Volume, image: seq<Byte>, c: nat)
    requires vol.Valid() && InReach(vol, image, c)
    ensures !vol.Ends(c) && Number(c) == c >= 2 && vol.Fits(c) && vol.Served(c) && vol.Continues(c)
    ensures (vol.FirstSector(c) + vol.sectorsPerCluster) * vol.sizes.logical <= |image|
    ensures (vol.FatSector(c) + 1) * vol.sizes.logical <= |image|
  {
    hide Volume.Served, Volume.Continues, Volume.Fits, Sizes.Valid, Volume.FirstSector, Volume.FatSector, Start;
    EndsRightly(vol, c);
    BytesOfCluster(vol, image, c);
  }

  /** Reading along the chain meets these clusters and nothing that stands in its way. */
  lemma {:induction false} ChainIsFollowed(vol: Volume, image: seq<Byte>, clusters: seq<nat>, wanted: nat)
    requires vol.Valid() && IsChain(vol, image, clusters, wanted)
    ensures forall i | 0 <= i < |clusters| :: clusters[i] >= 2
    ensures Followable(vol, image, clusters[0], wanted) && Intact(vol, image, clusters[0], wanted)
    ensures SameStart(Content(vol, image, clusters[0], wanted), Contents(vol, image, clusters), wanted)
    decreases |clusters|
  {
    hide Volume.Served, Volume.Fits, Volume.Continues, Volume.Ends, Links, Entry, Sizes.Valid, ClusterBytes, IsEndMark,
         Volume.FirstSector, Volume.FatSector, InReach, Contents, SameStart, Number;
    var c, cs := clusters[0], vol.ClusterSize();
    forall i | 0 <= i < |clusters|
      ensures clusters[i] >= 2
    {
      InReachMeans(vol, image, clusters[i]);
    }
    InReachMeans(vol, image, c);
    FirstOfContents(vol, image, clusters);
    var first, rest := ClusterBytes(vol, image, c), Contents(vol, image, clusters[1..]);
    if wanted <= cs {
      Enough(first, rest, wanted);
    } else if |clusters| == 1 {
      var e :| Links(vol, image, c, e) && IsEndMark(vol, e);
      LinkIsEntry(vol, image, c, e);
      EndsRightly(vol, e);
      NoContents(vol, image, clusters[1..]);
      Prepend(first, [], rest, wanted) by {
        Enough([], [], wanted - cs);
      }
    } else {
      LinkIsEntry(vol, image, c, clusters[1]);
      ShorterChain(vol, image, clusters, wanted);
      ChainIsFollowed(vol, image, clusters[1..], wanted - cs);
      Prepend(first, Content(vol, image, clusters[1], wanted - cs), rest, wanted);
    }
  }

  lemma Enough(a: seq<Byte>, b: seq<Byte>, wanted: nat)
    requires wanted <= |a| || b == []
    ensures SameStart(a, a + b, wanted)
  {
  }

  lemma NoContents(vol: Volume, image: seq<Byte>, clusters: seq<nat>)
    requires clusters == []
    ensures Contents(vol, image, clusters) == []
  {
  }

  lemma ShorterChain(vol: Volume, image: seq<Byte>, clusters: seq<nat>, wanted: nat)
    requires vol.Valid() && IsChain(vol, image, clusters, wanted) && |clusters| > 1 && vol.ClusterSize() < wanted
    ensures IsChain(vol, image, clusters[1..], wanted - vol.ClusterSize()) && clusters[1] != 0
  {
    hide InReach, Links, Sizes.Valid, IsEndMark;
    var rest := clusters[1..];
    MulAdd(|rest|, 1, vol.ClusterSize());
    assert InReach(vol, image, clusters[1]);
    ClusterIsPositive(vol, image, clusters[1]);
  }

  lemma ClusterIsPositive(vol: Volume, image: seq<Byte>, c: nat)
    requires vol.Valid() && InReach(vol, image, c)
    ensures c != 0
  {
  }

  /** So what a successful read leaves in memory are the bytes of the file, as many as are wanted or there are. */
  lemma {:induction false} FileIsRead(vol: Volume, image: seq<Byte>, clusters: seq<nat>, size: nat, s: seq<Byte>,
                                      address: nat)
    requires vol.Valid() && IsChain(vol, image, clusters, size)
    requires HoldsFile(s, address, size, Content(vol, image, clusters[0], size))
    ensures Followable(vol, image, clusters[0], size) && Intact(vol, image, clusters[0], size)
    ensures forall i | 0 <= i < |clusters| :: clusters[i] >= 2
    ensures var file := Contents(vol, image, clusters);
      var n := if size <= |file| then size else |file|;
      address + n <= |s| && s[address..address + n] == file[..n]
  {
    hide Content, Contents, Followable, Intact, InReach, Links;
    ChainIsFollowed(vol, image, clusters, size);
    var content, file := Content(vol, image, clusters[0], size), Contents(vol, image, clusters);
    var n := if size <= |file| then size else |file|;
    var m := if size <= |content| then size else |content|;
    assert s[address..address + n] == s[address..address + m][..n];
  }
}
