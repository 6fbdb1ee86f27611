/** Reading a file of a FAT volume: the cluster chain and its chunks (Boot/Legacy/Shared/Disk/Disk.c). */
module Fat {
  import opened Limits
  import opened Bits
  import opened RawMemory
  import opened DiskAreas
  import opened Endian
  import opened FatSectors
  import opened FatVolume
  import opened Products

  /** A part of what has been read is that part of the device. */
  lemma SliceOfRead(image: seq<Byte>, stack: seq<Byte>, from: nat, total: nat, offset: nat, size: nat)
    requires from + total <= |image| && total <= |stack| && offset + size <= total
    requires stack[..total] == image[from..from + total]
    ensures stack[offset..offset + size] == image[from + offset..from + offset + size]
  {
    SliceInSlice(image, from, total, offset, size);
    SliceInSlice(stack, 0, total, offset, size);
    assert stack[0..total] == stack[..total];
  }

  lemma SliceInSlice(image: seq<Byte>, from: nat, len: nat, offset: nat, n: nat)
    requires from + len <= |image| && offset + n <= len
    ensures image[from..from + len][offset..offset + n] == image[from + offset..from + offset + n]
  {
    var a, b := image[from..from + len][offset..offset + n], image[from + offset..from + offset + n];
    forall k | 0 <= k < n
      ensures a[k] == b[k]
    {
      assert a[k] == image[from..from + len][offset + k] == image[from + offset + k] == b[k];
    }
  }

  lemma EntryFromSector(vol: Volume, image: seq<Byte>, cluster: nat, bytes: seq<Byte>)
    requires vol.Valid() && |bytes| == vol.sizes.logical
    requires var at := vol.sizes.PlaceRead(vol.TableSector(cluster));
      at + |bytes| <= |image| && bytes == image[at..at + |bytes|]
    ensures var e := vol.TableOffset(cluster);
      e + vol.EntrySize() <= |bytes| && LittleEndian(bytes[e..e + vol.EntrySize()]) == EntryRead(vol, image, cluster)
  {
    hide Sizes.Valid, LittleEndian, Volume.TableSector, Volume.TableOffset, Volume.Continues, Sizes.PlaceRead;
    EntryInSector(vol, cluster);
    var at, w, e := vol.sizes.PlaceRead(vol.TableSector(cluster)), vol.EntrySize(), vol.TableOffset(cluster);
    SliceInSlice(image, at, |bytes|, e, w);
    assert bytes[e..e + w] == Slice(image, at + e, w);
  }

  datatype Outcome = Failed | Finished | NextCluster

  /** Memory from `address` on holds the first bytes of `all`. */
  ghost predicate Loaded(s: seq<Byte>, address: nat, offset: nat, all: seq<Byte>) {
    address + offset <= |s| && offset <= |all| && s[address..address + offset] == all[..offset]
  }

  /** The next sectors of a cluster are the next bytes of its contents. */
  lemma NextPiece(vol: Volume, image: seq<Byte>, cluster: nat, sector: nat, n: nat, done: seq<Byte>, have: nat,
                  more: nat)
    requires vol.Valid() && Number(cluster) >= 2 && sector + n <= vol.sectorsPerCluster
    requires have == sector * vol.sizes.logical && more == n * vol.sizes.logical
    requires vol.FirstSector(cluster) * vol.sizes.logical + have + more <= |image|
    ensures var all, from := done + ClusterBytes(vol, image, cluster), vol.FirstSector(cluster) * vol.sizes.logical;
      |done| + have + more <= |all| &&
      all[|done| + have..|done| + have + more] == image[from + have..from + have + more]
  {
    hide Sizes.Valid, Volume.FirstSector;
    MulAdd(sector, n, vol.sizes.logical);
    MulMonotone(sector + n, vol.sectorsPerCluster, vol.sizes.logical);
    var from := vol.FirstSector(cluster) * vol.sizes.logical;
    PieceOfSlice(image, from, vol.ClusterSize(), have, more, done);
  }

  lemma SliceOfSum(s: seq<Byte>, t: seq<Byte>, from: nat, n: nat)
    requires from + n <= |t|
    ensures (s + t)[|s| + from..|s| + from + n] == t[from..from + n]
  {
  }

  lemma PieceOfSlice(image: seq<Byte>, from: nat, size: nat, have: nat, more: nat, done: seq<Byte>)
    requires from + have + more <= |image| && have + more <= size
    ensures |done| + have + more <= |done + Slice(image, from, size)|
    ensures (done + Slice(image, from, size))[|done| + have..|done| + have + more]
      == image[from + have..from + have + more]
  {
    var piece := Slice(image, from, size);
    SliceOfSum(done, piece, have, more);
    SliceInSlice(image, from, |piece|, have, more);
  }

  lemma LoadMore(s: seq<Byte>, s': seq<Byte>, address: nat, offset: nat, more: nat, all: seq<Byte>)
    requires Loaded(s, address, offset, all) && |s'| == |s| && address + offset + more <= |s| && offset + more <= |all|
    requires s'[address + offset..address + offset + more] == all[offset..offset + more]
    requires forall k | address <= k < address + offset :: s'[k] == s[k]
    ensures Loaded(s', address, offset + more, all)
  {
    assert s'[address..address + offset] == s[address..address + offset];
    assert s'[address..address + offset + more]
        == s'[address..address + offset] + s'[address + offset..address + offset + more];
    assert all[..offset + more] == all[..offset] + all[offset..offset + more];
  }

  lemma LoadNothing(s: seq<Byte>, address: nat, done: seq<Byte>, more: seq<Byte>)
    requires address + |done| <= |s| && s[address..address + |done|] == done
    ensures Loaded(s, address, |done|, done + more)
  {
  }

  lemma ClusterBytesSize(vol: Volume, image: seq<Byte>, cluster: nat)
    requires vol.Valid() && Number(cluster) >= 2
    ensures |ClusterBytes(vol, image, cluster)| <= vol.ClusterSize()
  {
  }

  lemma ChunkSize(vol: Volume, n: nat, limit: nat, start: nat)
    requires vol.Valid() && 0 < n <= limit && limit * vol.sizes.logical <= CHUNK && start + CHUNK < LIMIT_32
    ensures 0 < n * vol.sizes.logical <= CHUNK
    ensures U32(start + vol.sizes.logical * n) == start + n * vol.sizes.logical
  {
    hide U32, Sizes.Valid;
    MulMonotone(n, limit, vol.sizes.logical);
    LogicalIsPositive(vol.sizes);
    AtLeastOne(n, vol.sizes.logical);
    Below32(start + n * vol.sizes.logical);
  }

  lemma LogicalIsPositive(z: Sizes)
    requires z.Valid()
    ensures z.logical > 0
  {
  }

  lemma NumberFits(vol: Volume, cluster: nat)
    requires vol.Valid() && vol.Fits(cluster)
    ensures Number(cluster) >= 2
  {
  }

  /** Some sectors of a cluster are looked for where they are, and read completely. */
  ghost predicate ChunkIsFound(vol: Volume, cluster: nat, sector: nat, n: nat)
    requires vol.Valid() && n > 0
  {
    vol.Fits(cluster) && vol.sizes.Suffices(vol.FirstSector(cluster) + sector, n)
  }

  lemma ChunkIsServed(vol: Volume, cluster: nat, sector: nat, n: nat)
    requires vol.Valid() && vol.Fits(cluster) && vol.Served(cluster) && n > 0 && vol.Chunk(sector, n)
    ensures ChunkIsFound(vol, cluster, sector, n)
  {
  }

  lemma NextMultiple(sector: nat, limit: nat)
    requires limit > 0
    ensures sector % limit == 0 ==> (sector + limit) % limit == 0
  {
    if sector % limit == 0 {
      DivModUnique(limit, limit, 1, 0);
      DividesSum(sector, limit, limit);
    }
  }

  lemma OnlyInPart(s: seq<Byte>, s1: seq<Byte>, s2: seq<Byte>, part: Area, area: Area)
    requires OnlyIn(s, s1, area, Area(0, 0), Area(0, 0)) && OnlyIn(s1, s2, part, Area(0, 0), Area(0, 0))
    requires area.from <= part.from && part.to <= area.to
    ensures OnlyIn(s, s2, area, Area(0, 0), Area(0, 0))
  {
  }

  /** Memory holds the file's bytes, or as many as there are clusters for. */
  ghost predicate HoldsFile(s: seq<Byte>, address: nat, size: nat, content: seq<Byte>) {
    var n := if size <= |content| then size else |content|;
    address + n <= |s| && s[address..address + n] == content[..n]
  }

  /** What is known of a cluster of the chain that is about to be read. */
  lemma StepFacts(vol: Volume, image: seq<Byte>, cluster: nat, wanted: nat, done: seq<Byte>, content: seq<Byte>)
    requires vol.Valid() && !vol.Ends(cluster) && Followable(vol, image, cluster, wanted)
    requires content == done + Content(vol, image, cluster, wanted)
    ensures vol.Fits(cluster) && Number(cluster) >= 2 && vol.Served(cluster)
    ensures done + ClusterBytes(vol, image, cluster) <= content
    ensures Intact(vol, image, cluster, wanted) ==>
              (vol.FirstSector(cluster) + vol.sectorsPerCluster) * vol.sizes.logical <= |image|
    ensures vol.ClusterSize() < wanted ==>
              var next := Entry(vol, image, cluster);
              && vol.Continues(cluster)
              && (next != 0 ==> Followable(vol, image, next, wanted - vol.ClusterSize()))
              && content ==
                   (done + ClusterBytes(vol, image, cluster)) + Content(vol, image, next, wanted - vol.ClusterSize())
              && (Intact(vol, image, cluster, wanted) ==>
                    && (vol.FatSector(cluster) + 1) * vol.sizes.logical <= |image| && next != 0
                    && Intact(vol, image, next, wanted - vol.ClusterSize()))
  {
    hide Sizes.Valid, Volume.FirstSector, Volume.FatSector, Volume.Served, ClusterBytes, Entry, Sizes.Addressable;
  }

  lemma LoadedPart(s: seq<Byte>, address: nat, reached: nat, size: nat, all: seq<Byte>, content: seq<Byte>)
    requires Loaded(s, address, reached, all) && all <= content
    ensures size <= reached ==> HoldsFile(s, address, size, content)
  {
    if size <= reached {
      assert s[address..address + size] == s[address..address + reached][..size];
      assert all[..reached][..size] == content[..size];
    }
  }

  lemma ClusterDone(vol: Volume, image: seq<Byte>, cluster: nat, s: seq<Byte>, address: nat, reached: nat,
                    done: seq<Byte>)
    requires vol.Valid() && Number(cluster) >= 2 && reached == |done| + vol.ClusterSize()
    requires Loaded(s, address, reached, done + ClusterBytes(vol, image, cluster))
    ensures |done + ClusterBytes(vol, image, cluster)| == reached && address + reached <= |s|
    ensures s[address..address + reached] == done + ClusterBytes(vol, image, cluster)
  {
    hide ClusterBytes;
    ClusterBytesSize(vol, image, cluster);
  }

  lemma ChainEnds(vol: Volume, image: seq<Byte>, cluster: nat, wanted: nat, s: seq<Byte>, address: nat, done: seq<Byte>,
                  content: seq<Byte>, size: nat)
    requires vol.Valid() && vol.Ends(cluster) && content == done + Content(vol, image, cluster, wanted)
    requires |done| <= size && address + |done| <= |s| && s[address..address + |done|] == done
    ensures HoldsFile(s, address, size, content)
  {
  }

  /** What was read so far, and what is to follow, make up the file; and the rest of its chain can be followed. */
  ghost predicate OnTrack(vol: Volume, image: seq<Byte>, first: nat, size: nat, cluster: nat, s: seq<Byte>,
                          address: nat, offset: nat, done: seq<Byte>)
    requires vol.Valid()
  {
    && offset <= size && address + offset <= |s| && offset == |done| && s[address..address + offset] == done
    && Followable(vol, image, cluster, size - offset)
    && Content(vol, image, first, size) == done + Content(vol, image, cluster, size - offset)
    && (Intact(vol, image, first, size) ==> Intact(vol, image, cluster, size - offset))
  }

  lemma TrackStarts(vol: Volume, image: seq<Byte>, first: nat, size: nat, s: seq<Byte>, address: nat)
    requires vol.Valid() && Followable(vol, image, first, size) && address <= |s|
    ensures OnTrack(vol, image, first, size, first, s, address, 0, [])
  {
    hide Followable, Content, Intact;
  }

  lemma TrackGoesOn(vol: Volume, image: seq<Byte>, first: nat, size: nat, cluster: nat, s: seq<Byte>, address: nat,
                    offset: nat, done: seq<Byte>, s': seq<Byte>)
    requires vol.Valid() && OnTrack(vol, image, first, size, cluster, s, address, offset, done) && !vol.Ends(cluster)
    requires Loaded(s', address, offset + vol.ClusterSize(), done + ClusterBytes(vol, image, cluster))
    requires offset + vol.ClusterSize() < size && Entry(vol, image, cluster) != 0
    ensures OnTrack(vol, image, first, size, Entry(vol, image, cluster), s', address, offset + vol.ClusterSize(),
                    done + ClusterBytes(vol, image, cluster))
  {
    hide Followable, Content, Intact, Loaded, ClusterBytes, Entry, Volume.Fits, Volume.Served, Volume.Continues;
    StepFacts(vol, image, cluster, size - offset, done, Content(vol, image, first, size));
    ClusterDone(vol, image, cluster, s', address, offset + vol.ClusterSize(), done);
  }

  class Reader {
    const mem: array<Byte>
    const image: seq<Byte>           // contents of the disk
    const sectors: nat               // its number of physical sectors
    const faults: nat -> bool        // which of the firmware calls fail
    var calls: nat

    constructor (mem: array<Byte>, image: seq<Byte>, sectors: nat, faults: nat -> bool)
      ensures this.mem == mem && this.image == image && this.sectors == sectors && this.faults == faults
    {
      this.mem, this.image, this.sectors, this.faults, calls := mem, image, sectors, faults, 0;
    }

    /** The firmware call, for whole physical sectors. */
    method ReadSector(z: Sizes, n: nat, cache: array<Byte>, lba: nat) returns (carry: bool)
      requires n * z.physical <= cache.Length
      modifies this`calls, cache
      ensures carry <==> faults(old(calls)) || (lba + n) * z.physical > |image|
      ensures !carry ==>
                && lba * z.physical + n * z.physical <= |image|
                && cache[..n * z.physical] == image[lba * z.physical..lba * z.physical + n * z.physical]
    {
      calls := calls + 1;
      MulAdd(lba, n, z.physical);
      carry := faults(calls - 1) || (lba + n) * z.physical > |image|;
      if !carry {
        var i, size, from := 0, n * z.physical, lba * z.physical;
        while i < size
          invariant 0 <= i <= size
          invariant forall k | 0 <= k < i :: cache[k] == image[from + k]
        {
          cache[i] := image[from + i];
          i := i + 1;
        }
      }
    }

    /** Which physical sectors hold the logical ones, in the code's 16 and 32 bits. */
    method Translate(z: Sizes, n: nat, lba: nat) returns (physicalLba: nat, numSectors: nat, offset: nat)
      requires z.Valid() && 0 < n && n * z.logical <= CHUNK
      ensures physicalLba == z.WrappedLba(lba) && numSectors == z.NumSectors(n) && offset == z.Offset(lba)
    {
      hide U16, U32;
      SizesRatio(z);
      CountFits(z, n);
      SamePlace(z, lba);
      physicalLba, offset, numSectors := lba, 0, n;
      if z.physical < z.logical {
        physicalLba := U32(physicalLba * (z.logical / z.physical));
        numSectors := U16(numSectors * (z.logical / z.physical));
      } else if z.physical > z.logical {
        physicalLba := Quotient(physicalLba, z.physical / z.logical);
        numSectors := U16(Quotient(numSectors - 1, z.physical / z.logical) + 1);
        offset := U16(offset + lba % (z.physical / z.logical) * z.logical);
        Below16(lba % (z.physical / z.logical) * z.logical);
      }
    }

    /** Physical sectors are read to the stack, and some of their bytes copied out. */
    method ReadThrough(z: Sizes, numSectors: nat, physicalLba: nat, offset: nat, size: nat, dest: array<Byte>, at: nat)
      returns (carry: bool)
      requires at + size <= dest.Length
      modifies this`calls, dest
      ensures carry <==> faults(old(calls)) || (physicalLba + numSectors) * z.physical > |image|
      ensures !carry && offset + size <= numSectors * z.physical ==>
                var from := physicalLba * z.physical + offset;
                from + size <= |image| && dest[at..at + size] == image[from..from + size]
      ensures forall k | 0 <= k < dest.Length && !(at <= k < at + size) :: dest[k] == old(dest[k])
    {
      var total: nat := numSectors * z.physical;
      ghost var from: nat := physicalLba * z.physical;
      // The cache, and whatever else is on the stack behind it
      var stack := new Byte[total + offset + size];
      carry := ReadSector(z, numSectors, stack, physicalLba);
      CopyOut(dest, at, stack, offset, size);
      if !carry && offset + size <= total {
        SliceOfRead(image, stack[..], from, total, offset, size);
      }
    }

    /** Logical sectors: the physical ones that hold them are read, and the wanted bytes copied out. */
    method ReadFatSector(z: Sizes, n: nat, dest: array<Byte>, at: nat, lba: nat) returns (carry: bool)
      requires z.Valid() && 0 < n && n * z.logical <= CHUNK
      requires at + n * z.logical <= dest.Length
      modifies this`calls, dest
      ensures carry <==> faults(old(calls)) || (z.WrappedLba(lba) + z.NumSectors(n)) * z.physical > |image|
      ensures !carry && z.Suffices(lba, n) ==>
                var from := z.PlaceRead(lba);
                from + n * z.logical <= |image| && dest[at..at + n * z.logical] == image[from..from + n * z.logical]
      ensures z.Addressable(lba) ==> z.WrappedLba(lba) == z.PhysicalLba(lba) && z.PlaceRead(lba) == lba * z.logical
      ensures forall k | 0 <= k < dest.Length && !(at <= k < at + n * z.logical) :: dest[k] == old(dest[k])
    {
      hide Sizes.Valid, Sizes.Addressable, Sizes.PhysicalLba, Sizes.WrappedLba, Sizes.NumSectors;
      var physicalLba, numSectors, offset := Translate(z, n, lba);
      if z.Addressable(lba) {
        PlaceIs(z, lba);
      }
      carry := ReadThrough(z, numSectors, physicalLba, offset, n * z.logical, dest, at);
    }

    method CopyOut(dest: array<Byte>, at: nat, stack: array<Byte>, offset: nat, size: nat)
      requires at + size <= dest.Length && offset + size <= stack.Length && dest != stack
      modifies dest
      ensures dest[at..at + size] == stack[offset..offset + size]
      ensures forall k | 0 <= k < dest.Length && !(at <= k < at + size) :: dest[k] == old(dest[k])
    {
      var i := 0;
      while i < size
        invariant 0 <= i <= size
        invariant forall k | at <= k < at + i :: dest[k] == stack[offset + (k - at)]
        invariant forall k | 0 <= k < dest.Length && !(at <= k < at + size) :: dest[k] == old(dest[k])
      {
        dest[at + i] := stack[offset + i];
        i := i + 1;
      }
    }

    ghost predicate WholeDevice(vol: Volume) {
      (forall k :: !faults(k)) && |image| == sectors * vol.sizes.physical
    }

    /** No call fails, and the cluster is on the device. */
    ghost predicate CanBeRead(vol: Volume, cluster: nat)
    {
      && Number(cluster) >= 2 && WholeDevice(vol)
      && (vol.FirstSector(cluster) + vol.sectorsPerCluster) * vol.sizes.logical <= |image|
    }

    /** Where a cluster's entry is looked for, in the code's 16 and 32 bits. */
    method LocateEntry(vol: Volume, cluster: nat) returns (sectorOffset: nat, entryOffset: nat)
      requires vol.Valid()
      ensures sectorOffset == vol.TableSector(cluster) && entryOffset == vol.TableOffset(cluster)
    {
      var c := cluster;
      if vol.isFat32 {
        c := U32(c * 2);
      }
      sectorOffset := U32(vol.partitionOffset + vol.fatOffset + Quotient(U32(c * 2), vol.sizes.logical));
      entryOffset := U16(U32(c * 2) % vol.sizes.logical);
    }

    /** The entry at that place, or 0 if it cannot be read. */
    method GetFatEntry(vol: Volume, cluster: nat) returns (entry: nat)
      requires vol.Valid()
      modifies this`calls
      ensures entry == 0 || entry == EntryRead(vol, image, cluster)
      ensures vol.Continues(cluster) && entry != 0 ==> entry == Entry(vol, image, cluster)
      ensures WholeDevice(vol) && vol.sizes.Addressable(vol.TableSector(cluster)) ==>
        (vol.TableSector(cluster) + 1) * vol.sizes.logical <= |image| ==> entry == EntryRead(vol, image, cluster)
    {
      hide Sizes.Suffices, Sizes.Addressable, LittleEndian, EntryRead, Entry, Volume.TableSector, Volume.TableOffset,
           Volume.Continues, Sizes.PhysicalLba, Sizes.WrappedLba, Sizes.PlaceRead, Sizes.NumSectors, Overlay;
      var z := vol.sizes;
      assert 1 * z.logical == z.logical;
      var sectorOffset, entryOffset := LocateEntry(vol, cluster);
      EntryInSector(vol, cluster);
      var buffer := new Byte[z.logical];
      Memset(buffer, 0, 0, z.logical);
      OneSectorSuffices(z, sectorOffset);
      if WholeDevice(vol) && (sectorOffset + 1) * z.logical <= |image| {
        ReadsStayOnDevice(z, sectorOffset, 1, sectors);
      }
      var carry := ReadFatSector(z, 1, buffer, 0, sectorOffset);
      if carry {
        return 0;
      }
      entry := if !vol.isFat32 then LittleEndian(buffer[entryOffset..entryOffset + 2])
               else LittleEndian(buffer[entryOffset..entryOffset + 4]);
      ghost var bytes := buffer[..];
      assert bytes == buffer[0..z.logical];
      EntryFromSector(vol, image, cluster, bytes);
      ghost var end := entryOffset + vol.EntrySize();
      assert buffer[entryOffset..end] == bytes[entryOffset..end];
      if vol.Continues(cluster) {
        EntryReadIs(vol, image, cluster);
      }
    }

    /** Where a sector of a cluster is looked for, in the code's 32 bits. */
    method LocateSector(vol: Volume, cluster: nat, sector: nat) returns (lba: nat)
      ensures lba == vol.DataSector(cluster, sector)
    {
      var clusterOffset := U32(LessTwo(cluster) * vol.sectorsPerCluster);
      lba := U32(vol.partitionOffset + vol.dataOffset + clusterOffset + sector);
    }

    /** Some sectors are read to one place, whatever they are; those of a cluster that fits are its own. */
    method ReadChunk(vol: Volume, cluster: nat, sector: nat, n: nat, to: nat, ghost size: nat, ghost good: bool,
                     ghost at: nat)
      returns (carry: bool)
      requires vol.Valid() && 0 < n && sector + n <= vol.sectorsPerCluster
      requires size == n * vol.sizes.logical <= CHUNK && to + size <= mem.Length
      requires good ==>
        && ChunkIsFound(vol, cluster, sector, n)
        && at == vol.FirstSector(cluster) * vol.sizes.logical + sector * vol.sizes.logical
      modifies this`calls, mem
      ensures good && !carry ==> at + size <= |image| && mem[to..to + size] == image[at..at + size]
      ensures good && CanBeRead(vol, cluster) ==> !carry
      ensures forall k | 0 <= k < mem.Length && !(to <= k < to + size) :: mem[k] == old(mem[k])
    {
      hide Sizes.Suffices, Sizes.PhysicalLba, Sizes.WrappedLba, Sizes.PlaceRead, Sizes.NumSectors, Sizes.Addressable,
           Sizes.Valid, Volume.Fits, Volume.FirstSector, Volume.DataSector;
      var z := vol.sizes;
      var lba := LocateSector(vol, cluster, sector);
      if good {
        DataSectorIs(vol, cluster, sector);
        NumberFits(vol, cluster);
        MulAdd(vol.FirstSector(cluster), sector, z.logical);
        MulMonotone(lba + n, vol.FirstSector(cluster) + vol.sectorsPerCluster, z.logical);
        if CanBeRead(vol, cluster) {
          ReadsStayOnDevice(z, lba, n, sectors);
        }
      }
      carry := ReadFatSector(z, n, mem, to, lba);
    }

    /** Memory holds what was read so far, and some of the cluster. */
    ghost predicate Holding(vol: Volume, cluster: nat, address: nat, offset: nat, done: seq<Byte>)
      requires vol.Valid()
      reads mem
    {
      Number(cluster) >= 2 && Loaded(mem[..], address, offset, done + ClusterBytes(vol, image, cluster))
    }

    /** One round of the chunk loop: what is held grows by a chunk. */
    method AppendChunk(vol: Volume, cluster: nat, sector: nat, n: nat, address: nat, offset: nat, ghost good: bool,
                       ghost done: seq<Byte>, ghost size: nat) returns (carry: bool)
      requires vol.Valid() && 0 < n && sector + n <= vol.sectorsPerCluster
      requires size == n * vol.sizes.logical <= CHUNK && address + offset + size <= mem.Length
      requires good ==>
        && ChunkIsFound(vol, cluster, sector, n)
        && offset == |done| + sector * vol.sizes.logical && Holding(vol, cluster, address, offset, done)
      modifies this`calls, mem
      ensures good && !carry ==> Holding(vol, cluster, address, offset + size, done)
      ensures good && CanBeRead(vol, cluster) ==> !carry
      ensures OnlyIn(old(mem[..]), mem[..], Area(address + offset, address + offset + size), Area(0, 0), Area(0, 0))
    {
      hide Sizes.Suffices, Sizes.Addressable, Sizes.Valid, Volume.Fits, Volume.FirstSector, ClusterBytes, Loaded;
      ghost var s := mem[..];
      var to := address + offset;
      ghost var from, have := 0, sector * vol.sizes.logical;
      if good {
        from := vol.FirstSector(cluster) * vol.sizes.logical;
      }
      carry := ReadChunk(vol, cluster, sector, n, to, size, good, from + have);
      if good && !carry {
        NextPiece(vol, image, cluster, sector, n, done, have, size);
        assert mem[..][to..to + size] == mem[to..to + size];
        LoadMore(s, mem[..], address, offset, size, done + ClusterBytes(vol, image, cluster));
      }
    }

    /** How many sectors to read next, and the read. */
    method NextChunk(vol: Volume, cluster: nat, sector: nat, limit: nat, address: nat, start: nat, ghost size: nat,
                     ghost good: bool, ghost done: seq<Byte>, ghost s0: seq<Byte>)
      returns (n: nat, offset: nat, carry: bool)
      requires vol.Valid() && limit == vol.ReadLimit() && sector < vol.sectorsPerCluster && limit > 0
      requires sector % limit == 0 && address + size + CHUNK <= mem.Length <= LIMIT_32 && (start < size || start == 0)
      requires good ==>
        && vol.Fits(cluster) && vol.Served(cluster)
        && start == |done| + sector * vol.sizes.logical && Holding(vol, cluster, address, start, done)
      requires OnlyIn(s0, mem[..], Area(address, address + size + CHUNK), Area(0, 0), Area(0, 0))
      modifies this`calls, mem
      ensures 0 < n && sector + n <= vol.sectorsPerCluster && start < offset == start + n * vol.sizes.logical
      ensures (sector + n) % limit == 0 || sector + n == vol.sectorsPerCluster
      ensures good && !carry ==> Holding(vol, cluster, address, offset, done)
      ensures good && CanBeRead(vol, cluster) ==> !carry
      ensures OnlyIn(s0, mem[..], Area(address, address + size + CHUNK), Area(0, 0), Area(0, 0))
    {
      hide Sizes.Suffices, Sizes.Addressable, Sizes.Valid, Volume.Fits, Volume.FirstSector, Volume.Served,
           Volume.ReadLimit, ClusterBytes, OnlyIn, U32, Loaded, ChunkIsFound, Reader.Holding, Reader.CanBeRead;
      ReadLimitFacts(vol);
      ghost var s1 := mem[..];
      n := limit;
      if vol.sectorsPerCluster - sector < limit {
        n := vol.sectorsPerCluster - sector;
      }
      if good {
        ChunkIsServed(vol, cluster, sector, n);
      }
      ChunkSize(vol, n, limit, start);
      carry := AppendChunk(vol, cluster, sector, n, address, start, good, done, n * vol.sizes.logical);
      OnlyInPart(s0, s1, mem[..], Area(address + start, address + start + n * vol.sizes.logical),
                 Area(address, address + size + CHUNK));
      offset := U32(start + vol.sizes.logical * n);
      NextMultiple(sector, limit);
    }

    /**
     One cluster, chunk by chunk, until it or the file ends. Whatever sectors these are, what is read grows, and stays
     in its place.
     */
    method ReadCluster(vol: Volume, address: nat, cluster: nat, size: nat, start: nat, ghost good: bool,
                       ghost done: seq<Byte>)
      returns (outcome: Outcome, offset: nat)
      requires vol.Valid() && address + size + CHUNK <= mem.Length <= LIMIT_32 && (start < size || start == 0)
      requires good ==> && vol.Fits(cluster) && vol.Served(cluster) && start == |done|
                        && mem[address..address + start] == done
      modifies this`calls, mem
      ensures outcome == Finished ==> size <= offset
      ensures outcome == NextCluster ==> offset == start + vol.ClusterSize() < size
      ensures good && outcome != Failed ==> Holding(vol, cluster, address, offset, done)
      ensures good && CanBeRead(vol, cluster) ==> outcome != Failed
      ensures OnlyIn(old(mem[..]), mem[..], Area(address, address + size + CHUNK), Area(0, 0), Area(0, 0))
    {
      hide Sizes.Suffices, Sizes.Addressable, Sizes.Valid, Volume.Fits, Volume.FirstSector, Volume.Served,
           Volume.ReadLimit, ClusterBytes, OnlyIn, U32, Loaded;
      var z := vol.sizes;
      var limit := vol.ReadLimit();
      ReadLimitFacts(vol);
      ghost var none := Area(0, 0);
      ghost var area, s0 := Area(address, address + size + CHUNK), mem[..];
      var sector := 0;
      offset := start;
      NoSectors(0, z.logical);
      if good {
        NumberFits(vol, cluster);
        assert mem[..][address..address + start] == mem[address..address + start];
        LoadNothing(mem[..], address, done, ClusterBytes(vol, image, cluster));
      }
      OnlyInRefl(s0, area, none);
      while sector < vol.sectorsPerCluster
        invariant sector <= vol.sectorsPerCluster && offset == start + sector * z.logical
        invariant offset < size || (offset == 0 && sector == 0)
        invariant sector % limit == 0 || sector == vol.sectorsPerCluster
        invariant good ==> Holding(vol, cluster, address, offset, done)
        invariant OnlyIn(s0, mem[..], area, none, none)
      {
        var n, carry;
        n, offset, carry := NextChunk(vol, cluster, sector, limit, address, offset, size, good, done, s0);
        MulAdd(sector, n, z.logical);
        if carry {
          return Failed, offset;
        }
        sector := sector + n;
        if offset >= size {
          return Finished, offset;
        }
      }
      outcome := NextCluster;
    }

    /**
     Follows a chain until the file's size is reached or the chain ends. Whatever the table holds, it ends, because what
     is read only ever grows, and writes only to the file's place.
     */
    method ReadFile(vol: Volume, address: nat, first: nat, size: nat) returns (ok: bool)
      requires vol.Valid() && address + size + CHUNK <= mem.Length <= LIMIT_32
      modifies this`calls, mem
      ensures Followable(vol, image, first, size) && ok ==>
        HoldsFile(mem[..], address, size, Content(vol, image, first, size))
      ensures Followable(vol, image, first, size) && WholeDevice(vol) && Intact(vol, image, first, size) ==> ok
      ensures OnlyIn(old(mem[..]), mem[..], Area(address, address + size + CHUNK), Area(0, 0), Area(0, 0))
    {
      hide Sizes.Addressable, Sizes.Valid, Volume.Fits, Volume.FirstSector, Volume.Served, Volume.FatSector,
           Volume.TableSector, Volume.TableOffset, Volume.Continues, ClusterBytes, Entry, EntryRead, OnlyIn, Loaded,
           HoldsFile, Content, Followable, Intact;
      ghost var area, none, s0 := Area(address, address + size + CHUNK), Area(0, 0), mem[..];
      ghost var good, content := Followable(vol, image, first, size), Content(vol, image, first, size);
      ghost var done: seq<Byte> := [];
      var cluster, offset := first, 0;
      OnlyInRefl(s0, area, none);
      if good {
        TrackStarts(vol, image, first, size, mem[..], address);
      }
      while !vol.Ends(cluster)
        invariant offset < size || offset == 0
        invariant good ==> OnTrack(vol, image, first, size, cluster, mem[..], address, offset, done)
        invariant OnlyIn(s0, mem[..], area, none, none)
        decreases size - offset
      {
        ghost var s1 := mem[..];
        if good {
          StepFacts(vol, image, cluster, size - offset, done, content);
          assert s1[address..address + offset] == mem[address..address + offset];
        }
        var outcome, reached := ReadCluster(vol, address, cluster, size, offset, good, done);
        OnlyInPart(s0, s1, mem[..], area, area);
        if outcome == Failed {
          return false;
        }
        if good {
          LoadedPart(mem[..], address, reached, size, done + ClusterBytes(vol, image, cluster), content);
        }
        if outcome == Finished {
          return true;
        }
        ghost var next := Entry(vol, image, cluster);
        if good && next != 0 {
          TrackGoesOn(vol, image, first, size, cluster, s1, address, offset, done, mem[..]);
          done := done + ClusterBytes(vol, image, cluster);
        }
        offset := reached;
        if good {
          TablePlaceIs(vol, cluster);
          EntryReadIs(vol, image, cluster);
        }
        cluster := GetFatEntry(vol, cluster);
        if cluster == 0 {
          return false;
        }
      }
      if good {
        ChainEnds(vol, image, cluster, size - offset, mem[..], address, done, content, size);
      }
      ok := true;
    }
  }
}
