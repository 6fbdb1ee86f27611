/**
 Disk reads of the kernel: chunked sector reads through a transfer buffer (Common/Kernel/Disk/Bios/Bios.c)
 and reads of any byte range on top of them (Common/Kernel/Disk/Disk.c).
 */
module Disk {
  import opened Bits
  import opened RawMemory
  import opened DiskAreas
  import opened Products

  const TRANSFER_SIZE := 0xFE00

  datatype Method = Unknown | EfiBlockIo | Int13

  datatype Volume = Volume(kind: Method, isPartition: bool, partitionOffset: nat, alignment: nat,
                           bytesPerSector: nat, numSectors: nat)

  /** The machine that is read from: its memory, and a device whose calls may fail. */
  class Machine {
    const mem: array<Byte>
    const image: seq<Byte>           // contents of the device
    const sectorSize: nat            // of the device
    const numSectors: nat            // as the firmware reports it
    const transfer: nat              // where the firmware puts sectors
    const faults: nat -> bool        // which of the calls fail
    const enabled: bool              // is the disk subsystem initialised?
    const bootMethod: Method
    const cr3: nat
    const ioAlign: nat               // what the EFI firmware asks of a buffer's address
    const exactMoves: bool           // is Memmove right for all areas, or is it the kernel's own?
    var calls: nat

    constructor (mem: array<Byte>, image: seq<Byte>, sectorSize: nat, numSectors: nat, transfer: nat,
                 faults: nat -> bool, enabled: bool, bootMethod: Method, cr3: nat, ioAlign: nat, exactMoves: bool)
      requires transfer + TRANSFER_SIZE <= mem.Length && 512 <= sectorSize <= TRANSFER_SIZE && ioAlign > 0
      ensures Valid() && this.mem == mem && this.image == image && this.sectorSize == sectorSize
      ensures this.numSectors == numSectors && this.transfer == transfer && this.faults == faults
      ensures this.enabled == enabled && this.bootMethod == bootMethod && this.cr3 == cr3 && this.ioAlign == ioAlign
      ensures this.exactMoves == exactMoves
    {
      this.mem, this.image, this.sectorSize, this.numSectors := mem, image, sectorSize, numSectors;
      this.transfer, this.faults, this.enabled, this.bootMethod := transfer, faults, enabled, bootMethod;
      this.cr3, this.ioAlign, this.exactMoves, calls := cr3, ioAlign, exactMoves, 0;
    }

    ghost predicate Valid() {
      transfer + TRANSFER_SIZE <= mem.Length && 512 <= sectorSize <= TRANSFER_SIZE && ioAlign > 0
    }

    /** Nothing stands in the way of reading any sector of the volume. */
    ghost predicate Ready(vol: Volume) {
      && (forall k :: !faults(k)) && enabled && cr3 < 0xFFFF_0000 && vol.kind == bootMethod != Unknown
      && vol.numSectors <= numSectors && numSectors * sectorSize <= |image|
    }

    function TransferArea(): Area {
      Area(transfer, transfer + TRANSFER_SIZE)
    }

    method FetchBytes(to: nat, from: nat, n: nat)
      requires to + n <= mem.Length && from + n <= |image|
      modifies mem
      ensures Holds(mem[..], to, image, from, 0, n)
      ensures forall k | 0 <= k < mem.Length && !(to <= k < to + n) :: mem[k] == old(mem[k])
    {
      var i := 0;
      while i < n
        invariant 0 <= i <= n
        invariant forall k | to <= k < to + i :: mem[k] == image[k - to + from]
        invariant forall k | 0 <= k < mem.Length && !(to <= k < to + n) :: mem[k] == old(mem[k])
      {
        mem[to + i] := image[from + i];
        i := i + 1;
      }
    }

    /** The firmware call: reads sectors to the transfer buffer. */
    method CallInt13(lba: nat, count: nat) returns (result: nat)
      requires Valid() && count * sectorSize <= TRANSFER_SIZE
      modifies this`calls, mem
      ensures Valid()
      ensures result == 0 <==> !faults(old(calls)) && (lba + count) * sectorSize <= |image|
      ensures result == 0 ==> Holds(mem[..], transfer, image, lba * sectorSize, 0, count * sectorSize)
      ensures forall a, b :: OnlyIn(old(mem[..]), mem[..], a, b, TransferArea())
    {
      calls := calls + 1;
      if faults(calls - 1) || (lba + count) * sectorSize > |image| {
        return 1;
      }
      MulAdd(lba, count, sectorSize);
      FetchBytes(transfer, lba * sectorSize, count * sectorSize);
      result := 0;
    }

    /** Copies a chunk out of the transfer buffer, and compares the first eight bytes. */
    method CopyOut(address: nat, size: nat, ghost lba: nat, ghost start: nat, ghost from: nat, ghost done: nat)
      returns (ok: bool)
      requires Valid() && 8 <= size <= TRANSFER_SIZE && lba * sectorSize == from + done
      requires address == start + done && address + size <= mem.Length
      requires Apart(Area(start, address + size), TransferArea())
      requires Holds(mem[..], start, image, from, 0, done)
      requires Holds(mem[..], transfer, image, lba * sectorSize, 0, size)
      modifies mem
      ensures ok && Holds(mem[..], start, image, from, 0, done + size)
      ensures OnlyIn(old(mem[..]), mem[..], Area(start, address + size), TransferArea(), TransferArea())
    {
      hide Holds, OnlyIn, Overlay, Forward, Apart;
      ApartMeans(start, address, size);
      ghost var s1 := mem[..];
      assert mem[transfer..transfer + size] == s1[transfer..transfer + size];
      Memcpy(mem, address, transfer, size);
      CopyHolds(s1, mem[..], transfer, address, image, from, size, start, done);
      OverlayOnly(s1, address, s1[transfer..transfer + size], TransferArea());
      OnlyInGrow(s1, mem[..], Area(address, address + size), TransferArea(), Area(start, address + size),
                 TransferArea());
      PrefixEqual(mem[..], s1, address, transfer, size);
      assert mem[..][address..address + 8] == mem[address..address + 8];
      ok := mem[address..address + 8] == mem[transfer..transfer + 8];
    }

    lemma ApartMeans(start: nat, address: nat, size: nat)
      requires Valid() && size <= TRANSFER_SIZE && start <= address
      requires Apart(Area(start, address + size), TransferArea())
      ensures transfer + size <= address || address + size <= transfer
    {
    }

    /** One round of the chunk loop: a firmware call, and a copy out of the transfer buffer. */
    method ReadChunk(address: nat, lba: nat, count: nat, ghost start: nat, ghost from: nat, ghost done: nat)
      returns (ok: bool)
      requires Valid() && count > 0 && count * sectorSize <= TRANSFER_SIZE && lba * sectorSize == from + done
      requires address == start + done && address + count * sectorSize <= mem.Length
      requires Apart(Area(start, address + count * sectorSize), TransferArea())
      requires Holds(mem[..], start, image, from, 0, done)
      modifies this`calls, mem
      ensures Valid()
      ensures ok ==> Holds(mem[..], start, image, from, 0, done + count * sectorSize)
      ensures OnlyIn(old(mem[..]), mem[..], Area(start, address + count * sectorSize), TransferArea(), TransferArea())
      ensures !faults(old(calls)) && (lba + count) * sectorSize <= |image| ==> ok
    {
      hide Holds, OnlyIn;
      ghost var s0 := mem[..];
      ghost var dest := Area(start, address + count * sectorSize);
      AtLeastOne(count, sectorSize);
      var result := CallInt13(lba, count);
      ghost var s1 := mem[..];
      TransferOnly(s0, s1, start, image, from, done, dest, TransferArea());
      if result != 0 {
        return false;
      }
      ok := CopyOut(address, count * sectorSize, lba, start, from, done);
      OnlyInTrans(s0, s1, mem[..], dest, TransferArea(), TransferArea());
    }

    /** What has to be right for a sector read to be tried at all. */
    predicate Readable(address: nat, lba: nat, sectors: nat) {
      enabled && bootMethod == Int13 && address != 0 && sectors != 0 && lba + sectors <= numSectors && cr3 < 0xFFFF_0000
    }

    /** Sectors are read in chunks that fit the transfer buffer. */
    method ReadSectorsBios(address: nat, lba: nat, sectors: nat) returns (ok: bool)
      requires Valid() && address + sectors * sectorSize <= mem.Length
      requires Apart(Area(address, address + sectors * sectorSize), TransferArea())
      modifies this`calls, mem
      ensures Valid()
      ensures !Readable(address, lba, sectors) ==> !ok && mem[..] == old(mem[..])
      ensures ok ==> Holds(mem[..], address, image, lba * sectorSize, 0, sectors * sectorSize)
      ensures OnlyIn(old(mem[..]), mem[..], Area(address, address + sectors * sectorSize), TransferArea(),
                     TransferArea())
      ensures (forall k :: !faults(k)) && Readable(address, lba, sectors) && (lba + sectors) * sectorSize <= |image|
        ==> ok
    {
      hide Holds;
      if !enabled {
        return false;
      } else if bootMethod != Int13 {
        return false;
      }
      if address == 0 {
        return false;
      } else if sectors == 0 {
        return false;
      } else if lba + sectors > numSectors {
        return false;
      }
      if cr3 >= 0xFFFF_0000 {
        return false;
      }
      ok := ReadChunks(address, lba, sectors);
    }

    method ReadChunks(address: nat, lba: nat, sectors: nat) returns (ok: bool)
      requires Valid() && address + sectors * sectorSize <= mem.Length
      requires Apart(Area(address, address + sectors * sectorSize), TransferArea())
      modifies this`calls, mem
      ensures Valid()
      ensures ok ==> Holds(mem[..], address, image, lba * sectorSize, 0, sectors * sectorSize)
      ensures OnlyIn(old(mem[..]), mem[..], Area(address, address + sectors * sectorSize), TransferArea(),
                     TransferArea())
      ensures (forall k :: !faults(k)) && (lba + sectors) * sectorSize <= |image| ==> ok
    {
      hide Holds, OnlyIn;
      var perRead := TRANSFER_SIZE / sectorSize;
      PerReadIsPositive(sectorSize);
      var at: nat, cur: nat, left: nat := address, lba, sectors;
      ghost var done: nat, total, from := 0, sectors * sectorSize, lba * sectorSize;
      NothingHolds(mem[..], address, image, from);
      OnlyInRefl(mem[..], Area(address, address + total), TransferArea());
      NoSectors(0, sectorSize);
      while left > 0
        invariant Valid() && left <= sectors && cur + left == lba + sectors
        invariant at == address + done && done + left * sectorSize == total && cur * sectorSize == from + done
        invariant Holds(mem[..], address, image, from, 0, done)
        invariant OnlyIn(old(mem[..]), mem[..], Area(address, address + total), TransferArea(), TransferArea())
      {
        var count := if left >= perRead then perRead else left;
        ChunkFits(count, sectorSize);
        SplitProduct(left, count, sectorSize);
        MulAdd(cur, count, sectorSize);
        MulMonotone(cur + count, lba + sectors, sectorSize);
        ghost var s1 := mem[..];
        ok := ReadChunk(at, cur, count, address, from, done);
        OnlyInMerge(old(mem[..]), s1, mem[..], Area(address, address + total),
                    Area(address, at + count * sectorSize), Area(address, address + total), TransferArea());
        if !ok {
          return;
        }
        at := at + count * sectorSize;
        done := done + count * sectorSize;
        cur := cur + count;
        left := left - count;
      }
      NoSectors(left, sectorSize);
      ok := true;
    }

    // EFI: one firmware call, straight to where the bytes are wanted

    method ReadSectorsEfi(address: nat, lba: nat, sectors: nat) returns (ok: bool)
      requires Valid() && address + sectors * sectorSize <= mem.Length
      modifies this`calls, mem
      ensures Valid()
      ensures !enabled || bootMethod != EfiBlockIo || address == 0 || sectors == 0 ==> !ok && mem[..] == old(mem[..])
      ensures ok ==> Holds(mem[..], address, image, lba * sectorSize, 0, sectors * sectorSize)
      ensures OnlyIn(old(mem[..]), mem[..], Area(address, address + sectors * sectorSize), TransferArea(),
                     TransferArea())
      ensures (forall k :: !faults(k)) && enabled && bootMethod == EfiBlockIo ==>
        address != 0 && sectors != 0 && address % ioAlign == 0 && (lba + sectors) * sectorSize <= |image| ==> ok
    {
      if sectors == 0 {
        return false;
      } else if address == 0 {
        return false;
      }
      if !enabled {
        return false;
      } else if bootMethod != EfiBlockIo {
        return false;
      }
      calls := calls + 1;
      if faults(calls - 1) || address % ioAlign != 0 || (lba + sectors) * sectorSize > |image| {
        return false;
      }
      MulAdd(lba, sectors, sectorSize);
      FetchBytes(address, lba * sectorSize, sectors * sectorSize);
      ok := true;
    }

    /** Sectors of a volume, by whatever way leads to them. */
    method ReadSectors(vol: Volume, address: nat, lba: nat, sectors: nat) returns (ok: bool)
      requires Valid() && address + sectors * sectorSize <= mem.Length
      requires Apart(Area(address, address + sectors * sectorSize), TransferArea())
      modifies this`calls, mem
      ensures Valid()
      ensures ok ==> enabled && vol.kind == bootMethod != Unknown
      ensures ok ==> Holds(mem[..], address, image, lba * sectorSize, 0, sectors * sectorSize)
      ensures OnlyIn(old(mem[..]), mem[..], Area(address, address + sectors * sectorSize), TransferArea(),
                     TransferArea())
      ensures Ready(vol) && address != 0 && sectors != 0 && lba + sectors <= vol.numSectors && address % ioAlign == 0
        ==> ok
    {
      hide Holds, OnlyIn;
      if Ready(vol) && lba + sectors <= vol.numSectors {
        MulMonotone(lba + sectors, numSectors, sectorSize);
      }
      if vol.kind == EfiBlockIo {
        ok := ReadSectorsEfi(address, lba, sectors);
      } else if vol.kind == Int13 {
        ok := ReadSectorsBios(address, lba, sectors);
      } else {
        OnlyInRefl(mem[..], Area(address, address + sectors * sectorSize), TransferArea());
        ok := false;
      }
    }

    // Reads of any byte range

    function Scratch(alloc: nat -> nat, n: nat): Area {
      Area(alloc(n), alloc(n) + n)
    }

    /** What the allocator gives out lies in memory, and apart from all that is in use. */
    ghost predicate Usable(alloc: nat -> nat, n: nat, buffer: Area) {
      && alloc(n) + n <= mem.Length && Apart(buffer, Scratch(alloc, n)) && Apart(Scratch(alloc, n), TransferArea())
    }

    ghost predicate Allocates(alloc: nat -> nat, buffer: Area) {
      forall n :: alloc(n) != 0 ==> Usable(alloc, n, buffer)
    }

    /** Can these areas be moved? */
    predicate Carries(to: nat, source: nat, size: nat) {
      exactMoves || to <= source || to - source < FALLBACK || size <= to - source
    }

    /** Moves bytes of the device to where they are wanted; the two places may overlap. */
    method MoveHeld(to: nat, source: nat, size: nat, ghost from: nat)
      requires Valid() && to + size <= mem.Length && Holds(mem[..], source, image, from, 0, size)
      modifies mem
      ensures Carries(to, source, size) ==> Holds(mem[..], to, image, from, 0, size)
      ensures !Carries(to, source, size) ==>
        source < to && Holds(mem[..], to, Echo(image, from, from + size, to - source), from, 0, size)
      ensures OnlyIn(old(mem[..]), mem[..], Area(to, to + size), TransferArea(), TransferArea())
    {
      hide Overlay, OnlyIn, KernelMoved;
      ghost var s := mem[..];
      assert mem[source..source + size] == s[source..source + size];
      if exactMoves {
        Memmove(mem, to, source, size);
      } else {
        KernelMemmove(mem, to, source, size);
      }
      CopiedAcross(s, source, to, image, from, 0, size);
      OverlayOnly(s, to, s[source..source + size], TransferArea());
      MovedOnly(s, to, source, size, TransferArea());
      if !Carries(to, source, size) {
        MovedEchoes(s, to, source, image, from, size);
      }
    }

    method CopyHeld(to: nat, source: nat, size: nat, ghost bytes: seq<Byte>, ghost from: nat)
      requires Valid() && to + size <= mem.Length && Holds(mem[..], source, bytes, from, 0, size)
      requires Apart(Area(source, source + size), Area(to, to + size))
      modifies mem
      ensures Holds(mem[..], to, bytes, from, 0, size)
      ensures OnlyIn(old(mem[..]), mem[..], Area(to, to + size), TransferArea(), TransferArea())
    {
      hide Overlay, OnlyIn, Forward;
      ghost var s := mem[..];
      assert mem[source..source + size] == s[source..source + size];
      Memcpy(mem, to, source, size);
      CopiedAcross(s, source, to, bytes, from, 0, size);
      OverlayOnly(s, to, s[source..source + size], TransferArea());
    }

    /** Areas that are apart can always be moved. */
    lemma ApartCarries(to: nat, source: nat, size: nat, area: Area, temp: Area)
      requires Apart(area, temp) && area == Area(to, to + size) && temp.from <= source && source + size <= temp.to
      ensures Carries(to, source, size)
    {
    }

    /** The wanted bytes of sectors that were read elsewhere. */
    method TakeFrom(buffer: nat, address: nat, p: Plan, num: nat, size: nat, ghost temp: Area)
      requires Valid() && size > 0 && p == PlanFor(p.start, size, sectorSize) && num == 1 + p.last - p.first
      requires buffer + size <= mem.Length && Apart(Area(buffer, buffer + size), temp)
      requires temp.from <= address && address + num * sectorSize <= temp.to
      requires Holds(mem[..], address, image, p.first * sectorSize, 0, num * sectorSize)
      modifies mem
      ensures Holds(mem[..], buffer, image, p.start, 0, size)
      ensures OnlyIn(old(mem[..]), mem[..], Area(buffer, buffer + size), TransferArea(), TransferArea())
    {
      hide Holds, OnlyIn, Overlay, Apart, PlanFor;
      PlanFacts(p.start, size, sectorSize);
      MulAdd(p.last - p.first, 1, sectorSize);
      ghost var from := p.first * sectorSize;
      HoldsPart(mem[..], address, image, from, 0, num * sectorSize, p.head, p.head + size);
      HoldsFrom(mem[..], address, image, from, p.head, size);
      ApartCarries(buffer, address + p.head, size, Area(buffer, buffer + size), temp);
      MoveHeld(buffer, address + p.head, size, p.start);
    }

    /** What a read by way of another buffer allocates: the sectors, and room to align them. */
    function CopySize(vol: Volume, p: Plan): nat {
      ioAlign + if p.first <= p.last then (1 + p.last - p.first) * vol.bytesPerSector else 0
    }

    /** A read that is not aligned, or a short one, goes through an allocated buffer. */
    method ReadByCopy(vol: Volume, buffer: nat, p: Plan, size: nat, alloc: nat -> nat, freeOk: bool)
      returns (ok: bool, ghost want: nat)
      requires Valid() && vol.bytesPerSector == sectorSize && size > 0 && Pow2(vol.alignment) == ioAlign
      requires p == PlanFor(p.start, size, sectorSize)
      requires buffer + size <= mem.Length && Apart(Area(buffer, buffer + size), TransferArea())
      requires Allocates(alloc, Area(buffer, buffer + size))
      modifies this`calls, mem
      ensures Valid()
      ensures ok ==> Holds(mem[..], buffer, image, p.start, 0, size)
      ensures OnlyIn(old(mem[..]), mem[..], Area(buffer, buffer + size), Scratch(alloc, want), TransferArea())
      ensures want > 0 ==> alloc(want) != 0
      ensures Ready(vol) && p.last < vol.numSectors && alloc(CopySize(vol, p)) != 0 && freeOk ==> ok
    {
      hide Holds, OnlyIn, Overlay, Pow2;
      PlanFacts(p.start, size, sectorSize);
      var align := Pow2(vol.alignment);
      var num := 1 + p.last - p.first;
      var tempSize := align + num * vol.bytesPerSector;
      ghost var area := Area(buffer, buffer + size);
      ghost var s0 := mem[..];
      var pointer := alloc(tempSize);
      if pointer == 0 {
        OnlyInRefl(s0, area, TransferArea());
        OnlyInGrow(s0, s0, area, TransferArea(), area, Scratch(alloc, 0));
        return false, 0;
      }
      assert Usable(alloc, tempSize, area);
      want := tempSize;
      ghost var temp := Scratch(alloc, tempSize);
      var address := pointer;
      if address % align > 0 {
        address := address + (align - address % align);
      }
      RoundedUp(pointer, align, address);
      ok := ReadSectors(vol, address, p.first, num);
      ghost var s1 := mem[..];
      OnlyInGrow(s0, s1, Area(address, address + num * sectorSize), TransferArea(), area, temp);
      if ok {
        TakeFrom(buffer, address, p, num, size, temp);
        OnlyInGrow(s1, mem[..], area, TransferArea(), area, temp);
        OnlyInTrans(s0, s1, mem[..], area, temp, TransferArea());
      }
      ok := ok && freeOk;
    }

    /** The last, partly wanted sector: read to the front of the buffer, then copied to its end. */
    method ReadTail(vol: Volume, buffer: nat, p: Plan, size: nat) returns (ok: bool)
      requires Valid() && size > 0 && p == PlanFor(p.start, size, sectorSize) && p.last >= p.first + 2
      requires buffer + size <= mem.Length && Apart(Area(buffer, buffer + size), TransferArea())
      modifies this`calls, mem
      ensures Valid()
      ensures ok ==> p.tail <= size && Holds(mem[..], buffer, image, p.start, size - p.tail, size)
      ensures OnlyIn(old(mem[..]), mem[..], Area(buffer, buffer + size), TransferArea(), TransferArea())
      ensures Ready(vol) && p.last < vol.numSectors && buffer != 0 && buffer % ioAlign == 0 ==> ok
    {
      hide Holds, OnlyIn, Overlay;
      PlanFacts(p.start, size, sectorSize);
      LongEnough(p.last - p.first, sectorSize);
      ghost var area := Area(buffer, buffer + size);
      ghost var s0 := mem[..];
      ok := ReadSectors(vol, buffer, p.last, 1);
      ghost var s1 := mem[..];
      OnlyInGrow(s0, s1, Area(buffer, buffer + sectorSize), TransferArea(), area, TransferArea());
      if ok {
        HoldsPart(s1, buffer, image, p.last * sectorSize, 0, sectorSize, 0, p.tail);
        CopyHeld(buffer + size - p.tail, buffer, p.tail, image, p.last * sectorSize);
        HoldsShift(mem[..], buffer, image, p.start, size - p.tail, p.tail);
        OnlyInGrow(s1, mem[..], Area(buffer + size - p.tail, buffer + size), TransferArea(), area, TransferArea());
        OnlyInTrans(s0, s1, mem[..], area, TransferArea(), TransferArea());
      }
    }

    /** The device's bytes as they come out when those from lo to hi are moved up by d. */
    function Moved(lo: nat, hi: nat, d: nat): seq<Byte> {
      if exactMoves || d < FALLBACK || hi <= lo + d then image else Echo(image, lo, hi, d)
    }

    /** What was read to the front of the buffer moves up to its place. */
    method MoveUp(buffer: nat, d: nat, n: nat, ghost start: nat, ghost end: nat, ghost size: nat)
      requires Valid() && d + n == end <= size && buffer + size <= mem.Length
      requires Apart(Area(buffer, buffer + size), TransferArea())
      requires Holds(mem[..], buffer, image, start + d, 0, n)
      requires Holds(mem[..], buffer, image, start, end, size)
      modifies mem
      ensures Holds(mem[..], buffer, Moved(start + d, start + end, d), start, d, size)
      ensures OnlyIn(old(mem[..]), mem[..], Area(buffer, buffer + size), TransferArea(), TransferArea())
    {
      hide Holds, OnlyIn, Overlay, Apart, Echo;
      ghost var area, t := Area(buffer, buffer + size), TransferArea();
      ghost var moved, rest := Area(buffer + d, buffer + d + n), Area(buffer + d + n, buffer + size);
      ghost var s := mem[..];
      ApartPart(area, t, rest);
      ApartOrdered(moved, rest);
      MoveHeld(buffer + d, buffer, n, start + d);
      HoldsKept(s, mem[..], buffer, image, start, d + n, size, moved, t);
      ghost var bytes := Moved(start + d, start + end, d);
      HoldsShift(mem[..], buffer, bytes, start, d, n);
      if !Carries(buffer + d, buffer, n) {
        EchoElsewhere(mem[..], buffer, image, start, end, size, start + d, start + end, d);
      }
      HoldsJoin(mem[..], buffer, bytes, start, d, d + n, size);
      OnlyInGrow(s, mem[..], moved, t, area, t);
    }

    /** All sectors but the first, read to the front of the buffer and moved up to their place. */
    method ReadBody(vol: Volume, buffer: nat, p: Plan, num: nat, size: nat, ghost end: nat) returns (ok: bool)
      requires Valid() && num >= 2 && 0 < p.head < sectorSize
      requires p.start == p.first * sectorSize + p.head
      requires num * sectorSize == p.head + end && end <= size
      requires buffer + size <= mem.Length && Apart(Area(buffer, buffer + size), TransferArea())
      requires Holds(mem[..], buffer, image, p.start, end, size)
      modifies this`calls, mem
      ensures Valid()
      ensures ok ==>
        var d := sectorSize - p.head;
        Holds(mem[..], buffer, Moved(p.start + d, p.start + end, d), p.start, d, size)
      ensures OnlyIn(old(mem[..]), mem[..], Area(buffer, buffer + size), TransferArea(), TransferArea())
      ensures Ready(vol) && p.first + num <= vol.numSectors && buffer != 0 && buffer % ioAlign == 0 ==> ok
    {
      hide Holds, OnlyIn, Overlay, Apart, Echo, Machine.Moved;
      ghost var area, t := Area(buffer, buffer + size), TransferArea();
      ghost var s0 := mem[..];
      MulAdd(num - 1, 1, sectorSize);
      MulAdd(p.first, 1, sectorSize);
      var d, n := sectorSize - p.head, (num - 1) * sectorSize;
      ghost var read, rest := Area(buffer, buffer + n), Area(buffer + end, buffer + size);
      ApartPart(area, t, read);
      ApartPart(area, t, rest);
      ApartOrdered(read, rest);
      ok := ReadSectors(vol, buffer, p.first + 1, num - 1);
      ghost var s1 := mem[..];
      OnlyInGrow(s0, s1, read, t, area, t);
      if ok {
        HoldsKept(s0, s1, buffer, image, p.start, end, size, read, t);
        MoveUp(buffer, d, n, p.start, end, size);
        OnlyInTrans(s0, s1, mem[..], area, t, t);
      }
    }

    /** The first sector, read over what follows it; a saved copy then makes good what it overwrote. */
    method ReadHead(vol: Volume, buffer: nat, p: Plan, size: nat, temp: nat, ghost rest: seq<Byte>) returns (ok: bool)
      requires Valid() && 0 < p.head < sectorSize < size
      requires p.start == p.first * sectorSize + p.head
      requires buffer + size <= mem.Length && Apart(Area(buffer, buffer + size), TransferArea())
      requires temp + sectorSize <= mem.Length && Apart(Area(buffer, buffer + size), Area(temp, temp + sectorSize))
      requires Apart(Area(temp, temp + sectorSize), TransferArea())
      requires Holds(mem[..], buffer, rest, 0, sectorSize - p.head, size)
      modifies this`calls, mem
      ensures Valid()
      ensures ok ==> Holds(mem[..], buffer, image, p.start, 0, sectorSize - p.head)
      ensures ok ==> Holds(mem[..], buffer, rest, 0, sectorSize - p.head, size)
      ensures OnlyIn(old(mem[..]), mem[..], Area(buffer, buffer + size), Area(temp, temp + sectorSize), TransferArea())
      ensures Ready(vol) && p.first < vol.numSectors && buffer != 0 && buffer % ioAlign == 0 ==> ok
    {
      hide Holds, OnlyIn, Overlay, Apart;
      ghost var area, saved, t := Area(buffer, buffer + size), Area(temp, temp + sectorSize), TransferArea();
      ghost var front := Area(buffer, buffer + sectorSize);
      ghost var s0 := mem[..];
      var d := sectorSize - p.head;
      ghost var behind, kept := Area(buffer + sectorSize, buffer + size), Area(temp + d, temp + sectorSize);
      ApartPart(area, t, front);
      ApartPart(area, t, behind);
      ApartOrdered(front, behind);
      ApartPart(area, saved, front);
      ApartPart(saved, front, kept);
      ApartPart(saved, t, kept);
      SaveFront(buffer, temp, rest, d, size);
      ghost var s1 := mem[..];
      OnlyInGrow(s0, s1, saved, t, area, saved);
      ok := ReadSectors(vol, buffer, p.first, 1);
      ghost var s2 := mem[..];
      OnlyInGrow(s1, s2, front, t, area, saved);
      OnlyInTrans(s0, s1, s2, area, saved, t);
      if ok {
        HoldsPart(s1, buffer, rest, 0, d, size, sectorSize, size);
        HoldsKept(s1, s2, buffer, rest, 0, sectorSize, size, front, t);
        HoldsKept(s1, s2, temp, rest, 0, d, sectorSize, front, t);
        JoinFront(buffer, temp, p.head, p.first * sectorSize, rest, size);
        ghost var s3 := mem[..];
        OnlyInGrow(s2, s3, front, t, area, saved);
        OnlyInTrans(s0, s2, s3, area, saved, t);
      }
    }

    /** Keeps a copy of the first sector's worth of the buffer. */
    method SaveFront(buffer: nat, temp: nat, ghost rest: seq<Byte>, ghost d: nat, ghost size: nat)
      requires Valid() && d <= sectorSize < size && buffer + size <= mem.Length && temp + sectorSize <= mem.Length
      requires Apart(Area(buffer, buffer + size), Area(temp, temp + sectorSize))
      requires Apart(Area(buffer, buffer + size), TransferArea())
      requires Holds(mem[..], buffer, rest, 0, d, size)
      modifies mem
      ensures Holds(mem[..], temp, rest, 0, d, sectorSize) && Holds(mem[..], buffer, rest, 0, d, size)
      ensures OnlyIn(old(mem[..]), mem[..], Area(temp, temp + sectorSize), TransferArea(), TransferArea())
    {
      hide Holds, OnlyIn, Overlay, Forward;
      ghost var s := mem[..];
      assert mem[buffer..buffer + sectorSize] == s[buffer..buffer + sectorSize];
      Memcpy(mem, temp, buffer, sectorSize);
      HoldsPart(s, buffer, rest, 0, d, size, d, sectorSize);
      CopiedPart(s, buffer, temp, rest, 0, d, sectorSize, sectorSize);
      OverlayOnly(s, temp, s[buffer..buffer + sectorSize], TransferArea());
      HoldsKept(s, mem[..], buffer, rest, 0, d, size, Area(temp, temp + sectorSize), TransferArea());
    }

    /** Bytes that were overwritten come back from the saved copy. */
    method FillIn(buffer: nat, temp: nat, d: nat, n: nat, ghost start: nat, ghost rest: seq<Byte>, ghost size: nat)
      requires Valid() && d + n <= size && buffer + size <= mem.Length && temp + d + n <= mem.Length
      requires Apart(Area(buffer, buffer + size), TransferArea())
      requires Apart(Area(buffer, buffer + size), Area(temp, temp + d + n))
      requires Holds(mem[..], buffer, image, start, 0, d) && Holds(mem[..], temp, rest, 0, d, d + n)
      requires Holds(mem[..], buffer, rest, 0, d + n, size)
      modifies mem
      ensures Holds(mem[..], buffer, image, start, 0, d) && Holds(mem[..], buffer, rest, 0, d, size)
      ensures OnlyIn(old(mem[..]), mem[..], Area(buffer, buffer + d + n), TransferArea(), TransferArea())
    {
      hide Holds, OnlyIn, Overlay, Apart;
      ghost var area, saved, t := Area(buffer, buffer + size), Area(temp, temp + d + n), TransferArea();
      ghost var low, high := Area(buffer, buffer + d), Area(buffer + d, buffer + d + n);
      ghost var behind := Area(buffer + d + n, buffer + size);
      ghost var s := mem[..];
      ApartPart(area, t, low);
      ApartPart(area, t, behind);
      ApartOrdered(low, high);
      ApartOrdered(high, behind);
      ApartPart(area, saved, high);
      ApartPart(saved, high, Area(temp + d, temp + d + n));
      HoldsFrom(s, temp, rest, 0, d, n);
      CopyHeld(buffer + d, temp + d, n, rest, d);
      HoldsShift(mem[..], buffer, rest, 0, d, n);
      HoldsKept(s, mem[..], buffer, image, start, 0, d, high, t);
      HoldsKept(s, mem[..], buffer, rest, 0, d + n, size, high, t);
      HoldsJoin(mem[..], buffer, rest, 0, d, d + n, size);
      OnlyInGrow(s, mem[..], high, t, Area(buffer, buffer + d + n), t);
    }

    /** The wanted end of the first sector moves to the front, and the saved bytes follow it. */
    method JoinFront(buffer: nat, temp: nat, head: nat, ghost from: nat, ghost rest: seq<Byte>, ghost size: nat)
      requires Valid() && 0 < head < sectorSize < size
      requires buffer + size <= mem.Length && temp + sectorSize <= mem.Length
      requires Apart(Area(buffer, buffer + size), TransferArea())
      requires Apart(Area(buffer, buffer + size), Area(temp, temp + sectorSize))
      requires Apart(Area(temp, temp + sectorSize), TransferArea())
      requires Holds(mem[..], buffer, image, from, 0, sectorSize)
      requires Holds(mem[..], temp, rest, 0, sectorSize - head, sectorSize)
      requires Holds(mem[..], buffer, rest, 0, sectorSize, size)
      modifies mem
      ensures Holds(mem[..], buffer, image, from + head, 0, sectorSize - head)
      ensures Holds(mem[..], buffer, rest, 0, sectorSize - head, size)
      ensures OnlyIn(old(mem[..]), mem[..], Area(buffer, buffer + sectorSize), TransferArea(), TransferArea())
    {
      hide Holds, OnlyIn, Overlay, Apart;
      ghost var area, saved, t := Area(buffer, buffer + size), Area(temp, temp + sectorSize), TransferArea();
      var d := sectorSize - head;
      ghost var low, front := Area(buffer, buffer + d), Area(buffer, buffer + sectorSize);
      ghost var behind := Area(buffer + sectorSize, buffer + size);
      ghost var s := mem[..];
      ApartPart(area, t, behind);
      ApartOrdered(low, behind);
      ApartPart(area, saved, low);
      ApartPart(saved, low, Area(temp + d, temp + sectorSize));
      ApartPart(saved, t, Area(temp + d, temp + sectorSize));
      HoldsPart(s, buffer, image, from, 0, sectorSize, head, head + d);
      HoldsFrom(s, buffer, image, from, head, d);
      MoveHeld(buffer, buffer + head, d, from + head);
      ghost var s1 := mem[..];
      HoldsKept(s, s1, temp, rest, 0, d, sectorSize, low, t);
      HoldsKept(s, s1, buffer, rest, 0, sectorSize, size, low, t);
      FillIn(buffer, temp, d, head, from + head, rest, size);
      OnlyInGrow(s, s1, low, t, front, t);
      OnlyInTrans(s, s1, mem[..], front, t, t);
    }

    /** All that is still missing, when it starts at a sector: read straight to the buffer. */
    method ReadRest(vol: Volume, buffer: nat, p: Plan, num: nat, size: nat, ghost end: nat) returns (ok: bool)
      requires Valid() && num >= 2 && p.head == 0
      requires p.start == p.first * sectorSize
      requires num * sectorSize == end && end <= size
      requires buffer + size <= mem.Length && Apart(Area(buffer, buffer + size), TransferArea())
      requires Holds(mem[..], buffer, image, p.start, end, size)
      modifies this`calls, mem
      ensures Valid()
      ensures ok ==> Holds(mem[..], buffer, image, p.start, 0, size)
      ensures OnlyIn(old(mem[..]), mem[..], Area(buffer, buffer + size), TransferArea(), TransferArea())
      ensures Ready(vol) && p.first + num <= vol.numSectors && buffer != 0 && buffer % ioAlign == 0 ==> ok
    {
      hide Holds, OnlyIn, Apart;
      ghost var area, t := Area(buffer, buffer + size), TransferArea();
      ghost var read, rest := Area(buffer, buffer + end), Area(buffer + end, buffer + size);
      ghost var s := mem[..];
      ApartPart(area, t, read);
      ApartPart(area, t, rest);
      ApartOrdered(read, rest);
      ok := ReadSectors(vol, buffer, p.first, num);
      OnlyInGrow(s, mem[..], read, t, area, t);
      if ok {
        HoldsKept(s, mem[..], buffer, image, p.start, end, size, read, t);
        HoldsJoin(mem[..], buffer, image, p.start, 0, end, size);
      }
    }

    /** The first sector of an aligned read, with an allocated place for the bytes it overwrites. */
    method ReadFirst(vol: Volume, buffer: nat, p: Plan, size: nat, alloc: nat -> nat, freeOk: bool,
                     ghost rest: seq<Byte>)
      returns (ok: bool, ghost want: nat)
      requires Valid() && 0 < p.head < sectorSize < size
      requires p.start == p.first * sectorSize + p.head
      requires vol.bytesPerSector == sectorSize
      requires buffer + size <= mem.Length && Apart(Area(buffer, buffer + size), TransferArea())
      requires Allocates(alloc, Area(buffer, buffer + size))
      requires Holds(mem[..], buffer, rest, 0, sectorSize - p.head, size)
      modifies this`calls, mem
      ensures Valid()
      ensures ok ==> Holds(mem[..], buffer, image, p.start, 0, sectorSize - p.head)
      ensures ok ==> Holds(mem[..], buffer, rest, 0, sectorSize - p.head, size)
      ensures OnlyIn(old(mem[..]), mem[..], Area(buffer, buffer + size), Scratch(alloc, want), TransferArea())
      ensures want > 0 ==> alloc(want) != 0
      ensures Ready(vol) && alloc(sectorSize) != 0 && freeOk ==>
        p.first < vol.numSectors && buffer != 0 && buffer % ioAlign == 0 ==> ok
    {
      hide Holds, OnlyIn, Apart;
      ghost var s, area, t := mem[..], Area(buffer, buffer + size), TransferArea();
      var temp := alloc(vol.bytesPerSector);
      if temp == 0 {
        OnlyInRefl(s, area, t);
        OnlyInGrow(s, s, area, t, area, Scratch(alloc, 0));
        return false, 0;
      }
      assert Usable(alloc, sectorSize, area);
      want := sectorSize;
      ok := ReadHead(vol, buffer, p, size, temp, rest);
      ok := ok && freeOk;
    }

    /** The one move in place that overlaps: from the front of the buffer to behind the first sector's part. */
    predicate MoveFits(p: Plan) {
      exactMoves || p.head == 0 || sectorSize - p.head < FALLBACK
    }

    /** All that is still missing, when it starts within a sector: in two parts, the first sector last. */
    method ReadParts(vol: Volume, buffer: nat, p: Plan, num: nat, size: nat, ghost end: nat, alloc: nat -> nat,
                     freeOk: bool)
      returns (ok: bool, ghost want: nat)
      requires Valid() && vol.bytesPerSector == sectorSize && num >= 2 && 0 < p.head < sectorSize < size
      requires p.start == p.first * sectorSize + p.head && num * sectorSize == p.head + end && end <= size
      requires buffer + size <= mem.Length && Apart(Area(buffer, buffer + size), TransferArea())
      requires Allocates(alloc, Area(buffer, buffer + size))
      requires Holds(mem[..], buffer, image, p.start, end, size)
      modifies this`calls, mem
      ensures Valid()
      ensures ok ==>
        var d := sectorSize - p.head;
        Holds(mem[..], buffer, Moved(p.start + d, p.start + end, d), p.start, 0, size)
      ensures OnlyIn(old(mem[..]), mem[..], Area(buffer, buffer + size), Scratch(alloc, want), TransferArea())
      ensures want > 0 ==> alloc(want) != 0
      ensures Ready(vol) && alloc(sectorSize) != 0 && freeOk ==>
        p.first + num <= vol.numSectors && buffer != 0 && buffer % ioAlign == 0 ==> ok
    {
      hide Holds, OnlyIn, Apart, Allocates, Echo;
      ghost var s, area, t := mem[..], Area(buffer, buffer + size), TransferArea();
      want := 0;
      ok := ReadBody(vol, buffer, p, num, size, end);
      ghost var s2 := mem[..];
      OnlyInGrow(s, s2, area, t, area, Scratch(alloc, 0));
      if !ok {
        return;
      }
      var d := sectorSize - p.head;
      ghost var rest := s2[buffer..buffer + size];
      HoldsItself(s2, buffer, size, d);
      ok, want := ReadFirst(vol, buffer, p, size, alloc, freeOk, rest);
      if ok {
        ghost var bytes := Moved(p.start + d, p.start + end, d);
        HoldsAgain(s2, mem[..], buffer, rest, bytes, p.start, d, size);
        EchoElsewhere(mem[..], buffer, image, p.start, 0, d, p.start + d, p.start + end, d);
        HoldsJoin(mem[..], buffer, bytes, p.start, 0, d, size);
      }
      OnlyInGrow(s, s2, area, t, area, Scratch(alloc, want));
      OnlyInTrans(s, s2, mem[..], area, Scratch(alloc, want), t);
    }

    /** A read of three sectors or more to an aligned buffer, which serves as its own transfer buffer. */
    method ReadInPlace(vol: Volume, buffer: nat, p: Plan, size: nat, alloc: nat -> nat, freeOk: bool)
      returns (ok: bool, ghost want: nat)
      requires Valid() && vol.bytesPerSector == sectorSize && size > 0
      requires p == PlanFor(p.start, size, sectorSize) && p.last >= p.first + 2
      requires buffer + size <= mem.Length && Apart(Area(buffer, buffer + size), TransferArea())
      requires Allocates(alloc, Area(buffer, buffer + size))
      modifies this`calls, mem
      ensures Valid()
      ensures ok ==> Holds(mem[..], buffer, Shown(image, p, size, sectorSize, MoveFits(p)), p.start, 0, size)
      ensures OnlyIn(old(mem[..]), mem[..], Area(buffer, buffer + size), Scratch(alloc, want), TransferArea())
      ensures want > 0 ==> alloc(want) != 0
      ensures Ready(vol) && (p.head == 0 || alloc(sectorSize) != 0) && freeOk ==>
        p.last < vol.numSectors && buffer != 0 && buffer % ioAlign == 0 ==> ok
    {
      hide Holds, OnlyIn, Apart, PlanFor, Allocates, Echo;
      PlanFacts(p.start, size, sectorSize);
      LongEnough(p.last - p.first, sectorSize);
      MulAdd(p.last - p.first, 1, sectorSize);
      ghost var s0, area, t := mem[..], Area(buffer, buffer + size), TransferArea();
      var num := 1 + p.last - p.first;
      ghost var end := size;
      want := 0;
      if p.tail != vol.bytesPerSector {
        ok := ReadTail(vol, buffer, p, size);
        OnlyInGrow(s0, mem[..], area, t, area, Scratch(alloc, 0));
        if !ok {
          return;
        }
        num := num - 1;
        end := size - p.tail;
      } else {
        OnlyInRefl(s0, area, t);
        HoldsNothing(s0, buffer, image, p.start, size);
      }
      ghost var s1 := mem[..];
      if p.head != 0 {
        ok, want := ReadParts(vol, buffer, p, num, size, end, alloc, freeOk);
        OnlyInGrow(s0, s1, area, t, area, Scratch(alloc, want));
        OnlyInTrans(s0, s1, mem[..], area, Scratch(alloc, want), t);
      } else {
        ok := ReadRest(vol, buffer, p, num, size, end);
        OnlyInTrans(s0, s1, mem[..], area, t, t);
        OnlyInGrow(s0, mem[..], area, t, area, Scratch(alloc, 0));
      }
    }

    /** Where the read starts on the device. */
    static function Position(vol: Volume, offset: nat): nat {
      offset + if vol.isPartition then vol.bytesPerSector * vol.partitionOffset else 0
    }

    /** The bounds check: the last sector, counted on the device, against the volume's number of sectors. */
    static predicate InBounds(vol: Volume, offset: nat, size: nat)
      requires vol.bytesPerSector > 0 && size > 0
    {
      PlanFor(Position(vol, offset), size, vol.bytesPerSector).last < vol.numSectors
    }

    function PlanOf(vol: Volume, offset: nat, size: nat): Plan
      requires Valid() && size > 0
    {
      PlanFor(Position(vol, offset), size, sectorSize)
    }

    /** Does a read use the caller's buffer as scratch space? */
    predicate InPlace(p: Plan, buffer: nat)
      requires Valid()
    {
      buffer % ioAlign == 0 && p.last >= p.first + 2
    }

    /** Does its move, if there is one, keep all bytes? */
    predicate KeepsBytes(p: Plan, buffer: nat)
      requires Valid()
    {
      MoveFits(p) || !InPlace(p, buffer)
    }

    /** The device's bytes as a read shows them. */
    function Returned(p: Plan, buffer: nat, size: nat): seq<Byte>
      requires Valid()
    {
      Shown(image, p, size, sectorSize, KeepsBytes(p, buffer))
    }

    /** Whatever a read allocates, it gets. */
    predicate Obtains(alloc: nat -> nat, vol: Volume, p: Plan, buffer: nat)
      requires Valid()
    {
      if InPlace(p, buffer) then p.head == 0 || alloc(sectorSize) != 0 else alloc(CopySize(vol, p)) != 0
    }

    /** A read within bounds, in place or by way of another buffer. */
    method ReadRange(vol: Volume, buffer: nat, p: Plan, size: nat, alloc: nat -> nat, freeOk: bool)
      returns (ok: bool, ghost want: nat)
      requires Valid() && vol.bytesPerSector == sectorSize && size > 0 && Pow2(vol.alignment) == ioAlign
      requires p == PlanFor(p.start, size, sectorSize)
      requires buffer + size <= mem.Length && Apart(Area(buffer, buffer + size), TransferArea())
      requires Allocates(alloc, Area(buffer, buffer + size))
      modifies this`calls, mem
      ensures Valid()
      ensures ok ==>
        var bytes := Returned(p, buffer, size);
        p.start + size <= |bytes| && mem[buffer..buffer + size] == bytes[p.start..p.start + size]
      ensures OnlyIn(old(mem[..]), mem[..], Area(buffer, buffer + size), Scratch(alloc, want), TransferArea())
      ensures want > 0 ==> alloc(want) != 0
      ensures Ready(vol) && freeOk && p.last < vol.numSectors && buffer != 0 && Obtains(alloc, vol, p, buffer) ==> ok
    {
      hide Holds, OnlyIn, Apart, Allocates, PlanFor, Pow2;
      var aligned := buffer % Pow2(vol.alignment) == 0;
      if 1 + p.last - p.first < 3 {
        aligned := false;
      }
      if aligned {
        ok, want := ReadInPlace(vol, buffer, p, size, alloc, freeOk);
      } else {
        ok, want := ReadByCopy(vol, buffer, p, size, alloc, freeOk);
      }
      if ok {
        assert mem[..][buffer..buffer + size] == mem[buffer..buffer + size];
        HoldsSlice(mem[..], buffer, Returned(p, buffer, size), p.start, size);
      }
    }

    /**
     Any byte range of a volume. On success the buffer holds exactly that slice of the device, or, if the kernel's own
     Memmove has spoiled it, of the echo that this makes.
     */
    method ReadDisk(vol: Volume, present: bool, buffer: nat, offset: nat, size: nat, alloc: nat -> nat, freeOk: bool)
      returns (ok: bool, ghost want: nat)
      requires Valid() && (vol.bytesPerSector == 0 || vol.bytesPerSector == sectorSize)
        && Pow2(vol.alignment) == ioAlign
      requires buffer + size <= mem.Length && Apart(Area(buffer, buffer + size), TransferArea())
      requires Allocates(alloc, Area(buffer, buffer + size))
      modifies this`calls, mem
      ensures Valid()
      ensures ok && size > 0 ==>
        var p := PlanOf(vol, offset, size);
        var bytes := Returned(p, buffer, size);
        p.start + size <= |bytes| == |image| && mem[buffer..buffer + size] == bytes[p.start..p.start + size]
      ensures ok && size > 0 ==>
        var o := if vol.isPartition then vol.bytesPerSector * vol.partitionOffset + offset else offset;
        var keeps := exactMoves || buffer % ioAlign != 0 || (o + size - 1) / sectorSize < o / sectorSize + 2
                     || o % sectorSize == 0 || sectorSize - o % sectorSize < 64;
        && o + size <= vol.numSectors * vol.bytesPerSector && o + size <= |image|
        && (keeps ==> mem[buffer..buffer + size] == image[o..o + size])
        && Delivers(image, o, size, sectorSize - o % sectorSize, (o + size) / sectorSize * sectorSize - o, keeps,
                    mem[buffer..buffer + size])
      ensures Ready(vol) && freeOk && present && vol.bytesPerSector != 0 && buffer != 0 && size > 0 ==>
        var o := if vol.isPartition then vol.bytesPerSector * vol.partitionOffset + offset else offset;
        var sectors := (o + size - 1) / sectorSize - o / sectorSize + 1;
        (&& o + size <= vol.numSectors * vol.bytesPerSector && sectors >= 1
         && alloc(sectorSize) != 0 && alloc(ioAlign + sectors * sectorSize) != 0) ==> ok
      ensures OnlyIn(old(mem[..]), mem[..], Area(buffer, buffer + size), Scratch(alloc, want), TransferArea())
      ensures want > 0 ==> alloc(want) != 0
      ensures ok ==> && enabled && present && vol.bytesPerSector != 0 && vol.kind != Unknown && buffer != 0
                     && (size > 0 ==> InBounds(vol, offset, size))
      ensures Ready(vol) && freeOk && present && vol.bytesPerSector != 0 && buffer != 0 ==>
        (size > 0 ==> InBounds(vol, offset, size) && Obtains(alloc, vol, PlanOf(vol, offset, size), buffer)) ==> ok
    {
      hide OnlyIn, Apart, Allocates, PlanFor, Pow2, Machine.KeepsBytes, Machine.Obtains, Shown,
           Delivers, Machine.InPlace;
      ghost var area, t := Area(buffer, buffer + size), TransferArea();
      OnlyInRefl(mem[..], area, t);
      OnlyInGrow(mem[..], mem[..], area, t, area, Scratch(alloc, 0));
      ok, want := false, 0;
      if !enabled {
        return;
      } else if !present {
        return;
      } else if vol.bytesPerSector == 0 {
        return;
      } else if vol.kind == Unknown {
        return;
      }
      if buffer == 0 {
        return;
      } else if size == 0 {
        ok := true;
        return;
      }
      var p := PlanFor(Position(vol, offset), size, vol.bytesPerSector);
      StartOfPlan(Position(vol, offset), size, vol.bytesPerSector);
      PlanIs(vol, offset, size, buffer);
      BoundsExactly(vol, offset, size);
      if Obtained(alloc, vol, p, buffer) {
        ObtainedIs(alloc, vol, p, buffer);
      }
      if p.last >= vol.numSectors {
        return;
      }
      ok, want := ReadRange(vol, buffer, p, size, alloc, freeOk);
      if ok {
        assert mem[..][buffer..buffer + size] == mem[buffer..buffer + size];
        ReturnedIs(p, buffer, size, mem[buffer..buffer + size]);
      }
    }

    /** Every allocation that a read might need. */
    predicate Obtained(alloc: nat -> nat, vol: Volume, p: Plan, buffer: nat) {
      alloc(sectorSize) != 0 && alloc(CopySize(vol, p)) != 0
    }

    lemma ObtainedIs(alloc: nat -> nat, vol: Volume, p: Plan, buffer: nat)
      requires Valid() && Obtained(alloc, vol, p, buffer)
      ensures Obtains(alloc, vol, p, buffer)
    {
    }

    /** What has to be read, in the terms of the arguments. */
    lemma PlanIs(vol: Volume, offset: nat, size: nat, buffer: nat)
      requires Valid() && size > 0
      ensures var o := if vol.isPartition then vol.bytesPerSector * vol.partitionOffset + offset else offset;
        var p := PlanOf(vol, offset, size);
        && p.start == o && p == PlanFor(p.start, size, sectorSize) && p.first <= p.last
        && CopySize(vol, p) == ioAlign + ((o + size - 1) / sectorSize - o / sectorSize + 1) * vol.bytesPerSector
        && (KeepsBytes(p, buffer) <==>
              exactMoves || buffer % ioAlign != 0 || (o + size - 1) / sectorSize < o / sectorSize + 2
              || o % sectorSize == 0 || sectorSize - o % sectorSize < 64)
    {
      PlanFacts(Position(vol, offset), size, sectorSize);
    }

    lemma ReturnedIs(p: Plan, buffer: nat, size: nat, bytes: seq<Byte>)
      requires Valid() && size > 0 && p == PlanFor(p.start, size, sectorSize) && p.start + size <= |image|
      requires bytes == Returned(p, buffer, size)[p.start..p.start + size]
      ensures Delivers(image, p.start, size, sectorSize - p.start % sectorSize,
                       (p.start + size) / sectorSize * sectorSize - p.start, KeepsBytes(p, buffer), bytes)
      ensures KeepsBytes(p, buffer) ==> bytes == image[p.start..p.start + size]
    {
      hide Shown, PlanFor, Delivers;
      ShownDelivers(image, p, size, sectorSize, KeepsBytes(p, buffer));
    }
  }

  /**
   Byte k of a range, as a read delivers it: its own, or, if the move does not keep the bytes, those of the whole
   sectors behind the first one replaced by as many of them as the range has of the first one, over and over.
   */
  ghost predicate IsDelivered(image: seq<Byte>, o: nat, first: nat, whole: int, keeps: bool, k: nat, x: Byte) {
    first > 0 && o + k < |image| &&
    x == if !keeps && first <= k < whole then image[o + first + (k - first) % first] else image[o + k]
  }

  ghost predicate Delivers(image: seq<Byte>, o: nat, size: nat, first: nat, whole: int, keeps: bool, bytes: seq<Byte>) {
    |bytes| == size && forall k | 0 <= k < size :: IsDelivered(image, o, first, whole, keeps, k, bytes[k])
  }

  lemma WholeEndIs(p: Plan, size: nat, sector: nat)
    requires sector > 0 && size > 0 && p == PlanFor(p.start, size, sector)
    ensures p.head == p.start % sector < sector && (p.start + size) / sector * sector <= p.start + size
    ensures p.first < p.last ==> WholeEnd(p, size, sector) == (p.start + size) / sector * sector
  {
    PlanFacts(p.start, size, sector);
    MulAdd(p.last, 1, sector);
    if p.first < p.last {
      AtLeastOne(p.last - p.first, sector);
    }
    var q := if p.tail == sector then p.last + 1 else p.last;
    DivModUnique(p.start + size, sector, q, if p.tail == sector then 0 else p.tail);
  }

  lemma ShownDelivers(image: seq<Byte>, p: Plan, size: nat, sector: nat, keeps: bool)
    requires sector > 0 && size > 0 && p == PlanFor(p.start, size, sector) && p.start + size <= |image|
    requires keeps || p.first < p.last
    ensures p.start % sector < sector
    ensures var bytes := Shown(image, p, size, sector, keeps)[p.start..p.start + size];
      && Delivers(image, p.start, size, sector - p.start % sector, (p.start + size) / sector * sector - p.start, keeps,
                  bytes)
      && (keeps ==> bytes == image[p.start..p.start + size])
  {
    hide PlanFor, WholeEnd, Delivers, Echo;
    WholeEndIs(p, size, sector);
    var end := (p.start + size) / sector * sector;
    if keeps {
      SliceDelivers(image, p.start, size, sector - p.head, end - p.start);
    } else {
      EchoDelivers(image, p.start, size, sector - p.head, end);
    }
  }

  lemma SliceDelivers(image: seq<Byte>, o: nat, size: nat, first: nat, whole: int)
    requires o + size <= |image| && first > 0 && whole <= size
    ensures Delivers(image, o, size, first, whole, true, image[o..o + size])
  {
  }

  lemma EchoDelivers(image: seq<Byte>, o: nat, size: nat, first: nat, end: nat)
    requires o + size <= |image| && first > 0 && end <= o + size
    ensures Delivers(image, o, size, first, end - o, false, Echo(image, o + first, end, first)[o..o + size])
  {
    hide Echo, IsDelivered;
    var bytes := Echo(image, o + first, end, first)[o..o + size];
    forall k | 0 <= k < size
      ensures IsDelivered(image, o, first, end - o, false, k, bytes[k])
    {
      EchoByteIs(image, o, first, end, k);
    }
  }

  lemma EchoByteIs(image: seq<Byte>, o: nat, first: nat, end: nat, k: nat)
    requires o + k < |image| && first > 0
    ensures IsDelivered(image, o, first, end - o, false, k, Echo(image, o + first, end, first)[o + k])
  {
    hide Echo, Turn;
    EchoAt(image, o + first, end, first, o + k);
    if k >= first {
      TurnIsRest(k - first, first);
    }
  }

  /** Where the last whole sector of a range ends. */
  function WholeEnd(p: Plan, size: nat, sector: nat): nat {
    if p.tail == sector || p.tail > size then p.start + size else p.start + size - p.tail
  }

  /** The device's bytes as a read in place shows them, with a move of its middle part that keeps them or not. */
  function Shown(image: seq<Byte>, p: Plan, size: nat, sector: nat, keeps: bool): (r: seq<Byte>)
    ensures |r| == |image|
  {
    if keeps || p.head >= sector then image
    else Echo(image, p.start + (sector - p.head), WholeEnd(p, size, sector), sector - p.head)
  }

  /** Is the slice of the device shown as it is? */
  predicate ShownRightly(image: seq<Byte>, p: Plan, size: nat, sector: nat, keeps: bool)
    requires p.start + size <= |image|
  {
    Shown(image, p, size, sector, keeps)[p.start..p.start + size] == image[p.start..p.start + size]
  }

  /** It is if the move keeps the bytes, and otherwise if and only if they happen to repeat at its distance. */
  lemma {:induction false} ShownExactly(image: seq<Byte>, p: Plan, size: nat, sector: nat, keeps: bool)
    requires sector > 0 && size > 0 && p == PlanFor(p.start, size, sector) && p.start + size <= |image|
    ensures WholeEnd(p, size, sector) <= |image| && p.head < sector
    ensures ShownRightly(image, p, size, sector, keeps)
      <==> keeps || Repeats(image, p.start + (sector - p.head), WholeEnd(p, size, sector), sector - p.head)
  {
    hide Echo, Repeats;
    PlanFacts(p.start, size, sector);
    var d := sector - p.head;
    EchoExactly(image, p.start, size, p.start + d, WholeEnd(p, size, sector), d);
  }

  ghost predicate AlwaysShownRightly(length: nat, p: Plan, size: nat, sector: nat, keeps: bool)
    requires p.start + size <= length
  {
    forall image: seq<Byte> | |image| == length :: ShownRightly(image, p, size, sector, keeps)
  }

  /**
   What a read that succeeds returns is right for every content of the device if and only if it is not in place, or its
   move fits the routine.
   */
  lemma {:induction false} DeliversExactly(m: Machine, vol: Volume, buffer: nat, offset: nat, size: nat)
    requires m.Valid() && size > 0 && Machine.Position(vol, offset) + size <= |m.image|
    ensures var p := m.PlanOf(vol, offset, size);
      AlwaysShownRightly(|m.image|, p, size, m.sectorSize, m.KeepsBytes(p, buffer))
      <==> m.exactMoves || !m.InPlace(p, buffer) || p.head == 0 || m.sectorSize - p.head < 64
  {
    hide ShownRightly, PlanFor;
    var p := m.PlanOf(vol, offset, size);
    StartOfPlan(Machine.Position(vol, offset), size, m.sectorSize);
    if m.KeepsBytes(p, buffer) {
      forall image: seq<Byte> | |image| == |m.image|
        ensures ShownRightly(image, p, size, m.sectorSize, true)
      {
        ShownExactly(image, p, size, m.sectorSize, true);
      }
    } else {
      SomeIsSpoiled(|m.image|, p, size, m.sectorSize);
    }
  }

  lemma SomeIsSpoiled(length: nat, p: Plan, size: nat, sector: nat)
    requires sector > 0 && size > 0 && p == PlanFor(p.start, size, sector) && p.start + size <= length
    requires p.last >= p.first + 2 && p.head > 0
    ensures exists image: seq<Byte> :: |image| == length && !ShownRightly(image, p, size, sector, false)
  {
    hide PlanFor, ShownRightly, Shown;
    PlanFacts(p.start, size, sector);
    LongEnough(p.last - p.first, sector);
    var d := sector - p.head;
    var lo := p.start + d;
    var image: seq<Byte> := seq(length, i => if i == lo then 1 else 0);
    ShownExactly(image, p, size, sector, false);
    assert lo + d < WholeEnd(p, size, sector) && image[lo + d] != image[lo];
  }

  /** 2000 bytes from byte 100 on of a device with sectors of 512 bytes: all goes well, and byte 824 is wrong. */
  method SpoiledRead(m: Machine, vol: Volume, buffer: nat, alloc: nat -> nat) returns (ok: bool, ghost want: nat)
    requires m.Valid() && m.Ready(vol) && m.sectorSize == vol.bytesPerSector == 512 && !m.exactMoves
    requires !vol.isPartition && vol.numSectors >= 5 && Pow2(vol.alignment) == m.ioAlign
    requires buffer != 0 && buffer % m.ioAlign == 0 && buffer + 2000 <= m.mem.Length
    requires Apart(Area(buffer, buffer + 2000), m.TransferArea()) && m.Allocates(alloc, Area(buffer, buffer + 2000))
    requires alloc(512) != 0 && |m.image| >= 2100 && m.image[512] != m.image[924]
    modifies m`calls, m.mem
    ensures ok && m.mem[buffer..buffer + 2000] != m.image[100..2100]
  {
    hide OnlyIn, Apart, Machine.Allocates, Pow2, Shown;
    var p := Plan(100, 0, 4, 100, 52);
    assert m.PlanOf(vol, 100, 2000) == p && WholeEnd(p, 2000, 512) == 2048;
    ShownExactly(m.image, p, 2000, 512, false);
    assert m.image[924] != m.image[924 - 412];
    ok, want := m.ReadDisk(vol, true, buffer, 100, 2000, alloc, true);
  }

  /**
   The move that a read in place makes, with n sectors behind the first one: with the kernel's own routine it is right
   for all contents if and only if the range starts within the last 63 bytes of a sector.
   */
  lemma {:induction false} BodyMoveExactly(size: nat, buffer: nat, head: nat, n: nat, sector: nat)
    requires 0 < head < sector && n >= 1 && buffer + (sector - head) + n * sector <= size
    ensures MovesRightly(size, buffer + (sector - head), buffer, n * sector) <==> sector - head < 64
  {
    hide MovesRightly;
    AtLeastOne(n, sector);
    var moved, d := n * sector, sector - head;
    KernelMemmoveExactly(size, buffer + d, buffer, moved);
  }

  /** The bounds check is right for whole devices. For a partition it also asks for its offset to be in bounds. */
  lemma {:induction false} BoundsExactly(vol: Volume, offset: nat, size: nat)
    requires vol.bytesPerSector > 0 && size > 0
    ensures Machine.InBounds(vol, offset, size) <==>
      Machine.Position(vol, offset) + size <= vol.numSectors * vol.bytesPerSector
  {
    var o, b := Machine.Position(vol, offset), vol.bytesPerSector;
    var p := PlanFor(o, size, b);
    PlanFacts(o, size, b);
    if p.last < vol.numSectors {
      MulMonotone(p.last + 1, vol.numSectors, b);
      MulAdd(p.last, 1, b);
    } else {
      MulMonotone(vol.numSectors, p.last, b);
    }
  }

  /** Which volumes can be read to their end. */
  ghost predicate ReadableThroughout(vol: Volume)
    requires vol.bytesPerSector > 0
  {
    forall offset: nat, size: nat | size > 0 && offset + size <= vol.numSectors * vol.bytesPerSector ::
      Machine.InBounds(vol, offset, size)
  }

  /** A partition that does not start at sector 0 has bytes at its end that ReadDisk refuses to read. */
  lemma {:induction false} ReadableExactly(vol: Volume)
    requires vol.bytesPerSector > 0
    ensures ReadableThroughout(vol) <==> !vol.isPartition || vol.partitionOffset == 0 || vol.numSectors == 0
  {
    var b := vol.bytesPerSector;
    if !vol.isPartition || vol.partitionOffset == 0 || vol.numSectors == 0 {
      forall offset: nat, size: nat | size > 0 && offset + size <= vol.numSectors * b
        ensures Machine.InBounds(vol, offset, size)
      {
        BoundsExactly(vol, offset, size);
      }
    } else {
      AtLeastOne(vol.numSectors, b);
      AtLeastOne(vol.partitionOffset, b);
      BoundsExactly(vol, vol.numSectors * b - 1, 1);
    }
  }

  /** The last byte of a partition of 4096 sectors at sector 2048 is refused. */
  lemma PartitionEndRefused()
    ensures var vol := Volume(Int13, true, 2048, 0, 512, 4096);
      && 4096 * 512 - 1 + 1 <= vol.numSectors * vol.bytesPerSector
      && !Machine.InBounds(vol, 4096 * 512 - 1, 1)
  {
    BoundsExactly(Volume(Int13, true, 2048, 0, 512, 4096), 4096 * 512 - 1, 1);
  }
}
