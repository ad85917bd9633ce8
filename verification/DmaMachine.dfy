/** The read driver as the code runs it: memory areas, the descriptor table it builds, the device that follows
    the table, and the fields of dmaBuffer. */
module DmaMachine {
  import opened Words
  import opened DmaRead

  /** The first n descriptors are in place. */
  ghost predicate Described(table: seq<nat>, base: nat, sectors: nat, n: nat) {
    n <= Pieces(sectors) && 2 * n <= |table| && forall k :: 0 <= k < n ==> Descriptor(table, base, sectors, k)
  }

  lemma DescribedNext(before: seq<nat>, table: seq<nat>, base: nat, sectors: nat, e: nat)
    requires Described(before, base, sectors, e) && |before| == |table| && 2 * e + 1 < |table|
    requires forall k :: 0 <= k < 2 * e ==> table[k] == before[k]
    requires 128 * e < sectors && table[2 * e] == base + e * 0x1_0000
    requires var left := sectors - 128 * e; table[2 * e + 1] == if left > 128 then 0x1_0000 else 0x8000_0000 + left * 0x200
    ensures Described(table, base, sectors, e + 1)
  {
    forall k | 0 <= k < e
      ensures Descriptor(table, base, sectors, k)
    {
      assert Descriptor(before, base, sectors, k);
    }
    LastWord(sectors - 128 * e);
  }

  /** The words the loop writes: 128 sectors show as length 0, which means 64 KiB. */
  lemma LastWord(left: nat)
    requires 0 < left
    ensures PieceLength(0x1_0000) == 0x1_0000 && !IsLast(0x1_0000)
    ensures left <= 128 ==> PieceLength(0x8000_0000 + left * 0x200) == left * 0x200 && IsLast(0x8000_0000 + left * 0x200)
  {}

  /** dmaBuffer together with the disk it works on. */
  class DmaBuffer {
    /** The disk, and the physical address of the DMA area. */
    const disk: Disk
    const dmaPhyAddress: nat
    const prdt: array<nat>
    const area: array<Byte>
    var buffer: array<Byte>
    var startOffset: nat
    var endOffset: nat
    var currentRead: nat
    var totalRead: nat
    var totalReadBytes: nat
    var targetRead: nat
    var currentAddress: nat
    var doneRead: bool

    ghost predicate Valid()
      reads this
    {
      && prdt.Length == TABLE_WORDS && area.Length == AREA_SIZE && area != buffer
      && dmaPhyAddress + AREA_SIZE <= 0x1_0000_0000
    }

    ghost function View(): State
      reads this, buffer, area
    {
      State(buffer[..], area[..], startOffset, endOffset, currentRead, totalRead, totalReadBytes, targetRead, currentAddress, doneRead)
    }

    constructor (disk: Disk, dmaPhyAddress: nat)
      requires dmaPhyAddress + AREA_SIZE <= 0x1_0000_0000
      ensures Valid() && fresh(prdt) && fresh(area) && fresh(buffer)
      ensures this.disk == disk
    {
      this.disk, this.dmaPhyAddress := disk, dmaPhyAddress;
      prdt := new nat[TABLE_WORDS](_ => 0);
      area := new Byte[AREA_SIZE](_ => 0);
      buffer := new Byte[0];
      startOffset, endOffset, currentRead, totalRead, totalReadBytes, targetRead, currentAddress := 0, 0, 0, 0, 0, 0, 0;
      doneRead := true;
    }

    /** The descriptor loop of readDMADiskSectors. */
    method BuildTable(sectorCount: nat)
      requires Valid() && 0 < sectorCount < 0x1_0000
      modifies prdt
      ensures Describes(prdt[..], dmaPhyAddress, sectorCount)
    {
      hide Descriptor;
      var sectors := sectorCount;
      var i := 0;
      ghost var e := 0;
      while sectors > 0
        invariant 0 <= e && i == 2 * e && 0 <= sectors <= sectorCount
        invariant if sectors > 0 then sectors == sectorCount - 128 * e else e == Pieces(sectorCount)
        invariant Described(prdt[..], dmaPhyAddress, sectorCount, e)
        decreases sectors
      {
        ghost var before := prdt[..];
        if sectors > 128 {
          prdt[i] := dmaPhyAddress + i / 2 * 0x1_0000;
          prdt[i + 1] := 128 * 0x200;
          sectors := sectors - 128;
        } else {
          prdt[i] := dmaPhyAddress + i / 2 * 0x1_0000;
          prdt[i + 1] := 0x8000_0000 + sectors * 0x200;
          sectors := 0;
        }
        DescribedNext(before, prdt[..], dmaPhyAddress, sectorCount, e);
        i := i + 2;
        e := e + 1;
      }
    }

    /** The device: stores consecutive disk bytes into the pieces of the table until the marked one. */
    method Transfer(address: nat, ghost count: nat)
      requires Valid() && CanIssue(disk, address, count) && Describes(prdt[..], dmaPhyAddress, count)
      requires area[..] == seq(AREA_SIZE, _ => 0 as Byte)
      modifies area
      ensures area[..] == Area(disk, address, count)
    {
      var entry, from, last := 0, address * SECTOR, false;
      TableBound(prdt[..], dmaPhyAddress, count);
      ghost var table := prdt[..];
      while !last
        invariant 0 <= entry <= Pieces(count) && last == (entry == Pieces(count)) && prdt[..] == table
        invariant from == address * SECTOR + Min(entry * 0x1_0000, count * SECTOR)
        invariant forall k :: 0 <= k < AREA_SIZE ==>
          area[k] == if k < from - address * SECTOR then disk.data[address * SECTOR + k] else 0
        decreases Pieces(count) - entry
      {
        assert Descriptor(table, dmaPhyAddress, count, entry);
        var at, length := prdt[2 * entry] - dmaPhyAddress, PieceLength(prdt[2 * entry + 1]);
        ghost var before := area[..];
        for j := 0 to length
          invariant forall k :: 0 <= k < AREA_SIZE ==>
            area[k] == if k < at + j then disk.data[address * SECTOR + k] else 0
        {
          area[at + j] := disk.data[from + j];
        }
        from := from + length;
        last := IsLast(prdt[2 * entry + 1]);
        entry := entry + 1;
      }
      assert area[..] == Area(disk, address, count);
    }

    /** readDMADiskSectors: clears the area, builds the table, and the command succeeds. */
    method ReadDMADiskSectors(address: nat, sectorCount: nat)
      requires Valid() && CanIssue(disk, address, sectorCount)
      modifies area, prdt
      ensures area[..] == Area(disk, address, sectorCount) && Describes(prdt[..], dmaPhyAddress, sectorCount)
    {
      Clear();
      BuildTable(sectorCount);
      Transfer(address, sectorCount);
    }

    /** memset(dma_phy_address, 0, 0x2000000) */
    method Clear()
      requires Valid()
      modifies area
      ensures area[..] == seq(AREA_SIZE, _ => 0 as Byte)
    {
      for i := 0 to area.Length
        invariant forall k :: 0 <= k < i ==> area[k] == 0
      {
        area[i] := 0;
      }
    }

    /** readDMADisk: issues the first command of a read. */
    method ReadDMADisk(address: nat, into: array<Byte>, count: nat, start: nat, end: nat)
      requires Valid() && into != area && CanIssue(disk, address, Min(ChunkOf(disk.lba48), count))
      modifies this, area, prdt
      ensures Valid() && buffer == into
      ensures View() == Begin(disk, old(into[..]), address, count, start, end)
    {
      hide Area;
      doneRead := false;
      buffer := into;
      currentAddress := address;
      var chunk := CHUNK;
      if disk.lba48 {
        chunk := CHUNK_EXT;
      }
      startOffset, endOffset := start, end;
      if count > chunk {
        currentRead := chunk;
      } else {
        currentRead := count;
      }
      totalRead, totalReadBytes, targetRead := 0, 0, count;
      ReadDMADiskSectors(currentAddress, currentRead);
    }

    /** fast_memcpy from the DMA area into the caller's buffer. */
    method CopyArea(to: nat, from: nat, length: nat)
      requires Valid() && to + length <= buffer.Length && from + length <= area.Length
      modifies buffer
      ensures buffer[..] == Spliced(old(buffer[..]), to, area[..], from, length)
    {
      ghost var before := buffer[..];
      for i := 0 to length
        invariant buffer[..] == before[..to] + area[from..from + i] + before[to + i..]
      {
        buffer[to + i] := area[from + i];
      }
    }

    /** First half of ataHandleReadInterrupt. */
    method CopyChunk(chunk: nat)
      requires Valid() && chunk == ChunkOf(disk.lba48) && CanInterrupt(disk, View())
      modifies this, buffer
      ensures Valid() && buffer == old(buffer) && View() == old(Copied(chunk, View()))
    {
      hide ChunkOf, CanInterrupt, Copied, Area, CanIssue, Spliced;
      ghost var s := View();
      CopyUnfolds(disk, s);
      var skip, cut := 0, 0;
      if currentRead == 0 {
        currentRead := chunk;
      }
      if totalRead == 0 {
        skip := startOffset;
      }
      if totalRead + currentRead >= targetRead {
        cut := endOffset;
      }
      assert currentRead == Current(chunk, s) && skip == Skip(s) && cut == Cut(chunk, s);
      CopyArea(totalRead * 0x200, skip, currentRead * 0x200 - cut);
      totalReadBytes := totalReadBytes + (currentRead * 0x200 - cut);
      totalRead := totalRead + currentRead;
    }

    /** ataHandleReadInterrupt for a completion interrupt of this disk. */
    method HandleReadInterrupt()
      requires Valid() && CanInterrupt(disk, View())
      modifies this, buffer, area, prdt
      ensures Valid() && buffer == old(buffer)
      ensures View() == old(Interrupt(disk, View()))
    {
      hide Area;
      var chunk := CHUNK;
      if disk.lba48 {
        chunk := CHUNK_EXT;
      }
      CopyChunk(chunk);
      if totalRead < targetRead {
        currentAddress := currentAddress + currentRead;
        if targetRead - totalRead > chunk {
          currentRead := chunk;
        } else {
          currentRead := targetRead - totalRead;
        }
        ReadDMADiskSectors(currentAddress, currentRead);
      } else {
        doneRead := true;
      }
    }
  }

  lemma CopyUnfolds(disk: Disk, s: State)
    requires CanInterrupt(disk, s)
    ensures var chunk := ChunkOf(disk.lba48); var c, skip, cut := Current(chunk, s), Skip(s), Cut(chunk, s); var from, length := s.totalRead * SECTOR, c * SECTOR - cut;
      && 0 <= length && skip + length <= |s.area| && from + length <= |s.buffer|
      && Copied(chunk, s) == State(Spliced(s.buffer, from, s.area, skip, length), s.area, s.startOffset,
                                   s.endOffset, c, s.totalRead + c, s.totalReadBytes + length, s.targetRead, s.currentAddress, s.done)
  {}
}
