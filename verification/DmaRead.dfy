/** Reading from disk in chunks: readDMADisk issues the first command, every completion interrupt copies one
    chunk and issues the next.  A command either succeeds with the right sectors or is issued again, so it is
    one step here.  Sector counts and addresses are small enough for their 64-bit fields. */
module DmaRead {
  import opened Words

  const SECTOR := 0x200
  const AREA_SIZE := 0x200_0000
  const TABLE_WORDS := 0x400
  const CHUNK := 256
  const CHUNK_EXT := 65534

  function ChunkOf(lba48: bool): (c: nat)
    ensures 0 < c <= CHUNK_EXT
  {
    if lba48 then CHUNK_EXT else CHUNK
  }

  // ---------------------------------------------------------------- one command

  datatype Disk = Disk(data: seq<Byte>, lba48: bool)

  /** How many sectors a command moves: the 28-bit command has an 8-bit count and the 48-bit one a 16-bit
      count, and 0 stands for the largest number. */
  function Commanded(lba48: bool, count: nat): nat {
    var limit := if lba48 then 0x1_0000 else 0x100;
    if count % limit == 0 then limit else count % limit
  }

  /** The bytes of `count` sectors from `address` on. */
  function Sectors(disk: Disk, address: nat, count: nat): (s: seq<Byte>)
    requires (address + count) * SECTOR <= |disk.data|
    ensures |s| == count * SECTOR
  {
    disk.data[address * SECTOR..(address + count) * SECTOR]
  }

  /** The DMA area after a command: the sectors, and zeros behind them. */
  function Area(disk: Disk, address: nat, count: nat): (s: seq<Byte>)
    requires (address + count) * SECTOR <= |disk.data| && count * SECTOR <= AREA_SIZE
    ensures |s| == AREA_SIZE
  {
    Sectors(disk, address, count) + seq(AREA_SIZE - count * SECTOR, _ => 0 as Byte)
  }

  /** The length field of a descriptor has 16 bits, 0 standing for 64 KiB; the top bit ends the table. */
  function PieceLength(word: nat): nat { if word % 0x1_0000 == 0 then 0x1_0000 else word % 0x1_0000 }

  predicate IsLast(word: nat) { word >= 0x8000_0000 }

  function Pieces(sectors: nat): nat { (sectors + 127) / 128 }

  /** The table describes `sectors` sectors at `base`: consecutive 64 KiB pieces, the last one shorter and marked. */
  ghost predicate Describes(table: seq<nat>, base: nat, sectors: nat) {
    var n := Pieces(sectors);
    && 0 < n && 2 * n <= |table|
    && forall e :: 0 <= e < n ==> Descriptor(table, base, sectors, e)
  }

  predicate Descriptor(table: seq<nat>, base: nat, sectors: nat, e: nat)
    requires 2 * e + 1 < |table| && e < Pieces(sectors)
  {
    && table[2 * e] == base + e * 0x1_0000
    && PieceLength(table[2 * e + 1]) == Min(0x1_0000, sectors * SECTOR - e * 0x1_0000)
    && (IsLast(table[2 * e + 1]) <==> e + 1 == Pieces(sectors))
  }

  /** Sum of the first n piece lengths. */
  function TotalLength(table: seq<nat>, n: nat): nat
    requires 2 * n <= |table|
  {
    if n == 0 then 0 else TotalLength(table, n - 1) + PieceLength(table[2 * n - 1])
  }

  lemma {:induction false} PiecesAddUp(table: seq<nat>, base: nat, sectors: nat, n: nat)
    requires Describes(table, base, sectors) && n <= Pieces(sectors)
    ensures TotalLength(table, n) == Min(n * 0x1_0000, sectors * SECTOR)
  {
    if n > 0 {
      PiecesAddUp(table, base, sectors, n - 1);
      assert Descriptor(table, base, sectors, n - 1);
    }
  }

  /** Whatever the driver can ask for, 16 bits of sectors, the table fits its page, its lengths add up to the
      bytes asked for, and the data fits the DMA area. */
  lemma TableBound(table: seq<nat>, base: nat, sectors: nat)
    requires 0 < sectors < 0x1_0000
    ensures 2 * Pieces(sectors) <= TABLE_WORDS == 4096 / 4 && sectors * 512 <= AREA_SIZE == 32 * 0x10_0000
    ensures Describes(table, base, sectors) ==> 2 * Pieces(sectors) <= |table| && TotalLength(table, Pieces(sectors)) == sectors * SECTOR
    ensures Pieces(CHUNK_EXT) == 512
  {
    if Describes(table, base, sectors) { PiecesAddUp(table, base, sectors, Pieces(sectors)); }
  }

  // ---------------------------------------------------------------- a whole read

  /** dmaBuffer, with the caller's buffer and the DMA area of the command in progress. */
  datatype State = State(buffer: seq<Byte>, area: seq<Byte>, startOffset: nat, endOffset: nat, currentRead: nat,
                         totalRead: nat, totalReadBytes: nat, targetRead: nat, currentAddress: nat, done: bool)

  /** A command for these sectors moves them all, and they are on the disk. */
  predicate CanIssue(disk: Disk, address: nat, count: nat) {
    0 < count < 0x1_0000 && Commanded(disk.lba48, count) == count && (address + count) * SECTOR <= |disk.data|
  }

  /** Without 48-bit commands only up to 256 sectors can be asked for at once. */
  lemma CanIssueIff(disk: Disk, address: nat, count: nat)
    ensures CanIssue(disk, address, count)
       <==> 0 < count <= (if disk.lba48 then 65535 else 256) && (address + count) * 512 <= |disk.data|
  {}

  /** readDMADisk: the state once the first command has completed. */
  function Begin(disk: Disk, buffer: seq<Byte>, address: nat, count: nat, startOffset: nat, endOffset: nat): State
    requires CanIssue(disk, address, Min(ChunkOf(disk.lba48), count))
  {
    var first := Min(ChunkOf(disk.lba48), count);
    State(buffer, Area(disk, address, first), startOffset, endOffset, first, 0, 0, count, address, false)
  }

  /** The counts and offsets one interrupt works with. */
  function Current(chunk: nat, s: State): nat { if s.currentRead == 0 then chunk else s.currentRead }

  function Skip(s: State): nat { if s.totalRead == 0 then s.startOffset else 0 }

  function Cut(chunk: nat, s: State): nat { if s.totalRead + Current(chunk, s) >= s.targetRead then s.endOffset else 0 }

  /** The copy stays inside both memories and the next command inside the disk. */
  predicate CanInterrupt(disk: Disk, s: State) {
    var chunk := ChunkOf(disk.lba48);
    var c, skip, cut := Current(chunk, s), Skip(s), Cut(chunk, s);
    var total := s.totalRead + c;
    && !s.done && cut <= c * SECTOR && skip + c * SECTOR - cut <= |s.area|
    && total * SECTOR - cut <= |s.buffer|
    && (total < s.targetRead ==> CanIssue(disk, s.currentAddress + c, Min(chunk, s.targetRead - total)))
  }

  /** A buffer after a copy into it. */
  function Spliced(buffer: seq<Byte>, to: nat, area: seq<Byte>, from: nat, length: nat): seq<Byte>
    requires to + length <= |buffer| && from + length <= |area|
  {
    buffer[..to] + area[from..from + length] + buffer[to + length..]
  }

  /** First half of ataHandleReadInterrupt: the chunk is copied and counted. */
  function Copied(chunk: nat, s: State): State
    requires Cut(chunk, s) <= Current(chunk, s) * SECTOR && Skip(s) + Current(chunk, s) * SECTOR - Cut(chunk, s) <= |s.area|
    requires (s.totalRead + Current(chunk, s)) * SECTOR - Cut(chunk, s) <= |s.buffer|
  {
    var c, skip := Current(chunk, s), Skip(s);
    var from, length := s.totalRead * SECTOR, c * SECTOR - Cut(chunk, s);
    s.(buffer := Spliced(s.buffer, from, s.area, skip, length),
       totalReadBytes := s.totalReadBytes + length, totalRead := s.totalRead + c, currentRead := c)
  }

  /** Second half: the next command is issued and completes, or the read is done. */
  function Advanced(disk: Disk, s: State): State
    requires s.totalRead < s.targetRead ==>
      CanIssue(disk, s.currentAddress + s.currentRead, Min(ChunkOf(disk.lba48), s.targetRead - s.totalRead))
  {
    if s.totalRead < s.targetRead then
      var next := Min(ChunkOf(disk.lba48), s.targetRead - s.totalRead);
      s.(currentAddress := s.currentAddress + s.currentRead, currentRead := next, area := Area(disk, s.currentAddress + s.currentRead, next))
    else s.(done := true)
  }

  /** ataHandleReadInterrupt for a completed command. */
  function Interrupt(disk: Disk, s: State): State
    requires CanInterrupt(disk, s)
  {
    Advanced(disk, Copied(ChunkOf(disk.lba48), s))
  }

  /** The state after n completion interrupts. */
  function Run(disk: Disk, s: State, n: nat): State {
    if n == 0 then s
    else
      var before := Run(disk, s, n - 1);
      if CanInterrupt(disk, before) then Interrupt(disk, before) else before
  }

  /** A read of `count` sectors from `address` into `buffer`, without the first `skip` bytes, and shortened by
      `cut` bytes in all. */
  datatype Request = Request(disk: Disk, buffer: seq<Byte>, address: nat, count: nat, skip: nat, cut: nat) {
    function Chunk(): (c: nat)
      ensures 0 < c <= CHUNK_EXT
    {
      ChunkOf(disk.lba48)
    }

    /** The sectors left in front of the k-th command. */
    function Rest(k: nat): int { count - k * Chunk() }

    /** The end offset stays inside the last chunk; the start offset is for reads of one chunk. */
    ghost predicate Valid() {
      && 0 < count && (address + count) * SECTOR <= |disk.data| && count * SECTOR <= |buffer| + cut
      && (forall k: nat :: Rest(k) > 0 ==> cut <= Rest(k) * SECTOR)
      && (skip > 0 ==> count <= Chunk() && skip <= cut)
    }

    /** Where the bytes of the first n sectors come from, and how many of them are delivered. */
    function From(n: nat): nat { address * SECTOR + if n == count then skip else 0 }

    ghost function Length(n: nat): nat
      requires Valid() && n <= count
    {
      assert Rest(0) == count;
      n * SECTOR - if n == count then cut else 0
    }

    /** The buffer when the first n sectors have arrived. */
    ghost function Filled(n: nat): (b: seq<Byte>)
      requires Valid() && n <= count && Length(n) <= |buffer|
      ensures |b| == |buffer|
    {
      disk.data[From(n)..From(n) + Length(n)] + buffer[Length(n)..]
    }
  }

  /** What holds in front of the k-th interrupt. */
  ghost predicate InProgress(r: Request, s: State, k: nat)
    requires r.Valid()
  {
    && r.Rest(k) > 0 && !s.done && s.targetRead == r.count && s.startOffset == r.skip && s.endOffset == r.cut
    && s.totalRead == k * r.Chunk() && s.currentAddress == r.address + s.totalRead
    && s.currentRead == Min(r.Chunk(), r.count - s.totalRead)
    && s.totalReadBytes == s.totalRead * SECTOR
    && r.Length(s.totalRead) <= |r.buffer| && s.buffer == r.Filled(s.totalRead)
    && CanIssue(r.disk, s.currentAddress, s.currentRead) && s.area == Area(r.disk, s.currentAddress, s.currentRead)
  }

  ghost predicate Complete(r: Request, s: State)
    requires r.Valid()
  {
    s.done && s.totalRead == r.count && s.totalReadBytes == r.Length(r.count) <= |r.buffer| && s.buffer == r.Filled(r.count)
  }

  /** Every chunk of a read can be asked for with one command. */
  lemma ChunkIssues(r: Request, k: nat)
    requires r.Valid() && r.Rest(k) > 0
    ensures CanIssue(r.disk, r.address + k * r.Chunk(), Min(r.Chunk(), r.Rest(k)))
  {
    var n := k * r.Chunk();
    assert n < r.count;
  }

  lemma BeginInProgress(r: Request)
    requires r.Valid()
    ensures CanIssue(r.disk, r.address, Min(r.Chunk(), r.count))
    ensures InProgress(r, Begin(r.disk, r.buffer, r.address, r.count, r.skip, r.cut), 0)
  {
    hide CanIssue, Area;
    assert r.Rest(0) == r.count;
    ChunkIssues(r, 0);
    assert r.Filled(0) == r.buffer;
  }

  /** The sectors from n on start at this byte of the disk, and the copy of the next c ones takes so many bytes. */
  function CopyFrom(r: Request, n: nat): nat { r.address * SECTOR + if n == 0 then r.skip else 0 }

  function CopyLength(r: Request, n: nat, c: nat): int { c * SECTOR - if n + c == r.count then r.cut else 0 }

  /** c more sectors after n: the offsets fit. */
  ghost predicate NextChunk(r: Request, n: nat, c: nat) {
    && r.Valid() && 0 < c <= CHUNK_EXT && n + c <= r.count && r.cut <= (r.count - n) * SECTOR
    && (n + c < r.count || n > 0 ==> r.skip == 0)
  }

  lemma CopyFits(r: Request, n: nat, c: nat)
    requires NextChunk(r, n, c)
    ensures var skip, from, length := if n == 0 then r.skip else 0, CopyFrom(r, n), CopyLength(r, n, c);
      && 0 <= length && skip + length <= c * SECTOR && n * SECTOR + length == r.Length(n + c)
      && from == r.address * SECTOR + skip && from + n * SECTOR + length <= |r.disk.data|
  {}

  lemma FilledSlices(r: Request, n: nat, c: nat)
    requires NextChunk(r, n, c) && r.Length(n) <= |r.buffer| && r.Length(n + c) <= |r.buffer|
    ensures var from, length := CopyFrom(r, n), CopyLength(r, n, c);
      && 0 <= length && from + n * SECTOR + length <= |r.disk.data| && n * SECTOR + length <= |r.buffer|
      && r.Filled(n) == r.disk.data[from..from + n * SECTOR] + r.buffer[n * SECTOR..]
      && r.Filled(n + c) == r.disk.data[from..from + n * SECTOR + length] + r.buffer[n * SECTOR + length..]
  {
    hide CopyLength;
    CopyFits(r, n, c);
  }

  /** Copying the next chunk extends the part that has arrived. */
  lemma ChunkArrives(r: Request, n: nat, c: nat)
    requires NextChunk(r, n, c) && r.Length(n) <= |r.buffer| && r.Length(n + c) <= |r.buffer|
    ensures var area, skip, length := Area(r.disk, r.address + n, c), if n == 0 then r.skip else 0, CopyLength(r, n, c);
      && 0 <= length && skip + length <= AREA_SIZE && n * SECTOR + length == r.Length(n + c)
      && Spliced(r.Filled(n), n * SECTOR, area, skip, length) == r.Filled(n + c)
  {
    hide Area, Spliced, CopyFrom, CopyLength, Request.Filled;
    CopyFits(r, n, c);
    FilledSlices(r, n, c);
    var skip, from, length := if n == 0 then r.skip else 0, CopyFrom(r, n), CopyLength(r, n, c);
    AreaSlice(r.disk, r.address + n, c, skip, length);
    SpliceNext(r.disk.data, r.buffer, from, n * SECTOR, Area(r.disk, r.address + n, c), skip, length);
  }

  lemma AreaSlice(disk: Disk, address: nat, count: nat, skip: nat, length: nat)
    requires (address + count) * SECTOR <= |disk.data| && count * SECTOR <= AREA_SIZE && skip + length <= count * SECTOR
    ensures var x := address * SECTOR + skip; Area(disk, address, count)[skip..skip + length] == disk.data[x..x + length]
  {
    var x := address * SECTOR + skip;
    var part, whole := Area(disk, address, count)[skip..skip + length], disk.data[x..x + length];
    assert |part| == |whole| && forall k :: 0 <= k < |part| ==> part[k] == whole[k];
  }

  lemma SpliceNext(data: seq<Byte>, buffer: seq<Byte>, from: nat, a: nat, area: seq<Byte>, skip: nat, length: nat)
    requires from + a + length <= |data| && a + length <= |buffer| && skip + length <= |area|
    requires area[skip..skip + length] == data[from + a..from + a + length]
    ensures Spliced(data[from..from + a] + buffer[a..], a, area, skip, length) == data[from..from + a + length] + buffer[a + length..]
  {
    var b := data[from..from + a] + buffer[a..];
    assert b[..a] == data[from..from + a] && b[a + length..] == buffer[a + length..];
    assert data[from..from + a] + data[from + a..from + a + length] == data[from..from + a + length];
  }

  lemma NextRest(r: Request, k: nat)
    ensures r.Rest(k + 1) == r.Rest(k) - r.Chunk() && (k + 1) * r.Chunk() == k * r.Chunk() + r.Chunk()
  {}

  /** What is left in front of the k-th command, and what the offsets take of it. */
  lemma RestBounds(r: Request, k: nat)
    requires r.Valid() && r.Rest(k) > 0
    ensures var n, c := k * r.Chunk(), Min(r.Chunk(), r.Rest(k));
      && n < r.count && 0 < c <= CHUNK_EXT && n + c <= r.count && r.cut <= (r.count - n) * SECTOR && r.count - n == r.Rest(k)
      && (n + c < r.count || n > 0 ==> r.skip == 0)
      && if r.Rest(k + 1) > 0 then n + c == (k + 1) * r.Chunk() < r.count && r.cut <= (r.count - n - c) * SECTOR else n + c == r.count
  {
    hide ChunkOf, Request.Filled, Request.Length, Request.From;
    NextRest(r, k);
    assert r.cut <= r.Rest(k) * SECTOR;
    if r.Rest(k + 1) > 0 { assert r.cut <= r.Rest(k + 1) * SECTOR; }
    if k > 0 { Monotone(r.Chunk(), 1, k); }
  }

  lemma ChunkBounds(r: Request, s: State, k: nat)
    requires r.Valid() && InProgress(r, s, k)
    ensures var n, c := s.totalRead, s.currentRead;
      && n < r.count && 0 < c <= CHUNK_EXT && n + c <= r.count && Current(r.Chunk(), s) == c
      && r.cut <= (r.count - n) * SECTOR && r.Length(n + c) <= |r.buffer| && (n + c < r.count || n > 0 ==> r.skip == 0)
      && Skip(s) == (if n == 0 then r.skip else 0) && Cut(r.Chunk(), s) == (if n + c == r.count then r.cut else 0)
      && (if r.Rest(k + 1) > 0 then n + c == (k + 1) * r.Chunk() < r.count else n + c == r.count)
  {
    hide Area, Request.Filled, CanIssue, ChunkOf, Request.Rest;
    RestBounds(r, k);
  }

  lemma CopyStep(r: Request, s: State, k: nat)
    requires r.Valid() && InProgress(r, s, k)
    ensures var n, c, chunk := s.totalRead, s.currentRead, r.Chunk();
      && n + c <= r.count && r.Length(n + c) <= |r.buffer|
      && Cut(chunk, s) <= Current(chunk, s) * SECTOR && Skip(s) + Current(chunk, s) * SECTOR - Cut(chunk, s) <= |s.area|
      && (n + Current(chunk, s)) * SECTOR - Cut(chunk, s) <= |s.buffer|
      && Copied(chunk, s) == s.(buffer := r.Filled(n + c), totalReadBytes := r.Length(n + c), totalRead := n + c)
  {
    hide Area, Spliced, Request.Filled, CanIssue, ChunkOf, Request.Rest, Skip, Cut, Current;
    ChunkBounds(r, s, k);
    ChunkArrives(r, s.totalRead, s.currentRead);
  }

  /** Each interrupt keeps the invariant or completes the read. */
  lemma InterruptStep(r: Request, s: State, k: nat)
    requires r.Valid() && InProgress(r, s, k)
    ensures CanInterrupt(r.disk, s)
    ensures var t := Interrupt(r.disk, s); if r.Rest(k + 1) > 0 then InProgress(r, t, k + 1) else Complete(r, t)
  {
    hide Area, Request.Filled, CanIssue, ChunkOf, Copied, Skip, Cut, Current;
    ChunkBounds(r, s, k);
    CopyStep(r, s, k);
    if r.Rest(k + 1) > 0 { ChunkIssues(r, k + 1); }
  }

  lemma {:induction false} RunInProgress(r: Request, k: nat)
    requires r.Valid() && r.Rest(k) > 0
    ensures CanIssue(r.disk, r.address, Min(r.Chunk(), r.count))
    ensures InProgress(r, Run(r.disk, Begin(r.disk, r.buffer, r.address, r.count, r.skip, r.cut), k), k)
  {
    hide InProgress, Begin, Interrupt, CanInterrupt, CanIssue;
    BeginInProgress(r);
    if k > 0 {
      NextRest(r, k - 1);
      RunInProgress(r, k - 1);
      InterruptStep(r, Run(r.disk, Begin(r.disk, r.buffer, r.address, r.count, r.skip, r.cut), k - 1), k - 1);
    }
  }

  /** Interrupts a read takes. */
  function Interrupts(chunk: nat, count: nat): nat
    requires chunk > 0
  {
    (count + chunk - 1) / chunk
  }

  lemma ChunkBound(chunk: nat, count: nat, k: nat)
    requires chunk > 0 && count > 0
    ensures k < Interrupts(chunk, count) <==> k * chunk < count
  {
    var n, rest := Interrupts(chunk, count), (count + chunk - 1) % chunk;
    assert count + chunk - 1 == n * chunk + rest;
    if k < n {
      assert k * chunk <= (n - 1) * chunk by { Monotone(chunk, k, n - 1); }
    } else {
      Monotone(chunk, n, k);
    }
  }

  lemma Monotone(c: nat, a: nat, b: nat)
    requires a <= b
    ensures a * c <= b * c
  {
    assert (b - a) * c >= 0;
    assert b * c - a * c == (b - a) * c;
  }

  /** A read completes with exactly its sectors after as many interrupts as it has chunks, and not before;
      the invariant holds in front of each of them. */
  lemma ReadCompletes(r: Request)
    requires r.Valid()
    ensures var n := Interrupts(r.Chunk(), r.count);
      && CanIssue(r.disk, r.address, Min(r.Chunk(), r.count))
      && var s := Begin(r.disk, r.buffer, r.address, r.count, r.skip, r.cut);
        && (forall k :: 0 <= k < n ==> InProgress(r, Run(r.disk, s, k), k))
        && Complete(r, Run(r.disk, s, n))
  {
    hide InProgress, Begin, Interrupt, Complete, CanInterrupt, CanIssue, Interrupts, ChunkOf;
    var n := Interrupts(r.Chunk(), r.count);
    ChunkBound(r.Chunk(), r.count, 0);
    BeginInProgress(r);
    var s := Begin(r.disk, r.buffer, r.address, r.count, r.skip, r.cut);
    forall k | 0 <= k < n
      ensures InProgress(r, Run(r.disk, s, k), k)
    {
      ChunkBound(r.Chunk(), r.count, k);
      RunInProgress(r, k);
    }
    ChunkBound(r.Chunk(), r.count, n - 1);
    ChunkBound(r.Chunk(), r.count, n);
    RunInProgress(r, n - 1);
    InterruptStep(r, Run(r.disk, s, n - 1), n - 1);
  }

  /** The k-th command asks for the next 256 sectors, or 65534 on a disk with 48-bit commands, or for what is left;
      up to that many sectors are there after one interrupt. */
  lemma CommandsFit(r: Request, k: nat)
    requires r.Valid()
    ensures CanIssue(r.disk, r.address, Min(r.Chunk(), r.count))
    ensures var unit := if r.disk.lba48 then 65534 else 256;
      var s := Begin(r.disk, r.buffer, r.address, r.count, r.skip, r.cut);
      && (k * unit < r.count ==>
            var t := Run(r.disk, s, k); t.currentAddress == r.address + k * unit && t.currentRead == Min(unit, r.count - k * unit))
      && (r.count <= unit ==> Complete(r, Run(r.disk, s, 1)))
  {
    hide Begin, Complete, CanInterrupt, CanIssue, Run, Request.Filled, Request.Length;
    BeginInProgress(r);
    if r.Rest(k) > 0 { RunInProgress(r, k); }
    ReadCompletes(r);
  }

  /** Byte for byte: the buffer of a completed read holds the disk's bytes from the start offset on, and behind them
      what it held before. */
  lemma BytesArrive(r: Request, k: nat)
    requires r.Valid() && k < |r.buffer|
    ensures CanIssue(r.disk, r.address, Min(r.Chunk(), r.count))
    ensures var done := Run(r.disk, Begin(r.disk, r.buffer, r.address, r.count, r.skip, r.cut), Interrupts(r.Chunk(), r.count));
      && |done.buffer| == |r.buffer|
      && done.buffer[k] == if k < r.count * 512 - r.cut then r.disk.data[r.address * 512 + r.skip + k] else r.buffer[k]
  {
    hide Begin, CanInterrupt, CanIssue, Run, Interrupts, InProgress;
    ReadCompletes(r);
    assert r.Rest(0) == r.count;
  }
}
