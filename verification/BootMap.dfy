/** mapLimitedUsableMemory: the boot-time map of usable 2 MiB chunks to consecutive virtual addresses. */
module BootMap {
  import opened Words
  import opened MemoryMap
  import opened PageTables

  /** Sixteen PMD pages: 16 GiB of virtual space. */
  const PMD_COUNT := 16

  /** The chunks accepted from p on: a usable one is taken whole, otherwise the scan moves on one frame. */
  function Chunks(entries: seq<Entry>, p: nat, end: nat): (chunks: seq<nat>)
    decreases if p < end then end - p else 0
  {
    if p >= end then []
    else if IsUsable(entries, p, COLLECTION_SIZE) then [p] + Chunks(entries, p + COLLECTION_SIZE, end)
    else Chunks(entries, p + FRAME_SIZE, end)
  }

  /** Chunks are usable, aligned when the start is, inside the scanned range and 2 MiB or more apart. */
  lemma {:induction false} ChunksSpread(entries: seq<Entry>, p: nat, end: nat)
    ensures var chunks := Chunks(entries, p, end);
      && (forall k :: 0 <= k < |chunks| ==> p <= chunks[k] < end && IsUsable(entries, chunks[k], COLLECTION_SIZE))
      && (forall k :: 0 <= k < |chunks| && p % FRAME_SIZE == 0 ==> chunks[k] % FRAME_SIZE == 0)
      && (forall j, k :: 0 <= j < k < |chunks| ==> chunks[j] + COLLECTION_SIZE <= chunks[k])
      && (p <= end ==> |chunks| * COLLECTION_SIZE < end - p + COLLECTION_SIZE)
    decreases if p < end then end - p else 0
  {
    hide IsUsable;
    if p < end {
      if IsUsable(entries, p, COLLECTION_SIZE) {
        ChunksSpread(entries, p + COLLECTION_SIZE, end);
        AlignedStep(p, COLLECTION_SIZE);
      } else {
        ChunksSpread(entries, p + FRAME_SIZE, end);
        AlignedStep(p, FRAME_SIZE);
      }
    }
  }

  /** Every accepted chunk at or above 1 MiB lies inside one entry of usable memory. */
  lemma ChunkInsideEntry(entries: seq<Entry>, p: nat, end: nat, k: nat)
    requires k < |Chunks(entries, p, end)|
    ensures var c := Chunks(entries, p, end)[k];
      0x10_0000 <= c && c + 0x20_0000 < 0x1_0000_0000_0000_0000 ==>
        exists i :: 0 <= i < |entries| && entries[i].start <= c && c + 0x20_0000 < entries[i].end && entries[i].kind == 1
  {
    hide IsUsable, Chunks;
    ChunksSpread(entries, p, end);
    var c := Chunks(entries, p, end)[k];
    if c + 0x20_0000 < 0x1_0000_0000_0000_0000 { UsableIff(entries, c, 0x20_0000); }
  }

  /** No usable memory is passed over: a page of the scanned range with 2 MiB of one usable entry behind it, or
      below 1 MiB, belongs to an accepted chunk. */
  lemma {:induction false} UsableIsTaken(entries: seq<Entry>, p: nat, end: nat, a: nat)
    requires p <= a < end && (a - p) % 0x1000 == 0 && a + 0x20_0000 < 0x1_0000_0000_0000_0000 && entries != []
    requires a < 0x10_0000 || exists i :: 0 <= i < |entries| && entries[i].start <= a && a + 0x20_0000 < entries[i].end && entries[i].kind == 1
    ensures exists k :: 0 <= k < |Chunks(entries, p, end)| && Chunks(entries, p, end)[k] <= a < Chunks(entries, p, end)[k] + 0x20_0000
    decreases end - p
  {
    hide IsUsable;
    UsableIff(entries, a, 0x20_0000);
    var chunks := Chunks(entries, p, end);
    if !IsUsable(entries, p, COLLECTION_SIZE) {
      UsableIsTaken(entries, p + FRAME_SIZE, end, a);
    } else if a < p + COLLECTION_SIZE {
      assert chunks[0] <= a < chunks[0] + 0x20_0000;
    } else {
      UsableIsTaken(entries, p + COLLECTION_SIZE, end, a);
      var rest := Chunks(entries, p + COLLECTION_SIZE, end);
      var k :| 0 <= k < |rest| && rest[k] <= a < rest[k] + 0x20_0000;
      assert chunks[k + 1] == rest[k];
    }
  }

  lemma AlignedStep(p: nat, step: nat)
    requires step in {FRAME_SIZE, COLLECTION_SIZE}
    ensures p % FRAME_SIZE == 0 ==> (p + step) % FRAME_SIZE == 0
  {}

  /** The pages of the boot tables lie in memory and do not overlap. */
  predicate BootTable(pages: nat, t: Table) {
    && t.pgd + 1 <= pages && t.pud + 4 <= pages && t.pmd + PMD_COUNT <= pages && pages <= 0x100_0000_0000
    && Apart(t.pgd, 1, t.pud, 4) && Apart(t.pgd, 1, t.pmd, PMD_COUNT) && Apart(t.pud, 4, t.pmd, PMD_COUNT)
  }

  /** The first n chunks are linked at virtual addresses 0, 2 MiB, 4 MiB, ... */
  ghost predicate Mapped(mem: seq<Word>, t: Table, chunks: seq<nat>) {
    && |chunks| <= 512 * PMD_COUNT
    && (|chunks| > 0 ==> Cell(t.pgd, 0) < |mem| && mem[Cell(t.pgd, 0)] == Pointer(t.pud))
    && (forall j :: 0 <= j < PMD_COUNT && 512 * j < |chunks| ==> Cell(t.pud, j) < |mem| && mem[Cell(t.pud, j)] == Pointer(t.pmd + j))
    && (forall k :: 0 <= k < |chunks| ==> Cell(t.pmd, k) < |mem| && mem[Cell(t.pmd, k)] == PageFlags(chunks[k]))
  }

  /** The stores made for one accepted chunk. */
  method MapChunk(mem: array<Word>, pages: nat, t: Table, physical: nat, virtual: nat, ghost chunks: seq<nat>)
    requires BootTable(pages, t) && mem.Length == 512 * pages
    requires Mapped(mem[..], t, chunks) && |chunks| < 512 * PMD_COUNT
    requires virtual == |chunks| * COLLECTION_SIZE && physical < WORD_LIMIT
    modifies mem
    ensures Mapped(mem[..], t, chunks + [physical])
  {
    hide TableFlags, PageFlags, Mapped;
    ghost var n := |chunks|;
    ghost var before: seq<Word> := mem[..];
    var pgdIndex := virtual / 0x80_0000_0000;
    var pudIndex := virtual / 0x4000_0000 % 512;
    var pmdIndex := virtual / 0x20_0000 % 512;
    ChunkIndices(n);
    FlagsKeepFrame((t.pud + pgdIndex) * FRAME_SIZE);
    FlagsKeepFrame((t.pmd + pudIndex) * FRAME_SIZE);
    FlagsKeepFrame(physical);
    mem[512 * t.pgd + pgdIndex] := TableFlags((t.pud + pgdIndex) * FRAME_SIZE);
    mem[512 * (t.pud + pgdIndex) + pudIndex] := TableFlags((t.pmd + (pgdIndex * 512 + pudIndex)) * FRAME_SIZE);
    mem[512 * (t.pmd + (pgdIndex * 512 + pudIndex)) + pmdIndex] := PageFlags(physical);
    MappedStep(before, mem[..], pages, t, physical, chunks);
  }

  lemma MappedStep(before: seq<Word>, after: seq<Word>, pages: nat, t: Table, physical: nat, chunks: seq<nat>)
    requires BootTable(pages, t) && |before| == |after| == 512 * pages
    requires Mapped(before, t, chunks) && |chunks| < 512 * PMD_COUNT
    requires Pointer(t.pud) < WORD_LIMIT && Pointer(t.pmd + |chunks| / 512) < WORD_LIMIT && PageFlags(physical) < WORD_LIMIT
    requires var pud: Word := Pointer(t.pud); var pmd: Word := Pointer(t.pmd + |chunks| / 512); var page: Word := PageFlags(physical);
      after == before[Cell(t.pgd, 0) := pud][Cell(t.pud, |chunks| / 512) := pmd][Cell(t.pmd, |chunks|) := page]
    ensures Mapped(after, t, chunks + [physical])
  {
    hide TableFlags, PageFlags, Pointer;
  }

  lemma ChunkIndices(n: nat)
    requires n < 512 * PMD_COUNT
    ensures var v := n * COLLECTION_SIZE;
      v / 0x80_0000_0000 == 0 && v / 0x4000_0000 % 512 == n / 512 && v / 0x20_0000 % 512 == n % 512
  {
    DivUnique(n * COLLECTION_SIZE, 0x20_0000, n, 0);
    DivUnique(n * COLLECTION_SIZE, 0x4000_0000, n / 512, n % 512 * COLLECTION_SIZE);
  }

  /** mapLimitedUsableMemory over at most 16 GiB. */
  method MapLimitedUsableMemory(mem: array<Word>, pages: nat, t: Table, table: MemoryTable, start: nat, size: nat)
    returns (mappedPages: nat, lastVirtualAddress: nat)
    requires BootTable(pages, t) && mem.Length == 512 * pages && table.Valid()
    requires size <= 16 * 0x4000_0000 && start + size < WORD_LIMIT
    requires (mem as object) != table.physicalMemoryEntry && (mem as object) != table
    modifies mem
    ensures var chunks := Chunks(old(table.Entries()), start, start + size);
      && Mapped(mem[..], t, chunks) && mappedPages == |chunks|
      && lastVirtualAddress == if chunks == [] then 0 else |chunks| * COLLECTION_SIZE - 1
  {
    hide Mapped, IsUsable;
    ghost var entries := table.Entries();
    ghost var done: seq<nat> := [];
    ghost var all := Chunks(entries, start, start + size);
    ChunksSpread(entries, start, start + size);
    var physical, virtual := start, 0;
    mappedPages, lastVirtualAddress := 0, 0;
    NothingMapped(mem[..], t);
    while physical < start + size
      invariant table.Entries() == entries && physical >= start
      invariant Mapped(mem[..], t, done)
      invariant done + Chunks(entries, physical, start + size) == all
      invariant mappedPages == |done| && virtual == |done| * COLLECTION_SIZE
      invariant lastVirtualAddress == if done == [] then 0 else |done| * COLLECTION_SIZE - 1
      decreases start + size + COLLECTION_SIZE - physical
    {
      var usable := table.IsUsableAddress(physical, COLLECTION_SIZE);
      if usable {
        assert Chunks(entries, physical, start + size) == [physical] + Chunks(entries, physical + COLLECTION_SIZE, start + size);
        assert (done + [physical]) + Chunks(entries, physical + COLLECTION_SIZE, start + size) == all;
        MapChunk(mem, pages, t, physical, virtual, done);
        done := done + [physical];
        lastVirtualAddress := virtual + COLLECTION_SIZE - 1;
        mappedPages := mappedPages + 1;
        virtual := virtual + COLLECTION_SIZE;
        physical := physical + COLLECTION_SIZE;
      } else {
        physical := physical + FRAME_SIZE;
      }
    }
    assert done == all;
  }

  lemma NothingMapped(mem: seq<Word>, t: Table)
    ensures Mapped(mem, t, [])
  {}

  /** The three entries on the way to the k-th chunk. */
  lemma MappedAt(mem: seq<Word>, t: Table, chunks: seq<nat>, k: nat)
    requires Mapped(mem, t, chunks) && k < |chunks|
    ensures k < 512 * PMD_COUNT && Cell(t.pgd, 0) < |mem| && mem[Cell(t.pgd, 0)] == Pointer(t.pud)
    ensures Cell(t.pud, k / 512) < |mem| && mem[Cell(t.pud, k / 512)] == Pointer(t.pmd + k / 512)
    ensures Cell(t.pmd, k) < |mem| && mem[Cell(t.pmd, k)] == PageFlags(chunks[k])
  {
    hide TableFlags, PageFlags, Pointer;
  }

  lemma BootIndices(va: nat)
    requires va / COLLECTION_SIZE < 512 * PMD_COUNT
    ensures va / 0x80_0000_0000 == 0 && va / 0x4000_0000 % 512 == va / COLLECTION_SIZE / 512
    ensures va / 0x20_0000 % 512 == va / COLLECTION_SIZE % 512
  {
    SplitAddress(va);
  }

  /** The walk through the boot tables ends at the entry of the page. */
  lemma BootWalk(mem: seq<Word>, t: Table, chunks: seq<nat>, va: nat)
    requires Mapped(mem, t, chunks) && va / COLLECTION_SIZE < |chunks|
    ensures Cell(t.pmd, va / COLLECTION_SIZE) < |mem| && ThirdLevel(mem, t.pgd, va) == Some(mem[Cell(t.pmd, va / COLLECTION_SIZE)])
  {
    hide Mapped, TableFlags, PageFlags;
    var k := va / COLLECTION_SIZE;
    MappedAt(mem, t, chunks, k);
    BootIndices(va);
    EntryOfPage(mem, t.pgd, 0);
    EntryOfPage(mem, t.pud, k / 512);
    assert Cell(t.pmd + k / 512, k % 512) == Cell(t.pmd, k);
    EntryOfPage(mem, t.pmd + k / 512, k % 512);
  }

  /** v2p2m is defined on the whole range below the last mapped address: the k-th 2 MiB page is the
      k-th accepted chunk. */
  lemma KthPageIsKthChunk(mem: seq<Word>, t: Table, chunks: seq<nat>, va: nat)
    requires Mapped(mem, t, chunks) && va / COLLECTION_SIZE < |chunks|
    requires chunks[va / COLLECTION_SIZE] % FRAME_SIZE == 0
    ensures V2p2m(mem, t.pgd, va) == Some(chunks[va / COLLECTION_SIZE] + va % COLLECTION_SIZE)
  {
    hide Mapped, TableFlags, PageFlags, Pointer, ThirdLevel;
    BootWalk(mem, t, chunks, va);
    MappedAt(mem, t, chunks, va / COLLECTION_SIZE);
    FlagsKeepFrame(chunks[va / COLLECTION_SIZE]);
  }

  /** Different virtual addresses below the last mapped one have different physical addresses. */
  lemma BootMapInjective(mem: seq<Word>, t: Table, entries: seq<Entry>, start: nat, end: nat, va: nat, wa: nat)
    requires start % FRAME_SIZE == 0 && Mapped(mem, t, Chunks(entries, start, end))
    requires va < wa && wa / COLLECTION_SIZE < |Chunks(entries, start, end)|
    ensures V2p2m(mem, t.pgd, va).Some? && V2p2m(mem, t.pgd, wa).Some?
    ensures V2p2m(mem, t.pgd, va) != V2p2m(mem, t.pgd, wa)
  {
    hide V2p2m, Mapped;
    var chunks := Chunks(entries, start, end);
    ChunksSpread(entries, start, end);
    KthPageIsKthChunk(mem, t, chunks, va);
    KthPageIsKthChunk(mem, t, chunks, wa);
  }
}
