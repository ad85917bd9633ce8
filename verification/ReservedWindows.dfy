/** MapReservedMemory and GetVirtualAddress: reserved physical ranges get virtual windows placed from
    the top of the mapped space downwards. */
module ReservedWindows {
  import opened Words
  import opened Bitmap
  import opened MemoryMap
  import opened PageTables
  import opened PageTableMachine

  const KERNEL_MEMORY_SIZE := 0x2EE0_0000
  const KERNEL_PAGES := 0x2_EE00

  /** (4 * 512 * 512 * 512 - 1) pages */
  const TOP := 0x1FF_FFFF_F000

  // ---------------------------------------------------------------- enough blocks

  /** The slots, of any core, that already have a table block. */
  function WithBlock(m: State): set<(nat, nat)> {
    set key | key in m.slots && m.slots[key].Block?
  }

  /** 4 KiB pages can be linked through every slot of `want`: none of them is used for a 2 MiB page,
      and the pool has a free block for each one that has none yet. */
  ghost predicate Enough(l: Layout, m: State, want: set<(nat, nat)>) {
    && Sized(l, m)
    && (forall key :: key in want && key in m.slots ==> m.slots[key].Block?)
    && |want - WithBlock(m)| <= CountSet(m.free[..Usable(l)])
  }

  lemma EnoughCanLink(l: Layout, m: State, c: nat, want: set<(nat, nat)>, va: nat)
    requires Enough(l, m, want) && c in m.active && va < VIRTUAL_LIMIT && (c, va / 0x20_0000) in want
    ensures CanLink(l, m, c, va)
  {
    hide LayoutOk;
    var key := (c, va / 0x20_0000);
    if key !in m.slots {
      assert key in want - WithBlock(m);
      assert |want - WithBlock(m)| > 0;
      CountExtremes(m.free[..Usable(l)]);
    }
  }

  lemma LinkKeepsEnough(l: Layout, m: State, c: nat, want: set<(nat, nat)>, va: nat, physical: Word)
    requires Represents(l, m) && Enough(l, m, want) && CanLink(l, m, c, va) && (c, va / 0x20_0000) in want
    ensures Enough(l, LinkFourth(l, m, c, va, physical), want)
  {
    LinkFourthRepresents(l, m, c, va, physical);
    hide LayoutOk, UpperOk, SlotsOk, BlocksOk, TableFlags, PageFlags, Enough, LowestSet;
    var key := (c, va / 0x20_0000);
    EnoughAfter(l, m, LinkFourth(l, m, c, va, physical), want, key, BlockFor(l, m, key));
  }

  lemma EnoughAfter(l: Layout, m: State, n: State, want: set<(nat, nat)>, key: (nat, nat), b: nat)
    requires Enough(l, m, want) && Sized(l, n) && key in want && b < Usable(l)
    requires n.slots == m.slots[key := Block(b)] && n.free == m.free[b := false]
    requires if key in m.slots then m.slots[key] == Block(b) && !m.free[b] else m.free[b]
    ensures Enough(l, n, want)
  {
    assert WithBlock(n) == WithBlock(m) + {key};
    FewerLeft(want, WithBlock(m), key);
    CountOneLess(m.free, Usable(l), b);
    hide LayoutOk, WithBlock, CountSet, Usable;
  }

  lemma FewerLeft(want: set<(nat, nat)>, have: set<(nat, nat)>, s: (nat, nat))
    requires s in want
    ensures |want - (have + {s})| == |want - have| - (if s in have then 0 else 1)
  {
    if s in have {
      assert have + {s} == have;
    } else {
      assert want - (have + {s}) == (want - have) - {s};
    }
  }

  lemma CountOneLess(free: seq<bool>, u: nat, b: nat)
    requires b < u <= |free|
    ensures CountSet(free[b := false][..u]) == CountSet(free[..u]) - (if free[b] then 1 else 0)
  {
    assert free[b := false][..u] == free[..u][b := false];
    CountAfterUpdate(free[..u], b, false);
  }

  // ---------------------------------------------------------------- mapping a range

  /** n consecutive pages of core c, from page `page` on, mapped to consecutive frames from p on. */
  function MapRange(view: map<(nat, nat), Word>, c: nat, page: nat, p: nat, n: nat): map<(nat, nat), Word>
    requires n > 0 ==> p + (n - 1) * FRAME_SIZE < WORD_LIMIT
  {
    if n == 0 then view
    else
      FlagsKeepFrame(p + (n - 1) * FRAME_SIZE);
      MapRange(view, c, page, p, n - 1)[(c, page + n - 1) := PageFlags(p + (n - 1) * FRAME_SIZE)]
  }

  lemma {:induction false} MapRangeAt(view: map<(nat, nat), Word>, c: nat, page: nat, p: nat, n: nat, key: (nat, nat))
    requires n > 0 ==> p + (n - 1) * FRAME_SIZE < WORD_LIMIT
    ensures var after := MapRange(view, c, page, p, n);
      if key.0 == c && page <= key.1 < page + n
      then key in after && after[key] == PageFlags(p + (key.1 - page) * FRAME_SIZE)
      else (key in after <==> key in view) && (key in view ==> after[key] == view[key])
  {
    hide PageFlags;
    if n > 0 { MapRangeAt(view, c, page, p, n - 1, key); }
  }

  function PagesOf(size: nat): nat { (size + 0xFFF) / FRAME_SIZE }

  /** The inner loop of MapReservedMemory. */
  method MapWindow(vm: VirtualMemory, c: nat, vstart: nat, start: nat, size: nat, ghost want: set<(nat, nat)>)
    requires vm.Valid() && c in vm.active && Enough(vm.layout, vm.Now(), want)
    requires vstart % FRAME_SIZE == 0 && vstart + PagesOf(size) * FRAME_SIZE <= VIRTUAL_LIMIT
    requires start + size < WORD_LIMIT
    requires forall page :: vstart / FRAME_SIZE <= page < vstart / FRAME_SIZE + PagesOf(size) ==> (c, page / 512) in want
    modifies vm, vm.mem, vm.blockMap
    ensures vm.Valid() && Enough(vm.layout, vm.Now(), want)
    ensures vm.active == old(vm.active)
    ensures vm.view == MapRange(old(vm.view), c, vstart / FRAME_SIZE, start, PagesOf(size))
  {
    hide Represents, Enough, PageFlags, CanLink, BlockFor;
    var virtual, physical := vstart, start;
    ghost var n := 0;
    while physical < start + size
      invariant virtual == vstart + n * FRAME_SIZE && physical == start + n * FRAME_SIZE
      invariant n <= PagesOf(size)
      invariant vm.Valid() && Enough(vm.layout, vm.Now(), want) && vm.active == old(vm.active)
      invariant vm.view == MapRange(old(vm.view), c, vstart / FRAME_SIZE, start, n)
      decreases start + size + FRAME_SIZE - physical
    {
      PageAt(vstart, size, n);
      EnoughCanLink(vm.layout, vm.Now(), c, want, virtual);
      LinkKeepsEnough(vm.layout, vm.Now(), c, want, virtual, physical);
      vm.LinkFourthStageToFramePhysical(c, virtual, physical);
      virtual := virtual + FRAME_SIZE;
      physical := physical + FRAME_SIZE;
      n := n + 1;
    }
  }

  lemma PageAt(vstart: nat, size: nat, n: nat)
    requires vstart % FRAME_SIZE == 0 && n * FRAME_SIZE < size
    ensures n < PagesOf(size)
    ensures (vstart + n * FRAME_SIZE) / FRAME_SIZE == vstart / FRAME_SIZE + n
    ensures (vstart + n * FRAME_SIZE) / 0x20_0000 == (vstart / FRAME_SIZE + n) / 512
  {
    DivUnique(vstart + n * FRAME_SIZE, FRAME_SIZE, vstart / FRAME_SIZE + n, 0);
    var q, r := (vstart / FRAME_SIZE + n) / 512, (vstart / FRAME_SIZE + n) % 512;
    DivUnique(vstart + n * FRAME_SIZE, 0x20_0000, q, r * FRAME_SIZE);
  }

  /** MapKernelUsableMemory: the first 750 MiB mapped one to one. */
  method MapKernelUsableMemory(vm: VirtualMemory, c: nat, ghost want: set<(nat, nat)>)
    requires vm.Valid() && c in vm.active && Enough(vm.layout, vm.Now(), want)
    requires forall s :: 0 <= s < 375 ==> (c, s) in want
    modifies vm, vm.mem, vm.blockMap
    ensures vm.Valid() && Enough(vm.layout, vm.Now(), want)
    ensures vm.active == old(vm.active)
    ensures vm.view == MapRange(old(vm.view), c, 0, 0, KERNEL_PAGES)
  {
    hide Represents, Enough, PageFlags, CanLink, BlockFor;
    var address := 0;
    for i := 0 to KERNEL_MEMORY_SIZE / FRAME_SIZE
      invariant address == i * FRAME_SIZE
      invariant vm.Valid() && Enough(vm.layout, vm.Now(), want) && vm.active == old(vm.active)
      invariant vm.view == MapRange(old(vm.view), c, 0, 0, i)
    {
      PageAt(0, KERNEL_MEMORY_SIZE, i);
      EnoughCanLink(vm.layout, vm.Now(), c, want, address);
      LinkKeepsEnough(vm.layout, vm.Now(), c, want, address, address);
      vm.LinkFourthStageToFramePhysical(c, address, address);
      address := address + FRAME_SIZE;
    }
  }

  // ---------------------------------------------------------------- placing windows

  predicate IsReserved(e: Entry) {
    e.start > FIRST_MIB && (e.kind == RESERVED || e.kind == ACPI_RECLAIMED || e.kind == ACPI_NVS)
  }

  /** The window top when entry i is reached: one page is skipped below every window. */
  function TopBefore(entries: seq<Entry>, i: nat): int
    requires i <= |entries|
  {
    if i == 0 then TOP
    else if IsReserved(entries[i - 1]) then TopBefore(entries, i - 1) - (entries[i - 1].size / FRAME_SIZE + 1) * FRAME_SIZE
    else TopBefore(entries, i - 1)
  }

  /** The virtual start of a reserved entry's window. */
  function WindowStart(entries: seq<Entry>, i: nat): int
    requires i < |entries|
  {
    TopBefore(entries, i) - entries[i].size / FRAME_SIZE * FRAME_SIZE
  }

  /** No window drops below address 0, and no reserved range wraps around. */
  ghost predicate Fits(entries: seq<Entry>) {
    forall i :: 0 <= i < |entries| && IsReserved(entries[i]) ==>
      WindowStart(entries, i) >= 0 && entries[i].start + entries[i].size < WORD_LIMIT
  }

  /** The virtual start that MapReservedMemory stores in entry i. */
  function PlacedEntry(entries: seq<Entry>, i: nat): Entry
    requires i < |entries|
  {
    var e := entries[i];
    if IsReserved(e) && WindowStart(entries, i) >= 0 then e.(vstart := WindowStart(entries, i))
    else if e.kind != HOLE then e.(vstart := e.start)
    else e
  }

  function AllPlaced(entries: seq<Entry>): (r: seq<Entry>)
    ensures |r| == |entries|
  {
    seq(|entries|, i requires 0 <= i < |entries| => PlacedEntry(entries, i))
  }

  lemma {:induction false} TopFalls(entries: seq<Entry>, i: nat, j: nat)
    requires i <= j <= |entries|
    ensures TopBefore(entries, j) <= TopBefore(entries, i) <= TOP
    ensures TopBefore(entries, i) % FRAME_SIZE == 0
  {
    if i < j {
      TopFalls(entries, i, j - 1);
      if IsReserved(entries[j - 1]) { assert entries[j - 1].size / FRAME_SIZE >= 0; }
    } else if i > 0 {
      TopFalls(entries, i - 1, i - 1);
      StepDown(TopBefore(entries, i - 1), entries[i - 1].size / FRAME_SIZE + 1);
    }
  }

  lemma StepDown(top: int, n: nat)
    requires top % FRAME_SIZE == 0
    ensures (top - n * FRAME_SIZE) % FRAME_SIZE == 0
  {}

  lemma WindowAligned(entries: seq<Entry>, i: nat)
    requires i < |entries|
    ensures WindowStart(entries, i) % FRAME_SIZE == 0
    ensures WindowStart(entries, i) + PagesOf(entries[i].size) * FRAME_SIZE <= VIRTUAL_LIMIT
  {
    TopFalls(entries, 0, i);
    TopFalls(entries, i, i);
    StepDown(TopBefore(entries, i), entries[i].size / FRAME_SIZE);
    PagesBound(entries[i].size);
  }

  lemma PagesBound(size: nat)
    ensures size / FRAME_SIZE <= PagesOf(size) <= size / FRAME_SIZE + 1
  {}

  /** A later reserved entry's window ends at or below the start of every earlier one, although a size
      that is not a page multiple maps one page more than was counted: the skipped page absorbs it. */
  lemma WindowsDisjoint(entries: seq<Entry>, i: nat, j: nat)
    requires i < j < |entries| && IsReserved(entries[i]) && IsReserved(entries[j])
    ensures WindowStart(entries, j) + PagesOf(entries[j].size) * FRAME_SIZE <= WindowStart(entries, i)
  {
    TopFalls(entries, i + 1, j);
    PagesBound(entries[j].size);
    assert TopBefore(entries, i + 1) == WindowStart(entries, i) - FRAME_SIZE;
  }

  /** Windows are packed: the first one ends at 2 TiB less a page, each other one a page below the one before. */
  lemma WindowsPacked(entries: seq<Entry>, i: nat, j: nat)
    requires i <= j < |entries| && forall k :: i <= k < j ==> IsReserved(entries[k]) == (k == i)
    ensures var end := WindowStart(entries, j) + entries[j].size / 0x1000 * 0x1000;
      && (i < j ==> end + 0x1000 == WindowStart(entries, i))
      && (i == j && (forall k :: 0 <= k < i ==> !IsReserved(entries[k])) ==> end == 0x200_0000_0000 - 0x1000)
  {
    if i < j {
      TopStays(entries, i + 1, j);
    } else if forall k :: 0 <= k < i ==> !IsReserved(entries[k]) {
      TopStays(entries, 0, i);
    }
  }

  lemma {:induction false} TopStays(entries: seq<Entry>, i: nat, j: nat)
    requires i <= j <= |entries| && forall k :: i <= k < j ==> !IsReserved(entries[k])
    ensures TopBefore(entries, j) == TopBefore(entries, i)
  {
    if i < j { TopStays(entries, i, j - 1); }
  }

  /** A reserved entry never makes an address at or above 1 MiB usable. */
  lemma ReservedIsNotUsable(e: Entry, p: nat, size: nat)
    requires e.start > 0x10_0000 && 2 <= e.kind <= 4 && p >= 0x10_0000
    ensures IsReserved(e) && !Admits(e, p, size)
  {}

  /** Appending entries and placing again moves no window that was placed before. */
  lemma AppendingKeepsWindows(entries: seq<Entry>, more: seq<Entry>, i: nat)
    requires i < |entries|
    ensures PlacedEntry(AllPlaced(entries) + more, i) == PlacedEntry(entries, i)
  {
    SameTop(entries, AllPlaced(entries) + more, i);
  }

  lemma {:induction false} SameTop(entries: seq<Entry>, others: seq<Entry>, i: nat)
    requires i <= |entries| && i <= |others|
    requires forall j :: 0 <= j < i ==> others[j] == PlacedEntry(entries, j)
    ensures TopBefore(others, i) == TopBefore(entries, i)
  {
    if i > 0 {
      SameTop(entries, others, i - 1);
      assert others[i - 1] == PlacedEntry(entries, i - 1);
    }
  }

  // ---------------------------------------------------------------- mapping the windows

  /** The map of core c after the first n entries were processed. */
  ghost function MapWindows(view: map<(nat, nat), Word>, c: nat, entries: seq<Entry>, n: nat): map<(nat, nat), Word>
    requires Fits(entries) && n <= |entries|
  {
    if n == 0 then view
    else if IsReserved(entries[n - 1]) then
      LastFrameFits(entries[n - 1]);
      MapRange(MapWindows(view, c, entries, n - 1), c, WindowStart(entries, n - 1) / FRAME_SIZE,
               entries[n - 1].start, PagesOf(entries[n - 1].size))
    else MapWindows(view, c, entries, n - 1)
  }

  lemma LastFrameFits(e: Entry)
    requires e.start + e.size < WORD_LIMIT
    ensures PagesOf(e.size) > 0 ==> e.start + (PagesOf(e.size) - 1) * FRAME_SIZE < WORD_LIMIT
  {}

  /** Page k of the window of entry i. */
  predicate InWindow(entries: seq<Entry>, i: nat, k: nat)
    requires i < |entries|
  {
    IsReserved(entries[i]) && k < PagesOf(entries[i].size)
  }

  /** Every page of every window stays mapped to its own frame after all entries were processed. */
  lemma {:induction false} WindowsMapped(view: map<(nat, nat), Word>, c: nat, entries: seq<Entry>, n: nat, i: nat, k: nat)
    requires Fits(entries) && i < n <= |entries| && InWindow(entries, i, k)
    ensures var key := (c, WindowStart(entries, i) / FRAME_SIZE + k); var after := MapWindows(view, c, entries, n);
      key in after && after[key] == PageFlags(entries[i].start + k * FRAME_SIZE)
  {
    hide PageFlags;
    var e := entries[n - 1];
    var page := WindowStart(entries, i) / FRAME_SIZE + k;
    if IsReserved(e) {
      LastFrameFits(e);
      MapRangeAt(MapWindows(view, c, entries, n - 1), c, WindowStart(entries, n - 1) / FRAME_SIZE, e.start, PagesOf(e.size), (c, page));
    }
    if i < n - 1 {
      WindowsMapped(view, c, entries, n - 1, i, k);
      if IsReserved(e) {
        WindowsDisjoint(entries, i, n - 1);
        WindowAligned(entries, i);
        WindowAligned(entries, n - 1);
      }
    }
  }

  /** The slots that the windows reach are all wanted. */
  ghost predicate Wanted(entries: seq<Entry>, c: nat, want: set<(nat, nat)>)
    requires Fits(entries)
  {
    forall i, k :: 0 <= i < |entries| && 0 <= k && InWindow(entries, i, k) ==>
      (c, (WindowStart(entries, i) / FRAME_SIZE + k) / 512) in want
  }

  /** MapReservedMemory for the table of core c. */
  method MapReservedMemory(vm: VirtualMemory, table: MemoryTable, c: nat, ghost want: set<(nat, nat)>)
    requires vm.Valid() && table.Valid() && Fits(table.Entries())
    requires c in vm.active && Enough(vm.layout, vm.Now(), want) && Wanted(table.Entries(), c, want)
    requires {vm.mem, vm.blockMap, vm as object} !! {table, table.physicalMemoryEntry}
    modifies vm, vm.mem, vm.blockMap, table.physicalMemoryEntry
    ensures vm.Valid() && table.Valid() && Enough(vm.layout, vm.Now(), want)
    ensures table.Entries() == AllPlaced(old(table.Entries()))
    ensures vm.active == old(vm.active)
    ensures vm.view == MapWindows(old(vm.view), c, old(table.Entries()), old(table.memoryEntries))
  {
    hide Represents, Enough, PagesOf;
    ghost var entries := table.Entries();
    var last := TOP;
    for i := 0 to table.memoryEntries
      invariant vm.Valid() && Enough(vm.layout, vm.Now(), want) && vm.active == old(vm.active)
      invariant last == if TopBefore(entries, i) >= 0 then TopBefore(entries, i) else TopBefore(entries, i) + WORD_LIMIT
      invariant forall j :: 0 <= j < i ==> table.physicalMemoryEntry[j] == PlacedEntry(entries, j)
      invariant forall j :: i <= j < |entries| ==> table.physicalMemoryEntry[j] == entries[j]
      invariant vm.view == MapWindows(old(vm.view), c, entries, i)
    {
      var e := table.physicalMemoryEntry[i];
      assert e == entries[i];
      if IsReserved(e) {
        var frames := e.size / FRAME_SIZE;
        assert WindowStart(entries, i) >= 0;
        var start := last - frames * FRAME_SIZE;
        last := (start + WORD_LIMIT - FRAME_SIZE) % WORD_LIMIT;
        WindowAligned(entries, i);
        WindowWanted(entries, c, want, i);
        table.physicalMemoryEntry[i] := e.(vstart := start);
        MapWindow(vm, c, start, e.start, e.size, want);
      } else if e.kind != HOLE {
        table.physicalMemoryEntry[i] := e.(vstart := e.start);
      }
    }
    assert table.Entries() == AllPlaced(entries);
  }

  lemma WindowWanted(entries: seq<Entry>, c: nat, want: set<(nat, nat)>, i: nat)
    requires Fits(entries) && Wanted(entries, c, want) && i < |entries| && IsReserved(entries[i])
    ensures forall page :: WindowStart(entries, i) / FRAME_SIZE <= page < WindowStart(entries, i) / FRAME_SIZE + PagesOf(entries[i].size) ==> (c, page / 512) in want
  {
    var first := WindowStart(entries, i) / FRAME_SIZE;
    forall page | first <= page < first + PagesOf(entries[i].size)
      ensures (c, page / 512) in want
    {
      assert InWindow(entries, i, page - first);
    }
  }

  // ---------------------------------------------------------------- all cores

  /** Placing again gives every entry the same window and asks for the same links. */
  lemma PlacingAgain(entries: seq<Entry>, want: set<(nat, nat)>)
    requires Fits(entries)
    ensures Fits(AllPlaced(entries)) && AllPlaced(AllPlaced(entries)) == AllPlaced(entries)
    ensures forall c :: Wanted(entries, c, want) ==> Wanted(AllPlaced(entries), c, want)
  {
    var placed := AllPlaced(entries);
    forall i | 0 <= i < |entries|
      ensures TopBefore(placed, i) == TopBefore(entries, i) && WindowStart(placed, i) == WindowStart(entries, i)
    {
      SameTop(entries, placed, i);
    }
    hide TopBefore;
    forall i | 0 <= i < |entries|
      ensures PlacedEntry(placed, i) == placed[i]
    {
      assert placed[i] == PlacedEntry(entries, i);
    }
    hide WindowStart;
    forall i, k | 0 <= i < |entries| && 0 <= k && InWindow(placed, i, k)
      ensures InWindow(entries, i, k)
    {
      assert placed[i] == PlacedEntry(entries, i);
    }
  }

  lemma {:induction false} MapPlacedWindows(view: map<(nat, nat), Word>, c: nat, entries: seq<Entry>, n: nat)
    requires Fits(entries) && Fits(AllPlaced(entries)) && n <= |entries|
    ensures MapWindows(view, c, AllPlaced(entries), n) == MapWindows(view, c, entries, n)
  {
    hide MapRange, Fits;
    if n > 0 {
      MapPlacedWindows(view, c, entries, n - 1);
      SameTop(entries, AllPlaced(entries), n - 1);
      assert AllPlaced(entries)[n - 1] == PlacedEntry(entries, n - 1);
    }
  }

  /** The maps of the cores after RefreshReserved has passed the first n of them. */
  ghost function Refreshed(view: map<(nat, nat), Word>, entries: seq<Entry>, n: nat): map<(nat, nat), Word>
    requires Fits(entries)
  {
    if n == 0 then view else MapWindows(Refreshed(view, entries, n - 1), n - 1, entries, |entries|)
  }

  /** The maps of the cores after BuildApCoresPageTables has built the cores 1, ..., n - 1. */
  ghost function BuiltMaps(view: map<(nat, nat), Word>, entries: seq<Entry>, n: nat): map<(nat, nat), Word>
    requires Fits(entries)
  {
    if n <= 1 then view
    else MapWindows(MapRange(BuiltMaps(view, entries, n - 1), n - 1, 0, 0, KERNEL_PAGES), n - 1, entries, |entries|)
  }

  /** RefreshReserved: the windows are mapped on one core after the other.  The loop counts in 8 bits. */
  method RefreshReserved(vm: VirtualMemory, table: MemoryTable, cores: nat, ghost want: set<(nat, nat)>)
    requires cores <= 255
    requires vm.Valid() && table.Valid() && Fits(table.Entries()) && Enough(vm.layout, vm.Now(), want)
    requires forall c :: 0 <= c < cores ==> c in vm.active && Wanted(table.Entries(), c, want)
    requires {vm.mem, vm.blockMap, vm as object} !! {table, table.physicalMemoryEntry}
    modifies vm, vm.mem, vm.blockMap, table.physicalMemoryEntry
    ensures vm.Valid() && table.Valid() && Enough(vm.layout, vm.Now(), want)
    ensures vm.active == old(vm.active)
    ensures table.Entries() == if cores == 0 then old(table.Entries()) else AllPlaced(old(table.Entries()))
    ensures vm.view == Refreshed(old(vm.view), old(table.Entries()), cores)
  {
    hide Represents, Enough, Fits, Wanted, MapWindows, PlacedEntry;
    ghost var entries := table.Entries();
    PlacingAgain(entries, want);
    for i := 0 to cores
      invariant vm.Valid() && table.Valid() && Enough(vm.layout, vm.Now(), want) && vm.active == old(vm.active)
      invariant table.Entries() == if i == 0 then entries else AllPlaced(entries)
      invariant vm.view == Refreshed(old(vm.view), entries, i)
    {
      MapPlacedWindows(vm.view, i, entries, |entries|);
      MapReservedMemory(vm, table, i, want);
    }
  }

  /** BuildApCoresPageTables: tables, the kernel's memory and the windows for every core but the first. */
  method BuildApCoresPageTables(vm: VirtualMemory, table: MemoryTable, cores: nat, ghost want: set<(nat, nat)>)
    requires vm.Valid() && table.Valid() && Fits(table.Entries()) && Enough(vm.layout, vm.Now(), want)
    requires 1 <= cores <= |vm.layout.tables|
    requires forall c :: 1 <= c < cores ==> c !in vm.active && Wanted(table.Entries(), c, want)
    requires forall c, s :: 1 <= c < cores && 0 <= s < 375 ==> (c, s) in want
    requires {vm.mem, vm.blockMap, vm as object} !! {table, table.physicalMemoryEntry}
    modifies vm, vm.mem, vm.blockMap, table.physicalMemoryEntry
    ensures vm.Valid() && table.Valid() && Enough(vm.layout, vm.Now(), want)
    ensures forall c :: c in vm.active <==> c in old(vm.active) || 1 <= c < cores
    ensures table.Entries() == if cores == 1 then old(table.Entries()) else AllPlaced(old(table.Entries()))
    ensures vm.view == BuiltMaps(old(vm.view), old(table.Entries()), cores)
  {
    hide Represents, Enough, Fits, Wanted, MapWindows, MapRange, PlacedEntry;
    ghost var entries := table.Entries();
    PlacingAgain(entries, want);
    for i := 1 to cores
      invariant vm.Valid() && table.Valid() && Enough(vm.layout, vm.Now(), want)
      invariant forall c :: c in vm.active <==> c in old(vm.active) || 1 <= c < i
      invariant table.Entries() == if i == 1 then entries else AllPlaced(entries)
      invariant vm.view == BuiltMaps(old(vm.view), entries, i)
    {
      ghost var before := vm.Now();
      vm.BuildTable(i);
      BuildKeepsEnough(vm.layout, before, vm.Now(), want);
      MapKernelUsableMemory(vm, i, want);
      MapPlacedWindows(vm.view, i, entries, |entries|);
      MapReservedMemory(vm, table, i, want);
    }
  }

  lemma BuildKeepsEnough(l: Layout, m: State, n: State, want: set<(nat, nat)>)
    requires Enough(l, m, want) && Represents(l, n) && n.slots == m.slots && n.free == m.free
    ensures Enough(l, n, want)
  {
    hide LayoutOk, UpperOk, SlotsOk, KeysOk, BlocksOk;
  }

  /** Every page of every window is mapped to its own frame on core c. */
  ghost predicate HoldsWindows(view: map<(nat, nat), Word>, c: nat, entries: seq<Entry>)
    requires Fits(entries)
  {
    forall i, k :: 0 <= i < |entries| && 0 <= k && InWindow(entries, i, k) ==>
      var key := (c, WindowStart(entries, i) / FRAME_SIZE + k);
      key in view && view[key] == PageFlags(entries[i].start + k * FRAME_SIZE)
  }

  lemma HoldsAfterMapping(view: map<(nat, nat), Word>, c: nat, entries: seq<Entry>)
    requires Fits(entries)
    ensures HoldsWindows(MapWindows(view, c, entries, |entries|), c, entries)
  {
    hide MapWindows, PageFlags, PagesOf, WindowStart;
    forall i, k | 0 <= i < |entries| && 0 <= k && InWindow(entries, i, k)
      ensures var key := (c, WindowStart(entries, i) / FRAME_SIZE + k); var after := MapWindows(view, c, entries, |entries|);
        key in after && after[key] == PageFlags(entries[i].start + k * FRAME_SIZE)
    {
      WindowsMapped(view, c, entries, |entries|, i, k);
    }
  }

  /** Mapping the windows of a core changes no other core, and no page below all windows. */
  lemma {:induction false} MapWindowsKeeps(view: map<(nat, nat), Word>, c: nat, entries: seq<Entry>, n: nat, key: (nat, nat))
    requires Fits(entries) && n <= |entries|
    requires key.0 != c || key.1 * FRAME_SIZE < TopBefore(entries, n)
    ensures var after := MapWindows(view, c, entries, n);
      (key in after <==> key in view) && (key in view ==> after[key] == view[key])
  {
    hide PageFlags, PagesOf;
    if n > 0 {
      var e := entries[n - 1];
      TopFalls(entries, n - 1, n);
      MapWindowsKeeps(view, c, entries, n - 1, key);
      if IsReserved(e) {
        LastFrameFits(e);
        assert TopBefore(entries, n) == WindowStart(entries, n - 1) - FRAME_SIZE;
        MapRangeAt(MapWindows(view, c, entries, n - 1), c, WindowStart(entries, n - 1) / FRAME_SIZE, e.start, PagesOf(e.size), key);
      }
    }
  }

  lemma OthersKeepHolding(view: map<(nat, nat), Word>, c: nat, entries: seq<Entry>, after: map<(nat, nat), Word>)
    requires Fits(entries) && HoldsWindows(view, c, entries)
    requires forall key :: key in view && key.0 == c ==> key in after && after[key] == view[key]
    ensures HoldsWindows(after, c, entries)
  {
    hide PageFlags, PagesOf, WindowStart, Fits;
  }

  /** After RefreshReserved every core holds every window. */
  lemma {:induction false} RefreshMapsEveryCore(view: map<(nat, nat), Word>, entries: seq<Entry>, cores: nat, c: nat)
    requires Fits(entries) && c < cores
    ensures HoldsWindows(Refreshed(view, entries, cores), c, entries)
  {
    hide HoldsWindows, MapWindows, Fits, TopBefore;
    var before := Refreshed(view, entries, cores - 1);
    if c == cores - 1 {
      HoldsAfterMapping(before, c, entries);
    } else {
      RefreshMapsEveryCore(view, entries, cores - 1, c);
      forall key | key in before && key.0 == c
        ensures key in Refreshed(view, entries, cores) && Refreshed(view, entries, cores)[key] == before[key]
      {
        MapWindowsKeeps(before, cores - 1, entries, |entries|, key);
      }
      OthersKeepHolding(before, c, entries, Refreshed(view, entries, cores));
    }
  }

  /** The first 750 MiB are mapped one to one on core c. */
  ghost predicate HoldsKernel(view: map<(nat, nat), Word>, c: nat) {
    forall page: nat :: page * 0x1000 < 0x2EE0_0000 ==> (c, page) in view && view[(c, page)] == PageFlags(page * FRAME_SIZE)
  }

  /** After BuildApCoresPageTables every built core holds every window, and the kernel's memory one to
      one when the windows end above it. */
  lemma {:induction false} BuildMapsEveryCore(view: map<(nat, nat), Word>, entries: seq<Entry>, cores: nat, c: nat)
    requires Fits(entries) && 1 <= c < cores
    ensures HoldsWindows(BuiltMaps(view, entries, cores), c, entries)
    ensures TopBefore(entries, |entries|) >= 0x2EE0_0000 ==> HoldsKernel(BuiltMaps(view, entries, cores), c)
  {
    hide HoldsWindows, HoldsKernel, MapWindows, MapRange, Fits, TopBefore;
    var before := BuiltMaps(view, entries, cores - 1);
    if c == cores - 1 {
      HoldsAfterMapping(MapRange(before, c, 0, 0, KERNEL_PAGES), c, entries);
      if TopBefore(entries, |entries|) >= KERNEL_MEMORY_SIZE { KernelBelowWindows(before, c, entries); }
    } else {
      BuildMapsEveryCore(view, entries, cores - 1, c);
      forall key | key in before && key.0 == c
        ensures key in BuiltMaps(view, entries, cores) && BuiltMaps(view, entries, cores)[key] == before[key]
      {
        MapRangeAt(before, cores - 1, 0, 0, KERNEL_PAGES, key);
        MapWindowsKeeps(MapRange(before, cores - 1, 0, 0, KERNEL_PAGES), cores - 1, entries, |entries|, key);
      }
      OthersKeepHolding(before, c, entries, BuiltMaps(view, entries, cores));
      if HoldsKernel(before, c) { OthersKeepKernel(before, c, BuiltMaps(view, entries, cores)); }
    }
  }

  lemma OthersKeepKernel(view: map<(nat, nat), Word>, c: nat, after: map<(nat, nat), Word>)
    requires HoldsKernel(view, c)
    requires forall key :: key in view && key.0 == c ==> key in after && after[key] == view[key]
    ensures HoldsKernel(after, c)
  {
    hide PageFlags;
  }

  lemma KernelBelowWindows(view: map<(nat, nat), Word>, c: nat, entries: seq<Entry>)
    requires Fits(entries) && TopBefore(entries, |entries|) >= KERNEL_MEMORY_SIZE
    ensures HoldsKernel(MapWindows(MapRange(view, c, 0, 0, KERNEL_PAGES), c, entries, |entries|), c)
  {
    hide PageFlags, MapWindows, MapRange, Fits, TopBefore;
    var kernel := MapRange(view, c, 0, 0, KERNEL_PAGES);
    forall page: nat | page * 0x1000 < 0x2EE0_0000
      ensures var after := MapWindows(kernel, c, entries, |entries|);
        (c, page) in after && after[(c, page)] == PageFlags(page * FRAME_SIZE)
    {
      MapRangeAt(view, c, 0, 0, KERNEL_PAGES, (c, page));
      MapWindowsKeeps(kernel, c, entries, |entries|, (c, page));
    }
  }

  // ---------------------------------------------------------------- translation

  /** On a core that holds the windows: for every address in the range of a page-aligned entry of type 2, 3 or 4
      above 1 MiB, and in the range of no earlier entry, the walk at the answer of GetVirtualAddress finds the
      frame of that address. */
  lemma ReservedAddressTranslates(l: Layout, m: State, c: nat, entries: seq<Entry>, i: nat, p: nat)
    requires Represents(l, m) && c in m.active && Fits(entries) && HoldsWindows(m.view, c, entries) && EndsMatch(entries)
    requires i < |entries| && entries[i].start > 0x10_0000 && 2 <= entries[i].kind <= 4 && entries[i].start % 0x1000 == 0
    requires entries[i].start <= p < entries[i].start + entries[i].size
    requires forall j :: 0 <= j < i ==> !(entries[j].start <= p < entries[j].start + entries[j].size)
    ensures var va := VirtualAddress(AllPlaced(entries), p);
      va < VIRTUAL_LIMIT && V2p(m.mem, l.tables[c].pgd, va).Some?
      && V2p(m.mem, l.tables[c].pgd, va).value / 0x1000 == p / 0x1000
  {
    hide Represents, V2p, PageFlags, TopBefore, WindowStart, HoldsWindows, FirstContaining;
    var placed := AllPlaced(entries);
    FirstRange(placed, p, i);
    assert placed[i] == PlacedEntry(entries, i);
    hide AllPlaced, Fits;
    WindowAddress(m.view, c, entries, i, p - entries[i].start);
    ViewHasBlock(l, m, c, WindowStart(entries, i) + (p - entries[i].start));
  }

  /** Once the entries are placed, an address in the range of an entry that is neither reserved nor a hole is its
      own virtual address. */
  lemma UsableAddressIsItself(entries: seq<Entry>, i: nat, p: nat)
    requires EndsMatch(entries) && i < |entries| && p < 0x1_0000_0000_0000_0000
    requires entries[i].kind != 6 && (entries[i].start <= 0x10_0000 || entries[i].kind < 2 || entries[i].kind > 4)
    requires entries[i].start <= p < entries[i].start + entries[i].size
    requires forall j :: 0 <= j < i ==> !(entries[j].start <= p < entries[j].start + entries[j].size)
    ensures VirtualAddress(AllPlaced(entries), p) == p
  {
    hide TopBefore, WindowStart, FirstContaining;
    FirstRange(AllPlaced(entries), p, i);
    assert AllPlaced(entries)[i] == PlacedEntry(entries, i);
  }

  /** With no holes in the table and all windows above 0, the answer for a positive address is 0 exactly when no
      range holds it. */
  lemma ZeroIffNowhere(entries: seq<Entry>, p: nat)
    requires EndsMatch(entries) && Fits(entries) && 0 < p < 0x1_0000_0000_0000_0000
    requires forall i :: 0 <= i < |entries| ==> entries[i].kind != 6 && (IsReserved(entries[i]) ==> WindowStart(entries, i) > 0)
    ensures VirtualAddress(AllPlaced(entries), p) == 0
       <==> forall j :: 0 <= j < |entries| ==> !(entries[j].start <= p < entries[j].start + entries[j].size)
  {
    hide TopBefore, WindowStart, FirstContaining;
    var placed := AllPlaced(entries);
    var i := FirstContaining(placed, 0, p);
    assert forall j :: 0 <= j < |entries| ==> placed[j] == PlacedEntry(entries, j);
    if i < |entries| {
      assert Contains(placed[i], p);
      if IsReserved(entries[i]) {
        WindowAligned(entries, i);
        OffsetInWindow(entries[i].start, p - entries[i].start, entries[i].size);
      }
    } else {
      forall j | 0 <= j < |entries|
        ensures !(entries[j].start <= p < entries[j].start + entries[j].size)
      {
        assert !Contains(placed[j], p);
      }
    }
  }

  lemma OffsetInWindow(start: nat, offset: nat, size: nat)
    requires offset < size
    ensures offset < PagesOf(size) * FRAME_SIZE
  {}

  /** An offset into a reserved range, moved to its window, is mapped to the frame it came from. */
  lemma WindowAddress(view: map<(nat, nat), Word>, c: nat, entries: seq<Entry>, i: nat, offset: nat)
    requires Fits(entries) && HoldsWindows(view, c, entries)
    requires i < |entries| && IsReserved(entries[i]) && entries[i].start % FRAME_SIZE == 0
    requires offset < entries[i].size
    ensures var va := WindowStart(entries, i) + offset;
      && 0 <= va < VIRTUAL_LIMIT && (c, va / FRAME_SIZE) in view
      && view[(c, va / FRAME_SIZE)] / FRAME_SIZE == (entries[i].start + offset) / FRAME_SIZE
  {
    hide PageFlags;
    var e := entries[i];
    var k := offset / FRAME_SIZE;
    assert WindowStart(entries, i) >= 0;
    WindowAligned(entries, i);
    OffsetPage(WindowStart(entries, i), offset, e.size);
    OffsetPage(e.start, offset, e.size);
    assert InWindow(entries, i, k);
    hide PagesOf, WindowStart, TopBefore, Fits;
    FlagsKeepFrame(e.start + k * FRAME_SIZE);
    DivUnique(e.start + k * FRAME_SIZE, FRAME_SIZE, e.start / FRAME_SIZE + k, 0);
  }

  lemma OffsetPage(start: nat, offset: nat, size: nat)
    requires start % FRAME_SIZE == 0 && offset < size
    ensures (start + offset) / FRAME_SIZE == start / FRAME_SIZE + offset / FRAME_SIZE
    ensures offset / FRAME_SIZE < PagesOf(size)
    ensures start + offset < start + PagesOf(size) * FRAME_SIZE
  {
    DivUnique(start + offset, FRAME_SIZE, start / FRAME_SIZE + offset / FRAME_SIZE, offset % FRAME_SIZE);
  }

  lemma ViewHasBlock(l: Layout, m: State, c: nat, va: nat)
    requires Represents(l, m) && c in m.active && va < VIRTUAL_LIMIT && (c, va / FRAME_SIZE) in m.view
    ensures V2p(m.mem, l.tables[c].pgd, va) == Some(m.view[(c, va / FRAME_SIZE)])
  {
    hide Represents, V2p;
    PageInBlock(l, m, c, va);
    WalkReadsView(l, m, c, va);
  }
}
