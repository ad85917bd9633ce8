/** AllocateSharedMemoryTwoMb and DeallocateSharedMemoryTwoMb: 2 MiB pages mapped alike on every core,
    over the frame allocator and the page tables in place. */
module SharedMapping {
  import opened Words
  import opened FrameAllocator
  import opened SharedFrames
  import opened PageTables
  import opened PageTableMachine

  /** The loops run while start <= first + size: one page more than size / 2 MiB. */
  function PageCount(size: nat): nat { size / COLLECTION_SIZE + 1 }

  /** Slot s set alike on the cores 0, ..., cores - 1. */
  function OnCores(slots: map<(nat, nat), Slot>, cores: nat, s: nat, slot: Slot): map<(nat, nat), Slot> {
    if cores == 0 then slots else OnCores(slots, cores - 1, s, slot)[(cores - 1, s) := slot]
  }

  /** The slots s0, s0 + 1, ... set alike on all cores, one word each. */
  function OnPages(slots: map<(nat, nat), Slot>, cores: nat, s0: nat, words: seq<Word>): map<(nat, nat), Slot> {
    if words == [] then slots
    else OnCores(OnPages(slots, cores, s0, words[..|words| - 1]), cores, s0 + |words| - 1, TwoMiB(words[|words| - 1]))
  }

  lemma {:induction false} OnCoresAt(slots: map<(nat, nat), Slot>, cores: nat, s: nat, slot: Slot, key: (nat, nat))
    ensures var after := OnCores(slots, cores, s, slot);
      if key.0 < cores && key.1 == s then key in after && after[key] == slot
      else (key in after <==> key in slots) && (key in slots ==> after[key] == slots[key])
  {
    if cores > 0 { OnCoresAt(slots, cores - 1, s, slot, key); }
  }

  lemma {:induction false} OnPagesAt(slots: map<(nat, nat), Slot>, cores: nat, s0: nat, words: seq<Word>, key: (nat, nat))
    ensures var after := OnPages(slots, cores, s0, words);
      if key.0 < cores && s0 <= key.1 < s0 + |words| then key in after && after[key] == TwoMiB(words[key.1 - s0])
      else (key in after <==> key in slots) && (key in slots ==> after[key] == slots[key])
    decreases |words|
  {
    if words != [] {
      var n := |words| - 1;
      OnPagesAt(slots, cores, s0, words[..n], key);
      OnCoresAt(OnPages(slots, cores, s0, words[..n]), cores, s0 + n, TwoMiB(words[n]), key);
    }
  }

  /** Every core's tables are built, and no core has 4 KiB pages linked in the slots s0, ..., s0 + n - 1. */
  ghost predicate CanShare(l: Layout, m: State, s0: nat, n: nat) {
    && Sized(l, m) && |l.tables| > 0
    && (forall c :: 0 <= c < |l.tables| ==> c in m.active)
    && s0 + n <= SLOTS
    && forall c, s :: 0 <= c < |l.tables| && s0 <= s < s0 + n && (c, s) in m.slots ==> !m.slots[(c, s)].Block?
  }

  /** One iteration of the allocation loop: the first core gets a fresh collection, the others the same one. */
  method LinkOnAllCores(vm: VirtualMemory, pm: PhysicalMemoryManager, start: nat) returns (word: Word)
    requires vm.Valid() && pm.Valid() && start < VIRTUAL_LIMIT
    requires CanShare(vm.layout, vm.Now(), start / COLLECTION_SIZE, 1)
    requires {vm.mem, vm.blockMap, vm as object} !! {pm.bitmap, pm.collections}
    modifies vm, vm.mem, pm.bitmap, pm.collections
    ensures vm.Valid() && pm.Valid()
    ensures var (g, address) := AllocCollection(old(pm.View())); pm.View() == g && word == PageFlags(address)
    ensures vm.active == old(vm.active) && vm.view == old(vm.view)
    ensures vm.slots == OnCores(old(vm.slots), |vm.layout.tables|, start / COLLECTION_SIZE, TwoMiB(word))
  {
    hide Represents, PageFlags, AllocCollection;
    assert Covered(pm.View());
    hide Consistent;
    ghost var m := vm.Now();
    ghost var s := start / COLLECTION_SIZE;
    var address, idx := 0, 0;
    word := 0;
    for core := 0 to |vm.layout.tables|
      invariant vm.Valid() && pm.Valid()
      invariant idx == 0 <==> core == 0
      invariant core == 0 ==> pm.View() == old(pm.View())
      invariant core > 0 ==> address < WORD_LIMIT && (pm.View(), address) == AllocCollection(old(pm.View())) && word == PageFlags(address)
      invariant vm.active == m.active && vm.view == m.view
      invariant vm.slots == OnCores(m.slots, core, s, TwoMiB(word))
    {
      OnCoresAt(m.slots, core, s, TwoMiB(word), (core, s));
      if idx == 0 {
        var stumbled;
        address, stumbled := pm.AllocateOnePhysicalFrameCollection();
        idx := idx + 1;
      }
      vm.LinkThirdStageToCollectionPhysical(core, start, address);
      word := PageFlags(address);
    }
  }

  /** AllocateSharedMemoryTwoMb: page j of the range gets word j on every core. */
  method AllocateSharedMemoryTwoMb(vm: VirtualMemory, pm: PhysicalMemoryManager, va: nat, size: nat)
    returns (ghost words: seq<Word>)
    requires vm.Valid() && pm.Valid() && va + size < VIRTUAL_LIMIT
    requires CanShare(vm.layout, vm.Now(), va / COLLECTION_SIZE, PageCount(size))
    requires {vm.mem, vm.blockMap, vm as object} !! {pm.bitmap, pm.collections}
    modifies vm, vm.mem, pm.bitmap, pm.collections
    ensures vm.Valid() && pm.Valid()
    ensures (pm.View(), words) == AllocPages(old(pm.View()), PageCount(size))
    ensures vm.active == old(vm.active) && vm.view == old(vm.view)
    ensures vm.slots == OnPages(old(vm.slots), |vm.layout.tables|, va / COLLECTION_SIZE, words)
  {
    hide Represents, PageFlags, AllocCollection, OnPages, OnCores;
    assert Covered(pm.View());
    hide Consistent;
    NoPages(vm.slots, |vm.layout.tables|, va / COLLECTION_SIZE);
    ghost var m := vm.Now();
    ghost var s0 := va / COLLECTION_SIZE;
    ghost var n := 0;
    words := [];
    var start := va;
    while start <= va + size
      invariant start == va + n * COLLECTION_SIZE && n <= PageCount(size)
      invariant vm.Valid() && pm.Valid() && |words| == n
      invariant (pm.View(), words) == AllocPages(old(pm.View()), n)
      invariant vm.active == m.active && vm.view == m.view
      invariant vm.slots == OnPages(m.slots, |vm.layout.tables|, s0, words)
      decreases va + size + COLLECTION_SIZE - start
    {
      SlotOfPage(va, size, n);
      StillShareable(vm.layout, m, vm.Now(), s0, words, PageCount(size));
      var word := LinkOnAllCores(vm, pm, start);
      PushPage(m.slots, |vm.layout.tables|, s0, words, word);
      words := words + [word];
      start := start + COLLECTION_SIZE;
      n := n + 1;
    }
  }

  lemma NoPages(slots: map<(nat, nat), Slot>, cores: nat, s0: nat)
    ensures OnPages(slots, cores, s0, []) == slots
  {}

  lemma PushPage(slots: map<(nat, nat), Slot>, cores: nat, s0: nat, words: seq<Word>, word: Word)
    ensures OnPages(slots, cores, s0, words + [word]) == OnCores(OnPages(slots, cores, s0, words), cores, s0 + |words|, TwoMiB(word))
    ensures (words + [word])[..|words|] == words
  {
    assert (words + [word])[..|words|] == words;
  }

  lemma SlotOfPage(va: nat, size: nat, n: nat)
    requires va + n * COLLECTION_SIZE <= va + size
    ensures (va + n * COLLECTION_SIZE) / COLLECTION_SIZE == va / COLLECTION_SIZE + n
    ensures n < PageCount(size)
  {
    DivUnique(va + n * COLLECTION_SIZE, COLLECTION_SIZE, va / COLLECTION_SIZE + n, va % COLLECTION_SIZE);
  }

  lemma StillShareable(l: Layout, m: State, now: State, s0: nat, words: seq<Word>, n: nat)
    requires CanShare(l, m, s0, n) && Sized(l, now) && now.active == m.active && |words| < n
    requires now.slots == OnPages(m.slots, |l.tables|, s0, words)
    ensures CanShare(l, now, s0 + |words|, 1)
  {
    forall c, s | 0 <= c < |l.tables| && s == s0 + |words| && (c, s) in now.slots
      ensures !now.slots[(c, s)].Block?
    {
      OnPagesAt(m.slots, |l.tables|, s0, words, (c, s));
    }
  }

  /** After sharing, the walk from any core's PGD finds the same word for the same page. */
  lemma AllCoresAgree(l: Layout, before: map<(nat, nat), Slot>, m: State, s0: nat, words: seq<Word>, c: nat, j: nat, va: nat)
    requires Represents(l, m) && c in m.active && j < |words| && va < VIRTUAL_LIMIT
    requires m.slots == OnPages(before, |l.tables|, s0, words)
    requires va / COLLECTION_SIZE == s0 + j
    ensures ThirdLevel(m.mem, l.tables[c].pgd, va) == Some(words[j])
    ensures V2p2m(m.mem, l.tables[c].pgd, va) == Some(words[j] / FRAME_SIZE * FRAME_SIZE + va % COLLECTION_SIZE)
  {
    hide ThirdLevel, Represents, OnPages;
    WalkReadsSlot(l, m, c, va);
    OnPagesAt(before, |l.tables|, s0, words, (c, s0 + j));
  }

  // ---------------------------------------------------------------- releasing

  /** DeallocateVirtualMemoryCollection: frees the collection the slot word names, then marks the slot. */
  method DeallocateVirtualMemoryCollection(vm: VirtualMemory, pm: PhysicalMemoryManager, c: nat, start: nat)
    requires vm.Valid() && pm.Valid() && CanSetSlot(vm.layout, vm.Now(), c, start)
    requires FreeableWord(pm.View(), SlotWord(vm.layout, vm.Now(), c, start / COLLECTION_SIZE))
    requires {vm.mem, vm.blockMap, vm as object} !! {pm.bitmap, pm.collections}
    modifies vm, vm.mem, pm.bitmap, pm.collections
    ensures vm.Valid() && pm.Valid()
    ensures pm.View() == FreeCollection(old(pm.View()), SlotWord(vm.layout, old(vm.Now()), c, start / COLLECTION_SIZE))
    ensures vm.active == old(vm.active) && vm.view == old(vm.view)
    ensures vm.slots == old(vm.slots)[(c, start / COLLECTION_SIZE) := Freed]
  {
    hide Consistent, LayoutOk, UpperOk, BlocksOk, KeysOk;
    ghost var m := vm.Now();
    vm.SlotIndexIsSlotCell(c, start);
    SplitAddress(start);
    var word := vm.mem[vm.SlotIndex(c, start)];
    assert word == m.mem[SlotCell(vm.layout, c, start / COLLECTION_SIZE)];
    pm.DeallocateOnePhysicalFrameCollection(word);
    assert vm.mem[..] == m.mem && vm.blockMap[..] == old(vm.blockMap[..]);
    assert vm.Now() == m;
    vm.MarkSlotFreed(c, start);
  }

  /** The words a core holds in n consecutive slots. */
  function CoreWords(l: Layout, m: State, c: nat, s0: nat, n: nat): (words: seq<nat>)
    ensures |words| == n
    ensures forall j :: 0 <= j < n ==> words[j] == SlotWord(l, m, c, s0 + j)
  {
    seq<nat>(n, j requires 0 <= j < n => SlotWord(l, m, c, s0 + j))
  }

  ghost predicate AllFreeable(f: Frames, l: Layout, m: State, s0: nat, n: nat) {
    forall c :: 0 <= c < |l.tables| ==> FreeableWords(f, CoreWords(l, m, c, s0, n))
  }

  /** Every core in turn frees the words it held when the release began. */
  ghost function FreeCores(f: Frames, l: Layout, m: State, s0: nat, n: nat, cores: nat): (g: Frames)
    requires AllFreeable(f, l, m, s0, n) && cores <= |l.tables|
    ensures |g.bits| == |f.bits| && |g.counts| == |f.counts|
  {
    if cores == 0 then f
    else FreePages(FreeCores(f, l, m, s0, n, cores - 1), CoreWords(l, m, cores - 1, s0, n))
  }

  /** Slots freed so far: all of the range on cores before `core`, the first j on `core` itself. */
  ghost predicate FreedUpTo(before: map<(nat, nat), Slot>, after: map<(nat, nat), Slot>, s0: nat, n: nat, core: nat, j: nat) {
    forall c: nat, s: nat ::
      if s0 <= s < s0 + n && (c < core || (c == core && s < s0 + j)) then (c, s) in after && after[(c, s)] == Freed
      else ((c, s) in after <==> (c, s) in before) && ((c, s) in before ==> after[(c, s)] == before[(c, s)])
  }

  /** The inner loop of DeallocateSharedMemoryTwoMb, for one core; m is the state when the release began. */
  method ReleaseOnCore(vm: VirtualMemory, pm: PhysicalMemoryManager, va: nat, size: nat, core: nat, ghost m: State)
    requires vm.Valid() && pm.Valid() && va + size < VIRTUAL_LIMIT && core < |vm.layout.tables|
    requires CanShare(vm.layout, m, va / COLLECTION_SIZE, PageCount(size)) && vm.active == m.active
    requires FreedUpTo(m.slots, vm.slots, va / COLLECTION_SIZE, PageCount(size), core, 0)
    requires FreeableWords(pm.View(), CoreWords(vm.layout, m, core, va / COLLECTION_SIZE, PageCount(size)))
    requires {vm.mem, vm.blockMap, vm as object} !! {pm.bitmap, pm.collections}
    modifies vm, vm.mem, pm.bitmap, pm.collections
    ensures vm.Valid() && pm.Valid() && vm.active == m.active && vm.view == old(vm.view)
    ensures pm.View() == FreePages(old(pm.View()), CoreWords(vm.layout, m, core, va / COLLECTION_SIZE, PageCount(size)))
    ensures FreedUpTo(m.slots, vm.slots, va / COLLECTION_SIZE, PageCount(size), core + 1, 0)
  {
    hide UpperOk, SlotsOk, KeysOk, BlocksOk, Consistent, FreeCollection, LayoutOk, FreedUpTo, FreePages, Sized;
    ghost var s0, pages := va / COLLECTION_SIZE, PageCount(size);
    ghost var words := CoreWords(vm.layout, m, core, s0, pages);
    ghost var g := pm.View();
    ghost var n := 0;
    var start := va;
    FreeNoPages(g, words);
    while start <= va + size
      invariant start == va + n * COLLECTION_SIZE && n <= pages
      invariant vm.Valid() && pm.Valid() && vm.active == m.active && vm.view == old(vm.view) && Sized(vm.layout, vm.Now())
      invariant FreeableWords(g, words[..n])
      invariant pm.View() == FreePages(g, words[..n])
      invariant FreedUpTo(m.slots, vm.slots, s0, pages, core, n)
      decreases va + size + COLLECTION_SIZE - start
    {
      SlotOfPage(va, size, n);
      NotYetFreed(vm.layout, m, vm.Now(), s0, pages, core, n);
      FreePagesStep(g, words, n);
      ghost var slots := vm.slots;
      DeallocateVirtualMemoryCollection(vm, pm, core, start);
      FreedStep(m.slots, slots, s0, pages, core, n);
      start := start + COLLECTION_SIZE;
      n := n + 1;
    }
    assert n == pages && words[..n] == words;
    FreedRow(m.slots, vm.slots, s0, pages, core);
  }

  lemma FreeNoPages(g: Frames, words: seq<nat>)
    ensures FreeableWords(g, words[..0]) && FreePages(g, words[..0]) == g
  {}

  lemma FreedStep(before: map<(nat, nat), Slot>, after: map<(nat, nat), Slot>, s0: nat, n: nat, core: nat, j: nat)
    requires FreedUpTo(before, after, s0, n, core, j) && j < n
    ensures FreedUpTo(before, after[(core, s0 + j) := Freed], s0, n, core, j + 1)
  {}

  lemma FreedRow(before: map<(nat, nat), Slot>, after: map<(nat, nat), Slot>, s0: nat, n: nat, core: nat)
    requires FreedUpTo(before, after, s0, n, core, n)
    ensures FreedUpTo(before, after, s0, n, core + 1, 0)
  {}

  lemma NotYetFreed(l: Layout, m: State, now: State, s0: nat, n: nat, core: nat, j: nat)
    requires CanShare(l, m, s0, n) && Sized(l, now) && now.active == m.active && core < |l.tables| && j < n
    requires FreedUpTo(m.slots, now.slots, s0, n, core, j)
    ensures SlotWord(l, now, core, s0 + j) == SlotWord(l, m, core, s0 + j)
    ensures (core, s0 + j) in now.slots ==> !now.slots[(core, s0 + j)].Block?
  {
    var key: (nat, nat) := (core, s0 + j);
    assert key in now.slots <==> key in m.slots;
  }

  /** DeallocateSharedMemoryTwoMb: every core frees its own words, so a shared collection is freed
      once per core. */
  method DeallocateSharedMemoryTwoMb(vm: VirtualMemory, pm: PhysicalMemoryManager, va: nat, size: nat)
    requires vm.Valid() && pm.Valid() && va + size < VIRTUAL_LIMIT
    requires CanShare(vm.layout, vm.Now(), va / COLLECTION_SIZE, PageCount(size))
    requires AllFreeable(pm.View(), vm.layout, vm.Now(), va / COLLECTION_SIZE, PageCount(size))
    requires {vm.mem, vm.blockMap, vm as object} !! {pm.bitmap, pm.collections}
    modifies vm, vm.mem, pm.bitmap, pm.collections
    ensures vm.Valid() && pm.Valid()
    ensures pm.View() == FreeCores(old(pm.View()), vm.layout, old(vm.Now()), va / COLLECTION_SIZE, PageCount(size), |vm.layout.tables|)
    ensures vm.active == old(vm.active) && vm.view == old(vm.view)
    ensures FreedUpTo(old(vm.slots), vm.slots, va / COLLECTION_SIZE, PageCount(size), |vm.layout.tables|, 0)
  {
    hide Represents, Consistent, FreeCollection, LayoutOk;
    ghost var f := pm.View();
    ghost var m := vm.Now();
    ghost var s0, pages := va / COLLECTION_SIZE, PageCount(size);
    for core := 0 to |vm.layout.tables|
      invariant vm.Valid() && pm.Valid() && vm.active == m.active && vm.view == m.view
      invariant pm.View() == FreeCores(f, vm.layout, m, s0, pages, core)
      invariant FreedUpTo(m.slots, vm.slots, s0, pages, core, 0)
    {
      assert FreeableWords(f, CoreWords(vm.layout, m, core, s0, pages));
      ReleaseOnCore(vm, pm, va, size, core, m);
    }
  }

  lemma SharedCoreWords(l: Layout, before: map<(nat, nat), Slot>, m: State, s0: nat, n: nat, words: seq<Word>, c: nat)
    requires |words| == n && m.slots == OnPages(before, |l.tables|, s0, words) && c < |l.tables|
    ensures CoreWords(l, m, c, s0, n) == words
  {
    var mine := CoreWords(l, m, c, s0, n);
    forall j | 0 <= j < n
      ensures mine[j] == words[j]
    {
      OnPagesAt(before, |l.tables|, s0, words, (c, s0 + j));
    }
  }

  /** Releasing what was shared restores the frame bitmap and every counter, whatever the number of
      cores, although each core frees the same frames and although collections may have run out. */
  lemma ReleaseUndoesShare(f: Frames, l: Layout, before: map<(nat, nat), Slot>, m: State, s0: nat, n: nat, words: seq<Word>)
    requires Consistent(f) && Covered(f) && |l.tables| > 0
    requires words == AllocPages(f, n).1 && m.slots == OnPages(before, |l.tables|, s0, words)
    ensures var g := AllocPages(f, n).0;
      AllFreeable(g, l, m, s0, n) && FreeCores(g, l, m, s0, n, |l.tables|) == f
  {
    assert Covered(f);
    hide Consistent, AllocPages;
    var g := AllocPages(f, n).0;
    SharingConserves(f, n, |l.tables|);
    forall c | 0 <= c < |l.tables|
      ensures CoreWords(l, m, c, s0, n) == words
    {
      SharedCoreWords(l, before, m, s0, n, words, c);
    }
    SameWordsOnCores(g, l, m, s0, n, words, |l.tables|);
  }

  lemma {:induction false} SameWordsOnCores(g: Frames, l: Layout, m: State, s0: nat, n: nat, words: seq<nat>, cores: nat)
    requires |words| == n && cores <= |l.tables| && AllFreeable(g, l, m, s0, n)
    requires forall c :: 0 <= c < |l.tables| ==> CoreWords(l, m, c, s0, n) == words
    requires FreeableWords(g, words)
    ensures FreeCores(g, l, m, s0, n, cores) == FreeOnCores(g, words, cores)
  {
    if cores > 0 { SameWordsOnCores(g, l, m, s0, n, words, cores - 1); }
  }
}
