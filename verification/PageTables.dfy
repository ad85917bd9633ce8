/** The per-core four-level page tables of MemoryPageMap.c, held in one flat memory of 64-bit words.
    Page numbers stand for 4 KiB-aligned addresses: word k of page p is cell 512 * p + k.
    A table page owner is a core (its PGD, PUD and PMD pages) or the shared pool of last-level blocks.

    The values of this file describe what the code does to memory; PageTableMachine.dfy does it in place. */
module PageTables {
  import opened Words
  import opened Bitmap

  /** Virtual addresses the tables can map: 4 top-level entries of 512 GiB. */
  const VIRTUAL_LIMIT := 0x200_0000_0000
  const SLOTS := 0x10_0000
  const PAGES := 0x2000_0000

  /** First pages of a core's PGD (1 page), PUD (4 pages) and PMD (2048 pages). */
  datatype Table = Table(pgd: nat, pud: nat, pmd: nat)

  /** Memory of `pages` pages holding the cores' tables and `blocks` pool blocks from page `pool` on. */
  datatype Layout = Layout(pages: nat, tables: seq<Table>, pool: nat, blocks: nat)

  predicate Apart(a: nat, n: nat, b: nat, m: nat) { a + n <= b || b + m <= a }

  predicate ApartFromTable(a: nat, n: nat, t: Table) {
    Apart(a, n, t.pgd, 1) && Apart(a, n, t.pud, 4) && Apart(a, n, t.pmd, 2048)
  }

  predicate TableFits(l: Layout, t: Table) {
    && t.pgd + 1 <= l.pages && t.pud + 4 <= l.pages && t.pmd + 2048 <= l.pages
    && Apart(t.pgd, 1, t.pud, 4) && Apart(t.pgd, 1, t.pmd, 2048) && Apart(t.pud, 4, t.pmd, 2048)
    && ApartFromTable(l.pool, l.blocks, t)
  }

  predicate TablesApart(t: Table, u: Table) {
    ApartFromTable(t.pgd, 1, u) && ApartFromTable(t.pud, 4, u) && ApartFromTable(t.pmd, 2048, u)
  }

  /** All table pages and pool blocks lie in memory and do not overlap. */
  ghost predicate LayoutOk(l: Layout) {
    && l.pool + l.blocks <= l.pages
    && (forall c :: 0 <= c < |l.tables| ==> TableFits(l, l.tables[c]))
    && (forall c, d :: 0 <= c < |l.tables| && 0 <= d < |l.tables| && c != d ==> TablesApart(l.tables[c], l.tables[d]))
  }

  /** The cell of word k of a page. */
  function Cell(page: nat, k: nat): nat { 512 * page + k }

  /** The cell of word k of a pool block. */
  function BlockCell(l: Layout, block: nat, k: nat): nat { 512 * (l.pool + block) + k }

  /** The cell of slot s of a core's PMD pages. */
  function SlotCell(l: Layout, c: nat, s: nat): nat
    requires c < |l.tables|
  {
    512 * l.tables[c].pmd + s
  }

  /** The entry that points to a lower-level page. */
  function Pointer(page: nat): nat { TableFlags(page * FRAME_SIZE) }

  // ---------------------------------------------------------------- the software walk

  /** The word at index k of the page an entry points to; None outside memory. */
  function Entry(mem: seq<Word>, word: nat, k: nat): Option<Word> {
    if Cell(word / FRAME_SIZE, k) < |mem| then Some(mem[Cell(word / FRAME_SIZE, k)]) else None
  }

  /** The third-level entry the walk reads for va, from the PGD page. */
  function ThirdLevel(mem: seq<Word>, pgd: nat, va: nat): Option<Word> {
    match Entry(mem, pgd * FRAME_SIZE, va / 0x80_0000_0000 % 512)
    case None => None
    case Some(pud) =>
      match Entry(mem, pud, va / 0x4000_0000 % 512)
      case None => None
      case Some(pmd) => Entry(mem, pmd, va / 0x20_0000 % 512)
  }

  /** v2p: the walk through all four levels. */
  function V2p(mem: seq<Word>, pgd: nat, va: nat): Option<Word> {
    match ThirdLevel(mem, pgd, va)
    case None => None
    case Some(pte) => Entry(mem, pte, va / 0x1000 % 512)
  }

  /** v2p2m: the walk through three levels, then the 2 MiB offset. */
  function V2p2m(mem: seq<Word>, pgd: nat, va: nat): Option<nat> {
    match ThirdLevel(mem, pgd, va)
    case None => None
    case Some(word) => Some(word / FRAME_SIZE * FRAME_SIZE + va % 0x20_0000)
  }

  /** What BspLinkFirst3Levels leaves in the two upper levels. */
  ghost predicate Linked(l: Layout, mem: seq<Word>, t: Table)
    requires |mem| == 512 * l.pages && TableFits(l, t)
  {
    && (forall i :: 0 <= i < 4 ==> mem[Cell(t.pgd, i)] == Pointer(t.pud + i))
    && (forall j :: 0 <= j < 2048 ==> mem[Cell(t.pud, j)] == Pointer(t.pmd + j))
  }

  lemma EntryOfPage(mem: seq<Word>, page: nat, k: nat)
    requires Cell(page, k) < |mem|
    ensures Entry(mem, Pointer(page), k) == Some(mem[Cell(page, k)])
    ensures Entry(mem, page * FRAME_SIZE, k) == Some(mem[Cell(page, k)])
  {
    FlagsKeepFrame(page * FRAME_SIZE);
    DivUnique(page * FRAME_SIZE, FRAME_SIZE, page, 0);
  }

  /** The four 9-bit indices of an address below the mapped limit. */
  lemma SplitAddress(va: nat)
    requires va < VIRTUAL_LIMIT
    ensures va / 0x80_0000_0000 % 512 == va / 0x80_0000_0000 < 4
    ensures va / 0x4000_0000 == 512 * (va / 0x80_0000_0000) + va / 0x4000_0000 % 512 < 2048
    ensures va / 0x20_0000 == 512 * (va / 0x4000_0000) + va / 0x20_0000 % 512 < SLOTS
    ensures va / 0x1000 == 512 * (va / 0x20_0000) + va / 0x1000 % 512 < PAGES
  {}

  /** The full walk agrees with indexing the PMD pages directly by address / 2 MiB. */
  lemma WalkIsDirectIndex(l: Layout, mem: seq<Word>, t: Table, va: nat)
    requires |mem| == 512 * l.pages && TableFits(l, t) && Linked(l, mem, t) && va < VIRTUAL_LIMIT
    ensures Cell(t.pmd, va / 0x20_0000) < |mem|
    ensures ThirdLevel(mem, t.pgd, va) == Some(mem[Cell(t.pmd, va / 0x20_0000)])
  {
    hide TableFlags;
    SplitAddress(va);
    var i, j, s := va / 0x80_0000_0000, va / 0x4000_0000, va / 0x20_0000;
    EntryOfPage(mem, t.pgd, i);
    assert Cell(t.pud + i, j % 512) == Cell(t.pud, j);
    EntryOfPage(mem, t.pud + i, j % 512);
    assert Cell(t.pmd + j, s % 512) == Cell(t.pmd, s);
    EntryOfPage(mem, t.pmd + j, s % 512);
  }

  // ---------------------------------------------------------------- the tables as a map

  /** What a 2 MiB slot of a core is used for; a slot that is absent from the map has no table yet. */
  datatype Slot = Block(block: nat) | TwoMiB(word: Word) | Freed

  /** Memory and block bitmap (true = free), with the map from (core, page) to the entry linked there. */
  datatype State = State(
    mem: seq<Word>,
    free: seq<bool>,
    active: set<nat>,
    slots: map<(nat, nat), Slot>,
    view: map<(nat, nat), Word>)

  /** Blocks the allocator searches: whole bytes of the block bitmap only. */
  function Usable(l: Layout): nat { 8 * (l.blocks / 8) }

  function SlotWord(l: Layout, m: State, c: nat, s: nat): nat {
    if (c, s) !in m.slots then NO_ADDRESS
    else match m.slots[(c, s)]
      case Block(b) => Pointer(l.pool + b)
      case TwoMiB(word) => word
      case Freed => FREED_SLOT
  }

  function Lookup(view: map<(nat, nat), Word>, c: nat, page: nat): Word {
    if (c, page) in view then view[(c, page)] else 0
  }

  ghost predicate Sized(l: Layout, m: State) {
    && LayoutOk(l)
    && |m.mem| == 512 * l.pages && l.pages <= 0x100_0000_0000
    && |m.free| == 8 * l.blocks
    && forall c :: c in m.active ==> c < |l.tables|
  }

  ghost predicate UpperOk(l: Layout, m: State)
    requires Sized(l, m)
  {
    forall c :: c in m.active ==> Linked(l, m.mem, l.tables[c])
  }

  ghost predicate SlotsOk(l: Layout, m: State)
    requires Sized(l, m)
  {
    forall c, s :: c in m.active && 0 <= s < SLOTS ==> m.mem[SlotCell(l, c, s)] == SlotWord(l, m, c, s)
  }

  ghost predicate KeysOk(l: Layout, m: State)
    requires Sized(l, m)
  {
    && (forall c, s :: (c, s) in m.slots ==> c in m.active && s < SLOTS)
    && (forall key :: key in m.slots && m.slots[key].Block? ==>
          m.slots[key].block < Usable(l) && !m.free[m.slots[key].block])
    && (forall key, other :: key in m.slots && other in m.slots && m.slots[key].Block? && m.slots[key] == m.slots[other] ==> key == other)
    && (forall c, p :: (c, p) in m.view ==> p < PAGES && (c, p / 512) in m.slots && m.slots[(c, p / 512)].Block?)
    && (forall key :: key in m.view ==> m.view[key] % 2 == 1)
  }

  ghost predicate BlocksOk(l: Layout, m: State)
    requires Sized(l, m) && KeysOk(l, m)
  {
    && (forall c, s, k :: (c, s) in m.slots && m.slots[(c, s)].Block? && 0 <= k < 512 ==>
          m.mem[BlockCell(l, m.slots[(c, s)].block, k)] == Lookup(m.view, c, 512 * s + k))
    && (forall b, k :: 0 <= b < Usable(l) && m.free[b] && 0 <= k < 512 ==> m.mem[BlockCell(l, b, k)] == 0)
  }

  /** The tables of all active cores represent m.view. */
  ghost predicate Represents(l: Layout, m: State) {
    Sized(l, m) && UpperOk(l, m) && SlotsOk(l, m) && KeysOk(l, m) && BlocksOk(l, m)
  }

  /** v2p returns exactly the entry linked at the page, or finds nothing present there. */
  lemma WalkReadsView(l: Layout, m: State, c: nat, va: nat)
    requires Represents(l, m) && c in m.active && va < VIRTUAL_LIMIT
    requires (c, va / 0x20_0000) in m.slots ==> !m.slots[(c, va / 0x20_0000)].TwoMiB?
    ensures V2p(m.mem, l.tables[c].pgd, va)
         == if (c, va / 0x20_0000) in m.slots && m.slots[(c, va / 0x20_0000)].Block?
            then Some(Lookup(m.view, c, va / 0x1000)) else None
  {
    hide TableFlags;
    WalkIsDirectIndex(l, m.mem, l.tables[c], va);
    BlocksInMemory(l, m);
    hide LayoutOk, UpperOk, ThirdLevel;
    SplitAddress(va);
    var s, k := va / 0x20_0000, va / 0x1000 % 512;
    assert m.mem[SlotCell(l, c, s)] == SlotWord(l, m, c, s);
    if (c, s) in m.slots && m.slots[(c, s)].Block? {
      var b := m.slots[(c, s)].block;
      EntryOfPage(m.mem, l.pool + b, k);
      assert m.mem[BlockCell(l, b, k)] == Lookup(m.view, c, 512 * s + k);
    } else {
      assert SlotWord(l, m, c, s) / FRAME_SIZE == 0xF_FFFF_FFFF_FFFF;
      assert l.pages <= 0x100_0000_0000;
    }
  }

  /** A page in the map has the present bit and belongs to a slot that holds a block. */
  lemma PageInBlock(l: Layout, m: State, c: nat, va: nat)
    requires Represents(l, m) && (c, va / 0x1000) in m.view
    ensures (c, va / 0x20_0000) in m.slots && m.slots[(c, va / 0x20_0000)].Block?
    ensures m.view[(c, va / 0x1000)] % 2 == 1
  {
    hide UpperOk, SlotsOk, BlocksOk, LayoutOk;
    assert va / 0x1000 / 512 == va / 0x20_0000;
  }

  /** The walk down to the third level reads the word of the slot. */
  lemma WalkReadsSlot(l: Layout, m: State, c: nat, va: nat)
    requires Represents(l, m) && c in m.active && va < VIRTUAL_LIMIT
    ensures c < |l.tables| && ThirdLevel(m.mem, l.tables[c].pgd, va) == Some(SlotWord(l, m, c, va / 0x20_0000))
  {
    hide TableFlags, ThirdLevel, KeysOk, BlocksOk, SlotWord;
    WalkIsDirectIndex(l, m.mem, l.tables[c], va);
    SplitAddress(va);
    assert m.mem[SlotCell(l, c, va / 0x20_0000)] == SlotWord(l, m, c, va / 0x20_0000);
  }

  /** A released slot is not present to the processor, and is not the marker that would draw a new block. */
  lemma FreedIsAbsent(l: Layout, m: State, c: nat, va: nat)
    requires Represents(l, m) && c in m.active && va < VIRTUAL_LIMIT
    requires (c, va / 0x20_0000) in m.slots && m.slots[(c, va / 0x20_0000)] == Freed
    ensures var found := ThirdLevel(m.mem, l.tables[c].pgd, va);
      found.Some? && found.value % 2 == 0 && found.value != 0xFFFF_FFFF_FFFF_FFFF
    ensures V2p(m.mem, l.tables[c].pgd, va) == None
  {
    hide ThirdLevel, V2p, Represents;
    WalkReadsSlot(l, m, c, va);
    WalkReadsView(l, m, c, va);
  }

  // ---------------------------------------------------------------- LinkFourthStageToFramePhysical

  /** The slot already has a block, or a free one is left. */
  ghost predicate CanLink(l: Layout, m: State, c: nat, va: nat) {
    && Sized(l, m) && c in m.active && va < VIRTUAL_LIMIT
    && var key := (c, va / 0x20_0000);
       if key in m.slots then m.slots[key].Block? else LowestSet(m.free, 0, Usable(l)) < Usable(l)
  }

  function BlockFor(l: Layout, m: State, key: (nat, nat)): nat
    requires |m.free| == 8 * l.blocks
    requires key in m.slots ==> m.slots[key].Block?
  {
    if key in m.slots then m.slots[key].block else LowestSet(m.free, 0, Usable(l))
  }

  ghost function LinkFourth(l: Layout, m: State, c: nat, va: nat, physical: Word): (n: State)
    requires CanLink(l, m, c, va) && Represents(l, m)
  {
    var key := (c, va / 0x20_0000);
    var b := BlockFor(l, m, key);
    FlagsKeepFrame(physical);
    FlagsKeepFrame((l.pool + b) * FRAME_SIZE);
    State(m.mem[SlotCell(l, c, va / 0x20_0000) := Pointer(l.pool + b)][BlockCell(l, b, va / 0x1000 % 512) := PageFlags(physical)],
          m.free[b := false],
          m.active,
          m.slots[key := Block(b)],
          m.view[(c, va / 0x1000) := PageFlags(physical)])
  }

  /** Upper-level cells never coincide with a slot or with a cell of a pool block. */
  lemma UpperCellsApart(l: Layout, d: nat, c: nat, s: nat, b: nat, k: nat)
    requires LayoutOk(l) && d < |l.tables| && c < |l.tables| && s < SLOTS && b < l.blocks && k < 512
    ensures forall i :: 0 <= i < 4 ==> Cell(l.tables[d].pgd, i) !in {SlotCell(l, c, s), BlockCell(l, b, k)}
    ensures forall j :: 0 <= j < 2048 ==> Cell(l.tables[d].pud, j) !in {SlotCell(l, c, s), BlockCell(l, b, k)}
  {
    assert TableFits(l, l.tables[d]);
    assert TableFits(l, l.tables[c]);
    if d != c { assert TablesApart(l.tables[d], l.tables[c]); }
  }

  lemma LinkFourthUpper(l: Layout, m: State, c: nat, va: nat, physical: Word)
    requires CanLink(l, m, c, va) && Represents(l, m)
    ensures Sized(l, LinkFourth(l, m, c, va, physical)) && UpperOk(l, LinkFourth(l, m, c, va, physical))
  {
    hide TableFlags, PageFlags, SlotsOk, BlocksOk;
    SplitAddress(va);
    var b := BlockFor(l, m, (c, va / 0x20_0000));
    var n := LinkFourth(l, m, c, va, physical);
    forall d | d in m.active
      ensures Linked(l, n.mem, l.tables[d])
    {
      hide LayoutOk;
      UpperCellsApart(l, d, c, va / 0x20_0000, b, va / 0x1000 % 512);
      assert Linked(l, m.mem, l.tables[d]);
    }
  }

  lemma LinkFourthSlots(l: Layout, m: State, c: nat, va: nat, physical: Word)
    requires CanLink(l, m, c, va) && Represents(l, m)
    ensures Sized(l, LinkFourth(l, m, c, va, physical)) && SlotsOk(l, LinkFourth(l, m, c, va, physical))
  {
    hide TableFlags, PageFlags, UpperOk, BlocksOk, LowestSet;
    SplitAddress(va);
    var s, b, k := va / 0x20_0000, BlockFor(l, m, (c, va / 0x20_0000)), va / 0x1000 % 512;
    var n := LinkFourth(l, m, c, va, physical);
    hide LayoutOk;
    forall d, t | d in n.active && 0 <= t < SLOTS
      ensures n.mem[SlotCell(l, d, t)] == SlotWord(l, n, d, t)
    {
      BlockCellsApart(l, d, t, b, k);
      SlotCellsApart(l, d, t, c, s);
      assert m.mem[SlotCell(l, d, t)] == SlotWord(l, m, d, t);
    }
  }

  lemma SlotCellsApart(l: Layout, d: nat, t: nat, c: nat, s: nat)
    requires LayoutOk(l) && d < |l.tables| && c < |l.tables| && t < SLOTS && s < SLOTS
    ensures SlotCell(l, d, t) == SlotCell(l, c, s) <==> d == c && t == s
  {
    if d != c { assert TablesApart(l.tables[d], l.tables[c]); }
  }

  lemma LinkFourthKeys(l: Layout, m: State, c: nat, va: nat, physical: Word)
    requires CanLink(l, m, c, va) && Represents(l, m)
    ensures Sized(l, LinkFourth(l, m, c, va, physical)) && KeysOk(l, LinkFourth(l, m, c, va, physical))
  {
    hide TableFlags, PageFlags, UpperOk, SlotsOk, BlocksOk;
    SplitAddress(va);
    FlagsKeepFrame(physical);
  }

  /** Block cells never coincide with slots, nor with cells of other blocks. */
  lemma BlockCellsApart(l: Layout, c: nat, s: nat, b: nat, k: nat)
    requires LayoutOk(l) && c < |l.tables| && s < SLOTS && b < l.blocks && k < 512
    ensures BlockCell(l, b, k) != SlotCell(l, c, s)
    ensures BlockCell(l, b, k) < 512 * l.pages && SlotCell(l, c, s) < 512 * l.pages
  {
    assert TableFits(l, l.tables[c]);
  }

  lemma SameBlockCell(l: Layout, b: nat, k: nat, b': nat, k': nat)
    requires k < 512 && k' < 512 && BlockCell(l, b, k) == BlockCell(l, b', k')
    ensures b == b' && k == k'
  {}

  lemma BlocksInMemory(l: Layout, m: State)
    requires Sized(l, m)
    ensures forall b, k :: 0 <= b < l.blocks && 0 <= k < 512 ==> BlockCell(l, b, k) < |m.mem|
  {}

  /** Linking changes exactly one cell of one pool block. */
  lemma LinkedCell(l: Layout, m: State, c: nat, va: nat, physical: Word, b: nat, k: nat)
    requires CanLink(l, m, c, va) && Represents(l, m) && b < l.blocks && k < 512
    ensures BlockCell(l, b, k) < 512 * l.pages
    ensures LinkFourth(l, m, c, va, physical).mem[BlockCell(l, b, k)]
         == if b == BlockFor(l, m, (c, va / 0x20_0000)) && k == va / 0x1000 % 512 then PageFlags(physical)
            else m.mem[BlockCell(l, b, k)]
  {
    hide TableFlags, PageFlags, UpperOk, SlotsOk, BlocksOk;
    SplitAddress(va);
    var b0, k0 := BlockFor(l, m, (c, va / 0x20_0000)), va / 0x1000 % 512;
    BlockCellsApart(l, c, va / 0x20_0000, b, k);
    if BlockCell(l, b, k) == BlockCell(l, b0, k0) { SameBlockCell(l, b, k, b0, k0); }
  }

  lemma LookupAfterLink(view: map<(nat, nat), Word>, c: nat, page: nat, e: Word, d: nat, t: nat, k: nat)
    requires k < 512
    ensures Lookup(view[(c, page) := e], d, 512 * t + k)
         == if (d, t) == (c, page / 512) && k == page % 512 then e else Lookup(view, d, 512 * t + k)
  {}

  lemma LinkFourthUsed(l: Layout, m: State, c: nat, va: nat, physical: Word, d: nat, t: nat, k: nat)
    requires CanLink(l, m, c, va) && Represents(l, m) && k < 512
    requires Sized(l, LinkFourth(l, m, c, va, physical)) && KeysOk(l, LinkFourth(l, m, c, va, physical))
    requires var n := LinkFourth(l, m, c, va, physical); (d, t) in n.slots && n.slots[(d, t)].Block?
    ensures var n := LinkFourth(l, m, c, va, physical); var cell := BlockCell(l, n.slots[(d, t)].block, k);
      cell < |n.mem| && n.mem[cell] == Lookup(n.view, d, 512 * t + k)
  {
    hide TableFlags, PageFlags, UpperOk, SlotsOk, LayoutOk, Lookup;
    SplitAddress(va);
    FlagsKeepFrame(physical);
    var n := LinkFourth(l, m, c, va, physical);
    LookupAfterLink(m.view, c, va / 0x1000, PageFlags(physical), d, t, k);
    LinkedCell(l, m, c, va, physical, n.slots[(d, t)].block, k);
    if (d, t) == (c, va / 0x20_0000) {
      LinkedBlock(l, m, c, va, k);
    } else {
      OtherBlock(l, m, n, c, va, d, t);
    }
  }

  lemma LinkFourthBlocks(l: Layout, m: State, c: nat, va: nat, physical: Word)
    requires CanLink(l, m, c, va) && Represents(l, m)
    requires Sized(l, LinkFourth(l, m, c, va, physical)) && KeysOk(l, LinkFourth(l, m, c, va, physical))
    ensures BlocksOk(l, LinkFourth(l, m, c, va, physical))
  {
    hide TableFlags, PageFlags, UpperOk, SlotsOk, LayoutOk, Lookup, LowestSet;
    BlocksInMemory(l, m);
    var n := LinkFourth(l, m, c, va, physical);
    forall d, t, k | (d, t) in n.slots && n.slots[(d, t)].Block? && 0 <= k < 512
      ensures n.mem[BlockCell(l, n.slots[(d, t)].block, k)] == Lookup(n.view, d, 512 * t + k)
    {
      LinkFourthUsed(l, m, c, va, physical, d, t, k);
    }
    forall b, k | 0 <= b < Usable(l) && n.free[b] && 0 <= k < 512
      ensures n.mem[BlockCell(l, b, k)] == 0
    {
      LinkedCell(l, m, c, va, physical, b, k);
    }
  }

  /** Before linking, the block of the slot holds the slot's part of the view. */
  lemma LinkedBlock(l: Layout, m: State, c: nat, va: nat, k: nat)
    requires CanLink(l, m, c, va) && Represents(l, m) && k < 512
    ensures var s := va / 0x20_0000; var b := BlockFor(l, m, (c, s));
      b < l.blocks && BlockCell(l, b, k) < |m.mem| && m.mem[BlockCell(l, b, k)] == Lookup(m.view, c, 512 * s + k)
  {
    hide TableFlags, UpperOk, SlotsOk, LayoutOk;
    BlocksInMemory(l, m);
    var s := va / 0x20_0000;
    if (c, s) !in m.slots {
      assert (512 * s + k) / 512 == s;
    }
  }

  lemma OtherBlock(l: Layout, m: State, n: State, c: nat, va: nat, d: nat, t: nat)
    requires Sized(l, m) && KeysOk(l, m) && Sized(l, n) && KeysOk(l, n)
    requires (c, va / 0x20_0000) in m.slots ==> m.slots[(c, va / 0x20_0000)].Block?
    requires n.slots == m.slots[(c, va / 0x20_0000) := Block(BlockFor(l, m, (c, va / 0x20_0000)))]
    requires (d, t) in n.slots && n.slots[(d, t)].Block? && (d, t) != (c, va / 0x20_0000)
    ensures (d, t) in m.slots && n.slots[(d, t)] == m.slots[(d, t)]
    ensures n.slots[(d, t)].block != BlockFor(l, m, (c, va / 0x20_0000))
  {}

  /** Linking a 4 KiB page of one core updates exactly that page of that core in the map. */
  lemma LinkFourthRepresents(l: Layout, m: State, c: nat, va: nat, physical: Word)
    requires CanLink(l, m, c, va) && Represents(l, m)
    ensures Represents(l, LinkFourth(l, m, c, va, physical))
  {
    LinkFourthUpper(l, m, c, va, physical);
    LinkFourthSlots(l, m, c, va, physical);
    LinkFourthKeys(l, m, c, va, physical);
    LinkFourthBlocks(l, m, c, va, physical);
  }

  // ---------------------------------------------------------------- 2 MiB slots

  /** The slot is not one that 4 KiB pages were linked through. */
  ghost predicate CanSetSlot(l: Layout, m: State, c: nat, va: nat) {
    && Sized(l, m) && c in m.active && va < VIRTUAL_LIMIT
    && ((c, va / 0x20_0000) in m.slots ==> !m.slots[(c, va / 0x20_0000)].Block?)
  }

  /** LinkThirdStageToCollectionPhysical writes one PMD word; freeing a slot writes its marker there. */
  ghost function SetSlot(l: Layout, m: State, c: nat, va: nat, slot: Slot): (n: State)
    requires CanSetSlot(l, m, c, va) && !slot.Block?
    ensures Sized(l, n)
  {
    assert TableFits(l, l.tables[c]);
    SplitAddress(va);
    m.(mem := m.mem[SlotCell(l, c, va / 0x20_0000) := if slot.TwoMiB? then slot.word else FREED_SLOT],
       slots := m.slots[(c, va / 0x20_0000) := slot])
  }

  lemma SetSlotRepresents(l: Layout, m: State, c: nat, va: nat, slot: Slot)
    requires CanSetSlot(l, m, c, va) && Represents(l, m) && !slot.Block?
    ensures Represents(l, SetSlot(l, m, c, va, slot))
  {
    hide TableFlags;
    SplitAddress(va);
    var s := va / 0x20_0000;
    var n := SetSlot(l, m, c, va, slot);
    SetSlotUpper(l, m, c, va, slot);
    SetSlotSlots(l, m, c, va, slot);
    assert KeysOk(l, n) by { hide UpperOk, SlotsOk, LayoutOk; }
    assert BlocksOk(l, n) by {
      hide UpperOk, SlotsOk, LayoutOk;
      forall b, k | 0 <= b < l.blocks && 0 <= k < 512
        ensures BlockCell(l, b, k) < |m.mem| && n.mem[BlockCell(l, b, k)] == m.mem[BlockCell(l, b, k)]
      {
        BlockCellsApart(l, c, s, b, k);
      }
    }
  }

  lemma SetSlotUpper(l: Layout, m: State, c: nat, va: nat, slot: Slot)
    requires CanSetSlot(l, m, c, va) && Represents(l, m) && !slot.Block?
    ensures UpperOk(l, SetSlot(l, m, c, va, slot))
  {
    hide TableFlags, SlotsOk, KeysOk, BlocksOk;
    SplitAddress(va);
    forall d | d in m.active
      ensures Linked(l, SetSlot(l, m, c, va, slot).mem, l.tables[d])
    {
      UpperCellsApartFromSlot(l, d, c, va / 0x20_0000);
      assert Linked(l, m.mem, l.tables[d]);
    }
  }

  lemma UpperCellsApartFromSlot(l: Layout, d: nat, c: nat, s: nat)
    requires LayoutOk(l) && d < |l.tables| && c < |l.tables| && s < SLOTS
    ensures forall i :: 0 <= i < 4 ==> Cell(l.tables[d].pgd, i) != SlotCell(l, c, s)
    ensures forall j :: 0 <= j < 2048 ==> Cell(l.tables[d].pud, j) != SlotCell(l, c, s)
  {
    assert TableFits(l, l.tables[d]);
    assert TableFits(l, l.tables[c]);
    if d != c { assert TablesApart(l.tables[d], l.tables[c]); }
  }

  lemma SetSlotSlots(l: Layout, m: State, c: nat, va: nat, slot: Slot)
    requires CanSetSlot(l, m, c, va) && Represents(l, m) && !slot.Block?
    ensures SlotsOk(l, SetSlot(l, m, c, va, slot))
  {
    hide TableFlags, UpperOk, BlocksOk;
    SplitAddress(va);
  }

  // ---------------------------------------------------------------- building the tables of a core

  /** Cells that belong to core c's table pages. */
  predicate InTable(l: Layout, c: nat, cell: nat)
    requires c < |l.tables|
  {
    var t := l.tables[c];
    || 512 * t.pgd <= cell < 512 * (t.pgd + 1)
    || 512 * t.pud <= cell < 512 * (t.pud + 4)
    || 512 * t.pmd <= cell < 512 * (t.pmd + 2048)
  }

  /** From m to n, core c's pages were filled with the marker and its upper levels were linked. */
  ghost predicate Built(l: Layout, m: State, n: State, c: nat) {
    && Sized(l, m) && Sized(l, n) && c < |l.tables| && c !in m.active
    && n == m.(mem := n.mem, active := m.active + {c})
    && (forall cell :: 0 <= cell < |m.mem| && !InTable(l, c, cell) ==> n.mem[cell] == m.mem[cell])
    && Linked(l, n.mem, l.tables[c])
    && forall s :: 0 <= s < SLOTS ==> n.mem[SlotCell(l, c, s)] == NO_ADDRESS
  }

  lemma NotInOtherTable(l: Layout, c: nat, d: nat, s: nat)
    requires LayoutOk(l) && c < |l.tables| && d < |l.tables| && c != d && s < SLOTS
    ensures !InTable(l, c, SlotCell(l, d, s)) && SlotCell(l, d, s) < 512 * l.pages
    ensures forall i :: 0 <= i < 4 ==> !InTable(l, c, Cell(l.tables[d].pgd, i))
    ensures forall j :: 0 <= j < 2048 ==> !InTable(l, c, Cell(l.tables[d].pud, j))
  {
    assert TableFits(l, l.tables[d]);
    assert TablesApart(l.tables[d], l.tables[c]);
  }

  lemma BuiltRepresents(l: Layout, m: State, n: State, c: nat)
    requires Represents(l, m) && Built(l, m, n, c)
    ensures Represents(l, n)
  {
    hide LayoutOk, UpperOk, SlotsOk, BlocksOk;
    BuiltUpper(l, m, n, c);
    BuiltSlots(l, m, n, c);
    BuiltBlocks(l, m, n, c);
  }

  lemma BuiltUpper(l: Layout, m: State, n: State, c: nat)
    requires Represents(l, m) && Built(l, m, n, c)
    ensures UpperOk(l, n)
  {
    hide TableFlags, SlotsOk, KeysOk, BlocksOk;
    forall d | d in n.active
      ensures Linked(l, n.mem, l.tables[d])
    {
      if d != c {
        NotInOtherTable(l, c, d, 0);
        assert Linked(l, m.mem, l.tables[d]);
      }
    }
  }

  lemma BuiltSlots(l: Layout, m: State, n: State, c: nat)
    requires Represents(l, m) && Built(l, m, n, c)
    ensures SlotsOk(l, n)
  {
    hide TableFlags, UpperOk, BlocksOk, Linked;
    forall d, s | d in n.active && 0 <= s < SLOTS
      ensures n.mem[SlotCell(l, d, s)] == SlotWord(l, n, d, s)
    {
      if d != c { NotInOtherTable(l, c, d, s); }
    }
  }

  lemma BuiltBlocks(l: Layout, m: State, n: State, c: nat)
    requires Represents(l, m) && Built(l, m, n, c)
    ensures KeysOk(l, n) && BlocksOk(l, n)
  {
    hide TableFlags, UpperOk, SlotsOk, Linked;
    forall b, k | 0 <= b < l.blocks && 0 <= k < 512
      ensures BlockCell(l, b, k) < |m.mem| && n.mem[BlockCell(l, b, k)] == m.mem[BlockCell(l, b, k)]
    {
      assert TableFits(l, l.tables[c]);
    }
  }
}
