/** The page tables updated in place: one array of memory words shared by all cores, the bitmap of the
    block pool, and the methods of MemoryPageMap.c.  Each method is tied to the value-level step that
    PageTables.dfy reasons about. */
module PageTableMachine {
  import opened Words
  import opened Bitmap
  import opened PageTables

  /** The byte's highest set bit, found by the chain of comparisons in AllocateVirtualMemoryBlock. */
  method FirstOne(bt: bv8) returns (idx: nat)
    requires bt != 0
    ensures idx < 8 && BitOf(bt, idx) && forall j :: 0 <= j < idx ==> !BitOf(bt, j)
  {
    if 128 <= bt { idx := 0; }
    else if 64 <= bt { idx := 1; }
    else if 32 <= bt { idx := 2; }
    else if 16 <= bt { idx := 3; }
    else if 8 <= bt { idx := 4; }
    else if 4 <= bt { idx := 5; }
    else if 2 <= bt { idx := 6; }
    else { idx := 7; }
    HighestBit(bt);
  }

  lemma HighestBit(bt: bv8)
    requires bt != 0
    ensures BitOf(bt, 0) <==> 128 <= bt
    ensures bt < 128 ==> (BitOf(bt, 1) <==> 64 <= bt)
    ensures bt < 64 ==> (BitOf(bt, 2) <==> 32 <= bt)
    ensures bt < 32 ==> (BitOf(bt, 3) <==> 16 <= bt)
    ensures bt < 16 ==> (BitOf(bt, 4) <==> 8 <= bt)
    ensures bt < 8 ==> (BitOf(bt, 5) <==> 4 <= bt)
    ensures bt < 4 ==> (BitOf(bt, 6) <==> 2 <= bt)
    ensures bt < 2 ==> BitOf(bt, 7)
  {}

  class VirtualMemory {
    const layout: Layout
    const mem: array<Word>
    const blockMap: array<bv8>
    ghost var active: set<nat>
    ghost var slots: map<(nat, nat), Slot>
    ghost var view: map<(nat, nat), Word>

    ghost function Now(): State
      reads this, mem, blockMap
    {
      State(mem[..], Bits(blockMap[..]), active, slots, view)
    }

    ghost predicate Valid()
      reads this, mem, blockMap
    {
      (mem as object) != blockMap && Represents(layout, Now())
    }

    /** Clears the highest set bit of byte i. */
    method TakeFromByte(i: nat) returns (idx: nat)
      requires i < blockMap.Length && blockMap[i] != 0
      modifies blockMap
      ensures idx < 8 && old(Bits(blockMap[..]))[i * 8 + idx]
      ensures forall k :: 8 * i <= k < 8 * i + idx ==> !old(Bits(blockMap[..]))[k]
      ensures Bits(blockMap[..]) == old(Bits(blockMap[..]))[i * 8 + idx := false]
    {
      hide Bits, BitOf, Mask;
      ghost var before := blockMap[..];
      ByteBits(before, i);
      idx := FirstOne(blockMap[i]);
      blockMap[i] := blockMap[i] & !Mask(idx);
      ClearInMap(before, i, idx);
      assert blockMap[..] == before[i := before[i] & !Mask(idx)];
    }

    /** Hands out the lowest free block among the whole bytes of the block bitmap; -1 when there is none. */
    method AllocateVirtualMemoryBlock() returns (address: nat)
      requires blockMap.Length == layout.blocks
      modifies blockMap
      ensures var free := old(Bits(blockMap[..]));
        var b := LowestSet(free, 0, 8 * (layout.blocks / 8));
        if b == 8 * (layout.blocks / 8) then address == NO_ADDRESS && Bits(blockMap[..]) == free
        else address == (layout.pool + b) * FRAME_SIZE && Bits(blockMap[..]) == free[b := false]
    {
      hide Bits, BitOf, LowestSet, Mask;
      ghost var free := Bits(blockMap[..]);
      for i := 0 to layout.blocks / 8
        invariant Bits(blockMap[..]) == free
        invariant forall k :: 0 <= k < 8 * i ==> !free[k]
      {
        ByteBits(blockMap[..], i);
        ZeroByte(blockMap[i]);
        if blockMap[i] != 0 {
          var idx := TakeFromByte(i);
          LowestSetIs(free, 0, Usable(layout), i * 8 + idx);
          return (layout.pool + i * 8 + idx) * FRAME_SIZE;
        }
      }
      address := NO_ADDRESS;
    }

    /** The block's bitmap bit is set again; a block that is already free is refused. */
    method DeallocateVirtualMemoryBlock(address: nat) returns (freed: bool)
      requires layout.pool * FRAME_SIZE <= address
      requires (address - layout.pool * FRAME_SIZE) / FRAME_SIZE < 8 * blockMap.Length
      modifies blockMap
      ensures var b := (address - layout.pool * FRAME_SIZE) / FRAME_SIZE;
        && freed == !old(Bits(blockMap[..]))[b]
        && Bits(blockMap[..]) == old(Bits(blockMap[..]))[b := true]
    {
      hide Bits;
      var b := (address - layout.pool * FRAME_SIZE) / FRAME_SIZE;
      var alreadyFree := GetBit(blockMap, b);
      if alreadyFree {
        assert Bits(blockMap[..]) == Bits(blockMap[..])[b := true];
        return false;
      }
      SetBit(blockMap, b);
      freed := true;
    }

    /** The pool as InitVirtualMemoryService leaves it: zeroed blocks, all marked free, no tables yet. */
    constructor (l: Layout, memory: array<Word>)
      requires LayoutOk(l) && memory.Length == 512 * l.pages && l.pages <= 0x100_0000_0000
      modifies memory
      ensures Valid() && layout == l && mem == memory && fresh(blockMap)
      ensures active == {} && slots == map[] && view == map[]
      ensures forall b :: 0 <= b < 8 * l.blocks ==> Bits(blockMap[..])[b]
    {
      layout := l;
      mem := memory;
      var bytes := new bv8[l.blocks](_ => 255);
      blockMap := bytes;
      new;
      for cell := 512 * l.pool to 512 * (l.pool + l.blocks)
        invariant forall k :: 512 * l.pool <= k < cell ==> mem[k] == 0
        invariant forall i :: 0 <= i < bytes.Length ==> bytes[i] == 255
      {
        mem[cell] := 0;
      }
      forall b | 0 <= b < 8 * l.blocks
        ensures Bits(blockMap[..])[b]
      {
        AllOnes(b % 8);
      }
      active, slots, view := {}, map[], map[];
      assert BlocksOk(layout, Now());
    }

    /** The memset calls that precede the linking of a core's tables. */
    method ClearTable(c: nat)
      requires LayoutOk(layout) && c < |layout.tables| && mem.Length == 512 * layout.pages
      modifies mem
      ensures forall cell :: 0 <= cell < mem.Length && !InTable(layout, c, cell) ==> mem[cell] == old(mem[cell])
      ensures forall s :: 0 <= s < SLOTS ==> SlotCell(layout, c, s) < mem.Length && mem[SlotCell(layout, c, s)] == NO_ADDRESS
    {
      var t := layout.tables[c];
      assert TableFits(layout, t);
      hide LayoutOk;
      for cell := 512 * t.pgd to 512 * (t.pgd + 1)
        invariant forall k :: 0 <= k < mem.Length && !InTable(layout, c, k) ==> mem[k] == old(mem[k])
      {
        mem[cell] := 0;
      }
      for cell := 512 * t.pud to 512 * (t.pud + 4)
        invariant forall k :: 0 <= k < mem.Length && !InTable(layout, c, k) ==> mem[k] == old(mem[k])
      {
        mem[cell] := 0;
      }
      for cell := 512 * t.pmd to 512 * (t.pmd + 2048)
        invariant forall k :: 0 <= k < mem.Length && !InTable(layout, c, k) ==> mem[k] == old(mem[k])
        invariant forall k :: 512 * t.pmd <= k < cell ==> mem[k] == NO_ADDRESS
      {
        mem[cell] := NO_ADDRESS;
      }
    }

    /** The body of the BspLinkFirst3Levels loop. */
    method LinkGigabyte(t: Table, address: nat)
      requires address < VIRTUAL_LIMIT && TableFits(layout, t)
      requires mem.Length == 512 * layout.pages && layout.pages <= 0x100_0000_0000
      modifies mem
      ensures var j := address / 0x4000_0000;
        && j < 2048 && Pointer(t.pud + j / 512) < WORD_LIMIT && Pointer(t.pmd + j) < WORD_LIMIT
        && mem[..] == old(mem[..])[Cell(t.pgd, j / 512) := Pointer(t.pud + j / 512)][Cell(t.pud, j) := Pointer(t.pmd + j)]
    {
      hide TableFlags;
      SplitAddress(address);
      var pgdIndex := address / 0x80_0000_0000;
      var pudIndex := address / 0x4000_0000 % 512;
      ghost var j := address / 0x4000_0000;
      assert 512 * pgdIndex + pudIndex == j && j / 512 == pgdIndex;
      FlagsKeepFrame((t.pud + pgdIndex) * FRAME_SIZE);
      FlagsKeepFrame((t.pmd + j) * FRAME_SIZE);
      mem[512 * t.pgd + pgdIndex] := TableFlags((t.pud + pgdIndex) * FRAME_SIZE);
      mem[512 * (t.pud + pgdIndex) + pudIndex] := TableFlags((t.pmd + pgdIndex * 512 + pudIndex) * FRAME_SIZE);
    }

    /** BspLinkFirst3Levels: one pass over the 2048 GiB windows links PGD to PUD and PUD to PMD pages. */
    method BspLinkFirst3Levels(c: nat) returns (mappedPages: nat, lastVirtualAddress: nat)
      requires LayoutOk(layout) && c < |layout.tables| && mem.Length == 512 * layout.pages
      requires layout.pages <= 0x100_0000_0000
      modifies mem
      ensures TableFits(layout, layout.tables[c]) && Linked(layout, mem[..], layout.tables[c])
      ensures mappedPages == 2048 && lastVirtualAddress == VIRTUAL_LIMIT - 1
      ensures forall cell :: 0 <= cell < mem.Length && !InUpper(layout.tables[c], cell) ==> mem[cell] == old(mem[cell])
    {
      hide TableFlags, Pointer, LinkedTo;
      var t := layout.tables[c];
      assert TableFits(layout, t);
      hide LayoutOk;
      NoneLinked(layout, mem[..], t);
      var last := (4 * 512 * 512 * 512 - 1) * FRAME_SIZE;
      var address := 0;
      mappedPages, lastVirtualAddress := 0, 0;
      ghost var j := 0;
      while address <= last
        invariant address == j * 0x4000_0000 && j <= 2048
        invariant mappedPages == j && lastVirtualAddress == if j == 0 then 0 else address - 1
        invariant LinkedTo(layout, old(mem[..]), mem[..], t, j)
        decreases 2048 - j
      {
        ghost var before: seq<Word> := mem[..];
        LinkGigabyte(t, address);
        LinkedStep(layout, old(mem[..]), before, mem[..], t, j);
        lastVirtualAddress := address + 0x4000_0000 - 1;
        mappedPages := mappedPages + 1;
        address := address + 0x4000_0000;
        j := j + 1;
      }
      AllLinked(layout, old(mem[..]), mem[..], t);
    }

    /** A core's tables as BuildApCoresPageTables prepares them, before anything is mapped. */
    method BuildTable(c: nat)
      requires Valid() && c < |layout.tables| && c !in active
      modifies this, mem
      ensures Valid() && active == old(active) + {c}
      ensures slots == old(slots) && view == old(view) && Bits(blockMap[..]) == old(Bits(blockMap[..]))
    {
      hide TableFlags, Bits;
      ghost var m := Now();
      ClearTable(c);
      var _, _ := BspLinkFirst3Levels(c);
      active := active + {c};
      assert blockMap[..] == old(blockMap[..]);
      assert Built(layout, m, Now(), c) by {
        hide UpperOk, SlotsOk, BlocksOk, KeysOk;
        assert TableFits(layout, layout.tables[c]);
      }
      BuiltRepresents(layout, m, Now(), c);
    }

    /** The slot word of a virtual address, located by direct indexing of the PMD pages. */
    function SlotIndex(c: nat, start: nat): (cell: nat)
      requires c < |layout.tables|
    {
      var idx := start / 0x80_0000_0000 * 512 + start / 0x4000_0000 % 512;
      512 * (layout.tables[c].pmd + idx) + start / 0x20_0000 % 512
    }

    lemma SlotIndexIsSlotCell(c: nat, start: nat)
      requires LayoutOk(layout) && c < |layout.tables| && start < VIRTUAL_LIMIT
      ensures SlotIndex(c, start) == SlotCell(layout, c, start / 0x20_0000) < 512 * layout.pages
    {
      SplitAddress(start);
      assert TableFits(layout, layout.tables[c]);
    }

    /** The first half of LinkFourthStageToFramePhysical: the slot's entry, after giving the slot
        a block from the pool when it still holds the marker. */
    method TableForSlot(c: nat, start: nat) returns (pteAddress: Word)
      requires Valid() && CanLink(layout, Now(), c, start)
      modifies mem, blockMap
      ensures var b := BlockFor(layout, old(Now()), (c, start / 0x20_0000));
        && pteAddress == Pointer(layout.pool + b)
        && SlotIndex(c, start) < mem.Length
        && mem[..] == old(mem[..])[SlotIndex(c, start) := pteAddress]
        && Bits(blockMap[..]) == old(Bits(blockMap[..]))[b := false]
    {
      hide Bits, TableFlags, LowestSet, LayoutOk, UpperOk, BlocksOk;
      ghost var m := Now();
      ghost var b := BlockFor(layout, m, (c, start / 0x20_0000));
      SlotIndexIsSlotCell(c, start);
      SplitAddress(start);
      SlotWordOf(layout, m, c, start / 0x20_0000);
      var cell := SlotIndex(c, start);
      pteAddress := mem[cell];
      if pteAddress == NO_ADDRESS {
        var block := AllocateVirtualMemoryBlock();
        assert mem[..] == m.mem;
        ghost var bytes := blockMap[..];
        FlagsKeepFrame(block);
        BlocksInMemory(layout, m);
        assert BlockCell(layout, b, 0) < mem.Length;
        mem[cell] := TableFlags(block);
        pteAddress := mem[cell];
        assert blockMap[..] == bytes;
      } else {
        assert m.free == m.free[b := false];
      }
      assert mem[..] == m.mem[cell := pteAddress];
    }

    /** The last store of LinkFourthStageToFramePhysical, through the slot's entry. */
    method StoreEntry(pteAddress: Word, start: nat, word: Word, ghost block: nat)
      requires pteAddress == Pointer(layout.pool + block)
      requires BlockCell(layout, block, start / 0x1000 % 512) < mem.Length
      modifies mem
      ensures mem[..] == old(mem[..])[BlockCell(layout, block, start / 0x1000 % 512) := word]
    {
      hide TableFlags;
      FlagsKeepFrame((layout.pool + block) * FRAME_SIZE);
      DivUnique((layout.pool + block) * FRAME_SIZE, FRAME_SIZE, layout.pool + block, 0);
      var page := pteAddress / FRAME_SIZE;
      mem[512 * page + start / 0x1000 % 512] := word;
    }

    /** The cells that a link stores to lie in memory. */
    lemma LinkInMemory(m: State, c: nat, start: nat)
      requires Represents(layout, m) && CanLink(layout, m, c, start)
      ensures SlotIndex(c, start) == SlotCell(layout, c, start / 0x20_0000) < |m.mem|
      ensures var b := BlockFor(layout, m, (c, start / 0x20_0000));
        b < |m.free| && BlockCell(layout, b, start / 0x1000 % 512) < |m.mem|
    {
      hide TableFlags, PageFlags, LowestSet, SlotIndex, UpperOk, SlotsOk, BlocksOk;
      SlotIndexIsSlotCell(c, start);
      BlocksInMemory(layout, m);
    }

    /** LinkFourthStageToFramePhysical */
    method LinkFourthStageToFramePhysical(c: nat, start: nat, physical: Word)
      requires Valid() && CanLink(layout, Now(), c, start)
      modifies this, mem, blockMap
      ensures Valid() && Now() == LinkFourth(layout, old(Now()), c, start, physical)
    {
      hide Bits, Pointer, PageFlags, LowestSet, LayoutOk, Represents, BlockCell, SlotCell, SlotIndex, BlockFor;
      ghost var m := Now();
      ghost var s := start / 0x20_0000;
      LinkInMemory(m, c, start);
      LinkFourthRepresents(layout, m, c, start, physical);
      FlagsKeepFrame(physical);
      ghost var b := BlockFor(layout, m, (c, s));
      var pteAddress := TableForSlot(c, start);
      ghost var bytes := blockMap[..];
      var word: Word := PageFlags(physical);
      StoreEntry(pteAddress, start, word, b);
      slots := slots[(c, s) := Block(b)];
      view := view[(c, start / 0x1000) := word];
      assert blockMap[..] == bytes;
      assert mem[..] == LinkFourth(layout, m, c, start, physical).mem;
    }

    /** LinkThirdStageToCollectionPhysical: a 2 MiB entry written straight into the slot. */
    method LinkThirdStageToCollectionPhysical(c: nat, start: nat, physical: Word)
      requires Valid() && CanSetSlot(layout, Now(), c, start)
      modifies this, mem
      ensures Valid() && PageFlags(physical) < WORD_LIMIT
      ensures Now() == SetSlot(layout, old(Now()), c, start, TwoMiB(PageFlags(physical)))
    {
      hide Bits, TableFlags, PageFlags, LayoutOk, UpperOk, BlocksOk, SlotsOk, KeysOk;
      FlagsKeepFrame(physical);
      SetSlotRepresents(layout, Now(), c, start, TwoMiB(PageFlags(physical)));
      SlotIndexIsSlotCell(c, start);
      ghost var m := Now();
      mem[SlotIndex(c, start)] := PageFlags(physical);
      slots := slots[(c, start / 0x20_0000) := TwoMiB(PageFlags(physical))];
      assert blockMap[..] == old(blockMap[..]);
      assert mem[..] == SetSlot(layout, m, c, start, TwoMiB(PageFlags(physical))).mem;
    }

    /** The marker stores at the end of DeallocateVirtualMemoryCollection. */
    method MarkSlotFreed(c: nat, start: nat)
      requires Valid() && CanSetSlot(layout, Now(), c, start)
      modifies this, mem
      ensures Valid()
      ensures Now() == SetSlot(layout, old(Now()), c, start, Freed)
    {
      hide Bits, TableFlags, LayoutOk, UpperOk, BlocksOk, SlotsOk, KeysOk;
      SetSlotRepresents(layout, Now(), c, start, Freed);
      SlotIndexIsSlotCell(c, start);
      ghost var m := Now();
      mem[SlotIndex(c, start)] := NO_ADDRESS;
      mem[SlotIndex(c, start)] := FREED_SLOT;
      slots := slots[(c, start / 0x20_0000) := Freed];
      assert blockMap[..] == old(blockMap[..]);
      assert mem[..] == SetSlot(layout, m, c, start, Freed).mem;
    }
  }

  /** Cells of a core's PGD and PUD pages. */
  predicate InUpper(t: Table, cell: nat) {
    512 * t.pgd <= cell < 512 * (t.pgd + 1) || 512 * t.pud <= cell < 512 * (t.pud + 4)
  }

  /** The first j GiB windows of a table are linked and nothing else has changed. */
  ghost predicate LinkedTo(l: Layout, start: seq<Word>, mem: seq<Word>, t: Table, j: nat) {
    && |start| == |mem| == 512 * l.pages && TableFits(l, t) && j <= 2048
    && (forall i :: 0 <= i < 4 && 512 * i < j ==> mem[Cell(t.pgd, i)] == Pointer(t.pud + i))
    && (forall k :: 0 <= k < j ==> mem[Cell(t.pud, k)] == Pointer(t.pmd + k))
    && (forall cell :: 0 <= cell < |mem| && !InUpper(t, cell) ==> mem[cell] == start[cell])
  }

  lemma NoneLinked(l: Layout, mem: seq<Word>, t: Table)
    requires |mem| == 512 * l.pages && TableFits(l, t)
    ensures LinkedTo(l, mem, mem, t, 0)
  {}

  lemma LinkedStep(l: Layout, start: seq<Word>, before: seq<Word>, after: seq<Word>, t: Table, j: nat)
    requires LinkedTo(l, start, before, t, j) && j < 2048
    requires Pointer(t.pud + j / 512) < WORD_LIMIT && Pointer(t.pmd + j) < WORD_LIMIT
    requires after == before[Cell(t.pgd, j / 512) := Pointer(t.pud + j / 512)][Cell(t.pud, j) := Pointer(t.pmd + j)]
    ensures LinkedTo(l, start, after, t, j + 1)
  {
    hide Pointer;
  }

  lemma AllLinked(l: Layout, start: seq<Word>, mem: seq<Word>, t: Table)
    requires LinkedTo(l, start, mem, t, 2048)
    ensures Linked(l, mem, t)
    ensures forall cell :: 0 <= cell < |mem| && !InUpper(t, cell) ==> mem[cell] == start[cell]
  {
    hide Pointer;
  }

  lemma AllOnes(k: nat)
    requires k < 8
    ensures BitOf(255, k)
  {
    if k == 0 {} else if k == 1 {} else if k == 2 {} else if k == 3 {}
    else if k == 4 {} else if k == 5 {} else if k == 6 {} else {}
  }

  /** A slot word is the marker exactly when no table, page or freed mark is there, and points to
      the slot's block when there is one. */
  lemma SlotWordOf(l: Layout, m: State, c: nat, s: nat)
    requires Represents(l, m) && c in m.active && s < SLOTS
    requires (c, s) in m.slots ==> m.slots[(c, s)].Block?
    ensures SlotCell(l, c, s) < |m.mem|
    ensures (c, s) !in m.slots ==> m.mem[SlotCell(l, c, s)] == NO_ADDRESS
    ensures (c, s) in m.slots ==> m.mem[SlotCell(l, c, s)] == Pointer(l.pool + m.slots[(c, s)].block) != NO_ADDRESS
  {
    assert TableFits(l, l.tables[c]);
    if (c, s) in m.slots {
      FlagsKeepFrame((l.pool + m.slots[(c, s)].block) * FRAME_SIZE);
    }
  }
}
