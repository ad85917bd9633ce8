/** What the page tables hold after any history of operations on any number of cores. */
module PageTableRuns {
  import opened Words
  import opened PageTables

  /** Building the tables of a core, which leaves the memory `mem`; LinkFourthStageToFramePhysical on the
      table of a core; a store to a 2 MiB slot of a core by linking or freeing a collection. */
  datatype Op =
    | Build(core: nat, mem: seq<Word>)
    | Link(core: nat, va: nat, physical: Word)
    | Store(core: nat, va: nat, slot: Slot)

  ghost predicate CanDo(l: Layout, m: State, op: Op)
    requires Represents(l, m)
  {
    match op
    case Build(c, mem) => Built(l, m, AfterBuild(m, c, mem), c)
    case Link(c, va, _) => CanLink(l, m, c, va)
    case Store(c, va, slot) => CanSetSlot(l, m, c, va) && !slot.Block?
  }

  ghost function AfterBuild(m: State, c: nat, mem: seq<Word>): State {
    m.(mem := mem, active := m.active + {c})
  }

  ghost function Do(l: Layout, m: State, op: Op): (n: State)
    requires Represents(l, m) && CanDo(l, m, op)
    ensures Represents(l, n)
  {
    match op
    case Build(c, mem) =>
      BuiltRepresents(l, m, AfterBuild(m, c, mem), c);
      AfterBuild(m, c, mem)
    case Link(c, va, physical) =>
      LinkFourthRepresents(l, m, c, va, physical);
      LinkFourth(l, m, c, va, physical)
    case Store(c, va, slot) =>
      SetSlotRepresents(l, m, c, va, slot);
      SetSlot(l, m, c, va, slot)
  }

  /** The history; None when some operation is not possible: no block is left for its slot, or the
      slot serves the other page size. */
  ghost function Run(l: Layout, m: State, ops: seq<Op>): (r: Option<State>)
    requires Represents(l, m)
    ensures r.Some? ==> Represents(l, r.value)
    decreases |ops|
  {
    if ops == [] then Some(m)
    else
      var n := |ops| - 1;
      match Run(l, m, ops[..n])
      case None => None
      case Some(before) => if CanDo(l, before, ops[n]) then Some(Do(l, before, ops[n])) else None
  }

  /** The word that the last link of this page of this core stored there. */
  function LastLinked(ops: seq<Op>, page: (nat, nat)): Option<nat> {
    if ops == [] then None
    else
      var k := ops[|ops| - 1];
      if k.Link? && (k.core, k.va / 0x1000) == page then Some(PageFlags(k.physical))
      else LastLinked(ops[..|ops| - 1], page)
  }

  /** What the last store to this 2 MiB slot of this core put there. */
  function LastStored(ops: seq<Op>, key: (nat, nat)): Option<Slot> {
    if ops == [] then None
    else
      var k := ops[|ops| - 1];
      if k.Store? && (k.core, k.va / 0x20_0000) == key then Some(k.slot)
      else LastStored(ops[..|ops| - 1], key)
  }

  lemma {:induction false} ViewIsLastLinked(l: Layout, m: State, ops: seq<Op>, page: (nat, nat))
    requires Represents(l, m) && Run(l, m, ops).Some? && m.view == map[]
    ensures var r := Run(l, m, ops).value;
      if LastLinked(ops, page).Some? then page in r.view && r.view[page] == LastLinked(ops, page).value
      else page !in r.view
    decreases |ops|
  {
    hide Represents, Built, TableFlags, PageFlags, BlockFor;
    if ops != [] {
      ViewIsLastLinked(l, m, ops[..|ops| - 1], page);
    }
  }

  lemma {:induction false} SlotsOfRun(l: Layout, m: State, ops: seq<Op>, key: (nat, nat))
    requires Represents(l, m) && Run(l, m, ops).Some? && m.slots == map[]
    ensures var r := Run(l, m, ops).value;
      if LastStored(ops, key).Some? then key in r.slots && r.slots[key] == LastStored(ops, key).value && !r.slots[key].Block?
      else key in r.slots ==> r.slots[key].Block?
    decreases |ops|
  {
    hide Represents, Built, TableFlags, PageFlags, BlockFor;
    if ops != [] {
      SlotsOfRun(l, m, ops[..|ops| - 1], key);
    }
  }

  lemma WalkFindsView(l: Layout, m: State, c: nat, va: nat)
    requires Represents(l, m) && c in m.active && va < VIRTUAL_LIMIT
    requires (c, va / 0x20_0000) in m.slots ==> m.slots[(c, va / 0x20_0000)].Block?
    ensures var found := V2p(m.mem, l.tables[c].pgd, va);
      if (c, va / 0x1000) in m.view then found == Some(m.view[(c, va / 0x1000)])
      else found == None || found == Some(0)
  {
    hide Represents, V2p;
    WalkReadsView(l, m, c, va);
    if (c, va / 0x1000) in m.view { PageInBlock(l, m, c, va); }
  }

  /** Starting from an empty pool without tables, after any history of building, linking and slot stores
      the four-level walk of any built core returns exactly the last physical page linked at that virtual
      page of that core, with its flag bits.  Where nothing was linked it reaches no table or a zero entry,
      or stands on the word that the last store put into the 2 MiB slot. */
  lemma WalkIsLastLinked(l: Layout, m: State, ops: seq<Op>, c: nat, va: nat)
    requires Represents(l, m) && Run(l, m, ops).Some? && m.view == map[] && m.slots == map[]
    requires c in Run(l, m, ops).value.active && va < 0x200_0000_0000
    ensures var r := Run(l, m, ops).value; var found := V2p(r.mem, l.tables[c].pgd, va);
      match LastStored(ops, (c, va / 0x20_0000))
      case Some(slot) =>
        LastLinked(ops, (c, va / 0x1000)) == None
        && ThirdLevel(r.mem, l.tables[c].pgd, va) == Some(if slot.TwoMiB? then slot.word else FREED_SLOT)
      case None =>
        match LastLinked(ops, (c, va / 0x1000))
        case Some(word) => found == Some(word)
        case None => found == None || found == Some(0)
  {
    hide Represents, V2p, ThirdLevel, PageFlags, Run, LastLinked, LastStored;
    var r := Run(l, m, ops).value;
    ViewIsLastLinked(l, m, ops, (c, va / 0x1000));
    SlotsOfRun(l, m, ops, (c, va / 0x20_0000));
    if LastStored(ops, (c, va / 0x20_0000)) == None {
      WalkFindsView(l, r, c, va);
    } else {
      WalkReadsSlot(l, r, c, va);
      if (c, va / 0x1000) in r.view { PageInBlock(l, r, c, va); }
    }
  }

  /** What a translation is to the processor: the entry when its present bit is set. */
  function Translation(mem: seq<Word>, pgd: nat, va: nat): Option<Word> {
    match V2p(mem, pgd, va)
    case None => None
    case Some(word) => if word % 2 == 1 then Some(word) else None
  }

  /** The present translations of a core are exactly the entries of the map. */
  lemma TranslationReadsView(l: Layout, m: State, c: nat, va: nat)
    requires Represents(l, m) && c in m.active && va < VIRTUAL_LIMIT
    requires (c, va / 0x20_0000) in m.slots ==> !m.slots[(c, va / 0x20_0000)].TwoMiB?
    ensures Translation(m.mem, l.tables[c].pgd, va)
         == if (c, va / 0x1000) in m.view then Some(m.view[(c, va / 0x1000)]) else None
  {
    hide Represents, V2p;
    WalkReadsView(l, m, c, va);
    if (c, va / 0x1000) in m.view { PageInBlock(l, m, c, va); }
  }

  /** A link changes the translation of its own page on its own core and no other translation. */
  lemma LinkChangesOneTranslation(l: Layout, m: State, k: Op, c: nat, va: nat)
    requires Represents(l, m) && k.Link? && CanLink(l, m, k.core, k.va)
    requires c in m.active && va < VIRTUAL_LIMIT
    requires (c, va / 0x20_0000) in m.slots ==> !m.slots[(c, va / 0x20_0000)].TwoMiB?
    ensures var n := LinkFourth(l, m, k.core, k.va, k.physical);
      Translation(n.mem, l.tables[c].pgd, va)
      == if (c, va / 0x1000) == (k.core, k.va / 0x1000) then Some(PageFlags(k.physical))
         else Translation(m.mem, l.tables[c].pgd, va)
  {
    var n := LinkFourth(l, m, k.core, k.va, k.physical);
    LinkFourthRepresents(l, m, k.core, k.va, k.physical);
    hide Represents, TableFlags, PageFlags, Translation;
    TranslationReadsView(l, m, c, va);
    TranslationReadsView(l, n, c, va);
  }
}
