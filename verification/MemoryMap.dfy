/** The table of physical memory ranges of PhysicalMemory.c and the questions asked of it. */
module MemoryMap {
  import opened Words

  const USABLE := 1
  const RESERVED := 2
  const ACPI_RECLAIMED := 3
  const ACPI_NVS := 4
  const HOLE := 6
  const FIRST_MIB := 0x10_0000

  datatype Entry = Entry(start: nat, size: nat, kind: nat, vstart: nat, end: nat)

  predicate Contains(e: Entry, p: nat) { e.start <= p < e.end }

  /** The first entry that contains p, or the number of entries. */
  function FirstContaining(entries: seq<Entry>, from: nat, p: nat): (i: nat)
    requires from <= |entries|
    ensures from <= i <= |entries|
    ensures forall j :: from <= j < i ==> !Contains(entries[j], p)
    ensures i < |entries| ==> Contains(entries[i], p)
    decreases |entries| - from
  {
    if from == |entries| || Contains(entries[from], p) then from else FirstContaining(entries, from + 1, p)
  }

  /** The answer of GetVirtualAddress: the offset in the first containing entry, from that entry's window. */
  function VirtualAddress(entries: seq<Entry>, p: nat): nat {
    var i := FirstContaining(entries, 0, p);
    if i == |entries| then 0 else (entries[i].vstart + (p - entries[i].start)) % WORD_LIMIT
  }

  /** Every entry ends where its size says. */
  ghost predicate EndsMatch(entries: seq<Entry>) {
    forall i :: 0 <= i < |entries| ==> entries[i].end == entries[i].start + entries[i].size
  }

  /** An address in the range of entry i and of no earlier one is found there; in no range, nowhere. */
  lemma FirstRange(entries: seq<Entry>, p: nat, i: nat)
    requires EndsMatch(entries) && i <= |entries|
    requires i < |entries| ==> entries[i].start <= p < entries[i].start + entries[i].size
    requires forall j :: 0 <= j < i ==> !(entries[j].start <= p < entries[j].start + entries[j].size)
    ensures FirstContaining(entries, 0, p) == i
  {
    assert i < |entries| ==> Contains(entries[i], p);
    assert forall j :: 0 <= j < i ==> !Contains(entries[j], p);
  }

  /** One entry's test in IsUsableAddress, with the sum taken in 64 bits; below 1 MiB any entry will do. */
  predicate Admits(e: Entry, p: nat, size: nat) {
    (p >= e.start && (p + size) % WORD_LIMIT < e.end && e.kind == USABLE) || p < FIRST_MIB
  }

  predicate IsUsable(entries: seq<Entry>, p: nat, size: nat) {
    exists i :: 0 <= i < |entries| && Admits(entries[i], p, size)
  }

  /** At and above 1 MiB an address is usable exactly when one entry of type 1 starts at or below it and ends
      behind the whole range; below, when there is any entry. */
  lemma UsableIff(entries: seq<Entry>, p: nat, size: nat)
    requires p + size < 0x1_0000_0000_0000_0000
    ensures p >= 0x10_0000 ==>
      (IsUsable(entries, p, size) <==> exists i :: 0 <= i < |entries| && entries[i].start <= p && p + size < entries[i].end && entries[i].kind == 1)
    ensures p < 0x10_0000 ==> (IsUsable(entries, p, size) <==> entries != [])
  {
    forall i | 0 <= i < |entries|
      ensures Admits(entries[i], p, size) <==> p < 0x10_0000 || (entries[i].start <= p && p + size < entries[i].end && entries[i].kind == 1)
    {}
    if p < 0x10_0000 && entries != [] { assert Admits(entries[0], p, size); }
  }

  class MemoryTable {
    const physicalMemoryEntry: array<Entry>
    var memoryEntries: nat

    constructor (capacity: nat)
      ensures Valid() && Entries() == [] && physicalMemoryEntry.Length == capacity && fresh(physicalMemoryEntry)
    {
      physicalMemoryEntry := new Entry[capacity](_ => Entry(0, 0, HOLE, 0, 0));
      memoryEntries := 0;
    }

    ghost predicate Valid()
      reads this
    {
      memoryEntries <= physicalMemoryEntry.Length
    }

    ghost function Entries(): (s: seq<Entry>)
      reads this, physicalMemoryEntry
      requires Valid()
      ensures |s| == memoryEntries
    {
      physicalMemoryEntry[..memoryEntries]
    }

    method IsAddress(p: nat) returns (found: bool)
      requires Valid()
      ensures found <==> exists i :: 0 <= i < memoryEntries && Entries()[i].start <= p < (Entries()[i].start + Entries()[i].size) % WORD_LIMIT
    {
      for i := 0 to memoryEntries
        invariant forall j :: 0 <= j < i ==> !(Entries()[j].start <= p < (Entries()[j].start + Entries()[j].size) % WORD_LIMIT)
      {
        var e := physicalMemoryEntry[i];
        if p >= e.start && p < (e.start + e.size) % WORD_LIMIT {
          assert Entries()[i] == e;
          return true;
        }
      }
      found := false;
    }

    method IsUsableAddress(p: nat, size: nat) returns (usable: bool)
      requires Valid()
      ensures usable == IsUsable(Entries(), p, size)
    {
      for i := 0 to memoryEntries
        invariant forall j :: 0 <= j < i ==> !Admits(Entries()[j], p, size)
      {
        var e := physicalMemoryEntry[i];
        if (p >= e.start && (p + size) % WORD_LIMIT < e.end && e.kind == USABLE) || p < FIRST_MIB {
          assert Admits(Entries()[i], p, size);
          return true;
        }
      }
      usable := false;
    }

    /** The offset of p in its first containing entry, from that entry's window; 0 when there is none. */
    method GetVirtualAddress(p: nat) returns (va: nat)
      requires Valid()
      ensures va == VirtualAddress(Entries(), p)
    {
      for i := 0 to memoryEntries
        invariant forall j :: 0 <= j < i ==> !Contains(Entries()[j], p)
      {
        var e := physicalMemoryEntry[i];
        if p >= e.start && p < e.end {
          assert Contains(Entries()[i], p);
          return (e.vstart + (p - e.start)) % WORD_LIMIT;
        }
      }
      va := 0;
    }

    /** Appends a reserved range unless its first address is already covered; older entries stay put.
        The new entry's window is whatever the cell held before. */
    method AddPhysicalMemoryEntry(p: nat, size: nat)
      requires Valid() && memoryEntries < physicalMemoryEntry.Length
      modifies this, physicalMemoryEntry
      ensures Valid()
      ensures
        var covered := exists i :: 0 <= i < old(memoryEntries) && old(Entries())[i].start <= p < (old(Entries())[i].start + old(Entries())[i].size) % WORD_LIMIT;
        Entries() == if covered then old(Entries())
                     else old(Entries()) + [Entry(p, size, RESERVED, old(physicalMemoryEntry[memoryEntries]).vstart, (p + size) % WORD_LIMIT)]
    {
      ghost var before := Entries();
      var covered := IsAddress(p);
      assert Entries() == before;
      if !covered {
        var e := physicalMemoryEntry[memoryEntries];
        physicalMemoryEntry[memoryEntries] := Entry(p, size, RESERVED, e.vstart, (p + size) % WORD_LIMIT);
        memoryEntries := memoryEntries + 1;
        assert Entries() == before + [Entry(p, size, RESERVED, e.vstart, (p + size) % WORD_LIMIT)];
      }
    }
  }
}
