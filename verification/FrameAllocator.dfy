/** The two-level frame allocator of PhysicalMemory.c: one bit per 4 KiB frame and, over it,
    one counter of free frames per collection of 512 frames (2 MiB). */
module FrameAllocator {
  import opened Bitmap
  import opened Words

  // ---------------------------------------------------------------- the abstract allocator

  /** Free frames (true = free) and the free-frame counter of every collection. */
  datatype Frames = Frames(bits: seq<bool>, counts: seq<nat>)

  /** The frames of collection i. */
  function Slice(bits: seq<bool>, i: nat): (s: seq<bool>)
    requires 512 * i + 512 <= |bits|
    ensures |s| == 512
  {
    bits[512 * i..512 * i + 512]
  }

  /** The counters agree with the bitmap.  1024 collections are 2 GiB, the reach of the int products. */
  ghost predicate Consistent(f: Frames) {
    && 512 * |f.counts| <= |f.bits|
    && |f.counts| <= 1024
    && forall i :: 0 <= i < |f.counts| ==> f.counts[i] == CountSet(Slice(f.bits, i))
  }

  function LowestFull(counts: seq<nat>, from: nat): (i: nat)
    requires from <= |counts|
    ensures from <= i <= |counts|
    ensures forall j :: from <= j < i ==> counts[j] != 512
    ensures i < |counts| ==> counts[i] == 512
    decreases |counts| - from
  {
    if from == |counts| || counts[from] == 512 then from else LowestFull(counts, from + 1)
  }

  predicate Covered(f: Frames) { 512 * |f.counts| <= |f.bits| }

  /** Takes frame k away from the free ones. */
  function Take(f: Frames, k: nat): Frames
    requires k < |f.bits|
  {
    if f.bits[k] && k / 512 < |f.counts| && f.counts[k / 512] > 0
    then Frames(f.bits[k := false], f.counts[k / 512 := f.counts[k / 512] - 1])
    else Frames(f.bits[k := false], f.counts)
  }

  /** Gives frame k back; a frame that is already free is left alone. */
  function Give(f: Frames, k: nat): Frames
    requires k < |f.bits|
  {
    if f.bits[k] then f
    else Frames(f.bits[k := true],
                if k / 512 < |f.counts| then f.counts[k / 512 := f.counts[k / 512] + 1] else f.counts)
  }

  function FillSlice(bits: seq<bool>, i: nat, v: bool): (r: seq<bool>)
    requires 512 * i + 512 <= |bits|
    ensures |r| == |bits|
    ensures forall k :: 0 <= k < |bits| ==> r[k] == (if k / 512 == i then v else bits[k])
  {
    seq(|bits|, k requires 0 <= k < |bits| => if k / 512 == i then v else bits[k])
  }

  function AllocOne(f: Frames): (r: (Frames, nat))
    requires Covered(f)
  {
    var k := LowestSet(f.bits, 0, 512 * |f.counts|);
    if k == 512 * |f.counts| then (f, NO_ADDRESS) else (Take(f, k), k * FRAME_SIZE)
  }

  function AllocCollection(f: Frames): (r: (Frames, nat))
    requires Covered(f)
  {
    var i := LowestFull(f.counts, 0);
    if i == |f.counts| then (f, NO_ADDRESS)
    else (Frames(FillSlice(f.bits, i, false), f.counts[i := 0]), i * COLLECTION_SIZE)
  }

  lemma SliceOfUpdate(bits: seq<bool>, k: nat, v: bool, i: nat)
    requires k < |bits| && 512 * i + 512 <= |bits|
    ensures k / 512 != i ==> Slice(bits[k := v], i) == Slice(bits, i)
    ensures k / 512 == i ==> Slice(bits[k := v], i) == Slice(bits, i)[k - 512 * i := v]
  {}

  /** Taking or giving any frame keeps counters and bitmap in agreement. */
  lemma TakeGiveConsistent(f: Frames, k: nat)
    requires Consistent(f) && k < |f.bits|
    ensures Consistent(Take(f, k)) && Consistent(Give(f, k))
  {
    forall i | 0 <= i < |f.counts|
      ensures Take(f, k).counts[i] == CountSet(Slice(Take(f, k).bits, i))
      ensures Give(f, k).counts[i] == CountSet(Slice(Give(f, k).bits, i))
    {
      SliceOfUpdate(f.bits, k, false, i);
      SliceOfUpdate(f.bits, k, true, i);
      if k / 512 == i {
        CountAfterUpdate(Slice(f.bits, i), k - 512 * i, false);
        CountAfterUpdate(Slice(f.bits, i), k - 512 * i, true);
      }
    }
  }

  /** A counter of 512 means exactly that all 512 frames of the collection are free. */
  lemma FullMeansAllFree(f: Frames, i: nat)
    requires Consistent(f) && i < |f.counts|
    ensures f.counts[i] == 512 <==> forall k :: 512 * i <= k < 512 * i + 512 ==> f.bits[k]
    ensures f.counts[i] == 0 <==> forall k :: 512 * i <= k < 512 * i + 512 ==> !f.bits[k]
  {
    var s := Slice(f.bits, i);
    CountExtremes(s);
    assert forall k :: 512 * i <= k < 512 * i + 512 ==> f.bits[k] == s[k - 512 * i];
    assert forall k :: 0 <= k < 512 ==> s[k] == f.bits[k + 512 * i];
  }

  lemma AllocCollectionConsistent(f: Frames)
    requires Consistent(f)
    ensures Consistent(AllocCollection(f).0)
  {
    var g := AllocCollection(f).0;
    var full := LowestFull(f.counts, 0);
    if full < |f.counts| {
      forall i | 0 <= i < |g.counts|
        ensures g.counts[i] == CountSet(Slice(g.bits, i))
      {
        if i == full {
          CountExtremes(Slice(g.bits, i));
        } else {
          assert Slice(g.bits, i) == Slice(f.bits, i);
        }
      }
    }
  }

  /** Gives back the frames k, ..., end - 1. */
  function GiveRange(f: Frames, k: nat, end: nat): (g: Frames)
    requires k <= end <= |f.bits|
    ensures |g.bits| == |f.bits| && |g.counts| == |f.counts|
    decreases end - k
  {
    if k == end then f else Give(GiveRange(f, k, end - 1), end - 1)
  }

  /** True when every frame that freeing a collection at word w touches lies in the bitmap. */
  predicate FreeableWord(f: Frames, w: nat) {
    w + COLLECTION_SIZE < WORD_LIMIT ==> w / FRAME_SIZE + 512 <= |f.bits|
  }

  /** Freeing the collection at w.  The loop bound is a 64-bit sum: when it wraps, the loop does nothing. */
  function FreeCollection(f: Frames, w: nat): Frames
    requires FreeableWord(f, w)
  {
    if w + COLLECTION_SIZE < WORD_LIMIT then GiveRange(f, w / FRAME_SIZE, w / FRAME_SIZE + 512) else f
  }

  lemma {:induction false} GiveRangeConsistent(f: Frames, k: nat, end: nat)
    requires Consistent(f) && k <= end <= |f.bits|
    ensures Consistent(GiveRange(f, k, end))
    decreases end - k
  {
    if k < end {
      GiveRangeConsistent(f, k, end - 1);
      TakeGiveConsistent(GiveRange(f, k, end - 1), end - 1);
    }
  }

  // ---------------------------------------------------------------- the kernel's structure

  datatype Collection = Collection(availableFrames: nat, initialPhysicalAddress: nat)

  /** The available-frame counters of a collection table. */
  function Counters(table: seq<Collection>): (counts: seq<nat>)
    ensures |counts| == |table|
    ensures forall i :: 0 <= i < |table| ==> counts[i] == table[i].availableFrames
  {
    seq(|table|, i requires 0 <= i < |table| => table[i].availableFrames)
  }

  predicate Placed(table: seq<Collection>) {
    forall i :: 0 <= i < |table| ==> table[i].initialPhysicalAddress == i * COLLECTION_SIZE
  }

  function FirstFrame(c: Collection): nat {
    (c.initialPhysicalAddress / 512 / FRAME_SIZE) * 512
  }

  lemma FirstFrameOf(table: seq<Collection>, i: nat)
    requires Placed(table) && i < |table|
    ensures FirstFrame(table[i]) == 512 * i
  {}

  /** The inner counting loop of InitializePhysicalMemoryFrames. */
  method CountCollection(bitmap: array<bv8>, c: nat) returns (available: nat)
    requires 512 * c + 512 <= 8 * bitmap.Length
    ensures available == CountSet(Slice(Bits(bitmap[..]), c))
  {
    hide Bits;
    ghost var whole := Bits(bitmap[..]);
    available := 0;
    for frame := c * 512 to c * 512 + 512
      invariant available == CountSet(whole[512 * c..frame])
    {
      var free := GetBit(bitmap, frame);
      CountOfAppend(whole[512 * c..frame], whole[frame]);
      assert whole[512 * c..frame + 1] == whole[512 * c..frame] + [whole[frame]];
      if free {
        available := available + 1;
      }
    }
  }

  class PhysicalMemoryManager {
    const bitmap: array<bv8>
    const collections: array<Collection>

    function View(): (f: Frames)
      reads bitmap, collections
    {
      Frames(Bits(bitmap[..]), Counters(collections[..]))
    }

    ghost predicate Valid()
      reads bitmap, collections
    {
      Consistent(View()) && Placed(collections[..])
    }

    /** InitializePhysicalMemoryFrames: one counter per 512 available frames. */
    constructor (bits: array<bv8>, availableFrame: nat)
      requires availableFrame / 512 <= 1024
      requires 512 * (availableFrame / 512) <= 8 * bits.Length
      ensures Valid() && bitmap == bits && fresh(collections)
      ensures View().bits == Bits(bits[..]) && |View().counts| == availableFrame / 512
    {
      hide CountSet, Slice, BitOf;
      bitmap := bits;
      var n := availableFrame / 512;
      var table := new Collection[n](_ => Collection(0, 0));
      collections := table;
      new;
      for c := 0 to n
        invariant forall i :: 0 <= i < c ==>
          table[i] == Collection(CountSet(Slice(Bits(bits[..]), i)), i * COLLECTION_SIZE)
      {
        var available := CountCollection(bits, c);
        table[c] := Collection(available, c * 512 * FRAME_SIZE);
      }
    }

    method TakeFrame(i: nat, page: nat)
      requires Valid() && i < collections.Length && 512 * i <= page < 512 * i + 512
      requires View().bits[page]
      modifies bitmap, collections
      ensures Valid() && View() == Take(old(View()), page)
    {
      hide Bits, CountSet, Slice;
      ghost var f := View();
      FullMeansAllFree(f, i);
      TakeGiveConsistent(f, page);
      ClearBit(bitmap, page);
      collections[i] := collections[i].(availableFrames := collections[i].availableFrames - 1);
      assert View() == Take(f, page);
    }

    /** The scan of one collection for its lowest free frame. */
    method ScanCollection(i: nat) returns (found: bool, address: nat)
      requires Valid() && i < collections.Length
      modifies bitmap, collections
      ensures Valid()
      ensures var k := LowestSet(old(View()).bits, 512 * i, 512 * i + 512);
        && found == (k < 512 * i + 512)
        && (found ==> View() == Take(old(View()), k) && address == k * FRAME_SIZE)
        && (!found ==> View() == old(View()))
    {
      hide Bits, CountSet, Slice;
      ghost var f := View();
      FirstFrameOf(collections[..], i);
      var start := FirstFrame(collections[i]);
      var end := start + 512;
      found, address := false, 0;
      for page := start to end
        invariant Valid() && View() == f
        invariant forall k :: start <= k < page ==> !f.bits[k]
      {
        var free := GetBit(bitmap, page);
        if free {
          TakeFrame(i, page);
          LowestSetIs(f.bits, 512 * i, 512 * i + 512, page);
          return true, page * FRAME_SIZE;
        }
      }
    }

    /** Returns the lowest free covered frame; answers -1 exactly when there is none. */
    method AllocateOnePhysicalFrame() returns (address: nat)
      requires Valid()
      modifies bitmap, collections
      ensures Valid() && (View(), address) == AllocOne(old(View()))
    {
      hide Bits, CountSet, Slice;
      ghost var f := View();
      for i := 0 to collections.Length
        invariant Valid() && View() == f
        invariant forall k :: 0 <= k < 512 * i ==> !f.bits[k]
      {
        FullMeansAllFree(f, i);
        if collections[i].availableFrames > 0 {
          var found, a := ScanCollection(i);
          if found {
            LowestSetIs(f.bits, 0, 512 * |f.counts|, LowestSet(f.bits, 512 * i, 512 * i + 512));
            return a;
          }
        }
      }
      address := NO_ADDRESS;
    }

    method DeallocatePhysicalFrame(physicalAddress: nat)
      requires Valid() && physicalAddress / FRAME_SIZE < 8 * bitmap.Length
      modifies bitmap, collections
      ensures Valid() && View() == Give(old(View()), physicalAddress / FRAME_SIZE)
    {
      hide Bits, CountSet, Slice;
      ghost var f := View();
      var frame := physicalAddress / FRAME_SIZE;
      TakeGiveConsistent(f, frame);
      var alreadyFree := GetBit(bitmap, frame);
      if alreadyFree {
        return;
      }
      SetBit(bitmap, frame);
      var collectionAddress := (frame / 512) * COLLECTION_SIZE;
      for i := 0 to collections.Length
        invariant Bits(bitmap[..]) == f.bits[frame := true]
        invariant Placed(collections[..])
        invariant forall j :: 0 <= j < collections.Length ==>
          collections[j].availableFrames == f.counts[j] + (if j < i && j == frame / 512 then 1 else 0)
      {
        if collections[i].initialPhysicalAddress == collectionAddress {
          collections[i] := collections[i].(availableFrames := collections[i].availableFrames + 1);
        }
      }
      assert View() == Give(f, frame);
    }

    method DeallocateOnePhysicalFrameCollection(word: nat)
      requires Valid() && word < WORD_LIMIT && FreeableWord(View(), word)
      modifies bitmap, collections
      ensures Valid() && View() == FreeCollection(old(View()), word)
    {
      hide Bits, CountSet, Slice, Consistent, Give;
      ghost var f := View();
      ghost var first := word / FRAME_SIZE;
      var end := (word + COLLECTION_SIZE) % WORD_LIMIT;
      EndOfCollection(word);
      var address := word;
      ghost var frame := first;
      while address < end
        invariant Valid() && first <= frame && address == word + (frame - first) * FRAME_SIZE
        invariant frame > first ==> end == word + COLLECTION_SIZE && frame <= first + 512
        invariant frame <= |f.bits| || frame == first
        invariant if frame == first then View() == f else View() == GiveRange(f, first, frame)
        decreases end - address
      {
        FrameAfter(word, frame - first);
        ghost var before := GiveRange(f, first, frame);
        assert View() == before;
        DeallocatePhysicalFrame(address);
        assert View() == Give(before, frame);
        address := address + FRAME_SIZE;
        frame := frame + 1;
      }
    }

    /** The clearing loop over a full collection; `stumbled` records whether the
        "already cleared" branch was taken. */
    method ClearCollection(i: nat) returns (stumbled: bool)
      requires Valid() && i < collections.Length && collections[i].availableFrames == 512
      modifies bitmap, collections
      ensures View() == Frames(FillSlice(old(View()).bits, i, false), old(View()).counts[i := 0])
      ensures Placed(collections[..]) && !stumbled
    {
      hide Bits, CountSet, Slice;
      ghost var f := View();
      FullMeansAllFree(f, i);
      FirstFrameOf(collections[..], i);
      stumbled := false;
      var start := FirstFrame(collections[i]);
      var end := start + 512;
      for page := start to end
        invariant !stumbled && Placed(collections[..])
        invariant forall k :: 0 <= k < |f.bits| ==> Bits(bitmap[..])[k] == (f.bits[k] && !(start <= k < page))
        invariant forall j :: 0 <= j < collections.Length ==>
          collections[j].availableFrames == (if j == i then 512 - (page - start) else f.counts[j])
      {
        var free := GetBit(bitmap, page);
        if free {
          ClearBit(bitmap, page);
          collections[i] := collections[i].(availableFrames := collections[i].availableFrames - 1);
        } else {
          stumbled := true;
        }
      }
      assert Bits(bitmap[..]) == FillSlice(f.bits, i, false);
    }

    /** Returns the lowest fully free collection; answers -1 exactly when there is none,
        and never takes its "already cleared" branch. */
    method AllocateOnePhysicalFrameCollection() returns (address: nat, stumbled: bool)
      requires Valid()
      modifies bitmap, collections
      ensures Valid() && (View(), address) == AllocCollection(old(View()))
      ensures !stumbled && address < WORD_LIMIT
    {
      hide Bits, CountSet, Slice;
      ghost var f := View();
      AllocCollectionConsistent(f);
      stumbled := false;
      for i := 0 to collections.Length
        invariant Valid() && View() == f && !stumbled
        invariant forall k :: 0 <= k < i ==> f.counts[k] != 512
      {
        if collections[i].availableFrames == 512 {
          stumbled := ClearCollection(i);
          address := collections[i].initialPhysicalAddress;
          return;
        }
      }
      address := NO_ADDRESS;
    }
  }

  lemma EndOfCollection(word: nat)
    requires word < WORD_LIMIT
    ensures (word + COLLECTION_SIZE) % WORD_LIMIT
         == if word + COLLECTION_SIZE < WORD_LIMIT then word + COLLECTION_SIZE else word + COLLECTION_SIZE - WORD_LIMIT
  {}

  lemma FrameAfter(word: nat, n: nat)
    ensures (word + n * FRAME_SIZE) / FRAME_SIZE == word / FRAME_SIZE + n
  {}
}
