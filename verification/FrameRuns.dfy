/** What the frame allocator keeps over every run of its four operations. */
module FrameRuns {
  import opened Bitmap
  import opened Words
  import opened FrameAllocator

  datatype Op = TakeOne | TakeCollection | FreeOne(address: nat) | FreeTwoMiB(word: nat)

  /** The operations read and write inside the bitmap. */
  predicate InRange(f: Frames, op: Op) {
    match op
    case TakeOne | TakeCollection => true
    case FreeOne(address) => address / FRAME_SIZE < |f.bits|
    case FreeTwoMiB(word) => FreeableWord(f, word)
  }

  ghost predicate AllInRange(f: Frames, ops: seq<Op>) {
    forall n :: 0 <= n < |ops| ==> InRange(f, ops[n])
  }

  function Step(f: Frames, op: Op): (g: Frames)
    requires Covered(f) && InRange(f, op)
    ensures |g.bits| == |f.bits| && |g.counts| == |f.counts|
  {
    match op
    case TakeOne => AllocOne(f).0
    case TakeCollection => AllocCollection(f).0
    case FreeOne(address) => Give(f, address / FRAME_SIZE)
    case FreeTwoMiB(word) => FreeCollection(f, word)
  }

  ghost function Run(f: Frames, ops: seq<Op>): (g: Frames)
    requires Covered(f) && AllInRange(f, ops)
    ensures |g.bits| == |f.bits| && |g.counts| == |f.counts|
  {
    if ops == [] then f else Step(Run(f, ops[..|ops| - 1]), ops[|ops| - 1])
  }

  /** Each counter equals the number of set bits of its slice after any run,
      whatever addresses the callers free. */
  lemma {:induction false} RunKeepsCounters(f: Frames, ops: seq<Op>)
    requires Consistent(f) && AllInRange(f, ops)
    ensures Consistent(Run(f, ops))
  {
    hide CountSet, Slice;
    if ops != [] {
      var before := Run(f, ops[..|ops| - 1]);
      RunKeepsCounters(f, ops[..|ops| - 1]);
      StepKeepsCounters(before, ops[|ops| - 1]);
    }
  }

  lemma StepKeepsCounters(f: Frames, op: Op)
    requires Consistent(f) && InRange(f, op)
    ensures Consistent(Step(f, op))
  {
    hide CountSet, Slice;
    match op
    case TakeOne =>
      var k := LowestSet(f.bits, 0, 512 * |f.counts|);
      if k < 512 * |f.counts| { TakeGiveConsistent(f, k); }
    case TakeCollection => AllocCollectionConsistent(f);
    case FreeOne(address) => TakeGiveConsistent(f, address / FRAME_SIZE);
    case FreeTwoMiB(word) =>
      if word + COLLECTION_SIZE < WORD_LIMIT {
        GiveRangeConsistent(f, word / FRAME_SIZE, word / FRAME_SIZE + 512);
      }
  }

  // ---------------------------------------------------------------- what an allocation returns

  ghost predicate AllFree(bits: seq<bool>, i: nat) {
    512 * i + 512 <= |bits| && forall k :: 512 * i <= k < 512 * i + 512 ==> bits[k]
  }

  /** The single-frame answer depends on the bitmap alone: the lowest free covered frame,
      or -1 exactly when no covered frame is free; nothing else changes. */
  lemma OneIsLowestSet(f: Frames)
    requires Consistent(f)
    ensures var (g, address) := AllocOne(f);
      if exists k: nat :: k < 512 * |f.counts| && f.bits[k] then
        && address % 0x1000 == 0 && address < 0x8000_0000
        && var k := address / 0x1000;
        && k < 512 * |f.counts| && f.bits[k] && (forall j :: 0 <= j < k ==> !f.bits[j])
        && g.bits == f.bits[k := false]
      else g == f && address == 0xFFFF_FFFF_FFFF_FFFF
  {}

  /** The collection answer also depends on the bitmap alone: the lowest collection whose
      512 frames are all free, or -1 exactly when there is none. */
  lemma CollectionIsLowestAllFree(f: Frames)
    requires Consistent(f)
    ensures var (g, address) := AllocCollection(f);
      if exists i: nat :: i < |f.counts| && AllFree(f.bits, i) then
        && address % 0x20_0000 == 0 && address < 0x8000_0000
        && var i := address / 0x20_0000;
        && i < |f.counts| && AllFree(f.bits, i) && (forall j: nat :: j < i ==> !AllFree(f.bits, j))
        && g.bits == FillSlice(f.bits, i, false)
      else g == f && address == 0xFFFF_FFFF_FFFF_FFFF
  {
    hide CountSet, Slice;
    forall i: nat | i < |f.counts|
      ensures f.counts[i] == 512 <==> AllFree(f.bits, i)
    {
      FullMeansAllFree(f, i);
    }
    var full := LowestFull(f.counts, 0);
    if full < |f.counts| {
      assert AllFree(f.bits, full);
    }
  }

  // ---------------------------------------------------------------- conservation

  /** The frames an operation hands out. */
  function HandedOut(f: Frames, op: Op): set<nat>
    requires Covered(f)
  {
    match op
    case TakeOne => if AllocOne(f).1 == NO_ADDRESS then {} else {AllocOne(f).1 / FRAME_SIZE}
    case TakeCollection =>
      if AllocCollection(f).1 == NO_ADDRESS then {} else FramesFrom(AllocCollection(f).1 / FRAME_SIZE)
    case _ => {}
  }

  predicate InBlock(j: nat, k: nat) { k <= j < k + 512 }

  function FramesFrom(k: nat): (s: set<nat>)
    ensures forall j :: j in s <==> k <= j < k + 512
  {
    set j | k <= j < k + 512 && InBlock(j, k)
  }

  /** The frames an operation takes back. */
  function HandedBack(op: Op): set<nat> {
    match op
    case FreeOne(address) => {address / FRAME_SIZE}
    case FreeTwoMiB(word) => if word + COLLECTION_SIZE < WORD_LIMIT then FramesFrom(word / FRAME_SIZE) else {}
    case _ => {}
  }

  /** The frames in use after a run that started with none in use. */
  ghost function Live(f: Frames, ops: seq<Op>): set<nat>
    requires Covered(f) && AllInRange(f, ops)
  {
    if ops == [] then {}
    else
      var n := |ops| - 1;
      Live(f, ops[..n]) + HandedOut(Run(f, ops[..n]), ops[n]) - HandedBack(ops[n])
  }

  /** Callers free only what is in use. */
  ghost predicate Disciplined(f: Frames, ops: seq<Op>)
    requires Covered(f) && AllInRange(f, ops)
  {
    forall n :: 0 <= n < |ops| ==> HandedBack(ops[n]) <= Live(f, ops[..n])
  }

  /** The initially free frames split exactly into the free and the live ones. */
  ghost predicate Split(f: Frames, g: Frames, live: set<nat>)
    requires |f.bits| == |g.bits|
  {
    && (forall k :: 0 <= k < |f.bits| ==> f.bits[k] == (g.bits[k] || k in live))
    && (forall k :: 0 <= k < |f.bits| ==> !(g.bits[k] && k in live))
    && (forall k :: k in live ==> k < |f.bits|)
  }

  lemma StepSplits(f: Frames, g: Frames, live: set<nat>, op: Op)
    requires Consistent(g) && |f.bits| == |g.bits| && InRange(g, op)
    requires Split(f, g, live) && HandedBack(op) <= live
    ensures Split(f, Step(g, op), live + HandedOut(g, op) - HandedBack(op))
    ensures HandedOut(g, op) !! live
  {
    hide CountSet, Slice;
    match op
    case TakeOne => OneIsLowestSet(g);
    case TakeCollection => CollectionSplits(f, g, live);
    case FreeOne(address) =>
    case FreeTwoMiB(word) =>
      if word + COLLECTION_SIZE < WORD_LIMIT {
        GiveRangeBits(g, word / FRAME_SIZE, word / FRAME_SIZE + 512);
      }
  }

  lemma CollectionSplits(f: Frames, g: Frames, live: set<nat>)
    requires Consistent(g) && |f.bits| == |g.bits| && Split(f, g, live)
    ensures Split(f, AllocCollection(g).0, live + HandedOut(g, TakeCollection))
    ensures HandedOut(g, TakeCollection) !! live
  {
    hide CountSet, Slice;
    CollectionIsLowestAllFree(g);
    var (h, address) := AllocCollection(g);
    if address != NO_ADDRESS {
      var i := address / COLLECTION_SIZE;
      assert address / FRAME_SIZE == 512 * i;
      assert forall k :: 512 * i <= k < 512 * i + 512 <==> k / 512 == i;
      assert forall k :: k in HandedOut(g, TakeCollection) <==> k / 512 == i;
    }
  }

  lemma {:induction false} GiveRangeBits(f: Frames, k: nat, end: nat)
    requires k <= end <= |f.bits|
    ensures forall j :: 0 <= j < |f.bits| ==> GiveRange(f, k, end).bits[j] == (f.bits[j] || k <= j < end)
    decreases end - k
  {
    if k < end { GiveRangeBits(f, k, end - 1); }
  }

  lemma PrefixDisciplined(f: Frames, ops: seq<Op>, n: nat)
    requires Covered(f) && AllInRange(f, ops) && Disciplined(f, ops) && n <= |ops|
    ensures AllInRange(f, ops[..n]) && Disciplined(f, ops[..n])
  {
    hide Live, HandedBack;
    assert forall m :: 0 <= m <= n ==> ops[..n][..m] == ops[..m];
  }

  lemma {:induction false} RunSplits(f: Frames, ops: seq<Op>)
    requires Consistent(f) && AllInRange(f, ops) && Disciplined(f, ops)
    ensures Split(f, Run(f, ops), Live(f, ops))
  {
    hide CountSet, Slice, Step, HandedOut, HandedBack;
    if ops != [] {
      var n := |ops| - 1;
      hide Split;
      PrefixDisciplined(f, ops, n);
      RunSplits(f, ops[..n]);
      RunKeepsCounters(f, ops[..n]);
      StepSplits(f, Run(f, ops[..n]), Live(f, ops[..n]), ops[n]);
    }
  }

  /** No frame is lost, none is handed out twice, and every allocation is fresh. */
  lemma RunConserves(f: Frames, ops: seq<Op>)
    requires Consistent(f) && AllInRange(f, ops) && Disciplined(f, ops)
    ensures Split(f, Run(f, ops), Live(f, ops))
    ensures forall n :: 0 <= n < |ops| ==> HandedOut(Run(f, ops[..n]), ops[n]) !! Live(f, ops[..n])
  {
    hide CountSet, Slice, Step, Split, HandedOut, HandedBack, Run, Live;
    RunSplits(f, ops);
    forall n | 0 <= n < |ops|
      ensures HandedOut(Run(f, ops[..n]), ops[n]) !! Live(f, ops[..n])
    {
      PrefixDisciplined(f, ops, n);
      RunSplits(f, ops[..n]);
      RunKeepsCounters(f, ops[..n]);
      StepSplits(f, Run(f, ops[..n]), Live(f, ops[..n]), ops[n]);
    }
  }
}
