/** The frame side of shared memory: which collections a run of page allocations takes, and what
    freeing the same pages once per core gives back. */
module SharedFrames {
  import opened Words
  import opened Bitmap
  import opened FrameAllocator

  /** The fully free collections from `from` on, in increasing order. */
  function FullFrom(counts: seq<nat>, from: nat): seq<nat>
    requires from <= |counts|
    decreases |counts| - from
  {
    if from == |counts| then []
    else if counts[from] == 512 then [from] + FullFrom(counts, from + 1)
    else FullFrom(counts, from + 1)
  }

  /** Exactly the full collections from `from` on, in increasing order. */
  ghost predicate ListsFull(counts: seq<nat>, from: nat, full: seq<nat>) {
    && (forall j :: 0 <= j < |full| ==> from <= full[j] < |counts| && counts[full[j]] == 512)
    && (forall j, k :: 0 <= j < k < |full| ==> full[j] < full[k])
    && (forall i :: from <= i < |counts| && counts[i] == 512 ==> i in full)
  }

  lemma {:induction false} FullFromIs(counts: seq<nat>, from: nat)
    requires from <= |counts|
    ensures ListsFull(counts, from, FullFrom(counts, from))
    decreases |counts| - from
  {
    if from < |counts| {
      FullFromIs(counts, from + 1);
      var rest := FullFrom(counts, from + 1);
      assert ListsFull(counts, from, if counts[from] == 512 then [from] + rest else rest);
    }
  }

  lemma {:induction false} FullFromSkips(counts: seq<nat>, from: nat, to: nat)
    requires from <= to <= |counts|
    requires forall i :: from <= i < to ==> counts[i] != 512
    ensures FullFrom(counts, from) == FullFrom(counts, to)
    decreases |counts| - from
  {
    hide FullFrom;
    if from < to {
      FullFromNext(counts, from);
      FullFromSkips(counts, from + 1, to);
    }
  }

  lemma FullFromNext(counts: seq<nat>, from: nat)
    requires from < |counts| && counts[from] != 512
    ensures FullFrom(counts, from) == FullFrom(counts, from + 1)
  {}

  /** The lowest full collection heads the list; taking it leaves the rest of the list. */
  lemma LowestFullHeads(counts: seq<nat>, from: nat)
    requires from <= |counts|
    ensures var i := LowestFull(counts, from);
      && (i == |counts| ==> FullFrom(counts, from) == [])
      && (i < |counts| ==> FullFrom(counts, from) == [i] + FullFrom(counts, i + 1))
      && (i < |counts| ==> FullFrom(counts[i := 0], from) == FullFrom(counts, i + 1))
  {
    hide LowestFull, FullFrom;
    var i := LowestFull(counts, from);
    FullFromSkips(counts, from, i);
    FullFromAt(counts, i);
    if i < |counts| {
      FullFromSkips(counts[i := 0], from, i + 1);
      FullFromLocal(counts, counts[i := 0], i + 1);
    }
  }

  lemma FullFromAt(counts: seq<nat>, i: nat)
    requires i <= |counts| && (i < |counts| ==> counts[i] == 512)
    ensures FullFrom(counts, i) == if i == |counts| then [] else [i] + FullFrom(counts, i + 1)
  {}

  lemma {:induction false} FullFromLocal(counts: seq<nat>, other: seq<nat>, from: nat)
    requires |counts| == |other| && from <= |counts|
    requires forall i :: from <= i < |counts| ==> counts[i] == other[i]
    ensures FullFrom(counts, from) == FullFrom(other, from)
    decreases |counts| - from
  {
    if from < |counts| { FullFromLocal(counts, other, from + 1); }
  }

  /** n pages allocated one after the other, with the entry word each of them gets. */
  function AllocPages(f: Frames, n: nat): (r: (Frames, seq<nat>))
    requires Covered(f)
    ensures |r.0.bits| == |f.bits| && |r.0.counts| == |f.counts| && |r.1| == n
  {
    if n == 0 then (f, [])
    else
      var (g, words) := AllocPages(f, n - 1);
      var (h, address) := AllocCollection(g);
      (h, words + [PageFlags(address)])
  }

  /** The entry word of the j-th page: the j-th fully free collection, or all ones when they ran out. */
  function PageWord(full: seq<nat>, j: nat): nat {
    if j < |full| then PageFlags(full[j] * COLLECTION_SIZE) else NO_ADDRESS
  }

  /** f with the collections of S taken out. */
  function Without(f: Frames, S: set<nat>): (g: Frames)
    ensures |g.bits| == |f.bits| && |g.counts| == |f.counts|
  {
    Frames(seq(|f.bits|, k requires 0 <= k < |f.bits| => f.bits[k] && k / 512 !in S),
           seq(|f.counts|, i requires 0 <= i < |f.counts| => if i in S then 0 else f.counts[i]))
  }

  function Elements(s: seq<nat>): set<nat> { set x | x in s }

  /** What one more allocation does after the first m fully free collections were taken. */
  lemma AllocStep(f: Frames, full: seq<nat>, m: nat)
    requires Consistent(f) && Covered(f)
    requires full == FullFrom(f.counts, 0)
    requires FullFrom(Without(f, Elements(full[..Min(m, |full|)])).counts, 0) == full[Min(m, |full|)..]
    ensures var k := Min(m, |full|); var k' := Min(m + 1, |full|);
      var (h, address) := AllocCollection(Without(f, Elements(full[..k])));
      && h == Without(f, Elements(full[..k']))
      && FullFrom(h.counts, 0) == full[k'..]
      && PageFlags(address) == PageWord(full, m)
  {
    hide CountSet, Slice, Consistent, FullFrom, PageFlags, LowestFull, Elements, Without, FillSlice;
    AllOnesWord();
    var g := Without(f, Elements(full[..Min(m, |full|)]));
    LowestFullHeads(g.counts, 0);
    if m < |full| {
      HeadOfFull(g.counts, full, m);
      TakeAnother(f, Elements(full[..m]), full[m]);
      ElementsPush(full[..m], full[m]);
    }
  }

  /** The next page comes from the head of what is left of the list. */
  lemma HeadOfFull(counts: seq<nat>, full: seq<nat>, m: nat)
    requires m < |full| && FullFrom(counts, 0) == full[m..]
    ensures full[..m + 1] == full[..m] + [full[m]]
    ensures var i := LowestFull(counts, 0); i < |counts| && i == full[m] && FullFrom(counts, i + 1) == full[m + 1..]
  {
    hide FullFrom, LowestFull;
    LowestFullHeads(counts, 0);
    var i := LowestFull(counts, 0);
    SplitAtHead(full, m);
    if i < |counts| { SameHead(full[m], full[m + 1..], i, FullFrom(counts, i + 1)); }
  }

  lemma SplitAtHead(full: seq<nat>, m: nat)
    requires m < |full|
    ensures full[..m + 1] == full[..m] + [full[m]] && full[m..] == [full[m]] + full[m + 1..]
  {}

  lemma SameHead(a: nat, s: seq<nat>, b: nat, t: seq<nat>)
    ensures [a] + s == [b] + t ==> a == b && s == t
  {
    if [a] + s == [b] + t {
      assert ([a] + s)[0] == a && ([b] + t)[0] == b;
      assert ([a] + s)[1..] == s && ([b] + t)[1..] == t;
    }
  }

  lemma ElementsPush(s: seq<nat>, x: nat)
    ensures Elements(s + [x]) == Elements(s) + {x}
  {}

  /** Page j gets the j-th fully free collection of the starting state and no other frame changes. */
  lemma {:induction false} AllocPagesTakesFull(f: Frames, n: nat)
    requires Consistent(f)
    ensures var full := FullFrom(f.counts, 0); var m := Min(n, |full|); var (g, words) := AllocPages(f, n);
      && Consistent(g)
      && g == Without(f, Elements(full[..m]))
      && FullFrom(g.counts, 0) == full[m..]
      && forall j :: 0 <= j < n ==> words[j] == PageWord(full, j)
  {
    hide CountSet, Slice, PageFlags, PageWord, FullFrom, AllocCollection;
    var full := FullFrom(f.counts, 0);
    if n > 0 {
      AllocPagesTakesFull(f, n - 1);
      var (g, words) := AllocPages(f, n - 1);
      assert Covered(f);
      AllocStep(f, full, n - 1);
      AllocCollectionConsistent(g);
    } else {
      assert Without(f, Elements(full[..0])) == f;
    }
  }

  lemma AllOnesWord()
    ensures PageFlags(NO_ADDRESS) == NO_ADDRESS
  {}

  lemma TakeAnother(f: Frames, S: set<nat>, i: nat)
    requires i < |f.counts| && 512 * |f.counts| <= |f.bits|
    ensures var g := Without(f, S);
      Without(f, S + {i}) == Frames(FillSlice(g.bits, i, false), g.counts[i := 0])
  {}

  // ---------------------------------------------------------------- giving the pages back

  ghost predicate FreeableWords(f: Frames, words: seq<nat>) {
    forall j :: 0 <= j < |words| ==> FreeableWord(f, words[j])
  }

  /** Frees the collections of the words, in order. */
  ghost function FreePages(f: Frames, words: seq<nat>): (g: Frames)
    requires FreeableWords(f, words)
    ensures |g.bits| == |f.bits| && |g.counts| == |f.counts|
  {
    if words == [] then f
    else
      assert FreeableWord(f, words[|words| - 1]);
      FreeCollection(FreePages(f, words[..|words| - 1]), words[|words| - 1])
  }

  lemma FreePagesStep(f: Frames, words: seq<nat>, n: nat)
    requires n < |words| && FreeableWords(f, words)
    ensures FreeableWords(f, words[..n]) && FreeableWords(f, words[..n + 1])
    ensures FreeableWord(FreePages(f, words[..n]), words[n])
    ensures FreePages(f, words[..n + 1]) == FreeCollection(FreePages(f, words[..n]), words[n])
  {
    assert forall j :: 0 <= j < n ==> words[..n][j] == words[j];
    assert forall j :: 0 <= j <= n ==> words[..n + 1][j] == words[j];
    assert FreeableWord(f, words[n]);
    assert words[..n + 1][..n] == words[..n];
  }

  /** The same words freed once for every core. */
  ghost function FreeOnCores(f: Frames, words: seq<nat>, cores: nat): (g: Frames)
    requires FreeableWords(f, words)
    ensures |g.bits| == |f.bits| && |g.counts| == |f.counts|
  {
    if cores == 0 then f else FreePages(FreeOnCores(f, words, cores - 1), words)
  }

  /** Freeing a collection that was fully free at the start puts it back, and changes nothing when
      another core has put it back already. */
  lemma FreeUndoesTake(f: Frames, S: set<nat>, i: nat)
    requires Consistent(f) && i < |f.counts| && f.counts[i] == 512
    ensures FreeableWord(Without(f, S), PageFlags(i * COLLECTION_SIZE))
    ensures FreeCollection(Without(f, S), PageFlags(i * COLLECTION_SIZE)) == Without(f, S - {i})
  {
    hide CountSet, Slice, Consistent, Without, PartlyBack, PageFlags, GiveRange;
    FullMeansAllFree(f, i);
    ConsistentFits(f);
    FlagsKeepFrame(i * COLLECTION_SIZE);
    DivUnique(PageFlags(i * COLLECTION_SIZE), FRAME_SIZE, 512 * i, 0x87);
    GiveBack(f, S, i, 512 * i + 512);
    AllBack(f, S, i);
  }

  lemma ConsistentFits(f: Frames)
    requires Consistent(f)
    ensures 512 * |f.counts| <= |f.bits| && |f.counts| <= 1024
  {}

  /** With its last frame the collection is out of the set. */
  lemma AllBack(f: Frames, S: set<nat>, i: nat)
    requires Consistent(f) && i < |f.counts| && f.counts[i] == 512
    ensures PartlyBack(f, S, i, 512 * i + 512) == Without(f, S - {i})
  {
    hide CountSet, Slice;
    var g, h := PartlyBack(f, S, i, 512 * i + 512), Without(f, S - {i});
    assert g.bits == h.bits;
    assert g.counts == h.counts;
  }

  /** The state while collection i comes back frame by frame, up to frame `end`. */
  function PartlyBack(f: Frames, S: set<nat>, i: nat, end: nat): (g: Frames)
    requires 512 * i <= end <= 512 * i + 512
    ensures |g.bits| == |f.bits| && |g.counts| == |f.counts|
  {
    if i !in S then Without(f, S)
    else
      Frames(seq(|f.bits|, k requires 0 <= k < |f.bits| => f.bits[k] && (k / 512 !in S || (k / 512 == i && k < end))),
             seq(|f.counts|, j requires 0 <= j < |f.counts| =>
               if j == i then end - 512 * i else if j in S then 0 else f.counts[j]))
  }

  lemma {:induction false} GiveBack(f: Frames, S: set<nat>, i: nat, end: nat)
    requires i < |f.counts| && 512 * i <= end <= 512 * i + 512 <= |f.bits|
    requires forall k :: 512 * i <= k < 512 * i + 512 ==> f.bits[k]
    ensures GiveRange(Without(f, S), 512 * i, end) == PartlyBack(f, S, i, end)
    decreases end
  {
    if 512 * i < end {
      GiveBack(f, S, i, end - 1);
      GiveOne(f, S, i, end - 1);
    } else {
      assert Without(f, S) == PartlyBack(f, S, i, end);
    }
  }

  lemma GiveOne(f: Frames, S: set<nat>, i: nat, k: nat)
    requires i < |f.counts| && 512 * i <= k < 512 * i + 512 <= |f.bits|
    requires forall j :: 512 * i <= j < 512 * i + 512 ==> f.bits[j]
    ensures Give(PartlyBack(f, S, i, k), k) == PartlyBack(f, S, i, k + 1)
  {
    assert k / 512 == i;
    if i in S {
      assert !PartlyBack(f, S, i, k).bits[k];
      assert Give(PartlyBack(f, S, i, k), k).bits == PartlyBack(f, S, i, k + 1).bits;
      assert Give(PartlyBack(f, S, i, k), k).counts == PartlyBack(f, S, i, k + 1).counts;
    }
  }

  lemma LessOne(S: set<nat>, full: seq<nat>, n: nat)
    requires n < |full|
    ensures S - Elements(full[..n + 1]) == S - Elements(full[..n]) - {full[n]}
  {
    assert full[..n + 1] == full[..n] + [full[n]];
  }

  lemma {:induction false} FreePagesUndoes(f: Frames, S: set<nat>, full: seq<nat>, words: seq<nat>)
    requires Consistent(f) && full == FullFrom(f.counts, 0)
    requires forall j :: 0 <= j < |words| ==> words[j] == PageWord(full, j)
    ensures FreeableWords(Without(f, S), words)
    ensures FreePages(Without(f, S), words) == Without(f, S - Elements(full[..Min(|words|, |full|)]))
    decreases |words|
  {
    hide CountSet, Slice, PageFlags, FullFrom;
    if words == [] {
      assert Elements(full[..0]) == {};
      assert S - {} == S;
    } else {
      var n := |words| - 1;
      FreePagesUndoes(f, S, full, words[..n]);
      forall j | 0 <= j < n
        ensures FreeableWord(Without(f, S), words[j])
      {
        assert FreeableWord(Without(f, S), words[..n][j]);
      }
      if n < |full| {
        FullFromIs(f.counts, 0);
        FreeUndoesTake(f, S - Elements(full[..n]), full[n]);
        LessOne(S, full, n);
      }
    }
  }

  /** Allocating any number of shared pages and freeing each of them once for every core restores
      the bitmap and all counters, for any positive number of cores, also when the collections ran out. */
  lemma {:induction false} SharingConserves(f: Frames, n: nat, cores: nat)
    requires Consistent(f) && cores > 0
    ensures var (g, words) := AllocPages(f, n);
      FreeableWords(g, words) && FreeOnCores(g, words, cores) == f
  {
    hide CountSet, Slice, PageFlags, FullFrom, PageWord;
    var full := FullFrom(f.counts, 0);
    var (g, words) := AllocPages(f, n);
    var taken := Elements(full[..Min(n, |full|)]);
    AllocPagesTakesFull(f, n);
    assert Without(f, {}) == f;
    if cores == 1 {
      FreePagesUndoes(f, taken, full, words);
      assert taken - taken == {};
      assert FreeOnCores(g, words, 0) == g;
    } else {
      SharingConserves(f, n, cores - 1);
      FreePagesUndoes(f, {}, full, words);
      assert {} - taken == {};
    }
  }

  /** While fully free collections last, different pages get different collections. */
  lemma PagesDistinct(f: Frames, n: nat, j: nat, k: nat)
    requires Consistent(f) && j < k < n
    ensures var words := AllocPages(f, n).1;
      (words[j] == words[k] <==> |FullFrom(f.counts, 0)| <= j)
  {
    hide CountSet, Slice;
    var full := FullFrom(f.counts, 0);
    AllocPagesTakesFull(f, n);
    FullFromIs(f.counts, 0);
    hide FullFrom, AllocPages;
    if j < |full| {
      FlagsKeepFrame(full[j] * COLLECTION_SIZE);
      assert full[j] < 1024;
      if k < |full| { FlagsKeepFrame(full[k] * COLLECTION_SIZE); }
    }
  }
}
