/** The shared-page bitmap of SharedMemory.c (a set bit is a page in use): first-fit search and range update. */
module SharedBitmap {
  import opened Bitmap

  /** n free bits from s on. */
  ghost predicate FreeRun(bits: seq<bool>, s: int, n: nat) {
    0 <= s && s + n <= |bits| && forall k :: s <= k < s + n ==> !bits[k]
  }

  /** r is the smallest start of n free bits, or -1 when there is none. */
  ghost predicate FirstFit(bits: seq<bool>, n: nat, r: int) {
    if r == -1 then forall s :: !FreeRun(bits, s, n)
    else FreeRun(bits, r, n) && forall s :: FreeRun(bits, s, n) ==> r <= s
  }

  /** What a search for no bits at all comes to: the end of the first used bit, or -1 when none is used. */
  ghost predicate AfterFirstUsed(bits: seq<bool>, r: int) {
    if r == -1 then forall k :: 0 <= k < |bits| ==> !bits[k]
    else 0 < r <= |bits| && bits[r - 1] && forall k :: 0 <= k < r - 1 ==> !bits[k]
  }

  /** The answer of AllocateConsecutivePages. */
  ghost predicate Found(bits: seq<bool>, n: nat, r: int) {
    if n == 0 then AfterFirstUsed(bits, r) else FirstFit(bits, n, r)
  }

  /** AllocateConsecutivePages: the smallest start of n free bits, or -1 exactly when there is none. */
  method AllocateConsecutivePages(bitMap: array<bv8>, length: nat, n: nat) returns (r: int)
    requires length <= bitMap.Length
    ensures Found(Bits(bitMap[..])[..8 * length], n, r)
  {
    hide Bits, BitOf, FreeRun, FirstFit, AfterFirstUsed;
    ghost var bits := Bits(bitMap[..])[..8 * length];
    var consecutiveBits := 0;
    for charIndex := 0 to length
      invariant TrailingRun(bits, 8 * charIndex, consecutiveBits)
      invariant NoneBefore(bits, 8 * charIndex, consecutiveBits, n)
    {
      ByteBits(bitMap[..], charIndex);
      for bitIndex := 0 to 8
        invariant TrailingRun(bits, 8 * charIndex + bitIndex, consecutiveBits)
        invariant NoneBefore(bits, 8 * charIndex + bitIndex, consecutiveBits, n)
      {
        ghost var pos := 8 * charIndex + bitIndex;
        var used := BitIsSet(bitMap[charIndex], bitIndex);
        NextRun(bits, pos, consecutiveBits, n);
        if used {
          consecutiveBits := 0;
        } else {
          consecutiveBits := consecutiveBits + 1;
        }
        if consecutiveBits == n {
          return charIndex * 8 + bitIndex + 1 - consecutiveBits;
        }
      }
    }
    NoRunLeft(bits, consecutiveBits, n);
    r := -1;
  }

  /** The test `currentChar & (1 << (7 - bitIndex))`. */
  method BitIsSet(c: bv8, k: nat) returns (used: bool)
    requires k < 8
    ensures used == BitOf(c, k)
  {
    if k == 0 {} else if k == 1 {} else if k == 2 {} else if k == 3 {}
    else if k == 4 {} else if k == 5 {} else if k == 6 {} else {}
    used := c & Mask(k) != 0;
  }

  /** The free bits just before pos number exactly c. */
  predicate TrailingRun(bits: seq<bool>, pos: nat, c: nat) {
    c <= pos <= |bits| && (forall k :: pos - c <= k < pos ==> !bits[k]) && (c < pos ==> bits[pos - c - 1])
  }

  /** The search goes on at pos: no run of n free bits ended so far. */
  ghost predicate NoneBefore(bits: seq<bool>, pos: nat, c: nat, n: nat) {
    if n == 0 then c == pos else c < n && forall s: nat :: FreeRun(bits, s, n) ==> pos < s + n
  }

  lemma NoRunLeft(bits: seq<bool>, c: nat, n: nat)
    requires TrailingRun(bits, |bits|, c) && NoneBefore(bits, |bits|, c, n)
    ensures Found(bits, n, -1)
  {}

  /** Reading one more bit: the run grows or restarts, and the search ends where the run is n long. */
  lemma NextRun(bits: seq<bool>, pos: nat, c: nat, n: nat)
    requires pos < |bits| && TrailingRun(bits, pos, c) && NoneBefore(bits, pos, c, n)
    ensures var d := if bits[pos] then 0 else c + 1;
      && TrailingRun(bits, pos + 1, d)
      && if d == n then Found(bits, n, pos + 1 - n) else NoneBefore(bits, pos + 1, d, n)
  {
    var d := if bits[pos] then 0 else c + 1;
    forall s | FreeRun(bits, s, n) && pos + 1 == s + n
      ensures d >= n
    {
      if n > 0 { assert !bits[pos]; }
    }
    if d == n && n > 0 { assert FreeRun(bits, pos + 1 - n, n); }
  }

  /** bits with [s, end) set to v. */
  function SetRange(bits: seq<bool>, s: nat, end: nat, v: bool): (r: seq<bool>)
    ensures |r| == |bits|
    ensures forall k :: 0 <= k < |bits| ==> r[k] == (if s <= k < end then v else bits[k])
  {
    seq(|bits|, k requires 0 <= k < |bits| => if s <= k < end then v else bits[k])
  }

  /** SetBitsToValue: only bits of the range change; the answer is false exactly when the range reaches
      the end of the map. */
  method SetBitsToValue(bitMap: array<bv8>, length: nat, start: nat, n: nat, value: bool) returns (status: bool)
    requires length <= bitMap.Length && (n > 0 ==> start < 8 * length)
    modifies bitMap
    ensures status <==> n == 0 || start + n < 8 * length
    ensures forall k :: 0 <= k < 8 * bitMap.Length ==>
      Bits(bitMap[..])[k] == if start <= k < start + n && k < 8 * length then value else old(Bits(bitMap[..]))[k]
  {
    hide Bits;
    ghost var bits := Bits(bitMap[..]);
    var charIndex, bitIndex := start / 8, start % 8;
    var left := n;
    ghost var pos := start;
    while left > 0
      invariant 0 <= left <= n && pos == start + (n - left) && charIndex == pos / 8 && bitIndex == pos % 8
      invariant left > 0 ==> pos < 8 * length
      invariant left < n ==> pos < 8 * length
      invariant Bits(bitMap[..]) == SetRange(bits, start, pos, value)
    {
      left := left - 1;
      if value {
        SetBit(bitMap, charIndex * 8 + bitIndex);
      } else {
        ClearBit(bitMap, charIndex * 8 + bitIndex);
      }
      pos := pos + 1;
      assert Bits(bitMap[..]) == SetRange(bits, start, pos, value);
      bitIndex := bitIndex + 1;
      if bitIndex == 8 {
        charIndex := charIndex + 1;
        if charIndex == length {
          assert pos == 8 * length;
          return false;
        }
        bitIndex := 0;
      }
    }
    status := true;
  }

  // ---------------------------------------------------------------- runs

  datatype Range = Range(start: nat, n: nat)

  predicate Within(k: nat, r: Range) { r.start <= k < r.start + r.n }

  /** Reserving n pages (search, then set), or releasing the i-th live range. */
  datatype Op = Reserve(n: nat) | Release(i: nat)

  datatype Pages = Pages(bits: seq<bool>, live: seq<Range>)

  function AfterReserve(p: Pages, r: int, n: nat): Pages {
    if r < 0 then p else Pages(SetRange(p.bits, r, r + n, true), p.live + [Range(r, n)])
  }

  ghost predicate StepTo(p: Pages, op: Op, q: Pages) {
    match op
    case Reserve(n) =>
      exists r :: Found(p.bits, n, r) && q == AfterReserve(p, r, n)
    case Release(i) =>
      i < |p.live| && q == AfterRelease(p, i)
  }

  /** A run from the empty map: every state follows from the one before it. */
  ghost predicate IsRun(states: seq<Pages>, ops: seq<Op>) {
    && |states| == |ops| + 1
    && states[0].live == [] && (forall k :: 0 <= k < |states[0].bits| ==> !states[0].bits[k])
    && forall t :: 0 <= t < |ops| ==> StepTo(states[t], ops[t], states[t + 1])
  }

  /** Live ranges are pairwise disjoint and the set bits are exactly their union. */
  ghost predicate Exact(p: Pages) {
    && (forall i, j, k :: 0 <= i < j < |p.live| && 0 <= k && Within(k, p.live[i]) ==> !Within(k, p.live[j]))
    && (forall i :: 0 <= i < |p.live| ==> p.live[i].start + p.live[i].n <= |p.bits|)
    && (forall k :: 0 <= k < |p.bits| ==> (p.bits[k] <==> exists i :: 0 <= i < |p.live| && Within(k, p.live[i])))
  }

  lemma StepKeepsExact(p: Pages, op: Op, q: Pages)
    requires Exact(p) && StepTo(p, op, q)
    ensures Exact(q) && |q.bits| == |p.bits|
  {
    hide Exact;
    match op
    case Reserve(n) =>
      var r :| Found(p.bits, n, r) && q == AfterReserve(p, r, n);
      if r != -1 { ReserveExact(p, n, r); }
    case Release(i) =>
      ReleaseExact(p, i);
  }

  lemma ReserveExact(p: Pages, n: nat, r: int)
    requires Exact(p) && FreeRun(p.bits, r, n)
    ensures Exact(Pages(SetRange(p.bits, r, r + n, true), p.live + [Range(r, n)]))
  {
    var q := Pages(SetRange(p.bits, r, r + n, true), p.live + [Range(r, n)]);
    var last := |p.live|;
    forall k | 0 <= k < |q.bits|
      ensures q.bits[k] <==> exists i :: 0 <= i < |q.live| && Within(k, q.live[i])
    {
      if Within(k, Range(r, n)) { assert Within(k, q.live[last]); }
      if exists i :: 0 <= i < |p.live| && Within(k, p.live[i]) {
        var i :| 0 <= i < |p.live| && Within(k, p.live[i]);
        assert Within(k, q.live[i]);
      }
    }
    forall i, j, k | 0 <= i < j < |q.live| && 0 <= k && Within(k, q.live[i])
      ensures !Within(k, q.live[j])
    {
      if j == last { assert p.bits[k]; } else { assert Within(k, p.live[i]); }
    }
  }

  function AfterRelease(p: Pages, i: nat): Pages
    requires i < |p.live|
  {
    Pages(SetRange(p.bits, p.live[i].start, p.live[i].start + p.live[i].n, false), p.live[..i] + p.live[i + 1..])
  }

  lemma ReleaseExact(p: Pages, i: nat)
    requires Exact(p) && i < |p.live|
    ensures Exact(AfterRelease(p, i))
  {
    var q := AfterRelease(p, i);
    forall k | 0 <= k < |q.bits|
      ensures q.bits[k] <==> exists j :: 0 <= j < |q.live| && Within(k, q.live[j])
    {
      if q.bits[k] { StillLive(p, i, k); }
      if exists j :: 0 <= j < |q.live| && Within(k, q.live[j]) {
        var j :| 0 <= j < |q.live| && Within(k, q.live[j]);
        assert Within(k, p.live[if j < i then j else j + 1]);
      }
    }
  }

  lemma StillLive(p: Pages, i: nat, k: nat)
    requires Exact(p) && i < |p.live| && k < |p.bits| && AfterRelease(p, i).bits[k]
    ensures exists j :: 0 <= j < |AfterRelease(p, i).live| && Within(k, AfterRelease(p, i).live[j])
  {
    var j :| 0 <= j < |p.live| && Within(k, p.live[j]);
    assert AfterRelease(p, i).live[if j < i then j else j - 1] == p.live[j];
  }

  /** Over every run of reserving and releasing, live ranges stay disjoint and their union is the set of 1 bits. */
  lemma {:induction false} RunIsExact(states: seq<Pages>, ops: seq<Op>)
    requires IsRun(states, ops)
    ensures Exact(states[|ops|])
  {
    hide StepTo, Exact;
    if ops == [] {
      EmptyExact(states[0]);
    } else {
      var n := |ops| - 1;
      RunIsExact(states[..n + 1], ops[..n]);
      StepKeepsExact(states[n], ops[n], states[n + 1]);
    }
  }

  lemma EmptyExact(p: Pages)
    requires p.live == [] && forall k :: 0 <= k < |p.bits| ==> !p.bits[k]
    ensures Exact(p)
  {}
}
