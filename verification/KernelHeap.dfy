/** The exchange-based spinlock of Spinlock.c guarding the bump allocator of KMalloc.c, one memory access
    at a time: any number of cores, any schedule.  The lock is the one spinlock_init makes (lapic == 0). */
module KernelHeap {
  import opened Words

  /** The fixed kernel range [start, end). */
  datatype Heap = Heap(start: nat, end: nat)

  /** kmalloc(size), or kvalloc(size) when paged. */
  datatype Call = Call(size: nat, paged: bool)

  datatype Block = Block(address: nat, size: nat, paged: bool)

  /** Where a core stands between two memory accesses. */
  datatype Pc =
    | Idle
    | Exchange(call: Call)                           // xchg(&spin_lock, SL_EBUSY)
    | Spin(call: Call)                               // while (spin_lock)
    | CountRead(call: Call)                          // stack++, the load
    | CountWrite(call: Call, stack: nat)             // stack++, the store
    | Check(call: Call)                              // the load of the test (and of kvalloc's cur)
    | Fetch(call: Call)                              // kmalloc: cur = current
    | AddRead(call: Call, cur: nat)                  // kmalloc: current += size, the load
    | AddWrite(call: Call, cur: nat, loaded: nat)      // kmalloc: current += size, the store
    | Store(call: Call, cur: nat)                    // kvalloc: current = cur + size
    | UncountRead(call: Call, answer: nat)           // stack--, the load
    | UncountWrite(call: Call, answer: nat, stack: nat)
    | ReleaseTest(call: Call, answer: nat)           // stack == 0 ?
    | Release(call: Call, answer: nat)               // spin_lock = 0
    | ClearOwner(call: Call, answer: nat)            // core_id = 0
    | Return(call: Call, answer: nat)

  datatype State = State(lock: nat, stack: nat, owner: nat, current: nat, cores: seq<Pc>, returned: seq<Block>)

  function RoundUp(a: nat): nat {
    if a % FRAME_SIZE != 0 then a / FRAME_SIZE * FRAME_SIZE + FRAME_SIZE else a
  }

  /** Where a call computes its block to start. */
  function BlockStart(current: nat, call: Call): nat {
    if call.paged then RoundUp(current) % WORD_LIMIT else current
  }

  /** One memory access of core c; an idle core starts the call it is given. */
  function Step(h: Heap, s: State, c: nat, next: Call): State
    requires c < |s.cores|
  {
    var at := (p: Pc) => s.(cores := s.cores[c := p]);
    match s.cores[c]
    case Idle => at(Exchange(next))
    case Exchange(call) => at(if s.lock == 0 then CountRead(call) else Spin(call)).(lock := 1)
    case Spin(call) => if s.lock != 0 then s else at(Exchange(call))
    case CountRead(call) => at(CountWrite(call, s.stack))
    case CountWrite(call, stack) => at(Check(call)).(stack := (stack + 1) % 0x1_0000)
    case Check(call) =>
      var cur := BlockStart(s.current, call);
      if (cur + call.size) % WORD_LIMIT < h.end then at(if call.paged then Store(call, cur) else Fetch(call))
      else at(UncountRead(call, 0))
    case Fetch(call) => at(AddRead(call, s.current))
    case AddRead(call, cur) => at(AddWrite(call, cur, s.current))
    case AddWrite(call, cur, loaded) => at(UncountRead(call, cur)).(current := (loaded + call.size) % WORD_LIMIT)
    case Store(call, cur) => at(UncountRead(call, cur)).(current := (cur + call.size) % WORD_LIMIT)
    case UncountRead(call, answer) => at(UncountWrite(call, answer, s.stack))
    case UncountWrite(call, answer, stack) => at(ReleaseTest(call, answer)).(stack := (stack + 0xFFFF) % 0x1_0000)
    case ReleaseTest(call, answer) => at(if s.stack == 0 then Release(call, answer) else Return(call, answer))
    case Release(call, answer) => at(ClearOwner(call, answer)).(lock := 0)
    case ClearOwner(call, answer) => at(Return(call, answer)).(owner := 0)
    case Return(call, answer) =>
      at(Idle).(returned := if answer == 0 then s.returned else s.returned + [Block(answer, call.size, call.paged)])
  }

  /** Which core moves next, and what an idle core asks for. */
  datatype Move = Move(core: nat, next: Call)

  function Start(h: Heap, cores: nat): State {
    State(0, 0, 0, h.start, seq(cores, _ => Idle), [])
  }

  predicate OnCores(cores: nat, moves: seq<Move>) { forall t :: 0 <= t < |moves| ==> moves[t].core < cores }

  function Run(h: Heap, cores: nat, moves: seq<Move>): (s: State)
    requires OnCores(cores, moves)
    ensures |s.cores| == cores
  {
    if moves == [] then Start(h, cores)
    else
      var t := |moves| - 1;
      Step(h, Run(h, cores, moves[..t]), moves[t].core, moves[t].next)
  }

  // ---------------------------------------------------------------- mutual exclusion

  /** Between the winning exchange and the release write. */
  predicate Holds(p: Pc) {
    !p.Idle? && !p.Exchange? && !p.Spin? && !p.ClearOwner? && !p.Return?
  }

  /** The nesting count while the lock is held at p. */
  predicate CountAt(p: Pc, stack: nat) {
    match p
    case CountRead(_) => stack == 0
    case CountWrite(_, t) => stack == 0 && t == 0
    case UncountWrite(_, _, t) => stack == 1 && t == 1
    case ReleaseTest(_, _) => stack == 0
    case Release(_, _) => stack == 0
    case _ => stack == 1
  }

  ghost predicate Exclusive(s: State) {
    && (forall c, d :: 0 <= c < d < |s.cores| ==> !(Holds(s.cores[c]) && Holds(s.cores[d])))
    && (s.lock != 0 <==> exists c :: 0 <= c < |s.cores| && Holds(s.cores[c]))
    && (s.lock == 0 ==> s.stack == 0)
    && (forall c :: 0 <= c < |s.cores| && Holds(s.cores[c]) ==> CountAt(s.cores[c], s.stack))
  }

  lemma StepKeepsExclusive(h: Heap, s: State, c: nat, next: Call)
    requires Exclusive(s) && c < |s.cores|
    ensures Exclusive(Step(h, s, c, next))
  {
    var t := Step(h, s, c, next);
    forall d | 0 <= d < |s.cores| && d != c
      ensures t.cores[d] == s.cores[d]
    {}
    if Holds(t.cores[c]) {
      assert t.lock != 0;
    } else if t.lock != 0 && Holds(s.cores[c]) {
      assert false;
    } else if t.lock != 0 {
      var d :| 0 <= d < |s.cores| && Holds(s.cores[d]);
      assert Holds(t.cores[d]);
    }
  }

  // ---------------------------------------------------------------- the blocks

  /** The block a core has been granted and not yet returned. */
  function Granted(p: Pc): seq<Block> {
    match p
    case UncountRead(call, answer) => BlockOf(call, answer)
    case UncountWrite(call, answer, _) => BlockOf(call, answer)
    case ReleaseTest(call, answer) => BlockOf(call, answer)
    case Release(call, answer) => BlockOf(call, answer)
    case ClearOwner(call, answer) => BlockOf(call, answer)
    case Return(call, answer) => BlockOf(call, answer)
    case _ => []
  }

  function BlockOf(call: Call, answer: nat): seq<Block> {
    if answer == 0 then [] else [Block(answer, call.size, call.paged)]
  }

  predicate Disjoint(a: Block, b: Block) {
    a.address + a.size <= b.address || b.address + b.size <= a.address
  }

  /** Inside the part of the kernel range handed out so far; page aligned when it came from kvalloc. */
  predicate Proper(h: Heap, current: nat, b: Block) {
    h.start <= b.address && b.address + b.size <= current && (b.paged ==> b.address % FRAME_SIZE == 0)
  }

  /** What a core inside the critical section has read is still true there. */
  predicate Fresh(h: Heap, current: nat, p: Pc) {
    match p
    case Fetch(call) => !call.paged && current + call.size < h.end
    case AddRead(call, cur) => !call.paged && cur == current && current + call.size < h.end
    case AddWrite(call, cur, loaded) => !call.paged && cur == loaded == current && current + call.size < h.end
    case Store(call, cur) => call.paged && cur == RoundUp(current) && cur + call.size < h.end
    case _ => true
  }

  ghost predicate HeapOk(h: Heap, s: State) {
    && 0 < h.start <= s.current <= h.end && (s.current == h.start || s.current < h.end)
    && (forall c :: 0 <= c < |s.cores| ==> Fresh(h, s.current, s.cores[c]))
  }

  /** All blocks in sight, returned or granted, lie below the limit and are pairwise disjoint. */
  ghost predicate BlocksBelow(h: Heap, limit: nat, s: State) {
    && (forall i :: 0 <= i < |s.returned| ==> Proper(h, limit, s.returned[i]))
    && (forall c, b :: 0 <= c < |s.cores| && b in Granted(s.cores[c]) ==> Proper(h, limit, b))
    && (forall i, j :: 0 <= i < j < |s.returned| ==> Disjoint(s.returned[i], s.returned[j]))
    && (forall i, c, b :: 0 <= i < |s.returned| && 0 <= c < |s.cores| && b in Granted(s.cores[c]) ==> Disjoint(s.returned[i], b))
    && (forall c, d, a, b :: 0 <= c < |s.cores| && 0 <= d < |s.cores| && c != d && a in Granted(s.cores[c]) && b in Granted(s.cores[d]) ==>
          Disjoint(a, b))
  }

  /** The invariant: nothing reaches above the current address. */
  ghost predicate BlocksOk(h: Heap, s: State) { BlocksBelow(h, s.current, s) }

  /** What callers rely on: one core in the critical section, and blocks that are disjoint, inside the kernel
      range, and page aligned when they come from kvalloc. */
  ghost predicate Sound(h: Heap, s: State) { Exclusive(s) && BlocksBelow(h, h.end, s) }

  /** Core c is about to pass the test although its sum exceeds 64 bits. */
  predicate PassesWrapping(h: Heap, s: State, c: nat)
    requires c < |s.cores|
  {
    var p := s.cores[c];
    p.Check? && Passes(h, s.current, p.call) && Unwrapped(s.current, p.call) >= WORD_LIMIT
  }

  /** The sum of block start and size before it is cut to 64 bits. */
  function Unwrapped(current: nat, call: Call): nat {
    (if call.paged then RoundUp(current) else current) + call.size
  }

  /** The test of kmalloc and kvalloc. */
  predicate Passes(h: Heap, current: nat, call: Call) { NextFree(current, call) < h.end }

  /** The next free address a granted call leaves. */
  function NextFree(current: nat, call: Call): nat { (BlockStart(current, call) + call.size) % WORD_LIMIT }

  lemma RoundUpBounds(a: nat)
    ensures a <= RoundUp(a) < a + FRAME_SIZE && RoundUp(a) % FRAME_SIZE == 0
  {}

  lemma StepKeepsHeap(h: Heap, s: State, c: nat, next: Call)
    requires Exclusive(s) && HeapOk(h, s) && h.end <= WORD_LIMIT && c < |s.cores| && !PassesWrapping(h, s, c)
    ensures HeapOk(h, Step(h, s, c, next))
  {
    hide Step, Fresh, Holds, CountAt;
    StepKeepsMover(h, s, c, next);
    var t := Step(h, s, c, next);
    forall d | 0 <= d < |s.cores| && d != c
      ensures Fresh(h, t.current, t.cores[d])
    {
      assert t.cores[d] == s.cores[d];
      if t.current != s.current { FreshOutside(h, t.current, s.cores[d]); }
    }
  }

  /** Only the holder of the lock changes the current address, and what it has read stays true. */
  lemma StepKeepsMover(h: Heap, s: State, c: nat, next: Call)
    requires HeapOk(h, s) && h.end <= WORD_LIMIT && c < |s.cores| && !PassesWrapping(h, s, c)
    ensures var t := Step(h, s, c, next);
      && t.cores == s.cores[c := t.cores[c]] && Fresh(h, t.current, t.cores[c])
      && (t.current == s.current || (Holds(s.cores[c]) && s.current <= t.current < h.end))
  {
    hide RoundUp, Fresh;
    assert Fresh(h, s.current, s.cores[c]);
    CurrentGrows(h, s, c, next);
    MoverStaysFresh(h, s, c, next);
  }

  lemma CurrentGrows(h: Heap, s: State, c: nat, next: Call)
    requires h.end <= WORD_LIMIT && c < |s.cores| && Fresh(h, s.current, s.cores[c])
    ensures var t := Step(h, s, c, next);
      t.current == s.current || (Holds(s.cores[c]) && s.current <= t.current < h.end)
  {
    hide BlockStart;
    RoundUpBounds(s.current);
  }

  lemma MoverStaysFresh(h: Heap, s: State, c: nat, next: Call)
    requires h.end <= WORD_LIMIT && s.current <= h.end && c < |s.cores| && Fresh(h, s.current, s.cores[c]) && !PassesWrapping(h, s, c)
    ensures var t := Step(h, s, c, next); Fresh(h, t.current, t.cores[c])
  {
    hide RoundUp;
    RoundUpBounds(s.current);
  }

  lemma FreshOutside(h: Heap, current: nat, p: Pc)
    requires !Holds(p)
    ensures Fresh(h, current, p)
  {}

  /** A step grants at most one new block, right above everything handed out before it. */
  lemma StepGrants(h: Heap, s: State, c: nat, next: Call)
    requires HeapOk(h, s) && h.end <= WORD_LIMIT && c < |s.cores|
    ensures var t := Step(h, s, c, next);
      && s.current <= t.current
      && (forall b :: b in Granted(t.cores[c]) ==>
            b in Granted(s.cores[c]) || (s.current <= b.address && Proper(h, t.current, b)))
      && (t.returned == s.returned
          || exists b :: b in Granted(s.cores[c]) && t.returned == s.returned + [b] && Granted(t.cores[c]) == [])
  {
    RoundUpBounds(s.current);
    hide RoundUp;
    assert Fresh(h, s.current, s.cores[c]);
    var p := s.cores[c];
    if p.Return? && p.answer != 0 {
      assert Block(p.answer, p.call.size, p.call.paged) in Granted(p);
    }
  }

  lemma StepKeepsBlocks(h: Heap, s: State, c: nat, next: Call)
    requires HeapOk(h, s) && BlocksOk(h, s) && h.end <= WORD_LIMIT && c < |s.cores|
    ensures BlocksOk(h, Step(h, s, c, next))
  {
    StepGrants(h, s, c, next);
    var t := Step(h, s, c, next);
    assert forall d :: 0 <= d < |s.cores| && d != c ==> t.cores[d] == s.cores[d];
    assert |t.cores| == |s.cores|;
    hide Step, Granted, HeapOk;
    if t.returned != s.returned {
      var b :| b in Granted(s.cores[c]) && t.returned == s.returned + [b] && Granted(t.cores[c]) == [];
      ReturnKeepsBlocks(h, s, t, c, b);
    } else {
      GrantKeepsBlocks(h, s, t, c);
    }
  }

  lemma ProperGrows(h: Heap, low: nat, high: nat, b: Block)
    requires Proper(h, low, b) && low <= high
    ensures Proper(h, high, b)
  {}

  lemma ReturnKeepsBlocks(h: Heap, s: State, t: State, c: nat, b: Block)
    requires BlocksOk(h, s) && c < |s.cores| == |t.cores| && s.current <= t.current
    requires forall d :: 0 <= d < |s.cores| && d != c ==> t.cores[d] == s.cores[d]
    requires b in Granted(s.cores[c]) && t.returned == s.returned + [b] && Granted(t.cores[c]) == []
    ensures BlocksOk(h, t)
  {
    hide Granted, Disjoint;
    forall i | 0 <= i < |t.returned|
      ensures Proper(h, t.current, t.returned[i])
    {
      ProperGrows(h, s.current, t.current, if i < |s.returned| then s.returned[i] else b);
    }
    forall d, a | 0 <= d < |t.cores| && a in Granted(t.cores[d])
      ensures Proper(h, t.current, a)
    {
      assert a in Granted(s.cores[d]);
      ProperGrows(h, s.current, t.current, a);
    }
    DisjointSymmetric();
  }

  lemma DisjointSymmetric()
    ensures forall a, b :: Disjoint(a, b) ==> Disjoint(b, a)
  {}

  lemma GrantKeepsBlocks(h: Heap, s: State, t: State, c: nat)
    requires BlocksOk(h, s) && c < |s.cores| == |t.cores| && s.current <= t.current
    requires forall d :: 0 <= d < |s.cores| && d != c ==> t.cores[d] == s.cores[d]
    requires t.returned == s.returned
    requires forall b :: b in Granted(t.cores[c]) ==>
      b in Granted(s.cores[c]) || (s.current <= b.address && Proper(h, t.current, b))
    ensures BlocksOk(h, t)
  {
    hide Granted;
    forall i | 0 <= i < |t.returned|
      ensures Proper(h, t.current, t.returned[i])
    {
      ProperGrows(h, s.current, t.current, s.returned[i]);
    }
    forall d, a | 0 <= d < |t.cores| && a in Granted(t.cores[d])
      ensures Proper(h, t.current, a) && (a in Granted(s.cores[d]) || (d == c && s.current <= a.address))
    {
      if a in Granted(s.cores[d]) { ProperGrows(h, s.current, t.current, a); }
    }
    forall i, d, a | 0 <= i < |t.returned| && 0 <= d < |t.cores| && a in Granted(t.cores[d])
      ensures Disjoint(t.returned[i], a)
    {
      assert Proper(h, s.current, s.returned[i]);
    }
    forall d, e, a, b | 0 <= d < |s.cores| && 0 <= e < |s.cores| && d != e && a in Granted(t.cores[d]) && b in Granted(t.cores[e])
      ensures Disjoint(a, b)
    {
      assert a in Granted(s.cores[d]) ==> Proper(h, s.current, a);
      assert b in Granted(s.cores[e]) ==> Proper(h, s.current, b);
    }
  }

  /** No core passes the test with a sum beyond 64 bits. */
  ghost predicate NoWrapPasses(h: Heap, cores: nat, moves: seq<Move>)
    requires OnCores(cores, moves)
  {
    forall t :: 0 <= t < |moves| ==> !PassesWrapping(h, Run(h, cores, moves[..t]), moves[t].core)
  }

  /** For any number of cores and any schedule of memory accesses in which no core passes a wrapped test, the
      whole state is as it should be. */
  lemma {:induction false} RunIsSafe(h: Heap, cores: nat, moves: seq<Move>)
    requires 0 < h.start <= h.end <= WORD_LIMIT && OnCores(cores, moves) && NoWrapPasses(h, cores, moves)
    ensures var s := Run(h, cores, moves); Exclusive(s) && HeapOk(h, s) && BlocksOk(h, s) && Sound(h, s)
  {
    hide Step, Exclusive, HeapOk, BlocksOk, Sound, PassesWrapping;
    if moves == [] {
      StartIsSafe(h, cores);
    } else {
      var t := |moves| - 1;
      var before := moves[..t];
      assert forall u :: 0 <= u <= t ==> before[..u] == moves[..u];
      RunIsSafe(h, cores, before);
      var s := Run(h, cores, before);
      StepKeepsExclusive(h, s, moves[t].core, moves[t].next);
      StepKeepsHeap(h, s, moves[t].core, moves[t].next);
      StepKeepsBlocks(h, s, moves[t].core, moves[t].next);
    }
    SafeIsSound(h, Run(h, cores, moves));
  }

  lemma SafeIsSound(h: Heap, s: State)
    requires Exclusive(s) && HeapOk(h, s) && BlocksOk(h, s)
    ensures Sound(h, s)
  {
    hide Granted, Disjoint, Exclusive;
    forall b | Proper(h, s.current, b)
      ensures Proper(h, h.end, b)
    {
      ProperGrows(h, s.current, h.end, b);
    }
  }

  lemma StartIsSafe(h: Heap, cores: nat)
    requires 0 < h.start <= h.end
    ensures var s := Start(h, cores); Exclusive(s) && HeapOk(h, s) && BlocksOk(h, s)
  {}

  // ---------------------------------------------------------------- where the sums wrap

  /** n memory accesses of core c alone; it starts the given call when it is idle. */
  function Solo(h: Heap, s: State, c: nat, call: Call, n: nat): (t: State)
    requires c < |s.cores|
    ensures |t.cores| == |s.cores|
  {
    if n == 0 then s else Step(h, Solo(h, s, c, call, n - 1), c, call)
  }

  lemma {:induction false} SoloFromStep(h: Heap, s: State, c: nat, call: Call, n: nat)
    requires c < |s.cores| && n > 0
    ensures Solo(h, s, c, call, n) == Solo(h, Step(h, s, c, call), c, call, n - 1)
  {
    hide Step;
    if n > 1 { SoloFromStep(h, s, c, call, n - 1); }
  }

  lemma {:induction false} RunThenSolo(h: Heap, moves: seq<Move>, call: Call, n: nat)
    requires OnCores(1, moves)
    ensures Run(h, 1, moves + seq(n, _ => Move(0, call))) == Solo(h, Run(h, 1, moves), 0, call, n)
  {
    hide Step;
    var more := seq(n, _ => Move(0, call));
    if n == 0 {
      assert moves + more == moves;
    } else {
      assert (moves + more)[..|moves| + n - 1] == moves + seq(n - 1, _ => Move(0, call));
      RunThenSolo(h, moves, call, n - 1);
    }
  }

  /** The accesses a holder has left until it writes the release. */
  function Left(p: Pc): nat {
    match p
    case CountRead(_) => 10
    case CountWrite(_, _) => 9
    case Check(_) => 8
    case Fetch(_) => 7
    case AddRead(_, _) => 6
    case AddWrite(_, _, _) => 5
    case Store(_, _) => 5
    case UncountRead(_, _) => 4
    case UncountWrite(_, _, _) => 3
    case ReleaseTest(_, _) => 2
    case Release(_, _) => 1
    case _ => 0
  }

  /** A holder's own access brings it nearer to the release, which frees the lock. */
  lemma HolderAdvances(h: Heap, s: State, c: nat, next: Call)
    requires Exclusive(s) && c < |s.cores| && Holds(s.cores[c])
    ensures var t := Step(h, s, c, next);
      && Left(t.cores[c]) < Left(s.cores[c]) <= 10 && (forall d :: 0 <= d < |s.cores| && d != c ==> t.cores[d] == s.cores[d])
      && if Holds(t.cores[c]) then true else t.lock == 0
  {
    hide RoundUp;
    assert CountAt(s.cores[c], s.stack);
  }

  lemma {:induction false} HolderReleases(h: Heap, s: State, c: nat, next: Call) returns (n: nat)
    requires Exclusive(s) && c < |s.cores| && Holds(s.cores[c])
    ensures n <= Left(s.cores[c]) <= 10 && var t := Solo(h, s, c, next, n);
      Exclusive(t) && t.lock == 0 && forall d :: 0 <= d < |s.cores| && d != c ==> t.cores[d] == s.cores[d]
    decreases Left(s.cores[c])
  {
    hide Exclusive, Step, Holds, Left, Solo;
    var t := Step(h, s, c, next);
    HolderAdvances(h, s, c, next);
    StepKeepsExclusive(h, s, c, next);
    SoloOne(h, s, c, next);
    if Holds(t.cores[c]) {
      n := HolderReleases(h, t, c, next);
      n := n + 1;
      SoloFromStep(h, s, c, next, n);
    } else {
      n := 1;
    }
  }

  lemma SoloOne(h: Heap, s: State, c: nat, call: Call)
    requires c < |s.cores|
    ensures Solo(h, s, c, call, 1) == Step(h, s, c, call) && Solo(h, s, c, call, 0) == s
    ensures Solo(h, s, c, call, 2) == Step(h, Step(h, s, c, call), c, call)
  {
    hide Step;
    SoloFromStep(h, s, c, call, 2);
  }

  /** No deadlock: whenever a core waits for the lock, whoever holds it releases it within ten accesses of its own,
      and then the waiting core takes it within two. */
  lemma WaiterEnters(h: Heap, s: State, c: nat, next: Call) returns (d: nat, n: nat)
    requires Exclusive(s) && c < |s.cores| && (s.cores[c].Exchange? || s.cores[c].Spin?)
    ensures d < |s.cores| && n <= 10 && var t := Solo(h, s, d, next, n);
      Solo(h, t, c, next, if s.cores[c].Spin? then 2 else 1).cores[c] == CountRead(s.cores[c].call)
  {
    hide Solo, Left;
    d, n := c, 0;
    SoloOne(h, s, c, next);
    if s.lock != 0 {
      d :| 0 <= d < |s.cores| && Holds(s.cores[d]);
      n := HolderReleases(h, s, d, next);
    }
    var t := Solo(h, s, d, next, n);
    assert t.lock == 0 && t.cores[c] == s.cores[c];
    hide Exclusive;
    Acquires(h, t, c, next);
  }

  lemma Acquires(h: Heap, t: State, c: nat, next: Call)
    requires t.lock == 0 && c < |t.cores| && (t.cores[c].Exchange? || t.cores[c].Spin?)
    ensures Solo(h, t, c, next, if t.cores[c].Spin? then 2 else 1).cores[c] == CountRead(t.cores[c].call)
  {
    hide Solo;
    SoloOne(h, t, c, next);
  }

  /** The accesses from a passed test to the grant of the block. */
  function Pending(p: Pc): nat {
    match p
    case Fetch(_) => 3
    case AddRead(_, _) => 2
    case AddWrite(_, _, _) => 1
    case Store(_, _) => 1
    case _ => 0
  }

  /** The state once core c has been granted the block it passed the test for. */
  function AfterGrant(h: Heap, s: State, c: nat): (t: State)
    requires c < |s.cores|
    ensures |t.cores| == |s.cores|
  {
    var p := s.cores[c];
    if Pending(p) == 0 then s else Solo(h, s, c, p.call, Pending(p))
  }

  /** Sound now, and sound when a core that passed the test goes on to take its block. */
  ghost predicate SoundAhead(h: Heap, s: State) {
    Sound(h, s) && forall c :: 0 <= c < |s.cores| ==> Sound(h, AfterGrant(h, s, c))
  }

  lemma {:induction false} GrantIsSound(h: Heap, s: State, c: nat, call: Call)
    requires Exclusive(s) && HeapOk(h, s) && BlocksOk(h, s) && h.end <= WORD_LIMIT && c < |s.cores|
    ensures Sound(h, Solo(h, s, c, call, Pending(s.cores[c])))
    decreases Pending(s.cores[c])
  {
    hide Solo, Exclusive, HeapOk, BlocksOk, Sound;
    if Pending(s.cores[c]) == 0 {
      SafeIsSound(h, s);
      SoloNothing(h, s, c, call);
    } else {
      StepKeepsExclusive(h, s, c, call);
      StepKeepsHeap(h, s, c, call);
      StepKeepsBlocks(h, s, c, call);
      SoloFromStep(h, s, c, call, Pending(s.cores[c]));
      GrantIsSound(h, Step(h, s, c, call), c, call);
    }
  }

  lemma SoloNothing(h: Heap, s: State, c: nat, call: Call)
    requires c < |s.cores|
    ensures Solo(h, s, c, call, 0) == s
  {}

  /** A wrapped test that is passed leads to a block that reaches beyond 2^64, so beyond the kernel range. */
  lemma WrapBreaks(h: Heap, s: State, c: nat, next: Call)
    requires HeapOk(h, s) && h.end <= WORD_LIMIT - FRAME_SIZE && c < |s.cores| && PassesWrapping(h, s, c)
    ensures !Sound(h, AfterGrant(h, Step(h, s, c, next), c))
  {
    hide RoundUp, HeapOk, Exclusive, AfterGrant, Granted;
    HeapBounds(h, s);
    RoundUpBounds(s.current);
    var call, t := s.cores[c].call, Step(h, s, c, next);
    var start := BlockStart(s.current, call);
    TakesBlock(h, t, c, call, start);
    BlockTooHigh(h, AfterGrant(h, t, c), c, Block(start, call.size, call.paged));
  }

  /** The accesses from the passed test on grant the block. */
  lemma TakesBlock(h: Heap, t: State, c: nat, call: Call, start: nat)
    requires c < |t.cores| && start != 0
    requires t.cores[c] == if call.paged then Store(call, start) else Fetch(call)
    requires !call.paged ==> start == t.current
    ensures Block(start, call.size, call.paged) in Granted(AfterGrant(h, t, c).cores[c])
  {
    if call.paged {
      SoloFromStep(h, t, c, call, 1);
    } else {
      var u := Step(h, t, c, call);
      var v := Step(h, u, c, call);
      SoloFromStep(h, t, c, call, 3);
      SoloFromStep(h, u, c, call, 2);
      SoloFromStep(h, v, c, call, 1);
    }
  }

  lemma BlockTooHigh(h: Heap, s: State, c: nat, b: Block)
    requires c < |s.cores| && b in Granted(s.cores[c]) && b.address + b.size > h.end
    ensures !Sound(h, s)
  {
    assert !Proper(h, h.end, b);
  }

  lemma HeapBounds(h: Heap, s: State)
    requires HeapOk(h, s)
    ensures 0 < h.start <= s.current <= h.end
  {}

  /** Exactly when no core passes a wrapped test, every state of the run is sound and stays sound through the
      block that is about to be granted: any number of cores, any schedule, any sizes. */
  lemma RunSoundIffNoWrapPasses(h: Heap, cores: nat, moves: seq<Move>)
    requires 0 < h.start <= h.end <= WORD_LIMIT - FRAME_SIZE && OnCores(cores, moves)
    ensures (forall t :: 0 <= t <= |moves| ==> SoundAhead(h, Run(h, cores, moves[..t]))) <==> NoWrapPasses(h, cores, moves)
  {
    hide SoundAhead, Run, PassesWrapping;
    if NoWrapPasses(h, cores, moves) {
      forall t | 0 <= t <= |moves|
        ensures SoundAhead(h, Run(h, cores, moves[..t]))
      {
        assert forall u :: 0 <= u <= t ==> moves[..t][..u] == moves[..u];
        NoWrapSoundAhead(h, cores, moves[..t]);
      }
    }
    if forall t :: 0 <= t <= |moves| ==> SoundAhead(h, Run(h, cores, moves[..t])) {
      SoundAheadNoWrap(h, cores, moves);
    }
  }

  lemma LastStep(h: Heap, cores: nat, moves: seq<Move>)
    requires OnCores(cores, moves) && moves != []
    ensures var n := |moves| - 1; Run(h, cores, moves) == Step(h, Run(h, cores, moves[..n]), moves[n].core, moves[n].next)
  {
    hide Step;
  }

  lemma NoWrapSoundAhead(h: Heap, cores: nat, moves: seq<Move>)
    requires 0 < h.start <= h.end <= WORD_LIMIT && OnCores(cores, moves) && NoWrapPasses(h, cores, moves)
    ensures SoundAhead(h, Run(h, cores, moves))
  {
    hide Run, NoWrapPasses, Exclusive, HeapOk, BlocksOk, Sound, Solo;
    RunIsSafe(h, cores, moves);
    var s := Run(h, cores, moves);
    forall c | 0 <= c < |s.cores|
      ensures Sound(h, AfterGrant(h, s, c))
    {
      if Pending(s.cores[c]) > 0 { GrantIsSound(h, s, c, s.cores[c].call); }
    }
  }

  lemma {:induction false} SoundAheadNoWrap(h: Heap, cores: nat, moves: seq<Move>)
    requires 0 < h.start <= h.end <= WORD_LIMIT - FRAME_SIZE && OnCores(cores, moves)
    requires forall t :: 0 <= t <= |moves| ==> SoundAhead(h, Run(h, cores, moves[..t]))
    ensures NoWrapPasses(h, cores, moves)
  {
    hide Sound, AfterGrant, Step, PassesWrapping, HeapOk, BlocksOk, Exclusive, Run;
    if moves != [] {
      var n := |moves| - 1;
      var before := moves[..n];
      LastStep(h, cores, moves);
      assert forall u :: 0 <= u <= n ==> before[..u] == moves[..u];
      SoundAheadNoWrap(h, cores, before);
      RunIsSafe(h, cores, before);
      var s, m := Run(h, cores, before), moves[n];
      assert moves[..n + 1] == moves;
      assert Sound(h, AfterGrant(h, Step(h, s, m.core, m.next), m.core));
      if PassesWrapping(h, s, m.core) { WrapBreaks(h, s, m.core, m.next); }
    }
  }

  /** The accesses of a call that nobody disturbs. */
  function Accesses(h: Heap, current: nat, call: Call): nat {
    if !Passes(h, current, call) then 11 else if call.paged then 12 else 14
  }

  /** An idle machine with one core. */
  predicate Alone(s: State) { s.lock == 0 && s.stack == 0 && s.owner == 0 && s.cores == [Idle] }

  /** A call that nobody disturbs advances the current address by its size, modulo 2^64, and returns the block
      below it, or leaves everything as it was and returns nothing. */
  lemma CallAlone(h: Heap, s: State, call: Call)
    requires Alone(s)
    ensures Solo(h, s, 0, call, Accesses(h, s.current, call))
         == if Passes(h, s.current, call)
            then s.(current := NextFree(s.current, call), returned := s.returned + BlockOf(call, BlockStart(s.current, call)))
            else s
  {
    hide Step, Solo, BlockStart, BlockOf, Passes, NextFree;
    NoBlock(call);
    var start := BlockStart(s.current, call);
    var s5 := SoloFive(h, s, call);
    if !Passes(h, s.current, call) {
      SoloEnd(h, s, call, 5, s5, 0);
    } else if call.paged {
      var s6 := SoloStore(h, s, call, s5);
      SoloEnd(h, s, call, 6, s6, start);
    } else {
      PlainStart(s.current, call);
      var s8 := SoloAdd(h, s, call, s5);
      SoloEnd(h, s, call, 8, s8, start);
    }
  }

  lemma PlainStart(current: nat, call: Call)
    requires !call.paged
    ensures BlockStart(current, call) == current
  {}

  lemma NoBlock(call: Call)
    ensures BlockOf(call, 0) == []
  {}

  /** After the test: on the way out without a block, or about to take one. */
  lemma SoloFive(h: Heap, s: State, call: Call) returns (t: State)
    requires Alone(s)
    ensures t == Solo(h, s, 0, call, 5)
         == s.(lock := 1, stack := 1, cores := [if !Passes(h, s.current, call) then UncountRead(call, 0)
                                                else if call.paged then Store(call, BlockStart(s.current, call)) else Fetch(call)])
  {
    hide BlockStart;
    var s3 := SoloThree(h, s, call);
    var s4 := Step(h, s3, 0, call);
    t := Step(h, s4, 0, call);
    assert Solo(h, s, 0, call, 4) == s4;
  }

  lemma SoloStore(h: Heap, s: State, call: Call, before: State) returns (t: State)
    requires |s.cores| == 1 && before == Solo(h, s, 0, call, 5) && call.paged
    requires before.cores == [Store(call, BlockStart(s.current, call))]
    ensures t == Solo(h, s, 0, call, 6)
         == before.(current := NextFree(s.current, call), cores := [UncountRead(call, BlockStart(s.current, call))])
  {
    hide BlockStart;
    t := Step(h, before, 0, call);
  }

  lemma SoloNext(h: Heap, s: State, c: nat, call: Call, n: nat)
    requires c < |s.cores|
    ensures Solo(h, s, c, call, n + 1) == Step(h, Solo(h, s, c, call, n), c, call)
  {
    hide Step;
  }

  lemma SoloAdd(h: Heap, s: State, call: Call, before: State) returns (t: State)
    requires |s.cores| == 1 && before == Solo(h, s, 0, call, 5) && before.cores == [Fetch(call)] && !call.paged
    ensures t == Solo(h, s, 0, call, 8)
         == before.(current := NextFree(before.current, call), cores := [UncountRead(call, before.current)])
  {
    hide Solo, RoundUp;
    SoloNext(h, s, 0, call, 5);
    SoloNext(h, s, 0, call, 6);
    SoloNext(h, s, 0, call, 7);
    t := Solo(h, s, 0, call, 8);
  }

  lemma SoloThree(h: Heap, s: State, call: Call) returns (t: State)
    requires Alone(s)
    ensures t == Solo(h, s, 0, call, 3) == s.(lock := 1, cores := [CountWrite(call, 0)])
  {
    var s1 := Step(h, s, 0, call);
    var s2 := Step(h, s1, 0, call);
    t := Step(h, s2, 0, call);
    assert Solo(h, s, 0, call, 1) == s1 && Solo(h, s, 0, call, 2) == s2;
  }

  /** The way out: the count goes back to 0, the lock is released, the answer returned. */
  lemma SoloEnd(h: Heap, s: State, call: Call, n: nat, t: State, answer: nat)
    requires |s.cores| == 1 && t == Solo(h, s, 0, call, n)
    requires t.lock == 1 && t.stack == 1 && t.owner == 0 && t.cores == [UncountRead(call, answer)]
    ensures Solo(h, s, 0, call, n + 6) == t.(lock := 0, stack := 0, cores := [Idle], returned := t.returned + BlockOf(call, answer))
  {
    hide Solo, RoundUp;
    SoloNext(h, s, 0, call, n);
    SoloNext(h, s, 0, call, n + 1);
    SoloNext(h, s, 0, call, n + 2);
    SoloNext(h, s, 0, call, n + 3);
    SoloNext(h, s, 0, call, n + 4);
    SoloNext(h, s, 0, call, n + 5);
  }

  // ---------------------------------------------------------------- which sizes are safe

  predicate Sizes(moves: seq<Move>, most: nat) { forall t :: 0 <= t < |moves| ==> moves[t].next.size <= most }

  predicate SizeAtMost(p: Pc, most: nat) { p.Idle? || p.call.size <= most }

  lemma {:induction false} RunSizes(h: Heap, cores: nat, moves: seq<Move>, most: nat)
    requires OnCores(cores, moves) && Sizes(moves, most)
    ensures forall c :: 0 <= c < cores ==> SizeAtMost(Run(h, cores, moves).cores[c], most)
  {
    if moves != [] { RunSizes(h, cores, moves[..|moves| - 1], most); }
  }

  lemma RoundUpMonotone(a: nat, b: nat)
    requires a <= b
    ensures RoundUp(a) <= RoundUp(b)
  {
    RoundUpBounds(a);
    RoundUpBounds(b);
  }

  /** An undisturbed call whose sum does not wrap is granted exactly when its block ends below the end of the range:
      kmalloc's at the current address, kvalloc's at the first page boundary from there on. */
  lemma GrantedIffRoom(h: Heap, s: State, call: Call, a: nat)
    requires Alone(s) && 0 < a && a + call.size < 0x1_0000_0000_0000_0000
    requires if call.paged then a % 0x1000 == 0 && s.current <= a < s.current + 0x1000 else a == s.current
    ensures Solo(h, s, 0, call, Accesses(h, s.current, call))
         == if a + call.size < h.end
            then s.(current := a + call.size, returned := s.returned + [Block(a, call.size, call.paged)])
            else s
  {
    hide Solo, Alone, Accesses;
    CallAlone(h, s, call);
    if call.paged { RoundUpIs(s.current, a); }
  }

  lemma RoundUpIs(current: nat, a: nat)
    requires a % FRAME_SIZE == 0 && current <= a < current + FRAME_SIZE
    ensures RoundUp(current) == a
  {
    var q := a / FRAME_SIZE;
    if current < a { DivUnique(current, FRAME_SIZE, q - 1, current - (q - 1) * FRAME_SIZE); }
  }

  /** The largest page-aligned address a call can start from, plus its size, must fit 64 bits. */
  predicate SizesFit(h: Heap, most: nat)
    requires h.end > 0
  {
    RoundUp(h.end - 1) + most < WORD_LIMIT
  }

  lemma {:induction false} SmallSizesNeverWrap(h: Heap, cores: nat, moves: seq<Move>, most: nat)
    requires 0 < h.start < h.end <= WORD_LIMIT && OnCores(cores, moves) && Sizes(moves, most) && SizesFit(h, most)
    ensures NoWrapPasses(h, cores, moves)
  {
    hide Step, Run, Exclusive, HeapOk, BlocksOk, Sound, SizesFit, PassesWrapping, SizeAtMost;
    if moves != [] {
      var n := |moves| - 1;
      var before := moves[..n];
      assert forall u :: 0 <= u <= n ==> before[..u] == moves[..u];
      SmallSizesNeverWrap(h, cores, before, most);
      RunIsSafe(h, cores, before);
      RunSizes(h, cores, before, most);
      SmallSizePasses(h, Run(h, cores, before), moves[n].core, most);
    }
  }

  lemma SmallSizePasses(h: Heap, s: State, c: nat, most: nat)
    requires 0 < h.start < h.end && HeapOk(h, s) && SizesFit(h, most) && c < |s.cores| && SizeAtMost(s.cores[c], most)
    ensures !PassesWrapping(h, s, c)
  {
    hide RoundUp;
    RoundUpBounds(s.current);
    RoundUpMonotone(s.current, h.end - 1);
  }

  /** One core alone can bring the current address to any place below the end. */
  lemma {:induction false} Reach(h: Heap, n: nat) returns (moves: seq<Move>)
    requires 0 < h.start && h.start + n < h.end <= WORD_LIMIT
    ensures OnCores(1, moves) && Sizes(moves, 1)
    ensures var s := Run(h, 1, moves); Alone(s) && s.current == h.start + n
  {
    hide Step, Solo, RoundUp;
    if n == 0 {
      moves := [];
    } else {
      var before := Reach(h, n - 1);
      moves := AppendKmalloc(h, before, 1);
    }
  }

  /** From the last address below the end, kvalloc of what is left of the 64 bits passes its test. */
  lemma LastCallBreaks(h: Heap) returns (moves: seq<Move>)
    requires 0 < h.start < h.end <= WORD_LIMIT - FRAME_SIZE
    ensures OnCores(1, moves) && Sizes(moves, WORD_LIMIT - RoundUp(h.end - 1))
    ensures !Sound(h, Run(h, 1, moves))
  {
    hide Step, Solo, RoundUp, Sound;
    RoundUpBounds(h.end - 1);
    var before := Reach(h, h.end - 1 - h.start);
    var s := Run(h, 1, before);
    var start := RoundUp(h.end - 1);
    var call := Call(WORD_LIMIT - start, true);
    CallAlone(h, s, call);
    RunThenSolo(h, before, call, 12);
    moves := before + seq(12, _ => Move(0, call));
    ReturnedTooHigh(h, Run(h, 1, moves), Block(start, call.size, true));
  }

  lemma ReturnedTooHigh(h: Heap, s: State, b: Block)
    requires s.returned != [] && s.returned[|s.returned| - 1] == b && b.address + b.size > h.end
    ensures !Sound(h, s)
  {
    assert !Proper(h, h.end, b);
  }

  /** Calls of up to `most` bytes are safe on any number of cores in any order if and only if the sum of the
      last page-aligned start and `most` fits 64 bits. */
  lemma SizesSafeIffFit(h: Heap, most: nat)
    requires 0 < h.start < h.end <= WORD_LIMIT - FRAME_SIZE
    ensures (forall cores: nat, moves: seq<Move> :: OnCores(cores, moves) && Sizes(moves, most) ==> Sound(h, Run(h, cores, moves)))
        <==> SizesFit(h, most)
  {
    hide Run, Sound, RoundUp;
    if SizesFit(h, most) {
      forall cores: nat, moves: seq<Move> | OnCores(cores, moves) && Sizes(moves, most)
        ensures Sound(h, Run(h, cores, moves))
      {
        SmallSizesNeverWrap(h, cores, moves, most);
        RunIsSafe(h, cores, moves);
      }
    } else {
      var moves := LastCallBreaks(h);
    }
  }

  /** One more undisturbed kmalloc at the end of a run. */
  lemma AppendKmalloc(h: Heap, moves: seq<Move>, size: nat) returns (more: seq<Move>)
    requires OnCores(1, moves) && Alone(Run(h, 1, moves))
    requires var cur := Run(h, 1, moves).current; 0 < cur && (cur + size) % WORD_LIMIT < h.end
    ensures OnCores(1, more) && forall most :: Sizes(moves, most) && size <= most ==> Sizes(more, most)
    ensures var s := Run(h, 1, moves);
      Run(h, 1, more) == s.(current := (s.current + size) % WORD_LIMIT, returned := s.returned + [Block(s.current, size, false)])
  {
    hide Step, Solo, Run, RoundUp;
    var call := Call(size, false);
    CallAlone(h, Run(h, 1, moves), call);
    RunThenSolo(h, moves, call, 14);
    more := moves + seq(14, _ => Move(0, call));
  }

  /** With a wrapping size one core alone is given two blocks that overlap. */
  lemma WrappingSizeOverlaps()
    ensures var h := Heap(0x2000, 0x9000);
      exists moves: seq<Move> :: OnCores(1, moves) && var s := Run(h, 1, moves);
        |s.returned| == 2 && !Disjoint(s.returned[0], s.returned[1])
  {
    hide Run, Step;
    var h := Heap(0x2000, 0x9000);
    RunOfNothing(h);
    var first := AppendKmalloc(h, [], WORD_LIMIT - 0x10);
    var second := AppendKmalloc(h, first, 0x20);
  }

  lemma RunOfNothing(h: Heap)
    ensures Run(h, 1, []) == Start(h, 1)
  {}
}
