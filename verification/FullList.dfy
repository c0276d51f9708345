/** When `insert_list` of kernel/kheap.c finds its array full: exactly which layouts and array
    lengths allow it. */
module FullList {
  import opened HeapChain
  import opened HeapRuns
  import opened HeapLists
  import opened CrowdedHeap

  /** A step with few FREE blocks before, after and in between is a step with a complete list. */
  lemma LiftStep(l: Layout, slots: nat, s: State, op: Op, t: State)
    requires Inv(s, l) && Follows(l, s, op, t) && slots >= 1 && Sparse(s, op, slots - 1)
    requires |FreeAddrs(t.chain)| < slots
    ensures ListedFollows(l, slots, Whole(s), op, Whole(t))
  {
    PermittedAgree(s, l.lo, ChainEnd(s.chain), op);
    match op
    case Kmalloc(size, stale) => LiftKmalloc(l, slots, s, size, stale, t);
    case Kfree(ptr) => if ptr != 0 { LiftKfree(l, slots, s, ptr); }
  }

  lemma LiftKmalloc(l: Layout, slots: nat, s: State, size: nat, stale: bool, t: State)
    requires Inv(s, l) && slots >= 1 && Sparse(s, Kmalloc(size, stale), slots - 1)
    requires KmallocStep(s, l, size, stale).Done? && KmallocStep(s, l, size, stale).state == t
    ensures var r := KmallocListed(Whole(s), l, slots, size, stale); r.Ok? && r.heap == Whole(t)
  {
    KmallocCompletes(Whole(s), l, slots, size, stale);
  }

  lemma LiftKfree(l: Layout, slots: nat, s: State, ptr: int)
    requires Inv(s, l) && |FreeAddrs(s.chain)| < slots && ptr != 0 && IndexOf(s.chain, ptr - HEADER_SIZE) >= 0
    requires |FreeAddrs(KfreeStep(s, ptr).chain)| < slots
    ensures KfreeListed(Whole(s), slots, ptr) == Whole(KfreeStep(s, ptr))
  {
    KfreeCompletes(Whole(s), l, slots, ptr);
  }

  /** The same for the kfree that goes too far: the run continues, the list is not complete. */
  lemma LiftLast(l: Layout, slots: nat, s: State, ptr: int, t: State) returns (r: Heap)
    requires Inv(s, l) && Follows(l, s, Kfree(ptr), t) && ptr != 0 && |FreeAddrs(s.chain)| < slots
    requires |FreeAddrs(t.chain)| >= slots
    ensures ListedFollows(l, slots, Whole(s), Kfree(ptr), r) && !Complete(r)
  {
    r := KfreeListed(Whole(s), slots, ptr);
    KfreeCompletes(Whole(s), l, slots, ptr);
  }

  ghost predicate Incomplete(l: Layout, slots: nat, heaps: seq<Heap>, ops: seq<Op>) {
    IsListedRun(l, slots, heaps, ops) && !Complete(heaps[|ops|])
  }

  /** Where the bytes allow it, a run drops a FREE block from the list. */
  lemma FullRun(l: Layout, slots: nat) returns (heaps: seq<Heap>, ops: seq<Op>)
    requires ValidLayout(l) && 32 * slots <= MaxBytes(l)
    ensures Incomplete(l, slots, heaps, ops)
  {
    InitSound(l, slots);
    if slots <= 1 {
      heaps, ops := [InitListed(l, slots)], [];
    } else {
      var states;
      states, ops := CrowdRun(l, slots - 1);
      heaps := LiftRun(l, slots, states, ops);
    }
  }

  ghost function Wholes(states: seq<State>): (heaps: seq<Heap>)
    ensures |heaps| == |states| && forall i :: 0 <= i < |states| ==> heaps[i] == Whole(states[i])
  {
    if states == [] then [] else Wholes(states[..|states| - 1]) + [Whole(states[|states| - 1])]
  }

  lemma LiftRun(l: Layout, slots: nat, states: seq<State>, ops: seq<Op>) returns (heaps: seq<Heap>)
    requires IsRun(l, states, ops) && slots >= 2 && SparseSteps(l, states, ops, slots - 1)
    requires |ops| > 0 && ops[|ops| - 1].Kfree? && ops[|ops| - 1].ptr != 0
    requires |FreeAddrs(states[|ops|].chain)| == slots
    ensures Incomplete(l, slots, heaps, ops)
  {
    var n := |ops| - 1;
    var hs := Wholes(states[..n + 1]);
    assert hs[n] == Whole(states[n]) && ops == ops[..n] + [ops[n]];
    LiftPrefix(l, slots, states, ops, n);
    var last := LiftEnd(l, slots, states, ops);
    ExtendBy(l, slots, hs, ops[..n], Whole(states[n]), ops[n], last);
    heaps := hs + [last];
  }

  lemma {:induction false} LiftPrefix(l: Layout, slots: nat, states: seq<State>, ops: seq<Op>, n: nat)
    requires IsRun(l, states, ops) && slots >= 2 && SparseSteps(l, states, ops, slots - 1) && n < |ops|
    ensures IsListedRun(l, slots, Wholes(states[..n + 1]), ops[..n])
  {
    if n == 0 {
      InitLifted(l, slots);
    } else {
      var hs := Wholes(states[..n]);
      assert hs[n - 1] == Whole(states[n - 1]);
      assert Wholes(states[..n + 1]) == hs + [Whole(states[n])];
      assert ops[..n] == ops[..n - 1] + [ops[n - 1]];
      LiftPrefix(l, slots, states, ops, n - 1);
      LiftAt(l, slots, states, ops, n - 1);
      ExtendBy(l, slots, hs, ops[..n - 1], Whole(states[n - 1]), ops[n - 1], Whole(states[n]));
    }
  }

  lemma InitLifted(l: Layout, slots: nat)
    requires ValidLayout(l) && slots >= 2
    ensures Whole(Init(l)) == InitListed(l, slots)
  {
    InitSound(l, slots);
  }

  lemma LiftEnd(l: Layout, slots: nat, states: seq<State>, ops: seq<Op>) returns (last: Heap)
    requires IsRun(l, states, ops) && slots >= 2 && SparseSteps(l, states, ops, slots - 1)
    requires |ops| > 0 && ops[|ops| - 1].Kfree? && ops[|ops| - 1].ptr != 0
    requires |FreeAddrs(states[|ops|].chain)| == slots
    ensures ListedFollows(l, slots, Whole(states[|ops| - 1]), ops[|ops| - 1], last) && !Complete(last)
  {
    var n := |ops| - 1;
    RunInv(l, states, ops, n);
    assert StepAt(l, states, ops, n) && SparseAt(states, ops, slots - 1, n);
    last := LiftLast(l, slots, states[n], ops[n].ptr, states[n + 1]);
  }

  lemma LiftAt(l: Layout, slots: nat, states: seq<State>, ops: seq<Op>, i: nat)
    requires IsRun(l, states, ops) && slots >= 2 && SparseSteps(l, states, ops, slots - 1) && i + 1 < |ops|
    ensures ListedFollows(l, slots, Whole(states[i]), ops[i], Whole(states[i + 1]))
  {
    RunInv(l, states, ops, i);
    assert StepAt(l, states, ops, i) && SparseAt(states, ops, slots - 1, i);
    assert SparseAt(states, ops, slots - 1, i + 1);
    LiftStep(l, slots, states[i], ops[i], states[i + 1]);
  }

  /** One step from a complete list to an incomplete one needs as many FREE blocks as slots. */
  lemma DropNeedsBlocks(l: Layout, slots: nat, h: Heap, op: Op, r: Heap)
    requires Sound(h, l, slots) && Complete(h) && ListedFollows(l, slots, h, op, r) && !Complete(r)
    ensures |FreeAddrs(r.s.chain)| >= slots
  {
    match op
    case Kmalloc(size, stale) => KmallocCompletes(h, l, slots, size, stale);
    case Kfree(ptr) => KfreeCompletes(h, l, slots, ptr);
  }

  lemma {:induction false} FirstDrop(l: Layout, slots: nat, heaps: seq<Heap>, ops: seq<Op>, k: nat) returns (m: nat)
    requires IsListedRun(l, slots, heaps, ops) && k <= |ops| && !Complete(heaps[k])
    ensures m <= k && |FreeAddrs(heaps[m].s.chain)| >= slots
  {
    if k == 0 {
      InitSound(l, slots);
      m := 0;
    } else if !Complete(heaps[k - 1]) {
      m := FirstDrop(l, slots, heaps, ops, k - 1);
    } else {
      ListedRunSound(l, slots, heaps, ops, k - 1);
      assert ListedStepAt(l, slots, heaps, ops, k - 1);
      DropNeedsBlocks(l, slots, heaps[k - 1], ops[k - 1], heaps[k]);
      m := k;
    }
  }

  lemma IncompleteNeedsBytes(l: Layout, slots: nat, heaps: seq<Heap>, ops: seq<Op>, k: nat)
    requires IsListedRun(l, slots, heaps, ops) && k <= |ops| && !Complete(heaps[k])
    ensures 32 * slots <= MaxBytes(l)
  {
    var m := FirstDrop(l, slots, heaps, ops, k);
    ListedRunSound(l, slots, heaps, ops, m);
    BlocksNeedBytes(l, slots, heaps[m].s);
  }

  lemma BlocksNeedBytes(l: Layout, slots: nat, s: State)
    requires Inv(s, l) && |FreeAddrs(s.chain)| >= slots
    ensures 32 * slots <= MaxBytes(l)
  {
    FreeBlocksBound(s, l);
    BytesBound(s, l);
  }

  /** Some run loses a FREE block from the list exactly when the array has no more slots than the
      heap has room for FREE blocks, 32 bytes each. */
  lemma FullListExactly(l: Layout, slots: nat)
    requires ValidLayout(l)
    ensures (exists heaps, ops :: Incomplete(l, slots, heaps, ops)) <==> 32 * slots <= MaxBytes(l)
  {
    if 32 * slots <= MaxBytes(l) {
      var heaps, ops := FullRun(l, slots);
      assert Incomplete(l, slots, heaps, ops);
    }
    forall heaps, ops ensures Incomplete(l, slots, heaps, ops) ==> 32 * slots <= MaxBytes(l) {
      if Incomplete(l, slots, heaps, ops) { IncompleteNeedsBytes(l, slots, heaps, ops, |ops|); }
    }
  }

  /** In the kernel's own layout, 102400 bytes of heap and at most 2048 slots, it happens. */
  lemma KernelListFills(lo: int, slots: nat) returns (heaps: seq<Heap>, ops: seq<Op>)
    requires ValidLayout(Layout(lo, lo + 102400)) && slots <= 2048
    ensures Incomplete(Layout(lo, lo + 102400), slots, heaps, ops)
  {
    heaps, ops := FullRun(Layout(lo, lo + 102400), slots);
  }

  /** With more slots than that the list is complete in every run, and the run is one of
      HeapRuns. */
  lemma NeverFull(l: Layout, slots: nat, heaps: seq<Heap>, ops: seq<Op>, k: nat)
    requires IsListedRun(l, slots, heaps, ops) && 32 * slots > MaxBytes(l) && k < |ops|
    ensures Complete(heaps[k]) && Complete(heaps[k + 1]) && Follows(l, heaps[k].s, ops[k], heaps[k + 1].s)
  {
    if !Complete(heaps[k]) { IncompleteNeedsBytes(l, slots, heaps, ops, k); }
    if !Complete(heaps[k + 1]) { IncompleteNeedsBytes(l, slots, heaps, ops, k + 1); }
    ListedRunSound(l, slots, heaps, ops, k);
    assert ListedStepAt(l, slots, heaps, ops, k);
    LowerStep(l, slots, heaps[k], ops[k], heaps[k + 1]);
  }

  lemma LowerStep(l: Layout, slots: nat, h: Heap, op: Op, r: Heap)
    requires Sound(h, l, slots) && Complete(h) && ListedFollows(l, slots, h, op, r)
    ensures Follows(l, h.s, op, r.s)
  {
    assert h == Whole(h.s);
    PermittedAgree(h.s, l.lo, ChainEnd(h.s.chain), op);
    if op.Kmalloc? { LowerKmalloc(l, slots, h, op.size, op.stale); }
  }

  lemma LowerKmalloc(l: Layout, slots: nat, h: Heap, size: nat, stale: bool)
    requires Sound(h, l, slots) && Complete(h) && KmallocListed(h, l, slots, size, stale).Ok?
    ensures var r, t := KmallocListed(h, l, slots, size, stale), KmallocStep(h.s, l, size, stale);
            t.Done? && t.state == r.heap.s
  {
    KmallocCompletes(h, l, slots, size, stale);
  }
}
