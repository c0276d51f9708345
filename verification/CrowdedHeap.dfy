/** Runs of kernel/kheap.c that pack as many FREE blocks into the heap as fit: grow it to its full
    size, cut it up by requests for zero bytes, and free every other one. */
module CrowdedHeap {
  import opened HeapChain
  import opened HeapRuns
  import opened HeapLists

  /** One FREE block over `bytes` bytes of heap, from where the row of cells starts. */
  datatype Site = Site(lo: int, bytes: int, top: int, endPtr: int)

  /** The i-th of the empty blocks, when the first `j` of even index are freed. */
  function Cell(lo: int, j: nat, i: nat): Block {
    Block(lo + 16 * i, 0, !(i % 2 == 0 && i < 2 * j))
  }

  function Rest(t: Site, k: nat): Block {
    Block(t.lo + 16 * k, t.bytes - 16 * (k + 1), false)
  }

  ghost function Row(t: Site, k: nat, j: nat): (c: Chain)
    ensures |c| == k + 1 && c[k] == Rest(t, k)
    ensures forall i :: 0 <= i < k ==> c[i] == Cell(t.lo, j, i)
  {
    seq(k + 1, i requires 0 <= i < k + 1 => if i < k then Cell(t.lo, j, i) else Rest(t, k))
  }

  ghost function RowState(t: Site, k: nat, j: nat): State {
    State(Row(t, k, j), t.top, if k == 0 then t.endPtr else t.lo + 16 * k)
  }

  /** One more request for zero bytes. */
  lemma RowMalloc(l: Layout, t: Site, k: nat)
    requires 16 * (k + 2) < t.bytes
    ensures Follows(l, RowState(t, k, 0), Kmalloc(0, false), RowState(t, k + 1, 0))
  {
    var c := Row(t, k, 0);
    assert BestFit(c, 0) == k by {
      assert Fits(c[k], 0);
    }
    assert SplitParts(c[k], 0) == [Cell(t.lo, 0, k), Rest(t, k + 1)];
    assert Split(c, k, 0) == Row(t, k + 1, 0);
  }

  /** One more block freed: both its neighbours are USED. */
  lemma RowFree(l: Layout, t: Site, k: nat, j: nat)
    requires 2 * j + 1 < k && t.lo > 0
    ensures Follows(l, RowState(t, k, j), Kfree(t.lo + 32 * j + 16), RowState(t, k, j + 1))
  {
    RowIndex(t, k, j);
    RowRelease(t, k, j);
  }

  lemma RowRelease(t: Site, k: nat, j: nat)
    requires 2 * j + 1 < k
    ensures Release(Row(t, k, j), 2 * j) == Row(t, k, j + 1)
  {
    var c, c' := Row(t, k, j), Row(t, k, j + 1);
    assert c[2 * j + 1].used && (j > 0 ==> c[2 * j - 1].used);
    assert Fused(c, 2 * j) == c'[2 * j];
    assert forall i :: 0 <= i < k && i != 2 * j ==> Cell(t.lo, j, i) == Cell(t.lo, j + 1, i);
    assert c[..2 * j] == c'[..2 * j];
    assert c[2 * j + 1..] == c'[2 * j + 1..];
    assert c' == c'[..2 * j] + [c'[2 * j]] + c'[2 * j + 1..];
  }

  lemma RowIndex(t: Site, k: nat, j: nat)
    requires 2 * j < k
    ensures IndexOf(Row(t, k, j), t.lo + 32 * j) == 2 * j
  {
    var c := Row(t, k, j);
    assert c[2 * j].addr == t.lo + 32 * j;
  }

  lemma RowFreeAddr(t: Site, k: nat, j: nat, x: int)
    requires 2 * j <= k
    ensures x in FreeAddrs(Row(t, k, j)) <==> x == t.lo + 16 * k || exists i: nat :: i < j && x == t.lo + 32 * i
  {
    var c := Row(t, k, j);
    if x in FreeAddrs(c) {
      var b :| b in c && !b.used && b.addr == x;
      var i :| 0 <= i < |c| && c[i] == b;
      if i < k { assert i / 2 < j && x == t.lo + 32 * (i / 2); }
    }
    if x == t.lo + 16 * k { assert c[k] in c; }
    if i: nat :| i < j && x == t.lo + 32 * i { assert c[2 * i] in c && c[2 * i].addr == x; }
  }

  lemma RowFreeAddrs(t: Site, k: nat, j: nat)
    requires 2 * j + 2 <= k
    ensures |FreeAddrs(Row(t, k, j + 1))| == |FreeAddrs(Row(t, k, j))| + 1
  {
    var c, c' := Row(t, k, j), Row(t, k, j + 1);
    var a := t.lo + 32 * j;
    forall x ensures x in FreeAddrs(c') <==> x in FreeAddrs(c) || x == a {
      RowFreeAddr(t, k, j, x);
      RowFreeAddr(t, k, j + 1, x);
    }
    assert FreeAddrs(c') == FreeAddrs(c) + {a};
    RowFreeAddr(t, k, j, a);
  }

  lemma {:induction false} RowFreeCount(t: Site, k: nat, j: nat)
    requires 2 * j <= k
    ensures |FreeAddrs(Row(t, k, j))| == j + 1
  {
    if j == 0 {
      var c := Row(t, k, 0);
      forall x ensures x in FreeAddrs(c) <==> x == t.lo + 16 * k { RowFreeAddr(t, k, 0, x); }
      assert FreeAddrs(c) == {t.lo + 16 * k};
    } else {
      RowFreeCount(t, k, j - 1);
      RowFreeAddrs(t, k, j - 1);
    }
  }

  // ---------------------------------------------------------------- growing the heap first

  /** The most bytes that the chain can ever cover. */
  function MaxBytes(l: Layout): int {
    if l.limit - l.lo > 2 * EXPAND_SIZE then MaxTop(l) + HEADER_SIZE else EXPAND_SIZE
  }

  function MaxTop(l: Layout): int {
    (l.limit - l.lo - 1) / EXPAND_SIZE * EXPAND_SIZE
  }

  lemma BytesBound(s: State, l: Layout)
    requires Inv(s, l)
    ensures ChainEnd(s.chain) - l.lo <= MaxBytes(l)
  {
    var t, d := s.top - l.lo, l.limit - l.lo;
    if s.top > l.lo + EXPAND_SIZE {
      assert t / EXPAND_SIZE <= (d - 1) / EXPAND_SIZE;
      assert t == t / EXPAND_SIZE * EXPAND_SIZE;
    }
  }

  /** The step has few FREE blocks about it, also in the middle. */
  ghost predicate Sparse(s: State, op: Op, f: nat) {
    && s.chain != [] && |FreeAddrs(s.chain)| <= f
    && (Expands(s, op) ==> |FreeAddrs(Grow(s, ExpandCount(AlignUp4(op.size))).chain)| <= f)
  }

  lemma OneFree(b: Block)
    ensures |FreeAddrs([b])| <= 1
  {
    assert FreeAddrs([b]) <= {b.addr};
    SubsetSize(FreeAddrs([b]), {b.addr});
  }

  /** The heap after one expanding request for `e - 4` bytes. */
  function GrownOnce(l: Layout, e: nat): State {
    State([Block(l.lo, e - 4, true), Block(l.lo + 12 + e, 4084, false)], l.lo + 4096 + e, l.lo + 12 + e)
  }

  /** And after it is freed again. */
  function GrownFree(l: Layout, e: nat): State {
    State([Block(l.lo, 4096 + e, false)], l.lo + 4096 + e, l.lo + 12 + e)
  }

  lemma GrowOnce(l: Layout, e: nat)
    requires ValidLayout(l) && e >= EXPAND_SIZE && e % EXPAND_SIZE == 0 && l.lo + EXPAND_SIZE + e < l.limit
    ensures Follows(l, Init(l), Kmalloc(e - 4, false), GrownOnce(l, e)) && Sparse(Init(l), Kmalloc(e - 4, false), 1)
  {
    MultipleOfFour(e);
    var a, f, g := Block(l.lo, 4080, false), Block(l.lo + 4096, e, false), Block(l.lo, 4096 + e, false);
    assert AlignUp4(e - 4) == e - 4 && ExpandCount(e - 4) == e;
    assert Extended(Init(l), e) == [a, f];
    assert Release([a, f], 1) == [g];
    assert BestFit([a], e - 4) < 0 && BestFit([g], e - 4) == 0;
    assert Split([g], 0, e - 4) == GrownOnce(l, e).chain;
    OneFree(a);
    OneFree(g);
  }

  lemma FreeOnce(l: Layout, e: nat)
    requires l.lo > 0 && e >= EXPAND_SIZE
    ensures Follows(l, GrownOnce(l, e), Kfree(l.lo + 16), GrownFree(l, e))
    ensures Sparse(GrownOnce(l, e), Kfree(l.lo + 16), 1)
  {
    var c := GrownOnce(l, e).chain;
    assert IndexOf(c, l.lo) == 0 && Release(c, 0) == GrownFree(l, e).chain;
    assert FreeAddrs(c) <= {c[1].addr};
    SubsetSize(FreeAddrs(c), {c[1].addr});
  }

  // ---------------------------------------------------------------- putting runs together

  ghost predicate SparseAt(states: seq<State>, ops: seq<Op>, f: nat, i: nat)
    requires i < |ops| && |states| == |ops| + 1
  {
    Sparse(states[i], ops[i], f)
  }

  /** The states follow from each other, with few FREE blocks about. */
  ghost predicate SparseSteps(l: Layout, states: seq<State>, ops: seq<Op>, f: nat) {
    && |states| == |ops| + 1
    && (forall i {:trigger StepAt(l, states, ops, i)} :: 0 <= i < |ops| ==> StepAt(l, states, ops, i))
    && (forall i {:trigger SparseAt(states, ops, f, i)} :: 0 <= i < |ops| ==> SparseAt(states, ops, f, i))
  }

  lemma JoinSteps(l: Layout, s1: seq<State>, o1: seq<Op>, s2: seq<State>, o2: seq<Op>, f1: nat, f2: nat)
    requires SparseSteps(l, s1, o1, f1) && SparseSteps(l, s2, o2, f2) && s1[|o1|] == s2[0] && f1 <= f2
    ensures SparseSteps(l, s1[..|o1|] + s2, o1 + o2, f2)
    ensures (s1[..|o1|] + s2)[0] == s1[0] && (s1[..|o1|] + s2)[|o1 + o2|] == s2[|o2|]
  {
    var ss, oo := s1[..|o1|] + s2, o1 + o2;
    forall i | 0 <= i < |oo| ensures StepAt(l, ss, oo, i) && SparseAt(ss, oo, f2, i) {
      if i < |o1| {
        assert StepAt(l, s1, o1, i) && SparseAt(s1, o1, f1, i);
      } else {
        assert StepAt(l, s2, o2, i - |o1|) && SparseAt(s2, o2, f2, i - |o1|);
      }
    }
  }

  lemma OneStep(l: Layout, s: State, op: Op, t: State, f: nat)
    requires Follows(l, s, op, t) && Sparse(s, op, f)
    ensures SparseSteps(l, [s, t], [op], f)
  {
    assert StepAt(l, [s, t], [op], 0) && SparseAt([s, t], [op], f, 0);
  }

  lemma TwoSteps(l: Layout, s: State, op1: Op, t: State, op2: Op, r: State, f: nat)
    requires Follows(l, s, op1, t) && Sparse(s, op1, f) && Follows(l, t, op2, r) && Sparse(t, op2, f)
    ensures SparseSteps(l, [s, t, r], [op1, op2], f)
  {
    OneStep(l, s, op1, t, f);
    OneStep(l, t, op2, r, f);
    JoinSteps(l, [s, t], [op1], [t, r], [op2], f, f);
    assert [s, t][..1] + [t, r] == [s, t, r] && [op1] + [op2] == [op1, op2];
  }

  lemma GrownStart(l: Layout) returns (t: Site, states: seq<State>, ops: seq<Op>)
    requires ValidLayout(l) && l.limit - l.lo > 2 * EXPAND_SIZE
    ensures t.lo == l.lo && t.bytes == MaxBytes(l)
    ensures SparseSteps(l, states, ops, 1) && states[0] == Init(l) && states[|ops|] == RowState(t, 0, 0)
  {
    var e := MaxTop(l) - EXPAND_SIZE;
    var s1, s2 := GrownOnce(l, e), GrownFree(l, e);
    GrowOnce(l, e);
    FreeOnce(l, e);
    TwoSteps(l, Init(l), Kmalloc(e - 4, false), s1, Kfree(l.lo + 16), s2, 1);
    states, ops := [Init(l), s1, s2], [Kmalloc(e - 4, false), Kfree(l.lo + 16)];
    t := Site(l.lo, MaxBytes(l), s2.top, s2.endPtr);
    assert Row(t, 0, 0) == s2.chain;
  }

  /** Steps to the largest FREE block the layout allows. */
  lemma StartRun(l: Layout) returns (t: Site, states: seq<State>, ops: seq<Op>)
    requires ValidLayout(l)
    ensures t.lo == l.lo && t.bytes == MaxBytes(l)
    ensures SparseSteps(l, states, ops, 1) && states[0] == Init(l) && states[|ops|] == RowState(t, 0, 0)
  {
    if l.limit - l.lo > 2 * EXPAND_SIZE {
      t, states, ops := GrownStart(l);
    } else {
      t := Site(l.lo, EXPAND_SIZE, l.lo + EXPAND_SIZE, l.lo);
      states, ops := [Init(l)], [];
      assert Row(t, 0, 0) == Init(l).chain;
    }
  }

  // ---------------------------------------------------------------- the whole run

  ghost function RowAt(t: Site, k: nat, i: nat): State {
    if i <= k then RowState(t, i, 0) else RowState(t, k, i - k)
  }

  function RowOp(t: Site, k: nat, i: nat): Op {
    if i < k then Kmalloc(0, false) else Kfree(t.lo + 32 * (i - k) + 16)
  }

  lemma RowStep(l: Layout, t: Site, j: nat, i: nat)
    requires t.lo > 0 && 16 * (2 * j + 1) < t.bytes && i < 3 * j
    ensures Follows(l, RowAt(t, 2 * j, i), RowOp(t, 2 * j, i), RowAt(t, 2 * j, i + 1))
  {
    if i < 2 * j { RowMallocAt(l, t, 2 * j, i); } else { RowFreeAt(l, t, 2 * j, i); }
  }

  lemma RowMallocAt(l: Layout, t: Site, k: nat, i: nat)
    requires 16 * (k + 1) < t.bytes && i < k
    ensures Follows(l, RowAt(t, k, i), RowOp(t, k, i), RowAt(t, k, i + 1))
  {
    RowMalloc(l, t, i);
  }

  lemma RowFreeAt(l: Layout, t: Site, k: nat, i: nat)
    requires t.lo > 0 && k <= i && 2 * (i - k) + 1 < k
    ensures Follows(l, RowAt(t, k, i), RowOp(t, k, i), RowAt(t, k, i + 1))
  {
    var j := i - k;
    RowFree(l, t, k, j);
    assert RowAt(t, k, i) == RowState(t, k, j);
    assert RowAt(t, k, i + 1) == RowState(t, k, j + 1) && RowOp(t, k, i) == Kfree(t.lo + 32 * j + 16);
  }

  lemma RowSparse(t: Site, j: nat, i: nat)
    requires 16 * (2 * j + 1) < t.bytes && i < 3 * j
    ensures Sparse(RowAt(t, 2 * j, i), RowOp(t, 2 * j, i), j)
  {
    if i < 2 * j { RowMallocSparse(t, i, j); } else { RowFreeCount(t, 2 * j, i - 2 * j); }
  }

  lemma RowMallocSparse(t: Site, i: nat, f: nat)
    requires f >= 1 && 16 * (i + 1) <= t.bytes
    ensures Sparse(RowState(t, i, 0), Kmalloc(0, false), f)
  {
    RowFreeCount(t, i, 0);
    assert Fits(Row(t, i, 0)[i], 0);
  }

  lemma RowSteps(l: Layout, t: Site, j: nat) returns (states: seq<State>, ops: seq<Op>)
    requires t.lo > 0 && j >= 1 && 16 * (2 * j + 1) < t.bytes
    ensures SparseSteps(l, states, ops, j) && states[0] == RowState(t, 0, 0) && states[|ops|] == RowState(t, 2 * j, j)
    ensures |ops| > 0 && ops[|ops| - 1].Kfree? && ops[|ops| - 1].ptr != 0
  {
    states := seq(3 * j + 1, i requires 0 <= i => RowAt(t, 2 * j, i));
    ops := seq(3 * j, i requires 0 <= i => RowOp(t, 2 * j, i));
    forall i | 0 <= i < |ops| ensures StepAt(l, states, ops, i) && SparseAt(states, ops, j, i) {
      RowStep(l, t, j, i);
      RowSparse(t, j, i);
    }
  }

  /** A run that ends with `j + 1` FREE blocks, the last of them by a kfree; before that there
      are at most `j`. */
  lemma CrowdRun(l: Layout, j: nat) returns (states: seq<State>, ops: seq<Op>)
    requires ValidLayout(l) && j >= 1 && 16 * (2 * j + 1) < MaxBytes(l)
    ensures IsRun(l, states, ops) && SparseSteps(l, states, ops, j)
    ensures |ops| > 0 && ops[|ops| - 1].Kfree? && ops[|ops| - 1].ptr != 0
    ensures |FreeAddrs(states[|ops|].chain)| == j + 1
    ensures states[|ops|].chain != [] && ChainEnd(states[|ops|].chain) == l.lo + MaxBytes(l)
  {
    var t, s1, o1 := StartRun(l);
    var s2, o2 := RowSteps(l, t, j);
    JoinSteps(l, s1, o1, s2, o2, 1, j);
    states, ops := s1[..|o1|] + s2, o1 + o2;
    RowFreeCount(t, 2 * j, j);
  }

  /** On every layout a run has more FREE blocks than one for every 36 bytes, less one header,
      would allow. */
  lemma CrowdedRun(l: Layout) returns (states: seq<State>, ops: seq<Op>)
    requires ValidLayout(l)
    ensures IsRun(l, states, ops) && states[|ops|].chain != []
    ensures var c := states[|ops|].chain; 36 * |FreeAddrs(c)| > ChainEnd(c) - l.lo + 16
  {
    states, ops := CrowdRun(l, MaxBytes(l) / 32 - 1);
  }
}
