/** kmalloc and kfree of kernel/kheap.c as steps on the block chain, and what holds in
    every run of them from init_kheap. */
module HeapRuns {
  import opened HeapChain
  import opened Machine

  /** `endPtr` is `heap_list_end_ptr`, which the code does not keep exact. */
  datatype State = State(chain: Chain, top: int, endPtr: int)

  /** The linker's `heap_ptr` and `heap_top`. */
  datatype Layout = Layout(lo: int, limit: int)

  datatype Outcome = Done(state: State, ptr: int) | Panic

  /** `stale` stands for the word read at kernel/kheap.c:278 being zero. */
  datatype Op = Kmalloc(size: nat, stale: bool) | Kfree(ptr: int)

  /** The stack lies above `heap_top` (boot/boot.s:90-93), so there is room for a header. */
  ghost predicate ValidLayout(l: Layout) {
    0 < l.lo && l.lo % 4 == 0 && l.lo + EXPAND_SIZE <= l.limit <= TWO32 - HEADER_SIZE
  }

  function AlignUp4(n: nat): (m: nat)
    ensures m % 4 == 0 && n <= m < n + 4
  {
    if n % 4 == 0 then n else n + (4 - n % 4)
  }

  /** Where the `while (expand_count <= size)` loop stops. */
  function ExpandCount(n: nat): (e: nat)
    ensures e % EXPAND_SIZE == 0 && n < e <= n + EXPAND_SIZE
  {
    (n / EXPAND_SIZE + 1) * EXPAND_SIZE
  }

  function ChainEnd(c: Chain): (hi: int)
    requires c != []
  {
    c[|c| - 1].End()
  }

  /** `heap_list_end_ptr` names the last header. */
  predicate EndExact(s: State)
    requires s.chain != []
  {
    s.endPtr == s.chain[|s.chain| - 1].addr
  }

  // ---------------------------------------------------------------- the steps

  function Init(l: Layout): (s: State) {
    State([Block(l.lo, EXPAND_SIZE - HEADER_SIZE, false)], l.lo + EXPAND_SIZE, l.lo)
  }

  /** `heap_split_node` with its updates of `heap_list_end_ptr`. */
  function Carve(s: State, i: nat, n: nat, stale: bool): (r: Outcome)
    requires i < |s.chain| && Fits(s.chain[i], n)
  {
    var b := s.chain[i];
    var isLast := i == |s.chain| - 1;
    var endPtr :=
      if b.size - n <= SPLIT_THRESHOLD then (if stale || isLast then b.addr else s.endPtr)
      else if isLast then b.addr + HEADER_SIZE + n else s.endPtr;
    Done(State(Split(s.chain, i, n), s.top, endPtr), b.addr + HEADER_SIZE)
  }

  function Extended(s: State, amount: int): (c: Chain)
    requires s.chain != []
  {
    s.chain + [Block(ChainEnd(s.chain), s.top + amount - ChainEnd(s.chain), false)]
  }

  /** `expand_heap` when `heap_list_end_ptr` is exact. */
  function Grow(s: State, amount: int): (r: State)
    requires s.chain != []
  {
    State(Release(Extended(s, amount), |s.chain|), s.top + amount, ChainEnd(s.chain))
  }

  function KmallocStep(s: State, l: Layout, size: nat, stale: bool): (r: Outcome)
    requires s.chain != []
  {
    var n := AlignUp4(size);
    var i := BestFit(s.chain, n);
    if i >= 0 then Carve(s, i, n, stale)
    else
      var g := Grow(s, ExpandCount(n));
      var j := BestFit(g.chain, n);
      if g.top >= l.limit || j < 0 then Panic else Carve(g, j, n, stale)
  }

  function IndexOf(c: Chain, addr: int): (i: int)
    ensures -1 <= i < |c|
    ensures i >= 0 ==> c[i].addr == addr
    ensures i == -1 ==> forall k :: 0 <= k < |c| ==> c[k].addr != addr
  {
    if c == [] then -1
    else if c[|c| - 1].addr == addr then |c| - 1
    else IndexOf(c[..|c| - 1], addr)
  }

  /** `kfree(NULL)` returns at once; any other pointer must follow a header of the chain. */
  function KfreeStep(s: State, ptr: int): (r: State)
    requires ptr == 0 || IndexOf(s.chain, ptr - HEADER_SIZE) >= 0
  {
    if ptr == 0 then s
    else s.(chain := Release(s.chain, IndexOf(s.chain, ptr - HEADER_SIZE)))
  }

  ghost predicate Expands(s: State, op: Op) {
    op.Kmalloc? && BestFit(s.chain, AlignUp4(op.size)) < 0
  }

  /** What the chain alone tells of the word read at kernel/kheap.c:278 when block `i` is not the
      last. On an exact fit it is the next header's `next_ptr`; with one word left over it is the
      next header's magic; with more it lies in the FREE block itself. */
  predicate StaleFits(c: Chain, i: nat, n: nat, stale: bool)
    requires i < |c|
  {
    i + 1 < |c| ==> (c[i].size == n ==> (stale <==> i + 2 == |c|)) && (c[i].size == n + 4 ==> !stale)
  }

  /** What a run asks of its callers: an expansion finds `heap_list_end_ptr` exact and does not
      carry `top_heap_ptr` past 2^32, and a freed pointer is NULL or follows a header of the chain. */
  ghost predicate Permitted(s: State, op: Op) {
    && s.chain != []
    && (Expands(s, op) ==> EndExact(s) && s.top + ExpandCount(AlignUp4(op.size)) < TWO32)
    && (op.Kmalloc? && !Expands(s, op) ==>
          StaleFits(s.chain, BestFit(s.chain, AlignUp4(op.size)), AlignUp4(op.size), op.stale))
    && (op.Kfree? ==> op.ptr == 0 || IndexOf(s.chain, op.ptr - HEADER_SIZE) >= 0)
  }

  ghost function Step(s: State, l: Layout, op: Op): (r: Outcome)
    requires Permitted(s, op)
  {
    match op
    case Kmalloc(size, stale) => KmallocStep(s, l, size, stale)
    case Kfree(ptr) => Done(KfreeStep(s, ptr), 0)
  }

  // ---------------------------------------------------------------- the invariant

  ghost predicate Inv(s: State, l: Layout) {
    && ValidLayout(l)
    && s.chain != []
    && Tiled(s.chain, l.lo, ChainEnd(s.chain))
    && Coalesced(s.chain)
    && s.chain[|s.chain| - 1].size >= 4
    && (s.top - l.lo) % EXPAND_SIZE == 0
    && l.lo + EXPAND_SIZE <= s.top
    && (if s.top == l.lo + EXPAND_SIZE then ChainEnd(s.chain) == s.top
        else ChainEnd(s.chain) == s.top + HEADER_SIZE && s.top < l.limit)
  }

  lemma TiledEnd(c: Chain, lo: int, hi: int)
    requires Tiled(c, lo, hi) && c != []
    ensures ChainEnd(c) == hi
  {
    TiledAt(c, lo, hi, |c| - 1);
  }

  lemma InitInv(l: Layout)
    requires ValidLayout(l)
    ensures Inv(Init(l), l) && EndExact(Init(l))
  {
    var c := Init(l).chain;
    assert c[1..] == [];
  }

  /** A rearrangement of the same bytes keeps the invariant. */
  lemma SameBytesInv(s: State, l: Layout, t: State)
    requires Inv(s, l) && t.top == s.top && t.chain != [] && t.chain[|t.chain| - 1].size >= 4
    requires Tiled(t.chain, l.lo, ChainEnd(s.chain)) && Coalesced(t.chain)
    ensures Inv(t, l) && ChainEnd(t.chain) == ChainEnd(s.chain)
  {
    TiledEnd(t.chain, l.lo, ChainEnd(s.chain));
  }

  lemma CarveInv(s: State, l: Layout, i: nat, n: nat, stale: bool)
    requires Inv(s, l) && i < |s.chain| && Fits(s.chain[i], n) && n % 4 == 0
    ensures Inv(Carve(s, i, n, stale).state, l)
    ensures ChainEnd(Carve(s, i, n, stale).state.chain) == ChainEnd(s.chain)
  {
    var hi := ChainEnd(s.chain);
    SplitTiled(s.chain, l.lo, hi, i, n);
    SplitCoalesced(s.chain, i, n);
    SplitLast(s.chain, l.lo, hi, i, n);
    SameBytesInv(s, l, Carve(s, i, n, stale).state);
  }

  lemma SplitLast(c: Chain, lo: int, hi: int, i: nat, n: nat)
    requires Tiled(c, lo, hi) && i < |c| && Fits(c[i], n) && n % 4 == 0 && c[|c| - 1].size >= 4
    ensures var r := Split(c, i, n); r != [] && r[|r| - 1].size >= 4
  {
    var r, bs := Split(c, i, n), SplitParts(c[i], n);
    TiledAt(c, lo, hi, i);
    if i + 1 < |c| { assert r[|r| - 1] == c[|c| - 1]; } else { assert r[|r| - 1] == bs[|bs| - 1]; }
  }

  lemma ReleaseLast(c: Chain, lo: int, hi: int, i: nat)
    requires Tiled(c, lo, hi) && i < |c| && c[|c| - 1].size >= 4
    ensures var r := Release(c, i); r != [] && r[|r| - 1].size >= 4
  {
    var r, k := Release(c, i), FuseTo(c, i);
    if k < |c| {
      assert r[|r| - 1] == c[|c| - 1];
    } else {
      assert r[|r| - 1] == Fused(c, i);
      TiledAt(c, lo, hi, FuseFrom(c, i));
      if FuseFrom(c, i) < |c| - 1 { TiledOrder(c, lo, hi, FuseFrom(c, i), |c| - 1); }
    }
  }

  lemma MultipleOfFour(x: int)
    requires x % EXPAND_SIZE == 0
    ensures x % 4 == 0
  {
    assert x == 4 * (1024 * (x / EXPAND_SIZE));
  }

  lemma ExtendedTiled(s: State, l: Layout, amount: nat)
    requires Inv(s, l) && amount >= EXPAND_SIZE && amount % EXPAND_SIZE == 0
    ensures Tiled(Extended(s, amount), l.lo, s.top + amount + HEADER_SIZE)
  {
    var hi := ChainEnd(s.chain);
    var b := Block(hi, s.top + amount - hi, false);
    ExtensionSize(s, l, amount);
    assert [b][1..] == [];
    TiledAppend(s.chain, [b], l.lo, hi, s.top + amount + HEADER_SIZE);
  }

  lemma ExtensionSize(s: State, l: Layout, amount: nat)
    requires Inv(s, l) && amount >= EXPAND_SIZE && amount % EXPAND_SIZE == 0
    ensures 0 <= s.top + amount - ChainEnd(s.chain) && (s.top + amount - ChainEnd(s.chain)) % 4 == 0
  {
    TiledBound(s.chain, l.lo, ChainEnd(s.chain));
    MultipleOfFour(amount);
  }

  lemma GrowInv(s: State, l: Layout, amount: nat)
    requires Inv(s, l) && amount >= EXPAND_SIZE && amount % EXPAND_SIZE == 0
    ensures var g := Grow(s, amount);
            && (g.top < l.limit ==> Inv(g, l))
            && Tiled(g.chain, l.lo, s.top + amount + HEADER_SIZE)
            && ChainEnd(g.chain) == g.top + HEADER_SIZE
  {
    var e := Extended(s, amount);
    var hi := s.top + amount + HEADER_SIZE;
    ExtendedTiled(s, l, amount);
    ReleaseTiled(e, l.lo, hi, |s.chain|);
    ExtendedCoalesced(s, amount);
    TiledEnd(Release(e, |s.chain|), l.lo, hi);
    assert (s.top + amount - l.lo) % EXPAND_SIZE == 0;
  }

  lemma ExtendedCoalesced(s: State, amount: nat)
    requires s.chain != [] && Coalesced(s.chain)
    ensures Coalesced(Release(Extended(s, amount), |s.chain|))
  {
    var c, e, n := s.chain, Extended(s, amount), |s.chain|;
    var l := FuseFrom(e, n);
    if 0 < l < n { assert Separated(c, l - 1); }
    SpliceCoalesced(c, l, n, [Fused(e, n)]);
    assert e[..l] == c[..l] && e[n + 1..] == [] && c[n..] == [];
  }

  /** What `expand_heap` needs of the chain with the new block appended. */
  lemma GrowFacts(s: State, l: Layout, amount: nat, e: Chain)
    requires Inv(s, l) && amount >= EXPAND_SIZE && amount % EXPAND_SIZE == 0 && e == Extended(s, amount)
    ensures Tiled(e, l.lo, s.top + amount + HEADER_SIZE)
    ensures Coalesced(Release(e, |s.chain|))
    ensures FreeAddrs(e) == FreeAddrs(s.chain) + {ChainEnd(s.chain)}
    ensures UsedBlocks(e) == UsedBlocks(s.chain)
  {
    ExtendedTiled(s, l, amount);
    ExtendedCoalesced(s, amount);
    var b := e[|s.chain|];
    ContentsOfConcat(s.chain, [b]);
    assert FreeAddrs([b]) == {b.addr} && UsedBlocks([b]) == {};
  }

  lemma ReleaseInv(s: State, l: Layout, i: nat)
    requires Inv(s, l) && i < |s.chain|
    ensures Inv(s.(chain := Release(s.chain, i)), l)
    ensures ChainEnd(Release(s.chain, i)) == ChainEnd(s.chain)
  {
    var hi := ChainEnd(s.chain);
    ReleaseTiled(s.chain, l.lo, hi, i);
    ReleaseCoalesced(s.chain, l.lo, hi, i);
    ReleaseLast(s.chain, l.lo, hi, i);
    SameBytesInv(s, l, s.(chain := Release(s.chain, i)));
  }

  lemma KmallocInv(s: State, l: Layout, size: nat, stale: bool)
    requires Inv(s, l) && KmallocStep(s, l, size, stale).Done?
    ensures Inv(KmallocStep(s, l, size, stale).state, l)
  {
    var n := AlignUp4(size);
    var i := BestFit(s.chain, n);
    if i >= 0 {
      CarveInv(s, l, i, n, stale);
    } else {
      var g := Grow(s, ExpandCount(n));
      GrowInv(s, l, ExpandCount(n));
      CarveInv(g, l, BestFit(g.chain, n), n, stale);
    }
  }

  lemma StepInv(s: State, l: Layout, op: Op)
    requires Inv(s, l) && Permitted(s, op) && Step(s, l, op).Done?
    ensures Inv(Step(s, l, op).state, l)
  {
    match op
    case Kmalloc(size, stale) =>
      KmallocInv(s, l, size, stale);
    case Kfree(ptr) =>
      if ptr != 0 { ReleaseInv(s, l, IndexOf(s.chain, ptr - HEADER_SIZE)); }
  }

  // ---------------------------------------------------------------- expansion

  /** After an expansion the only block that fits is the last one, and it fits unless this is
      not the first expansion, the chain ended in a USED block and the 16 bytes that
      `expand_heap` does not account for are the ones missing. */
  lemma GrownFit(s: State, l: Layout, n: nat)
    requires Inv(s, l) && BestFit(s.chain, n) < 0 && n % 4 == 0
    ensures var g := Grow(s, ExpandCount(n));
            && (forall k :: 0 <= k < |g.chain| - 1 ==> !Fits(g.chain[k], n))
            && (Fits(g.chain[|g.chain| - 1], n) <==> !ShortExpansion(s, n))
  {
    var a := ExpandCount(n);
    var e, m := Extended(s, a), |s.chain|;
    var f := FuseFrom(e, m);
    var g := Grow(s, a);
    assert e[..f] == s.chain[..f] && e[m + 1..] == [];
    assert g.chain == s.chain[..f] + [Fused(e, m)];
    assert forall k :: 0 <= k < f ==> g.chain[k] == s.chain[k];
    ExpandSlack(n);
    TiledAt(s.chain, l.lo, ChainEnd(s.chain), m - 1);
  }

  predicate ShortExpansion(s: State, n: nat)
    requires s.chain != []
  {
    && ChainEnd(s.chain) != s.top
    && s.chain[|s.chain| - 1].used
    && n % EXPAND_SIZE > EXPAND_SIZE - HEADER_SIZE
  }

  lemma ExpandSlack(n: nat)
    ensures ExpandCount(n) - n == EXPAND_SIZE - n % EXPAND_SIZE
  {
  }

  lemma GrownBestFit(s: State, l: Layout, n: nat)
    requires Inv(s, l) && BestFit(s.chain, n) < 0 && n % 4 == 0
    ensures var g := Grow(s, ExpandCount(n));
            BestFit(g.chain, n) == if ShortExpansion(s, n) then -1 else |g.chain| - 1
  {
    GrownFit(s, l, n);
  }

  /** kmalloc halts exactly when no FREE block fits and the heap cannot grow, or grows by
      too little. */
  lemma KmallocPanics(s: State, l: Layout, size: nat, stale: bool)
    requires Inv(s, l) && Permitted(s, Kmalloc(size, stale))
    ensures KmallocStep(s, l, size, stale).Panic? <==>
            var n := AlignUp4(size);
            (forall b :: b in s.chain ==> !Fits(b, n)) &&
            (s.top + ExpandCount(n) >= l.limit || ShortExpansion(s, n))
  {
    var n := AlignUp4(size);
    if BestFit(s.chain, n) < 0 {
      GrownBestFit(s, l, n);
    } else {
      assert s.chain[BestFit(s.chain, n)] in s.chain;
    }
  }

  /** A kmalloc that expands takes the last block, tiles the heap up to 16 bytes past
      `top_heap_ptr` and leaves `heap_list_end_ptr` exact. */
  lemma KmallocExpands(s: State, l: Layout, size: nat, stale: bool)
    requires Inv(s, l) && Permitted(s, Kmalloc(size, stale)) && Expands(s, Kmalloc(size, stale))
    requires KmallocStep(s, l, size, stale).Done?
    ensures var r := KmallocStep(s, l, size, stale);
            var n := AlignUp4(size);
            var g := Grow(s, ExpandCount(n));
            && r.ptr == g.chain[|g.chain| - 1].addr + HEADER_SIZE
            && r.state.top == s.top + ExpandCount(n)
            && Tiled(r.state.chain, l.lo, r.state.top + HEADER_SIZE)
            && EndExact(r.state)
  {
    var n := AlignUp4(size);
    var g := Grow(s, ExpandCount(n));
    KmallocCarvesLast(s, l, size, stale);
    GrowInv(s, l, ExpandCount(n));
    CarveInv(g, l, |g.chain| - 1, n, stale);
  }

  lemma KmallocCarvesLast(s: State, l: Layout, size: nat, stale: bool)
    requires Inv(s, l) && Permitted(s, Kmalloc(size, stale)) && Expands(s, Kmalloc(size, stale))
    requires KmallocStep(s, l, size, stale).Done?
    ensures var n := AlignUp4(size);
            var g := Grow(s, ExpandCount(n));
            && g.chain != [] && Fits(g.chain[|g.chain| - 1], n) && g.top < l.limit
            && KmallocStep(s, l, size, stale) == Carve(g, |g.chain| - 1, n, stale)
  {
    GrownBestFit(s, l, AlignUp4(size));
  }

  // ---------------------------------------------------------------- heap_list_end_ptr

  /** Without expansion, kmalloc leaves an exact `heap_list_end_ptr` exact unless it takes a
      whole block that is not the last one while the word at kernel/kheap.c:278 reads zero. On an
      exact fit that is when the block is the last but one; with one word left over, or more than
      the threshold, it is never. */
  lemma KmallocKeepsEnd(s: State, l: Layout, size: nat, stale: bool)
    requires Inv(s, l) && EndExact(s) && BestFit(s.chain, AlignUp4(size)) >= 0
    requires Permitted(s, Kmalloc(size, stale))
    ensures var n := AlignUp4(size);
            var i := BestFit(s.chain, n);
            var left := s.chain[i].size - n;
            var exact := EndExact(KmallocStep(s, l, size, stale).state);
            && (exact <==> !(stale && i < |s.chain| - 1 && left <= 16))
            && (left == 0 ==> (exact <==> i + 2 != |s.chain|))
            && (left == 4 || left > 16 ==> exact)
  {
    var n := AlignUp4(size);
    var i := BestFit(s.chain, n);
    if i < |s.chain| - 1 { TiledOrder(s.chain, l.lo, ChainEnd(s.chain), i, |s.chain| - 1); }
  }

  /** kfree leaves it exact unless the last header is absorbed. */
  lemma KfreeKeepsEnd(s: State, l: Layout, ptr: int)
    requires Inv(s, l) && EndExact(s) && ptr != 0 && IndexOf(s.chain, ptr - HEADER_SIZE) >= 0
    ensures var i := IndexOf(s.chain, ptr - HEADER_SIZE);
            EndExact(KfreeStep(s, ptr)) <==>
              FuseTo(s.chain, i) < |s.chain| || FuseFrom(s.chain, i) == |s.chain| - 1
  {
    var i := IndexOf(s.chain, ptr - HEADER_SIZE);
    var f, k := FuseFrom(s.chain, i), FuseTo(s.chain, i);
    var r := Release(s.chain, i);
    assert r[|r| - 1] == if k < |s.chain| then s.chain[|s.chain| - 1] else Fused(s.chain, i);
    TiledAt(s.chain, l.lo, ChainEnd(s.chain), f);
    if f < |s.chain| - 1 { TiledOrder(s.chain, l.lo, ChainEnd(s.chain), f, |s.chain| - 1); }
  }

  // ---------------------------------------------------------------- live allocations

  /** `b` is what the kmalloc call added to the live allocations. */
  ghost predicate IsAllocation(s: State, r: Outcome, size: nat, b: Block)
    requires r.Done?
  {
    && b.used && b.addr == r.ptr - HEADER_SIZE
    && size <= b.size <= AlignUp4(size) + 16
    && b !in UsedBlocks(s.chain)
    && UsedBlocks(r.state.chain) == UsedBlocks(s.chain) + {b}
  }

  /** A successful kmalloc adds one live allocation, of at least the bytes asked for and at
      most the threshold more, and leaves every other one where and as large as it was. */
  lemma KmallocUsed(s: State, l: Layout, size: nat, stale: bool)
    requires Inv(s, l) && KmallocStep(s, l, size, stale).Done?
    ensures var r := KmallocStep(s, l, size, stale);
            exists b: Block :: IsAllocation(s, r, size, b)
  {
    var n := AlignUp4(size);
    var i := BestFit(s.chain, n);
    if i >= 0 {
      CarveUsed(s.chain, l.lo, ChainEnd(s.chain), i, n);
      assert IsAllocation(s, KmallocStep(s, l, size, stale), size, SplitParts(s.chain[i], n)[0]);
    } else {
      var g := Grow(s, ExpandCount(n));
      GrowUsed(s, l, ExpandCount(n));
      GrowInv(s, l, ExpandCount(n));
      var j := BestFit(g.chain, n);
      CarveUsed(g.chain, l.lo, ChainEnd(g.chain), j, n);
      assert IsAllocation(s, KmallocStep(s, l, size, stale), size, SplitParts(g.chain[j], n)[0]);
    }
  }

  lemma CarveUsed(c: Chain, lo: int, hi: int, i: nat, n: nat)
    requires Tiled(c, lo, hi) && i < |c| && Fits(c[i], n)
    ensures UsedBlocks(Split(c, i, n)) == UsedBlocks(c) + {SplitParts(c[i], n)[0]}
    ensures SplitParts(c[i], n)[0] !in UsedBlocks(c)
  {
    SplitUsed(c, lo, hi, i, n);
    var b := SplitParts(c[i], n)[0];
    if b in UsedBlocks(c) {
      var j :| 0 <= j < |c| && c[j] == b;
      TiledOrderAll(c, lo, hi);
      assert false;
    }
  }

  lemma GrowUsed(s: State, l: Layout, amount: nat)
    requires Inv(s, l) && amount >= EXPAND_SIZE && amount % EXPAND_SIZE == 0
    ensures UsedBlocks(Grow(s, amount).chain) == UsedBlocks(s.chain)
  {
    var e, m := Extended(s, amount), |s.chain|;
    ExtendedTiled(s, l, amount);
    ReleaseUsed(e, l.lo, s.top + amount + HEADER_SIZE, m);
    ContentsOfConcat(s.chain, [e[m]]);
    assert UsedBlocks([e[m]]) == {};
    assert e[m] !in UsedBlocks(e);
  }

  ghost predicate Frees(op: Op, b: Block) {
    op == Kfree(b.addr + HEADER_SIZE)
  }

  lemma StepKeepsLive(s: State, l: Layout, op: Op, b: Block)
    requires Inv(s, l) && Permitted(s, op) && Step(s, l, op).Done?
    requires b in UsedBlocks(s.chain) && !Frees(op, b)
    ensures b in UsedBlocks(Step(s, l, op).state.chain)
  {
    match op
    case Kmalloc(size, stale) =>
      KmallocUsed(s, l, size, stale);
    case Kfree(ptr) =>
      if ptr != 0 { ReleaseUsed(s.chain, l.lo, ChainEnd(s.chain), IndexOf(s.chain, ptr - HEADER_SIZE)); }
  }

  // ---------------------------------------------------------------- whole runs

  ghost predicate Follows(l: Layout, s: State, op: Op, t: State) {
    Permitted(s, op) && Step(s, l, op).Done? && Step(s, l, op).state == t
  }

  ghost predicate StepAt(l: Layout, states: seq<State>, ops: seq<Op>, k: nat)
    requires k < |ops| && |states| == |ops| + 1
  {
    Follows(l, states[k], ops[k], states[k + 1])
  }

  /** A run of kmalloc and kfree calls from init_kheap. */
  ghost predicate IsRun(l: Layout, states: seq<State>, ops: seq<Op>) {
    && ValidLayout(l)
    && |states| == |ops| + 1
    && states[0] == Init(l)
    && forall k {:trigger StepAt(l, states, ops, k)} :: 0 <= k < |ops| ==> StepAt(l, states, ops, k)
  }

  /** In every run the blocks tile the heap and no two neighbours are both FREE. */
  lemma {:induction false} RunInv(l: Layout, states: seq<State>, ops: seq<Op>, k: nat)
    requires IsRun(l, states, ops) && k <= |ops|
    ensures Inv(states[k], l)
  {
    if k == 0 {
      InitInv(l);
    } else {
      RunInv(l, states, ops, k - 1);
      assert StepAt(l, states, ops, k - 1);
      StepInv(states[k - 1], l, ops[k - 1]);
    }
  }

  /** A live allocation keeps its address and size for as long as it is not freed. */
  lemma {:induction false} RunKeepsLive(l: Layout, states: seq<State>, ops: seq<Op>, i: nat, j: nat, b: Block)
    requires IsRun(l, states, ops) && i <= j <= |ops|
    requires b in UsedBlocks(states[i].chain)
    requires forall k :: i <= k < j ==> !Frees(ops[k], b)
    ensures b in UsedBlocks(states[j].chain)
    decreases j
  {
    if i < j {
      RunKeepsLive(l, states, ops, i, j - 1, b);
      RunInv(l, states, ops, j - 1);
      assert StepAt(l, states, ops, j - 1);
      StepKeepsLive(states[j - 1], l, ops[j - 1], b);
    }
  }

  /** Two live allocations never overlap, and lie between `heap_ptr` and 16 bytes past
      `top_heap_ptr`. */
  lemma LiveDisjoint(s: State, l: Layout, b: Block, b': Block)
    requires Inv(s, l) && b in UsedBlocks(s.chain) && b' in UsedBlocks(s.chain) && b != b'
    ensures b.End() <= b'.addr || b'.End() <= b.addr
    ensures l.lo <= b.addr && b.End() <= s.top + HEADER_SIZE
  {
    var c := s.chain;
    var i :| 0 <= i < |c| && c[i] == b;
    var j :| 0 <= j < |c| && c[j] == b';
    TiledOrderAll(c, l.lo, ChainEnd(c));
  }

  /** The heap, from its second expansion step on, can end so close below `heap_top` that the 16
      bytes do not fit. */
  predicate Overhangs(l: Layout) {
    l.limit - l.lo > 2 * EXPAND_SIZE && 1 <= (l.limit - l.lo) % EXPAND_SIZE <= 15
  }

  ghost predicate EndsPastLimit(l: Layout, states: seq<State>, ops: seq<Op>, b: Block) {
    IsRun(l, states, ops) && b in UsedBlocks(states[|ops|].chain) && b.End() > l.limit
  }

  lemma BlocksEndAtOrBelow(s: State, l: Layout, b: Block)
    requires Inv(s, l) && b in s.chain && !Overhangs(l)
    ensures b.End() <= l.limit
  {
    var i :| 0 <= i < |s.chain| && s.chain[i] == b;
    TiledAt(s.chain, l.lo, ChainEnd(s.chain), i);
    if s.top > l.lo + EXPAND_SIZE && s.top + HEADER_SIZE > l.limit { TopBelow(s.top - l.lo, l.limit - l.lo); }
  }

  lemma TopBelow(t: int, d: int)
    requires t % EXPAND_SIZE == 0 && 0 <= t < d && t + HEADER_SIZE > d
    ensures d - t == d % EXPAND_SIZE
  {
  }

  /** Some run hands out memory past `heap_top` exactly on those layouts. */
  lemma LivePastLimitExactly(l: Layout)
    requires ValidLayout(l)
    ensures (exists states, ops, b :: EndsPastLimit(l, states, ops, b)) <==> Overhangs(l)
  {
    if Overhangs(l) {
      var states, ops, b := OverhangRun(l);
      assert EndsPastLimit(l, states, ops, b);
    } else {
      forall states, ops, b ensures !EndsPastLimit(l, states, ops, b) {
        if EndsPastLimit(l, states, ops, b) {
          RunInv(l, states, ops, |ops|);
          BlocksEndAtOrBelow(states[|ops|], l, b);
        }
      }
    }
  }

  /** kfree undoes a kmalloc that did not expand: the whole chain is restored. */
  lemma KfreeUndoesKmalloc(s: State, l: Layout, size: nat, stale: bool)
    requires Inv(s, l) && BestFit(s.chain, AlignUp4(size)) >= 0
    ensures var r := KmallocStep(s, l, size, stale);
            && Permitted(r.state, Kfree(r.ptr))
            && KfreeStep(r.state, r.ptr).chain == s.chain
            && KfreeStep(r.state, r.ptr).top == s.top
  {
    CarveUndone(s, l, BestFit(s.chain, AlignUp4(size)), AlignUp4(size), stale);
  }

  /** Whichever FREE block was carved. */
  lemma CarveUndone(s: State, l: Layout, i: nat, n: nat, stale: bool)
    requires Inv(s, l) && i < |s.chain| && Fits(s.chain[i], n) && n % 4 == 0
    ensures var r := Carve(s, i, n, stale);
            && r.ptr != 0 && IndexOf(r.state.chain, r.ptr - HEADER_SIZE) == i
            && KfreeStep(r.state, r.ptr).chain == s.chain
            && KfreeStep(r.state, r.ptr).top == s.top
  {
    var t := Split(s.chain, i, n);
    TiledAt(s.chain, l.lo, ChainEnd(s.chain), i);
    CarveInv(s, l, i, n, stale);
    assert t[i].addr == s.chain[i].addr;
    IndexOfTiled(t, l.lo, ChainEnd(t), i);
    SplitThenRelease(s.chain, l.lo, ChainEnd(s.chain), i, n);
  }

  lemma IndexOfTiled(c: Chain, lo: int, hi: int, i: nat)
    requires Tiled(c, lo, hi) && i < |c|
    ensures IndexOf(c, c[i].addr) == i
  {
    TiledOrderAll(c, lo, hi);
  }

  /** A second kfree of the same pointer finds its header still in the chain exactly when the block
      to the left was not FREE; then it changes nothing. Otherwise the header has been absorbed. */
  lemma FreedHeaderStays(s: State, l: Layout, ptr: int)
    requires Inv(s, l) && ptr != 0 && IndexOf(s.chain, ptr - HEADER_SIZE) >= 0
    ensures var i, r := IndexOf(s.chain, ptr - HEADER_SIZE), KfreeStep(s, ptr);
            && (IndexOf(r.chain, ptr - HEADER_SIZE) >= 0 <==> i == 0 || s.chain[i - 1].used)
            && (i == 0 || s.chain[i - 1].used ==> KfreeStep(r, ptr) == r)
  {
    var i := IndexOf(s.chain, ptr - HEADER_SIZE);
    if i == 0 || s.chain[i - 1].used {
      ReleaseInv(s, l, i);
      ReleasedKept(s.chain, l.lo, ChainEnd(s.chain), i, Release(s.chain, i));
    } else {
      ReleasedAbsorbed(s.chain, l.lo, ChainEnd(s.chain), i);
    }
  }

  lemma ReleasedKept(c: Chain, lo: int, hi: int, i: nat, r: Chain)
    requires i < |c| && FuseFrom(c, i) == i && r == Release(c, i) && Tiled(r, lo, hi) && Coalesced(r)
    ensures IndexOf(r, c[i].addr) == i && Release(r, i) == r
  {
    assert r[i] == Fused(c, i);
    IndexOfTiled(r, lo, hi, i);
    ReleaseFreeBlock(r, lo, hi, i);
  }

  lemma ReleasedAbsorbed(c: Chain, lo: int, hi: int, i: nat)
    requires Tiled(c, lo, hi) && i < |c| && FuseFrom(c, i) < i
    ensures IndexOf(Release(c, i), c[i].addr) < 0
  {
    var r, f, k := Release(c, i), FuseFrom(c, i), FuseTo(c, i);
    TiledOrderAll(c, lo, hi);
    assert r[f] == Fused(c, i);
    forall j | 0 <= j < |r| ensures r[j].addr != c[i].addr {
      if j < f { assert r[j] == c[j]; } else if j > f { assert r[j] == c[j - f - 1 + k]; }
    }
  }

  // ---------------------------------------------------------------- draining the heap

  /** The pointers of the live allocations, each once. */
  ghost predicate ListsLive(c: Chain, order: seq<int>) {
    && (forall i, j :: 0 <= i < j < |order| ==> order[i] != order[j])
    && (forall p :: p in order <==> LivePtr(c, p))
  }

  ghost predicate LivePtr(c: Chain, p: int) {
    exists b :: b in UsedBlocks(c) && b.addr + HEADER_SIZE == p
  }

  ghost function FreeEach(s: State, order: seq<int>): (r: State)
    decreases order
  {
    if order == [] then s
    else if order[0] != 0 && IndexOf(s.chain, order[0] - HEADER_SIZE) < 0 then s
    else FreeEach(KfreeStep(s, order[0]), order[1..])
  }

  /** Freeing every live allocation, in any order, leaves one FREE block that covers the heap. */
  lemma DrainAnyOrder(s: State, l: Layout, order: seq<int>)
    requires Inv(s, l) && ListsLive(s.chain, order)
    ensures FreeEach(s, order).chain == [Block(l.lo, ChainEnd(s.chain) - l.lo - HEADER_SIZE, false)]
  {
    Drain(s, l, ChainEnd(s.chain), order);
  }

  ghost predicate ToDrain(s: State, l: Layout, hi: int, order: seq<int>) {
    Inv(s, l) && ListsLive(s.chain, order) && ChainEnd(s.chain) == hi
  }

  lemma {:induction false} Drain(s: State, l: Layout, hi: int, order: seq<int>)
    requires ToDrain(s, l, hi, order)
    ensures FreeEach(s, order).chain == [Block(l.lo, hi - l.lo - HEADER_SIZE, false)]
    decreases order
  {
    if order == [] {
      NoneLive(s, l);
    } else {
      var t := DrainStep(s, l, order);
      assert ToDrain(t, l, hi, order[1..]);
      Drain(t, l, hi, order[1..]);
    }
  }

  lemma DrainStep(s: State, l: Layout, order: seq<int>) returns (t: State)
    requires Inv(s, l) && ListsLive(s.chain, order) && order != []
    ensures order[0] != 0 && IndexOf(s.chain, order[0] - HEADER_SIZE) >= 0 && t == KfreeStep(s, order[0])
    ensures Inv(t, l) && ListsLive(t.chain, order[1..]) && ChainEnd(t.chain) == ChainEnd(s.chain)
    ensures FreeEach(s, order) == FreeEach(t, order[1..])
  {
    var c := s.chain;
    var i := FirstLive(s, l, order);
    ReleaseInv(s, l, i);
    ReleaseUsed(c, l.lo, ChainEnd(c), i);
    RestIsLive(c, l.lo, ChainEnd(c), i, order, Release(c, i));
    t := s.(chain := Release(c, i));
  }

  lemma NoneLive(s: State, l: Layout)
    requires Inv(s, l) && ListsLive(s.chain, [])
    ensures s.chain == [Block(l.lo, ChainEnd(s.chain) - l.lo - HEADER_SIZE, false)]
  {
    var c := s.chain;
    TiledAt(c, l.lo, ChainEnd(c), 0);
    assert |c| > 1 ==> Separated(c, 0);
    forall i | 0 <= i < |c| ensures !c[i].used {
      var b := c[i];
      assert b in c;
      assert b.used ==> b in UsedBlocks(c) && LivePtr(c, b.addr + HEADER_SIZE);
    }
  }

  lemma FirstLive(s: State, l: Layout, order: seq<int>) returns (i: nat)
    requires Inv(s, l) && ListsLive(s.chain, order) && order != []
    ensures i < |s.chain| && s.chain[i].addr == order[0] - HEADER_SIZE
    ensures order[0] != 0 && IndexOf(s.chain, order[0] - HEADER_SIZE) == i
  {
    var c := s.chain;
    assert order[0] in order && LivePtr(c, order[0]);
    var b :| b in UsedBlocks(c) && b.addr + HEADER_SIZE == order[0];
    i :| 0 <= i < |c| && c[i] == b;
    TiledAt(c, l.lo, ChainEnd(c), i);
    IndexOfTiled(c, l.lo, ChainEnd(c), i);
  }

  lemma RestIsLive(c: Chain, lo: int, hi: int, i: nat, order: seq<int>, c': Chain)
    requires Tiled(c, lo, hi) && i < |c| && order != [] && ListsLive(c, order)
    requires order[0] == c[i].addr + HEADER_SIZE && UsedBlocks(c') == UsedBlocks(c) - {c[i]}
    ensures ListsLive(c', order[1..])
  {
    TiledOrderAll(c, lo, hi);
    var rest := order[1..];
    assert forall p :: p in order <==> p == order[0] || p in rest;
    forall p ensures p in rest <==> LivePtr(c', p) {
      if p in rest {
        assert p in order && p != order[0] && LivePtr(c, p);
        var b :| b in UsedBlocks(c) && b.addr + HEADER_SIZE == p;
        assert b in UsedBlocks(c');
      }
      if b :| b in UsedBlocks(c') && b.addr + HEADER_SIZE == p {
        assert b in UsedBlocks(c) && LivePtr(c, p);
        assert p in order;
        assert b != c[i] && c[i] in c;
        assert p != order[0];
      }
    }
  }

  /** A run that never expanded and whose allocations are all freed again, in any order, is
      back at the chain init_kheap built. */
  lemma RunDrains(l: Layout, states: seq<State>, ops: seq<Op>, order: seq<int>)
    requires IsRun(l, states, ops)
    requires states[|ops|].top == Init(l).top && ListsLive(states[|ops|].chain, order)
    ensures FreeEach(states[|ops|], order).chain == Init(l).chain
  {
    RunInv(l, states, ops, |ops|);
    DrainAnyOrder(states[|ops|], l, order);
  }

  // ---------------------------------------------------------------- room in the free list

  ghost predicate AllAtLeast(c: Chain, least: nat) {
    forall b :: b in c ==> b.size >= least
  }

  /** In every reachable state 32 bytes of heap go with each FREE block. */
  lemma FreeBlocksBound(s: State, l: Layout)
    requires Inv(s, l)
    ensures 32 * |FreeAddrs(s.chain)| <= ChainEnd(s.chain) - l.lo
    ensures AllAtLeast(s.chain, 4) ==> 40 * |FreeAddrs(s.chain)| <= ChainEnd(s.chain) - l.lo + 20
  {
    var hi := ChainEnd(s.chain);
    FreeCountIsSize(s.chain, l.lo, hi);
    FreeCountBoundLast(s.chain, l.lo, hi);
    WholeHeaders(s.top - l.lo, hi - l.lo, |FreeAddrs(s.chain)|);
    if AllAtLeast(s.chain, 4) { FreeCountBound(s.chain, l.lo, hi, 4); }
  }

  lemma WholeHeaders(t: int, bytes: int, f: int)
    requires t % EXPAND_SIZE == 0 && (bytes == t || bytes == t + HEADER_SIZE) && 32 * f <= bytes + 12
    ensures 32 * f <= bytes
  {
    var q := t / EXPAND_SIZE;
    assert t == 32 * (128 * q);
  }

  /** A run that never asks for zero bytes keeps every block at four bytes or more. */
  lemma {:induction false} RunAtLeast(l: Layout, states: seq<State>, ops: seq<Op>, k: nat)
    requires IsRun(l, states, ops) && k <= |ops|
    requires forall i :: 0 <= i < |ops| && ops[i].Kmalloc? ==> ops[i].size > 0
    ensures AllAtLeast(states[k].chain, 4)
    ensures states[k].chain != []
    ensures 36 * |FreeAddrs(states[k].chain)| <= ChainEnd(states[k].chain) - l.lo + 16
  {
    if k > 0 {
      RunAtLeast(l, states, ops, k - 1);
      RunInv(l, states, ops, k - 1);
      assert StepAt(l, states, ops, k - 1);
      StepAtLeast(states[k - 1], l, ops[k - 1]);
    }
    RunInv(l, states, ops, k);
    FreeBlocksBound(states[k], l);
    TiledBound(states[k].chain, l.lo, ChainEnd(states[k].chain));
  }

  lemma StepAtLeast(s: State, l: Layout, op: Op)
    requires Inv(s, l) && Permitted(s, op) && Step(s, l, op).Done? && AllAtLeast(s.chain, 4)
    requires op.Kmalloc? ==> op.size > 0
    ensures AllAtLeast(Step(s, l, op).state.chain, 4)
  {
    match op
    case Kmalloc(size, stale) =>
      var n := AlignUp4(size);
      var i := BestFit(s.chain, n);
      if i >= 0 {
        SplitAtLeast(s.chain, l.lo, ChainEnd(s.chain), i, n);
      } else {
        var g := Grow(s, ExpandCount(n));
        GrowAtLeast(s, l, ExpandCount(n));
        SplitAtLeast(g.chain, l.lo, ChainEnd(g.chain), BestFit(g.chain, n), n);
      }
    case Kfree(ptr) =>
      if ptr != 0 { ReleaseAtLeast(s.chain, l.lo, ChainEnd(s.chain), IndexOf(s.chain, ptr - HEADER_SIZE)); }
  }

  lemma GrowAtLeast(s: State, l: Layout, amount: nat)
    requires Inv(s, l) && amount >= EXPAND_SIZE && amount % EXPAND_SIZE == 0 && AllAtLeast(s.chain, 4)
    ensures AllAtLeast(Grow(s, amount).chain, 4) && Tiled(Grow(s, amount).chain, l.lo, ChainEnd(Grow(s, amount).chain))
  {
    GrowInv(s, l, amount);
    ExtendedTiled(s, l, amount);
    ExtensionSize(s, l, amount);
    ReleaseAtLeast(Extended(s, amount), l.lo, s.top + amount + HEADER_SIZE, |s.chain|);
  }

  lemma SplitAtLeast(c: Chain, lo: int, hi: int, i: nat, n: nat)
    requires Tiled(c, lo, hi) && AllAtLeast(c, 4) && i < |c| && Fits(c[i], n) && n >= 4 && n % 4 == 0
    ensures AllAtLeast(Split(c, i, n), 4)
  {
    TiledAt(c, lo, hi, i);
  }

  lemma ReleaseAtLeast(c: Chain, lo: int, hi: int, i: nat)
    requires Tiled(c, lo, hi) && i < |c| && AllAtLeast(c, 4)
    ensures AllAtLeast(Release(c, i), 4)
  {
    TiledAt(c, lo, hi, i);
    if i > 0 { TiledAt(c, lo, hi, i - 1); }
    if i + 1 < |c| { TiledAt(c, lo, hi, i + 1); }
    assert Fused(c, i).size >= c[i].size;
    assert c[i] in c;
  }

  // ---------------------------------------------------------------- runs that go wrong

  /** On every layout: one small allocation, freed again, leaves `heap_list_end_ptr` on an
      absorbed header, so the next request that must expand is not Permitted. */
  lemma StaleEndRun(l: Layout) returns (states: seq<State>, ops: seq<Op>)
    requires ValidLayout(l)
    ensures IsRun(l, states, ops) && |ops| == 2
    ensures states[2].chain != [] && !EndExact(states[2]) && !Permitted(states[2], Kmalloc(EXPAND_SIZE, false))
  {
    var n := 100;
    var s0 := Init(l);
    var b := Block(l.lo, 4080, false);
    var u, f := Block(l.lo, n, true), Block(l.lo + 116, 3964, false);
    assert s0.chain == [b];
    assert Split([b], 0, n) == [u, f];
    var s1 := State([u, f], s0.top, l.lo + 116);
    assert BestFit(s0.chain, AlignUp4(n)) == 0;
    assert Follows(l, s0, Kmalloc(n, false), s1);
    var s2 := State([b], s0.top, l.lo + 116);
    assert IndexOf([u, f], l.lo) == 0;
    assert Release([u, f], 0) == [b];
    assert Follows(l, s1, Kfree(l.lo + 16), s2);
    states, ops := [s0, s1, s2], [Kmalloc(n, false), Kfree(l.lo + 16)];
    assert StepAt(l, states, ops, 0) && StepAt(l, states, ops, 1);
    assert BestFit(s2.chain, AlignUp4(EXPAND_SIZE)) < 0;
    assert Expands(s2, Kmalloc(EXPAND_SIZE, false));
  }

  /** Fill the first 4080 bytes, then expand by `e` bytes and take all of them. */
  lemma FillRun(l: Layout, e: nat) returns (states: seq<State>, ops: seq<Op>)
    requires ValidLayout(l) && e >= EXPAND_SIZE && e % EXPAND_SIZE == 0 && l.lo + EXPAND_SIZE + e < l.limit
    ensures IsRun(l, states, ops) && |ops| == 2
    ensures states[2] == State([Block(l.lo, 4080, true), Block(l.lo + 4096, e, true)], l.lo + 4096 + e, l.lo + 4096)
  {
    var s0 := Init(l);
    var b := Block(l.lo, 4080, true);
    assert Split(s0.chain, 0, 4080) == [b];
    var s1 := State([b], l.lo + 4096, l.lo);
    assert BestFit(s0.chain, AlignUp4(4080)) == 0;
    assert Follows(l, s0, Kmalloc(4080, false), s1);
    var s2 := FillStep(l, s1, e);
    states, ops := [s0, s1, s2], [Kmalloc(4080, false), Kmalloc(e - 4, false)];
    assert StepAt(l, states, ops, 0) && StepAt(l, states, ops, 1);
  }

  lemma FillStep(l: Layout, s: State, e: nat) returns (t: State)
    requires e >= EXPAND_SIZE && e % EXPAND_SIZE == 0 && l.lo + EXPAND_SIZE + e < l.limit <= TWO32
    requires s == State([Block(l.lo, 4080, true)], l.lo + 4096, l.lo)
    ensures Follows(l, s, Kmalloc(e - 4, false), t)
    ensures t == State([Block(l.lo, 4080, true), Block(l.lo + 4096, e, true)], l.lo + 4096 + e, l.lo + 4096)
  {
    MultipleOfFour(e);
    var b, f, u := Block(l.lo, 4080, true), Block(l.lo + 4096, e, false), Block(l.lo + 4096, e, true);
    assert AlignUp4(e - 4) == e - 4 && ExpandCount(e - 4) == e;
    assert Extended(s, e) == [b, f];
    assert Release([b, f], 1) == [b, f];
    assert Split([b, f], 1, e - 4) == [b, u];
    assert BestFit(s.chain, e - 4) < 0;
    assert BestFit([b, f], e - 4) == 1;
    t := State([b, u], l.lo + 4096 + e, l.lo + 4096);
  }

  /** On a layout that overhangs, that allocation ends past `heap_top`. */
  lemma OverhangRun(l: Layout) returns (states: seq<State>, ops: seq<Op>, b: Block)
    requires ValidLayout(l) && Overhangs(l)
    ensures EndsPastLimit(l, states, ops, b)
  {
    var d := l.limit - l.lo;
    var e := d - d % EXPAND_SIZE - EXPAND_SIZE;
    states, ops := FillRun(l, e);
    b := Block(l.lo + 4096, e, true);
    assert b in states[2].chain;
  }

  /** On every layout with room: the second expansion, for 4092 bytes, halts although
      `heap_top` is far away. */
  lemma ShortExpansionRun(l: Layout) returns (states: seq<State>, ops: seq<Op>)
    requires ValidLayout(l) && l.lo + 4 * EXPAND_SIZE <= l.limit
    ensures IsRun(l, states, ops) && |ops| == 2
    ensures Permitted(states[2], Kmalloc(4092, false)) && Step(states[2], l, Kmalloc(4092, false)).Panic?
    ensures states[2].top + ExpandCount(4092) < l.limit
  {
    states, ops := FillRun(l, EXPAND_SIZE);
    var s2 := states[2];
    RunInv(l, states, ops, 2);
    assert BestFit(s2.chain, AlignUp4(4092)) < 0;
    KmallocPanics(s2, l, 4092, false);
  }

  /** A request, in whole words, that only block `i` fits. */
  lemma FitFollows(l: Layout, s: State, i: nat, n: nat, stale: bool, t: State)
    requires i < |s.chain| && n % 4 == 0 && forall k :: 0 <= k < |s.chain| ==> (Fits(s.chain[k], n) <==> k == i)
    requires StaleFits(s.chain, i, n, stale) && Carve(s, i, n, stale).state == t
    ensures Follows(l, s, Kmalloc(n, stale), t)
  {
  }

  /** Two requests, for 100 and 3964 bytes, fill the heap. */
  lemma FilledRun(l: Layout) returns (states: seq<State>, ops: seq<Op>)
    requires ValidLayout(l)
    ensures IsRun(l, states, ops) && ops == [Kmalloc(100, false), Kmalloc(3964, false)]
    ensures states[2] == State([Block(l.lo, 100, true), Block(l.lo + 116, 3964, true)], l.lo + 4096, l.lo + 116)
  {
    var s0, top := Init(l), l.lo + 4096;
    var u, f, v := Block(l.lo, 100, true), Block(l.lo + 116, 3964, false), Block(l.lo + 116, 3964, true);
    var s1, s2 := State([u, f], top, l.lo + 116), State([u, v], top, l.lo + 116);
    FitFollows(l, s0, 0, 100, false, s1);
    ExtendRun(l, [s0], [], s0, Kmalloc(100, false), s1);
    FitFollows(l, s1, 1, 3964, false, s2);
    ExtendRun(l, [s0] + [s1], [] + [Kmalloc(100, false)], s1, Kmalloc(3964, false), s2);
    states, ops := [s0] + [s1] + [s2], [] + [Kmalloc(100, false)] + [Kmalloc(3964, false)];
  }

  /** kmalloc too leaves `heap_list_end_ptr` wrong: on every layout, 100 and 3964 bytes fill the
      heap, and freeing and asking for the 100 again is an exact fit of the last block but one. */
  lemma ExactFitRun(l: Layout) returns (states: seq<State>, ops: seq<Op>)
    requires ValidLayout(l)
    ensures IsRun(l, states, ops) && |ops| == 4
    ensures ops == [Kmalloc(100, false), Kmalloc(3964, false), Kfree(l.lo + 16), Kmalloc(100, true)]
    ensures states[4].chain == [Block(l.lo, 100, true), Block(l.lo + 116, 3964, true)] && states[4].endPtr == l.lo
  {
    states, ops := FilledRun(l);
    var u, v := Block(l.lo, 100, true), Block(l.lo + 116, 3964, true);
    var s2 := states[2];
    var s3, s4 := s2.(chain := [u.(used := false), v]), s2.(endPtr := l.lo);
    assert IndexOf(s2.chain, l.lo) == 0 && Release(s2.chain, 0) == s3.chain;
    ExtendRun(l, states, ops, s2, Kfree(l.lo + 16), s3);
    FitFollows(l, s3, 0, 100, true, s4);
    ExtendRun(l, states + [s3], ops + [Kfree(l.lo + 16)], s3, Kmalloc(100, true), s4);
    states, ops := states + [s3] + [s4], ops + [Kfree(l.lo + 16)] + [Kmalloc(100, true)];
  }

  lemma ExtendRun(l: Layout, states: seq<State>, ops: seq<Op>, s: State, op: Op, t: State)
    requires IsRun(l, states, ops) && states[|ops|] == s && Follows(l, s, op, t)
    ensures IsRun(l, states + [t], ops + [op])
  {
    var states', ops' := states + [t], ops + [op];
    forall k | 0 <= k < |ops'| ensures StepAt(l, states', ops', k) {
      if k < |ops| { assert StepAt(l, states, ops, k); }
    }
  }

  // ---------------------------------------------------------------- 32-bit sizes

  /** Whether `while (expand_count <= size)` ends when the count wraps at 2^32. */
  ghost predicate LoopEnds(n: nat) {
    exists k: nat :: n < ExpandCounter(k)
  }

  function ExpandCounter(k: nat): int {
    Wrap(k * EXPAND_SIZE)
  }

  lemma LoopEndsExactly(n: nat)
    ensures LoopEnds(n) <==> n < TWO32 - EXPAND_SIZE
  {
    var k := TWO32 / EXPAND_SIZE - 1;
    assert ExpandCounter(k) == TWO32 - EXPAND_SIZE;
    forall j: nat ensures ExpandCounter(j) <= TWO32 - EXPAND_SIZE {
      CounterMultiple(j);
    }
  }

  lemma CounterMultiple(k: nat)
    ensures ExpandCounter(k) <= TWO32 - EXPAND_SIZE
  {
    var q := k * EXPAND_SIZE / TWO32;
    var r := k - q * 0x10_0000;
    assert ExpandCounter(k) == r * EXPAND_SIZE;
    assert r < 0x10_0000;
  }

  /** A request that no block fits is handled as the steps say exactly when the new top stays below
      2^32. Otherwise the rounding wraps, or the loop never ends, or the wrapped top passes the
      check that should halt. */
  lemma WrapsExactly(s: State, l: Layout, size: nat)
    requires Inv(s, l) && size < TWO32
    ensures var n := AlignUp4(size);
            var e := ExpandCount(n);
            s.top + e < TWO32 <==>
              && Wrap(n) == n
              && LoopEnds(n)
              && (Wrap(s.top + e) >= l.limit <==> s.top + e >= l.limit)
  {
    LoopEndsExactly(AlignUp4(size));
  }

  /** For one: a gigabyte asked of the heap at its place in the kernel. */
  lemma GigabyteWraps()
    ensures var l := Layout(0xC012_0000, 0xC012_0000 + 102400);
            var n := 0x4000_0000;
            && ValidLayout(l) && KmallocStep(Init(l), l, n, false).Panic?
            && Wrap(Init(l).top + ExpandCount(n)) < l.limit
  {
  }

  // ---------------------------------------------------------------- check_kheap_integrity

  function ChainBytes(c: Chain): (total: int) {
    if c == [] then 0 else HEADER_SIZE + c[0].size + ChainBytes(c[1..])
  }

  lemma {:induction false} ChainBytesTiled(c: Chain, lo: int, hi: int)
    requires Tiled(c, lo, hi)
    ensures ChainBytes(c) == hi - lo
  {
    if c != [] { ChainBytesTiled(c[1..], c[0].End(), hi); }
  }

  /** The integrity check passes in exactly the reachable states that have not expanded. */
  lemma IntegrityCheck(s: State, l: Layout)
    requires Inv(s, l)
    ensures ChainBytes(s.chain) == s.top - l.lo <==> s.top == Init(l).top
  {
    ChainBytesTiled(s.chain, l.lo, ChainEnd(s.chain));
  }
}
