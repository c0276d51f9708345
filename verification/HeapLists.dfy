/** kernel/kheap.c with the array of FREE nodes as long as it is: `insert_list` refuses when the
    array is full and nobody looks at its result, so a FREE block can drop out of the list. */
module HeapLists {
  import opened HeapChain
  import opened HeapRuns
  import opened Machine

  /** The heap and the addresses in `free_node_list`. */
  datatype Heap = Heap(s: State, listed: set<int>)

  datatype Result = Ok(heap: Heap, ptr: int) | Stop

  /** `insert_list` into an array of `slots`, one of which stays empty. */
  function Inserted(listed: set<int>, a: int, slots: nat): (r: set<int>) {
    if |listed| + 1 < slots then listed + {a} else listed
  }

  /** What `heap_find_free_node` can see: a block that is not listed might as well be USED. */
  function Seen(c: Chain, listed: set<int>): (r: Chain)
    ensures |r| == |c|
    ensures forall i :: 0 <= i < |c| ==> r[i] == c[i].(used := c[i].used || c[i].addr !in listed)
  {
    seq(|c|, i requires 0 <= i < |c| => c[i].(used := c[i].used || c[i].addr !in listed))
  }

  /** Index of the block `heap_find_free_node` settles on, or -1. */
  function ListedFit(c: Chain, listed: set<int>, n: nat): (i: int)
    ensures -1 <= i < |c| && (i >= 0 ==> Fits(c[i], n) && c[i].addr in listed)
  {
    BestFit(Seen(c, listed), n)
  }

  function FitOf(h: Heap, n: nat): (i: int)
    ensures -1 <= i < |h.s.chain| && (i >= 0 ==> Fits(h.s.chain[i], n) && h.s.chain[i].addr in h.listed)
  {
    ListedFit(h.s.chain, h.listed, n)
  }

  /** The list after the removals of `heap_merge_nodes`. */
  function AfterMerges(c: Chain, i: nat, listed: set<int>): set<int>
    requires i < |c|
  {
    var node := c[i].addr;
    var l := if i + 1 < |c| && !c[i + 1].used then listed - {node, c[i + 1].addr} else listed;
    if i > 0 && !c[i - 1].used then l - {node, c[i - 1].addr} else l
  }

  /** And after its insertion. */
  function Relisted(c: Chain, i: nat, listed: set<int>, slots: nat): set<int>
    requires i < |c|
  {
    Inserted(AfterMerges(c, i, listed), c[FuseFrom(c, i)].addr, slots)
  }

  function KfreeListed(h: Heap, slots: nat, ptr: int): (r: Heap)
    requires ptr == 0 || IndexOf(h.s.chain, ptr - HEADER_SIZE) >= 0
  {
    if ptr == 0 then h
    else Heap(KfreeStep(h.s, ptr), Relisted(h.s.chain, IndexOf(h.s.chain, ptr - HEADER_SIZE), h.listed, slots))
  }

  /** The list after `heap_split_node` takes `n` bytes of block `i`. */
  function SplitListed(c: Chain, i: nat, n: nat, listed: set<int>, slots: nat): set<int>
    requires i < |c|
  {
    var rest := listed - {c[i].addr};
    if c[i].size - n <= SPLIT_THRESHOLD then rest else Inserted(rest, c[i].addr + HEADER_SIZE + n, slots)
  }

  function CarveListed(h: Heap, i: nat, n: nat, stale: bool, slots: nat): (r: Result)
    requires i < |h.s.chain| && Fits(h.s.chain[i], n)
  {
    var r := Carve(h.s, i, n, stale);
    Ok(Heap(r.state, SplitListed(h.s.chain, i, n, h.listed, slots)), r.ptr)
  }

  function GrowListed(h: Heap, amount: int, slots: nat): (r: Heap)
    requires h.s.chain != []
  {
    var first := Inserted(h.listed, ChainEnd(h.s.chain), slots);
    Heap(Grow(h.s, amount), Relisted(Extended(h.s, amount), |h.s.chain|, first, slots))
  }

  function KmallocListed(h: Heap, l: Layout, slots: nat, size: nat, stale: bool): (r: Result)
    requires h.s.chain != []
  {
    var n := AlignUp4(size);
    var i := FitOf(h, n);
    if i >= 0 then CarveListed(h, i, n, stale, slots)
    else
      var g := GrowListed(h, ExpandCount(n), slots);
      var j := FitOf(g, n);
      if g.s.top >= l.limit || j < 0 then Stop else CarveListed(g, j, n, stale, slots)
  }

  /** The two ways kmalloc comes to a block. */
  lemma FitThenCarve(h: Heap, l: Layout, slots: nat, size: nat, stale: bool, t: Heap, ptr: int)
    requires h.s.chain != [] && FitOf(h, AlignUp4(size)) >= 0
    requires CarveListed(h, FitOf(h, AlignUp4(size)), AlignUp4(size), stale, slots) == Ok(t, ptr)
    ensures KmallocListed(h, l, slots, size, stale) == Ok(t, ptr)
  {
  }

  lemma GrowThenCarve(h: Heap, l: Layout, slots: nat, size: nat, stale: bool, g: Heap, t: Heap, ptr: int)
    requires h.s.chain != [] && FitOf(h, AlignUp4(size)) < 0
    requires g == GrowListed(h, ExpandCount(AlignUp4(size)), slots) && g.s.top < l.limit
    requires FitOf(g, AlignUp4(size)) >= 0
    requires CarveListed(g, FitOf(g, AlignUp4(size)), AlignUp4(size), stale, slots) == Ok(t, ptr)
    ensures KmallocListed(h, l, slots, size, stale) == Ok(t, ptr)
  {
  }

  lemma GrowThenStop(h: Heap, l: Layout, slots: nat, size: nat, stale: bool)
    requires h.s.chain != [] && FitOf(h, AlignUp4(size)) < 0
    requires h.s.top + ExpandCount(AlignUp4(size)) >= l.limit
          || FitOf(GrowListed(h, ExpandCount(AlignUp4(size)), slots), AlignUp4(size)) < 0
    ensures KmallocListed(h, l, slots, size, stale).Stop?
  {
  }

  lemma CarveWholeIs(h: Heap, i: nat, n: nat, stale: bool, slots: nat, t: Heap)
    requires i < |h.s.chain| && Fits(h.s.chain[i], n) && h.s.chain[i].size - n <= SPLIT_THRESHOLD
    requires t.s.chain == Split(h.s.chain, i, n) && t.s.top == h.s.top
    requires t.s.endPtr == if i == |h.s.chain| - 1 || stale then h.s.chain[i].addr else h.s.endPtr
    requires t.listed == h.listed - {h.s.chain[i].addr}
    ensures t == CarveListed(h, i, n, stale, slots).heap
  {
  }

  lemma CarvePartIs(h: Heap, i: nat, n: nat, stale: bool, slots: nat, t: Heap)
    requires i < |h.s.chain| && Fits(h.s.chain[i], n) && h.s.chain[i].size - n > SPLIT_THRESHOLD
    requires t.s.chain == Split(h.s.chain, i, n) && t.s.top == h.s.top
    requires t.s.endPtr == if i == |h.s.chain| - 1 then h.s.chain[i].addr + HEADER_SIZE + n else h.s.endPtr
    requires t.listed == Inserted(h.listed - {h.s.chain[i].addr}, h.s.chain[i].addr + HEADER_SIZE + n, slots)
    ensures t == CarveListed(h, i, n, stale, slots).heap
  {
  }

  lemma GrowIs(h: Heap, amount: int, slots: nat, t: Heap)
    requires h.s.chain != []
    requires t.s.chain == Release(Extended(h.s, amount), |h.s.chain|) && t.s.top == h.s.top + amount
    requires t.s.endPtr == ChainEnd(h.s.chain)
    requires t.listed ==
             Relisted(Extended(h.s, amount), |h.s.chain|, Inserted(h.listed, ChainEnd(h.s.chain), slots), slots)
    ensures t == GrowListed(h, amount, slots)
  {
  }

  function InitListed(l: Layout, slots: nat): Heap {
    Heap(Init(l), Inserted({}, l.lo, slots))
  }

  // ---------------------------------------------------------------- what every step keeps

  ghost predicate ShortEnough(listed: set<int>, slots: nat) {
    listed == {} || |listed| < slots
  }

  /** The heap is in order, and whatever the list holds is FREE. */
  ghost predicate Sound(h: Heap, l: Layout, slots: nat) {
    Inv(h.s, l) && h.listed <= FreeAddrs(h.s.chain) && ShortEnough(h.listed, slots)
  }

  ghost predicate Complete(h: Heap) {
    h.listed == FreeAddrs(h.s.chain)
  }

  lemma SubsetSize(a: set<int>, b: set<int>)
    requires a <= b
    ensures |a| <= |b|
  {
    assert b == a + (b - a);
  }

  lemma ShorterList(a: set<int>, b: set<int>, slots: nat)
    requires a <= b && ShortEnough(b, slots)
    ensures ShortEnough(a, slots)
  {
    SubsetSize(a, b);
  }

  lemma InsertedShort(listed: set<int>, a: int, slots: nat)
    requires ShortEnough(listed, slots)
    ensures ShortEnough(Inserted(listed, a, slots), slots)
  {
  }

  /** The removals and the insertion of `heap_merge_nodes`, on a list that may miss `node`. */
  lemma MergesComplete(c: Chain, lo: int, hi: int, i: nat, listed: set<int>)
    requires Tiled(c, lo, hi) && i < |c| && listed - {c[i].addr} == FreeAddrs(c) - {c[i].addr}
    ensures AfterMerges(c, i, listed) + {c[FuseFrom(c, i)].addr} == FreeAddrs(Release(c, i))
  {
    ReleaseFree(c, lo, hi, i);
    var node := c[i].addr;
    forall x ensures x in AfterMerges(c, i, listed) + {c[FuseFrom(c, i)].addr} <==> x in FreeAddrs(Release(c, i)) {
      assert x in listed - {node} <==> x in FreeAddrs(c) - {node};
    }
  }

  lemma RelistedSound(c: Chain, lo: int, hi: int, i: nat, listed: set<int>, slots: nat)
    requires Tiled(c, lo, hi) && i < |c| && listed - {c[i].addr} <= FreeAddrs(c) && ShortEnough(listed, slots)
    ensures Relisted(c, i, listed, slots) <= FreeAddrs(Release(c, i))
    ensures ShortEnough(Relisted(c, i, listed, slots), slots)
  {
    var all := FreeAddrs(c) + {c[i].addr};
    MergesComplete(c, lo, hi, i, all);
    ShorterList(AfterMerges(c, i, listed), listed, slots);
    InsertedShort(AfterMerges(c, i, listed), c[FuseFrom(c, i)].addr, slots);
    assert AfterMerges(c, i, listed) <= AfterMerges(c, i, all);
  }

  lemma KfreeSound(h: Heap, l: Layout, slots: nat, ptr: int)
    requires Sound(h, l, slots) && ptr != 0 && IndexOf(h.s.chain, ptr - HEADER_SIZE) >= 0
    ensures Sound(KfreeListed(h, slots, ptr), l, slots)
  {
    var i := IndexOf(h.s.chain, ptr - HEADER_SIZE);
    ReleaseInv(h.s, l, i);
    RelistedSound(h.s.chain, l.lo, ChainEnd(h.s.chain), i, h.listed, slots);
  }

  /** The split takes a node off the list first, so its insertion always finds a slot. */
  lemma SplitInserts(c: Chain, i: nat, n: nat, listed: set<int>, slots: nat)
    requires i < |c| && c[i].addr in listed && ShortEnough(listed, slots)
    ensures SplitListed(c, i, n, listed, slots) ==
            listed - {c[i].addr} + if c[i].size - n <= SPLIT_THRESHOLD then {} else {c[i].addr + HEADER_SIZE + n}
    ensures ShortEnough(SplitListed(c, i, n, listed, slots), slots)
  {
    var rest := listed - {c[i].addr};
    assert |rest| + 1 == |listed|;
    ShorterList(rest, listed, slots);
    InsertedShort(rest, c[i].addr + HEADER_SIZE + n, slots);
  }

  lemma SplitLists(c: Chain, lo: int, hi: int, i: nat, n: nat, listed: set<int>, slots: nat)
    requires Tiled(c, lo, hi) && i < |c| && Fits(c[i], n) && c[i].addr in listed
    requires listed <= FreeAddrs(c) && ShortEnough(listed, slots)
    ensures var r := SplitListed(c, i, n, listed, slots);
            && r <= FreeAddrs(Split(c, i, n)) && ShortEnough(r, slots)
            && (listed == FreeAddrs(c) ==> r == FreeAddrs(Split(c, i, n)))
  {
    SplitFree(c, lo, hi, i, n);
    SplitInserts(c, i, n, listed, slots);
  }

  lemma CarveSound(h: Heap, l: Layout, slots: nat, i: nat, n: nat, stale: bool)
    requires Sound(h, l, slots) && i < |h.s.chain| && Fits(h.s.chain[i], n) && n % 4 == 0
    requires h.s.chain[i].addr in h.listed
    ensures Sound(CarveListed(h, i, n, stale, slots).heap, l, slots)
  {
    CarveInv(h.s, l, i, n, stale);
    SplitLists(h.s.chain, l.lo, ChainEnd(h.s.chain), i, n, h.listed, slots);
  }

  lemma GrowSound(h: Heap, l: Layout, slots: nat, amount: nat)
    requires Sound(h, l, slots) && amount >= EXPAND_SIZE && amount % EXPAND_SIZE == 0
    requires h.s.top + amount < l.limit
    ensures Sound(GrowListed(h, amount, slots), l, slots)
  {
    var e, m, end := Extended(h.s, amount), |h.s.chain|, ChainEnd(h.s.chain);
    GrowInv(h.s, l, amount);
    GrowFacts(h.s, l, amount, e);
    InsertedShort(h.listed, end, slots);
    RelistedSound(e, l.lo, h.s.top + amount + HEADER_SIZE, m, Inserted(h.listed, end, slots), slots);
  }

  lemma KmallocSound(h: Heap, l: Layout, slots: nat, size: nat, stale: bool)
    requires Sound(h, l, slots) && KmallocListed(h, l, slots, size, stale).Ok?
    ensures Sound(KmallocListed(h, l, slots, size, stale).heap, l, slots)
  {
    var n := AlignUp4(size);
    var i := FitOf(h, n);
    if i >= 0 {
      CarveSound(h, l, slots, i, n, stale);
    } else {
      KmallocGrownSound(h, l, slots, n, stale);
    }
  }

  lemma KmallocGrownSound(h: Heap, l: Layout, slots: nat, n: nat, stale: bool)
    requires Sound(h, l, slots) && n % 4 == 0 && h.s.top + ExpandCount(n) < l.limit
    requires var g := GrowListed(h, ExpandCount(n), slots); FitOf(g, n) >= 0
    ensures var g := GrowListed(h, ExpandCount(n), slots);
            Sound(CarveListed(g, FitOf(g, n), n, stale, slots).heap, l, slots)
  {
    var g := GrowListed(h, ExpandCount(n), slots);
    GrowSound(h, l, slots, ExpandCount(n));
    CarveSound(g, l, slots, FitOf(g, n), n, stale);
  }

  // ---------------------------------------------------------------- when the list stays complete

  /** An insertion that should complete the list does so exactly when the FREE blocks leave a
      slot empty; otherwise the list misses exactly the node it should have taken. */
  lemma InsertCompletes(listed: set<int>, a: int, all: set<int>, slots: nat)
    requires listed + {a} == all && ShortEnough(listed, slots)
    ensures Inserted(listed, a, slots) == all <==> |all| < slots
    ensures |all| >= slots ==> Inserted(listed, a, slots) == all - {a}
  {
    if a in listed {
      assert listed == all;
    } else {
      assert |all| == |listed| + 1;
      assert all - {a} == listed;
    }
  }

  /** After a kfree the list is complete exactly when the array is longer than the number of FREE
      blocks; otherwise it misses exactly the block that was freed. */
  lemma KfreeCompletes(h: Heap, l: Layout, slots: nat, ptr: int)
    requires Sound(h, l, slots) && Complete(h) && ptr != 0 && IndexOf(h.s.chain, ptr - HEADER_SIZE) >= 0
    ensures var c, r := h.s.chain, KfreeListed(h, slots, ptr);
            var merged := c[FuseFrom(c, IndexOf(c, ptr - HEADER_SIZE))].addr;
            && (Complete(r) <==> |FreeAddrs(r.s.chain)| < slots)
            && (!Complete(r) ==> r.listed == FreeAddrs(r.s.chain) - {merged})
  {
    var c := h.s.chain;
    var i := IndexOf(c, ptr - HEADER_SIZE);
    MergesComplete(c, l.lo, ChainEnd(c), i, h.listed);
    ShorterList(AfterMerges(c, i, h.listed), h.listed, slots);
    InsertCompletes(AfterMerges(c, i, h.listed), c[FuseFrom(c, i)].addr, FreeAddrs(Release(c, i)), slots);
  }

  /** The same for an expansion, whose first insertion may be refused without harm. */
  lemma GrowCompletes(h: Heap, l: Layout, slots: nat, amount: nat)
    requires Sound(h, l, slots) && Complete(h) && amount >= EXPAND_SIZE && amount % EXPAND_SIZE == 0
    ensures var g := GrowListed(h, amount, slots);
            var last := g.s.chain[|g.s.chain| - 1].addr;
            && (Complete(g) <==> |FreeAddrs(g.s.chain)| < slots)
            && (!Complete(g) ==> g.listed == FreeAddrs(g.s.chain) - {last})
  {
    var e, m, end := Extended(h.s, amount), |h.s.chain|, ChainEnd(h.s.chain);
    GrowFacts(h.s, l, amount, e);
    TiledBound(h.s.chain, l.lo, end);
    AddrRange(h.s.chain, l.lo, end);
    var first := Inserted(h.listed, end, slots);
    InsertedShort(h.listed, end, slots);
    assert first - {end} == FreeAddrs(e) - {end};
    MergesComplete(e, l.lo, h.s.top + amount + HEADER_SIZE, m, first);
    ShorterList(AfterMerges(e, m, first), first, slots);
    InsertCompletes(AfterMerges(e, m, first), e[FuseFrom(e, m)].addr, FreeAddrs(Release(e, m)), slots);
    var g := GrowListed(h, amount, slots);
    assert g.s.chain == e[..FuseFrom(e, m)] + [Fused(e, m)];
  }

  /** The heap with every FREE block listed. */
  ghost function Whole(s: State): Heap {
    Heap(s, FreeAddrs(s.chain))
  }

  lemma SeenComplete(c: Chain, lo: int, hi: int)
    requires Tiled(c, lo, hi)
    ensures Seen(c, FreeAddrs(c)) == c
  {
    forall i | 0 <= i < |c| ensures Seen(c, FreeAddrs(c))[i] == c[i] {
      assert c[i] in c;
    }
  }

  lemma CarveCompletes(h: Heap, lo: int, hi: int, slots: nat, i: nat, n: nat, stale: bool)
    requires Tiled(h.s.chain, lo, hi) && Complete(h) && ShortEnough(h.listed, slots)
    requires i < |h.s.chain| && Fits(h.s.chain[i], n)
    ensures var r := Carve(h.s, i, n, stale);
            CarveListed(h, i, n, stale, slots) == Ok(Whole(r.state), r.ptr)
  {
    assert h.s.chain[i] in h.s.chain;
    SplitLists(h.s.chain, lo, hi, i, n, h.listed, slots);
  }

  /** From a complete list kmalloc does what the step says, and keeps the list complete, unless it
      must expand and the array has no slot for the new block: then it halts. */
  lemma KmallocCompletes(h: Heap, l: Layout, slots: nat, size: nat, stale: bool)
    requires Sound(h, l, slots) && Complete(h)
    ensures var full := NoSlot(h.s, AlignUp4(size), slots);
            KmallocListed(h, l, slots, size, stale) ==
              match KmallocStep(h.s, l, size, stale)
              case Panic => Stop
              case Done(t, ptr) => if full then Stop else Ok(Whole(t), ptr)
  {
    var n := AlignUp4(size);
    var c := h.s.chain;
    SeenCarve(h.s, l.lo, ChainEnd(c), slots, n, stale);
    if BestFit(c, n) < 0 {
      if NoSlot(h.s, n, slots) {
        GrownUnseen(h, l, slots, n);
      } else {
        GrownComplete(h, l, slots, n);
        GrownSeen(h.s, l, slots, n, stale);
      }
    }
  }

  /** The request must expand, and the FREE blocks would then be too many for the array. */
  ghost predicate NoSlot(s: State, n: nat, slots: nat)
    requires s.chain != []
  {
    BestFit(s.chain, n) < 0 && |FreeAddrs(Grow(s, ExpandCount(n)).chain)| >= slots
  }

  lemma GrownUnseen(h: Heap, l: Layout, slots: nat, n: nat)
    requires Sound(h, l, slots) && Complete(h) && n % 4 == 0 && NoSlot(h.s, n, slots)
    ensures var g := GrowListed(h, ExpandCount(n), slots);
            FitOf(g, n) < 0
  {
    GrowCompletes(h, l, slots, ExpandCount(n));
    GrownFit(h.s, l, n);
  }

  lemma GrownComplete(h: Heap, l: Layout, slots: nat, n: nat)
    requires Sound(h, l, slots) && Complete(h) && n % 4 == 0
    requires BestFit(h.s.chain, n) < 0 && !NoSlot(h.s, n, slots)
    ensures var g := Grow(h.s, ExpandCount(n)); GrowListed(h, ExpandCount(n), slots) == Whole(g)
  {
    GrowCompletes(h, l, slots, ExpandCount(n));
  }

  lemma SeenCarve(s: State, lo: int, hi: int, slots: nat, n: nat, stale: bool)
    requires Tiled(s.chain, lo, hi) && ShortEnough(FreeAddrs(s.chain), slots)
    ensures var j := BestFit(s.chain, n);
            && ListedFit(s.chain, FreeAddrs(s.chain), n) == j
            && (j >= 0 ==> var r := Carve(s, j, n, stale);
                CarveListed(Whole(s), j, n, stale, slots)
                == Ok(Whole(r.state), r.ptr))
  {
    SeenComplete(s.chain, lo, hi);
    var j := BestFit(s.chain, n);
    if j >= 0 { CarveCompletes(Whole(s), lo, hi, slots, j, n, stale); }
  }

  lemma GrownSeen(s: State, l: Layout, slots: nat, n: nat, stale: bool)
    requires Inv(s, l) && n % 4 == 0 && BestFit(s.chain, n) < 0 && !NoSlot(s, n, slots)
    ensures var g := Grow(s, ExpandCount(n));
            var j := BestFit(g.chain, n);
            && ListedFit(g.chain, FreeAddrs(g.chain), n) == j
            && (j >= 0 ==> var r := Carve(g, j, n, stale);
                CarveListed(Whole(g), j, n, stale, slots)
                == Ok(Whole(r.state), r.ptr))
  {
    GrowInv(s, l, ExpandCount(n));
    SeenCarve(Grow(s, ExpandCount(n)), l.lo, s.top + ExpandCount(n) + HEADER_SIZE, slots, n, stale);
  }

  // ---------------------------------------------------------------- live allocations

  /** Complete list or not, a kmalloc adds one live allocation and leaves the others alone. */
  lemma ListedKmallocUsed(h: Heap, l: Layout, slots: nat, size: nat, stale: bool)
    requires Sound(h, l, slots) && KmallocListed(h, l, slots, size, stale).Ok?
    ensures var r := KmallocListed(h, l, slots, size, stale);
            exists b: Block :: IsAllocation(h.s, Done(r.heap.s, r.ptr), size, b)
  {
    var n := AlignUp4(size);
    var r := KmallocListed(h, l, slots, size, stale);
    var i := FitOf(h, n);
    if i >= 0 {
      CarveAllocates(h.s, l.lo, ChainEnd(h.s.chain), i, size, stale);
      assert IsAllocation(h.s, Done(r.heap.s, r.ptr), size, SplitParts(h.s.chain[i], n)[0]);
    } else {
      var g := GrowListed(h, ExpandCount(n), slots);
      var j := FitOf(g, n);
      GrownAllocates(h.s, l, j, size, stale);
      assert IsAllocation(h.s, Done(r.heap.s, r.ptr), size, SplitParts(g.s.chain[j], n)[0]);
    }
  }

  lemma GrownAllocates(s: State, l: Layout, j: nat, size: nat, stale: bool)
    requires Inv(s, l)
    requires var g := Grow(s, ExpandCount(AlignUp4(size))); j < |g.chain| && Fits(g.chain[j], AlignUp4(size))
    ensures var n := AlignUp4(size);
            var g := Grow(s, ExpandCount(n));
            IsAllocation(s, Carve(g, j, n, stale), size, SplitParts(g.chain[j], n)[0])
  {
    var a := ExpandCount(AlignUp4(size));
    GrowUsed(s, l, a);
    GrowInv(s, l, a);
    CarveAllocates(Grow(s, a), l.lo, s.top + a + HEADER_SIZE, j, size, stale);
  }

  lemma CarveAllocates(s: State, lo: int, hi: int, i: nat, size: nat, stale: bool)
    requires Tiled(s.chain, lo, hi) && i < |s.chain| && Fits(s.chain[i], AlignUp4(size))
    ensures var n := AlignUp4(size);
            IsAllocation(s, Carve(s, i, n, stale), size, SplitParts(s.chain[i], n)[0])
  {
    CarveUsed(s.chain, lo, hi, i, AlignUp4(size));
  }

  // ---------------------------------------------------------------- runs

  /** Whatever the list misses, the blocks before the last of a grown heap are those before, and listed
      only if they were. */
  lemma GrownBlocks(h: Heap, l: Layout, slots: nat, amount: nat, j: nat)
    requires Sound(h, l, slots) && amount >= EXPAND_SIZE && amount % EXPAND_SIZE == 0
    requires j + 1 < |Grow(h.s, amount).chain|
    ensures j < |h.s.chain| && Grow(h.s, amount).chain[j] == h.s.chain[j]
    ensures h.s.chain[j].addr in GrowListed(h, amount, slots).listed ==> h.s.chain[j].addr in h.listed
  {
    var e, m, hi := Extended(h.s, amount), |h.s.chain|, h.s.top + amount + HEADER_SIZE;
    var f := FuseFrom(e, m);
    assert Grow(h.s, amount).chain == e[..f] + [Fused(e, m)];
    assert e[j] == h.s.chain[j];
    ExtendedTiled(h.s, l, amount);
    TiledAt(e, l.lo, hi, j);
    TiledOrder(e, l.lo, hi, j, m);
    TiledOrder(e, l.lo, hi, j, f);
    GrownListed(h, amount, slots, h.s.chain[j].addr);
  }

  lemma GrownListed(h: Heap, amount: nat, slots: nat, a: int)
    requires h.s.chain != []
    requires var e, m := Extended(h.s, amount), |h.s.chain|; a != e[m].addr && a != e[FuseFrom(e, m)].addr
    ensures a in GrowListed(h, amount, slots).listed ==> a in h.listed
  {
  }

  /** So the one that fits is the last. */
  lemma GrownFitIsLast(h: Heap, l: Layout, slots: nat, n: nat)
    requires Sound(h, l, slots) && FitOf(h, n) < 0
    ensures var g := GrowListed(h, ExpandCount(n), slots); FitOf(g, n) < 0 || FitOf(g, n) == |g.s.chain| - 1
  {
    var g := GrowListed(h, ExpandCount(n), slots);
    forall j | 0 <= j < |g.s.chain| - 1 ensures !(Fits(g.s.chain[j], n) && g.s.chain[j].addr in g.listed) {
      GrownBlocks(h, l, slots, ExpandCount(n), j);
      assert !Fits(Seen(h.s.chain, h.listed)[j], n);
    }
  }

  /** A kmalloc that expands and returns takes the last block, whatever the list misses, and leaves
      `heap_list_end_ptr` on the last header. */
  lemma ListedExpands(h: Heap, l: Layout, slots: nat, size: nat, stale: bool, r: Heap, ptr: int)
    requires Sound(h, l, slots) && FitOf(h, AlignUp4(size)) < 0
    requires KmallocListed(h, l, slots, size, stale) == Ok(r, ptr)
    ensures r.s.chain != [] && EndExact(r.s) && r.s.top == h.s.top + ExpandCount(AlignUp4(size))
    ensures ChainEnd(r.s.chain) == r.s.top + HEADER_SIZE
    ensures var g := Grow(h.s, ExpandCount(AlignUp4(size))); ptr == g.chain[|g.chain| - 1].addr + HEADER_SIZE
  {
    var n := AlignUp4(size);
    var g := Grow(h.s, ExpandCount(n));
    GrownCarve(h, l, slots, size, stale, r, ptr, n, g);
    GrowCarvesLast(h.s, l, n, stale, g, r.s, ptr);
  }

  lemma GrownCarve(h: Heap, l: Layout, slots: nat, size: nat, stale: bool, r: Heap, ptr: int, n: nat, g: State)
    requires Sound(h, l, slots) && n == AlignUp4(size) && FitOf(h, n) < 0 && g == Grow(h.s, ExpandCount(n))
    requires KmallocListed(h, l, slots, size, stale) == Ok(r, ptr)
    ensures g.top < l.limit && g.chain != [] && Fits(g.chain[|g.chain| - 1], n)
    ensures Done(r.s, ptr) == Carve(g, |g.chain| - 1, n, stale)
  {
    GrownFitIsLast(h, l, slots, n);
  }

  lemma GrowCarvesLast(s: State, l: Layout, n: nat, stale: bool, g: State, t: State, ptr: int)
    requires Inv(s, l) && n % 4 == 0 && g == Grow(s, ExpandCount(n)) && g.top < l.limit
    requires g.chain != [] && Fits(g.chain[|g.chain| - 1], n) && Done(t, ptr) == Carve(g, |g.chain| - 1, n, stale)
    ensures t.top == s.top + ExpandCount(n) && ptr == g.chain[|g.chain| - 1].addr + HEADER_SIZE
    ensures t.chain != [] && ChainEnd(t.chain) == t.top + HEADER_SIZE && EndExact(t)
  {
    GrowInv(s, l, ExpandCount(n));
    CarveInv(g, l, |g.chain| - 1, n, stale);
  }

  /** As for complete lists, but a request expands when no listed block fits. */
  ghost predicate ListedPermitted(h: Heap, op: Op) {
    && h.s.chain != []
    && (op.Kmalloc? ==>
          var n := AlignUp4(op.size);
          var i := FitOf(h, n);
          if i < 0 then EndExact(h.s) && h.s.top + ExpandCount(n) < TWO32
          else StaleFits(h.s.chain, i, n, op.stale))
    && (op.Kfree? ==> op.ptr == 0 || IndexOf(h.s.chain, op.ptr - HEADER_SIZE) >= 0)
  }

  lemma PermittedAgree(s: State, lo: int, hi: int, op: Op)
    requires Tiled(s.chain, lo, hi)
    ensures Permitted(s, op) <==> ListedPermitted(Whole(s), op)
  {
    SeenComplete(s.chain, lo, hi);
  }

  ghost predicate ListedFollows(l: Layout, slots: nat, h: Heap, op: Op, r: Heap) {
    && ListedPermitted(h, op)
    && match op
       case Kmalloc(size, stale) =>
         KmallocListed(h, l, slots, size, stale).Ok? && KmallocListed(h, l, slots, size, stale).heap == r
       case Kfree(ptr) => KfreeListed(h, slots, ptr) == r
  }

  ghost predicate ListedStepAt(l: Layout, slots: nat, heaps: seq<Heap>, ops: seq<Op>, k: nat)
    requires k < |ops| && |heaps| == |ops| + 1
  {
    ListedFollows(l, slots, heaps[k], ops[k], heaps[k + 1])
  }

  /** A run of kmalloc and kfree calls with an array of `slots` for the list. */
  ghost predicate IsListedRun(l: Layout, slots: nat, heaps: seq<Heap>, ops: seq<Op>) {
    && ValidLayout(l)
    && |heaps| == |ops| + 1
    && heaps[0] == InitListed(l, slots)
    && forall k {:trigger ListedStepAt(l, slots, heaps, ops, k)} ::
         0 <= k < |ops| ==> ListedStepAt(l, slots, heaps, ops, k)
  }

  lemma ExtendListed(l: Layout, slots: nat, heaps: seq<Heap>, ops: seq<Op>, op: Op, r: Heap)
    requires IsListedRun(l, slots, heaps, ops) && ListedFollows(l, slots, heaps[|ops|], op, r)
    ensures IsListedRun(l, slots, heaps + [r], ops + [op])
  {
    var heaps', ops' := heaps + [r], ops + [op];
    forall k | 0 <= k < |ops'| ensures ListedStepAt(l, slots, heaps', ops', k) {
      if k < |ops| { assert ListedStepAt(l, slots, heaps, ops, k); }
    }
  }

  lemma ExtendBy(l: Layout, slots: nat, heaps: seq<Heap>, ops: seq<Op>, h: Heap, op: Op, r: Heap)
    requires IsListedRun(l, slots, heaps, ops) && heaps[|ops|] == h && ListedFollows(l, slots, h, op, r)
    ensures IsListedRun(l, slots, heaps + [r], ops + [op])
  {
    ExtendListed(l, slots, heaps, ops, op, r);
  }

  lemma InitSound(l: Layout, slots: nat)
    requires ValidLayout(l)
    ensures Sound(InitListed(l, slots), l, slots) && FreeAddrs(Init(l).chain) == {l.lo}
    ensures Complete(InitListed(l, slots)) <==> slots > 1
  {
    InitInv(l);
    InsertedShort({}, l.lo, slots);
    var b := Init(l).chain[0];
    assert b in Init(l).chain;
    assert FreeAddrs(Init(l).chain) == {l.lo};
    assert l.lo !in {};
  }

  /** Whatever the length of the array, in every run the blocks tile the heap, no two neighbours
      are both FREE and the list holds FREE blocks only. */
  lemma {:induction false} ListedRunSound(l: Layout, slots: nat, heaps: seq<Heap>, ops: seq<Op>, k: nat)
    requires IsListedRun(l, slots, heaps, ops) && k <= |ops|
    ensures Sound(heaps[k], l, slots)
  {
    if k == 0 {
      InitSound(l, slots);
    } else {
      ListedRunSound(l, slots, heaps, ops, k - 1);
      assert ListedStepAt(l, slots, heaps, ops, k - 1);
      ListedStepSound(heaps[k - 1], l, slots, ops[k - 1], heaps[k]);
    }
  }

  lemma ListedStepSound(h: Heap, l: Layout, slots: nat, op: Op, r: Heap)
    requires Sound(h, l, slots) && ListedFollows(l, slots, h, op, r)
    ensures Sound(r, l, slots)
  {
    match op
    case Kmalloc(size, stale) => KmallocSound(h, l, slots, size, stale);
    case Kfree(ptr) => if ptr != 0 { KfreeSound(h, l, slots, ptr); }
  }

  lemma ListedStepKeepsLive(h: Heap, l: Layout, slots: nat, op: Op, r: Heap, b: Block)
    requires Sound(h, l, slots) && ListedFollows(l, slots, h, op, r)
    requires b in UsedBlocks(h.s.chain) && !Frees(op, b)
    ensures b in UsedBlocks(r.s.chain)
  {
    match op
    case Kmalloc(size, stale) => ListedKmallocUsed(h, l, slots, size, stale);
    case Kfree(ptr) => if ptr != 0 { KfreeKeepsLive(h.s, l, ptr, b); }
  }

  lemma KfreeKeepsLive(s: State, l: Layout, ptr: int, b: Block)
    requires Inv(s, l) && ptr != 0 && IndexOf(s.chain, ptr - HEADER_SIZE) >= 0
    requires b in UsedBlocks(s.chain) && b.addr + HEADER_SIZE != ptr
    ensures b in UsedBlocks(KfreeStep(s, ptr).chain)
  {
    ReleaseUsed(s.chain, l.lo, ChainEnd(s.chain), IndexOf(s.chain, ptr - HEADER_SIZE));
  }

  /** And a live allocation keeps its address and size until it is freed. */
  lemma {:induction false} ListedRunKeepsLive(l: Layout, slots: nat, heaps: seq<Heap>, ops: seq<Op>,
                                              i: nat, j: nat, b: Block)
    requires IsListedRun(l, slots, heaps, ops) && i <= j <= |ops|
    requires b in UsedBlocks(heaps[i].s.chain)
    requires forall k :: i <= k < j ==> !Frees(ops[k], b)
    ensures b in UsedBlocks(heaps[j].s.chain)
    decreases j
  {
    if i < j {
      ListedRunKeepsLive(l, slots, heaps, ops, i, j - 1, b);
      ListedKeepsAt(l, slots, heaps, ops, j - 1, b);
    }
  }

  lemma ListedKeepsAt(l: Layout, slots: nat, heaps: seq<Heap>, ops: seq<Op>, k: nat, b: Block)
    requires IsListedRun(l, slots, heaps, ops) && k < |ops|
    requires b in UsedBlocks(heaps[k].s.chain) && !Frees(ops[k], b)
    ensures b in UsedBlocks(heaps[k + 1].s.chain)
  {
    ListedRunSound(l, slots, heaps, ops, k);
    assert ListedStepAt(l, slots, heaps, ops, k);
    ListedStepKeepsLive(heaps[k], l, slots, ops[k], heaps[k + 1], b);
  }

  // ---------------------------------------------------------------- round trip and draining

  lemma NewNodeUnlisted(c: Chain, lo: int, hi: int, i: nat, n: nat)
    requires Tiled(c, lo, hi) && i < |c| && !c[i].used && n + HEADER_SIZE < c[i].size + HEADER_SIZE
    ensures c[i].addr + HEADER_SIZE + n !in FreeAddrs(c)
  {
    TiledOrderAll(c, lo, hi);
  }

  /** Freeing what was just carved gives the list back too. */
  lemma CarveUnlisted(c: Chain, lo: int, hi: int, i: nat, n: nat, listed: set<int>, slots: nat)
    requires Tiled(c, lo, hi) && Coalesced(c) && i < |c| && Fits(c[i], n) && c[i].addr in listed
    requires listed <= FreeAddrs(c) && ShortEnough(listed, slots)
    ensures Relisted(Split(c, i, n), i, SplitListed(c, i, n, listed, slots), slots) == listed
  {
    var d, a := Split(c, i, n), c[i].addr;
    SplitInserts(c, i, n, listed, slots);
    if i > 0 { assert Separated(c, i - 1) && d[i - 1] == c[i - 1]; }
    var rest := listed - {a};
    assert |rest| + 1 == |listed|;
    if c[i].size - n <= SPLIT_THRESHOLD {
      if i + 1 < |c| { assert Separated(c, i) && d[i + 1] == c[i + 1]; }
    } else {
      NewNodeUnlisted(c, lo, hi, i, n);
      assert d[i + 1] == SplitParts(c[i], n)[1];
    }
    assert AfterMerges(d, i, SplitListed(c, i, n, listed, slots)) == rest;
    assert rest + {a} == listed;
  }

  /** kfree undoes a kmalloc that did not expand, the list included. */
  lemma KfreeUndoesListed(h: Heap, l: Layout, slots: nat, size: nat, stale: bool)
    requires Sound(h, l, slots) && FitOf(h, AlignUp4(size)) >= 0
    ensures var r := KmallocListed(h, l, slots, size, stale);
            && r.ptr != 0 && IndexOf(r.heap.s.chain, r.ptr - HEADER_SIZE) >= 0
            && var f := KfreeListed(r.heap, slots, r.ptr);
               f.s.chain == h.s.chain && f.s.top == h.s.top && f.listed == h.listed
  {
    CarveUndoneListed(h, l, slots, FitOf(h, AlignUp4(size)), AlignUp4(size), stale);
  }

  lemma CarveUndoneListed(h: Heap, l: Layout, slots: nat, i: nat, n: nat, stale: bool)
    requires Sound(h, l, slots) && i < |h.s.chain| && Fits(h.s.chain[i], n) && n % 4 == 0
    requires h.s.chain[i].addr in h.listed
    ensures var r := CarveListed(h, i, n, stale, slots);
            && r.ptr != 0 && IndexOf(r.heap.s.chain, r.ptr - HEADER_SIZE) == i
            && var f := KfreeListed(r.heap, slots, r.ptr);
               f.s.chain == h.s.chain && f.s.top == h.s.top && f.listed == h.listed
  {
    CarveUndone(h.s, l, i, n, stale);
    CarveUnlisted(h.s.chain, l.lo, ChainEnd(h.s.chain), i, n, h.listed, slots);
  }

  /** A kfree leaves something on the list, if only the array has a slot for it. */
  lemma KfreeLists(h: Heap, slots: nat, ptr: int)
    requires ptr != 0 && IndexOf(h.s.chain, ptr - HEADER_SIZE) >= 0 && ShortEnough(h.listed, slots)
    ensures KfreeListed(h, slots, ptr).listed != {} <==> slots >= 2
  {
    var c := h.s.chain;
    var i := IndexOf(c, ptr - HEADER_SIZE);
    var rest, a := AfterMerges(c, i, h.listed), c[FuseFrom(c, i)].addr;
    if slots >= 2 { assert a in rest + {a}; } else { assert rest == {}; }
  }

  ghost function FreeEachListed(h: Heap, slots: nat, order: seq<int>): (r: Heap)
    decreases order
  {
    if order == [] then h
    else if order[0] != 0 && IndexOf(h.s.chain, order[0] - HEADER_SIZE) < 0 then h
    else FreeEachListed(KfreeListed(h, slots, order[0]), slots, order[1..])
  }

  /** Freeing every live allocation in any order leaves one FREE block over the heap, and a list of
      just that block, unless the array is too short for any or nothing was freed and listed. */
  lemma DrainListed(h: Heap, l: Layout, slots: nat, order: seq<int>)
    requires Sound(h, l, slots) && ListsLive(h.s.chain, order)
    ensures var r := FreeEachListed(h, slots, order);
            && r.s.chain == [Block(l.lo, ChainEnd(h.s.chain) - l.lo - HEADER_SIZE, false)]
            && r.listed == if slots >= 2 && (order != [] || h.listed != {}) then {l.lo} else {}
  {
    DrainList(h, l, slots, ChainEnd(h.s.chain), order);
  }

  ghost predicate ToDrainListed(h: Heap, l: Layout, slots: nat, hi: int, order: seq<int>) {
    Sound(h, l, slots) && ListsLive(h.s.chain, order) && ChainEnd(h.s.chain) == hi
  }

  lemma {:induction false} DrainList(h: Heap, l: Layout, slots: nat, hi: int, order: seq<int>)
    requires ToDrainListed(h, l, slots, hi, order)
    ensures var r := FreeEachListed(h, slots, order);
            && r.s.chain == [Block(l.lo, hi - l.lo - HEADER_SIZE, false)]
            && r.listed == if slots >= 2 && (order != [] || h.listed != {}) then {l.lo} else {}
    decreases order
  {
    if order == [] {
      DrainedList(h, l, slots);
    } else {
      var r := DrainListedStep(h, l, slots, order);
      assert ToDrainListed(r, l, slots, hi, order[1..]);
      DrainList(r, l, slots, hi, order[1..]);
    }
  }

  lemma DrainedList(h: Heap, l: Layout, slots: nat)
    requires Sound(h, l, slots) && ListsLive(h.s.chain, [])
    ensures h.s.chain == [Block(l.lo, ChainEnd(h.s.chain) - l.lo - HEADER_SIZE, false)]
    ensures h.listed == (if h.listed != {} then {l.lo} else {}) && (h.listed != {} ==> slots >= 2)
  {
    NoneLive(h.s, l);
    assert FreeAddrs(h.s.chain) <= {l.lo};
    if h.listed != {} { assert h.listed == {l.lo}; }
  }

  lemma DrainListedStep(h: Heap, l: Layout, slots: nat, order: seq<int>) returns (r: Heap)
    requires Sound(h, l, slots) && ListsLive(h.s.chain, order) && order != []
    ensures Sound(r, l, slots) && ListsLive(r.s.chain, order[1..]) && (r.listed != {} <==> slots >= 2)
    ensures ChainEnd(r.s.chain) == ChainEnd(h.s.chain)
    ensures FreeEachListed(h, slots, order) == FreeEachListed(r, slots, order[1..])
  {
    var t := DrainStep(h.s, l, order);
    KfreeSound(h, l, slots, order[0]);
    KfreeLists(h, slots, order[0]);
    r := KfreeListed(h, slots, order[0]);
  }
}
