/** Runs of calls of kernel/kheap.c on words, with the stores of the callers in between: what an
    allocation holds, it holds until its owner writes or frees it. */
module HeapCalls {
  import opened HeapChain
  import opened HeapLists
  import opened HeapMemory
  import opened HeapRuns
  import opened HeapWords
  import opened Machine

  /** `Store` is a write by the owner of an allocation. */
  datatype Call = Malloc(size: nat) | Free(ptr: int) | Store(addr: int, value: int)

  ghost function Do(w: Words, l: Layout, slots: nat, call: Call): (r: Reply) {
    match call
    case Malloc(size) => KmallocWords(w, l.limit, slots, size)
    case Free(ptr) => KfreeWords(w, slots, ptr)
    case Store(addr, value) => Reply(w.(mem := w.mem[addr := value]), 0, Returned)
  }

  /** The words before call `k` of a run with these replies. */
  ghost function Before(l: Layout, slots: nat, replies: seq<Reply>, k: nat): Words
    requires k <= |replies|
  {
    if k == 0 then InitWords(l, slots) else replies[k - 1].w
  }

  ghost predicate CallAt(l: Layout, slots: nat, calls: seq<Call>, replies: seq<Reply>, k: nat)
    requires k < |calls| == |replies|
  {
    replies[k].status == Returned && replies[k] == Do(Before(l, slots, replies, k), l, slots, calls[k])
  }

  /** The calls `calls`, from the state that `init_kheap` leaves, all return with these replies. */
  ghost predicate IsCallRun(l: Layout, slots: nat, calls: seq<Call>, replies: seq<Reply>) {
    && |replies| == |calls|
    && forall k {:trigger CallAt(l, slots, calls, replies, k)} ::
         0 <= k < |calls| ==> CallAt(l, slots, calls, replies, k)
  }

  lemma OneMore(l: Layout, slots: nat, calls: seq<Call>, replies: seq<Reply>, call: Call, r: Reply)
    requires IsCallRun(l, slots, calls, replies) && r.status == Returned
    requires r == Do(Before(l, slots, replies, |replies|), l, slots, call)
    ensures IsCallRun(l, slots, calls + [call], replies + [r])
  {
    var calls', replies' := calls + [call], replies + [r];
    forall k | 0 <= k < |calls'| ensures CallAt(l, slots, calls', replies', k) {
      assert Before(l, slots, replies', k) == Before(l, slots, replies, k);
      if k < |calls| { assert CallAt(l, slots, calls, replies, k); }
    }
  }

  // ---------------------------------------------------------------- one call

  ghost predicate InPayload(b: Block, a: int) {
    b.addr + HEADER_SIZE <= a < b.End()
  }

  /** What a call asks of its caller: a request is one that `Answers` allows, a freed pointer is NULL or
      follows a header, and a store goes into a live allocation. */
  ghost predicate Proper(h: Heap, call: Call)
    requires h.s.chain != []
  {
    match call
    case Malloc(size) => Answers(h, size)
    case Free(ptr) => ptr == 0 || IndexOf(h.s.chain, ptr - HEADER_SIZE) >= 0
    case Store(addr, _) => exists b :: b in UsedBlocks(h.s.chain) && InPayload(b, addr)
  }

  /** Such a call leads from `w`, which shows `c`, to `v`, which shows `d`. */
  ghost predicate Refined(w: Words, c: Chain, v: Words, d: Chain, l: Layout, slots: nat, call: Call) {
    match call
    case Malloc(size) => exists stale :: ListedFollows(l, slots, HeapOf(w, c), Kmalloc(size, stale), HeapOf(v, d))
    case Free(ptr) => ListedFollows(l, slots, HeapOf(w, c), Kfree(ptr), HeapOf(v, d))
    case Store(_, _) => HeapOf(v, d) == HeapOf(w, c)
  }

  ghost predicate FreesBlock(call: Call, b: Block) {
    call.Free? && call.ptr == b.addr + HEADER_SIZE
  }

  /** The live payloads that stay are the same in both memories. */
  ghost predicate KeepsPayloads(m: Memory, c: Chain, m': Memory, d: Chain) {
    PayloadsKept(m, m', UsedBlocks(c) * UsedBlocks(d))
  }

  lemma MallocRefined(w: Words, c: Chain, l: Layout, slots: nat, size: nat, r: Reply) returns (d: Chain)
    requires Shows(w, c, l, slots) && Answers(HeapOf(w, c), size)
    requires r == KmallocWords(w, l.limit, slots, size) && r.status == Returned
    ensures Shows(r.w, d, l, slots) && Refined(w, c, r.w, d, l, slots, Malloc(size))
    ensures KeepsPayloads(w.mem, c, r.w.mem, d)
  {
    var e, stale := KmallocRefines(w, c, l, slots, size, r);
    d := e;
    assert ListedFollows(l, slots, HeapOf(w, c), Kmalloc(size, stale), HeapOf(r.w, d));
  }

  lemma FreeRefined(w: Words, c: Chain, l: Layout, slots: nat, ptr: int, r: Reply) returns (d: Chain)
    requires Shows(w, c, l, slots) && (ptr == 0 || IndexOf(c, ptr - HEADER_SIZE) >= 0) && r == KfreeWords(w, slots, ptr)
    ensures Shows(r.w, d, l, slots) && Refined(w, c, r.w, d, l, slots, Free(ptr)) && KeepsPayloads(w.mem, c, r.w.mem, d)
  {
    d := KfreeRefines(w, c, l, slots, ptr, r);
    assert ListedPermitted(HeapOf(w, c), Kfree(ptr));
  }

  /** Every proper call that returns is a step of HeapLists or a store. */
  lemma CallRefines(w: Words, c: Chain, l: Layout, slots: nat, call: Call, r: Reply) returns (d: Chain)
    requires Shows(w, c, l, slots) && Proper(HeapOf(w, c), call) && r == Do(w, l, slots, call) && r.status == Returned
    ensures Shows(r.w, d, l, slots) && Refined(w, c, r.w, d, l, slots, call)
    ensures !call.Store? ==> KeepsPayloads(w.mem, c, r.w.mem, d)
  {
    match call
    case Malloc(size) => d := MallocRefined(w, c, l, slots, size, r);
    case Free(ptr) => d := FreeRefined(w, c, l, slots, ptr, r);
    case Store(addr, value) =>
      d := c;
      var b :| b in UsedBlocks(c) && InPayload(b, addr);
      PayloadStore(w.mem, c, l.lo, ChainEnd(c), b, addr, value);
  }

  /** A live block that the call does not free stays, and so does each word of it that is not the one
      stored to. */
  lemma CallKeeps(w: Words, c: Chain, l: Layout, slots: nat, call: Call, r: Reply, d: Chain, b: Block, a: int)
    requires Shows(w, c, l, slots) && r == Do(w, l, slots, call) && Refined(w, c, r.w, d, l, slots, call)
    requires !call.Store? ==> KeepsPayloads(w.mem, c, r.w.mem, d)
    requires b in UsedBlocks(c) && InPayload(b, a) && !FreesBlock(call, b) && !(call.Store? && call.addr == a)
    ensures b in UsedBlocks(d) && Load(r.w.mem, a) == Load(w.mem, a)
  {
    match call
    case Malloc(size) =>
      var stale :| ListedFollows(l, slots, HeapOf(w, c), Kmalloc(size, stale), HeapOf(r.w, d));
      ListedStepKeepsLive(HeapOf(w, c), l, slots, Kmalloc(size, stale), HeapOf(r.w, d), b);
      assert PayloadSame(w.mem, r.w.mem, b);
    case Free(ptr) =>
      ListedStepKeepsLive(HeapOf(w, c), l, slots, Kfree(ptr), HeapOf(r.w, d), b);
      assert PayloadSame(w.mem, r.w.mem, b);
    case Store(_, _) =>
  }

  // ---------------------------------------------------------------- whole runs

  /** Every call of the run is proper where it is made. */
  ghost predicate ProperRun(l: Layout, slots: nat, calls: seq<Call>, replies: seq<Reply>) {
    && ValidLayout(l) && IsCallRun(l, slots, calls, replies)
    && forall k, c {:trigger Shows(Before(l, slots, replies, k), c, l, slots)} ::
         0 <= k < |calls| && Shows(Before(l, slots, replies, k), c, l, slots) ==>
           Proper(HeapOf(Before(l, slots, replies, k), c), calls[k])
  }

  /** In every such run memory encodes a chain all along. */
  lemma {:induction false} RunShows(l: Layout, slots: nat, calls: seq<Call>, replies: seq<Reply>, k: nat)
    returns (c: Chain)
    requires ProperRun(l, slots, calls, replies) && k <= |calls|
    ensures Shows(Before(l, slots, replies, k), c, l, slots)
  {
    if k == 0 {
      InitShows(l, slots);
      c := Init(l).chain;
    } else {
      var b := RunShows(l, slots, calls, replies, k - 1);
      assert CallAt(l, slots, calls, replies, k - 1);
      c := CallRefines(Before(l, slots, replies, k - 1), b, l, slots, calls[k - 1], replies[k - 1]);
    }
  }

  /** No call from `i` up to `j` frees block `b` or stores to word `a`. */
  ghost predicate LeftAlone(calls: seq<Call>, i: nat, j: nat, b: Block, a: int)
    requires j <= |calls|
  {
    forall k :: i <= k < j ==> !FreesBlock(calls[k], b) && !(calls[k].Store? && calls[k].addr == a)
  }

  /** A live allocation keeps its place and its contents through any calls that leave it alone. */
  lemma {:induction false} RunKeepsWord(l: Layout, slots: nat, calls: seq<Call>, replies: seq<Reply>,
                                        i: nat, j: nat, c: Chain, b: Block, a: int) returns (d: Chain)
    requires ProperRun(l, slots, calls, replies) && i <= j <= |calls| && LeftAlone(calls, i, j, b, a)
    requires Shows(Before(l, slots, replies, i), c, l, slots) && b in UsedBlocks(c) && InPayload(b, a)
    ensures Shows(Before(l, slots, replies, j), d, l, slots) && b in UsedBlocks(d)
    ensures Load(Before(l, slots, replies, j).mem, a) == Load(Before(l, slots, replies, i).mem, a)
    decreases j
  {
    if i == j {
      d := c;
    } else {
      var e := RunKeepsWord(l, slots, calls, replies, i, j - 1, c, b, a);
      var w := Before(l, slots, replies, j - 1);
      assert CallAt(l, slots, calls, replies, j - 1);
      d := CallRefines(w, e, l, slots, calls[j - 1], replies[j - 1]);
      CallKeeps(w, e, l, slots, calls[j - 1], replies[j - 1], d, b, a);
    }
  }

  /** What an owner stores is read back, until the next store to that word or the `kfree`. */
  lemma StoreReadsBack(l: Layout, slots: nat, calls: seq<Call>, replies: seq<Reply>, i: nat, j: nat, c: Chain, b: Block)
    requires ProperRun(l, slots, calls, replies) && i < j <= |calls| && calls[i].Store?
    requires Shows(Before(l, slots, replies, i), c, l, slots) && b in UsedBlocks(c) && InPayload(b, calls[i].addr)
    requires LeftAlone(calls, i + 1, j, b, calls[i].addr)
    ensures Load(Before(l, slots, replies, j).mem, calls[i].addr) == calls[i].value
  {
    var w := Before(l, slots, replies, i);
    assert CallAt(l, slots, calls, replies, i);
    var d := CallRefines(w, c, l, slots, calls[i], replies[i]);
    assert d == c;
    var _ := RunKeepsWord(l, slots, calls, replies, i + 1, j, d, b, calls[i].addr);
  }

  /** The pointer that a `kmalloc` returns is that of a live block of the size asked for, rounded, and at
      most the threshold more, which was not live before. */
  lemma MallocGives(l: Layout, slots: nat, calls: seq<Call>, replies: seq<Reply>, k: nat, c: Chain)
    returns (d: Chain, b: Block)
    requires ProperRun(l, slots, calls, replies) && k < |calls| && calls[k].Malloc?
    requires Shows(Before(l, slots, replies, k), c, l, slots)
    ensures Shows(replies[k].w, d, l, slots) && UsedBlocks(d) == UsedBlocks(c) + {b} && b !in UsedBlocks(c)
    ensures b.addr + HEADER_SIZE == replies[k].ptr
    ensures calls[k].size <= b.size <= AlignUp4(calls[k].size) + 16
  {
    var w := Before(l, slots, replies, k);
    assert CallAt(l, slots, calls, replies, k);
    var e, stale := KmallocRefines(w, c, l, slots, calls[k].size, replies[k]);
    d := e;
    ListedKmallocUsed(HeapOf(w, c), l, slots, calls[k].size, stale);
    b :| IsAllocation(HeapOf(w, c).s, Done(HeapOf(replies[k].w, d).s, replies[k].ptr), calls[k].size, b);
  }
}
