/** kernel/kheap.c on words: what each call does to memory, the list and the two pointers, whatever
    they hold, in 32-bit arithmetic; and that on memory which encodes a chain it is the step of
    HeapLists. */
module HeapWords {
  import opened HeapChain
  import opened HeapLists
  import opened HeapMemory
  import opened HeapRuns
  import opened Machine

  /** Memory, `free_node_list`, `top_heap_ptr` and `heap_list_end_ptr`. */
  datatype Words = Words(mem: Memory, listed: set<int>, top: int, endPtr: int)

  /** `Hung`: in a loop that never ends. `Wild`: about to hand a null pointer to the list. */
  datatype Status = Returned | Halted | Hung | Wild

  datatype Reply = Reply(w: Words, ptr: int, status: Status)

  // ---------------------------------------------------------------- kfree

  /** A pointer that is not null and leads to a FREE magic. */
  predicate FreeAt(m: Memory, a: int) {
    a > 0 && Load(m, a) == MAGIC_FREE
  }

  /** `heap_merge_right`. */
  function MergeRightAt(m: Memory, node: int): Memory {
    var h := HeaderAt(m, node);
    var g := HeaderAt(m, h.next);
    RewriteOne(m, g.next, h.prev, Block(node, Wrap(h.size + g.size + HEADER_SIZE), false))
  }

  /** `heap_merge_left`. */
  function MergeLeftAt(m: Memory, node: int): Memory {
    var h := HeaderAt(m, node);
    var g := HeaderAt(m, h.prev);
    RewriteOne(m, h.next, g.prev, Block(h.prev, Wrap(h.size + g.size + HEADER_SIZE), false))
  }

  /** The two branches of `heap_merge_nodes`. */
  function AbsorbRight(w: Words, node: int, right: int): (r: Words) {
    if FreeAt(w.mem, right) then w.(mem := MergeRightAt(w.mem, node), listed := w.listed - {node} - {right}) else w
  }

  function AbsorbLeft(w: Words, node: int, left: int): (r: Words) {
    if FreeAt(w.mem, left) then w.(mem := MergeLeftAt(w.mem, node), listed := w.listed - {node} - {left}) else w
  }

  /** And its insertion. */
  function Merges(w: Words, slots: nat, node: int): (r: Words) {
    var h := HeaderAt(w.mem, node);
    var u := AbsorbRight(w, node, h.next);
    var v := AbsorbLeft(u, node, h.prev);
    v.(listed := Inserted(v.listed, if FreeAt(u.mem, h.prev) then h.prev else node, slots))
  }

  /** The store that opens `kfree`. */
  function MarkFreeAt(m: Memory, node: int): Memory {
    var h := HeaderAt(m, node);
    SetHeader(m, node, false, h.next, h.prev, h.size)
  }

  function KfreeWords(w: Words, slots: nat, ptr: int): (r: Reply) {
    var node := Wrap(ptr - HEADER_SIZE);
    if ptr == 0 then Reply(w, 0, Returned)
    else if !GoodMagic(w.mem, node) then Reply(w, 0, Halted)
    else if node == 0 then Reply(w, 0, Wild)
    else Reply(Merges(w.(mem := MarkFreeAt(w.mem, node)), slots, node), 0, Returned)
  }

  // ---------------------------------------------------------------- kmalloc

  /** The best listed node: the smallest that is large enough, the lowest on ties. */
  ghost predicate BestNode(m: Memory, listed: set<int>, n: int, a: int) {
    && a in listed && HeaderAt(m, a).size >= n
    && forall b :: b in listed && HeaderAt(m, b).size >= n ==>
         HeaderAt(m, a).size < HeaderAt(m, b).size || (HeaderAt(m, a).size == HeaderAt(m, b).size && a <= b)
  }

  /** `heap_find_free_node`, 0 for NULL. */
  ghost function FindNode(m: Memory, listed: set<int>, n: int): (a: int) {
    if exists b :: BestNode(m, listed, n, b) then var b :| BestNode(m, listed, n, b); b else 0
  }

  /** The checks of that search pass. */
  ghost predicate Checked(w: Words) {
    forall a :: a in w.listed ==> GoodMagic(w.mem, a)
  }

  /** The stores of `heap_split_node` when too little is left over to be a block. */
  function WholeMemory(m: Memory, node: int): Memory {
    var h := HeaderAt(m, node);
    SetHeader(Relink(m, h.next, h.prev, node, node), node, true, h.next, h.prev, h.size)
  }

  /** The word read at kernel/kheap.c:278. */
  function StrayAt(m: Memory, node: int, n: nat): int {
    var h := HeaderAt(m, node);
    Load(Relink(m, h.next, h.prev, node, node), Wrap(node + n + HEADER_SIZE) + 4)
  }

  /** Its stores when the rest becomes a FREE block. */
  function PartMemory(m: Memory, node: int, n: nat): Memory {
    var h := HeaderAt(m, node);
    RewriteTwo(m, h.next, h.prev, Block(node, n, true),
               Block(Wrap(node + n + HEADER_SIZE), h.size - n - HEADER_SIZE, false))
  }

  /** The first branch with its updates of `heap_list_end_ptr`. */
  function WholeWords(w: Words, node: int, n: nat): (r: Reply) {
    var endPtr := if StrayAt(w.mem, node, n) == 0 || HeaderAt(w.mem, node).next == 0 then node else w.endPtr;
    Reply(w.(mem := WholeMemory(w.mem, node), endPtr := endPtr), Wrap(node + HEADER_SIZE), Returned)
  }

  /** The second with its insertion. */
  function PartWords(w: Words, slots: nat, node: int, n: nat): (r: Reply) {
    var newFree := Wrap(node + n + HEADER_SIZE);
    if newFree == 0 then Reply(w, 0, Wild)
    else
      var m := PartMemory(w.mem, node, n);
      var endPtr := if HeaderAt(m, newFree).next == 0 then newFree else w.endPtr;
      Reply(Words(m, Inserted(w.listed, newFree, slots), w.top, endPtr), Wrap(node + HEADER_SIZE), Returned)
  }

  /** `heap_split_node` on a node that the search has checked. */
  function SplitWords(w: Words, slots: nat, node: int, n: nat): (r: Reply) {
    var u := w.(listed := w.listed - {node});
    if HeaderAt(w.mem, node).size - n <= SPLIT_THRESHOLD then WholeWords(u, node, n) else PartWords(u, slots, node, n)
  }

  /** `expand_heap` up to its two header stores; `ptr` is the new node. */
  function AppendWords(w: Words, limit: int, amount: int): (r: Reply) {
    var top := Wrap(w.top + amount);
    var newFree := Wrap(w.endPtr + HEADER_SIZE + HeaderAt(w.mem, w.endPtr).size);
    if top >= limit || !GoodMagic(w.mem, w.endPtr) then Reply(w.(top := top), 0, Halted)
    else Reply(w.(mem := ExtendMemory(w.mem, w.endPtr, newFree, Wrap(top - newFree)), top := top), newFree, Returned)
  }

  /** Its insertion and its merge. */
  function ListWords(w: Words, slots: nat, newFree: int): (r: Reply) {
    var u := w.(listed := Inserted(w.listed, newFree, slots));
    if newFree == 0 then Reply(w, 0, Wild)
    else if !GoodMagic(w.mem, newFree) then Reply(u, 0, Halted)
    else Reply(Merges(u, slots, newFree).(endPtr := newFree), 0, Returned)
  }

  function ExpandWords(w: Words, limit: int, slots: nat, amount: int): (r: Reply) {
    var a := AppendWords(w, limit, amount);
    if a.status != Returned then a else ListWords(a.w, slots, a.ptr)
  }

  /** The search, and the split of what it finds. */
  ghost function TakeWords(w: Words, slots: nat, n: nat): (r: Reply) {
    var node := FindNode(w.mem, w.listed, n);
    if !Checked(w) || node == 0 then Reply(w, 0, Halted) else SplitWords(w, slots, node, n)
  }

  /** `kmalloc` once the size is rounded. */
  ghost function RequestWords(w: Words, limit: int, slots: nat, n: nat): (r: Reply) {
    if !Checked(w) || FindNode(w.mem, w.listed, n) != 0 then TakeWords(w, slots, n)
    else if n >= TWO32 - EXPAND_SIZE then Reply(w, 0, Hung)
    else
      var e := ExpandWords(w, limit, slots, ExpandCount(n));
      if e.status != Returned then e else TakeWords(e.w, slots, n)
  }

  ghost function KmallocWords(w: Words, limit: int, slots: nat, size: nat): (r: Reply) {
    RequestWords(w, limit, slots, Wrap(AlignUp4(size)))
  }

  /** The word is what `heap_set_header` writes first: "FREE" or "USED" in ASCII. */
  predicate MagicWord(x: int) {
    x == 0x4545_5246 || x == 0x4445_5355
  }

  /** Where a header without a magic word halts the kernel: before the pointer of a `kfree`, in the list of
      a `kmalloc`, and at `heap_list_end_ptr` of an expansion; nothing but `top_heap_ptr` has changed. */
  lemma BadMagicHalts(w: Words, limit: int, slots: nat, ptr: int, size: nat, amount: int)
    ensures var r := KfreeWords(w, slots, ptr);
            && (r.status == Halted <==> ptr != 0 && !MagicWord(Load(w.mem, Wrap(ptr - 16))))
            && (r.status == Halted ==> r.w == w)
    ensures (exists a :: a in w.listed && !MagicWord(Load(w.mem, a))) ==>
              KmallocWords(w, limit, slots, size) == Reply(w, 0, Halted)
    ensures !MagicWord(Load(w.mem, w.endPtr)) ==>
              ExpandWords(w, limit, slots, amount) == Reply(w.(top := Wrap(w.top + amount)), 0, Halted)
  {
    KmallocChecks(w, limit, slots, Wrap(AlignUp4(size)));
  }

  lemma KmallocChecks(w: Words, limit: int, slots: nat, n: nat)
    ensures !Checked(w) ==> RequestWords(w, limit, slots, n) == Reply(w, 0, Halted)
  {
  }

  lemma TakeBound(w: Words, slots: nat, n: nat)
    ensures 0 <= TakeWords(w, slots, n).ptr < TWO32
  {
  }

  lemma ExpandBound(w: Words, limit: int, slots: nat, amount: int)
    ensures ExpandWords(w, limit, slots, amount).ptr == 0
  {
  }

  lemma ReplyBound(w: Words, limit: int, slots: nat, size: nat)
    ensures 0 <= KmallocWords(w, limit, slots, size).ptr < TWO32
  {
    var n := Wrap(AlignUp4(size));
    var e := ExpandWords(w, limit, slots, ExpandCount(n));
    TakeBound(w, slots, n);
    TakeBound(e.w, slots, n);
    ExpandBound(w, limit, slots, ExpandCount(n));
  }

  // ---------------------------------------------------------------- memory that encodes a chain

  function HeapOf(w: Words, c: Chain): Heap {
    Heap(State(c, w.top, w.endPtr), w.listed)
  }

  /** The headers encode the chain, and heap and list are in order. */
  ghost predicate Shows(w: Words, c: Chain, l: Layout, slots: nat) {
    Encodes(w.mem, c) && Sound(HeapOf(w, c), l, slots)
  }

  /** No address of the chain wraps. */
  lemma ChainFits(s: State, l: Layout)
    requires Inv(s, l)
    ensures 0 < l.lo < ChainEnd(s.chain) < TWO32
  {
    TiledBound(s.chain, l.lo, ChainEnd(s.chain));
  }

  /** The memory that `init_kheap` leaves. */
  function InitMemory(l: Layout): Memory {
    SetHeader(map[], l.lo, false, 0, 0, EXPAND_SIZE - HEADER_SIZE)
  }

  function InitWords(l: Layout, slots: nat): Words {
    Words(InitMemory(l), Inserted({}, l.lo, slots), l.lo + EXPAND_SIZE, l.lo)
  }

  lemma InitShows(l: Layout, slots: nat)
    requires ValidLayout(l)
    ensures Shows(InitWords(l, slots), Init(l).chain, l, slots)
    ensures HeapOf(InitWords(l, slots), Init(l).chain) == InitListed(l, slots)
  {
    InitSound(l, slots);
    assert Encoded(InitMemory(l), Init(l).chain, 0);
  }

  lemma MergesAt(m: Memory, c: Chain, lo: int, hi: int, i: nat)
    requires 0 < lo && Tiled(c, lo, hi) && hi < TWO32 && Encodes(m, c) && i + 1 < |c|
    ensures MergeRightAt(m, c[i].addr) == MergeMemory(m, c, i)
    ensures MergeLeftAt(m, c[i + 1].addr) == MergeMemory(m, c, i)
  {
    assert Encoded(m, c, i) && Encoded(m, c, i + 1);
    TiledAt(c, lo, hi, i);
    TiledAt(c, lo, hi, i + 1);
  }

  /** What the neighbours' magic words tell. */
  lemma FreeNeighbours(m: Memory, c: Chain, lo: int, hi: int, i: nat)
    requires 0 < lo && Tiled(c, lo, hi) && Encodes(m, c) && i < |c|
    ensures HeaderAt(m, c[i].addr).next == NextOf(c, i + 1) && HeaderAt(m, c[i].addr).prev == PrevOf(c, i)
    ensures FreeAt(m, NextOf(c, i + 1)) <==> i + 1 < |c| && !c[i + 1].used
    ensures FreeAt(m, PrevOf(c, i)) <==> i > 0 && !c[i - 1].used
  {
    assert Encoded(m, c, i);
    if i + 1 < |c| { assert Encoded(m, c, i + 1); TiledAt(c, lo, hi, i + 1); }
    if i > 0 { assert Encoded(m, c, i - 1); TiledAt(c, lo, hi, i - 1); }
  }

  /** The first branch of `heap_merge_nodes`. */
  lemma RightRefines(m: Memory, c: Chain, lo: int, hi: int, i: nat) returns (m1: Memory, c1: Chain)
    requires 0 < lo && Tiled(c, lo, hi) && hi < TWO32 && Encodes(m, c) && i < |c| && !c[i].used
    ensures if i + 1 < |c| && !c[i + 1].used
            then m1 == MergeMemory(m, c, i) == MergeRightAt(m, c[i].addr) && c1 == Merge(c, i)
            else m1 == m && c1 == c
    ensures Tiled(c1, lo, hi) && Encodes(m1, c1) && UsedBlocks(c1) == UsedBlocks(c)
    ensures PayloadsKept(m, m1, UsedBlocks(c))
    ensures i < |c1| <= |c| && c1[i].addr == c[i].addr && c1[..i] == c[..i]
  {
    m1, c1 := m, c;
    if i + 1 < |c| && !c[i + 1].used {
      MergesAt(m, c, lo, hi, i);
      MergeRewrites(m, c, lo, hi, i);
      MergeUsed(c, lo, hi, i);
      m1, c1 := MergeMemory(m, c, i), Merge(c, i);
    }
  }

  /** The second one, after the first has made `m1` of `m` and `c1` of `c`. */
  lemma LeftRefines(m: Memory, m1: Memory, c: Chain, c1: Chain, lo: int, hi: int, i: nat) returns (m2: Memory)
    requires 0 < lo && Tiled(c1, lo, hi) && hi < TWO32 && Encodes(m1, c1) && i < |c1| <= |c|
    requires c1[..i] == c[..i] && UsedBlocks(c1) == UsedBlocks(c) && PayloadsKept(m, m1, UsedBlocks(c))
    ensures FreeAt(m1, PrevOf(c, i)) <==> i > 0 && !c[i - 1].used
    ensures if i > 0 && !c[i - 1].used
            then m2 == MergeMemory(m1, c1, i - 1) == MergeLeftAt(m1, c1[i].addr) && Encodes(m2, Merge(c1, i - 1))
            else m2 == m1
    ensures PayloadsKept(m, m2, UsedBlocks(c))
  {
    FreeNeighbours(m1, c1, lo, hi, i);
    assert i > 0 ==> c1[..i][i - 1] == c[..i][i - 1];
    m2 := m1;
    if i > 0 && !c[i - 1].used {
      MergesAt(m1, c1, lo, hi, i - 1);
      MergeRewrites(m1, c1, lo, hi, i - 1);
      m2 := MergeMemory(m1, c1, i - 1);
    }
  }

  lemma MergesAre(w: Words, slots: nat, c: Chain, i: nat, m1: Memory, m2: Memory)
    requires i < |c| && HeaderAt(w.mem, c[i].addr).next == NextOf(c, i + 1)
    requires HeaderAt(w.mem, c[i].addr).prev == PrevOf(c, i)
    requires FreeAt(w.mem, NextOf(c, i + 1)) <==> i + 1 < |c| && !c[i + 1].used
    requires m1 == if i + 1 < |c| && !c[i + 1].used then MergeRightAt(w.mem, c[i].addr) else w.mem
    requires FreeAt(m1, PrevOf(c, i)) <==> i > 0 && !c[i - 1].used
    requires m2 == if i > 0 && !c[i - 1].used then MergeLeftAt(m1, c[i].addr) else m1
    ensures Merges(w, slots, c[i].addr) == w.(mem := m2, listed := Relisted(c, i, w.listed, slots))
  {
    var node := c[i].addr;
    var u := AbsorbRight(w, node, NextOf(c, i + 1));
    assert i + 1 < |c| ==> w.listed - {node} - {c[i + 1].addr} == w.listed - {node, c[i + 1].addr};
    assert i > 0 ==> u.listed - {node} - {c[i - 1].addr} == u.listed - {node, c[i - 1].addr};
    assert AbsorbLeft(u, node, PrevOf(c, i)).listed == AfterMerges(c, i, w.listed);
  }

  /** The merges of a FREE block, in memory that encodes its chain. */
  lemma MergesRefine(w: Words, slots: nat, c: Chain, lo: int, hi: int, i: nat)
    requires 0 < lo && Tiled(c, lo, hi) && hi < TWO32 && Encodes(w.mem, c) && i < |c| && !c[i].used
    ensures Merges(w, slots, c[i].addr) ==
            w.(mem := MergesMemory(w.mem, c, i), listed := Relisted(c, i, w.listed, slots))
    ensures Encodes(MergesMemory(w.mem, c, i), Release(c, i))
    ensures PayloadsKept(w.mem, MergesMemory(w.mem, c, i), UsedBlocks(c))
  {
    MergeStepsAgree(c, lo, hi, i);
    FreeNeighbours(w.mem, c, lo, hi, i);
    var m1, c1 := RightRefines(w.mem, c, lo, hi, i);
    var m2 := LeftRefines(w.mem, m1, c, c1, lo, hi, i);
    MergesAre(w, slots, c, i, m1, m2);
    assert m2 == MergesMemory(w.mem, c, i);
  }

  ghost function Marked(c: Chain, i: nat): Chain
    requires i < |c|
  {
    Splice(c, i, i + 1, [Block(c[i].addr, c[i].size, false)])
  }

  /** Marking the block FREE before merging changes neither the chain nor the list that result. */
  lemma MarkedSame(c: Chain, i: nat, listed: set<int>, slots: nat)
    requires i < |c|
    ensures var d := Marked(c, i);
            && |d| == |c| && d[i] == c[i].(used := false) && (forall k :: 0 <= k < |c| ==> d[k].addr == c[k].addr)
            && Relisted(d, i, listed, slots) == Relisted(c, i, listed, slots)
  {
    var d := Marked(c, i);
    assert forall k :: 0 <= k < |c| ==> d[k] == if k == i then c[i].(used := false) else c[k];
  }

  lemma MarkedRelease(c: Chain, lo: int, hi: int, i: nat)
    requires Tiled(c, lo, hi) && i < |c|
    ensures Release(Marked(c, i), i) == Release(c, i) && UsedBlocks(Release(c, i)) == UsedBlocks(Marked(c, i))
    ensures UsedBlocks(Marked(c, i)) <= UsedBlocks(c)
  {
    ReleaseAfterMarking(c, i);
    ReleaseUsed(c, lo, hi, i);
    MarkContents(c, lo, hi, i);
  }

  lemma MarkRefines(m: Memory, c: Chain, lo: int, hi: int, i: nat)
    requires 0 < lo && Tiled(c, lo, hi) && Encodes(m, c) && i < |c|
    ensures Tiled(Marked(c, i), lo, hi) && Encodes(MarkFreeAt(m, c[i].addr), Marked(c, i))
    ensures PayloadsKept(m, MarkFreeAt(m, c[i].addr), UsedBlocks(c))
  {
    MarkRewrites(m, c, lo, hi, i);
    assert Encoded(m, c, i);
  }

  /** Freeing block `i`, in memory that encodes its chain. */
  lemma FreeRefines(w: Words, slots: nat, c: Chain, lo: int, hi: int, i: nat) returns (v: Words)
    requires 0 < lo && Tiled(c, lo, hi) && hi < TWO32 && Encodes(w.mem, c) && i < |c|
    ensures v == Merges(w.(mem := MarkFreeAt(w.mem, c[i].addr)), slots, c[i].addr)
    ensures v.listed == Relisted(c, i, w.listed, slots) && v.top == w.top && v.endPtr == w.endPtr
    ensures Encodes(v.mem, Release(c, i)) && PayloadsKept(w.mem, v.mem, UsedBlocks(Release(c, i)))
    ensures MagicsGood(v.mem, c)
  {
    var d := Marked(c, i);
    var u := w.(mem := MarkFreeAt(w.mem, c[i].addr));
    MarkRefines(w.mem, c, lo, hi, i);
    MarkedSame(c, i, w.listed, slots);
    MarkedRelease(c, lo, hi, i);
    MergesRefine(u, slots, d, lo, hi, i);
    MergesKeepMagics(u.mem, d, lo, hi, i);
    v := Merges(u, slots, c[i].addr);
    forall k | 0 <= k < |c| ensures GoodMagic(v.mem, c[k].addr) {
      assert d[k].addr == c[k].addr;
    }
  }

  lemma SameSound(h: Heap, r: Heap, l: Layout, slots: nat)
    requires h == r && Sound(r, l, slots)
    ensures Sound(h, l, slots)
  {
  }

  /** From `w`, which encodes `c`, the call `kfree(ptr)` leads to `v`, which encodes `d`: the step of
      HeapLists. Live payloads stay, and so does a magic word in every header, absorbed or not. From a
      complete list the list stays complete exactly when there are fewer FREE blocks than slots. */
  ghost predicate KfreeDid(w: Words, c: Chain, v: Words, d: Chain, l: Layout, slots: nat, ptr: int) {
    && (ptr == 0 || IndexOf(c, ptr - HEADER_SIZE) >= 0)
    && HeapOf(v, d) == KfreeListed(HeapOf(w, c), slots, ptr)
    && PayloadsKept(w.mem, v.mem, UsedBlocks(d)) && MagicsGood(v.mem, c)
    && (ptr != 0 && Complete(HeapOf(w, c)) ==> (Complete(HeapOf(v, d)) <==> |FreeAddrs(d)| < slots))
  }

  /** Freeing block `i`. */
  lemma FreeDid(w: Words, c: Chain, l: Layout, slots: nat, ptr: int, i: nat, v: Words, d: Chain)
    requires Shows(w, c, l, slots) && ptr != 0 && i == IndexOf(c, ptr - HEADER_SIZE) && d == Release(c, i)
    requires v.listed == Relisted(c, i, w.listed, slots) && v.top == w.top && v.endPtr == w.endPtr
    requires Encodes(v.mem, d) && PayloadsKept(w.mem, v.mem, UsedBlocks(d)) && MagicsGood(v.mem, c)
    ensures Shows(v, d, l, slots) && KfreeDid(w, c, v, d, l, slots, ptr)
  {
    var h := HeapOf(w, c);
    assert HeapOf(v, d) == KfreeListed(h, slots, ptr);
    KfreeSound(h, l, slots, ptr);
    SameSound(HeapOf(v, d), KfreeListed(h, slots, ptr), l, slots);
    if Complete(h) { KfreeCompletes(h, l, slots, ptr); }
  }

  lemma KfreeIs(w: Words, slots: nat, ptr: int, node: int)
    requires ptr == node + HEADER_SIZE && 0 < node < TWO32 && GoodMagic(w.mem, node)
    ensures KfreeWords(w, slots, ptr) == Reply(Merges(w.(mem := MarkFreeAt(w.mem, node)), slots, node), 0, Returned)
  {
  }

  /** `kfree` of NULL or of a header of the chain. */
  lemma KfreeRefines(w: Words, c: Chain, l: Layout, slots: nat, ptr: int, r: Reply) returns (d: Chain)
    requires Shows(w, c, l, slots) && (ptr == 0 || IndexOf(c, ptr - HEADER_SIZE) >= 0)
    requires r == KfreeWords(w, slots, ptr)
    ensures r.status == Returned && Shows(r.w, d, l, slots) && KfreeDid(w, c, r.w, d, l, slots, ptr)
  {
    EncodedMagics(w.mem, c);
    if ptr == 0 {
      d := c;
    } else {
      var i, hi := IndexOf(c, ptr - HEADER_SIZE), ChainEnd(c);
      ChainFits(HeapOf(w, c).s, l);
      TiledAt(c, l.lo, hi, i);
      KfreeIs(w, slots, ptr, c[i].addr);
      var v := FreeRefines(w, slots, c, l.lo, hi, i);
      d := Release(c, i);
      FreeDid(w, c, l, slots, ptr, i, v, d);
    }
  }

  // ---------------------------------------------------------------- kmalloc on such memory

  lemma BestNodeUnique(m: Memory, listed: set<int>, n: int, a: int)
    requires BestNode(m, listed, n, a)
    ensures FindNode(m, listed, n) == a
  {
  }

  /** Where a listed node stands in the chain. */
  lemma ListedBlock(m: Memory, c: Chain, listed: set<int>, a: int) returns (i: nat)
    requires Encodes(m, c) && a in listed && listed <= FreeAddrs(c)
    ensures i < |c| && !c[i].used && c[i].addr == a && HeaderAt(m, a).size == c[i].size && GoodMagic(m, a)
  {
    var b :| b in c && !b.used && b.addr == a;
    i :| 0 <= i < |c| && c[i] == b;
    assert Encoded(m, c, i);
  }

  /** The search finds the best of what the list shows of the chain. */
  lemma FindRefines(w: Words, c: Chain, l: Layout, slots: nat, n: nat)
    requires Shows(w, c, l, slots)
    ensures Checked(w)
    ensures var i := FitOf(HeapOf(w, c), n); FindNode(w.mem, w.listed, n) == if i >= 0 then c[i].addr else 0
    ensures FitOf(HeapOf(w, c), n) >= 0 ==> FindNode(w.mem, w.listed, n) > 0
  {
    var i := FitOf(HeapOf(w, c), n);
    TiledOrderAll(c, l.lo, ChainEnd(c));
    forall a | a in w.listed ensures GoodMagic(w.mem, a) {
      var _ := ListedBlock(w.mem, c, w.listed, a);
    }
    forall b | b in w.listed && HeaderAt(w.mem, b).size >= n
      ensures i >= 0
      ensures c[i].size < HeaderAt(w.mem, b).size || (c[i].size == HeaderAt(w.mem, b).size && c[i].addr <= b)
    {
      var j := ListedBlock(w.mem, c, w.listed, b);
      assert Fits(Seen(c, w.listed)[j], n);
    }
    if i >= 0 {
      assert Encoded(w.mem, c, i);
      BestNodeUnique(w.mem, w.listed, n, c[i].addr);
    }
  }

  /** The word read at kernel/kheap.c:278 is none of those that relinking writes. */
  lemma StrayUntouched(m: Memory, c: Chain, lo: int, hi: int, i: nat, n: nat)
    requires 0 < lo && Tiled(c, lo, hi) && i < |c| && Fits(c[i], n) && c[i].size - n <= SPLIT_THRESHOLD
    ensures var a := c[i].addr + n + HEADER_SIZE + 4;
            Load(Relink(m, NextOf(c, i + 1), PrevOf(c, i), c[i].addr, c[i].addr), a) == Load(m, a)
  {
    TiledAround(c, lo, hi, i);
  }

  lemma WholeRefines(w: Words, slots: nat, c: Chain, lo: int, hi: int, i: nat, n: nat) returns (v: Words)
    requires 0 < lo && Tiled(c, lo, hi) && hi < TWO32 && Encodes(w.mem, c)
    requires i < |c| && Fits(c[i], n) && c[i].size - n <= SPLIT_THRESHOLD
    ensures SplitWords(w, slots, c[i].addr, n) == Reply(v, c[i].addr + HEADER_SIZE, Returned)
    ensures Encodes(v.mem, Split(c, i, n)) && PayloadsKept(w.mem, v.mem, UsedBlocks(c))
    ensures v.listed == w.listed - {c[i].addr} && v.top == w.top
    ensures v.endPtr == if i == |c| - 1 || Load(w.mem, c[i].addr + HEADER_SIZE + n + 4) == 0
                        then c[i].addr else w.endPtr
  {
    TakeWholeRewrites(w.mem, c, lo, hi, i, n);
    StrayUntouched(w.mem, c, lo, hi, i, n);
    FreeNeighbours(w.mem, c, lo, hi, i);
    assert Encoded(w.mem, c, i);
    TiledAt(c, lo, hi, i);
    if i + 1 < |c| { TiledAt(c, lo, hi, i + 1); }
    v := SplitWords(w, slots, c[i].addr, n).w;
  }

  lemma PartIs(w: Words, slots: nat, node: int, n: nat, h: Header, f: Block, m: Memory)
    requires h == HeaderAt(w.mem, node) && h.size - n > SPLIT_THRESHOLD && 0 < node && node + n + HEADER_SIZE < TWO32
    requires f == Block(node + HEADER_SIZE + n, h.size - n - HEADER_SIZE, false)
    requires m == RewriteTwo(w.mem, h.next, h.prev, Block(node, n, true), f) && HeaderAt(m, f.addr).next == h.next
    ensures PartMemory(w.mem, node, n) == m
    ensures SplitWords(w, slots, node, n) ==
            Reply(Words(m, Inserted(w.listed - {node}, f.addr, slots), w.top, if h.next == 0 then f.addr else w.endPtr),
                  node + HEADER_SIZE, Returned)
  {
  }

  lemma PartRefines(w: Words, slots: nat, c: Chain, lo: int, hi: int, i: nat, n: nat) returns (v: Words)
    requires 0 < lo && Tiled(c, lo, hi) && hi < TWO32 && Encodes(w.mem, c)
    requires i < |c| && Fits(c[i], n) && c[i].size - n > SPLIT_THRESHOLD
    ensures SplitWords(w, slots, c[i].addr, n) == Reply(v, c[i].addr + HEADER_SIZE, Returned)
    ensures Encodes(v.mem, Split(c, i, n)) && PayloadsKept(w.mem, v.mem, UsedBlocks(c))
    ensures v.listed == Inserted(w.listed - {c[i].addr}, c[i].addr + HEADER_SIZE + n, slots) && v.top == w.top
    ensures v.endPtr == if i == |c| - 1 then c[i].addr + HEADER_SIZE + n else w.endPtr
  {
    TiledAt(c, lo, hi, i);
    if i + 1 < |c| { TiledAt(c, lo, hi, i + 1); }
    var next, prev := NextOf(c, i + 1), PrevOf(c, i);
    var u, f := Block(c[i].addr, n, true), Block(c[i].addr + HEADER_SIZE + n, c[i].size - n - HEADER_SIZE, false);
    TakePartRewrites(w.mem, c, lo, hi, i, n, next, prev, u, f);
    assert Encoded(w.mem, c, i);
    PartIs(w, slots, c[i].addr, n, HeaderOf(c, i), f, RewriteTwo(w.mem, next, prev, u, f));
    v := SplitWords(w, slots, c[i].addr, n).w;
  }

  /** `heap_split_node` on a listed block that fits. */
  lemma SplitRefines(w: Words, c: Chain, l: Layout, slots: nat, i: nat, n: nat) returns (v: Words, stale: bool)
    requires Shows(w, c, l, slots) && i < |c| && Fits(c[i], n) && n % 4 == 0 && c[i].addr in w.listed
    ensures SplitWords(w, slots, c[i].addr, n) == Reply(v, c[i].addr + HEADER_SIZE, Returned)
    ensures stale <==> Load(w.mem, c[i].addr + HEADER_SIZE + n + 4) == 0
    ensures CarveListed(HeapOf(w, c), i, n, stale, slots) == Ok(HeapOf(v, Split(c, i, n)), c[i].addr + HEADER_SIZE)
    ensures Shows(v, Split(c, i, n), l, slots) && PayloadsKept(w.mem, v.mem, UsedBlocks(c))
  {
    stale := Load(w.mem, c[i].addr + HEADER_SIZE + n + 4) == 0;
    ChainFits(HeapOf(w, c).s, l);
    if c[i].size - n <= SPLIT_THRESHOLD {
      v := WholeRefines(w, slots, c, l.lo, ChainEnd(c), i, n);
      CarveWholeIs(HeapOf(w, c), i, n, stale, slots, HeapOf(v, Split(c, i, n)));
    } else {
      v := PartRefines(w, slots, c, l.lo, ChainEnd(c), i, n);
      CarvePartIs(HeapOf(w, c), i, n, stale, slots, HeapOf(v, Split(c, i, n)));
    }
    CarveSound(HeapOf(w, c), l, slots, i, n, stale);
    SameSound(HeapOf(v, Split(c, i, n)), CarveListed(HeapOf(w, c), i, n, stale, slots).heap, l, slots);
  }

  lemma AppendIs(w: Words, limit: int, amount: int, end: int, m: Memory)
    requires GoodMagic(w.mem, w.endPtr) && end == w.endPtr + HEADER_SIZE + HeaderAt(w.mem, w.endPtr).size
    requires 0 < end <= w.top + amount < TWO32 && w.top + amount < limit
    requires m == ExtendMemory(w.mem, w.endPtr, end, w.top + amount - end)
    ensures AppendWords(w, limit, amount) == Reply(Words(m, w.listed, w.top + amount, w.endPtr), end, Returned)
  {
  }

  lemma ExpandIs(w: Words, limit: int, slots: nat, amount: int, u: Words, end: int, r: Reply)
    requires AppendWords(w, limit, amount) == Reply(u, end, Returned) && ListWords(u, slots, end) == r
    ensures ExpandWords(w, limit, slots, amount) == r
  {
  }

  /** The insertion and the merge of an expansion, in memory that encodes the extended chain. */
  lemma ListRefines(w: Words, slots: nat, c: Chain, lo: int, hi: int, i: nat) returns (v: Words)
    requires 0 < lo && Tiled(c, lo, hi) && hi < TWO32 && Encodes(w.mem, c) && i < |c| && !c[i].used
    ensures ListWords(w, slots, c[i].addr) == Reply(v, 0, Returned)
    ensures v.top == w.top && v.endPtr == c[i].addr && Encodes(v.mem, Release(c, i))
    ensures v.listed == Relisted(c, i, Inserted(w.listed, c[i].addr, slots), slots)
    ensures PayloadsKept(w.mem, v.mem, UsedBlocks(c))
  {
    var u := w.(listed := Inserted(w.listed, c[i].addr, slots));
    EncodedMagics(w.mem, c);
    TiledAt(c, lo, hi, i);
    MergesRefine(u, slots, c, lo, hi, i);
    v := Merges(u, slots, c[i].addr).(endPtr := c[i].addr);
  }

  /** The header that an expansion appends. */
  lemma AppendRefines(w: Words, c: Chain, l: Layout, amount: nat) returns (u: Words)
    requires Inv(HeapOf(w, c).s, l) && Encodes(w.mem, c) && EndExact(HeapOf(w, c).s)
    requires amount >= EXPAND_SIZE && amount % EXPAND_SIZE == 0 && w.top + amount < l.limit
    ensures AppendWords(w, l.limit, amount) == Reply(u, ChainEnd(c), Returned)
    ensures u.listed == w.listed && u.top == w.top + amount && u.endPtr == w.endPtr
    ensures Encodes(u.mem, Extended(HeapOf(w, c).s, amount)) && PayloadsKept(w.mem, u.mem, UsedBlocks(c))
  {
    var s, end := HeapOf(w, c).s, ChainEnd(c);
    var size := w.top + amount - end;
    ChainFits(s, l);
    ExtensionSize(s, l, amount);
    assert Encoded(w.mem, c, |c| - 1);
    ExtendEncodes(w.mem, c, l.lo, end, size);
    ExtendPayloads(w.mem, c, l.lo, end, size);
    u := Words(ExtendMemory(w.mem, w.endPtr, end, size), w.listed, w.top + amount, w.endPtr);
    AppendIs(w, l.limit, amount, end, u.mem);
  }

  /** The words of an expansion that returns. */
  lemma GrowRefines(w: Words, c: Chain, l: Layout, slots: nat, amount: nat) returns (v: Words)
    requires Inv(HeapOf(w, c).s, l) && Encodes(w.mem, c) && EndExact(HeapOf(w, c).s)
    requires amount >= EXPAND_SIZE && amount % EXPAND_SIZE == 0 && w.top + amount < l.limit
    ensures ExpandWords(w, l.limit, slots, amount) == Reply(v, 0, Returned)
    ensures v.top == w.top + amount && v.endPtr == ChainEnd(c)
    ensures var e := Extended(HeapOf(w, c).s, amount);
            && Encodes(v.mem, Release(e, |c|))
            && v.listed == Relisted(e, |c|, Inserted(w.listed, ChainEnd(c), slots), slots)
    ensures PayloadsKept(w.mem, v.mem, UsedBlocks(c))
  {
    var s, end := HeapOf(w, c).s, ChainEnd(c);
    var e := Extended(s, amount);
    ChainFits(s, l);
    GrowFacts(s, l, amount, e);
    var u := AppendRefines(w, c, l, amount);
    v := ListRefines(u, slots, e, l.lo, w.top + amount + HEADER_SIZE, |c|);
    ExpandIs(w, l.limit, slots, amount, u, end, Reply(v, 0, Returned));
  }

  /** `expand_heap`, when `heap_list_end_ptr` names the last header and nothing wraps. */
  lemma ExpandRefines(w: Words, c: Chain, l: Layout, slots: nat, amount: nat) returns (r: Reply, g: Heap)
    requires Shows(w, c, l, slots) && EndExact(HeapOf(w, c).s)
    requires amount >= EXPAND_SIZE && amount % EXPAND_SIZE == 0 && w.top + amount < TWO32
    ensures r == ExpandWords(w, l.limit, slots, amount) && g == GrowListed(HeapOf(w, c), amount, slots)
    ensures w.top + amount >= l.limit ==> r.status == Halted
    ensures w.top + amount < l.limit ==>
              r.status == Returned && HeapOf(r.w, g.s.chain) == g && Shows(r.w, g.s.chain, l, slots)
    ensures PayloadsKept(w.mem, r.w.mem, UsedBlocks(c))
  {
    r, g := ExpandWords(w, l.limit, slots, amount), GrowListed(HeapOf(w, c), amount, slots);
    if w.top + amount < l.limit {
      var v := GrowRefines(w, c, l, slots, amount);
      GrowIs(HeapOf(w, c), amount, slots, HeapOf(v, g.s.chain));
      GrowSound(HeapOf(w, c), l, slots, amount);
      SameSound(HeapOf(v, g.s.chain), g, l, slots);
    }
  }

  lemma StaleAgrees(m: Memory, c: Chain, lo: int, hi: int, i: nat, n: nat)
    requires 0 < lo && Tiled(c, lo, hi) && Encodes(m, c) && i < |c|
    ensures StaleFits(c, i, n, Load(m, c[i].addr + HEADER_SIZE + n + 4) == 0)
  {
    if i + 1 < |c| { StrayWord(m, c, lo, hi, i, n); }
  }

  /** The search and the split had the reply `r`, where HeapLists finds and carves a block. */
  ghost predicate Took(w: Words, c: Chain, l: Layout, slots: nat, n: nat, r: Reply, stale: bool) {
    var i := FitOf(HeapOf(w, c), n);
    && PayloadsKept(w.mem, r.w.mem, UsedBlocks(c))
    && if i < 0 then r == Reply(w, 0, Halted)
       else && StaleFits(c, i, n, stale)
            && r.status == Returned && Shows(r.w, Split(c, i, n), l, slots)
            && CarveListed(HeapOf(w, c), i, n, stale, slots) == Ok(HeapOf(r.w, Split(c, i, n)), r.ptr)
  }

  lemma TakeRefines(w: Words, c: Chain, l: Layout, slots: nat, n: nat) returns (r: Reply, stale: bool)
    requires Shows(w, c, l, slots) && n % 4 == 0
    ensures r == TakeWords(w, slots, n) && Took(w, c, l, slots, n, r, stale)
  {
    var i := FitOf(HeapOf(w, c), n);
    FindRefines(w, c, l, slots, n);
    r, stale := TakeWords(w, slots, n), false;
    if i >= 0 {
      StaleAgrees(w.mem, c, l.lo, ChainEnd(c), i, n);
      var v, st := SplitRefines(w, c, l, slots, i, n);
      stale := st;
    }
  }

  /** A request that a listed block fits, or that expands past the true last header and below 2^32. */
  ghost predicate Answers(h: Heap, size: nat)
    requires h.s.chain != []
  {
    FitOf(h, AlignUp4(size)) < 0 ==> EndExact(h.s) && h.s.top + ExpandCount(AlignUp4(size)) < TWO32
  }

  /** The call `kmalloc(size)` from `w`, which encodes `c`, has the reply `r`, whose words encode `d` if
      it returns: the step of HeapLists. `stale` is what the word at kernel/kheap.c:278 made it; live
      payloads stay. */
  ghost predicate KmallocDid(w: Words, c: Chain, r: Reply, d: Chain, l: Layout, slots: nat, size: nat, stale: bool) {
    && ListedPermitted(HeapOf(w, c), Kmalloc(size, stale))
    && KmallocListed(HeapOf(w, c), l, slots, size, stale) ==
       (if r.status == Returned then Ok(HeapOf(r.w, d), r.ptr) else Stop)
    && (r.status == Returned ==> Shows(r.w, d, l, slots))
    && PayloadsKept(w.mem, r.w.mem, UsedBlocks(c))
  }

  lemma KmallocTakes(w: Words, limit: int, slots: nat, size: nat, n: nat)
    requires n == AlignUp4(size) < TWO32 && Checked(w) && FindNode(w.mem, w.listed, n) != 0
    ensures KmallocWords(w, limit, slots, size) == TakeWords(w, slots, n)
  {
  }

  lemma KmallocGrows(w: Words, limit: int, slots: nat, size: nat, n: nat, e: Reply)
    requires n == AlignUp4(size) < TWO32 - EXPAND_SIZE && Checked(w) && FindNode(w.mem, w.listed, n) == 0
    requires e == ExpandWords(w, limit, slots, ExpandCount(n))
    ensures KmallocWords(w, limit, slots, size) == if e.status == Returned then TakeWords(e.w, slots, n) else e
  {
  }

  /** When the first search finds a block. */
  lemma FitDid(w: Words, c: Chain, l: Layout, slots: nat, size: nat, n: nat, r: Reply, stale: bool) returns (d: Chain)
    requires Shows(w, c, l, slots) && n == AlignUp4(size) && FitOf(HeapOf(w, c), n) >= 0
    requires Took(w, c, l, slots, n, r, stale)
    ensures r.status == Returned && KmallocDid(w, c, r, d, l, slots, size, stale)
  {
    d := Split(c, FitOf(HeapOf(w, c), n), n);
    FitThenCarve(HeapOf(w, c), l, slots, size, stale, HeapOf(r.w, d), r.ptr);
  }

  /** When it finds none, and the heap cannot grow or not enough. */
  lemma StopDid(w: Words, c: Chain, l: Layout, slots: nat, size: nat, r: Reply, d: Chain, stale: bool)
    requires Shows(w, c, l, slots) && Answers(HeapOf(w, c), size) && FitOf(HeapOf(w, c), AlignUp4(size)) < 0
    requires w.top + ExpandCount(AlignUp4(size)) >= l.limit
          || FitOf(GrowListed(HeapOf(w, c), ExpandCount(AlignUp4(size)), slots), AlignUp4(size)) < 0
    requires r.status == Halted && PayloadsKept(w.mem, r.w.mem, UsedBlocks(c))
    ensures KmallocDid(w, c, r, d, l, slots, size, stale)
  {
    GrowThenStop(HeapOf(w, c), l, slots, size, stale);
  }

  /** When it does. */
  lemma GrowDid(w: Words, c: Chain, l: Layout, slots: nat, size: nat, g: Heap, r: Reply, d: Chain, stale: bool)
    requires Shows(w, c, l, slots) && Answers(HeapOf(w, c), size) && FitOf(HeapOf(w, c), AlignUp4(size)) < 0
    requires g == GrowListed(HeapOf(w, c), ExpandCount(AlignUp4(size)), slots) && g.s.top < l.limit
    requires FitOf(g, AlignUp4(size)) >= 0
    requires CarveListed(g, FitOf(g, AlignUp4(size)), AlignUp4(size), stale, slots) == Ok(HeapOf(r.w, d), r.ptr)
    requires r.status == Returned && Shows(r.w, d, l, slots) && PayloadsKept(w.mem, r.w.mem, UsedBlocks(c))
    ensures KmallocDid(w, c, r, d, l, slots, size, stale)
  {
    GrowThenCarve(HeapOf(w, c), l, slots, size, stale, g, HeapOf(r.w, d), r.ptr);
  }

  lemma KeptTwice(m: Memory, m1: Memory, m2: Memory, live: set<Block>)
    requires PayloadsKept(m, m1, live) && PayloadsKept(m1, m2, live)
    ensures PayloadsKept(m, m2, live)
  {
  }

  /** After an expansion to `v`, which shows the heap `g`. */
  lemma GrownDid(w: Words, c: Chain, l: Layout, slots: nat, size: nat, n: nat, v: Words, g: Heap, r: Reply, stale: bool)
    returns (d: Chain)
    requires Shows(w, c, l, slots) && n == AlignUp4(size) && Answers(HeapOf(w, c), size) && FitOf(HeapOf(w, c), n) < 0
    requires g == GrowListed(HeapOf(w, c), ExpandCount(n), slots) && g.s.top < l.limit
    requires HeapOf(v, g.s.chain) == g && PayloadsKept(w.mem, v.mem, UsedBlocks(c))
    requires Took(v, g.s.chain, l, slots, n, r, stale)
    ensures r.status in {Returned, Halted} && KmallocDid(w, c, r, d, l, slots, size, stale)
  {
    GrowUsed(HeapOf(w, c).s, l, ExpandCount(n));
    KeptTwice(w.mem, v.mem, r.w.mem, UsedBlocks(c));
    if FitOf(g, n) < 0 {
      d := c;
      StopDid(w, c, l, slots, size, r, d, stale);
    } else {
      d := Split(g.s.chain, FitOf(g, n), n);
      GrowDid(w, c, l, slots, size, g, r, d, stale);
    }
  }

  /** `kmalloc` on memory that encodes a chain. */
  lemma KmallocRefines(w: Words, c: Chain, l: Layout, slots: nat, size: nat, r: Reply) returns (d: Chain, stale: bool)
    requires Shows(w, c, l, slots) && Answers(HeapOf(w, c), size) && r == KmallocWords(w, l.limit, slots, size)
    ensures KmallocDid(w, c, r, d, l, slots, size, stale) && r.status in {Returned, Halted}
  {
    var n, i := AlignUp4(size), FitOf(HeapOf(w, c), AlignUp4(size));
    FindRefines(w, c, l, slots, n);
    if i >= 0 {
      RoomBelow(HeapOf(w, c).s, l, i, n);
      KmallocTakes(w, l.limit, slots, size, n);
      var t, st := TakeRefines(w, c, l, slots, n);
      stale := st;
      d := FitDid(w, c, l, slots, size, n, t, stale);
    } else {
      var e, g := ExpandRefines(w, c, l, slots, ExpandCount(n));
      KmallocGrows(w, l.limit, slots, size, n, e);
      if w.top + ExpandCount(n) >= l.limit {
        d, stale := c, false;
        StopDid(w, c, l, slots, size, e, d, stale);
      } else {
        var t, st := TakeRefines(e.w, g.s.chain, l, slots, n);
        stale := st;
        d := GrownDid(w, c, l, slots, size, n, e.w, g, t, stale);
      }
    }
  }

  /** When a heap in order halts or hangs a `kmalloc`, as far as that does not depend on the word that
      `heap_list_end_ptr` names. The rounded size and the new top are 32-bit values. */
  lemma KmallocEnds(w: Words, c: Chain, l: Layout, slots: nat, size: nat, n: nat, r: Reply)
    requires Shows(w, c, l, slots) && n == Wrap(AlignUp4(size)) && r == KmallocWords(w, l.limit, slots, size)
    ensures if FitOf(HeapOf(w, c), n) >= 0 then r.status == Returned
            else if n >= TWO32 - EXPAND_SIZE then r.status == Hung && r.w == w
            else Wrap(w.top + ExpandCount(n)) >= l.limit ==> r.status == Halted
  {
    WrapAligned(AlignUp4(size));
    FindRefines(w, c, l, slots, n);
    if FitOf(HeapOf(w, c), n) >= 0 {
      RequestTakes(w, l.limit, slots, n);
      var _, _ := TakeRefines(w, c, l, slots, n);
    } else {
      RequestEnds(w, l.limit, slots, n);
    }
  }

  lemma WrapAligned(x: int)
    requires x % 4 == 0
    ensures Wrap(x) % 4 == 0
  {
  }

  lemma RequestTakes(w: Words, limit: int, slots: nat, n: nat)
    requires Checked(w) && FindNode(w.mem, w.listed, n) != 0
    ensures RequestWords(w, limit, slots, n) == TakeWords(w, slots, n)
  {
  }

  lemma RequestEnds(w: Words, limit: int, slots: nat, n: nat)
    requires Checked(w) && FindNode(w.mem, w.listed, n) == 0
    ensures n >= TWO32 - EXPAND_SIZE ==> RequestWords(w, limit, slots, n) == Reply(w, 0, Hung)
    ensures n < TWO32 - EXPAND_SIZE && Wrap(w.top + ExpandCount(n)) >= limit ==>
              RequestWords(w, limit, slots, n).status == Halted
  {
  }

  lemma RoomBelow(s: State, l: Layout, i: nat, n: nat)
    requires Inv(s, l) && i < |s.chain| && Fits(s.chain[i], n)
    ensures n < TWO32
  {
    ChainFits(s, l);
    TiledAt(s.chain, l.lo, ChainEnd(s.chain), i);
  }
}
