/** Calls of kernel/kheap.c after which memory no longer encodes a heap: a block freed twice, and an
    expansion behind a wrong `heap_list_end_ptr`. */
module HeapFaults {
  import opened HeapCalls
  import opened HeapChain
  import opened HeapLists
  import opened HeapMemory
  import opened HeapRuns
  import opened HeapWords
  import opened Machine

  // ---------------------------------------------------------------- memory determines its chain

  lemma {:induction false} EncodesAgree(m: Memory, c: Chain, d: Chain, k: nat)
    requires Encodes(m, c) && Encodes(m, d) && c != [] && d != [] && c[0].addr == d[0].addr && k < |c|
    requires forall i :: 0 <= i < |c| ==> c[i].addr > 0
    ensures k < |d| && c[k] == d[k]
  {
    if k > 0 {
      EncodesAgree(m, c, d, k - 1);
      assert Encoded(m, c, k - 1) && Encoded(m, d, k - 1);
    }
    assert Encoded(m, c, k) && Encoded(m, d, k);
  }

  /** Two chains that start at the same header of the same memory are the same. */
  lemma EncodesUnique(m: Memory, c: Chain, d: Chain)
    requires Encodes(m, c) && Encodes(m, d) && c != [] && d != [] && c[0].addr == d[0].addr
    requires forall i :: 0 <= i < |c| ==> c[i].addr > 0
    requires forall i :: 0 <= i < |d| ==> d[i].addr > 0
    ensures c == d
  {
    EncodesAgree(m, c, d, |c| - 1);
    EncodesAgree(m, d, c, |d| - 1);
    forall k | 0 <= k < |c| ensures c[k] == d[k] {
      EncodesAgree(m, c, d, k);
    }
  }

  /** Some chain tiles the heap and is what memory holds. */
  ghost predicate Intact(m: Memory, lo: int, hi: int) {
    exists d: Chain :: d != [] && Tiled(d, lo, hi) && Encodes(m, d)
  }

  // ---------------------------------------------------------------- kfree twice

  /** Block `f` with a wrong size. */
  lemma ResizedBroken(m: Memory, c: Chain, lo: int, hi: int, f: nat, b: Block)
    requires 0 < lo && Tiled(c, lo, hi) && f < |c| && b.addr == c[f].addr && b.size != c[f].size
    requires Encodes(m, Splice(c, f, f + 1, [b]))
    ensures !Intact(m, lo, hi)
  {
    var r := Splice(c, f, f + 1, [b]);
    assert r[f] == b && (forall k :: 0 <= k < |c| && k != f ==> r[k] == c[k]);
    TiledOrderAll(c, lo, hi);
    TiledAt(c, lo, hi, 0);
    forall d: Chain | d != [] && Tiled(d, lo, hi) ensures !Encodes(m, d) {
      TiledOrderAll(d, lo, hi);
      TiledAt(d, lo, hi, 0);
      if Encodes(m, d) {
        EncodesUnique(m, r, d);
        TiledAround(c, lo, hi, f);
        TiledAround(r, lo, hi, f);
        TiledAt(c, lo, hi, f);
        TiledAt(r, lo, hi, f);
      }
    }
  }

  /** The header that is left behind when block `i` is merged into the FREE block before it. */
  ghost predicate LeftBehind(m: Memory, c: Chain, f: nat, node: int)
    requires f < |c|
  {
    var h := HeaderAt(m, node);
    h.magic == MAGIC_FREE && h.prev == c[f].addr && h.next == NextOf(c, f + 1) && 0 <= h.size < TWO32 - HEADER_SIZE
  }

  lemma MergeLeavesBehind(m: Memory, c: Chain, lo: int, hi: int, f: nat)
    requires 0 < lo && Tiled(c, lo, hi) && hi < TWO32 && Encodes(m, c) && f + 1 < |c| && !c[f + 1].used
    ensures LeftBehind(MergeMemory(m, c, f), Merge(c, f), f, c[f + 1].addr)
    ensures HeaderAt(MergeMemory(m, c, f), c[f + 1].addr) == HeaderAt(m, c[f + 1].addr)
    ensures forall k :: 0 <= k < |Merge(c, f)| ==> Apart(c[f + 1].addr, Merge(c, f)[k].addr)
  {
    var node, next, prev := c[f + 1].addr, NextOf(c, f + 2), PrevOf(c, f);
    var d := Merge(c, f);
    TiledOrderAll(c, lo, hi);
    forall k | 0 <= k < |d| ensures Apart(node, d[k].addr) {
      assert d[k].addr == c[if k <= f then k else k + 1].addr;
    }
    assert Encoded(m, c, f + 1);
    RelinkKeeps(m, next, prev, c[f].addr, c[f].addr, node);
    FrameKeeps(Relink(m, next, prev, c[f].addr, c[f].addr), MergeMemory(m, c, f), c[f].addr, node);
    assert NextOf(d, f + 1) == NextOf(c, f + 2);
  }

  /** So it is after a `kfree` whose left neighbour is FREE. */
  lemma FreeLeavesBehind(m: Memory, c: Chain, lo: int, hi: int, i: nat)
    requires 0 < lo && Tiled(c, lo, hi) && hi < TWO32 && Encodes(m, c)
    requires 0 < i < |c| && !c[i].used && !c[i - 1].used
    ensures LeftBehind(MergesMemory(m, c, i), Release(c, i), i - 1, c[i].addr)
    ensures forall k :: 0 <= k < |Release(c, i)| ==> Apart(c[i].addr, Release(c, i)[k].addr)
  {
    MergeStepsAgree(c, lo, hi, i);
    var m1, c1 := RightRefines(m, c, lo, hi, i);
    assert !c1[i].used && c1[..i][i - 1] == c[..i][i - 1];
    MergeLeavesBehind(m1, c1, lo, hi, i - 1);
  }

  /** Marking it FREE again changes nothing that is read. */
  lemma MarkedAgain(m: Memory, c: Chain, f: nat, node: int)
    requires Encodes(m, c) && f < |c| && LeftBehind(m, c, f, node)
    requires forall k :: 0 <= k < |c| ==> Apart(node, c[k].addr)
    ensures Encodes(MarkFreeAt(m, node), c) && LeftBehind(MarkFreeAt(m, node), c, f, node)
  {
    forall k | 0 <= k < |c| ensures Encoded(MarkFreeAt(m, node), c, k) {
      assert Encoded(m, c, k);
      FrameKeeps(m, MarkFreeAt(m, node), node, c[k].addr);
    }
  }

  lemma OnlyLeft(w: Words, slots: nat, node: int, h: Header)
    requires h == HeaderAt(w.mem, node) && !FreeAt(w.mem, h.next) && FreeAt(w.mem, h.prev)
    ensures Merges(w, slots, node).mem == MergeLeftAt(w.mem, node)
  {
  }

  /** The FREE block before it takes it in once more. */
  lemma MergedAgain(m: Memory, c: Chain, lo: int, hi: int, f: nat, node: int)
    requires 0 < lo && Tiled(c, lo, hi) && hi < TWO32 && Encodes(m, c) && f < |c| && LeftBehind(m, c, f, node)
    ensures !Intact(MergeLeftAt(m, node), lo, hi)
  {
    var b := Block(c[f].addr, Wrap(HeaderAt(m, node).size + c[f].size + HEADER_SIZE), false);
    TiledAt(c, lo, hi, f);
    assert Encoded(m, c, f);
    assert MergeLeftAt(m, node) == RewriteOne(m, NextOf(c, f + 1), PrevOf(c, f), b);
    RewriteOneEncodes(m, c, lo, hi, f, f + 1, b);
    ResizedBroken(MergeLeftAt(m, node), c, lo, hi, f, b);
  }

  lemma SecondMerge(w: Words, slots: nat, c: Chain, lo: int, hi: int, f: nat, node: int)
    requires 0 < lo && Tiled(c, lo, hi) && hi < TWO32 && Encodes(w.mem, c) && Coalesced(c)
    requires f < |c| && !c[f].used && LeftBehind(w.mem, c, f, node)
    ensures !Intact(Merges(w, slots, node).mem, lo, hi)
  {
    assert f + 1 < |c| ==> Separated(c, f);
    FreeNeighbours(w.mem, c, lo, hi, f);
    TiledAt(c, lo, hi, f);
    assert Encoded(w.mem, c, f);
    OnlyLeft(w, slots, node, HeaderAt(w.mem, node));
    MergedAgain(w.mem, c, lo, hi, f, node);
  }

  /** The first `kfree` of block `i`. */
  lemma FreeOnce(w: Words, c: Chain, l: Layout, slots: nat, i: nat, ptr: int, r: Reply)
    requires Shows(w, c, l, slots) && i < |c| && ptr == c[i].addr + HEADER_SIZE && r == KfreeWords(w, slots, ptr)
    ensures r.status == Returned && Shows(r.w, Release(c, i), l, slots) && ChainEnd(Release(c, i)) == ChainEnd(c)
    ensures r.w.listed == Relisted(c, i, w.listed, slots) && r.w.top == w.top && r.w.endPtr == w.endPtr
  {
    TiledAt(c, l.lo, ChainEnd(c), i);
    IndexOfTiled(c, l.lo, ChainEnd(c), i);
    var d := KfreeRefines(w, c, l, slots, ptr, r);
    assert d == Release(c, i);
    ReleaseInv(HeapOf(w, c).s, l, i);
  }

  /** The second, when the first has left the header in the chain. */
  lemma KeptBySecond(d: Chain, l: Layout, slots: nat, i: nat, a: int, v: Words, r: Reply)
    requires Shows(v, d, l, slots) && a > 0 && IndexOf(d, a) == i && Release(d, i) == d
    requires r == KfreeWords(v, slots, a + HEADER_SIZE)
    ensures r.status == Returned && Shows(r.w, d, l, slots)
  {
    var e := KfreeRefines(v, d, l, slots, a + HEADER_SIZE, r);
    assert e == d;
  }

  /** A second `kfree` of block `i` leaves a heap if and only if the block before it was not FREE at the
      first one; then it leaves the chain as it is. */
  lemma DoubleFreeExactly(w: Words, c: Chain, l: Layout, slots: nat, i: nat) returns (r1: Reply, r2: Reply)
    requires Shows(w, c, l, slots) && i < |c|
    ensures r1 == KfreeWords(w, slots, c[i].addr + HEADER_SIZE) && r1.status == Returned
    ensures r2 == KfreeWords(r1.w, slots, c[i].addr + HEADER_SIZE) && r2.status == Returned
    ensures Shows(r1.w, Release(c, i), l, slots)
    ensures Intact(r2.w.mem, l.lo, ChainEnd(c)) <==> i == 0 || c[i - 1].used
    ensures i == 0 || c[i - 1].used ==> Shows(r2.w, Release(c, i), l, slots)
  {
    var ptr := c[i].addr + HEADER_SIZE;
    r1 := KfreeWords(w, slots, ptr);
    FreeOnce(w, c, l, slots, i, ptr, r1);
    r2 := Second(w, c, l, slots, i, r1.w);
  }

  lemma Second(w: Words, c: Chain, l: Layout, slots: nat, i: nat, v: Words) returns (r: Reply)
    requires Shows(w, c, l, slots) && i < |c| && v == KfreeWords(w, slots, c[i].addr + HEADER_SIZE).w
    requires Shows(v, Release(c, i), l, slots) && ChainEnd(Release(c, i)) == ChainEnd(c)
    ensures r == KfreeWords(v, slots, c[i].addr + HEADER_SIZE) && r.status == Returned
    ensures Intact(r.w.mem, l.lo, ChainEnd(c)) <==> i == 0 || c[i - 1].used
    ensures i == 0 || c[i - 1].used ==> Shows(r.w, Release(c, i), l, slots)
  {
    r := KfreeWords(v, slots, c[i].addr + HEADER_SIZE);
    if i == 0 || c[i - 1].used {
      TiledAt(c, l.lo, ChainEnd(c), i);
      ReleasedKept(c, l.lo, ChainEnd(c), i, Release(c, i));
      KeptBySecond(Release(c, i), l, slots, i, c[i].addr, v, r);
    } else {
      BrokenBySecond(w, c, l, slots, i, v, r);
    }
  }

  lemma BrokenBySecond(w: Words, c: Chain, l: Layout, slots: nat, i: nat, v: Words, r: Reply)
    requires Shows(w, c, l, slots) && 0 < i < |c| && !c[i - 1].used
    requires v == KfreeWords(w, slots, c[i].addr + HEADER_SIZE).w
    requires r == KfreeWords(v, slots, c[i].addr + HEADER_SIZE)
    requires Shows(v, Release(c, i), l, slots)
    ensures r.status == Returned && !Intact(r.w.mem, l.lo, ChainEnd(c))
  {
    var node, hi, d := c[i].addr, ChainEnd(c), Release(c, i);
    ChainFits(HeapOf(w, c).s, l);
    TiledAt(c, l.lo, hi, i);
    EncodedMagics(w.mem, c);
    KfreeIs(w, slots, node + HEADER_SIZE, node);
    FirstLeavesBehind(w, slots, c, l.lo, hi, i, v);
    KfreeIs(v, slots, node + HEADER_SIZE, node);
    MarkedAgain(v.mem, d, i - 1, node);
    ReleaseTiled(c, l.lo, hi, i);
    SecondMerge(v.(mem := MarkFreeAt(v.mem, node)), slots, d, l.lo, hi, i - 1, node);
  }

  lemma FirstLeavesBehind(w: Words, slots: nat, c: Chain, lo: int, hi: int, i: nat, v: Words)
    requires 0 < lo && Tiled(c, lo, hi) && hi < TWO32 && Encodes(w.mem, c) && 0 < i < |c| && !c[i - 1].used
    requires v == Merges(w.(mem := MarkFreeAt(w.mem, c[i].addr)), slots, c[i].addr)
    ensures LeftBehind(v.mem, Release(c, i), i - 1, c[i].addr) && !Release(c, i)[i - 1].used
    ensures forall k :: 0 <= k < |Release(c, i)| ==> Apart(c[i].addr, Release(c, i)[k].addr)
  {
    var u, c0 := w.(mem := MarkFreeAt(w.mem, c[i].addr)), Marked(c, i);
    MarkRefines(w.mem, c, lo, hi, i);
    MarkedSame(c, i, w.listed, slots);
    MarkedRelease(c, lo, hi, i);
    MergesRefine(u, slots, c0, lo, hi, i);
    FreeLeavesBehind(u.mem, c0, lo, hi, i);
  }

  /** A `kmalloc` that one listed block fits. */
  lemma FitStep(w: Words, c: Chain, l: Layout, slots: nat, n: nat, i: nat) returns (r: Reply, stale: bool)
    requires Shows(w, c, l, slots) && n % 4 == 0 && i < |c| && Fits(c[i], n) && c[i].addr in w.listed
    requires forall k :: 0 <= k < |c| && Fits(c[k], n) && c[k].addr in w.listed ==> k == i
    ensures r == KmallocWords(w, l.limit, slots, n) && r.status == Returned && r.ptr == c[i].addr + HEADER_SIZE
    ensures Shows(r.w, Split(c, i, n), l, slots) && StaleFits(c, i, n, stale)
    ensures HeapOf(r.w, Split(c, i, n)) == CarveListed(HeapOf(w, c), i, n, stale, slots).heap
  {
    assert Fits(Seen(c, w.listed)[i], n);
    assert FitOf(HeapOf(w, c), n) == i;
    FindRefines(w, c, l, slots, n);
    RoomBelow(HeapOf(w, c).s, l, i, n);
    KmallocTakes(w, l.limit, slots, n, n);
    r, stale := TakeRefines(w, c, l, slots, n);
  }

  /** Such a call after a run. */
  lemma MallocCall(l: Layout, slots: nat, calls: seq<Call>, replies: seq<Reply>, c: Chain, n: nat, i: nat)
    returns (r: Reply, stale: bool)
    requires IsCallRun(l, slots, calls, replies) && calls != []
    requires var w := replies[|calls| - 1].w;
             && Shows(w, c, l, slots) && n % 4 == 0 && i < |c| && Fits(c[i], n) && c[i].addr in w.listed
             && forall k :: 0 <= k < |c| && Fits(c[k], n) && c[k].addr in w.listed ==> k == i
    ensures IsCallRun(l, slots, calls + [Malloc(n)], replies + [r]) && r.ptr == c[i].addr + HEADER_SIZE
    ensures Shows(r.w, Split(c, i, n), l, slots) && StaleFits(c, i, n, stale)
    ensures HeapOf(r.w, Split(c, i, n)) == CarveListed(HeapOf(replies[|calls| - 1].w, c), i, n, stale, slots).heap
  {
    r, stale := FitStep(replies[|calls| - 1].w, c, l, slots, n, i);
    OneMore(l, slots, calls, replies, Malloc(n), r);
  }

  /** A `kfree` of block `i` after a run. */
  lemma FreeCall(l: Layout, slots: nat, calls: seq<Call>, replies: seq<Reply>, c: Chain, i: nat, ptr: int)
    returns (r: Reply)
    requires IsCallRun(l, slots, calls, replies) && calls != []
    requires Shows(replies[|calls| - 1].w, c, l, slots) && i < |c| && ptr == c[i].addr + HEADER_SIZE
    ensures IsCallRun(l, slots, calls + [Free(ptr)], replies + [r]) && Shows(r.w, Release(c, i), l, slots)
    ensures var w := replies[|calls| - 1].w;
            r.w.listed == Relisted(c, i, w.listed, slots) && r.w.top == w.top && r.w.endPtr == w.endPtr
  {
    r := KfreeWords(replies[|calls| - 1].w, slots, ptr);
    FreeOnce(replies[|calls| - 1].w, c, l, slots, i, ptr, r);
    OneMore(l, slots, calls, replies, Free(ptr), r);
  }

  /** Two of them. */
  lemma FreeTwice(l: Layout, slots: nat, calls: seq<Call>, replies: seq<Reply>, c: Chain, i: nat, ptr: int)
    returns (r1: Reply, r2: Reply)
    requires IsCallRun(l, slots, calls, replies) && calls != []
    requires Shows(replies[|calls| - 1].w, c, l, slots) && i < |c| && ptr == c[i].addr + HEADER_SIZE
    ensures IsCallRun(l, slots, calls + [Free(ptr)] + [Free(ptr)], replies + [r1] + [r2])
    ensures Intact(r2.w.mem, l.lo, ChainEnd(c)) <==> i == 0 || c[i - 1].used
  {
    r1, r2 := DoubleFreeExactly(replies[|calls| - 1].w, c, l, slots, i);
    OneMore(l, slots, calls, replies, Free(ptr), r1);
    OneMore(l, slots, calls + [Free(ptr)], replies + [r1], Free(ptr), r2);
  }

  function AfterOne(lo: int): Chain {
    [Block(lo, 100, true), Block(lo + 116, 3964, false)]
  }

  /** The first block of an empty heap. */
  lemma FirstCarve(l: Layout, slots: nat, stale: bool)
    requires slots >= 2
    ensures InitListed(l, slots).listed == {l.lo} && Split(Init(l).chain, 0, 100) == AfterOne(l.lo)
    ensures CarveListed(InitListed(l, slots), 0, 100, stale, slots).heap ==
            Heap(State(AfterOne(l.lo), l.lo + 4096, l.lo + 116), {l.lo + 116})
  {
    assert {l.lo} - {l.lo} == {};
    assert Split(Init(l).chain, 0, 100) == AfterOne(l.lo);
  }

  /** `kmalloc(100)` right after `init_kheap`. */
  lemma FirstCall(l: Layout, slots: nat) returns (r: Reply)
    requires ValidLayout(l) && slots >= 2
    ensures r == Do(InitWords(l, slots), l, slots, Malloc(100)) && r.status == Returned && r.ptr == l.lo + 16
    ensures Shows(r.w, AfterOne(l.lo), l, slots)
    ensures r.w.listed == {l.lo + 116} && r.w.top == l.lo + 4096 && r.w.endPtr == l.lo + 116
  {
    InitShows(l, slots);
    FirstCarve(l, slots, false);
    var t, stale := FitStep(InitWords(l, slots), Init(l).chain, l, slots, 100, 0);
    FirstCarve(l, slots, stale);
    r := t;
  }

  lemma FirstRun(l: Layout, slots: nat) returns (replies: seq<Reply>)
    requires ValidLayout(l) && slots >= 2
    ensures IsCallRun(l, slots, [Malloc(100)], replies) && replies[0].ptr == l.lo + 16
    ensures var w := replies[0].w;
            && Shows(w, AfterOne(l.lo), l, slots)
            && w.listed == {l.lo + 116} && w.top == l.lo + 4096 && w.endPtr == l.lo + 116
  {
    var r := FirstCall(l, slots);
    OneMore(l, slots, [], [], Malloc(100), r);
    assert [] + [Malloc(100)] == [Malloc(100)] && [] + [r] == [r];
    replies := [r];
  }

  // ---------------------------------------------------------------- a wrong end pointer, absorbed

  /** After `kfree` of that block: its neighbour is absorbed, and `heap_list_end_ptr` still on it. */
  ghost predicate EndAbsorbed(w: Words, lo: int) {
    && w.listed == {lo} && w.top == lo + 4096 && w.endPtr == lo + 116
    && HeaderAt(w.mem, lo) == Header(MAGIC_FREE, 0, 0, 4080)
    && HeaderAt(w.mem, lo + 116) == Header(MAGIC_FREE, 0, lo, 3964)
  }

  lemma SecondCall(l: Layout, slots: nat, replies: seq<Reply>) returns (r: Reply)
    requires IsCallRun(l, slots, [Malloc(100)], replies) && Shows(replies[0].w, AfterOne(l.lo), l, slots) && slots >= 2
    requires var w := replies[0].w; w.listed == {l.lo + 116} && w.top == l.lo + 4096 && w.endPtr == l.lo + 116
    ensures IsCallRun(l, slots, [Malloc(100)] + [Free(l.lo + 16)], replies + [r]) && EndAbsorbed(r.w, l.lo)
  {
    var w, c, lo := replies[0].w, AfterOne(l.lo), l.lo;
    r := FreeCall(l, slots, [Malloc(100)], replies, c, 0, lo + 16);
    assert CallAt(l, slots, [Malloc(100)] + [Free(lo + 16)], replies + [r], 1);
    AbsorbsSecond(w, l, slots, r);
  }

  lemma AbsorbsSecond(w: Words, l: Layout, slots: nat, r: Reply)
    requires Shows(w, AfterOne(l.lo), l, slots) && slots >= 2 && r == KfreeWords(w, slots, l.lo + 16)
    requires w.listed == {l.lo + 116} && w.top == l.lo + 4096 && w.endPtr == l.lo + 116
    requires Shows(r.w, Release(AfterOne(l.lo), 0), l, slots)
    requires r.w.listed == Relisted(AfterOne(l.lo), 0, w.listed, slots) && r.w.top == w.top && r.w.endPtr == w.endPtr
    ensures EndAbsorbed(r.w, l.lo)
  {
    var c, lo := AfterOne(l.lo), l.lo;
    assert Release(c, 0) == [Block(lo, 4080, false)];
    assert Encoded(r.w.mem, Release(c, 0), 0);
    assert {lo + 116} - {lo, lo + 116} == {};
    ChainFits(HeapOf(w, c).s, l);
    EncodedMagics(w.mem, c);
    KfreeIs(w, slots, lo + 16, lo);
    SecondHeader(w, slots, lo);
  }

  lemma SecondHeader(w: Words, slots: nat, lo: int)
    requires 0 < lo < TWO32 - 4096 && Tiled(AfterOne(lo), lo, lo + 4096) && Encodes(w.mem, AfterOne(lo))
    ensures var v := Merges(w.(mem := MarkFreeAt(w.mem, lo)), slots, lo);
            HeaderAt(v.mem, lo + 116) == Header(MAGIC_FREE, 0, lo, 3964)
  {
    var c := AfterOne(lo);
    var u, d := w.(mem := MarkFreeAt(w.mem, lo)), Marked(c, 0);
    MarkRefines(w.mem, c, lo, lo + 4096, 0);
    assert d == [Block(lo, 100, false), Block(lo + 116, 3964, false)];
    MergesRefine(u, slots, d, lo, lo + 4096, 0);
    MergeLeavesBehind(u.mem, d, lo, lo + 4096, 0);
    assert Encoded(u.mem, d, 1);
  }

  /** `expand_heap` then takes the absorbed header for the last one. */
  ghost predicate Appended(w: Words, lo: int) {
    && w.listed == {lo} && w.top == lo + 12288 && w.endPtr == lo + 116
    && HeaderAt(w.mem, lo) == Header(MAGIC_FREE, 0, 0, 4080)
    && HeaderAt(w.mem, lo + 116) == Header(MAGIC_FREE, lo + 4096, lo, 3964)
    && HeaderAt(w.mem, lo + 4096) == Header(MAGIC_FREE, 0, lo + 116, 8192)
  }

  lemma AppendStep(w: Words, l: Layout) returns (u: Words)
    requires ValidLayout(l) && EndAbsorbed(w, l.lo) && l.lo + 12288 < l.limit
    ensures AppendWords(w, l.limit, 8192) == Reply(u, l.lo + 4096, Returned) && Appended(u, l.lo)
  {
    var lo := l.lo;
    var m1 := SetHeader(w.mem, lo + 4096, false, 0, lo + 116, 8192);
    var m2 := SetNext(m1, lo + 116, lo + 4096);
    FrameKeeps(w.mem, m1, lo + 4096, lo);
    FrameKeeps(w.mem, m1, lo + 4096, lo + 116);
    FrameKeeps(m1, m2, lo + 116, lo);
    FrameKeeps(m1, m2, lo + 116, lo + 4096);
    AppendIs(w, l.limit, 8192, lo + 4096, m2);
    u := Words(m2, w.listed, lo + 12288, w.endPtr);
  }

  /** It merges the new node with it, and links the first block to the result. */
  ghost predicate Expanded(w: Words, lo: int) {
    && w.listed == {lo, lo + 116} && w.top == lo + 12288 && w.endPtr == lo + 4096
    && HeaderAt(w.mem, lo) == Header(MAGIC_FREE, lo + 116, 0, 4080)
    && HeaderAt(w.mem, lo + 116) == Header(MAGIC_FREE, 0, lo, 12172)
  }

  lemma MergeStep(w: Words, lo: int, slots: nat) returns (v: Words)
    requires 0 < lo < TWO32 - 12288 - HEADER_SIZE && Appended(w, lo) && slots >= 3
    ensures ListWords(w, slots, lo + 4096) == Reply(v, 0, Returned) && Expanded(v, lo)
  {
    var u := w.(listed := Inserted(w.listed, lo + 4096, slots));
    var b := Block(lo + 116, 12172, false);
    var m1 := SetNext(w.mem, lo, lo + 116);
    FrameKeeps(w.mem, m1, lo, lo + 116);
    var m2 := SetHeader(m1, lo + 116, false, 0, lo, 12172);
    FrameKeeps(m1, m2, lo + 116, lo);
    assert MergeLeftAt(w.mem, lo + 4096) == m2;
    OnlyLeft(u, slots, lo + 4096, HeaderAt(w.mem, lo + 4096));
    assert {lo, lo + 4096} - {lo + 4096} - {lo + 116} == {lo};
    v := ListWords(w, slots, lo + 4096).w;
  }

  /** A search that finds node `a`, and its split in two. */
  lemma PartStep(w: Words, slots: nat, n: nat, a: int, h: Header, f: Block) returns (m: Memory)
    requires Checked(w) && BestNode(w.mem, w.listed, n, a) && 0 < a && a + n + HEADER_SIZE < TWO32
    requires h == HeaderAt(w.mem, a) && h.size - n > SPLIT_THRESHOLD
    requires f == Block(a + HEADER_SIZE + n, h.size - n - HEADER_SIZE, false)
    ensures m == RewriteTwo(w.mem, h.next, h.prev, Block(a, n, true), f)
    ensures HeaderAt(m, a) == Header(MAGIC_USED, f.addr, h.prev, n)
    ensures HeaderAt(m, f.addr) == Header(MAGIC_FREE, h.next, a, f.size)
    ensures TakeWords(w, slots, n) ==
            Reply(Words(m, Inserted(w.listed - {a}, f.addr, slots), w.top, if h.next == 0 then f.addr else w.endPtr),
                  a + HEADER_SIZE, Returned)
  {
    var u := Block(a, n, true);
    BestNodeUnique(w.mem, w.listed, n, a);
    m := RewriteTwo(w.mem, h.next, h.prev, u, f);
    WrittenHeaders(Relink(w.mem, h.next, h.prev, u.addr, f.addr), h.next, h.prev, u, f);
    PartIs(w, slots, a, n, h, f, m);
  }

  /** The request is carved from what lies inside the first block. */
  ghost predicate Nested(w: Words, lo: int) {
    && w.listed == {lo, lo + 4228} && w.top == lo + 12288
    && HeaderAt(w.mem, lo) == Header(MAGIC_FREE, lo + 116, 0, 4080)
    && HeaderAt(w.mem, lo + 116) == Header(MAGIC_USED, lo + 4228, lo, 4096)
    && HeaderAt(w.mem, lo + 4228) == Header(MAGIC_FREE, 0, lo + 116, 8060)
  }

  lemma NestStep(w: Words, lo: int, slots: nat) returns (r: Reply)
    requires 0 < lo < TWO32 - 12288 - HEADER_SIZE && Expanded(w, lo) && slots >= 3
    ensures r == TakeWords(w, slots, 4096) && r.status == Returned && r.ptr == lo + 132 && Nested(r.w, lo)
  {
    var f := Block(lo + 4228, 8060, false);
    var m := PartStep(w, slots, 4096, lo + 116, HeaderAt(w.mem, lo + 116), f);
    var m1 := SetNext(w.mem, lo, lo + 116);
    var m2 := SetHeader(m1, f.addr, false, 0, lo + 116, f.size);
    FrameKeeps(m1, m2, f.addr, lo);
    FrameKeeps(m2, m, lo + 116, lo);
    assert {lo, lo + 116} - {lo + 116} == {lo};
    r := TakeWords(w, slots, 4096);
  }

  /** `kmalloc(4096)` in that state. */
  lemma ThirdCall(w: Words, l: Layout, slots: nat) returns (r: Reply)
    requires ValidLayout(l) && EndAbsorbed(w, l.lo) && l.lo + 12288 < l.limit && slots >= 3
    ensures r == Do(w, l, slots, Malloc(4096)) && r.status == Returned && r.ptr == l.lo + 132 && Nested(r.w, l.lo)
  {
    var u := AppendStep(w, l);
    var v := MergeStep(u, l.lo, slots);
    r := NestStep(v, l.lo, slots);
    ExpandIs(w, l.limit, slots, 8192, u, l.lo + 4096, Reply(v, 0, Returned));
    assert Checked(w) && FindNode(w.mem, w.listed, 4096) == 0;
    KmallocGrows(w, l.limit, slots, 4096, 4096, Reply(v, 0, Returned));
  }

  /** And `kmalloc(1000)` after it. */
  lemma FourthCall(w: Words, l: Layout, slots: nat) returns (r: Reply)
    requires ValidLayout(l) && Nested(w, l.lo) && l.lo + 12288 < l.limit
    ensures r == Do(w, l, slots, Malloc(1000)) && r.status == Returned && r.ptr == l.lo + 16
    ensures HeaderAt(r.w.mem, l.lo + 1016).magic == MAGIC_FREE
  {
    var lo := l.lo;
    var m := PartStep(w, slots, 1000, lo, HeaderAt(w.mem, lo), Block(lo + 1016, 3064, false));
    BestNodeUnique(w.mem, w.listed, 1000, lo);
    KmallocTakes(w, l.limit, slots, 1000, 1000);
    r := TakeWords(w, slots, 1000);
  }

  lemma AbsorbedEndRun(l: Layout, slots: nat) returns (replies: seq<Reply>)
    requires ValidLayout(l) && slots >= 2
    ensures IsCallRun(l, slots, [Malloc(100), Free(l.lo + 16)], replies) && EndAbsorbed(replies[1].w, l.lo)
  {
    replies := FirstRun(l, slots);
    var r := SecondCall(l, slots, replies);
    assert [Malloc(100)] + [Free(l.lo + 16)] == [Malloc(100), Free(l.lo + 16)];
    replies := replies + [r];
  }

  lemma NestedRun(l: Layout, slots: nat) returns (replies: seq<Reply>)
    requires ValidLayout(l) && l.lo + 12288 < l.limit && slots >= 3
    ensures IsCallRun(l, slots, [Malloc(100), Free(l.lo + 16), Malloc(4096)], replies)
    ensures replies[2].ptr == l.lo + 132 && Nested(replies[2].w, l.lo)
  {
    replies := AbsorbedEndRun(l, slots);
    var calls := [Malloc(100), Free(l.lo + 16)];
    var r := ThirdCall(replies[1].w, l, slots);
    OneMore(l, slots, calls, replies, Malloc(4096), r);
    assert calls + [Malloc(4096)] == [Malloc(100), Free(l.lo + 16), Malloc(4096)];
    replies := replies + [r];
  }

  /** So two live allocations overlap: 4096 bytes from `lo + 132` and 1000 bytes from `lo + 16`; and a
      FREE header is written into the first. */
  lemma AbsorbedEndOverlaps(l: Layout, slots: nat) returns (replies: seq<Reply>)
    requires ValidLayout(l) && l.lo + 12288 < l.limit && slots >= 3
    ensures IsCallRun(l, slots, [Malloc(100), Free(l.lo + 16), Malloc(4096), Malloc(1000)], replies)
    ensures var p, q := replies[2].ptr, replies[3].ptr; q < p < q + 1000 < p + 4096
    ensures HeaderAt(replies[3].w.mem, replies[3].ptr + 1000).magic == MAGIC_FREE
  {
    replies := NestedRun(l, slots);
    var calls := [Malloc(100), Free(l.lo + 16), Malloc(4096)];
    var r := FourthCall(replies[2].w, l, slots);
    OneMore(l, slots, calls, replies, Malloc(1000), r);
    assert calls + [Malloc(1000)] == [Malloc(100), Free(l.lo + 16), Malloc(4096), Malloc(1000)];
    replies := replies + [r];
  }

  // ---------------------------------------------------------------- a wrong end pointer, in the chain

  lemma StaleAppend(w: Words, c: Chain, l: Layout, slots: nat, amount: nat, i: nat) returns (u: Words)
    requires Shows(w, c, l, slots) && i + 1 < |c| && w.endPtr == c[i].addr && w.top + amount < l.limit
    ensures AppendWords(w, l.limit, amount) == Reply(u, c[i + 1].addr, Returned)
    ensures u.listed == w.listed && u.top == w.top + amount && u.endPtr == w.endPtr
    ensures HeaderAt(u.mem, c[i].addr) == HeaderOf(c, i)
    ensures HeaderAt(u.mem, c[i + 1].addr) == Header(MAGIC_FREE, 0, c[i].addr, w.top + amount - c[i + 1].addr)
    ensures forall k :: 0 <= k < |c| && k != i && k != i + 1 ==>
              HeaderAt(u.mem, c[k].addr) == HeaderAt(w.mem, c[k].addr)
    ensures c[i + 1].addr <= w.top
  {
    var end := c[i + 1].addr;
    ChainFits(HeapOf(w, c).s, l);
    TiledOrderAll(c, l.lo, ChainEnd(c));
    TiledAround(c, l.lo, ChainEnd(c), i);
    TiledAt(c, l.lo, ChainEnd(c), i + 1);
    assert Encoded(w.mem, c, i);
    var m1 := SetHeader(w.mem, end, false, 0, c[i].addr, w.top + amount - end);
    var m2 := SetNext(m1, c[i].addr, end);
    FrameKeeps(w.mem, m1, end, c[i].addr);
    FrameKeeps(m1, m2, c[i].addr, end);
    forall k | 0 <= k < |c| && k != i && k != i + 1 ensures HeaderAt(m2, c[k].addr) == HeaderAt(w.mem, c[k].addr) {
      FrameKeeps(w.mem, m1, end, c[k].addr);
      FrameKeeps(m1, m2, c[i].addr, c[k].addr);
    }
    AppendIs(w, l.limit, amount, end, m2);
    u := Words(m2, w.listed, w.top + amount, w.endPtr);
  }

  lemma NoMerge(w: Words, slots: nat, node: int, h: Header)
    requires h == HeaderAt(w.mem, node) && !FreeAt(w.mem, h.next) && !FreeAt(w.mem, h.prev)
    ensures Merges(w, slots, node) == w.(listed := Inserted(w.listed, node, slots))
  {
  }

  lemma StaleExpand(w: Words, c: Chain, l: Layout, slots: nat, amount: nat, i: nat, u: Words) returns (v: Words)
    requires i + 1 < |c| && c[i].used && c[i + 1].addr > 0 && c[i + 1].addr !in u.listed && |u.listed| + 1 < slots
    requires AppendWords(w, l.limit, amount) == Reply(u, c[i + 1].addr, Returned)
    requires HeaderAt(u.mem, c[i].addr).magic == MAGIC_USED
    requires HeaderAt(u.mem, c[i + 1].addr) == Header(MAGIC_FREE, 0, c[i].addr, u.top - c[i + 1].addr)
    ensures ExpandWords(w, l.limit, slots, amount) == Reply(v, 0, Returned)
    ensures v == Words(u.mem, u.listed + {c[i + 1].addr}, u.top, c[i + 1].addr)
  {
    var node := c[i + 1].addr;
    var x := u.(listed := u.listed + {node});
    NoMerge(x, slots, node, HeaderAt(u.mem, node));
    assert Inserted(x.listed, node, slots) == x.listed;
    v := x.(endPtr := node);
    ExpandIs(w, l.limit, slots, amount, u, node, Reply(v, 0, Returned));
  }

  /** Whatever it cuts off, a search that finds node `a` hands out its payload. */
  lemma TakeReturns(w: Words, slots: nat, n: nat, a: int)
    requires Checked(w) && BestNode(w.mem, w.listed, n, a) && 0 < a < TWO32 - HEADER_SIZE
    requires Wrap(a + n + HEADER_SIZE) != 0
    ensures TakeWords(w, slots, n).status == Returned && TakeWords(w, slots, n).ptr == a + HEADER_SIZE
  {
    BestNodeUnique(w.mem, w.listed, n, a);
  }

  /** The listed blocks read as before, and the new node is the only one that fits. */
  lemma StaleSearch(w: Words, c: Chain, l: Layout, slots: nat, n: nat, i: nat, u: Words, v: Words)
    requires Shows(w, c, l, slots) && i + 1 < |c| && c[i].used && c[i + 1].used && FitOf(HeapOf(w, c), n) < 0
    requires forall k :: 0 <= k < |c| && k != i && k != i + 1 ==>
               HeaderAt(u.mem, c[k].addr) == HeaderAt(w.mem, c[k].addr)
    requires HeaderAt(u.mem, c[i + 1].addr).magic == MAGIC_FREE && HeaderAt(u.mem, c[i + 1].addr).size >= n
    requires v.mem == u.mem && v.listed == w.listed + {c[i + 1].addr}
    ensures Checked(v) && BestNode(v.mem, v.listed, n, c[i + 1].addr)
  {
    forall a | a in w.listed ensures GoodMagic(v.mem, a) && HeaderAt(v.mem, a).size < n {
      var j := ListedBlock(w.mem, c, w.listed, a);
      assert !Fits(Seen(c, w.listed)[j], n);
    }
  }

  lemma StaleGrown(w: Words, c: Chain, l: Layout, slots: nat, n: nat, i: nat) returns (v: Words)
    requires Shows(w, c, l, slots) && i + 1 < |c| && w.endPtr == c[i].addr && c[i].used && c[i + 1].used
    requires FitOf(HeapOf(w, c), n) < 0 && w.top + ExpandCount(n) < l.limit && |w.listed| + 1 < slots
    ensures ExpandWords(w, l.limit, slots, ExpandCount(n)) == Reply(v, 0, Returned)
    ensures Checked(v) && BestNode(v.mem, v.listed, n, c[i + 1].addr)
    ensures 0 < c[i + 1].addr && c[i + 1].addr + n + HEADER_SIZE < TWO32
  {
    TiledAround(c, l.lo, ChainEnd(c), i);
    UsedAddr(c, l.lo, ChainEnd(c), i + 1);
    var u := StaleAppend(w, c, l, slots, ExpandCount(n), i);
    v := StaleExpand(w, c, l, slots, ExpandCount(n), i, u);
    StaleSearch(w, c, l, slots, n, i, u, v);
  }

  /** With `heap_list_end_ptr` on block `i` of the chain and a live block after it, a `kmalloc` that must
      expand returns that live block's own pointer. */
  lemma StaleEndHandsOut(w: Words, c: Chain, l: Layout, slots: nat, size: nat, i: nat) returns (r: Reply)
    requires Shows(w, c, l, slots) && i + 1 < |c| && w.endPtr == c[i].addr && c[i].used && c[i + 1] in UsedBlocks(c)
    requires FitOf(HeapOf(w, c), AlignUp4(size)) < 0 && w.top + ExpandCount(AlignUp4(size)) < l.limit
    requires |w.listed| + 1 < slots
    ensures r == KmallocWords(w, l.limit, slots, size) && r.status == Returned && r.ptr == c[i + 1].addr + HEADER_SIZE
  {
    var n := AlignUp4(size);
    var v := StaleGrown(w, c, l, slots, n, i);
    TakeReturns(v, slots, n, c[i + 1].addr);
    FindRefines(w, c, l, slots, n);
    KmallocGrows(w, l.limit, slots, size, n, Reply(v, 0, Returned));
    r := TakeWords(v, slots, n);
  }

  // ---------------------------------------------------------------- such runs

  function AfterTwo(lo: int): Chain {
    [Block(lo, 100, true), Block(lo + 116, 3964, true)]
  }

  function AfterThree(lo: int): Chain {
    [Block(lo, 100, false), Block(lo + 116, 3964, true)]
  }

  /** The states of the run that an exact fit leaves with a wrong end pointer. */
  lemma ExactFitCalls(l: Layout, slots: nat) returns (replies: seq<Reply>)
    requires ValidLayout(l) && slots >= 2
    ensures IsCallRun(l, slots, [Malloc(100), Malloc(3964), Free(l.lo + 16), Malloc(100)], replies)
    ensures replies[1].ptr == l.lo + 132
    ensures var w := replies[3].w;
            Shows(w, AfterTwo(l.lo), l, slots) && w.listed == {} && w.top == l.lo + 4096 && w.endPtr == l.lo
  {
    replies := ThreeCalls(l, slots);
    var lo, calls := l.lo, [Malloc(100), Malloc(3964), Free(l.lo + 16)];
    var r, stale := MallocCall(l, slots, calls, replies, AfterThree(lo), 100, 0);
    assert Split(AfterThree(lo), 0, 100) == AfterTwo(lo);
    assert calls + [Malloc(100)] == [Malloc(100), Malloc(3964), Free(lo + 16), Malloc(100)];
    replies := replies + [r];
  }

  lemma TwoCalls(l: Layout, slots: nat) returns (replies: seq<Reply>)
    requires ValidLayout(l) && slots >= 2
    ensures IsCallRun(l, slots, [Malloc(100), Malloc(3964)], replies) && replies[1].ptr == l.lo + 132
    ensures var w := replies[1].w;
            Shows(w, AfterTwo(l.lo), l, slots) && w.listed == {} && w.top == l.lo + 4096 && w.endPtr == l.lo + 116
  {
    replies := FirstRun(l, slots);
    var r, stale := MallocCall(l, slots, [Malloc(100)], replies, AfterOne(l.lo), 3964, 1);
    assert Split(AfterOne(l.lo), 1, 3964) == AfterTwo(l.lo);
    assert [Malloc(100)] + [Malloc(3964)] == [Malloc(100), Malloc(3964)];
    replies := replies + [r];
  }

  lemma ThreeCalls(l: Layout, slots: nat) returns (replies: seq<Reply>)
    requires ValidLayout(l) && slots >= 2
    ensures IsCallRun(l, slots, [Malloc(100), Malloc(3964), Free(l.lo + 16)], replies) && replies[1].ptr == l.lo + 132
    ensures var w := replies[2].w;
            Shows(w, AfterThree(l.lo), l, slots) && w.listed == {l.lo} && w.top == l.lo + 4096 && w.endPtr == l.lo + 116
  {
    replies := TwoCalls(l, slots);
    var calls := [Malloc(100), Malloc(3964)];
    var r := FreeCall(l, slots, calls, replies, AfterTwo(l.lo), 0, l.lo + 16);
    assert Release(AfterTwo(l.lo), 0) == AfterThree(l.lo);
    assert calls + [Free(l.lo + 16)] == [Malloc(100), Malloc(3964), Free(l.lo + 16)];
    replies := replies + [r];
  }

  /** The next request that expands, of whatever size, is given the pointer of the live 3964 bytes. */
  lemma ExactFitHandsOut(l: Layout, slots: nat, size: nat) returns (replies: seq<Reply>)
    requires ValidLayout(l) && slots >= 2 && l.lo + 4096 + ExpandCount(AlignUp4(size)) < l.limit
    ensures IsCallRun(l, slots, [Malloc(100), Malloc(3964), Free(l.lo + 16), Malloc(100), Malloc(size)], replies)
    ensures replies[4].ptr == replies[1].ptr
  {
    replies := ExactFitCalls(l, slots);
    var calls := [Malloc(100), Malloc(3964), Free(l.lo + 16), Malloc(100)];
    var r := StaleEndHandsOut(replies[3].w, AfterTwo(l.lo), l, slots, size, 0);
    OneMore(l, slots, calls, replies, Malloc(size), r);
    assert calls + [Malloc(size)] == [Malloc(100), Malloc(3964), Free(l.lo + 16), Malloc(100), Malloc(size)];
    replies := replies + [r];
  }

  // ---------------------------------------------------------------- the run with a second kfree

  function AfterSmall(lo: int): Chain {
    [Block(lo, 100, true), Block(lo + 116, 100, true), Block(lo + 232, 3848, false)]
  }

  function AfterFirstFree(lo: int): Chain {
    [Block(lo, 100, false), Block(lo + 116, 100, true), Block(lo + 232, 3848, false)]
  }

  lemma SmallCalls(l: Layout, slots: nat) returns (replies: seq<Reply>)
    requires ValidLayout(l) && slots >= 2
    ensures IsCallRun(l, slots, [Malloc(100), Malloc(100)], replies) && replies[1].ptr == l.lo + 132
    ensures Shows(replies[1].w, AfterSmall(l.lo), l, slots)
  {
    replies := FirstRun(l, slots);
    var r, stale := MallocCall(l, slots, [Malloc(100)], replies, AfterOne(l.lo), 100, 1);
    assert Split(AfterOne(l.lo), 1, 100) == AfterSmall(l.lo);
    assert [Malloc(100)] + [Malloc(100)] == [Malloc(100), Malloc(100)];
    replies := replies + [r];
  }

  lemma FirstFree(l: Layout, slots: nat) returns (replies: seq<Reply>)
    requires ValidLayout(l) && slots >= 2
    ensures IsCallRun(l, slots, [Malloc(100), Malloc(100), Free(l.lo + 16)], replies) && replies[1].ptr == l.lo + 132
    ensures Shows(replies[2].w, AfterFirstFree(l.lo), l, slots)
  {
    replies := SmallCalls(l, slots);
    var calls := [Malloc(100), Malloc(100)];
    var r := FreeCall(l, slots, calls, replies, AfterSmall(l.lo), 0, l.lo + 16);
    assert Release(AfterSmall(l.lo), 0) == AfterFirstFree(l.lo);
    assert calls + [Free(l.lo + 16)] == [Malloc(100), Malloc(100), Free(l.lo + 16)];
    replies := replies + [r];
  }

  /** Two blocks freed in order and the second freed again: no chain is left in memory. */
  lemma DoubleFreeRun(l: Layout, slots: nat) returns (replies: seq<Reply>)
    requires ValidLayout(l) && slots >= 2
    ensures var p := l.lo + 132;
            IsCallRun(l, slots, [Malloc(100), Malloc(100), Free(l.lo + 16), Free(p), Free(p)], replies)
    ensures !Intact(replies[4].w.mem, l.lo, l.lo + 4096)
  {
    replies := FirstFree(l, slots);
    var p, calls := l.lo + 132, [Malloc(100), Malloc(100), Free(l.lo + 16)];
    var r1, r2 := FreeTwice(l, slots, calls, replies, AfterFirstFree(l.lo), 1, p);
    assert calls + [Free(p)] + [Free(p)] == [Malloc(100), Malloc(100), Free(l.lo + 16), Free(p), Free(p)];
    replies := replies + [r1] + [r2];
  }

  // ---------------------------------------------------------------- sizes that wrap

  /** The last three sizes round up to zero. */
  lemma RoundingWraps(w: Words, limit: int, slots: nat, size: nat)
    requires TWO32 - 4 < size < TWO32
    ensures KmallocWords(w, limit, slots, size) == KmallocWords(w, limit, slots, 0)
  {
    assert Wrap(AlignUp4(size)) == Wrap(AlignUp4(0));
  }

  const KERNEL_HEAP := Layout(0xC012_0000, 0xC012_0000 + 102400)

  /** The memory of the kernel's heap after an expansion by a gigabyte. */
  ghost predicate Gigabyte(w: Words) {
    w.listed == {0xC012_0000} && HeaderAt(w.mem, 0xC012_0000) == Header(MAGIC_FREE, 0, 0, 0x4000_2000)
  }

  lemma GigabyteExpands(slots: nat) returns (v: Words)
    requires slots >= 2
    ensures ExpandWords(InitWords(KERNEL_HEAP, slots), KERNEL_HEAP.limit, slots, 0x4000_1000) == Reply(v, 0, Returned)
    ensures Gigabyte(v)
  {
    var lo, w := 0xC012_0000, InitWords(KERNEL_HEAP, slots);
    var node := lo + 4096;
    var m1 := SetHeader(w.mem, node, false, 0, lo, 0x4000_1000);
    var m2 := SetNext(m1, lo, node);
    FrameKeeps(w.mem, m1, node, lo);
    FrameKeeps(m1, m2, lo, node);
    var u := Words(m2, {lo}, 0x12_2000, lo);
    assert AppendWords(w, KERNEL_HEAP.limit, 0x4000_1000) == Reply(u, node, Returned);
    v := GigabyteMerges(u, slots);
    ExpandIs(w, KERNEL_HEAP.limit, slots, 0x4000_1000, u, node, Reply(v, 0, Returned));
  }

  lemma GigabyteMerges(u: Words, slots: nat) returns (v: Words)
    requires slots >= 2 && u.listed == {0xC012_0000}
    requires HeaderAt(u.mem, 0xC012_0000) == Header(MAGIC_FREE, 0xC012_1000, 0, 4080)
    requires HeaderAt(u.mem, 0xC012_1000) == Header(MAGIC_FREE, 0, 0xC012_0000, 0x4000_1000)
    ensures ListWords(u, slots, 0xC012_1000) == Reply(v, 0, Returned) && Gigabyte(v)
  {
    var lo, node := 0xC012_0000, 0xC012_1000;
    var x := u.(listed := Inserted(u.listed, node, slots));
    OnlyLeft(x, slots, node, HeaderAt(u.mem, node));
    assert MergeLeftAt(u.mem, node) == SetHeader(u.mem, lo, false, 0, 0, 0x4000_2000);
    assert x.listed - {node} - {lo} == {};
    v := ListWords(u, slots, node).w;
  }

  lemma GigabyteMisses(slots: nat)
    requires slots >= 2
    ensures var w := InitWords(KERNEL_HEAP, slots); Checked(w) && FindNode(w.mem, w.listed, 0x4000_0000) == 0
    ensures ExpandCount(0x4000_0000) == 0x4000_1000
  {
    InitShows(KERNEL_HEAP, slots);
    FindRefines(InitWords(KERNEL_HEAP, slots), Init(KERNEL_HEAP).chain, KERNEL_HEAP, slots, 0x4000_0000);
  }

  /** A gigabyte asked of the kernel's heap of 102400 bytes is handed out. */
  lemma GigabyteHandedOut(slots: nat) returns (r: Reply)
    requires slots >= 2
    ensures ValidLayout(KERNEL_HEAP)
    ensures r == KmallocWords(InitWords(KERNEL_HEAP, slots), KERNEL_HEAP.limit, slots, 0x4000_0000)
    ensures r.status == Returned && r.ptr == KERNEL_HEAP.lo + 16
  {
    var w := InitWords(KERNEL_HEAP, slots);
    var v := GigabyteExpands(slots);
    GigabyteMisses(slots);
    KmallocGrows(w, KERNEL_HEAP.limit, slots, 0x4000_0000, 0x4000_0000, Reply(v, 0, Returned));
    TakeReturns(v, slots, 0x4000_0000, 0xC012_0000);
    r := TakeWords(v, slots, 0x4000_0000);
  }
}
