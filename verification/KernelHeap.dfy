/** kernel/kheap.c: the allocator itself, on header memory and the sorted list of FREE nodes. */
module KernelHeap {
  import opened HeapChain
  import opened HeapLists
  import opened HeapMemory
  import opened HeapRuns
  import opened HeapWords
  import opened Machine
  import opened SortedList

  class KernelHeap {
    const heapBottom: nat
    const layout: Layout
    const freeNodes: SortedArrayList

    var mem: Memory
    var top: int
    var endPtr: int

    ghost var listed: set<int>

    ghost function Now(): Words
      reads this
    {
      Words(mem, listed, top, endPtr)
    }

    /** `free_node_list` is in order and holds the addresses `listed`. That is all a call needs. */
    ghost predicate Valid()
      reads this, freeNodes, freeNodes.arr
    {
      freeNodes.Valid() && Elements(freeNodes.Items()) == listed
    }

    ghost function Slots(): nat {
      freeNodes.arr.Length
    }

    /** Memory encodes the chain `c`, and heap and list are in order. */
    ghost predicate InOrder(c: Chain)
      reads this, freeNodes, freeNodes.arr
    {
      layout.lo == AlignUp4(heapBottom) && Valid() && Shows(Now(), c, layout, Slots())
    }

    /** `init_kheap`. The storage is the rest of the early heap, still zero, however long. */
    constructor (bottom: nat, heapTop: int, storage: array<int>)
      requires 0 < bottom && AlignUp4(bottom) + EXPAND_SIZE <= heapTop <= TWO32 - HEADER_SIZE
      requires storage.Length < TWO31
      requires forall i :: 0 <= i < storage.Length ==> storage[i] == 0
      modifies storage
      ensures InOrder(Init(layout).chain) && heapBottom == bottom && layout == Layout(AlignUp4(bottom), heapTop)
      ensures Now() == InitWords(layout, Slots())
      ensures freeNodes.arr == storage && fresh(freeNodes)
    {
      var heapPtr := AlignUp4(bottom);
      heapBottom := bottom;
      layout := Layout(heapPtr, heapTop);
      top := heapPtr + EXPAND_SIZE;
      freeNodes := new SortedArrayList(storage);
      mem := SetHeader(map[], heapPtr, false, 0, 0, EXPAND_SIZE - HEADER_SIZE);
      endPtr := heapPtr;
      listed := {};
      new;
      InitShows(layout, Slots());
      InsertNode(heapPtr);
    }

    /** The two guarded stores that every merge and split opens with. */
    method RelinkNeighbours(next: int, prev: int, first: int, last: int)
      modifies this`mem
      ensures mem == Relink(old(mem), next, prev, first, last)
    {
      if next != 0 {
        mem := SetPrev(mem, next, last);
      }
      if prev != 0 {
        mem := SetNext(mem, prev, first);
      }
    }

    /** An `insert_list` whose result nobody looks at. */
    method InsertNode(node: int)
      requires Valid() && node > 0
      modifies this`listed, freeNodes, freeNodes.arr
      ensures Valid() && listed == Inserted(old(listed), node, Slots())
    {
      SortedCardinality(freeNodes.Items());
      var rc := freeNodes.Insert(node);
      listed := Inserted(listed, node, Slots());
    }

    method RemoveNode(node: int)
      requires Valid() && node > 0
      modifies this`listed, freeNodes, freeNodes.arr
      ensures Valid() && listed == old(listed) - {node}
    {
      var rc := freeNodes.Remove(node);
      listed := listed - {node};
    }

    /** `heap_merge_right`. */
    method MergeRight(node: int) returns (newNode: int)
      modifies this`mem
      ensures newNode == node && mem == MergeRightAt(old(mem), node)
    {
      var nodeRight := HeaderAt(mem, node).next;
      newNode := node;
      var newPrev := HeaderAt(mem, node).prev;
      var newNext := HeaderAt(mem, nodeRight).next;
      var newSize := Wrap(HeaderAt(mem, node).size + HeaderAt(mem, nodeRight).size + HEADER_SIZE);
      RelinkNeighbours(newNext, newPrev, newNode, newNode);
      mem := SetHeader(mem, newNode, false, newNext, newPrev, newSize);
    }

    /** `heap_merge_left`. */
    method MergeLeft(node: int) returns (newNode: int)
      modifies this`mem
      ensures newNode == HeaderAt(old(mem), node).prev && mem == MergeLeftAt(old(mem), node)
    {
      var nodeLeft := HeaderAt(mem, node).prev;
      newNode := nodeLeft;
      var newPrev := HeaderAt(mem, nodeLeft).prev;
      var newNext := HeaderAt(mem, node).next;
      var newSize := Wrap(HeaderAt(mem, node).size + HeaderAt(mem, nodeLeft).size + HEADER_SIZE);
      RelinkNeighbours(newNext, newPrev, newNode, newNode);
      mem := SetHeader(mem, newNode, false, newNext, newPrev, newSize);
    }

    /** The first branch of `heap_merge_nodes`. */
    method MergeWithRight(node: int, nodeRight: int)
      requires Valid() && node > 0
      modifies this`mem, this`listed, freeNodes, freeNodes.arr
      ensures Valid() && Now() == AbsorbRight(old(Now()), node, nodeRight)
    {
      if FreeAt(mem, nodeRight) {
        RemoveNode(node);
        RemoveNode(nodeRight);
        var _ := MergeRight(node);
      }
    }

    /** The second one. */
    method MergeWithLeft(node: int, nodeLeft: int) returns (mergeNode: int)
      requires Valid() && node > 0 && nodeLeft == HeaderAt(mem, node).prev
      modifies this`mem, this`listed, freeNodes, freeNodes.arr
      ensures Valid() && Now() == AbsorbLeft(old(Now()), node, nodeLeft)
      ensures mergeNode == (if FreeAt(old(mem), nodeLeft) then nodeLeft else node) && mergeNode > 0
    {
      mergeNode := node;
      if FreeAt(mem, nodeLeft) {
        RemoveNode(node);
        RemoveNode(nodeLeft);
        mergeNode := MergeLeft(node);
      }
    }

    /** `heap_merge_nodes`: the node fuses with its FREE neighbours, which leave the list, and the
        fused node enters it if there is a slot. */
    method MergeNodes(node: int) returns (halted: bool)
      requires Valid() && node > 0
      modifies this`mem, this`listed, freeNodes, freeNodes.arr
      ensures Valid() && (halted <==> !GoodMagic(old(mem), node))
      ensures Now() == if halted then old(Now()) else Merges(old(Now()), Slots(), node)
    {
      if !GoodMagic(mem, node) {
        return true;
      }
      var nodeLeft := HeaderAt(mem, node).prev;
      MergeWithRight(node, HeaderAt(mem, node).next);
      var mergeNode := MergeWithLeft(node, nodeLeft);
      InsertNode(mergeNode);
      halted := false;
    }

    method MarkFree(node: int)
      modifies this`mem
      ensures mem == MarkFreeAt(old(mem), node) && GoodMagic(mem, node)
    {
      var h := HeaderAt(mem, node);
      mem := SetHeader(mem, node, false, h.next, h.prev, h.size);
    }

    /** `kfree`, of any pointer in any state. */
    method Kfree(ptr: int) returns (status: Status)
      requires Valid() && 0 <= ptr < TWO32
      modifies this`mem, this`listed, freeNodes, freeNodes.arr
      ensures Valid() && Reply(Now(), 0, status) == KfreeWords(old(Now()), Slots(), ptr)
    {
      if ptr == 0 {
        return Returned;
      }
      var node := Wrap(ptr - HEADER_SIZE);
      if !GoodMagic(mem, node) {
        return Halted;
      }
      if node == 0 {
        return Wild;
      }
      MarkFree(node);
      var _ := MergeNodes(node);
      status := Returned;
    }

    /** `heap_find_free_node`. */
    method FindFreeNode(allocSize: nat) returns (bestNode: int, halted: bool)
      requires Valid()
      ensures halted <==> !Checked(Now())
      ensures !halted ==> bestNode == FindNode(mem, listed, allocSize) && bestNode >= 0
    {
      var listLen := freeNodes.currSize - 1;
      bestNode := 0;
      ghost var s := freeNodes.Items();
      ghost var q := -1;
      for i := 0 to listLen
        invariant -1 <= q < i && bestNode == if q < 0 then 0 else s[q]
        invariant forall k :: 0 <= k < i ==> GoodMagic(mem, s[k])
        invariant q < 0 ==> forall k :: 0 <= k < i ==> HeaderAt(mem, s[k]).size < allocSize
        invariant q >= 0 ==> BestListed(mem, s[..i], allocSize, q)
      {
        var node := freeNodes.arr[i];
        assert node == s[i] && node > 0;
        if !GoodMagic(mem, node) {
          assert node in Elements(s);
          return 0, true;
        }
        var size := HeaderAt(mem, node).size;
        if (bestNode == 0 && size >= allocSize) ||
           (bestNode != 0 && size >= allocSize && size < HeaderAt(mem, bestNode).size) {
          bestNode := node;
          q := i;
        }
        assert s[..i + 1] == s[..i] + [s[i]];
      }
      assert s[..listLen] == s;
      ScanFinds(mem, s, allocSize, q);
      halted := false;
    }

    /** The first branch of `heap_split_node`: too little is left over to be a block. */
    method TakeWhole(node: int, n: nat) returns (ptr: int, status: Status)
      modifies this`mem, this`endPtr
      ensures Reply(Now(), ptr, status) == WholeWords(old(Now()), node, n)
    {
      var h := HeaderAt(mem, node);
      RelinkNeighbours(h.next, h.prev, node, node);
      if Load(mem, Wrap(node + n + HEADER_SIZE) + 4) == 0 {
        endPtr := node;
      }
      mem := SetHeader(mem, node, true, h.next, h.prev, h.size);
      if HeaderAt(mem, node).next == 0 {
        endPtr := node;
      }
      ptr, status := Wrap(node + HEADER_SIZE), Returned;
    }

    /** The header stores of the second: USED where FREE was, and FREE after it. */
    method WriteParts(node: int, n: nat, newFree: int)
      requires newFree == Wrap(node + n + HEADER_SIZE)
      modifies this`mem
      ensures mem == PartMemory(old(mem), node, n)
    {
      var h := HeaderAt(mem, node);
      RelinkNeighbours(h.next, h.prev, node, newFree);
      mem := SetHeader(mem, newFree, false, h.next, node, h.size - n - HEADER_SIZE);
      mem := SetHeader(mem, node, true, newFree, h.prev, n);
    }

    /** The second branch. */
    method TakePart(node: int, n: nat) returns (ptr: int, status: Status)
      requires Valid()
      modifies this`mem, this`endPtr, this`listed, freeNodes, freeNodes.arr
      ensures Valid() && Reply(Now(), ptr, status) == PartWords(old(Now()), Slots(), node, n)
    {
      var newFree := Wrap(node + n + HEADER_SIZE);
      if newFree == 0 {
        return 0, Wild;
      }
      WriteParts(node, n, newFree);
      InsertNode(newFree);
      if HeaderAt(mem, newFree).next == 0 {
        endPtr := newFree;
      }
      ptr, status := Wrap(node + HEADER_SIZE), Returned;
    }

    /** `heap_split_node`, on a node that the search has checked. */
    method SplitNode(node: int, n: nat) returns (ptr: int, status: Status)
      requires Valid() && node > 0
      modifies this`mem, this`endPtr, this`listed, freeNodes, freeNodes.arr
      ensures Valid() && Reply(Now(), ptr, status) == SplitWords(old(Now()), Slots(), node, n)
    {
      RemoveNode(node);
      if HeaderAt(mem, node).size - n <= SPLIT_THRESHOLD {
        ptr, status := TakeWhole(node, n);
      } else {
        ptr, status := TakePart(node, n);
      }
    }

    /** `expand_heap` up to its two header stores. */
    method AppendNode(size: nat) returns (newFree: int, status: Status)
      modifies this`mem, this`top
      ensures Reply(Now(), newFree, status) == AppendWords(old(Now()), layout.limit, size)
    {
      top := Wrap(top + size);
      if top >= layout.limit || !GoodMagic(mem, endPtr) {
        return 0, Halted;
      }
      newFree := Wrap(endPtr + HEADER_SIZE + HeaderAt(mem, endPtr).size);
      mem := SetHeader(mem, newFree, false, 0, endPtr, Wrap(top - newFree));
      mem := SetNext(mem, endPtr, newFree);
      status := Returned;
    }

    /** Its insertion and its merge. */
    method ListNode(newFree: int) returns (status: Status)
      requires Valid() && newFree >= 0
      modifies this`mem, this`endPtr, this`listed, freeNodes, freeNodes.arr
      ensures Valid() && Reply(Now(), 0, status) == ListWords(old(Now()), Slots(), newFree)
    {
      if newFree == 0 {
        return Wild;
      }
      InsertNode(newFree);
      var halted := MergeNodes(newFree);
      if halted {
        return Halted;
      }
      endPtr := newFree;
      status := Returned;
    }

    /** `expand_heap`, wherever `heap_list_end_ptr` points. */
    method ExpandHeap(size: nat) returns (status: Status)
      requires Valid()
      modifies this`mem, this`top, this`endPtr, this`listed, freeNodes, freeNodes.arr
      ensures Valid() && Reply(Now(), 0, status) == ExpandWords(old(Now()), layout.limit, Slots(), size)
    {
      var newFree;
      newFree, status := AppendNode(size);
      if status == Returned {
        status := ListNode(newFree);
      }
    }

    /** The search and the split. */
    method Take(n: nat) returns (ptr: int, status: Status)
      requires Valid()
      modifies this`mem, this`endPtr, this`listed, freeNodes, freeNodes.arr
      ensures Valid() && Reply(Now(), ptr, status) == TakeWords(old(Now()), Slots(), n)
    {
      var node, halted := FindFreeNode(n);
      if halted || node == 0 {
        return 0, Halted;
      }
      ptr, status := SplitNode(node, n);
    }

    /** `kmalloc`, in any state. */
    method Kmalloc(size: nat) returns (ptr: int, status: Status)
      requires Valid() && size < TWO32
      modifies this`mem, this`top, this`endPtr, this`listed, freeNodes, freeNodes.arr
      ensures Valid() && Reply(Now(), ptr, status) == KmallocWords(old(Now()), layout.limit, Slots(), size)
    {
      var n := Wrap(AlignUp4(size));
      var node, halted := FindFreeNode(n);
      if halted {
        return 0, Halted;
      }
      if node != 0 {
        ptr, status := SplitNode(node, n);
        return;
      }
      if n >= TWO32 - EXPAND_SIZE {
        return 0, Hung;
      }
      var expandCount := ExpandAmount(n);
      status := ExpandHeap(expandCount);
      if status != Returned {
        return 0, status;
      }
      ptr, status := Take(n);
    }

    /** `check_kheap_integrity`: whether the headers add up to the heap's size. The walk starts at
        `heap_bottom` itself; when that is not a whole word it reads no magic there and halts. */
    method CheckIntegrity(ghost c: Chain) returns (ok: bool, halted: bool)
      requires InOrder(c)
      ensures halted <==> heapBottom % 4 != 0
      ensures !halted ==> (ok <==> top == Init(layout).top)
    {
      var heapSize := top - heapBottom;
      assert Encoded(mem, c, 0);
      TiledAt(c, layout.lo, ChainEnd(c), 0);
      PaddedMagic(Load(mem, layout.lo), layout.lo - heapBottom);
      var first := PaddedWord(Load(mem, layout.lo), layout.lo - heapBottom);
      if first != MAGIC_USED && first != MAGIC_FREE {
        return false, true;
      }
      var node := heapBottom;
      var count := 0;
      ghost var i := 0;
      while node != 0
        invariant 0 <= i <= |c| && node == NextOf(c, i)
        invariant count + ChainBytes(c[i..]) == ChainBytes(c)
        decreases |c| - i
      {
        assert Encoded(mem, c, i);
        assert c[i..][1..] == c[i + 1..];
        count := count + (HeaderAt(mem, node).size + HEADER_SIZE);
        node := HeaderAt(mem, node).next;
        i := i + 1;
      }
      if i < |c| { TiledAt(c, layout.lo, ChainEnd(c), i); }
      IntegrityCheck(HeapOf(Now(), c).s, layout);
      ok, halted := count == heapSize, false;
    }

    /** `kmalloc` without expansion and `kfree` of its result put everything back: every header with
        its links, size and magic, and the list item by item. */
    method KmallocThenKfree(size: nat, ghost c: Chain)
      requires InOrder(c) && FitOf(HeapOf(Now(), c), AlignUp4(size)) >= 0 && size < TWO32
      modifies this, freeNodes, freeNodes.arr
      ensures InOrder(c) && top == old(top)
      ensures forall i :: 0 <= i < |c| ==> HeaderAt(mem, c[i].addr) == old(HeaderAt(mem, c[i].addr))
      ensures freeNodes.Items() == old(freeNodes.Items())
    {
      ghost var w, items := Now(), freeNodes.Items();
      var ptr, status := Kmalloc(size);
      ghost var v := Now();
      ghost var d, stale := KmallocRefines(w, c, layout, Slots(), size, Reply(v, ptr, status));
      KfreeUndoesListed(HeapOf(w, c), layout, Slots(), size, stale);
      ReplyBound(w, layout.limit, Slots(), size);
      status := Kfree(ptr);
      ghost var e := KfreeRefines(v, d, layout, Slots(), ptr, Reply(Now(), 0, status));
      SameHeaders(w.mem, mem, c);
      SortedByElements(freeNodes.Items(), items);
    }

    /** Freeing every live allocation, in any order, leaves one FREE header over the whole heap and a
        list of that one item, unless the array is too short for any. */
    method FreeAll(order: seq<int>, ghost c: Chain) returns (ghost d: Chain)
      requires InOrder(c) && ListsLive(c, order)
      modifies this`mem, this`listed, freeNodes, freeNodes.arr
      ensures InOrder(d) && d == [Block(layout.lo, ChainEnd(c) - layout.lo - HEADER_SIZE, false)]
      ensures HeaderAt(mem, layout.lo) == Header(MAGIC_FREE, 0, 0, d[0].size)
      ensures freeNodes.Items() == if Slots() >= 2 && (order != [] || old(listed) != {}) then [layout.lo] else []
    {
      ghost var h := HeapOf(Now(), c);
      DrainListed(h, layout, Slots(), order);
      d := c;
      assert order[0..] == order;
      for k := 0 to |order|
        invariant InOrder(d) && ListsLive(d, order[k..])
        invariant FreeEachListed(HeapOf(Now(), d), Slots(), order[k..]) == FreeEachListed(h, Slots(), order)
      {
        FreeFirst(HeapOf(Now(), d), layout, Slots(), order[k..]);
        ghost var w := Now();
        var status := Kfree(order[k]);
        d := KfreeRefines(w, d, layout, Slots(), order[k], Reply(Now(), 0, status));
        assert order[k..][1..] == order[k + 1..];
      }
      assert order[|order|..] == [];
      assert Encoded(mem, d, 0);
      SortedByElements(freeNodes.Items(), if Slots() >= 2 && (order != [] || h.listed != {}) then [layout.lo] else []);
    }

    /** A store by the owner of live block `b`, the only writer of its payload. */
    method ClientStore(w: int, v: int, ghost c: Chain, ghost b: Block)
      requires InOrder(c) && b in UsedBlocks(c) && b.addr + HEADER_SIZE <= w < b.End()
      modifies this`mem
      ensures InOrder(c) && Load(mem, w) == v
      ensures PayloadsKept(old(mem), mem, UsedBlocks(c) - {b})
    {
      PayloadStore(mem, c, layout.lo, ChainEnd(c), b, w, v);
      forall x | x in UsedBlocks(c) - {b} ensures PayloadSame(mem, mem[w := v], x) {
        LiveDisjoint(HeapOf(Now(), c).s, layout, x, b);
      }
      mem := mem[w := v];
    }
  }

  lemma SameHeaders(m: Memory, m': Memory, c: Chain)
    requires Encodes(m, c) && Encodes(m', c)
    ensures forall i :: 0 <= i < |c| ==> HeaderAt(m', c[i].addr) == HeaderAt(m, c[i].addr)
  {
    forall i | 0 <= i < |c| ensures HeaderAt(m', c[i].addr) == HeaderAt(m, c[i].addr) {
      assert Encoded(m, c, i) && Encoded(m', c, i);
    }
  }

  lemma FreeFirst(h: Heap, l: Layout, slots: nat, order: seq<int>)
    requires Sound(h, l, slots) && ListsLive(h.s.chain, order) && order != []
    ensures 0 < order[0] < TWO32 && IndexOf(h.s.chain, order[0] - HEADER_SIZE) >= 0
    ensures ListsLive(KfreeListed(h, slots, order[0]).s.chain, order[1..])
    ensures FreeEachListed(KfreeListed(h, slots, order[0]), slots, order[1..]) == FreeEachListed(h, slots, order)
  {
    var _ := DrainStep(h.s, l, order);
    ChainFits(h.s, l);
    TiledAt(h.s.chain, l.lo, ChainEnd(h.s.chain), IndexOf(h.s.chain, order[0] - HEADER_SIZE));
  }

  /** The loop that sizes an expansion. */
  method ExpandAmount(n: nat) returns (expandCount: nat)
    ensures expandCount == ExpandCount(n)
  {
    expandCount := 0;
    while expandCount <= n
      invariant expandCount <= n + EXPAND_SIZE && expandCount % EXPAND_SIZE == 0
    {
      expandCount := expandCount + EXPAND_SIZE;
    }
  }

  /** The little-endian word that starts `pad` zero bytes before a word `w`. */
  function PaddedWord(w: int, pad: int): int {
    match pad
    case 0 => w
    case 1 => w % 0x100_0000 * 0x100
    case 2 => w % 0x1_0000 * 0x1_0000
    case _ => w % 0x100 * 0x100_0000
  }

  lemma PaddedMagic(w: int, pad: int)
    requires 0 <= pad <= 3 && (w == MAGIC_USED || w == MAGIC_FREE)
    ensures PaddedWord(w, pad) == MAGIC_USED || PaddedWord(w, pad) == MAGIC_FREE <==> pad == 0
  {
  }

  /** `q` is where the smallest fitting node of the list is, the first of them on ties. */
  ghost predicate BestListed(mem: Memory, s: seq<int>, n: int, q: int) {
    && 0 <= q < |s| && HeaderAt(mem, s[q]).size >= n
    && (forall k :: 0 <= k < |s| && HeaderAt(mem, s[k]).size >= n ==>
          HeaderAt(mem, s[q]).size <= HeaderAt(mem, s[k]).size)
    && (forall k :: 0 <= k < q && HeaderAt(mem, s[k]).size >= n ==> HeaderAt(mem, s[q]).size < HeaderAt(mem, s[k]).size)
  }

  /** The best of the sorted list is the best of its items. */
  lemma ScanFinds(m: Memory, s: seq<int>, n: int, q: int)
    requires StrictlySorted(s) && (q >= 0 ==> BestListed(m, s, n, q))
    requires q < 0 ==> forall k :: 0 <= k < |s| ==> HeaderAt(m, s[k]).size < n
    ensures FindNode(m, Elements(s), n) == if q < 0 then 0 else s[q]
  {
    if q >= 0 {
      forall b | b in Elements(s) && HeaderAt(m, b).size >= n
        ensures HeaderAt(m, s[q]).size <= HeaderAt(m, b).size
        ensures HeaderAt(m, s[q]).size == HeaderAt(m, b).size ==> s[q] <= b
      {
        var k :| 0 <= k < |s| && s[k] == b;
      }
      assert s[q] in Elements(s);
      BestNodeUnique(m, Elements(s), n, s[q]);
    }
  }
}
