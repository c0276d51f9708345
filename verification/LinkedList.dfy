/** klib/linked_list.c: a doubly linked list whose nodes come from an object pool. */
module LinkedList {
  import opened Counting
  import opened ObjectPool

  const UINT_MAX := 0xFFFF_FFFF

  datatype Node = Node(next: int, prev: int, data: int)

  type Nodes = map<int, Node>

  function NextIn(sp: seq<int>, i: int): int {
    if 0 <= i + 1 < |sp| then sp[i + 1] else 0
  }

  function PrevIn(sp: seq<int>, i: int): int {
    if 0 <= i - 1 < |sp| then sp[i - 1] else 0
  }

  ghost predicate LinkedAt(nodes: Nodes, sp: seq<int>, i: nat)
    requires i < |sp|
  {
    && sp[i] != 0 && sp[i] in nodes
    && nodes[sp[i]].next == NextIn(sp, i)
    && nodes[sp[i]].prev == PrevIn(sp, i)
  }

  /** The node addresses `sp` are linked in order, forwards and backwards. */
  ghost predicate Linked(nodes: Nodes, sp: seq<int>) {
    && (forall i, j :: 0 <= i < j < |sp| ==> sp[i] != sp[j])
    && (forall i {:trigger LinkedAt(nodes, sp, i)} :: 0 <= i < |sp| ==> LinkedAt(nodes, sp, i))
  }

  /** The data along `sp`. */
  ghost function DataAlong(nodes: Nodes, sp: seq<int>): (d: seq<int>)
    requires forall i :: 0 <= i < |sp| ==> sp[i] in nodes
    ensures |d| == |sp| && forall i :: 0 <= i < |sp| ==> d[i] == nodes[sp[i]].data
  {
    seq(|sp|, i requires 0 <= i < |sp| => nodes[sp[i]].data)
  }

  lemma LinkedInNodes(nodes: Nodes, sp: seq<int>)
    requires Linked(nodes, sp)
    ensures forall i :: 0 <= i < |sp| ==> sp[i] in nodes && sp[i] != 0
  {
    forall i | 0 <= i < |sp| ensures sp[i] in nodes && sp[i] != 0 {
      assert LinkedAt(nodes, sp, i);
    }
  }

  function SetNext(nodes: Nodes, a: int, next: int): Nodes
    requires a in nodes
  {
    nodes[a := nodes[a].(next := next)]
  }

  function SetPrev(nodes: Nodes, a: int, prev: int): Nodes
    requires a in nodes
  {
    nodes[a := nodes[a].(prev := prev)]
  }

  // ---------------------------------------------------------------- what the writes amount to

  /** The stores of the append branch of `linked_list_add`. */
  lemma AppendLinked(nodes: Nodes, sp: seq<int>, a: int, data: int)
    requires Linked(nodes, sp) && a != 0 && a !in sp && sp != []
    requires a in nodes && nodes[a] == Node(0, 0, data)
    ensures var last := sp[|sp| - 1];
            && last in nodes
            && Linked(SetPrev(SetNext(nodes, last, a), a, last), sp + [a])
  {
    LinkedInNodes(nodes, sp);
    var n := |sp| - 1;
    var r := SetPrev(SetNext(nodes, sp[n], a), a, sp[n]);
    forall i | 0 <= i < |sp + [a]| ensures LinkedAt(r, sp + [a], i) {
      if i <= n { assert LinkedAt(nodes, sp, i); }
    }
  }

  /** The stores of `linked_list_remove`, for a list of more than one node. */
  function Unlinked(nodes: Nodes, prev: int, next: int): (r: Nodes)
    requires (prev != 0 ==> prev in nodes) && (next != 0 ==> next in nodes)
    ensures nodes.Keys <= r.Keys && forall a :: a in nodes ==> r[a].data == nodes[a].data
  {
    var n1 := if prev != 0 then SetNext(nodes, prev, next) else nodes;
    if next != 0 then SetPrev(n1, next, prev) else n1
  }

  lemma RemoveLinked(nodes: Nodes, sp: seq<int>, k: nat)
    requires Linked(nodes, sp) && k < |sp|
    ensures var prev, next := PrevIn(sp, k), NextIn(sp, k);
            && (prev != 0 ==> prev in nodes) && (next != 0 ==> next in nodes)
            && Linked(Unlinked(nodes, prev, next), sp[..k] + sp[k + 1..])
  {
    LinkedInNodes(nodes, sp);
    var prev, next := PrevIn(sp, k), NextIn(sp, k);
    var r, sp' := Unlinked(nodes, prev, next), sp[..k] + sp[k + 1..];
    assert forall i :: 0 <= i < |sp'| ==> sp'[i] == if i < k then sp[i] else sp[i + 1];
    forall i | 0 <= i < |sp'| ensures LinkedAt(r, sp', i) {
      assert LinkedAt(nodes, sp, if i < k then i else i + 1);
    }
  }

  /** The stores of `linked_list_cycle`. */
  function Cycled(nodes: Nodes, first: int, second: int, last: int): (r: Nodes)
    requires first in nodes && second in nodes && last in nodes
  {
    SetPrev(SetNext(SetPrev(SetNext(nodes, first, 0), first, last), last, first), second, 0)
  }

  lemma CycleLinked(nodes: Nodes, sp: seq<int>)
    requires Linked(nodes, sp) && |sp| > 1
    ensures sp[0] in nodes && sp[1] in nodes && sp[|sp| - 1] in nodes
    ensures Linked(Cycled(nodes, sp[0], sp[1], sp[|sp| - 1]), sp[1..] + [sp[0]])
  {
    LinkedInNodes(nodes, sp);
    var n := |sp|;
    var r, sp' := Cycled(nodes, sp[0], sp[1], sp[n - 1]), sp[1..] + [sp[0]];
    assert forall i :: 0 <= i < n ==> sp'[i] == if i < n - 1 then sp[i + 1] else sp[0];
    forall i | 0 <= i < n ensures LinkedAt(r, sp', i) {
      assert LinkedAt(nodes, sp, if i < n - 1 then i + 1 else 0);
    }
  }

  /** Following the forward links from `sp[0]` visits `sp`. */
  ghost predicate Forward(nodes: Nodes, sp: seq<int>) {
    forall i :: 0 <= i < |sp| ==> sp[i] in nodes && nodes[sp[i]].next == NextIn(sp, i)
  }

  lemma LinkedForward(nodes: Nodes, sp: seq<int>)
    requires Linked(nodes, sp)
    ensures Forward(nodes, sp) && 0 !in sp
  {
    forall i | 0 <= i < |sp| ensures sp[i] in nodes && nodes[sp[i]].next == NextIn(sp, i) && sp[i] != 0 {
      assert LinkedAt(nodes, sp, i);
    }
  }

  /** The stores of the middle branch of `linked_list_add`: the predecessor's forward link is not
      among them. */
  function Inserted(nodes: Nodes, node: int, temp: int): Nodes
    requires node in nodes && temp in nodes
  {
    SetPrev(SetNext(SetPrev(nodes, node, nodes[temp].prev), node, temp), temp, node)
  }

  lemma InsertedForward(nodes: Nodes, sp: seq<int>, node: int, temp: int)
    requires Linked(nodes, sp) && node in nodes && node !in sp && temp in sp && temp in nodes
    ensures Forward(nodes, sp) && Forward(Inserted(nodes, node, temp), sp)
    ensures DataAlong(Inserted(nodes, node, temp), sp) == DataAlong(nodes, sp)
  {
    LinkedForward(nodes, sp);
    var r := Inserted(nodes, node, temp);
    forall i | 0 <= i < |sp|
      ensures sp[i] in r && r[sp[i]].next == nodes[sp[i]].next && r[sp[i]].data == nodes[sp[i]].data
    {
      assert sp[i] in nodes && sp[i] != node;
    }
  }

  ghost predicate BackAt(nodes: Nodes, sp: seq<int>, d: seq<int>, i: nat)
    requires i < |sp| == |d|
  {
    && sp[i] != 0 && sp[i] in nodes
    && nodes[sp[i]].prev == PrevIn(sp, i)
    && nodes[sp[i]].data == d[i]
  }

  /** Following the backward links from `last` visits `back` from its end, and its nodes hold `d`. */
  ghost predicate LeadsBack(nodes: Nodes, last: int, back: seq<int>, d: seq<int>) {
    && last == PrevIn(back, |back|) && |back| == |d|
    && (forall i {:trigger BackAt(nodes, back, d, i)} :: 0 <= i < |back| ==> BackAt(nodes, back, d, i))
  }

  /** The backward links from `last` lead along nodes that hold `d`. */
  ghost predicate FoundBackwards(nodes: Nodes, last: int, d: seq<int>) {
    exists back :: LeadsBack(nodes, last, back, d)
  }

  /** `s` with `x` put before index `k`. */
  ghost function InsertAt(s: seq<int>, k: nat, x: int): seq<int>
    requires k <= |s|
  {
    s[..k] + [x] + s[k..]
  }

  /** The same stores, read backwards: the new node stands in its place, and it points forward to
      the node it was put before. */
  lemma InsertedBackward(nodes: Nodes, sp: seq<int>, d: seq<int>, node: int, k: nat)
    requires Linked(nodes, sp) && node in nodes && node != 0 && node !in sp && 0 < k < |sp| == |d|
    requires (forall i :: 0 <= i < |sp| ==> sp[i] in nodes) && d == DataAlong(nodes, sp)
    ensures sp[k] in nodes && Inserted(nodes, node, sp[k])[node].next == sp[k]
    ensures FoundBackwards(Inserted(nodes, node, sp[k]), PrevIn(sp, |sp|), InsertAt(d, k, nodes[node].data))
  {
    assert LinkedAt(nodes, sp, k);
    var r, back, d' := Inserted(nodes, node, sp[k]), InsertAt(sp, k, node), InsertAt(d, k, nodes[node].data);
    forall i | 0 <= i < |back| ensures BackAt(r, back, d', i) {
      if i != k { assert LinkedAt(nodes, sp, if i < k then i else i - 1); }
    }
    assert LeadsBack(r, PrevIn(sp, |sp|), back, d');
  }

  /** A node outside the list can be written. */
  lemma WriteOutside(nodes: Nodes, sp: seq<int>, a: int, node: Node)
    requires Linked(nodes, sp) && a !in sp
    ensures Linked(nodes[a := node], sp) && Forward(nodes, sp)
    ensures DataAlong(nodes[a := node], sp) == DataAlong(nodes, sp)
  {
    LinkedForward(nodes, sp);
    var r := nodes[a := node];
    forall i | 0 <= i < |sp| ensures LinkedAt(r, sp, i) {
      assert LinkedAt(nodes, sp, i);
    }
  }

  // ---------------------------------------------------------------- nodes and pool slots

  /** The addresses of the claimed slots. */
  ghost function Slots(buf: int, typeSize: nat, claimed: set<nat>): set<int> {
    set x | x in claimed :: SlotAddr(buf, typeSize, x)
  }

  ghost function Addresses(sp: seq<int>): set<int> {
    set a | a in sp
  }

  lemma SlotsAdd(buf: int, typeSize: nat, claimed: set<nat>, x: nat)
    ensures Slots(buf, typeSize, claimed + {x}) == Slots(buf, typeSize, claimed) + {SlotAddr(buf, typeSize, x)}
  {
  }

  lemma SlotsRemove(buf: int, typeSize: nat, claimed: set<nat>, x: nat)
    requires typeSize > 0 && x in claimed
    ensures Slots(buf, typeSize, claimed - {x}) == Slots(buf, typeSize, claimed) - {SlotAddr(buf, typeSize, x)}
  {
    forall y | y in claimed - {x} ensures SlotAddr(buf, typeSize, y) != SlotAddr(buf, typeSize, x) {
      if SlotAddr(buf, typeSize, y) == SlotAddr(buf, typeSize, x) { SlotsDistinct(buf, typeSize, x, y); }
    }
  }

  /** A slot that is not claimed is not an address of the list. */
  lemma FreshSlot(buf: int, typeSize: nat, claimed: set<nat>, x: nat)
    requires typeSize > 0 && x !in claimed
    ensures SlotAddr(buf, typeSize, x) !in Slots(buf, typeSize, claimed)
  {
    if SlotAddr(buf, typeSize, x) in Slots(buf, typeSize, claimed) {
      var y :| y in claimed && SlotAddr(buf, typeSize, y) == SlotAddr(buf, typeSize, x);
      SlotsDistinct(buf, typeSize, x, y);
    }
  }

  /** A list of distinct slots is full exactly when every slot of the pool is claimed. */
  lemma {:induction false} SpineSize(buf: int, typeSize: nat, claimed: set<nat>, sp: seq<int>)
    requires typeSize > 0 && Addresses(sp) == Slots(buf, typeSize, claimed)
    requires forall i, j :: 0 <= i < j < |sp| ==> sp[i] != sp[j]
    ensures |sp| == |claimed|
  {
    assert forall x :: x in claimed ==> SlotAddr(buf, typeSize, x) in Addresses(sp);
    if sp == [] {
      assert claimed == {};
    } else {
      var n := |sp| - 1;
      assert sp[n] in Addresses(sp);
      var x :| x in claimed && SlotAddr(buf, typeSize, x) == sp[n];
      SlotsRemove(buf, typeSize, claimed, x);
      assert sp == sp[..n] + [sp[n]];
      assert Addresses(sp[..n]) == Addresses(sp) - {sp[n]};
      SpineSize(buf, typeSize, claimed - {x}, sp[..n]);
    }
  }

  /** Two chains that follow the same forward links from the same node are the same. */
  lemma SameWalk(nodes: Nodes, sp: seq<int>, sq: seq<int>)
    requires Forward(nodes, sp) && Forward(nodes, sq) && NextIn(sp, -1) == NextIn(sq, -1)
    requires 0 !in sp && 0 !in sq
    ensures sp == sq
  {
    var m := if |sp| < |sq| then |sp| else |sq|;
    var tail := if m < |sq| then sq[m] else if m < |sp| then sp[m] else 0;
    assert m < |sq| ==> tail in sq;
    assert m < |sp| ==> m == |sq| && tail in sp;
    SamePrefix(nodes, sp, sq, m);
    if m > 0 { assert sp[..m][m - 1] == sq[..m][m - 1]; }
    if m < |sq| || m < |sp| { assert false; }
  }

  lemma {:induction false} SamePrefix(nodes: Nodes, sp: seq<int>, sq: seq<int>, k: nat)
    requires Forward(nodes, sp) && Forward(nodes, sq) && NextIn(sp, -1) == NextIn(sq, -1)
    requires k <= |sp| && k <= |sq|
    ensures sp[..k] == sq[..k]
  {
    if k > 1 {
      SamePrefix(nodes, sp, sq, k - 1);
      assert sp[..k - 1][k - 2] == sq[..k - 1][k - 2];
      assert sp[..k] == sp[..k - 1] + [sp[k - 1]];
      assert sq[..k] == sq[..k - 1] + [sq[k - 1]];
    }
  }

  class LinkedList {
    const pool: ObjectPool

    var nodes: Nodes
    var startPtr: int
    var endPtr: int
    var size: nat

    ghost var spine: seq<int>

    ghost predicate Valid()
      reads this, pool.freeList
    {
      && pool.Valid()
      && Linked(nodes, spine)
      && size == |spine|
      && startPtr == NextIn(spine, -1)
      && endPtr == PrevIn(spine, |spine|)
      && Addresses(spine) == Slots(pool.buf, pool.typeSize, pool.Claimed())
    }

    /** The list as a sequence of data. */
    ghost function Contents(): seq<int>
      reads this
      requires Linked(nodes, spine)
    {
      LinkedInNodes(nodes, spine);
      DataAlong(nodes, spine)
    }

    /** `linked_list_stat_init`, on a fresh node pool. */
    constructor (nodePool: ObjectPool)
      requires nodePool.Valid() && nodePool.Claimed() == {}
      ensures Valid() && Contents() == [] && pool == nodePool
    {
      pool := nodePool;
      nodes, startPtr, endPtr, size := map[], 0, 0, 0;
      spine := [];
    }

    /** The walk to node `index` that `linked_list_remove` makes, and `linked_list_add` one node
        further: the address reached and the steps taken. */
    method Walk(index: nat) returns (node: int, steps: nat)
      requires Linked(nodes, spine) && startPtr == NextIn(spine, -1)
      ensures steps == (if index < |spine| then index else |spine|) && node == NextIn(spine, steps - 1)
    {
      LinkedInNodes(nodes, spine);
      node := startPtr;
      steps := 0;
      while node != 0 && steps < index
        invariant steps <= index && steps <= |spine| && node == NextIn(spine, steps - 1)
        decreases index - steps
      {
        assert LinkedAt(nodes, spine, steps);
        node := nodes[node].next;
        steps := steps + 1;
      }
    }

    /** `linked_list_get`: 0 for NULL. It first reads the datum of `start_ptr`, `nullData` when that is
        NULL; the loop bound is `index + 1` in 32 bits, so the last index reads no further. */
    method Get(index: nat, nullData: int) returns (data: int)
      requires Valid() && index <= 0xFFFF_FFFF
      ensures index < 0xFFFF_FFFF ==> data == if index < |spine| then Contents()[index] else 0
      ensures index == 0xFFFF_FFFF ==> data == if spine == [] then nullData else Contents()[0]
    {
      LinkedInNodes(nodes, spine);
      var node := startPtr;
      data := if node == 0 then nullData else nodes[node].data;
      var bound := (index + 1) % (UINT_MAX + 1);
      var i := 0;
      while i < bound
        invariant i <= bound && i <= |spine| && node == NextIn(spine, i - 1)
        invariant i == 0 ==> data == if spine == [] then nullData else Contents()[0]
        invariant i > 0 ==> data == Contents()[i - 1]
      {
        if node == 0 {
          return 0;
        }
        assert LinkedAt(nodes, spine, i);
        data := nodes[node].data;
        node := nodes[node].next;
        i := i + 1;
      }
    }

    /** `linked_list_search`: the first index that holds the datum, or -1. */
    method Search(data: int) returns (index: int)
      requires Valid()
      ensures index == -1 <==> data !in Contents()
      ensures index != -1 ==> 0 <= index < |Contents()| && Contents()[index] == data && data !in Contents()[..index]
    {
      LinkedInNodes(nodes, spine);
      var node := startPtr;
      index := 0;
      while node != 0
        invariant 0 <= index <= |spine| && node == NextIn(spine, index - 1)
        invariant data !in Contents()[..index]
        decreases |spine| - index
      {
        assert LinkedAt(nodes, spine, index);
        if nodes[node].data == data {
          return;
        }
        assert Contents()[..index + 1] == Contents()[..index] + [Contents()[index]];
        node := nodes[node].next;
        index := index + 1;
      }
      assert Contents()[..index] == Contents();
      index := -1;
    }

    /** Claim a node for `data`; 0 when the pool has none left. */
    method NewNode(data: int) returns (node: int)
      requires Valid()
      modifies this`nodes, pool.freeList
      ensures node == 0 <==> |spine| == pool.maxObj
      ensures node == 0 ==> Valid() && nodes == old(nodes)
      ensures node != 0 ==> nodes == old(nodes)[node := Node(0, 0, data)] && node !in spine && pool.Valid()
      ensures node != 0 ==> Addresses(spine) + {node} == Slots(pool.buf, pool.typeSize, pool.Claimed())
    {
      ghost var claimed := pool.Claimed();
      SpineSize(pool.buf, pool.typeSize, claimed, spine);
      FullByCount(claimed, pool.maxObj);
      node := pool.GetNext();
      if node == 0 {
        return;
      }
      ghost var x: nat :|
        x !in claimed && node == SlotAddr(pool.buf, pool.typeSize, x) && pool.Claimed() == claimed + {x};
      FreshSlot(pool.buf, pool.typeSize, claimed, x);
      SlotsAdd(pool.buf, pool.typeSize, claimed, x);
      assert node !in Addresses(spine);
      nodes := nodes[node := Node(0, 0, data)];
    }

    /** `linked_list_add` on a list that is empty, or with an index that reaches its end. */
    method AddLast(node: int, data: int)
      requires pool.Valid() && size == |spine| && startPtr == NextIn(spine, -1) && endPtr == PrevIn(spine, |spine|)
      requires node != 0 && node in nodes && nodes[node] == Node(0, 0, data) && node !in spine
      requires Linked(nodes, spine)
      requires Addresses(spine) + {node} == Slots(pool.buf, pool.typeSize, pool.Claimed())
      modifies this
      ensures Valid() && Contents() == old(Contents()) + [data]
    {
      LinkedInNodes(nodes, spine);
      ghost var sp := spine;
      if startPtr == 0 {
        startPtr := node;
        endPtr := node;
        size := size + 1;
        spine := [node];
        assert LinkedAt(nodes, spine, 0);
        return;
      }
      AppendLinked(nodes, spine, node, data);
      var lastNode := endPtr;
      endPtr := node;
      nodes := SetNext(nodes, lastNode, node);
      nodes := SetPrev(nodes, node, lastNode);
      size := size + 1;
      spine := spine + [node];
    }

    /** `linked_list_add`. With an empty list, or an index at or past the last node, it appends.
        Otherwise the predecessor's forward link is never stored: `size` counts the datum, but the
        links from `start_ptr` still lead along the old list only. The links from `end_ptr` lead
        along the list with the datum in its place. */
    method Add(data: int, index: nat) returns (rc: int, halted: bool)
      requires Valid()
      modifies this, pool.freeList
      ensures halted <==> |old(spine)| == pool.maxObj
      ensures halted ==> Valid() && Contents() == old(Contents())
      ensures !halted ==> rc == if index + 1 < |old(spine)| then index + 1 else |old(spine)|
      ensures !halted && Appends(|old(spine)|, index) ==> Valid() && Contents() == old(Contents()) + [data]
      ensures !halted && !Appends(|old(spine)|, index) ==>
                Lost() && spine == old(spine) && DataAlong(nodes, spine) == old(Contents())
      ensures !halted && !Appends(|old(spine)|, index) ==>
                FoundBackwards(nodes, endPtr, InsertAt(old(Contents()), index + 1, data))
    {
      var node := NewNode(data);
      if node == 0 {
        return -1, true;
      }
      WriteOutside(old(nodes), spine, node, Node(0, 0, data));
      LinkedInNodes(nodes, spine);
      halted := false;
      var tempNode;
      tempNode, rc := Walk(index + 1);
      if tempNode == 0 {
        AddLast(node, data);
      } else {
        AddBefore(node, tempNode, rc);
      }
    }

    /** `size` is one more than the number of nodes that the forward links lead along. */
    ghost predicate Lost()
      reads this
    {
      && Forward(nodes, spine) && 0 !in spine && startPtr == NextIn(spine, -1)
      && size == |spine| + 1
    }

    /** A list in that state has no spine at all. */
    lemma LostForGood(sp: seq<int>)
      requires Lost()
      ensures !(Linked(nodes, sp) && startPtr == NextIn(sp, -1) && size == |sp|)
    {
      if Linked(nodes, sp) && startPtr == NextIn(sp, -1) {
        LinkedForward(nodes, sp);
        SameWalk(nodes, sp, spine);
      }
    }

    /** The middle branch of `linked_list_add`. */
    method AddBefore(node: int, tempNode: int, ghost k: nat)
      requires Linked(nodes, spine) && size == |spine|
      requires startPtr == NextIn(spine, -1) && endPtr == PrevIn(spine, |spine|)
      requires node in nodes && node != 0 && node !in spine && k < |spine| && tempNode == spine[k]
      modifies this`nodes, this`startPtr, this`size
      ensures startPtr == if k == 0 then node else old(startPtr)
      ensures k > 0 ==> Lost() && DataAlong(nodes, spine) == old(Contents())
      ensures k > 0 ==> FoundBackwards(nodes, endPtr, InsertAt(old(Contents()), k, old(nodes)[node].data))
    {
      LinkedForward(nodes, spine);
      InsertedForward(nodes, spine, node, tempNode);
      assert LinkedAt(nodes, spine, k) && (k > 0 ==> spine[k - 1] in spine);
      if nodes[tempNode].prev == 0 {
        startPtr := node;
      }
      nodes := Inserted(nodes, node, tempNode);
      size := size + 1;
      if k > 0 { InsertedBackward(old(nodes), spine, old(Contents()), node, k); }
    }

    /** `linked_list_enqueue`. */
    method Enqueue(data: int) returns (rc: int, halted: bool)
      requires Valid()
      modifies this, pool.freeList
      ensures Valid() && (halted <==> |old(spine)| == pool.maxObj)
      ensures Contents() == old(Contents()) + if halted then [] else [data]
      ensures !halted ==> rc == |old(spine)|
    {
      rc, halted := Add(data, size);
    }

    /** `linked_list_push`. It puts its datum in front of an empty list only: one node is appended
        to, a longer list loses the datum. */
    method Push(data: int) returns (rc: int, halted: bool)
      requires Valid()
      modifies this, pool.freeList
      ensures halted <==> |old(spine)| == pool.maxObj
      ensures halted ==> Valid() && Contents() == old(Contents())
      ensures !halted && |old(spine)| <= 1 ==> Valid() && Contents() == old(Contents()) + [data]
      ensures !halted && |old(spine)| > 1 ==>
                Lost() && spine == old(spine) && DataAlong(nodes, spine) == old(Contents())
      ensures !halted && |old(spine)| > 1 ==>
                FoundBackwards(nodes, endPtr, InsertAt(old(Contents()), 1, data))
    {
      rc, halted := Add(data, 0);
    }

    /** `linked_list_remove`. With an index equal to the size the source goes on through a null
        pointer: that is `wild`, and nothing has changed up to there. */
    method Remove(index: nat) returns (rc: int, wild: bool)
      requires Valid()
      modifies this, pool.freeList
      ensures Valid() && (wild <==> index == |old(spine)|)
      ensures index > |old(spine)| ==> rc == -1
      ensures index >= |old(spine)| ==> Contents() == old(Contents())
      ensures index < |old(spine)| ==>
                rc == 0 && Contents() == old(Contents())[..index] + old(Contents())[index + 1..]
    {
      LinkedInNodes(nodes, spine);
      var node, tempIndex := Walk(index);
      if tempIndex != index {
        return -1, false;
      }
      if node == 0 {
        return -1, true;
      }
      assert LinkedAt(nodes, spine, index);
      RemovedAddresses(spine, index);
      Unlink(node, index);
      rc := FreeNode(node);
      wild := false;
    }

    /** Take node `k` out of the links. */
    method Unlink(node: int, ghost k: nat)
      requires Linked(nodes, spine) && size == |spine| && k < |spine| && node == spine[k] && node in nodes
      requires startPtr == NextIn(spine, -1) && endPtr == PrevIn(spine, |spine|)
      modifies this
      ensures spine == old(spine)[..k] + old(spine)[k + 1..] && Linked(nodes, spine) && size == |spine|
      ensures startPtr == NextIn(spine, -1) && endPtr == PrevIn(spine, |spine|)
      ensures Contents() == old(Contents())[..k] + old(Contents())[k + 1..]
    {
      LinkedInNodes(nodes, spine);
      assert LinkedAt(nodes, spine, k);
      RemoveLinked(nodes, spine, k);
      var prevNode, nextNode := nodes[node].prev, nodes[node].next;
      nodes := Unlinked(nodes, prevNode, nextNode);
      RemovedData(old(nodes), nodes, spine, k);
      if prevNode == 0 { startPtr := nextNode; }
      if nextNode == 0 { endPtr := prevNode; }
      size := size - 1;
      spine := spine[..k] + spine[k + 1..];
    }

    /** Give a node of the list back to the pool. */
    method FreeNode(node: int) returns (rc: int)
      requires pool.Valid() && node in Slots(pool.buf, pool.typeSize, pool.Claimed())
      modifies pool.freeList
      ensures rc == 0 && pool.Valid()
      ensures Slots(pool.buf, pool.typeSize, pool.Claimed())
           == old(Slots(pool.buf, pool.typeSize, pool.Claimed())) - {node}
    {
      ghost var claimed := pool.Claimed();
      ghost var x :| x in claimed && SlotAddr(pool.buf, pool.typeSize, x) == node;
      SlotsRemove(pool.buf, pool.typeSize, claimed, x);
      var ok := pool.FreeEntry(node, x);
      rc := if ok then 0 else -1;
    }

    /** `linked_list_pop`: 0 for NULL. A null datum at the head is returned and never removed. */
    method Pop(nullData: int) returns (data: int)
      requires Valid()
      modifies this, pool.freeList
      ensures Valid()
      ensures old(Contents()) == [] || old(Contents())[0] == 0 ==> data == 0 && Contents() == old(Contents())
      ensures old(Contents()) != [] && old(Contents())[0] != 0 ==> old(Contents()) == [data] + Contents()
    {
      data := Get(0, nullData);
      if data == 0 {
        return;
      }
      var _, _ := Remove(0);
    }

    /** `linked_list_cycle`: the first node becomes the last. */
    method Cycle()
      requires Valid()
      modifies this
      ensures Valid()
      ensures Contents() == if |old(spine)| <= 1 then old(Contents()) else old(Contents())[1..] + [old(Contents())[0]]
    {
      LinkedInNodes(nodes, spine);
      var firstNode, lastNode := startPtr, endPtr;
      if firstNode == lastNode {
        return;
      }
      assert LinkedAt(nodes, spine, 0);
      CycleLinked(nodes, spine);
      CycledAddresses(spine);
      var secondNode := nodes[firstNode].next;
      nodes := Cycled(nodes, firstNode, secondNode, lastNode);
      endPtr := firstNode;
      startPtr := secondNode;
      spine := spine[1..] + [spine[0]];
    }
  }

  /** When `linked_list_add` is an append. */
  predicate Appends(size: nat, index: nat) {
    size == 0 || index >= size - 1
  }

  lemma RemovedData(nodes: Nodes, after: Nodes, sp: seq<int>, k: nat)
    requires k < |sp| && forall i :: 0 <= i < |sp| ==> sp[i] in nodes
    requires nodes.Keys <= after.Keys && forall a :: a in nodes ==> after[a].data == nodes[a].data
    ensures var sp' := sp[..k] + sp[k + 1..];
            && (forall i :: 0 <= i < |sp'| ==> sp'[i] in after)
            && DataAlong(after, sp') == DataAlong(nodes, sp)[..k] + DataAlong(nodes, sp)[k + 1..]
  {
    var sp' := sp[..k] + sp[k + 1..];
    forall i | 0 <= i < |sp'|
      ensures sp'[i] in after && after[sp'[i]].data == nodes[sp[if i < k then i else i + 1]].data
    {
      var a := sp[if i < k then i else i + 1];
      assert sp'[i] == a && a in nodes;
    }
    var d, d' := DataAlong(nodes, sp), DataAlong(after, sp');
    assert forall i :: 0 <= i < k ==> d'[i] == d[i];
    assert forall i :: k <= i < |sp'| ==> d'[i] == d[i + 1];
  }

  lemma RemovedAddresses(sp: seq<int>, k: nat)
    requires k < |sp| && forall i, j :: 0 <= i < j < |sp| ==> sp[i] != sp[j]
    ensures Addresses(sp[..k] + sp[k + 1..]) == Addresses(sp) - {sp[k]}
  {
    var sp' := sp[..k] + sp[k + 1..];
    forall i | 0 <= i < |sp| && i != k ensures sp[i] in sp' && sp[i] != sp[k] {
      assert sp'[if i < k then i else i - 1] == sp[i];
    }
  }

  lemma CycledAddresses(sp: seq<int>)
    requires |sp| > 1
    ensures Addresses(sp[1..] + [sp[0]]) == Addresses(sp)
  {
    assert sp == [sp[0]] + sp[1..];
  }
}
