/** The block chain of kernel/kheap.c as a value: what splitting, merging and best-fit
    search do to the sequence of blocks, apart from how headers encode it in memory. */
module HeapChain {

  const HEADER_SIZE: int := 16
  const SPLIT_THRESHOLD: int := 16
  const EXPAND_SIZE: int := 4096

  datatype Block = Block(addr: int, size: int, used: bool) {
    function End(): int { addr + HEADER_SIZE + size }
  }

  type Chain = seq<Block>

  /** The blocks cover [lo, hi) one after the other with no gap and no overlap, all sizes
      whole words. */
  ghost predicate Tiled(c: Chain, lo: int, hi: int) {
    if c == [] then lo == hi
    else c[0].addr == lo && 0 <= c[0].size && c[0].size % 4 == 0 && Tiled(c[1..], c[0].End(), hi)
  }

  ghost predicate Separated(c: Chain, i: int)
    requires 0 <= i < |c| - 1
  {
    c[i].used || c[i + 1].used
  }

  /** No two neighbouring blocks are both FREE. */
  ghost predicate Coalesced(c: Chain) {
    forall i {:trigger Separated(c, i)} :: 0 <= i < |c| - 1 ==> Separated(c, i)
  }

  /** The live allocations, with their addresses and sizes. */
  ghost function UsedBlocks(c: Chain): set<Block> {
    set b | b in c && b.used
  }

  ghost function FreeAddrs(c: Chain): set<int> {
    set b | b in c && !b.used :: b.addr
  }

  // ---------------------------------------------------------------- tiling

  lemma {:induction false} TiledAppend(a: Chain, b: Chain, lo: int, mid: int, hi: int)
    requires Tiled(a, lo, mid) && Tiled(b, mid, hi)
    ensures Tiled(a + b, lo, hi)
  {
    if a == [] {
      assert a + b == b;
    } else {
      TiledAppend(a[1..], b, a[0].End(), mid, hi);
      assert (a + b)[1..] == a[1..] + b;
    }
  }

  lemma {:induction false} TiledCut(c: Chain, lo: int, hi: int, i: nat)
    requires Tiled(c, lo, hi) && i <= |c|
    ensures Tiled(c[..i], lo, if i < |c| then c[i].addr else hi)
    ensures Tiled(c[i..], if i < |c| then c[i].addr else hi, hi)
  {
    if i == 0 {
      assert c[..i] == [] && c[i..] == c;
    } else {
      TiledCut(c[1..], c[0].End(), hi, i - 1);
      assert c[..i] == [c[0]] + c[1..][..i - 1];
      assert c[..i][1..] == c[1..][..i - 1];
      assert c[i..] == c[1..][i - 1..];
    }
  }

  /** Where block `i` lies. */
  lemma {:induction false} TiledAt(c: Chain, lo: int, hi: int, i: nat)
    requires Tiled(c, lo, hi) && i < |c|
    ensures lo <= c[i].addr && c[i].End() <= hi && 0 <= c[i].size && c[i].size % 4 == 0
    ensures i == 0 ==> c[i].addr == lo
    ensures i > 0 ==> c[i].addr == c[i - 1].End()
    ensures i == |c| - 1 ==> c[i].End() == hi
    ensures (c[i].addr - lo) % 4 == 0
    ensures i > 0 ==> lo < c[i].addr
    decreases i
  {
    TiledBound(c[1..], c[0].End(), hi);
    if i > 0 {
      TiledAt(c[1..], c[0].End(), hi, i - 1);
    }
  }

  lemma {:induction false} TiledBound(c: Chain, lo: int, hi: int)
    requires Tiled(c, lo, hi)
    ensures lo <= hi && (c != [] ==> lo + HEADER_SIZE <= hi)
    ensures (hi - lo) % 4 == 0
  {
    if c != [] { TiledBound(c[1..], c[0].End(), hi); }
  }

  lemma TiledAround(c: Chain, lo: int, hi: int, i: nat)
    requires 0 < lo && Tiled(c, lo, hi) && i < |c|
    ensures 0 < c[i].addr && 0 <= c[i].size
    ensures i > 0 ==> 0 < c[i - 1].addr && c[i - 1].addr + HEADER_SIZE <= c[i].addr
    ensures i + 1 < |c| ==> c[i + 1].addr == c[i].End()
  {
    TiledAt(c, lo, hi, i);
    if i > 0 { TiledAt(c, lo, hi, i - 1); }
    if i + 1 < |c| { TiledAt(c, lo, hi, i + 1); }
  }

  lemma TiledOrder(c: Chain, lo: int, hi: int, i: nat, j: nat)
    requires Tiled(c, lo, hi) && i < j < |c|
    ensures c[i].End() <= c[j].addr
  {
    TiledCut(c, lo, hi, j);
    TiledAt(c[..j], lo, c[j].addr, i);
  }

  lemma TiledOrderAll(c: Chain, lo: int, hi: int)
    requires Tiled(c, lo, hi)
    ensures forall i, j :: 0 <= i < j < |c| ==> c[i].End() <= c[j].addr
    ensures forall i :: 0 <= i < |c| ==> lo <= c[i].addr && c[i].End() <= hi && 0 <= c[i].size
  {
    forall i, j | 0 <= i < j < |c| ensures c[i].End() <= c[j].addr { TiledOrder(c, lo, hi, i, j); }
    forall i | 0 <= i < |c| ensures lo <= c[i].addr && c[i].End() <= hi && 0 <= c[i].size {
      TiledAt(c, lo, hi, i);
    }
  }

  /** Replace blocks `i..k` by `bs`. Every change to the chain is one of these. */
  function Splice(c: Chain, i: nat, k: nat, bs: Chain): (r: Chain)
    requires i <= k <= |c|
  {
    c[..i] + bs + c[k..]
  }

  lemma SpliceTiled(c: Chain, lo: int, hi: int, i: nat, k: nat, bs: Chain)
    requires Tiled(c, lo, hi) && i < k <= |c|
    requires Tiled(bs, c[i].addr, c[k - 1].End())
    ensures Tiled(Splice(c, i, k, bs), lo, hi)
  {
    TiledCut(c, lo, hi, i);
    TiledCut(c, lo, hi, k);
    if k < |c| { TiledAt(c, lo, hi, k); } else { TiledAt(c, lo, hi, k - 1); }
    TiledAppend(c[..i], bs, lo, c[i].addr, c[k - 1].End());
    TiledAppend(c[..i] + bs, c[k..], lo, c[k - 1].End(), hi);
  }

  // ---------------------------------------------------------------- operations

  /** `heap_split_node`: carve an allocation of `n` bytes out of FREE block `i`. */
  function Split(c: Chain, i: nat, n: nat): (r: Chain)
    requires i < |c| && !c[i].used && n <= c[i].size
  {
    Splice(c, i, i + 1, SplitParts(c[i], n))
  }

  function SplitParts(b: Block, n: nat): (bs: Chain)
    requires n <= b.size
    ensures 1 <= |bs| <= 2 && bs[0].addr == b.addr && bs[0].used && bs[|bs| - 1].End() == b.End()
    ensures n <= bs[0].size <= n + 16
    ensures |bs| == 2 <==> b.size - n > 16
    ensures |bs| == 2 ==> !bs[1].used && bs[1].size > 0 && bs[0].size == n
  {
    if b.size - n <= SPLIT_THRESHOLD then [Block(b.addr, b.size, true)]
    else [Block(b.addr, n, true), Block(b.addr + HEADER_SIZE + n, b.size - n - HEADER_SIZE, false)]
  }

  /** `heap_merge_right` of block `i`, or `heap_merge_left` of block `i + 1`. */
  function Merge(c: Chain, i: nat): (r: Chain)
    requires i + 1 < |c|
    ensures |r| == |c| - 1
  {
    Splice(c, i, i + 2, [Block(c[i].addr, c[i].size + c[i + 1].size + HEADER_SIZE, false)])
  }

  /** The chain part of `kfree` on block `i`: it and its FREE neighbours become one FREE block. */
  function Release(c: Chain, i: nat): (r: Chain)
    requires i < |c|
  {
    Splice(c, FuseFrom(c, i), FuseTo(c, i), [Fused(c, i)])
  }

  /** The blocks that freeing block `i` fuses: from `FuseFrom` up to but excluding `FuseTo`. */
  function FuseFrom(c: Chain, i: nat): (l: nat)
    requires i < |c|
    ensures l <= i
  {
    if i > 0 && !c[i - 1].used then i - 1 else i
  }

  function FuseTo(c: Chain, i: nat): (k: nat)
    requires i < |c|
    ensures i < k <= |c|
  {
    if i + 1 < |c| && !c[i + 1].used then i + 2 else i + 1
  }

  function Fused(c: Chain, i: nat): (b: Block)
    requires i < |c|
  {
    var l, k := FuseFrom(c, i), FuseTo(c, i);
    Block(c[l].addr, c[k - 1].End() - c[l].addr - HEADER_SIZE, false)
  }

  /** Index of the block `heap_find_free_node` settles on, or -1. */
  function BestFit(c: Chain, n: int): (best: int)
    ensures -1 <= best < |c|
    ensures best >= 0 ==> IsBestFit(c, n, best)
    ensures best == -1 ==> forall k :: 0 <= k < |c| ==> !Fits(c[k], n)
  {
    if c == [] then -1
    else
      var m := |c| - 1;
      var b := BestFit(c[..m], n);
      if Fits(c[m], n) && (b == -1 || c[m].size < c[b].size) then m else b
  }

  predicate Fits(b: Block, n: int) {
    !b.used && b.size >= n
  }

  /** The smallest FREE block that fits; the lowest one on ties. */
  ghost predicate IsBestFit(c: Chain, n: int, i: int) {
    && 0 <= i < |c| && Fits(c[i], n)
    && (forall k :: 0 <= k < |c| && Fits(c[k], n) ==> c[i].size <= c[k].size)
    && (forall k :: 0 <= k < i && Fits(c[k], n) ==> c[i].size < c[k].size)
  }

  lemma BestFitUnique(c: Chain, n: int, i: int, j: int)
    requires IsBestFit(c, n, i) && IsBestFit(c, n, j)
    ensures i == j
  {
  }

  // ---------------------------------------------------------------- what they keep

  lemma SplitTiled(c: Chain, lo: int, hi: int, i: nat, n: nat)
    requires Tiled(c, lo, hi) && i < |c| && !c[i].used && n <= c[i].size && n % 4 == 0
    ensures Tiled(Split(c, i, n), lo, hi)
  {
    TiledAt(c, lo, hi, i);
    var bs := SplitParts(c[i], n);
    assert bs[1..] == [] || bs[1..] == [bs[1]];
    SpliceTiled(c, lo, hi, i, i + 1, bs);
  }

  lemma MergeTiled(c: Chain, lo: int, hi: int, i: nat)
    requires Tiled(c, lo, hi) && i + 1 < |c|
    ensures Tiled(Merge(c, i), lo, hi)
  {
    TiledAt(c, lo, hi, i);
    TiledAt(c, lo, hi, i + 1);
    SpliceTiled(c, lo, hi, i, i + 2, [Block(c[i].addr, c[i].size + c[i + 1].size + HEADER_SIZE, false)]);
  }

  /** A second splice that covers the first replaces it. */
  lemma SpliceTwice(c: Chain, i: nat, k: nat, bs: Chain, l: nat, r: nat, ds: Chain)
    requires l <= i <= k && k + r <= |c|
    ensures Splice(Splice(c, i, k, bs), l, i + |bs| + r, ds) == Splice(c, l, k + r, ds)
  {
    var c1 := Splice(c, i, k, bs);
    assert c1[..l] == c[..l];
    assert c1[i + |bs| + r..] == c[k + r..];
  }

  /** `heap_merge_nodes` merges right and then left; in the three-way case the two steps
      amount to the single replacement `Release` describes. */
  lemma MergeBothWays(c: Chain, lo: int, hi: int, i: nat)
    requires Tiled(c, lo, hi) && 0 < i && i + 1 < |c| && !c[i - 1].used && !c[i].used && !c[i + 1].used
    ensures Merge(Merge(c, i), i - 1) == Release(c, i)
  {
    TiledAt(c, lo, hi, i);
    TiledAt(c, lo, hi, i + 1);
    var b := Block(c[i].addr, c[i].size + c[i + 1].size + HEADER_SIZE, false);
    SpliceTwice(c, i, i + 2, [b], i - 1, 0, [Fused(c, i)]);
  }

  lemma MergeOneWay(c: Chain, lo: int, hi: int, i: nat)
    requires Tiled(c, lo, hi) && i < |c| && !c[i].used
    ensures FuseFrom(c, i) == i && FuseTo(c, i) == i + 2 ==> Merge(c, i) == Release(c, i)
    ensures FuseFrom(c, i) == i - 1 && FuseTo(c, i) == i + 1 ==> Merge(c, i - 1) == Release(c, i)
    ensures FuseFrom(c, i) == i && FuseTo(c, i) == i + 1 ==> c == Release(c, i)
  {
    TiledAt(c, lo, hi, i);
    if i + 1 < |c| { TiledAt(c, lo, hi, i + 1); }
  }

  /** Whichever merges `heap_merge_nodes` makes, they add up to `Release`. */
  lemma MergeStepsAgree(c: Chain, lo: int, hi: int, i: nat)
    requires Tiled(c, lo, hi) && i < |c| && !c[i].used
    ensures var c1 := if i + 1 < |c| && !c[i + 1].used then Merge(c, i) else c;
            Release(c, i) == if i > 0 && !c[i - 1].used then Merge(c1, i - 1) else c1
  {
    MergeOneWay(c, lo, hi, i);
    if 0 < i && i + 1 < |c| && !c[i - 1].used && !c[i + 1].used { MergeBothWays(c, lo, hi, i); }
  }

  /** Marking the block FREE before merging does not change what the merge yields. */
  lemma ReleaseAfterMarking(c: Chain, i: nat)
    requires i < |c|
    ensures Release(Splice(c, i, i + 1, [Block(c[i].addr, c[i].size, false)]), i) == Release(c, i)
  {
    SpliceTwice(c, i, i + 1, [Block(c[i].addr, c[i].size, false)],
                FuseFrom(c, i), FuseTo(c, i) - i - 1, [Fused(c, i)]);
  }

  lemma ReleaseTiled(c: Chain, lo: int, hi: int, i: nat)
    requires Tiled(c, lo, hi) && i < |c|
    ensures Tiled(Release(c, i), lo, hi)
  {
    var l, k := FuseFrom(c, i), FuseTo(c, i);
    FusedTiled(c, lo, hi, i);
    SpliceTiled(c, lo, hi, l, k, [Fused(c, i)]);
  }

  lemma FusedTiled(c: Chain, lo: int, hi: int, i: nat)
    requires Tiled(c, lo, hi) && i < |c|
    ensures Tiled([Fused(c, i)], c[FuseFrom(c, i)].addr, c[FuseTo(c, i) - 1].End())
  {
    TiledAt(c, lo, hi, i);
    if i > 0 { TiledAt(c, lo, hi, i - 1); }
    if i + 1 < |c| { TiledAt(c, lo, hi, i + 1); }
  }

  lemma SpliceCoalesced(c: Chain, i: nat, k: nat, bs: Chain)
    requires Coalesced(c) && Coalesced(bs) && i <= k <= |c| && bs != []
    requires i > 0 ==> c[i - 1].used || bs[0].used
    requires k < |c| ==> bs[|bs| - 1].used || c[k].used
    ensures Coalesced(Splice(c, i, k, bs))
  {
    var r := Splice(c, i, k, bs);
    forall j | 0 <= j < |r| - 1 ensures Separated(r, j) {
      if j < i - 1 { assert Separated(c, j); }
      else if i <= j < i + |bs| - 1 { assert Separated(bs, j - i); }
      else if j >= i + |bs| { assert Separated(c, j - i - |bs| + k); }
    }
  }

  lemma SplitCoalesced(c: Chain, i: nat, n: nat)
    requires Coalesced(c) && i < |c| && !c[i].used && n <= c[i].size
    ensures Coalesced(Split(c, i, n))
  {
    if i + 1 < |c| { assert Separated(c, i); }
    SpliceCoalesced(c, i, i + 1, SplitParts(c[i], n));
  }

  lemma ReleaseCoalesced(c: Chain, lo: int, hi: int, i: nat)
    requires Tiled(c, lo, hi) && Coalesced(c) && i < |c|
    ensures Coalesced(Release(c, i))
  {
    var l, k := FuseFrom(c, i), FuseTo(c, i);
    if 0 < l { assert Separated(c, l - 1); }
    if k < |c| { assert Separated(c, k - 1); }
    SpliceCoalesced(c, l, k, [Fused(c, i)]);
  }

  /** What a splice does to the live allocations and to the FREE addresses. */
  lemma SpliceContents(c: Chain, lo: int, hi: int, i: nat, k: nat, bs: Chain)
    requires Tiled(c, lo, hi) && i <= k <= |c|
    ensures UsedBlocks(Splice(c, i, k, bs)) == UsedBlocks(c) - UsedBlocks(c[i..k]) + UsedBlocks(bs)
    ensures FreeAddrs(Splice(c, i, k, bs)) == FreeAddrs(c) - FreeAddrs(c[i..k]) + FreeAddrs(bs)
  {
    var a, m, z := c[..i], c[i..k], c[k..];
    assert c == a + m + z;
    ContentsOfConcat(a + m, z);
    ContentsOfConcat(a, m);
    ContentsOfConcat(a + bs, z);
    ContentsOfConcat(a, bs);
    DistinctAddrs(c, lo, hi, i, k);
  }

  lemma ContentsOfConcat(a: Chain, b: Chain)
    ensures UsedBlocks(a + b) == UsedBlocks(a) + UsedBlocks(b)
    ensures FreeAddrs(a + b) == FreeAddrs(a) + FreeAddrs(b)
  {
    assert forall x :: x in a + b <==> x in a || x in b;
  }

  lemma DistinctAddrs(c: Chain, lo: int, hi: int, i: nat, k: nat)
    requires Tiled(c, lo, hi) && i <= k <= |c|
    ensures UsedBlocks(c[i..k]) !! UsedBlocks(c[..i]) + UsedBlocks(c[k..])
    ensures FreeAddrs(c[i..k]) !! FreeAddrs(c[..i]) + FreeAddrs(c[k..])
  {
    TiledCut(c, lo, hi, i);
    TiledCut(c, lo, hi, k);
    TiledCut(c[..k], lo, if k < |c| then c[k].addr else hi, i);
    assert c[..k][i..] == c[i..k];
    assert c[..k][..i] == c[..i];
    AddrRange(c[..i], lo, if i < |c| then c[i].addr else hi);
    AddrRange(c[i..k], if i < |c| then c[i].addr else hi, if k < |c| then c[k].addr else hi);
    AddrRange(c[k..], if k < |c| then c[k].addr else hi, hi);
  }

  lemma AddrRange(c: Chain, lo: int, hi: int)
    requires Tiled(c, lo, hi)
    ensures forall b :: b in c ==> lo <= b.addr < hi
  {
    forall b | b in c ensures lo <= b.addr < hi {
      var i :| 0 <= i < |c| && c[i] == b;
      TiledAt(c, lo, hi, i);
    }
  }

  /** Splitting adds exactly one live allocation and disturbs no other. */
  lemma SplitUsed(c: Chain, lo: int, hi: int, i: nat, n: nat)
    requires Tiled(c, lo, hi) && i < |c| && !c[i].used && n <= c[i].size
    ensures UsedBlocks(Split(c, i, n)) == UsedBlocks(c) + {SplitParts(c[i], n)[0]}
  {
    SpliceContents(c, lo, hi, i, i + 1, SplitParts(c[i], n));
    assert c[i..i + 1] == [c[i]];
  }

  lemma SplitFree(c: Chain, lo: int, hi: int, i: nat, n: nat)
    requires Tiled(c, lo, hi) && i < |c| && !c[i].used && n <= c[i].size
    ensures FreeAddrs(Split(c, i, n)) ==
            FreeAddrs(c) - {c[i].addr} +
            if c[i].size - n <= SPLIT_THRESHOLD then {} else {c[i].addr + HEADER_SIZE + n}
  {
    var bs := SplitParts(c[i], n);
    SpliceContents(c, lo, hi, i, i + 1, bs);
    assert c[i..i + 1] == [c[i]];
    assert FreeAddrs([c[i]]) == {c[i].addr};
    assert FreeAddrs(bs) == if |bs| == 1 then {} else {bs[1].addr};
  }

  lemma LoneUsed(m: Chain, i: nat)
    requires i < |m| && forall j :: 0 <= j < |m| && j != i ==> !m[j].used
    ensures UsedBlocks(m) == if m[i].used then {m[i]} else {}
  {
    assert m[i] in m;
  }

  /** Freeing takes exactly one live allocation away. */
  lemma ReleaseUsed(c: Chain, lo: int, hi: int, i: nat)
    requires Tiled(c, lo, hi) && i < |c|
    ensures UsedBlocks(Release(c, i)) == UsedBlocks(c) - {c[i]}
  {
    var l, k := FuseFrom(c, i), FuseTo(c, i);
    SpliceContents(c, lo, hi, l, k, [Fused(c, i)]);
    LoneUsed(c[l..k], i - l);
    assert !c[i].used ==> c[i] !in UsedBlocks(c);
    assert UsedBlocks([Fused(c, i)]) == {};
  }

  lemma MergeUsed(c: Chain, lo: int, hi: int, i: nat)
    requires Tiled(c, lo, hi) && i + 1 < |c| && !c[i].used && !c[i + 1].used
    ensures UsedBlocks(Merge(c, i)) == UsedBlocks(c)
  {
    SpliceContents(c, lo, hi, i, i + 2, [Block(c[i].addr, c[i].size + c[i + 1].size + HEADER_SIZE, false)]);
    assert UsedBlocks(c[i..i + 2]) == {};
  }

  /** The FREE addresses after a release: those of the fused blocks go, the lowest comes back. */
  lemma ReleaseFree(c: Chain, lo: int, hi: int, i: nat)
    requires Tiled(c, lo, hi) && i < |c|
    ensures FreeAddrs(Release(c, i)) ==
            FreeAddrs(c) - {c[FuseFrom(c, i)].addr, c[i].addr, c[FuseTo(c, i) - 1].addr} + {c[FuseFrom(c, i)].addr}
  {
    var l, k := FuseFrom(c, i), FuseTo(c, i);
    SpliceContents(c, lo, hi, l, k, [Fused(c, i)]);
    assert FreeAddrs([Fused(c, i)]) == {c[l].addr};
    FusedFree(c, lo, hi, i);
  }

  lemma FusedFree(c: Chain, lo: int, hi: int, i: nat)
    requires Tiled(c, lo, hi) && i < |c|
    ensures var l, k := FuseFrom(c, i), FuseTo(c, i);
            FreeAddrs(c) - FreeAddrs(c[l..k]) == FreeAddrs(c) - {c[l].addr, c[i].addr, c[k - 1].addr}
  {
    var l, k := FuseFrom(c, i), FuseTo(c, i);
    var m := c[l..k];
    assert m[0] == c[l] && m[i - l] == c[i] && m[|m| - 1] == c[k - 1];
    FreeOfRange(m, i - l);
    if c[i].used { UsedAddr(c, lo, hi, i); }
  }

  lemma FreeOfRange(m: Chain, i: nat)
    requires i < |m| && |m| <= i + 2 && i <= 1
    requires forall j :: 0 <= j < |m| && j != i ==> !m[j].used
    ensures FreeAddrs(m) + {m[i].addr} == {m[0].addr, m[i].addr, m[|m| - 1].addr}
    ensures !m[i].used ==> m[i].addr in FreeAddrs(m)
  {
    assert m[0] in m && m[i] in m && m[|m| - 1] in m;
    assert forall b :: b in m ==> b == m[0] || b == m[i] || b == m[|m| - 1];
  }

  lemma UsedAddr(c: Chain, lo: int, hi: int, i: nat)
    requires Tiled(c, lo, hi) && i < |c| && c[i].used
    ensures c[i].addr !in FreeAddrs(c)
  {
    TiledOrderAll(c, lo, hi);
  }

  /** Allocating and freeing again restores the chain, in the split and in the threshold branch. */
  lemma SplitThenRelease(c: Chain, lo: int, hi: int, i: nat, n: nat)
    requires Tiled(c, lo, hi) && Coalesced(c) && i < |c| && !c[i].used && n <= c[i].size && n % 4 == 0
    ensures Release(Split(c, i, n), i) == c
  {
    var s := Split(c, i, n);
    SplitTiled(c, lo, hi, i, n);
    if i > 0 { assert Separated(c, i - 1); }
    if i + 1 < |c| { assert Separated(c, i); }
    var m := |SplitParts(c[i], n)|;
    assert FuseFrom(s, i) == i && FuseTo(s, i) == i + m;
    assert s[..i] == c[..i] && s[i + m..] == c[i + 1..];
    assert Fused(s, i) == c[i];
  }

  /** Freeing a FREE block of the chain changes nothing. */
  lemma ReleaseFreeBlock(c: Chain, lo: int, hi: int, i: nat)
    requires Tiled(c, lo, hi) && Coalesced(c) && i < |c| && !c[i].used
    ensures Release(c, i) == c
  {
    if i > 0 { assert Separated(c, i - 1); }
    if i + 1 < |c| { assert Separated(c, i); }
  }

  // ---------------------------------------------------------------- how many FREE blocks

  function FreeCount(c: Chain): nat {
    if c == [] then 0 else (if c[0].used then 0 else 1) + FreeCount(c[1..])
  }

  /** Every FREE block but the last is followed by a USED one, so `f` FREE blocks need
      `2 * f - 1` blocks' worth of bytes. */
  lemma {:induction false} FreeCountBound(c: Chain, lo: int, hi: int, least: nat)
    requires Tiled(c, lo, hi) && Coalesced(c)
    requires forall b :: b in c ==> b.size >= least
    ensures (2 * FreeCount(c) - 1) * (HEADER_SIZE + least) <= hi - lo
    ensures c != [] && c[0].used ==> 2 * FreeCount(c) * (HEADER_SIZE + least) <= hi - lo
  {
    if c == [] {
    } else {
      assert forall j :: 0 <= j < |c| - 2 ==> Separated(c[1..], j) == Separated(c, j + 1);
      FreeCountBound(c[1..], c[0].End(), hi, least);
      if |c| > 1 { assert Separated(c, 0); }
      assert c[0] in c;
      var q := HEADER_SIZE + least;
      var f := FreeCount(c[1..]);
      assert (2 * f - 1) * q == 2 * f * q - q;
      assert (2 * (f + 1) - 1) * q == 2 * f * q + q;
    }
  }

  lemma {:induction false} FreeCountIsSize(c: Chain, lo: int, hi: int)
    requires Tiled(c, lo, hi)
    ensures |FreeAddrs(c)| == FreeCount(c)
  {
    if c != [] {
      FreeCountIsSize(c[1..], c[0].End(), hi);
      AddrRange(c[1..], c[0].End(), hi);
      ContentsOfConcat([c[0]], c[1..]);
      assert c == [c[0]] + c[1..];
      assert FreeAddrs([c[0]]) == if c[0].used then {} else {c[0].addr};
    }
  }

  /** When the last block has a payload word, that word comes on top. */
  lemma FreeCountBoundLast(c: Chain, lo: int, hi: int)
    requires Tiled(c, lo, hi) && Coalesced(c) && c != [] && c[|c| - 1].size >= 4
    ensures 32 * FreeCount(c) <= hi - lo + 12
  {
    var m := |c| - 1;
    var b := c[m];
    var d := c[..m] + [b.(size := b.size - 4)];
    TiledCut(c, lo, hi, m);
    TiledAt(c, lo, hi, m);
    assert [b.(size := b.size - 4)][1..] == [];
    TiledAppend(c[..m], [b.(size := b.size - 4)], lo, b.addr, hi - 4);
    forall i | 0 <= i < |d| - 1 ensures Separated(d, i) {
      assert Separated(c, i);
    }
    forall x | x in d ensures x.size >= 0 {
      var i :| 0 <= i < |d| && d[i] == x;
      TiledAt(d, lo, hi - 4, i);
    }
    FreeCountBound(d, lo, hi - 4, 0);
    SameFreeCount(c, d);
  }

  lemma {:induction false} SameFreeCount(c: Chain, d: Chain)
    requires |c| == |d| && forall i :: 0 <= i < |c| ==> c[i].used == d[i].used
    ensures FreeCount(c) == FreeCount(d)
  {
    if c != [] { SameFreeCount(c[1..], d[1..]); }
  }
}
