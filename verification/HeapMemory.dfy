/** How kernel/kheap.c lays the block chain out in memory: 16-byte headers of four words. */
module HeapMemory {
  import opened HeapChain

  const MAGIC_FREE: int := 0x4545_5246
  const MAGIC_USED: int := 0x4445_5355

  /** Memory by word address. init_kheap zeroes the heap, so a word never written reads 0. */
  type Memory = map<int, int>

  function Load(mem: Memory, a: int): int {
    if a in mem then mem[a] else 0
  }

  datatype Header = Header(magic: int, next: int, prev: int, size: int)

  function HeaderAt(mem: Memory, a: int): Header {
    Header(Load(mem, a), Load(mem, a + 4), Load(mem, a + 8), Load(mem, a + 12))
  }

  /** Only words of the header at `a` differ. */
  ghost predicate Frame(m: Memory, m': Memory, a: int) {
    forall w {:trigger Load(m', w)} :: !(a <= w < a + HEADER_SIZE) ==> Load(m', w) == Load(m, w)
  }

  predicate Apart(a: int, y: int) {
    a + HEADER_SIZE <= y || y + HEADER_SIZE <= a
  }

  lemma FrameKeeps(m: Memory, m': Memory, a: int, y: int)
    requires Frame(m, m', a) && Apart(a, y)
    ensures HeaderAt(m', y) == HeaderAt(m, y)
  {
  }

  /** `heap_set_header`. */
  function SetHeader(mem: Memory, a: int, used: bool, next: int, prev: int, size: int): (m: Memory)
    ensures HeaderAt(m, a) == Header(if used then MAGIC_USED else MAGIC_FREE, next, prev, size)
    ensures Frame(mem, m, a)
  {
    mem[a := if used then MAGIC_USED else MAGIC_FREE][a + 4 := next][a + 8 := prev][a + 12 := size]
  }

  function SetNext(mem: Memory, a: int, next: int): (m: Memory)
    ensures HeaderAt(m, a) == HeaderAt(mem, a).(next := next)
    ensures Frame(mem, m, a)
  {
    mem[a + 4 := next]
  }

  function SetPrev(mem: Memory, a: int, prev: int): (m: Memory)
    ensures HeaderAt(m, a) == HeaderAt(mem, a).(prev := prev)
    ensures Frame(mem, m, a)
  {
    mem[a + 8 := prev]
  }

  /** The header block `i` of the chain must have. */
  function HeaderOf(c: Chain, i: nat): (h: Header)
    requires i < |c|
  {
    Header(if c[i].used then MAGIC_USED else MAGIC_FREE,
           if i + 1 < |c| then c[i + 1].addr else 0,
           if i > 0 then c[i - 1].addr else 0,
           c[i].size)
  }

  ghost predicate Encoded(mem: Memory, c: Chain, i: nat)
    requires i < |c|
  {
    HeaderAt(mem, c[i].addr) == HeaderOf(c, i)
  }

  /** Following `next_ptr` from the first header visits the chain, and `prev_ptr` is its
      exact reverse. */
  ghost predicate Encodes(mem: Memory, c: Chain) {
    forall i {:trigger Encoded(mem, c, i)} :: 0 <= i < |c| ==> Encoded(mem, c, i)
  }

  function NextOf(c: Chain, k: nat): int
    requires k <= |c|
  {
    if k < |c| then c[k].addr else 0
  }

  function PrevOf(c: Chain, i: nat): int
    requires i <= |c|
  {
    if i > 0 then c[i - 1].addr else 0
  }

  /** The header of the `j`th of the blocks `bs` once they stand in for blocks `i..k`. */
  function SplicedHeader(c: Chain, i: nat, k: nat, bs: Chain, j: nat): (h: Header)
    requires i <= k <= |c| && j < |bs|
  {
    Header(if bs[j].used then MAGIC_USED else MAGIC_FREE,
           if j + 1 < |bs| then bs[j + 1].addr else NextOf(c, k),
           if j > 0 then bs[j - 1].addr else PrevOf(c, i),
           bs[j].size)
  }

  lemma SplicedHeaderOf(c: Chain, i: nat, k: nat, bs: Chain, j: nat)
    requires i <= k <= |c| && j < |bs|
    ensures HeaderOf(Splice(c, i, k, bs), i + j) == SplicedHeader(c, i, k, bs, j)
    ensures Splice(c, i, k, bs)[i + j] == bs[j]
  {
  }

  /** Relinking the neighbours and writing the new headers is all a splice takes. */
  lemma EncodesSplice(m: Memory, m': Memory, c: Chain, i: nat, k: nat, bs: Chain)
    requires Encodes(m, c) && i < k <= |c| && bs != []
    requires forall j :: 0 <= j < i - 1 ==> HeaderAt(m', c[j].addr) == HeaderAt(m, c[j].addr)
    requires forall j :: k < j < |c| ==> HeaderAt(m', c[j].addr) == HeaderAt(m, c[j].addr)
    requires i > 0 ==> HeaderAt(m', c[i - 1].addr) == HeaderAt(m, c[i - 1].addr).(next := bs[0].addr)
    requires k < |c| ==> HeaderAt(m', c[k].addr) == HeaderAt(m, c[k].addr).(prev := bs[|bs| - 1].addr)
    requires forall j :: 0 <= j < |bs| ==> HeaderAt(m', bs[j].addr) == SplicedHeader(c, i, k, bs, j)
    ensures Encodes(m', Splice(c, i, k, bs))
  {
    var r := Splice(c, i, k, bs);
    forall j | 0 <= j < |r| ensures Encoded(m', r, j) {
      if j < i {
        SpliceBefore(c, i, k, bs, j);
        assert Encoded(m, c, j);
      } else if j >= i + |bs| {
        SpliceAfter(c, i, k, bs, j);
        assert Encoded(m, c, j - i - |bs| + k);
      } else {
        SplicedHeaderOf(c, i, k, bs, j - i);
      }
    }
  }

  lemma SpliceBefore(c: Chain, i: nat, k: nat, bs: Chain, j: nat)
    requires j < i < k <= |c| && bs != []
    ensures var r := Splice(c, i, k, bs);
            r[j] == c[j] && HeaderOf(r, j) == if j == i - 1 then HeaderOf(c, j).(next := bs[0].addr) else HeaderOf(c, j)
  {
  }

  lemma SpliceAfter(c: Chain, i: nat, k: nat, bs: Chain, j: nat)
    requires i < k <= |c| && bs != [] && i + |bs| <= j < |Splice(c, i, k, bs)|
    ensures var r, q := Splice(c, i, k, bs), j - i - |bs| + k;
            && r[j] == c[q]
            && HeaderOf(r, j) == if q == k then HeaderOf(c, q).(prev := bs[|bs| - 1].addr) else HeaderOf(c, q)
  {
  }

  // ---------------------------------------------------------------- the code's rewrites

  /** Point the neighbours, where there are any, at the new first and last header. */
  function Relink(m: Memory, next: int, prev: int, first: int, last: int): (r: Memory) {
    var m1 := if next != 0 then SetPrev(m, next, last) else m;
    if prev != 0 then SetNext(m1, prev, first) else m1
  }

  /** The writes of a merge, and of a split that keeps the block whole. */
  function RewriteOne(m: Memory, next: int, prev: int, b: Block): (r: Memory) {
    SetHeader(Relink(m, next, prev, b.addr, b.addr), b.addr, b.used, next, prev, b.size)
  }

  /** The writes of a split into a USED and a FREE block. */
  function RewriteTwo(m: Memory, next: int, prev: int, u: Block, f: Block): (r: Memory) {
    SetHeader(SetHeader(Relink(m, next, prev, u.addr, f.addr), f.addr, false, next, u.addr, f.size),
              u.addr, true, f.addr, prev, u.size)
  }

  lemma RelinkKeeps(m: Memory, next: int, prev: int, first: int, last: int, y: int)
    requires (next != 0 ==> Apart(next, y)) && (prev != 0 ==> Apart(prev, y))
    ensures HeaderAt(Relink(m, next, prev, first, last), y) == HeaderAt(m, y)
  {
    var m1 := if next != 0 then SetPrev(m, next, last) else m;
    if next != 0 { FrameKeeps(m, m1, next, y); }
    if prev != 0 { FrameKeeps(m1, SetNext(m1, prev, first), prev, y); }
  }

  lemma RelinkSets(m: Memory, next: int, prev: int, first: int, last: int)
    requires next != 0 && prev != 0 ==> Apart(next, prev)
    ensures var r := Relink(m, next, prev, first, last);
            && (next != 0 ==> HeaderAt(r, next) == HeaderAt(m, next).(prev := last))
            && (prev != 0 ==> HeaderAt(r, prev) == HeaderAt(m, prev).(next := first))
  {
    var m1 := if next != 0 then SetPrev(m, next, last) else m;
    if next != 0 && prev != 0 {
      FrameKeeps(m, m1, next, prev);
      FrameKeeps(m1, SetNext(m1, prev, first), prev, next);
    }
  }

  /** What the neighbours of blocks `i..k` and all further blocks read after relinking. */
  lemma RelinkChain(m: Memory, c: Chain, lo: int, hi: int, i: nat, k: nat, first: int, last: int)
    requires 0 < lo && Tiled(c, lo, hi) && i < k <= |c|
    ensures var r := Relink(m, NextOf(c, k), PrevOf(c, i), first, last);
            && (forall j :: 0 <= j < i - 1 ==> HeaderAt(r, c[j].addr) == HeaderAt(m, c[j].addr))
            && (forall j :: k < j < |c| ==> HeaderAt(r, c[j].addr) == HeaderAt(m, c[j].addr))
            && (i > 0 ==> HeaderAt(r, c[i - 1].addr) == HeaderAt(m, c[i - 1].addr).(next := first))
            && (k < |c| ==> HeaderAt(r, c[k].addr) == HeaderAt(m, c[k].addr).(prev := last))
  {
    TiledOrderAll(c, lo, hi);
    RelinkSets(m, NextOf(c, k), PrevOf(c, i), first, last);
    forall j | 0 <= j < i - 1 || k < j < |c|
      ensures HeaderAt(Relink(m, NextOf(c, k), PrevOf(c, i), first, last), c[j].addr) == HeaderAt(m, c[j].addr)
    {
      RelinkKeeps(m, NextOf(c, k), PrevOf(c, i), first, last, c[j].addr);
    }
  }

  /** Writing a header within blocks `i..k` leaves the headers around them alone. */
  lemma InsideKeeps(m: Memory, m': Memory, c: Chain, lo: int, hi: int, i: nat, k: nat, a: int)
    requires Tiled(c, lo, hi) && i < k <= |c| && Frame(m, m', a)
    requires c[i].addr <= a && a + HEADER_SIZE <= c[k - 1].End()
    ensures forall j :: (0 <= j < i || k <= j < |c|) ==> HeaderAt(m', c[j].addr) == HeaderAt(m, c[j].addr)
  {
    TiledOrderAll(c, lo, hi);
    forall j | 0 <= j < i || k <= j < |c| ensures HeaderAt(m', c[j].addr) == HeaderAt(m, c[j].addr) {
      FrameKeeps(m, m', a, c[j].addr);
    }
  }

  lemma RewriteOneEncodes(m: Memory, c: Chain, lo: int, hi: int, i: nat, k: nat, b: Block)
    requires 0 < lo && Tiled(c, lo, hi) && Encodes(m, c) && i < k <= |c| && b.addr == c[i].addr
    ensures Encodes(RewriteOne(m, NextOf(c, k), PrevOf(c, i), b), Splice(c, i, k, [b]))
  {
    var m2 := Relink(m, NextOf(c, k), PrevOf(c, i), b.addr, b.addr);
    var r := RewriteOne(m, NextOf(c, k), PrevOf(c, i), b);
    RelinkChain(m, c, lo, hi, i, k, b.addr, b.addr);
    TiledOrderAll(c, lo, hi);
    InsideKeeps(m2, r, c, lo, hi, i, k, b.addr);
    EncodesSplice(m, r, c, i, k, [b]);
  }

  lemma RewriteTwoEncodes(m: Memory, c: Chain, lo: int, hi: int, i: nat, u: Block, f: Block)
    requires 0 < lo && Tiled(c, lo, hi) && Encodes(m, c) && i < |c|
    requires u.addr == c[i].addr && u.used && !f.used && Apart(u.addr, f.addr)
    requires u.addr <= f.addr && f.addr + HEADER_SIZE <= c[i].End()
    ensures Encodes(RewriteTwo(m, NextOf(c, i + 1), PrevOf(c, i), u, f), Splice(c, i, i + 1, [u, f]))
    ensures HeaderAt(RewriteTwo(m, NextOf(c, i + 1), PrevOf(c, i), u, f), f.addr).next == NextOf(c, i + 1)
  {
    var next, prev := NextOf(c, i + 1), PrevOf(c, i);
    var r := RewriteTwo(m, next, prev, u, f);
    RelinkChain(m, c, lo, hi, i, i + 1, u.addr, f.addr);
    WrittenHeaders(Relink(m, next, prev, u.addr, f.addr), next, prev, u, f);
    WrittenAround(Relink(m, next, prev, u.addr, f.addr), c, lo, hi, i, next, prev, u, f);
    EncodesSplice(m, r, c, i, i + 1, [u, f]);
  }

  /** The two headers of a split, once written. */
  lemma WrittenHeaders(m: Memory, next: int, prev: int, u: Block, f: Block)
    requires Apart(u.addr, f.addr)
    ensures var r := SetHeader(SetHeader(m, f.addr, false, next, u.addr, f.size), u.addr, true, f.addr, prev, u.size);
            && HeaderAt(r, u.addr) == Header(MAGIC_USED, f.addr, prev, u.size)
            && HeaderAt(r, f.addr) == Header(MAGIC_FREE, next, u.addr, f.size)
  {
    var m3 := SetHeader(m, f.addr, false, next, u.addr, f.size);
    FrameKeeps(m3, SetHeader(m3, u.addr, true, f.addr, prev, u.size), u.addr, f.addr);
  }

  /** And the headers around them. */
  lemma WrittenAround(m: Memory, c: Chain, lo: int, hi: int, i: nat, next: int, prev: int, u: Block, f: Block)
    requires Tiled(c, lo, hi) && i < |c|
    requires u.addr == c[i].addr <= f.addr && f.addr + HEADER_SIZE <= c[i].End()
    ensures var r := SetHeader(SetHeader(m, f.addr, false, next, u.addr, f.size), u.addr, true, f.addr, prev, u.size);
            forall j :: (0 <= j < i || i + 1 <= j < |c|) ==> HeaderAt(r, c[j].addr) == HeaderAt(m, c[j].addr)
  {
    var m3 := SetHeader(m, f.addr, false, next, u.addr, f.size);
    InsideKeeps(m, m3, c, lo, hi, i, i + 1, f.addr);
    InsideKeeps(m3, SetHeader(m3, u.addr, true, f.addr, prev, u.size), c, lo, hi, i, i + 1, u.addr);
  }

  // ---------------------------------------------------------------- payloads

  /** The bytes handed to the caller for block `b` are the same in both memories. */
  ghost predicate PayloadSame(m: Memory, m': Memory, b: Block) {
    forall w :: b.addr + HEADER_SIZE <= w < b.End() ==> Load(m', w) == Load(m, w)
  }

  ghost predicate PayloadsKept(m: Memory, m': Memory, live: set<Block>) {
    forall b :: b in live ==> PayloadSame(m, m', b)
  }

  /** The header at `a` does not reach into the payload of `b`. */
  predicate Clear(a: int, b: Block) {
    a <= b.addr || b.End() <= a
  }

  lemma FramePayload(m: Memory, m': Memory, a: int, b: Block)
    requires Frame(m, m', a) && Clear(a, b)
    ensures PayloadSame(m, m', b)
  {
  }

  lemma RelinkPayload(m: Memory, next: int, prev: int, first: int, last: int, b: Block)
    requires (next != 0 ==> Clear(next, b)) && (prev != 0 ==> Clear(prev, b))
    ensures PayloadSame(m, Relink(m, next, prev, first, last), b)
  {
    var m1 := if next != 0 then SetPrev(m, next, last) else m;
    if next != 0 { FramePayload(m, m1, next, b); }
    if prev != 0 { FramePayload(m1, SetNext(m1, prev, first), prev, b); }
  }

  /** No header of a tiled chain lies in the payload of a live block. */
  lemma HeadersClear(c: Chain, lo: int, hi: int, q: nat, b: Block)
    requires Tiled(c, lo, hi) && q < |c| && b in UsedBlocks(c)
    ensures Clear(c[q].addr, b)
  {
    var j :| 0 <= j < |c| && c[j] == b;
    TiledOrderAll(c, lo, hi);
  }

  lemma RewriteOnePayloads(m: Memory, c: Chain, lo: int, hi: int, i: nat, k: nat, b: Block)
    requires Tiled(c, lo, hi) && i < k <= |c| && b.addr == c[i].addr
    ensures PayloadsKept(m, RewriteOne(m, NextOf(c, k), PrevOf(c, i), b), UsedBlocks(c))
  {
    var m2 := Relink(m, NextOf(c, k), PrevOf(c, i), b.addr, b.addr);
    var r := RewriteOne(m, NextOf(c, k), PrevOf(c, i), b);
    forall x | x in UsedBlocks(c) ensures PayloadSame(m, r, x) {
      NeighboursClear(c, lo, hi, i, k, x);
      RelinkPayload(m, NextOf(c, k), PrevOf(c, i), b.addr, b.addr, x);
      FramePayload(m2, r, b.addr, x);
    }
  }

  lemma NeighboursClear(c: Chain, lo: int, hi: int, i: nat, k: nat, x: Block)
    requires Tiled(c, lo, hi) && i < k <= |c| && x in UsedBlocks(c)
    ensures NextOf(c, k) != 0 ==> Clear(NextOf(c, k), x)
    ensures PrevOf(c, i) != 0 ==> Clear(PrevOf(c, i), x)
    ensures Clear(c[i].addr, x)
  {
    HeadersClear(c, lo, hi, i, x);
    if i > 0 { HeadersClear(c, lo, hi, i - 1, x); }
    if k < |c| { HeadersClear(c, lo, hi, k, x); }
  }

  lemma RewriteTwoPayloads(m: Memory, c: Chain, lo: int, hi: int, i: nat, u: Block, f: Block)
    requires Tiled(c, lo, hi) && i < |c| && !c[i].used
    requires u.addr == c[i].addr <= f.addr && f.addr + HEADER_SIZE <= c[i].End()
    ensures PayloadsKept(m, RewriteTwo(m, NextOf(c, i + 1), PrevOf(c, i), u, f), UsedBlocks(c))
  {
    var next, prev := NextOf(c, i + 1), PrevOf(c, i);
    var m2 := Relink(m, next, prev, u.addr, f.addr);
    var m3 := SetHeader(m2, f.addr, false, next, u.addr, f.size);
    var r := RewriteTwo(m, next, prev, u, f);
    forall x | x in UsedBlocks(c) ensures PayloadSame(m, r, x) {
      NeighboursClear(c, lo, hi, i, i + 1, x);
      RelinkPayload(m, next, prev, u.addr, f.addr, x);
      InsideClear(c, lo, hi, i, f.addr, x);
      FramePayload(m2, m3, f.addr, x);
      FramePayload(m3, r, u.addr, x);
    }
  }

  lemma InsideClear(c: Chain, lo: int, hi: int, i: nat, a: int, x: Block)
    requires Tiled(c, lo, hi) && i < |c| && !c[i].used && x in UsedBlocks(c)
    requires c[i].addr <= a && a + HEADER_SIZE <= c[i].End()
    ensures Clear(a, x)
  {
    var j :| 0 <= j < |c| && c[j] == x;
    TiledOrderAll(c, lo, hi);
  }

  /** The writes of `heap_merge_left` and `heap_merge_right`, when memory encodes the chain. */
  function MergeMemory(m: Memory, c: Chain, i: nat): Memory
    requires i + 1 < |c|
  {
    RewriteOne(m, NextOf(c, i + 2), PrevOf(c, i),
               Block(c[i].addr, c[i].size + c[i + 1].size + HEADER_SIZE, false))
  }

  /** They encode the merged chain. */
  lemma MergeRewrites(m: Memory, c: Chain, lo: int, hi: int, i: nat)
    requires 0 < lo && Tiled(c, lo, hi) && Encodes(m, c) && i + 1 < |c|
    ensures var r := MergeMemory(m, c, i);
            && Tiled(Merge(c, i), lo, hi)
            && Encodes(r, Merge(c, i))
            && PayloadsKept(m, r, UsedBlocks(c))
  {
    var b := Block(c[i].addr, c[i].size + c[i + 1].size + HEADER_SIZE, false);
    RewriteOneEncodes(m, c, lo, hi, i, i + 2, b);
    RewriteOnePayloads(m, c, lo, hi, i, i + 2, b);
    MergeTiled(c, lo, hi, i);
  }

  /** The header write that opens kfree: block `i` is marked FREE in place. */
  lemma MarkRewrites(m: Memory, c: Chain, lo: int, hi: int, i: nat)
    requires 0 < lo && Tiled(c, lo, hi) && Encodes(m, c) && i < |c|
    ensures var b := Block(c[i].addr, c[i].size, false);
            var r := SetHeader(m, b.addr, false, NextOf(c, i + 1), PrevOf(c, i), b.size);
            && Tiled(Splice(c, i, i + 1, [b]), lo, hi)
            && Encodes(r, Splice(c, i, i + 1, [b]))
            && PayloadsKept(m, r, UsedBlocks(c))
  {
    var b := Block(c[i].addr, c[i].size, false);
    var r := SetHeader(m, b.addr, false, NextOf(c, i + 1), PrevOf(c, i), b.size);
    TiledAt(c, lo, hi, i);
    SpliceTiled(c, lo, hi, i, i + 1, [b]);
    InsideKeeps(m, r, c, lo, hi, i, i + 1, b.addr);
    if i > 0 { assert Encoded(m, c, i - 1); }
    if i + 1 < |c| { assert Encoded(m, c, i + 1); }
    EncodesSplice(m, r, c, i, i + 1, [b]);
    forall x | x in UsedBlocks(c) ensures PayloadSame(m, r, x) {
      HeadersClear(c, lo, hi, i, x);
      FramePayload(m, r, b.addr, x);
    }
  }

  lemma MarkContents(c: Chain, lo: int, hi: int, i: nat)
    requires Tiled(c, lo, hi) && i < |c|
    ensures var c0 := Splice(c, i, i + 1, [Block(c[i].addr, c[i].size, false)]);
            && UsedBlocks(c0) == UsedBlocks(c) - {c[i]}
            && FreeAddrs(c0) == FreeAddrs(c) + {c[i].addr}
  {
    var b := Block(c[i].addr, c[i].size, false);
    SpliceContents(c, lo, hi, i, i + 1, [b]);
    LoneUsed(c[i..i + 1], 0);
    FreeOfRange(c[i..i + 1], 0);
    assert !c[i].used ==> c[i] !in UsedBlocks(c);
    assert FreeAddrs([b]) == {b.addr} && UsedBlocks([b]) == {};
  }

  /** The writes of `expand_heap`: a new last header, and the old last one pointed at it. */
  function ExtendMemory(m: Memory, last: int, newNode: int, size: int): (r: Memory) {
    SetNext(SetHeader(m, newNode, false, 0, last, size), last, newNode)
  }

  lemma ExtendHeaders(m: Memory, c: Chain, lo: int, hi: int, size: int)
    requires Tiled(c, lo, hi) && c != []
    ensures var n := |c| - 1;
            var r := ExtendMemory(m, c[n].addr, hi, size);
            && (forall j :: 0 <= j < n ==> HeaderAt(r, c[j].addr) == HeaderAt(m, c[j].addr))
            && HeaderAt(r, c[n].addr) == HeaderAt(m, c[n].addr).(next := hi)
            && HeaderAt(r, hi) == Header(MAGIC_FREE, 0, c[n].addr, size)
  {
    var n := |c| - 1;
    var m1 := SetHeader(m, hi, false, 0, c[n].addr, size);
    var r := ExtendMemory(m, c[n].addr, hi, size);
    TiledOrderAll(c, lo, hi);
    forall j | 0 <= j < n ensures HeaderAt(r, c[j].addr) == HeaderAt(m, c[j].addr) {
      FrameKeeps(m, m1, hi, c[j].addr);
      FrameKeeps(m1, r, c[n].addr, c[j].addr);
    }
    FrameKeeps(m, m1, hi, c[n].addr);
    FrameKeeps(m1, r, c[n].addr, hi);
  }

  lemma ExtendEncodes(m: Memory, c: Chain, lo: int, hi: int, size: int)
    requires 0 < lo && Tiled(c, lo, hi) && Encodes(m, c) && c != []
    ensures Encodes(ExtendMemory(m, c[|c| - 1].addr, hi, size), c + [Block(hi, size, false)])
  {
    var n := |c| - 1;
    var bs := [c[n], Block(hi, size, false)];
    var r := ExtendMemory(m, c[n].addr, hi, size);
    ExtendHeaders(m, c, lo, hi, size);
    assert Encoded(m, c, n);
    if n > 0 { assert Encoded(m, c, n - 1); }
    assert HeaderAt(r, bs[0].addr) == SplicedHeader(c, n, n + 1, bs, 0);
    assert HeaderAt(r, bs[1].addr) == SplicedHeader(c, n, n + 1, bs, 1);
    EncodesSplice(m, r, c, n, n + 1, bs);
    assert Splice(c, n, n + 1, bs) == c + [Block(hi, size, false)];
  }

  lemma ExtendPayloads(m: Memory, c: Chain, lo: int, hi: int, size: int)
    requires Tiled(c, lo, hi) && c != []
    ensures PayloadsKept(m, ExtendMemory(m, c[|c| - 1].addr, hi, size), UsedBlocks(c))
  {
    var n := |c| - 1;
    var m1 := SetHeader(m, hi, false, 0, c[n].addr, size);
    var r := ExtendMemory(m, c[n].addr, hi, size);
    forall x | x in UsedBlocks(c) ensures PayloadSame(m, r, x) {
      HeadersClear(c, lo, hi, n, x);
      var j :| 0 <= j < |c| && c[j] == x;
      TiledAt(c, lo, hi, j);
      FramePayload(m, m1, hi, x);
      FramePayload(m1, r, c[n].addr, x);
    }
  }

  /** The writes of `heap_split_node` when the whole block is handed out. */
  lemma TakeWholeRewrites(m: Memory, c: Chain, lo: int, hi: int, i: nat, n: nat)
    requires 0 < lo && Tiled(c, lo, hi) && Encodes(m, c) && i < |c| && Fits(c[i], n)
    requires c[i].size - n <= SPLIT_THRESHOLD
    ensures var r := RewriteOne(m, NextOf(c, i + 1), PrevOf(c, i), Block(c[i].addr, c[i].size, true));
            Encodes(r, Split(c, i, n)) && PayloadsKept(m, r, UsedBlocks(c))
  {
    var b := Block(c[i].addr, c[i].size, true);
    RewriteOneEncodes(m, c, lo, hi, i, i + 1, b);
    RewriteOnePayloads(m, c, lo, hi, i, i + 1, b);
  }

  /** The writes of `heap_split_node` when the rest becomes a FREE block. */
  lemma TakePartRewrites(m: Memory, c: Chain, lo: int, hi: int, i: nat, n: nat,
                         next: int, prev: int, u: Block, f: Block)
    requires 0 < lo && Tiled(c, lo, hi) && Encodes(m, c) && i < |c| && Fits(c[i], n)
    requires c[i].size - n > SPLIT_THRESHOLD
    requires next == NextOf(c, i + 1) && prev == PrevOf(c, i)
    requires u == Block(c[i].addr, n, true)
    requires f == Block(c[i].addr + HEADER_SIZE + n, c[i].size - n - HEADER_SIZE, false)
    ensures Encodes(RewriteTwo(m, next, prev, u, f), Split(c, i, n))
    ensures PayloadsKept(m, RewriteTwo(m, next, prev, u, f), UsedBlocks(c))
    ensures HeaderAt(RewriteTwo(m, next, prev, u, f), f.addr).next == next
  {
    assert SplitParts(c[i], n) == [u, f];
    RewriteTwoEncodes(m, c, lo, hi, i, u, f);
    RewriteTwoPayloads(m, c, lo, hi, i, u, f);
  }

  /** A store into a live payload leaves the encoded chain alone. */
  lemma PayloadStore(m: Memory, c: Chain, lo: int, hi: int, b: Block, w: int, v: int)
    requires Tiled(c, lo, hi) && Encodes(m, c) && b in UsedBlocks(c) && b.addr + HEADER_SIZE <= w < b.End()
    ensures Encodes(m[w := v], c)
  {
    var r := m[w := v];
    forall i | 0 <= i < |c| ensures Encoded(r, c, i) {
      assert Encoded(m, c, i);
      HeadersClear(c, lo, hi, i, b);
      var j :| 0 <= j < |c| && c[j] == b;
      if i < j { TiledOrder(c, lo, hi, i, j); TiledAt(c, lo, hi, i); }
    }
  }

  // ---------------------------------------------------------------- magic words

  /** The test of `check_header`. */
  predicate GoodMagic(mem: Memory, a: int) {
    Load(mem, a) == MAGIC_USED || Load(mem, a) == MAGIC_FREE
  }

  ghost predicate MagicsGood(m: Memory, c: Chain) {
    forall i :: 0 <= i < |c| ==> GoodMagic(m, c[i].addr)
  }

  ghost predicate HeaderIn(c: Chain, a: int) {
    exists i :: 0 <= i < |c| && c[i].addr == a
  }

  lemma EncodedMagics(m: Memory, c: Chain)
    requires Encodes(m, c)
    ensures MagicsGood(m, c)
  {
    forall i | 0 <= i < |c| ensures GoodMagic(m, c[i].addr) {
      assert Encoded(m, c, i);
    }
  }

  lemma HeadersApart(c: Chain, lo: int, hi: int, a: int, i: nat)
    requires Tiled(c, lo, hi) && HeaderIn(c, a) && i < |c|
    ensures c[i].addr == a || Apart(a, c[i].addr)
  {
    TiledOrderAll(c, lo, hi);
  }

  /** Absorbed or not, every header of the chain keeps a magic word through a merge. */
  lemma RewriteOneMagics(m: Memory, next: int, prev: int, b: Block, c: Chain, lo: int, hi: int)
    requires Tiled(c, lo, hi) && MagicsGood(m, c) && HeaderIn(c, b.addr)
    requires (next != 0 ==> HeaderIn(c, next)) && (prev != 0 ==> HeaderIn(c, prev))
    ensures MagicsGood(RewriteOne(m, next, prev, b), c)
  {
    forall i | 0 <= i < |c| ensures GoodMagic(RewriteOne(m, next, prev, b), c[i].addr) {
      HeadersApart(c, lo, hi, b.addr, i);
      if next != 0 { HeadersApart(c, lo, hi, next, i); }
      if prev != 0 { HeadersApart(c, lo, hi, prev, i); }
    }
  }

  /** The memory after both branches of `heap_merge_nodes`. */
  function MergesMemory(m: Memory, c: Chain, i: nat): Memory
    requires i < |c|
  {
    var right := i + 1 < |c| && !c[i + 1].used;
    var m1, c1 := if right then MergeMemory(m, c, i) else m, if right then Merge(c, i) else c;
    if i > 0 && !c[i - 1].used then MergeMemory(m1, c1, i - 1) else m1
  }

  lemma MergeKeepsMagics(m: Memory, c: Chain, i: nat, all: Chain, lo: int, hi: int)
    requires Tiled(all, lo, hi) && MagicsGood(m, all) && i + 1 < |c|
    requires forall k :: 0 <= k < |c| ==> HeaderIn(all, c[k].addr)
    ensures MagicsGood(MergeMemory(m, c, i), all)
  {
    RewriteOneMagics(m, NextOf(c, i + 2), PrevOf(c, i),
                     Block(c[i].addr, c[i].size + c[i + 1].size + HEADER_SIZE, false), all, lo, hi);
  }

  lemma MergedHeaders(c: Chain, i: nat)
    requires i + 1 < |c|
    ensures forall k :: 0 <= k < |Merge(c, i)| ==> HeaderIn(c, Merge(c, i)[k].addr)
  {
    forall k | 0 <= k < |Merge(c, i)| ensures HeaderIn(c, Merge(c, i)[k].addr) {
      assert Merge(c, i)[k].addr == c[if k > i then k + 1 else k].addr;
    }
  }

  lemma MergesKeepMagics(m: Memory, c: Chain, lo: int, hi: int, i: nat)
    requires Tiled(c, lo, hi) && Encodes(m, c) && i < |c|
    ensures MagicsGood(MergesMemory(m, c, i), c)
  {
    EncodedMagics(m, c);
    assert forall k :: 0 <= k < |c| ==> HeaderIn(c, c[k].addr);
    var left := i > 0 && !c[i - 1].used;
    if i + 1 < |c| && !c[i + 1].used {
      MergeKeepsMagics(m, c, i, c, lo, hi);
      MergedHeaders(c, i);
      if left { MergeKeepsMagics(MergeMemory(m, c, i), Merge(c, i), i - 1, c, lo, hi); }
    } else if left {
      MergeKeepsMagics(m, c, i - 1, c, lo, hi);
    }
  }

  // ---------------------------------------------------------------- the word read at kernel/kheap.c:278

  /** What memory holds there agrees with what the chain tells of it. */
  lemma StrayWord(m: Memory, c: Chain, lo: int, hi: int, i: nat, n: nat)
    requires 0 < lo && Tiled(c, lo, hi) && Encodes(m, c) && i + 1 < |c|
    ensures var w := Load(m, c[i].addr + HEADER_SIZE + n + 4);
            && (c[i].size == n ==> w == NextOf(c, i + 2) && (w == 0 <==> i + 2 == |c|))
            && (c[i].size == n + 4 ==> w != 0)
  {
    TiledAround(c, lo, hi, i);
    assert Encoded(m, c, i + 1);
    if i + 2 < |c| { TiledAt(c, lo, hi, i + 2); }
  }
}
