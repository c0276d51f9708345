/** kernel/mm.c: physical pages, in a bitmap, and the regions mapped through the page table. */
module MemoryManager {
  import opened Bitmap
  import opened Machine
  import opened Paging

  /** `ALIGN_DOWN` as the macro is written, in 32 bits: it rounds up. */
  function AlignDown(x: nat): nat {
    var y := (x + PAGE_SIZE - 1) % TWO32;
    y - y % PAGE_SIZE
  }

  function PageCount(physSize: nat): nat {
    AlignDown(physSize) / PAGE_SIZE
  }

  function TableSize(physSize: nat): nat {
    PageCount(physSize) / BYTE_BITS
  }

  predicate InMemory(page: nat, physSize: nat) {
    (page + 1) * PAGE_SIZE <= physSize
  }

  /** Every page the table can hand out lies wholly in memory exactly when the memory size is whole
      pages, the page count is no multiple of eight, or the rounding wraps to an empty table. */
  lemma HandedOutInMemory(physSize: nat)
    requires physSize < TWO32
    ensures (forall x: nat :: x < BYTE_BITS * TableSize(physSize) ==> InMemory(x, physSize))
       <==> physSize % PAGE_SIZE == 0 || PageCount(physSize) % BYTE_BITS != 0 || physSize > TWO32 - PAGE_SIZE
  {
    var slots, pages := BYTE_BITS * TableSize(physSize), PageCount(physSize);
    assert slots == pages - pages % BYTE_BITS;
    if physSize <= TWO32 - PAGE_SIZE {
      assert pages == (physSize + PAGE_SIZE - 1) / PAGE_SIZE;
      if slots > 0 {
        assert InMemory(slots - 1, physSize) <==> slots * PAGE_SIZE <= physSize;
      }
    }
  }

  /** Every whole page of memory is in the table exactly when the page count is a multiple of
      eight, or one over with a partial last page; a size that wraps leaves none in it. */
  lemma MemoryInTable(physSize: nat)
    requires physSize < TWO32
    ensures (forall x: nat :: InMemory(x, physSize) ==> x < BYTE_BITS * TableSize(physSize))
       <==> physSize <= TWO32 - PAGE_SIZE
            && (PageCount(physSize) % BYTE_BITS == 0
                || (PageCount(physSize) % BYTE_BITS == 1 && physSize % PAGE_SIZE != 0))
  {
    var slots, pages := BYTE_BITS * TableSize(physSize), PageCount(physSize);
    assert slots == pages - pages % BYTE_BITS;
    if slots < physSize / PAGE_SIZE {
      assert InMemory(slots, physSize);
    }
  }

  /** For one: 32767 bytes of memory, whose eighth page is handed out with a byte missing. */
  lemma PartialPageHandedOut()
    ensures 7 < BYTE_BITS * TableSize(32767) && !InMemory(7, 32767)
  {
  }

  /** And one page of memory, which the table does not cover. */
  lemma WholePageMissed()
    ensures InMemory(0, PAGE_SIZE) && BYTE_BITS * TableSize(PAGE_SIZE) == 0
  {
  }

  // ---------------------------------------------------------------- regions

  datatype MemFlags = MemFlags(readWrite: bool, writeThrough: bool, cacheDisable: bool,
                               alreadyExists: bool, identityRegion: bool)

  function MapFlags(flags: MemFlags): PageFlags {
    PageFlags(flags.readWrite, false, flags.writeThrough, flags.cacheDisable)
  }

  /** How many pages `mem_alloc_region` takes for a size, the rounding in 32 bits. */
  function RegionCount(size: nat): nat {
    AlignUp(size) % TWO32 / PAGE_SIZE
  }

  function RegionVirt(physAddr: nat, flags: MemFlags): nat {
    if flags.identityRegion then physAddr else (physAddr + KERN_VIRTUAL_ADDR) % TWO32
  }

  predicate InRegion(page: nat, first: nat, count: nat) {
    first <= page < first + count
  }

  /** The taken pages after a region is taken too: a mark past the table's `slots` is not in it. */
  ghost function RegionTaken(taken: set<nat>, physAddr: nat, count: nat, slots: nat): set<nat>
    requires physAddr < TWO32
  {
    if count == 0 then taken
    else
      var before, x := RegionTaken(taken, physAddr, count - 1, slots), AddrAt(physAddr, count - 1) / PAGE_SIZE;
      if x < slots then After(before, Mark(x)) else before
  }

  /** And the bits set in the memory behind the table. */
  ghost function RegionBehind(behind: set<nat>, physAddr: nat, count: nat, slots: nat): set<nat>
    requires physAddr < TWO32
  {
    if count == 0 then behind
    else
      var before, x := RegionBehind(behind, physAddr, count - 1, slots), AddrAt(physAddr, count - 1) / PAGE_SIZE;
      if x < slots then before else before + {x}
  }

  /** Whether some mark of a region falls outside the table. */
  ghost predicate RegionStrays(physAddr: nat, count: nat, slots: nat)
    requires physAddr < TWO32
  {
    count > 0 && (RegionStrays(physAddr, count - 1, slots) || AddrAt(physAddr, count - 1) / PAGE_SIZE >= slots)
  }

  /** The i-th entry of a region. */
  function RegionWrite(virt: nat, physAddr: nat, flags: PageFlags, i: nat): Write
    requires virt < TWO32 && physAddr < TWO32
  {
    Write(AddrAt(virt, i) / PAGE_SIZE, TblEntry(AddrAt(physAddr, i), flags))
  }

  /** The flat map's writes after those of a region, in order. */
  ghost function RegionLog(log: seq<Write>, virt: nat, physAddr: nat, flags: PageFlags, count: nat): (r: seq<Write>)
    requires virt < TWO32 && physAddr < TWO32
    ensures |r| == |log| + count && r[..|log|] == log
    ensures forall i: nat :: i < count ==> r[|log| + i] == RegionWrite(virt, physAddr, flags, i)
  {
    if count == 0 then log
    else RegionLog(log, virt, physAddr, flags, count - 1) + [RegionWrite(virt, physAddr, flags, count - 1)]
  }

  /** The bitmap, the memory behind it and the flat map. */
  datatype Books = Books(taken: set<nat>, behind: set<nat>, log: seq<Write>)

  /** They are `b` after `count` pages of a region, when they were `a`. */
  ghost predicate RegionDone(a: Books, b: Books, virt: nat, physAddr: nat, flags: PageFlags, count: nat, slots: nat)
    requires virt < TWO32 && physAddr < TWO32
  {
    && b.taken == RegionTaken(a.taken, physAddr, count, slots)
    && b.behind == RegionBehind(a.behind, physAddr, count, slots)
    && b.log == RegionLog(a.log, virt, physAddr, flags, count)
  }

  lemma RegionStep(a: Books, b: Books, c: Books, virt: nat, physAddr: nat, flags: PageFlags, i: nat, slots: nat)
    requires virt < TWO32 && physAddr < TWO32 && RegionDone(a, b, virt, physAddr, flags, i, slots)
    requires var x := AddrAt(physAddr, i) / PAGE_SIZE;
             && c.taken == (if x < slots then After(b.taken, Mark(x)) else b.taken)
             && c.behind == (if x < slots then b.behind else b.behind + {x})
             && c.log == b.log + [RegionWrite(virt, physAddr, flags, i)]
    ensures RegionDone(a, c, virt, physAddr, flags, i + 1, slots)
  {
  }

  /** The address of page `i` of a region, virtual or physical, as 32-bit steps reach it. */
  function AddrAt(addr: nat, i: nat): (v: nat)
    requires addr < TWO32
    ensures v < TWO32
  {
    if i == 0 then addr else Wrap(AddrAt(addr, i - 1) + PAGE_SIZE)
  }

  const VIRT_PAGES := 0x10_0000

  lemma PageStep(v: nat)
    requires v < TWO32
    ensures Wrap(v + PAGE_SIZE) / PAGE_SIZE == (v / PAGE_SIZE + 1) % VIRT_PAGES
  {
    if v + PAGE_SIZE < TWO32 {
      assert v / PAGE_SIZE + 1 < VIRT_PAGES;
    } else {
      assert v / PAGE_SIZE == VIRT_PAGES - 1;
    }
  }

  lemma NextPage(a: nat)
    ensures (a % VIRT_PAGES + 1) % VIRT_PAGES == (a + 1) % VIRT_PAGES
  {
  }

  lemma {:induction false} VirtPage(virt: nat, i: nat)
    requires virt < TWO32
    ensures AddrAt(virt, i) / PAGE_SIZE == (virt / PAGE_SIZE + i) % VIRT_PAGES
  {
    if i > 0 {
      VirtPage(virt, i - 1);
      PageStep(AddrAt(virt, i - 1));
      NextPage(virt / PAGE_SIZE + i - 1);
    }
  }

  /** How far `page` lies past the first page of a region, around the end of the address space. */
  function Offset(virt: nat, page: nat): (i: nat)
    ensures i < VIRT_PAGES
  {
    (page - virt / PAGE_SIZE) % VIRT_PAGES
  }

  lemma OffsetOf(virt: nat, page: nat, i: nat)
    requires virt < TWO32 && page < VIRT_PAGES && i < VIRT_PAGES
    ensures AddrAt(virt, i) / PAGE_SIZE == page <==> Offset(virt, page) == i
  {
    VirtPage(virt, i);
  }

  /** After a region is mapped, each of its pages translates to its own frame and every other page
      as before, also when the region runs past the top of the address space. */
  lemma RegionMapped(log: seq<Write>, virt: nat, physAddr: nat, flags: PageFlags, count: nat, page: nat)
    requires virt < TWO32 && physAddr < TWO32 && count <= VIRT_PAGES && page < VIRT_PAGES
    ensures var i := Offset(virt, page);
            Flat(RegionLog(log, virt, physAddr, flags, count), page)
            == if i < count then TblEntry(AddrAt(physAddr, i), flags) else Flat(log, page)
  {
    forall j: nat | j < count ensures AddrAt(virt, j) / PAGE_SIZE == page <==> Offset(virt, page) == j {
      OffsetOf(virt, page, j);
    }
    RegionMappedAt(log, virt, physAddr, flags, count, page, Offset(virt, page));
  }

  lemma {:induction false} RegionMappedAt(log: seq<Write>, virt: nat, physAddr: nat, flags: PageFlags, count: nat,
                                          page: nat, i: nat)
    requires virt < TWO32 && physAddr < TWO32
    requires forall j: nat :: j < count ==> (AddrAt(virt, j) / PAGE_SIZE == page <==> i == j)
    ensures Flat(RegionLog(log, virt, physAddr, flags, count), page)
            == if i < count then TblEntry(AddrAt(physAddr, i), flags) else Flat(log, page)
  {
    if count > 0 {
      RegionMappedAt(log, virt, physAddr, flags, count - 1, page, i);
      var before := RegionLog(log, virt, physAddr, flags, count - 1);
      FlatAppend(before, RegionWrite(virt, physAddr, flags, count - 1), page);
    }
  }

  /** How many pages a size comes to, and where a region is mapped: at its own address, or 3 GB up. */
  lemma RegionShape(physAddr: nat, size: nat, flags: MemFlags)
    requires physAddr < TWO32 && size < TWO32
    ensures RegionCount(size) == if size <= 0xFFFF_F000 then (size + 4095) / 4096 else 0
    ensures RegionVirt(physAddr, flags) ==
            if flags.identityRegion then physAddr
            else if physAddr < 0x4000_0000 then physAddr + 0xC000_0000 else physAddr - 0x4000_0000
  {
  }

  /** The frame of page `i` of a region, around the end of the address space. */
  function FrameAt(physAddr: nat, i: nat): nat {
    (physAddr / 4096 + i) % 0x10_0000 * 4096
  }

  /** What address `v` translates to after `count` pages at `virt` are mapped to those at `physAddr`, when
      it was `before`. */
  function RegionTranslation(before: Translation, virt: nat, physAddr: nat, flags: MemFlags, count: nat, v: nat)
    : Translation
  {
    var i := Offset(virt, v / PAGE_SIZE);
    if i < count then
      Mapped(FrameAt(physAddr, i) + v % 4096,
             PageFlags(flags.readWrite, false, flags.writeThrough, flags.cacheDisable))
    else before
  }

  lemma RegionSeen(log: seq<Write>, virt: nat, physAddr: nat, flags: MemFlags, count: nat, v: nat)
    requires virt < TWO32 && physAddr < TWO32 && count <= VIRT_PAGES && v < TWO32
    ensures Seen(Flat(RegionLog(log, virt, physAddr, MapFlags(flags), count), v / PAGE_SIZE), v) ==
            RegionTranslation(Seen(Flat(log, v / PAGE_SIZE), v), virt, physAddr, flags, count, v)
    ensures Offset(virt, v / PAGE_SIZE) < count ==>
              AccessBits(Flat(RegionLog(log, virt, physAddr, MapFlags(flags), count), v / PAGE_SIZE)) ==
              PageFlags(flags.readWrite, false, flags.writeThrough, flags.cacheDisable)
  {
    var page := v / PAGE_SIZE;
    var i := Offset(virt, page);
    var after := RegionLog(log, virt, physAddr, MapFlags(flags), count);
    RegionMapped(log, virt, physAddr, MapFlags(flags), count, page);
    if i < count {
      RegionFrame(physAddr, i);
      PageSeen(AddrAt(physAddr, i), FrameAt(physAddr, i), flags, v);
      assert Flat(after, page) == TblEntry(AddrAt(physAddr, i), MapFlags(flags));
    } else {
      assert Flat(after, page) == Flat(log, page);
    }
  }

  lemma PageSeen(a: nat, frame: nat, flags: MemFlags, v: nat)
    requires a - a % 4096 == frame
    ensures Seen(TblEntry(a, MapFlags(flags)), v) ==
            Mapped(frame + v % 4096, PageFlags(flags.readWrite, false, flags.writeThrough, flags.cacheDisable))
    ensures AccessBits(TblEntry(a, MapFlags(flags))) ==
            PageFlags(flags.readWrite, false, flags.writeThrough, flags.cacheDisable)
  {
    EntryRoundTrip(a, MapFlags(flags));
    SeenEntry(a, MapFlags(flags), v);
  }

  lemma RegionFrame(physAddr: nat, i: nat)
    requires physAddr < TWO32
    ensures AddrAt(physAddr, i) - AddrAt(physAddr, i) % 4096 == FrameAt(physAddr, i)
  {
    VirtPage(physAddr, i);
  }

  /** A page of the table is taken after a region exactly when it was before or lies in it. */
  lemma {:induction false} RegionTakenIs(taken: set<nat>, physAddr: nat, count: nat, slots: nat, x: nat)
    requires physAddr < TWO32 && count <= VIRT_PAGES && x < slots <= VIRT_PAGES
    ensures x in RegionTaken(taken, physAddr, count, slots) <==> x in taken || Offset(physAddr, x) < count
  {
    if count > 0 {
      RegionTakenIs(taken, physAddr, count - 1, slots, x);
      OffsetOf(physAddr, x, count - 1);
    }
  }

  /** A bit behind the table is set after a region exactly when it was before or its page lies in it. */
  lemma {:induction false} RegionBehindIs(behind: set<nat>, physAddr: nat, count: nat, slots: nat, x: nat)
    requires physAddr < TWO32 && count <= VIRT_PAGES && slots <= x < VIRT_PAGES
    ensures x in RegionBehind(behind, physAddr, count, slots) <==> x in behind || Offset(physAddr, x) < count
  {
    if count > 0 {
      RegionBehindIs(behind, physAddr, count - 1, slots, x);
      OffsetOf(physAddr, x, count - 1);
    }
  }

  /** The marks stay in the table exactly when the region ends within it. */
  lemma {:induction false} StraysExactly(physAddr: nat, count: nat, slots: nat)
    requires physAddr < TWO32 && count <= VIRT_PAGES && slots < VIRT_PAGES
    ensures RegionStrays(physAddr, count, slots) <==> count > 0 && physAddr / PAGE_SIZE + count > slots
  {
    if count > 0 {
      StraysExactly(physAddr, count - 1, slots);
      VirtPage(physAddr, count - 1);
    }
  }

  /** No page of a region is granted in any later run that has not released it. */
  lemma RegionKept(taken: set<nat>, physAddr: nat, count: nat, slots: nat, run: seq<Event>, x: nat, j: nat)
    requires physAddr < TWO32 && count <= VIRT_PAGES && x < slots <= VIRT_PAGES && Offset(physAddr, x) < count
    requires IsRun(RegionTaken(taken, physAddr, count, slots), slots, run)
    requires j < |run| && run[j] == Grant(x)
    ensures exists k :: 0 <= k < j && run[k] == Release(x)
  {
    RegionTakenIs(taken, physAddr, count, slots, x);
    GrantNeedsRelease(RegionTaken(taken, physAddr, count, slots), slots, run, x, j);
  }

  predicate ByteIn(a: nat, physAddr: nat, size: nat) {
    physAddr <= a < physAddr + size
  }

  /** The pages taken cover the region asked for exactly when its offset in the first page leaves
      the end within the rounded size. The address is not rounded, and a size that wraps is 0. */
  lemma RegionCovered(physAddr: nat, size: nat)
    requires physAddr < TWO32 && size < TWO32
    ensures (forall a: nat :: ByteIn(a, physAddr, size) ==>
                              InRegion(a / PAGE_SIZE, physAddr / PAGE_SIZE, RegionCount(size)))
       <==> size == 0 || physAddr % PAGE_SIZE + size <= AlignUp(size) % TWO32
  {
    if size > 0 {
      var last := physAddr + size - 1;
      assert ByteIn(last, physAddr, size);
      assert InRegion(last / PAGE_SIZE, physAddr / PAGE_SIZE, RegionCount(size))
        <==> last < (physAddr / PAGE_SIZE + RegionCount(size)) * PAGE_SIZE;
    }
  }

  /** For one: a page's worth of bytes from address 1, whose last byte is in a page not taken. */
  lemma RegionNotCovered()
    ensures ByteIn(4096, 1, 4096) && !InRegion(4096 / PAGE_SIZE, 1 / PAGE_SIZE, RegionCount(4096))
  {
  }

  class MemoryManager {
    const tbl: ByteIndexList
    const paging: KernelPaging

    ghost predicate Valid()
      reads this, tbl, tbl.bytes, paging
    {
      tbl.Valid() && paging.Valid() && tbl.Slots() * PAGE_SIZE < TWO32
    }

    /** `init_mem_manager` and then `init_kern_paging`, as the boot processor calls them: the page tables
        come after the bitmap in the early heap. */
    constructor (physSize: nat, memory: Frames, heapPtr: nat, behind: set<nat>)
      requires physSize < TWO32 && KERN_VIRTUAL_ADDR < heapPtr
      requires forall x :: x in behind ==> x >= BYTE_BITS * TableSize(physSize)
      requires AlignUp(heapPtr + TableSize(physSize)) + PAGE_SIZE * (PAGES_PER_TABLE + 1) <= TWO32
      ensures Valid() && fresh(tbl) && fresh(tbl.bytes) && fresh(paging)
      ensures tbl.bytes.Length == TableSize(physSize) && tbl.Taken() == {}
      ensures forall a: nat :: Owned(paging.kernelDir, paging.tables, a) ==>
                a + 0xC000_0000 >= heapPtr + TableSize(physSize)
      ensures forall v: nat :: v < TWO32 ==> Translate(paging.frames, paging.kernelDir, v) == BootTranslation(v)
    {
      tbl := new ByteIndexList(TableSize(physSize), behind);
      paging := new KernelPaging(memory, heapPtr + TableSize(physSize));
    }

    /** `mem_get_free_page_phys`: the lowest free page, or the kernel halts because none is free. With
        a table of no bytes the byte behind it decides. */
    method GetFreePagePhys() returns (physAddr: nat, halted: bool)
      requires Valid()
      modifies tbl, tbl.bytes
      ensures physAddr % PAGE_SIZE == 0
      ensures tbl.Slots() > 0 ==> (halted <==> forall x: nat :: x < tbl.Slots() ==> x in old(tbl.Taken()))
      ensures tbl.Slots() > 0 && !halted ==>
                && Valid() && Allowed(old(tbl.Taken()), tbl.Slots(), Grant(physAddr / PAGE_SIZE))
                && tbl.Taken() == old(tbl.Taken()) + {physAddr / PAGE_SIZE}
      ensures tbl.Slots() == 0 ==> Valid() && (halted <==> FULL_BYTE <= old(tbl.behind))
      ensures tbl.Slots() == 0 && !halted ==>
                physAddr / PAGE_SIZE !in old(tbl.behind) && tbl.behind == old(tbl.behind) + {physAddr / PAGE_SIZE}
    {
      var index;
      index, halted := tbl.GetFreeSlot();
      physAddr := index * PAGE_SIZE;
    }

    /** `mem_release_page_phys`. */
    method ReleasePagePhys(physAddr: nat)
      requires Valid()
      modifies tbl, tbl.bytes
      ensures Valid() && tbl.Taken() == old(tbl.Taken()) - {physAddr / PAGE_SIZE}
      ensures tbl.behind == old(tbl.behind) - {physAddr / PAGE_SIZE}
    {
      tbl.ReleaseSlot(physAddr / PAGE_SIZE);
    }

    /** `mem_alloc_region`: 0 for NULL. It looks at the bit of the first page only, wherever that is;
        then all pages of the region are mapped with the rights asked for, and marked. Every other
        address translates as before. `stray` tells whether a mark went behind the table. */
    method MemAllocRegion(physAddr: nat, size: nat, flags: MemFlags) returns (retAddr: nat, stray: bool)
      requires Valid() && physAddr < TWO32 && size < TWO32
      modifies tbl, tbl.bytes, paging
      ensures Valid()
      ensures if !flags.alreadyExists && physAddr / 4096 in old(tbl.Taken() + tbl.behind) then
                && retAddr == 0 && !stray && unchanged(paging)
                && tbl.Taken() == old(tbl.Taken()) && tbl.behind == old(tbl.behind)
              else
                var n := if size <= 0xFFFF_F000 then (size + 4095) / 4096 else 0;
                && retAddr == (if flags.identityRegion then physAddr else (physAddr + 0xC000_0000) % 0x1_0000_0000)
                && (stray <==> n > 0 && physAddr / 4096 + n > tbl.Slots())
                && tbl.Taken() == RegionTaken(old(tbl.Taken()), physAddr, n, tbl.Slots())
                && tbl.behind == RegionBehind(old(tbl.behind), physAddr, n, tbl.Slots())
                && forall v: nat :: v < TWO32 ==>
                     && Translate(paging.frames, paging.kernelDir, v) ==
                        RegionTranslation(old(Translate(paging.frames, paging.kernelDir, v)),
                                          retAddr, physAddr, flags, n, v)
                     && (Offset(retAddr, v / 4096) < n ==>
                           AccessBits(Flat(paging.log, v / 4096)) ==
                           PageFlags(flags.readWrite, false, flags.writeThrough, flags.cacheDisable))
    {
      var taken := tbl.Check(physAddr / PAGE_SIZE);
      if !flags.alreadyExists && taken {
        return 0, false;
      }
      RegionShape(physAddr, size, flags);
      var count := RegionCount(size);
      retAddr := RegionVirt(physAddr, flags);
      StraysExactly(physAddr, count, tbl.Slots());
      ghost var l, f, d := paging.log, paging.frames, paging.kernelDir;
      forall v: nat | v < TWO32 ensures Translate(f, d, v) == Seen(Flat(l, v / PAGE_SIZE), v) {
        paging.ProcessorSees(v);
      }
      stray := MapRegion(retAddr, physAddr, count, MapFlags(flags));
      forall v: nat | v < TWO32
        ensures Translate(paging.frames, paging.kernelDir, v) ==
                RegionTranslation(Translate(f, d, v), retAddr, physAddr, flags, count, v)
        ensures Offset(retAddr, v / 4096) < count ==>
                  AccessBits(Flat(paging.log, v / 4096)) ==
                  PageFlags(flags.readWrite, false, flags.writeThrough, flags.cacheDisable)
      {
        paging.ProcessorSees(v);
        RegionSeen(l, retAddr, physAddr, flags, count, v);
      }
    }

    /** One page of a region: map it and mark it. */
    method MapPage(virtAddr: nat, addr: nat, mapFlags: PageFlags) returns (stray: bool)
      requires Valid() && virtAddr < TWO32
      modifies tbl, tbl.bytes, paging
      ensures Valid() && (stray <==> addr / PAGE_SIZE >= tbl.Slots())
      ensures tbl.Taken() == if stray then old(tbl.Taken()) else After(old(tbl.Taken()), Mark(addr / PAGE_SIZE))
      ensures tbl.behind == if stray then old(tbl.behind) + {addr / PAGE_SIZE} else old(tbl.behind)
      ensures paging.log == old(paging.log) + [Write(virtAddr / PAGE_SIZE, TblEntry(addr, mapFlags))]
    {
      paging.MapKernPageFlags(virtAddr, addr, mapFlags);
      tbl.Set(addr / PAGE_SIZE);
      stray := addr / PAGE_SIZE >= tbl.Slots();
    }

    ghost function Now(): Books
      reads tbl, tbl.bytes, paging
    {
      Books(tbl.Taken(), tbl.behind, paging.log)
    }

    /** Its place in the region. */
    method MapNext(virtAddr: nat, addr: nat, mapFlags: PageFlags, ghost a: Books, ghost virt: nat, ghost phys: nat,
                   ghost i: nat) returns (stray: bool)
      requires Valid() && virt < TWO32 && phys < TWO32 && virtAddr == AddrAt(virt, i) && addr == AddrAt(phys, i)
      requires RegionDone(a, Now(), virt, phys, mapFlags, i, tbl.Slots())
      modifies tbl, tbl.bytes, paging
      ensures Valid() && RegionDone(a, Now(), virt, phys, mapFlags, i + 1, tbl.Slots())
      ensures stray <==> addr / PAGE_SIZE >= tbl.Slots()
    {
      ghost var b := Now();
      stray := MapPage(virtAddr, addr, mapFlags);
      RegionStep(a, b, Now(), virt, phys, mapFlags, i, tbl.Slots());
    }

    /** The loop of `mem_alloc_region`. */
    method MapRegion(virt: nat, physAddr: nat, numPages: nat, mapFlags: PageFlags) returns (stray: bool)
      requires Valid() && virt < TWO32 && physAddr < TWO32
      modifies tbl, tbl.bytes, paging
      ensures Valid() && (stray <==> RegionStrays(physAddr, numPages, tbl.Slots()))
      ensures RegionDone(old(Now()), Now(), virt, physAddr, mapFlags, numPages, tbl.Slots())
    {
      var virtAddr, addr := virt, physAddr;
      stray := false;
      for i := 0 to numPages
        invariant Valid() && virtAddr == AddrAt(virt, i) && addr == AddrAt(physAddr, i)
        invariant stray <==> RegionStrays(physAddr, i, tbl.Slots())
        invariant RegionDone(old(Now()), Now(), virt, physAddr, mapFlags, i, tbl.Slots())
      {
        var out := MapNext(virtAddr, addr, mapFlags, old(Now()), virt, physAddr, i);
        stray := stray || out;
        virtAddr := Wrap(virtAddr + PAGE_SIZE);
        addr := Wrap(addr + PAGE_SIZE);
      }
    }
  }
}
