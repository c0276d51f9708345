/** kernel/paging.c: the two-level page table, in physical frames taken from the early heap. */
module Paging {
  import opened Counting
  import opened Machine

  const PAGE_SIZE := 4096
  const PAGES_PER_TABLE := 1024
  const KERN_VIRTUAL_ADDR := 0xC000_0000

  /** The words of one physical frame. */
  type Frame = f: seq<nat> | |f| == PAGES_PER_TABLE witness seq(PAGES_PER_TABLE, _ => 0)

  function ZeroFrame(): Frame {
    seq(PAGES_PER_TABLE, _ => 0)
  }

  function AlignUp(x: nat): (r: nat)
    ensures x <= r < x + PAGE_SIZE && r % PAGE_SIZE == 0
  {
    if x % PAGE_SIZE == 0 then x else x + (PAGE_SIZE - x % PAGE_SIZE)
  }

  datatype PageFlags = PageFlags(readWrite: bool, allAccess: bool, writeThrough: bool, cacheDisable: bool)

  const KERN_FLAGS := PageFlags(true, false, false, false)

  function Bit(b: bool): nat {
    if b then 1 else 0
  }

  function LowBits(f: PageFlags): nat {
    1 + 2 * Bit(f.readWrite) + 4 * Bit(f.allAccess) + 8 * Bit(f.writeThrough) + 16 * Bit(f.cacheDisable)
  }

  /** `set_page_tbl_entry`: the fields do not overlap, so `|` is written as a sum. */
  function TblEntry(physAddr: nat, f: PageFlags): nat {
    physAddr - physAddr % 0x400 + LowBits(f)
  }

  /** `set_page_dir_entry` as the kernel calls it: writable, supervisor. */
  function DirEntry(physAddr: nat): nat {
    AlignUp(physAddr) - AlignUp(physAddr) % 0x400 + 1 + 2
  }

  /** `GET_TBL_PHYS_ADDR`. */
  function TblPhysAddr(entry: nat): nat {
    entry - entry % 0x400
  }

  /** What the processor reads in an entry (section 4.3 of the Intel 64 and IA-32 Software
      Developer's Manual, Volume 3A): present in bit 0, the access bits, the frame from bit 12. */
  function PageFrame(entry: nat): nat {
    entry - entry % PAGE_SIZE
  }

  function PagePresent(entry: nat): bool {
    entry % 2 == 1
  }

  function AccessBits(entry: nat): PageFlags {
    var low := entry % 0x20;
    PageFlags(low / 2 % 2 == 1, low / 4 % 2 == 1, low / 8 % 2 == 1, low / 16 % 2 == 1)
  }

  /** An entry keeps the frame and the access bits it was made from, also for an address inside a
      frame. Masking with ~0x3FF gives the address itself back exactly when it is 1 KB aligned. */
  lemma EntryRoundTrip(physAddr: nat, f: PageFlags)
    ensures var e := TblEntry(physAddr, f);
            && PagePresent(e) && PageFrame(e) == physAddr - physAddr % PAGE_SIZE && AccessBits(e) == f
            && (TblPhysAddr(e) == physAddr <==> physAddr % 0x400 == 0)
  {
    var q, r, low := physAddr / 0x400, physAddr % 0x400, LowBits(f);
    LowBitsRoundTrip(f);
    AddressBits(q, low);
    AddressBits(q, r);
    FrameOf(q, r, low);
  }

  lemma FrameOf(q: nat, r: nat, low: nat)
    requires r < 0x400 && low < 0x20
    requires (0x400 * q + low) % PAGE_SIZE == 0x400 * (q % 4) + low
    requires (0x400 * q + r) % PAGE_SIZE == 0x400 * (q % 4) + r
    ensures PageFrame(0x400 * q + low) == 0x400 * q + r - (0x400 * q + r) % PAGE_SIZE
  {
  }

  lemma LowBitsRoundTrip(f: PageFlags)
    ensures LowBits(f) < 0x20 && LowBits(f) % 2 == 1 && AccessBits(LowBits(f)) == f
  {
    var low, b, c, d := LowBits(f), Bit(f.allAccess), Bit(f.writeThrough), Bit(f.cacheDisable);
    assert low / 2 == Bit(f.readWrite) + 2 * b + 4 * c + 8 * d;
    assert low / 4 == b + 2 * c + 4 * d;
    assert low / 8 == c + 2 * d;
    assert low / 16 == d;
  }

  lemma AddressBits(q: nat, low: nat)
    requires low < 0x400
    ensures (0x400 * q + low) % 0x400 == low && (0x400 * q + low) % 0x20 == low % 0x20
    ensures (0x400 * q + low) % PAGE_SIZE == 0x400 * (q % 4) + low
  {
    LowFive(q, low);
    PageOffset(q, low);
  }

  lemma LowFive(q: nat, low: nat)
    ensures (0x400 * q + low) % 0x20 == low % 0x20
  {
    var k, m := 0x20 * q + low / 0x20, low % 0x20;
    assert 0x400 * q + low == 0x20 * k + m;
    Remainder(k, m);
  }

  lemma Remainder(k: nat, m: nat)
    requires m < 0x20
    ensures (0x20 * k + m) % 0x20 == m
  {
  }

  lemma PageOffset(q: nat, low: nat)
    requires low < 0x400
    ensures (0x400 * q + low) % PAGE_SIZE == 0x400 * (q % 4) + low
  {
    var k, r := q / 4, q % 4;
    assert 0x400 * q + low == PAGE_SIZE * k + (0x400 * r + low);
  }

  /** Bit 7 of a directory entry: it maps 4 MB itself, with no table. */
  function LargePage(entry: nat): bool {
    entry / 0x80 % 2 == 1
  }

  /** A directory entry leads to its table, for the code's mask and for the processor, and is present,
      writable and closed to user code. */
  lemma DirRoundTrip(tbl: nat)
    requires tbl % PAGE_SIZE == 0
    ensures TblPhysAddr(DirEntry(tbl)) == tbl && DirEntry(tbl) != 0
    ensures PagePresent(DirEntry(tbl)) && !LargePage(DirEntry(tbl)) && PageFrame(DirEntry(tbl)) == tbl
    ensures AccessBits(DirEntry(tbl)) == PageFlags(true, false, false, false)
  {
    DirIsTbl(tbl);
    EntryRoundTrip(tbl, PageFlags(true, false, false, false));
    TableBits(tbl / PAGE_SIZE);
  }

  lemma DirIsTbl(tbl: nat)
    requires tbl % PAGE_SIZE == 0
    ensures DirEntry(tbl) == tbl + 3 && TblEntry(tbl, PageFlags(true, false, false, false)) == tbl + 3
  {
    AddressBits(4 * (tbl / PAGE_SIZE), 0);
  }

  lemma TableBits(n: nat)
    ensures !LargePage(n * PAGE_SIZE + 3)
  {
    assert (n * PAGE_SIZE + 3) / 0x80 == 0x20 * n;
  }

  // ---------------------------------------------------------------- the flat map

  datatype Write = Write(page: nat, entry: nat)

  /** A flat page map: the last write to a page wins, 0 for a page never written. */
  function Flat(log: seq<Write>, page: nat): nat {
    if log == [] then 0
    else if log[|log| - 1].page == page then log[|log| - 1].entry
    else Flat(log[..|log| - 1], page)
  }

  lemma FlatAppend(log: seq<Write>, w: Write, page: nat)
    ensures Flat(log + [w], page) == if w.page == page then w.entry else Flat(log, page)
  {
    assert (log + [w])[..|log|] == log;
  }

  // ---------------------------------------------------------------- the tables

  type Frames = map<nat, Frame>

  /** The walk that `map_kern_page` and `get_tbl_entry` make. */
  function Walk(frames: Frames, dir: nat, page: nat): nat
    requires dir in frames && page / PAGES_PER_TABLE < PAGES_PER_TABLE
    requires var e := frames[dir][page / PAGES_PER_TABLE]; e != 0 ==> TblPhysAddr(e) in frames
  {
    var e := frames[dir][page / PAGES_PER_TABLE];
    if e == 0 then 0 else frames[TblPhysAddr(e)][page % PAGES_PER_TABLE]
  }

  type Tables = map<nat, nat>

  /** Directory slot `i` is empty, or names its table's frame. */
  ghost predicate SlotOk(frames: Frames, dir: nat, tables: Tables, i: nat)
    requires dir in frames
  {
    i < PAGES_PER_TABLE ==> frames[dir][i] == if i in tables then DirEntry(tables[i]) else 0
  }

  /** Every table is in a frame of its own, below `top` and not the directory's. */
  ghost predicate Disjoint(frames: Frames, dir: nat, tables: Tables, top: nat) {
    && (forall i :: i in tables ==> TableOk(frames, dir, tables, top, i))
    && (forall i, j :: i in tables && j in tables && tables[i] == tables[j] ==> i == j)
  }

  ghost predicate TableOk(frames: Frames, dir: nat, tables: Tables, top: nat, i: nat)
    requires i in tables
  {
    i < PAGES_PER_TABLE && tables[i] in frames && tables[i] % PAGE_SIZE == 0 && 0 < tables[i] < top && tables[i] != dir
  }

  ghost predicate TablesOk(frames: Frames, dir: nat, tables: Tables, top: nat) {
    && dir in frames && dir < top
    && Disjoint(frames, dir, tables, top)
    && forall i: nat {:trigger SlotOk(frames, dir, tables, i)} :: SlotOk(frames, dir, tables, i)
  }

  lemma WalkDefined(frames: Frames, dir: nat, tables: Tables, top: nat, page: nat)
    requires TablesOk(frames, dir, tables, top) && page / PAGES_PER_TABLE < PAGES_PER_TABLE
    ensures var i := page / PAGES_PER_TABLE;
            && (frames[dir][i] == 0 <==> i !in tables)
            && (frames[dir][i] != 0 ==> TblPhysAddr(frames[dir][i]) == tables[i] && tables[i] in frames)
            && Walk(frames, dir, page) == if i in tables then frames[tables[i]][page % PAGES_PER_TABLE] else 0
  {
    var i := page / PAGES_PER_TABLE;
    assert SlotOk(frames, dir, tables, i);
    if i in tables {
      assert TableOk(frames, dir, tables, top, i);
      DirRoundTrip(tables[i]);
    }
  }

  /** What the walk finds, said through the table of tables. */
  ghost function View(frames: Frames, tables: Tables, page: nat): nat {
    var i := page / PAGES_PER_TABLE;
    if i in tables && tables[i] in frames then frames[tables[i]][page % PAGES_PER_TABLE] else 0
  }

  /** The stores that give directory slot `i` a cleared table at `tbl`. */
  function WithTable(frames: Frames, dir: nat, i: nat, tbl: nat): Frames
    requires dir in frames && i < PAGES_PER_TABLE
  {
    var cleared := frames[tbl := ZeroFrame()];
    cleared[dir := cleared[dir][i := DirEntry(tbl)]]
  }

  lemma WithTableOk(frames: Frames, dir: nat, tables: Tables, top: nat, i: nat, tbl: nat)
    requires TablesOk(frames, dir, tables, top) && i < PAGES_PER_TABLE && i !in tables
    requires tbl % PAGE_SIZE == 0 && 0 < tbl && top <= tbl
    ensures TablesOk(WithTable(frames, dir, i, tbl), dir, tables[i := tbl], tbl + PAGE_SIZE)
  {
    var after, tables' := WithTable(frames, dir, i, tbl), tables[i := tbl];
    forall j | j in tables' ensures TableOk(after, dir, tables', tbl + PAGE_SIZE, j) {
      if j != i { assert TableOk(frames, dir, tables, top, j); }
    }
    forall j, k | j in tables' && k in tables' && tables'[j] == tables'[k] ensures j == k {
      if j != i { assert TableOk(frames, dir, tables, top, j); }
      if k != i { assert TableOk(frames, dir, tables, top, k); }
    }
    forall j: nat ensures SlotOk(after, dir, tables', j) {
      assert SlotOk(frames, dir, tables, j);
    }
  }

  lemma WithTableView(frames: Frames, dir: nat, tables: Tables, top: nat, i: nat, tbl: nat, page: nat)
    requires TablesOk(frames, dir, tables, top) && i < PAGES_PER_TABLE && i !in tables && top <= tbl
    ensures View(WithTable(frames, dir, i, tbl), tables[i := tbl], page) == View(frames, tables, page)
  {
    var j := page / PAGES_PER_TABLE;
    if j in tables { assert TableOk(frames, dir, tables, top, j); }
  }

  /** The store of one table entry. */
  function WithEntry(frames: Frames, tbl: nat, k: nat, entry: nat): Frames
    requires tbl in frames && k < PAGES_PER_TABLE
  {
    frames[tbl := frames[tbl][k := entry]]
  }

  lemma WithEntryOk(frames: Frames, dir: nat, tables: Tables, top: nat, i: nat, k: nat, entry: nat)
    requires TablesOk(frames, dir, tables, top) && i in tables && k < PAGES_PER_TABLE
    ensures tables[i] in frames && tables[i] != dir
    ensures TablesOk(WithEntry(frames, tables[i], k, entry), dir, tables, top)
  {
    assert TableOk(frames, dir, tables, top, i);
    var after := WithEntry(frames, tables[i], k, entry);
    forall j | j in tables ensures TableOk(after, dir, tables, top, j) {
      assert TableOk(frames, dir, tables, top, j);
    }
    forall j: nat ensures SlotOk(after, dir, tables, j) {
      assert SlotOk(frames, dir, tables, j);
    }
  }

  lemma WithEntryView(frames: Frames, dir: nat, tables: Tables, top: nat, i: nat, k: nat, entry: nat, page: nat)
    requires TablesOk(frames, dir, tables, top) && i in tables && k < PAGES_PER_TABLE
    ensures tables[i] in frames
    ensures View(WithEntry(frames, tables[i], k, entry), tables, page)
         == if page == i * PAGES_PER_TABLE + k then entry else View(frames, tables, page)
  {
    assert TableOk(frames, dir, tables, top, i);
    var j := page / PAGES_PER_TABLE;
    if j in tables { assert TableOk(frames, dir, tables, top, j); }
    assert page == i * PAGES_PER_TABLE + k <==> j == i && page % PAGES_PER_TABLE == k;
  }

  /** The directory slots that still have no table. */
  ghost function Unused(tables: Tables): set<nat> {
    set i: nat | i < PAGES_PER_TABLE && i !in tables
  }

  lemma UnusedAfter(tables: Tables, i: nat, tbl: nat)
    requires i in Unused(tables)
    ensures |Unused(tables[i := tbl])| == |Unused(tables)| - 1
  {
    assert Unused(tables[i := tbl]) == Unused(tables) - {i};
  }

  lemma AllUnused()
    ensures |Unused(map[])| == PAGES_PER_TABLE
  {
    FullByCount(Unused(map[]), PAGES_PER_TABLE);
  }

  /** `page_dir[pdindex]` and the tables agree with the flat map. */
  ghost predicate Agrees(frames: Frames, tables: Tables, log: seq<Write>) {
    forall page: nat :: View(frames, tables, page) == Flat(log, page)
  }

  lemma WithTableAgrees(frames: Frames, dir: nat, tables: Tables, top: nat, i: nat, tbl: nat, log: seq<Write>)
    requires TablesOk(frames, dir, tables, top) && i < PAGES_PER_TABLE && i !in tables && top <= tbl
    requires Agrees(frames, tables, log)
    ensures Agrees(WithTable(frames, dir, i, tbl), tables[i := tbl], log)
  {
    var after, tables' := WithTable(frames, dir, i, tbl), tables[i := tbl];
    forall page: nat ensures View(after, tables', page) == Flat(log, page) {
      WithTableView(frames, dir, tables, top, i, tbl, page);
      assert View(frames, tables, page) == Flat(log, page);
    }
  }

  lemma WithEntryAgrees(frames: Frames, dir: nat, tables: Tables, top: nat, i: nat, k: nat, entry: nat,
                        log: seq<Write>)
    requires TablesOk(frames, dir, tables, top) && i in tables && tables[i] in frames && k < PAGES_PER_TABLE
    requires Agrees(frames, tables, log)
    ensures Agrees(WithEntry(frames, tables[i], k, entry), tables, log + [Write(i * PAGES_PER_TABLE + k, entry)])
  {
    var after, w := WithEntry(frames, tables[i], k, entry), Write(i * PAGES_PER_TABLE + k, entry);
    forall page: nat ensures View(after, tables, page) == Flat(log + [w], page) {
      WithEntryView(frames, dir, tables, top, i, k, entry, page);
      FlatAppend(log, w, page);
      assert View(frames, tables, page) == Flat(log, page);
    }
  }

  /** From `before` to `after` the tables only grew, and no frame changed that is not the
      directory's or a table's. */
  ghost predicate OnlyOwned(before: Frames, after: Frames, dir: nat, tables: Tables, tables': Tables) {
    && (forall i :: i in tables ==> i in tables' && tables'[i] == tables[i])
    && (forall a :: a in before && !Owned(dir, tables', a) ==> a in after && after[a] == before[a])
  }

  ghost predicate AllAbove(tables: Tables, start: nat) {
    forall i :: i in tables ==> tables[i] + KERN_VIRTUAL_ADDR >= start
  }

  ghost predicate Owned(dir: nat, tables: Tables, a: nat) {
    a == dir || exists i :: i in tables && tables[i] == a
  }

  lemma OnlyOwnedTrans(f0: Frames, f1: Frames, f2: Frames, dir: nat, t0: Tables, t1: Tables, t2: Tables)
    requires OnlyOwned(f0, f1, dir, t0, t1) && OnlyOwned(f1, f2, dir, t1, t2)
    ensures OnlyOwned(f0, f2, dir, t0, t2)
  {
    forall a | a in f0 && !Owned(dir, t2, a) ensures a in f2 && f2[a] == f0[a] {
      if i :| i in t1 && t1[i] == a { assert t2[i] == a; }
      assert !Owned(dir, t1, a);
    }
  }

  // ---------------------------------------------------------------- what the processor makes of it

  datatype Translation = Fault | Mapped(addr: nat, flags: PageFlags)

  /** The processor's own walk: both entries must be present, and a right holds only if both give it. */
  ghost function Translate(frames: Frames, dir: nat, v: nat): Translation
    requires v < TWO32
  {
    if dir !in frames then Fault
    else
      var d := frames[dir][v / 0x40_0000];
      if !PagePresent(d) then Fault
      else if LargePage(d) then Mapped(d - d % 0x40_0000 + v % 0x40_0000, AccessBits(d))
      else if PageFrame(d) !in frames then Fault
      else
        var e := frames[PageFrame(d)][v / PAGE_SIZE % PAGES_PER_TABLE];
        var up, down := AccessBits(d), AccessBits(e);
        if !PagePresent(e) then Fault
        else Mapped(PageFrame(e) + v % PAGE_SIZE,
                    down.(readWrite := up.readWrite && down.readWrite, allAccess := up.allAccess && down.allAccess))
  }

  /** What a page with entry `e` in the flat map comes to: no page is ever open to user code. */
  function Seen(e: nat, v: nat): Translation {
    if PagePresent(e) then Mapped(PageFrame(e) + v % PAGE_SIZE, AccessBits(e).(allAccess := false)) else Fault
  }

  lemma SeenEntry(physAddr: nat, f: PageFlags, v: nat)
    ensures Seen(TblEntry(physAddr, f), v) ==
            Mapped(physAddr - physAddr % PAGE_SIZE + v % PAGE_SIZE, f.(allAccess := false))
  {
    EntryRoundTrip(physAddr, f);
  }

  lemma SeenFrame(a: nat, f: PageFlags, v: nat)
    requires a % PAGE_SIZE == 0
    ensures Seen(TblEntry(a, f), v) == Mapped(a + v % PAGE_SIZE, f.(allAccess := false))
  {
    SeenEntry(a, f, v);
  }

  lemma WholeFrame(n: nat)
    ensures n * PAGE_SIZE % PAGE_SIZE == 0
  {
  }

  lemma TranslateIsView(frames: Frames, dir: nat, tables: Tables, top: nat, v: nat)
    requires TablesOk(frames, dir, tables, top) && v < TWO32
    ensures Translate(frames, dir, v) == Seen(View(frames, tables, v / PAGE_SIZE), v)
  {
    var i := v / 0x40_0000;
    assert i == v / PAGE_SIZE / PAGES_PER_TABLE;
    assert SlotOk(frames, dir, tables, i);
    if i in tables {
      assert TableOk(frames, dir, tables, top, i);
      DirRoundTrip(tables[i]);
    }
  }

  /** How every address translates once `init_kern_paging` is done. */
  function BootTranslation(v: nat): Translation {
    if v < 0x20_0000 then Mapped(v, PageFlags(true, false, false, false))
    else if 0xC000_0000 <= v < 0xC060_0000 then Mapped(v - 0xC000_0000, PageFlags(true, false, false, false))
    else Fault
  }

  /** What `init_kern_paging` maps: page n to frame n in the first 2 MB, and the first 6 MB again
      from 0xC0000000. */
  function InitialMap(page: nat): nat {
    if page < LOW_PAGES then TblEntry(page * PAGE_SIZE, KERN_FLAGS)
    else if KERN_PAGE <= page < KERN_PAGE + HIGH_PAGES then TblEntry((page - KERN_PAGE) * PAGE_SIZE, KERN_FLAGS)
    else 0
  }

  /** The flat map `log` with `count` pages from `page0` mapped to the frames from `phys`. */
  ghost function RangeMap(log: seq<Write>, page0: nat, phys: nat, count: nat, page: nat): nat {
    if page0 <= page < page0 + count then TblEntry(phys + (page - page0) * PAGE_SIZE, KERN_FLAGS)
    else Flat(log, page)
  }

  const LOW_PAGES := 512
  const HIGH_PAGES := 1536
  const KERN_PAGE := 0xC_0000

  lemma EntryBits(page: nat)
    ensures InitialMap(page) == 0 || AccessBits(InitialMap(page)) == PageFlags(true, false, false, false)
  {
    if page < LOW_PAGES {
      EntryRoundTrip(page * PAGE_SIZE, KERN_FLAGS);
    } else if KERN_PAGE <= page < KERN_PAGE + HIGH_PAGES {
      EntryRoundTrip((page - KERN_PAGE) * PAGE_SIZE, KERN_FLAGS);
    }
  }

  /** How the processor translates every address under that map. The entries themselves, too, are
      writable and closed to user code. */
  lemma InitialTranslation(v: nat)
    requires v < TWO32
    ensures Seen(InitialMap(v / PAGE_SIZE), v) == BootTranslation(v)
    ensures BootTranslation(v).Mapped? ==> AccessBits(InitialMap(v / PAGE_SIZE)) == PageFlags(true, false, false, false)
  {
    var page := v / PAGE_SIZE;
    assert v == PAGE_SIZE * page + v % PAGE_SIZE;
    EntryBits(page);
    if page < LOW_PAGES {
      WholeFrame(page);
      SeenFrame(page * PAGE_SIZE, KERN_FLAGS, v);
    } else if KERN_PAGE <= page < KERN_PAGE + HIGH_PAGES {
      WholeFrame(page - KERN_PAGE);
      SeenFrame((page - KERN_PAGE) * PAGE_SIZE, KERN_FLAGS, v);
    }
  }

  class KernelPaging {
    /** Physical memory, frame by frame. */
    var frames: Frames
    var kernelDir: nat
    var earlyHeapPtr: nat

    ghost const start: nat
    ghost var tables: Tables
    ghost var log: seq<Write>

    /** The tables are sound, they say what the flat map says, they lie where the early heap started or
        above, and it has room for the tables the directory may still ask for. */
    ghost predicate Valid()
      reads this
    {
      && KERN_VIRTUAL_ADDR < earlyHeapPtr
      && AlignUp(earlyHeapPtr) + PAGE_SIZE * |Unused(tables)| <= TWO32
      && TablesOk(frames, kernelDir, tables, earlyHeapPtr - KERN_VIRTUAL_ADDR)
      && Agrees(frames, tables, log)
      && start <= earlyHeapPtr && kernelDir + KERN_VIRTUAL_ADDR >= start && AllAbove(tables, start)
    }

    /** `init_kern_paging`: the map is exactly `InitialMap`, for every page of the address space. */
    constructor (memory: Frames, heapPtr: nat)
      requires KERN_VIRTUAL_ADDR < heapPtr && AlignUp(heapPtr) + PAGE_SIZE * (PAGES_PER_TABLE + 1) <= TWO32
      ensures Valid() && forall page: nat :: Flat(log, page) == InitialMap(page)
      ensures forall v: nat :: v < TWO32 ==> Translate(frames, kernelDir, v) == BootTranslation(v)
      ensures OnlyOwned(memory, frames, kernelDir, map[], tables) && start == heapPtr
    {
      start := heapPtr;
      frames, kernelDir, earlyHeapPtr := memory, 0, heapPtr;
      tables, log := map[], [];
      new;
      AllocDirectory();
      MapRange(0, 0, LOW_PAGES);
      MapRange(KERN_VIRTUAL_ADDR, 0, HIGH_PAGES);
      assert forall page: nat :: Flat([], page) == 0;
      BootSees();
    }

    lemma BootSees()
      requires Valid() && forall page: nat :: Flat(log, page) == InitialMap(page)
      ensures forall v: nat :: v < TWO32 ==> Translate(frames, kernelDir, v) == BootTranslation(v)
    {
      forall v: nat | v < TWO32 ensures Translate(frames, kernelDir, v) == BootTranslation(v) {
        ProcessorSees(v);
        InitialTranslation(v);
      }
    }

    /** The directory that `init_kern_paging` starts from. */
    method AllocDirectory()
      requires KERN_VIRTUAL_ADDR < earlyHeapPtr && AlignUp(earlyHeapPtr) + PAGE_SIZE * (PAGES_PER_TABLE + 1) <= TWO32
      requires tables == map[] && log == [] && start <= earlyHeapPtr
      modifies this`earlyHeapPtr, this`kernelDir, this`frames
      ensures Valid() && OnlyOwned(old(frames), frames, kernelDir, tables, tables)
    {
      kernelDir := EarlyKmallocPages(1);
      frames := frames[kernelDir := ZeroFrame()];
      AllUnused();
    }

    /** The mapping loop of `init_kern_paging`. */
    method MapRange(virt: nat, phys: nat, count: nat)
      requires Valid() && virt % PAGE_SIZE == 0 && phys % PAGE_SIZE == 0 && virt + count * PAGE_SIZE <= TWO32
      modifies this
      ensures Valid() && kernelDir == old(kernelDir)
      ensures forall page: nat :: Flat(log, page) == RangeMap(old(log), virt / PAGE_SIZE, phys, count, page)
      ensures OnlyOwned(old(frames), frames, kernelDir, old(tables), tables)
    {
      var virtAddrCount, physAddrCount := virt, phys;
      ghost var k := 0;
      while physAddrCount < phys + count * PAGE_SIZE
        invariant k <= count && virtAddrCount == virt + k * PAGE_SIZE && physAddrCount == phys + k * PAGE_SIZE
        invariant Valid() && kernelDir == old(kernelDir)
        invariant forall page: nat :: Flat(log, page) == RangeMap(old(log), virt / PAGE_SIZE, phys, k, page)
        invariant OnlyOwned(old(frames), frames, kernelDir, old(tables), tables)
      {
        ghost var l, f, t := log, frames, tables;
        MapKernPageFlags(virtAddrCount, physAddrCount, KERN_FLAGS);
        OnlyOwnedTrans(old(frames), f, frames, kernelDir, old(tables), t, tables);
        forall page: nat
          ensures Flat(log, page) == RangeMap(old(log), virt / PAGE_SIZE, phys, k + 1, page)
        {
          FlatAppend(l, Write(virtAddrCount / PAGE_SIZE, TblEntry(physAddrCount, KERN_FLAGS)), page);
          assert Flat(l, page) == RangeMap(old(log), virt / PAGE_SIZE, phys, k, page);
        }
        virtAddrCount := virtAddrCount + PAGE_SIZE;
        physAddrCount := physAddrCount + PAGE_SIZE;
        k := k + 1;
      }
    }

    /** `get_tbl_entry`: the table and index of the entry, or table 0 for NULL. */
    method GetTblEntry(virtAddr: nat) returns (tbl: nat, ptIndex: nat)
      requires Valid() && virtAddr < TWO32
      ensures tbl == 0 <==> virtAddr / 0x40_0000 !in tables
      ensures tbl == 0 ==> Flat(log, virtAddr / PAGE_SIZE) == 0
      ensures tbl != 0 ==> tbl in frames && ptIndex < PAGES_PER_TABLE
                           && frames[tbl][ptIndex] == Flat(log, virtAddr / PAGE_SIZE)
    {
      var pdIndex := virtAddr / 0x40_0000;
      ptIndex := virtAddr / PAGE_SIZE % PAGES_PER_TABLE;
      WalkIsFlat(virtAddr / PAGE_SIZE);
      tbl := TblPhysAddr(frames[kernelDir][pdIndex]);
      WalkDefined(frames, kernelDir, tables, earlyHeapPtr - KERN_VIRTUAL_ADDR, virtAddr / PAGE_SIZE);
    }

    /** The two-level walk and the flat map agree on every page. */
    lemma WalkIsFlat(page: nat)
      requires Valid() && page < PAGES_PER_TABLE * PAGES_PER_TABLE
      ensures kernelDir in frames && page / PAGES_PER_TABLE < PAGES_PER_TABLE
      ensures var e := frames[kernelDir][page / PAGES_PER_TABLE]; e != 0 ==> TblPhysAddr(e) in frames
      ensures Walk(frames, kernelDir, page) == Flat(log, page)
    {
      WalkDefined(frames, kernelDir, tables, earlyHeapPtr - KERN_VIRTUAL_ADDR, page);
      assert View(frames, tables, page) == Flat(log, page);
    }

    /** And so does the processor, on every address. */
    lemma ProcessorSees(v: nat)
      requires Valid() && v < TWO32
      ensures Translate(frames, kernelDir, v) == Seen(Flat(log, v / PAGE_SIZE), v)
    {
      TranslateIsView(frames, kernelDir, tables, earlyHeapPtr - KERN_VIRTUAL_ADDR, v);
    }

    /** `early_kmalloc_pages`: physical address of `numPages` fresh frames. */
    method EarlyKmallocPages(numPages: nat) returns (base: nat)
      requires KERN_VIRTUAL_ADDR < earlyHeapPtr
      modifies this`earlyHeapPtr
      ensures base % PAGE_SIZE == 0 && base + KERN_VIRTUAL_ADDR == AlignUp(old(earlyHeapPtr))
      ensures earlyHeapPtr == base + KERN_VIRTUAL_ADDR + numPages * PAGE_SIZE
    {
      earlyHeapPtr := AlignUp(earlyHeapPtr);
      base := earlyHeapPtr - KERN_VIRTUAL_ADDR;
      earlyHeapPtr := earlyHeapPtr + numPages * PAGE_SIZE;
    }

    /** The branch of `map_kern_page` for a directory slot without a table. */
    method AddTable(pdIndex: nat)
      requires Valid() && pdIndex < PAGES_PER_TABLE && pdIndex !in tables
      modifies this
      ensures Valid() && pdIndex in tables && log == old(log) && kernelDir == old(kernelDir)
      ensures OnlyOwned(old(frames), frames, kernelDir, old(tables), tables)
    {
      var tempPhysAddr := EarlyKmallocPages(1);
      ghost var top := old(earlyHeapPtr) - KERN_VIRTUAL_ADDR;
      WithTableOk(frames, kernelDir, tables, top, pdIndex, tempPhysAddr);
      UnusedAfter(tables, pdIndex, tempPhysAddr);
      WithTableAgrees(frames, kernelDir, tables, top, pdIndex, tempPhysAddr, log);
      assert AlignUp(earlyHeapPtr) == earlyHeapPtr;
      frames := WithTable(frames, kernelDir, pdIndex, tempPhysAddr);
      tables := tables[pdIndex := tempPhysAddr];
      assert tables[pdIndex] == tempPhysAddr;
    }

    /** `map_kern_page_flags`: that page goes to its frame with the rights asked for, except that none is
        open to user code; every other address translates as before, and no frame outside the tables
        changes. */
    method MapKernPageFlags(virtualAddr: nat, physAddr: nat, flags: PageFlags)
      requires Valid() && virtualAddr < TWO32
      modifies this
      ensures Valid() && log == old(log) + [Write(virtualAddr / PAGE_SIZE, TblEntry(physAddr, flags))]
      ensures kernelDir == old(kernelDir) && OnlyOwned(old(frames), frames, kernelDir, old(tables), tables)
      ensures forall v: nat :: v < TWO32 ==>
                Translate(frames, kernelDir, v) ==
                if v / PAGE_SIZE == virtualAddr / PAGE_SIZE
                then Mapped(physAddr - physAddr % PAGE_SIZE + v % PAGE_SIZE, flags.(allAccess := false))
                else old(Translate(frames, kernelDir, v))
    {
      ghost var l, f, d := log, frames, kernelDir;
      forall v: nat | v < TWO32 ensures Translate(f, d, v) == Seen(Flat(l, v / PAGE_SIZE), v) { ProcessorSees(v); }
      WritePage(virtualAddr, physAddr, flags);
      forall v: nat | v < TWO32
        ensures Translate(frames, kernelDir, v) ==
                if v / PAGE_SIZE == virtualAddr / PAGE_SIZE
                then Mapped(physAddr - physAddr % PAGE_SIZE + v % PAGE_SIZE, flags.(allAccess := false))
                else Translate(f, d, v)
      {
        ProcessorSees(v);
        FlatAppend(l, Write(virtualAddr / PAGE_SIZE, TblEntry(physAddr, flags)), v / PAGE_SIZE);
        SeenEntry(physAddr, flags, v);
      }
    }

    /** Its stores: one write to the flat map. */
    method WritePage(virtualAddr: nat, physAddr: nat, flags: PageFlags)
      requires Valid() && virtualAddr < TWO32
      modifies this
      ensures Valid() && log == old(log) + [Write(virtualAddr / PAGE_SIZE, TblEntry(physAddr, flags))]
      ensures kernelDir == old(kernelDir) && OnlyOwned(old(frames), frames, kernelDir, old(tables), tables)
    {
      var pdIndex, ptIndex := virtualAddr / 0x40_0000, virtualAddr / PAGE_SIZE % PAGES_PER_TABLE;
      assert SlotOk(frames, kernelDir, tables, pdIndex);
      if frames[kernelDir][pdIndex] == 0 {
        AddTable(pdIndex);
      }
      var entry := TblEntry(physAddr, flags);
      ghost var f, t := frames, tables;
      StoreEntry(pdIndex, ptIndex, virtualAddr / PAGE_SIZE, entry);
      OnlyOwnedTrans(old(frames), f, frames, kernelDir, old(tables), t, tables);
    }

    /** The store that both mapping functions end with. */
    method StoreEntry(pdIndex: nat, ptIndex: nat, ghost page: nat, entry: nat)
      requires Valid() && pdIndex in tables && pdIndex < PAGES_PER_TABLE && ptIndex < PAGES_PER_TABLE
      requires page == pdIndex * PAGES_PER_TABLE + ptIndex
      modifies this
      ensures Valid() && log == old(log) + [Write(page, entry)]
      ensures kernelDir == old(kernelDir) && tables == old(tables)
      ensures OnlyOwned(old(frames), frames, kernelDir, tables, tables)
    {
      ghost var top := earlyHeapPtr - KERN_VIRTUAL_ADDR;
      WalkDefined(frames, kernelDir, tables, top, page);
      var tbl := TblPhysAddr(frames[kernelDir][pdIndex]);
      WithEntryOk(frames, kernelDir, tables, top, pdIndex, ptIndex, entry);
      WithEntryAgrees(frames, kernelDir, tables, top, pdIndex, ptIndex, entry, log);
      frames := WithEntry(frames, tbl, ptIndex, entry);
      log := log + [Write(page, entry)];
    }
  }
}
