/** core/kernel/mem/user_space/user_space.c: processes with bump-allocated virtual regions,
    backed by frames from physmem.c through the page tables of paging.c. */
module UserSpace {
  import opened Bitmap
  import opened PhysMem
  import opened PageTable
  import opened Paging

  const USER_BASE: nat := 0x4000_0000
  const USER_TOP: nat := 0x1_0000_0000      // user_space_size is 0xFFFFFFFF
  const STACK_SIZE: nat := 16 * 1024
  const HEAP_SIZE: nat := 64 * 1024
  const SLOT: nat := STACK_SIZE + HEAP_SIZE
  const PROC_BYTES: nat := 176              // sizeof(user_space_proc_t)
  const POOL_SIZE: nat := 2 * 1024 * 1024 - 2160   // ULIME_META_SIZE - sizeof(user_space_t)
  const STACK_PAGES: nat := 4
  const HEAP_PAGES: nat := 16

  datatype ProcState = Created | Ready | Running | Blocked | Zombie

  // ---------- one process's memory, as a value ----------

  /** Where a process's stack and heap lie: virtual base of the stack (the heap follows), and both physical bases. */
  datatype Space = Space(base: nat, physStack: nat, physHeap: nat) {
    function HeapBase(): nat { base + STACK_SIZE }
    predicate Has(page: Path)
      requires |page| == 4
    {
      base / PAGE_SIZE <= Number(page) < base / PAGE_SIZE + STACK_PAGES + HEAP_PAGES
    }
  }

  ghost function FramesOf(s: Space): set<nat> {
    Range(s.physStack / PAGE_SIZE, STACK_PAGES) + Range(s.physHeap / PAGE_SIZE, HEAP_PAGES)
  }

  /** The n pages from virt on lead to the n frames from phys on. */
  ghost predicate MapsTo(m: Frames, root: nat, virt: nat, n: nat, phys: nat) {
    forall page :: IsPage(page) && InRegion(page, virt, n) ==>
                     Walk(m, root, page) == RegionMap(page, phys, virt, n, Unmapped)
  }

  /** Both regions are mapped to their frames, and those frames are neither tables nor free. */
  ghost predicate Owns(m: Frames, root: nat, tables: map<Path, nat>, free: set<nat>, s: Space) {
    && MapsTo(m, root, s.base, STACK_PAGES, s.physStack)
    && MapsTo(m, root, s.HeapBase(), HEAP_PAGES, s.physHeap)
    && s.physStack % PAGE_SIZE == 0 && s.physHeap % PAGE_SIZE == 0
    && Range(s.physStack / PAGE_SIZE, STACK_PAGES) !! Range(s.physHeap / PAGE_SIZE, HEAP_PAGES)
    && forall f :: f in FramesOf(s) ==> f < |m| && f !in tables.Values && f !in free
  }

  /** Slot k of the bump allocator. */
  function SlotBase(k: nat): nat { USER_BASE + SLOT * k }

  /** The pool of process records runs out before the bump allocator reaches the end of user space. */
  lemma PoolBoundsAddresses(n: nat)
    requires PROC_BYTES * n <= POOL_SIZE
    ensures SlotBase(n) <= USER_TOP
  {
  }

  lemma SlotRegions(k: nat)
    requires SlotBase(k + 1) <= USER_TOP
    ensures RegionOk(SlotBase(k), STACK_SIZE) && RegionOk(SlotBase(k) + STACK_SIZE, HEAP_SIZE)
    ensures forall page :: |page| == 4 ==>
              (InRegion(page, SlotBase(k), STACK_PAGES) <==>
               SlotBase(k) / PAGE_SIZE <= Number(page) < SlotBase(k) / PAGE_SIZE + STACK_PAGES)
    ensures forall page :: |page| == 4 ==>
              (InRegion(page, SlotBase(k) + STACK_SIZE, HEAP_PAGES) <==>
               SlotBase(k) / PAGE_SIZE + STACK_PAGES <= Number(page) < SlotBase(k) / PAGE_SIZE + STACK_PAGES + HEAP_PAGES)
  {
    assert SlotBase(k) / PAGE_SIZE == 0x4_0000 + 20 * k;
    assert SlotBase(k) == (0x4_0000 + 20 * k) * PAGE_SIZE;
    assert SlotBase(k) + STACK_SIZE == (0x4_0000 + 20 * k + 4) * PAGE_SIZE;
  }

  lemma SlotsApart(j: nat, k: nat, page: Path)
    requires j != k && |page| == 4
    ensures !(Space(SlotBase(j), 0, 0).Has(page) && Space(SlotBase(k), 0, 0).Has(page))
  {
    assert SlotBase(j) / PAGE_SIZE == 0x4_0000 + 20 * j;
    assert SlotBase(k) / PAGE_SIZE == 0x4_0000 + 20 * k;
  }

  /** A process keeps its memory while the tables grow and pages outside its slot are remapped. */
  lemma OwnsStays(m: Frames, m': Frames, root: nat, t: map<Path, nat>, t': map<Path, nat>,
                  free: set<nat>, free': set<nat>, s: Space, k: nat)
    requires s.base == SlotBase(k) && SlotBase(k + 1) <= USER_TOP
    requires Owns(m, root, t, free, s) && Grew(t, free, t', free') && |m'| == |m|
    requires forall page :: IsPage(page) && s.Has(page) ==> Walk(m', root, page) == Walk(m, root, page)
    ensures Owns(m', root, t', free', s)
  {
    hide RegionMap, InRegion, Walk, Range, SlotBase;
    SlotRegions(k);
    forall f | f in FramesOf(s) ensures f !in t'.Values && f !in free' {
      assert f in t'.Values - t.Values ==> f in free - free';
    }
  }

  /** Mapping the stack and then the heap of slot k to fresh frames gives the process its memory. */
  lemma OwnsFresh(m0: Frames, m1: Frames, m2: Frames, root: nat, t: map<Path, nat>, free: set<nat>, s: Space, k: nat)
    requires s.base == SlotBase(k) && SlotBase(k + 1) <= USER_TOP
    requires s.physStack % PAGE_SIZE == 0 && s.physHeap % PAGE_SIZE == 0
    requires forall page :: IsPage(page) ==>
               Walk(m1, root, page) == RegionMap(page, s.physStack, s.base, STACK_PAGES, Walk(m0, root, page))
    requires forall page :: IsPage(page) ==>
               Walk(m2, root, page) == RegionMap(page, s.physHeap, s.HeapBase(), HEAP_PAGES, Walk(m1, root, page))
    requires Range(s.physStack / PAGE_SIZE, STACK_PAGES) !! Range(s.physHeap / PAGE_SIZE, HEAP_PAGES)
    requires forall f :: f in FramesOf(s) ==> f < |m2| && f !in t.Values && f !in free
    ensures Owns(m2, root, t, free, s)
    ensures forall page :: IsPage(page) && !s.Has(page) ==> Walk(m2, root, page) == Walk(m0, root, page)
  {
    hide InRegion, Walk, Range, SlotBase, LeafEntry;
    SlotRegions(k);
  }

  /** No large page covers an address that a process can be given. */
  ghost predicate NoLargeUser(m: Frames, root: nat) {
    forall page :: IsPage(page) && USER_BASE / PAGE_SIZE <= Number(page) < USER_TOP / PAGE_SIZE ==> !Walk(m, root, page).HugeLeaf?
  }

  /** The mapped processes by number: each lies in its own slot, owns its memory, and shares no frame with another. */
  ghost predicate Isolated(m: Frames, root: nat, tables: map<Path, nat>, free: set<nat>, live: map<nat, Space>) {
    && (forall k :: k in live ==> 1 <= k && SlotBase(k) <= USER_TOP && live[k].base == SlotBase(k - 1))
    && (forall k :: k in live ==> Owns(m, root, tables, free, live[k]))
    && (forall j, k :: j in live && k in live && j != k ==> FramesOf(live[j]) !! FramesOf(live[k]))
  }

  lemma IsolatedShrinks(m: Frames, root: nat, tables: map<Path, nat>, free: set<nat>, free': set<nat>, live: map<nat, Space>)
    requires Isolated(m, root, tables, free, live) && free' <= free
    ensures Isolated(m, root, tables, free', live)
  {
    hide MapsTo, SlotBase;
  }

  /** Giving process k memory from frames that were free leaves every other process's memory alone. */
  lemma IsolatedUpdate(m: Frames, m': Frames, root: nat, t: map<Path, nat>, t': map<Path, nat>,
                       free: set<nat>, free': set<nat>, live: map<nat, Space>, k: nat, s: Space)
    requires Isolated(m, root, t, free, live) && Grew(t, free, t', free') && |m'| == |m|
    requires 1 <= k && SlotBase(k) <= USER_TOP && s.base == SlotBase(k - 1)
    requires Owns(m', root, t', free', s) && FramesOf(s) <= free
    requires forall page :: IsPage(page) && !s.Has(page) ==> Walk(m', root, page) == Walk(m, root, page)
    ensures Isolated(m', root, t', free', live[k := s])
  {
    hide Owns, SlotBase, Walk, Grew, FramesOf;
    forall j | j in live && j != k ensures Owns(m', root, t', free', live[j]) {
      forall page | IsPage(page) && live[j].Has(page) ensures Walk(m', root, page) == Walk(m, root, page) {
        SlotsApart(j - 1, k - 1, page);
      }
      OwnsStays(m, m', root, t, t', free, free', live[j], j - 1);
    }
    forall j | j in live ensures FramesOf(live[j]) !! FramesOf(s) {
      OwnedNotFree(m, root, t, free, live[j]);
    }
  }

  lemma OwnLeaf(m: Frames, root: nat, tables: map<Path, nat>, free: set<nat>, s: Space, k: nat, page: Path)
    requires s.base == SlotBase(k) && SlotBase(k + 1) <= USER_TOP
    requires Owns(m, root, tables, free, s) && IsPage(page) && s.Has(page)
    ensures !Walk(m, root, page).HugeLeaf?
  {
    hide Walk, PageOf, InRegion;
    SlotRegions(k);
  }

  lemma NoLargeKept(m: Frames, m': Frames, root: nat, tables: map<Path, nat>, free: set<nat>, s: Space, k: nat)
    requires NoLargeUser(m, root) && s.base == SlotBase(k) && SlotBase(k + 1) <= USER_TOP
    requires Owns(m', root, tables, free, s)
    requires forall page :: IsPage(page) && !s.Has(page) ==> Walk(m', root, page) == Walk(m, root, page)
    ensures NoLargeUser(m', root)
  {
    hide Owns, SlotBase, Walk;
    forall page | IsPage(page) && USER_BASE / PAGE_SIZE <= Number(page) < USER_TOP / PAGE_SIZE
      ensures !Walk(m', root, page).HugeLeaf?
    {
      if s.Has(page) { OwnLeaf(m', root, tables, free, s, k, page); }
    }
  }

  /** No large page covers a slot. */
  lemma SlotNoLarge(m: Frames, root: nat, k: nat)
    requires NoLargeUser(m, root) && SlotBase(k + 1) <= USER_TOP
    ensures forall page :: IsPage(page) && InRegion(page, SlotBase(k), STACK_PAGES) ==> !Walk(m, root, page).HugeLeaf?
    ensures forall page :: IsPage(page) && InRegion(page, SlotBase(k) + STACK_SIZE, HEAP_PAGES) ==> !Walk(m, root, page).HugeLeaf?
  {
    SlotRegions(k);
    assert SlotBase(k) / PAGE_SIZE == 0x4_0000 + 20 * k && SlotBase(k + 1) / PAGE_SIZE == 0x4_0000 + 20 * k + 20;
    hide Walk, InRegion, SlotBase;
  }

  /** Mapping a region makes no large page. */
  lemma RegionNoLarge(m: Frames, m': Frames, root: nat, phys: nat, virt: nat, n: nat)
    requires NoLargeUser(m, root)
    requires forall page :: IsPage(page) ==> Walk(m', root, page) == RegionMap(page, phys, virt, n, Walk(m, root, page))
    ensures NoLargeUser(m', root)
  {
    hide Walk;
  }

  lemma OwnedNotFree(m: Frames, root: nat, tables: map<Path, nat>, free: set<nat>, s: Space)
    requires Owns(m, root, tables, free, s)
    ensures FramesOf(s) !! free
  {
    hide MapsTo;
  }

  /** The frame behind the n-th page of a process. */
  function FrameBehind(s: Space, n: nat): nat {
    if n < STACK_PAGES then s.physStack / PAGE_SIZE + n else s.physHeap / PAGE_SIZE + (n - STACK_PAGES)
  }

  lemma OwnFrame(m: Frames, root: nat, tables: map<Path, nat>, free: set<nat>, s: Space, k: nat, page: Path)
    requires s.base == SlotBase(k) && SlotBase(k + 1) <= USER_TOP && |m| <= 0x100_0000_0000
    requires Owns(m, root, tables, free, s) && IsPage(page) && s.Has(page)
    ensures Walk(m, root, page).Leaf?
    ensures var f := FrameOf(Walk(m, root, page).entry);
            && f == FrameBehind(s, Number(page) - s.base / PAGE_SIZE)
            && f in FramesOf(s) && f !in tables.Values && f !in free
  {
    hide Walk, LeafEntry, SlotBase, RegionMap, FrameOf, Range;
    SlotRegions(k);
    SlotStart(k);
    OwnBounds(m, root, tables, free, s);
    var n := Number(page) - s.base / PAGE_SIZE;
    if n < STACK_PAGES {
      OwnPage(page, s.physStack, s.base, n, STACK_PAGES);
    } else {
      OwnPage(page, s.physHeap, s.HeapBase(), n - STACK_PAGES, HEAP_PAGES);
    }
    BehindOwned(s, n);
  }

  lemma BehindOwned(s: Space, n: nat)
    requires n < STACK_PAGES + HEAP_PAGES
    ensures FrameBehind(s, n) in FramesOf(s)
  {
  }

  lemma OwnPage(page: Path, phys: nat, virt: nat, i: nat, n: nat)
    requires IsPage(page) && RegionOk(virt, n * PAGE_SIZE) && i < n
    requires Number(page) == virt / PAGE_SIZE % 0x10_0000_0000 + i
    requires phys % PAGE_SIZE == 0 && phys / PAGE_SIZE + n <= 0x100_0000_0000
    ensures InRegion(page, virt, n) && RegionMap(page, phys, virt, n, Unmapped).Leaf?
    ensures FrameOf(RegionMap(page, phys, virt, n, Unmapped).entry) == phys / PAGE_SIZE + i
  {
    hide PageOf, LeafEntry, FrameOf, RegionMap;
    RegionPage(virt, i, n);
    SameNumber(page, PageOf(virt + i * PAGE_SIZE));
    RegionEntry(phys, virt, i, n);
  }

  lemma OwnBounds(m: Frames, root: nat, tables: map<Path, nat>, free: set<nat>, s: Space)
    requires Owns(m, root, tables, free, s)
    ensures s.physStack / PAGE_SIZE + STACK_PAGES <= |m| && s.physHeap / PAGE_SIZE + HEAP_PAGES <= |m|
  {
    hide MapsTo;
    BehindOwned(s, STACK_PAGES - 1);
    BehindOwned(s, STACK_PAGES + HEAP_PAGES - 1);
  }

  lemma SlotStart(k: nat)
    requires SlotBase(k + 1) <= USER_TOP
    ensures SlotBase(k) / PAGE_SIZE % 0x10_0000_0000 == SlotBase(k) / PAGE_SIZE
    ensures (SlotBase(k) + STACK_SIZE) / PAGE_SIZE % 0x10_0000_0000 == SlotBase(k) / PAGE_SIZE + STACK_PAGES
  {
  }

  /** What isolation means: two different pages, of one process or of two, never lead to the same frame,
      and no process page leads to a page-table frame or to a frame that can still be handed out. */
  lemma NoSharedFrame(m: Frames, root: nat, tables: map<Path, nat>, free: set<nat>, live: map<nat, Space>,
                      j: nat, k: nat, p: Path, q: Path)
    requires Isolated(m, root, tables, free, live) && |m| <= 0x100_0000_0000
    requires j in live && k in live && IsPage(p) && IsPage(q) && live[j].Has(p) && live[k].Has(q) && p != q
    ensures var a, b := Walk(m, root, p), Walk(m, root, q);
            && a.Leaf? && b.Leaf?
            && FrameOf(a.entry) != FrameOf(b.entry)
            && FrameOf(a.entry) !in tables.Values && FrameOf(a.entry) !in free
  {
    hide Walk, SlotBase, MapsTo;
    OwnFrame(m, root, tables, free, live[j], j - 1, p);
    OwnFrame(m, root, tables, free, live[k], k - 1, q);
    if j == k {
      if Number(p) == Number(q) { SameNumber(p, q); }
      OwnFramesApart(m, root, tables, free, live[j], Number(p) - live[j].base / PAGE_SIZE, Number(q) - live[j].base / PAGE_SIZE);
    }
  }

  lemma OwnFramesApart(m: Frames, root: nat, tables: map<Path, nat>, free: set<nat>, s: Space, a: nat, b: nat)
    requires Owns(m, root, tables, free, s) && a < STACK_PAGES + HEAP_PAGES && b < STACK_PAGES + HEAP_PAGES
    ensures FrameBehind(s, a) == FrameBehind(s, b) ==> a == b
  {
    hide MapsTo;
    var st, h := Range(s.physStack / PAGE_SIZE, STACK_PAGES), Range(s.physHeap / PAGE_SIZE, HEAP_PAGES);
    assert FrameBehind(s, a) in (if a < STACK_PAGES then st else h);
    assert FrameBehind(s, b) in (if b < STACK_PAGES then st else h);
  }

  // ---------- when mmap finds no frames ----------

  /** No run of n frames is free beside the k frames from s on. */
  ghost predicate NoFitBeside(bits: seq<bv8>, total: nat, s: nat, k: nat, n: nat) {
    forall t :: FIRST_FRAME <= t && t + n <= total ==> !FreeBeside(bits, s, k, t, n)
  }

  ghost predicate FreeBeside(bits: seq<bv8>, s: nat, k: nat, t: nat, n: nat) {
    (t + n <= s || s + k <= t) && forall f :: t <= f < t + n ==> !Test(bits, f)
  }

  /** The stack gets the first run, and no run is left for the heap. */
  ghost predicate HeapFindsNone(bits: seq<bv8>, total: nat) {
    exists s: nat :: FirstFit(bits, total, s, STACK_PAGES) && NoFitBeside(bits, total, s, STACK_PAGES, HEAP_PAGES)
  }

  lemma FirstFitUnique(bits: seq<bv8>, total: nat, s: nat, t: nat, n: nat)
    requires FirstFit(bits, total, s, n) && FirstFit(bits, total, t, n)
    ensures s == t
  {
  }

  lemma StackFirst(bits: seq<bv8>, total: nat)
    requires NoFit(bits, total, STACK_PAGES)
    ensures !HeapFindsNone(bits, total)
  {
  }

  /** Once the stack has its frames, the heap finds none in the new bitmap exactly when none was left beside them. */
  lemma HeapBesideStack(bits: seq<bv8>, bits': seq<bv8>, total: nat, s: nat)
    requires FirstFit(bits, total, s, STACK_PAGES)
    requires FreeBelow(bits', total) == FreeBelow(bits, total) - Range(s, STACK_PAGES)
    ensures NoFit(bits', total, HEAP_PAGES) <==> HeapFindsNone(bits, total)
    ensures FreeBelow(bits', total) != FreeBelow(bits, total) && !NoFit(bits, total, STACK_PAGES)
  {
    assert s in FreeBelow(bits, total) && s in Range(s, STACK_PAGES);
    forall t | FIRST_FRAME <= t && t + HEAP_PAGES <= total
      ensures FreeRun(bits', total, t, HEAP_PAGES) <==> FreeBeside(bits, s, STACK_PAGES, t, HEAP_PAGES)
    {
      FreeAfterClaim(bits, bits', total, s, t);
    }
    if t: nat :| FirstFit(bits, total, t, STACK_PAGES) && NoFitBeside(bits, total, t, STACK_PAGES, HEAP_PAGES) {
      FirstFitUnique(bits, total, s, t, STACK_PAGES);
    }
  }

  lemma FreeAfterClaim(bits: seq<bv8>, bits': seq<bv8>, total: nat, s: nat, t: nat)
    requires FreeBelow(bits', total) == FreeBelow(bits, total) - Range(s, STACK_PAGES) && t + HEAP_PAGES <= total
    ensures FreeRun(bits', total, t, HEAP_PAGES) <==> FreeBeside(bits, s, STACK_PAGES, t, HEAP_PAGES)
  {
    hide Test;
    forall f | t <= f < t + HEAP_PAGES
      ensures Test(bits', f) <==> Test(bits, f) || s <= f < s + STACK_PAGES
    {
      assert f in FreeBelow(bits', total) <==> f in FreeBelow(bits, total) && f !in Range(s, STACK_PAGES);
    }
    hide FreeBelow, Range;
    if FreeRun(bits', total, t, HEAP_PAGES) {
      forall f | t <= f < t + HEAP_PAGES ensures !Test(bits, f) {
        assert !Test(bits', f);
      }
      assert !Test(bits', if s < t then t else s) || t + HEAP_PAGES <= s;
    } else {
      var f :| t <= f < t + HEAP_PAGES && Test(bits', f);
      assert Test(bits, f) || s <= f < s + STACK_PAGES;
    }
  }

  /** A concrete loss: of 516 frames the last four are free, so the stack takes them and the heap finds none. */
  lemma StackLostHappens()
    ensures var bits := seq(64, _ => 0xFF) + [0xF0];
            HeapFindsNone(bits, 516) && !NoFit(bits, 516, STACK_PAGES)
  {
    var bits := seq(64, _ => 0xFF) + [0xF0];
    assert FreeRun(bits, 516, 512, STACK_PAGES) by {
      assert bits[64] == 0xF0;
      assert forall k :: 0 <= k < 4 ==> !BitOf(0xF0, k);
    }
    assert FirstFit(bits, 516, 512, STACK_PAGES);
  }

  // ---------- processes ----------

  datatype Outcome = Code(n: int) | Panic

  class Proc {
    var pid: nat
    var name: string
    var state: ProcState
    var entryPoint: nat
    var stackBase: nat
    var heapBase: nat
    var physStack: nat
    var physHeap: nat
    var next: Proc?
    var prev: Proc?

    constructor (pid: nat, name: string, entryPoint: nat, stackBase: nat)
      ensures this.pid == pid && this.name == name && this.state == Created && this.entryPoint == entryPoint
      ensures this.stackBase == stackBase && heapBase == stackBase + STACK_SIZE
      ensures next == null && prev == null
    {
      this.pid, this.name, state, this.entryPoint := pid, name, Created, entryPoint;
      this.stackBase, heapBase, physStack, physHeap := stackBase, stackBase + STACK_SIZE, 0, 0;
      next, prev := null, null;
    }

    function Memory(): Space
      reads this`stackBase, this`physStack, this`physHeap
    {
      Space(stackBase, physStack, physHeap)
    }
  }

  function At(procs: seq<Proc>, i: int): Proc? {
    if 0 <= i < |procs| then procs[i] else null
  }

  function RoundRobin(i: int, n: nat): (j: nat)
    requires -1 <= i < n && n > 0
    ensures j < n
  {
    if i + 1 < n then i + 1 else 0
  }

  function Rounds(i: int, n: nat, calls: nat): (j: int)
    requires -1 <= i < n && n > 0
    ensures -1 <= j < n
  {
    if calls == 0 then i else RoundRobin(Rounds(i, n, calls - 1), n)
  }

  /** Over any n consecutive calls on a list of n processes every process becomes current exactly once. */
  lemma {:induction false} RoundsAre(i: int, n: nat, calls: nat)
    requires -1 <= i < n && n > 0 && 1 <= calls <= n
    ensures Rounds(i, n, calls) == if i + calls < n then i + calls else i + calls - n
    decreases calls
  {
    if calls > 1 { RoundsAre(i, n, calls - 1); }
  }

  lemma EveryProcessRuns(i: int, n: nat, j: nat)
    requires -1 <= i < n && j < n
    ensures exists c :: 1 <= c <= n && Rounds(i, n, c) == j
    ensures forall c, d :: 1 <= c <= n && 1 <= d <= n && Rounds(i, n, c) == Rounds(i, n, d) ==> c == d
  {
    var c := if j > i then j - i else j - i + n;
    RoundsAre(i, n, c);
    forall c, d | 1 <= c <= n && 1 <= d <= n && Rounds(i, n, c) == Rounds(i, n, d) ensures c == d {
      RoundsAre(i, n, c);
      RoundsAre(i, n, d);
    }
  }

  /** user_space_init: null when there is no kernel memory or no graphics manager. */
  method UserSpaceInit(paging: Paging, kernelMemory: bool, graphicsManager: bool) returns (us: UserSpace?)
    requires kernelMemory && graphicsManager ==> paging.Valid() && NoLargeUser(paging.mem[..], paging.root)
    ensures us == null <==> !kernelMemory || !graphicsManager
    ensures us != null ==> us.Valid() && us.paging == paging && us.procs == [] && us.procCurr == null && us.live == map[]
  {
    if !kernelMemory || !graphicsManager { return null; }
    us := new UserSpace(paging);
  }

  class UserSpace {
    const paging: Paging
    var procList: Proc?
    var procCurr: Proc?
    var pidNext: nat
    var poolUsed: nat
    var used: nat               // user_space_used
    ghost var procs: seq<Proc>        // the list from its head, newest first
    ghost var live: map<nat, Space>   // by pid, the memory of every process whose mmap succeeded

    /** The doubly linked list is procs. */
    ghost predicate Linked()
      reads this`procList, this`procCurr, this`procs, procs`next, procs`prev
    {
      && (forall i, j :: 0 <= i < j < |procs| ==> procs[i] != procs[j])
      && procList == At(procs, 0)
      && (forall i :: 0 <= i < |procs| ==> procs[i].next == At(procs, i + 1) && procs[i].prev == At(procs, i - 1))
      && (procCurr != null ==> procCurr in procs)
    }

    /** The list is in descending order of pid, and process number pid has the pid-th slot of the bump allocator. */
    ghost predicate Slots()
      reads this`poolUsed, this`pidNext, this`used, this`procs, procs`pid, procs`stackBase, procs`heapBase
    {
      && poolUsed == PROC_BYTES * |procs| <= POOL_SIZE
      && pidNext == |procs| + 1
      && used == SlotBase(|procs|)
      && (forall i :: 0 <= i < |procs| ==> procs[i].pid == |procs| - i)
      && (forall i :: 0 <= i < |procs| ==> procs[i].stackBase == SlotBase(|procs| - i - 1))
      && (forall i :: 0 <= i < |procs| ==> procs[i].heapBase == procs[i].stackBase + STACK_SIZE)
    }

    /** live records the mapped processes. */
    ghost predicate Recorded()
      reads this`procs, this`live, this`pidNext, procs`pid, procs`stackBase, procs`physStack, procs`physHeap
    {
      && (forall k :: k in live ==> 1 <= k < pidNext)
      && (forall i :: 0 <= i < |procs| && procs[i].pid in live ==> live[procs[i].pid] == procs[i].Memory())
    }

    ghost predicate Books()
      reads this`procList, this`procCurr, this`procs, this`poolUsed, this`pidNext, this`used, this`live
      reads procs`next, procs`prev, procs`pid, procs`stackBase, procs`heapBase, procs`physStack, procs`physHeap
    {
      Linked() && Slots() && Recorded()
    }

    ghost predicate Valid()
      reads this, procs, paging, paging.mem, paging.pm, paging.pm.frames, paging.pm.bitmap
    {
      && paging.Valid() && Books()
      && Isolated(paging.mem[..], paging.root, paging.tables, paging.pm.Free(), live)
      && NoLargeUser(paging.mem[..], paging.root)
    }

    constructor (paging: Paging)
      requires paging.Valid() && NoLargeUser(paging.mem[..], paging.root)
      ensures Valid() && this.paging == paging && procs == [] && procCurr == null && live == map[]
    {
      this.paging := paging;
      procList, procCurr := null, null;
      pidNext, poolUsed, used := 1, 0, USER_BASE;
      procs, live := [], map[];
    }

    /** user_space_proc_create. The name has to fit its 64-byte field, as the copy does not check. */
    method ProcCreate(name: string, entryPoint: nat) returns (proc: Proc?)
      requires Valid() && |name| < 64
      modifies this, procs
      ensures Valid()
      ensures proc == null <==> PROC_BYTES * (|old(procs)| + 1) > POOL_SIZE
      ensures proc == null ==> procs == old(procs)
      ensures live == old(live)
      ensures proc != null ==> fresh(proc) && procs == [proc] + old(procs) && proc.pid !in live
      ensures proc != null ==> proc.state == Created && proc.entryPoint == entryPoint && proc.name == name
      ensures proc != null ==> proc.pid == |old(procs)| + 1 && proc.stackBase == 0x4000_0000 + 0x1_4000 * |old(procs)|
                               && proc.heapBase == proc.stackBase + 0x4000
      ensures forall p :: p in old(procs) ==> p.Memory() == old(p.Memory()) && p.state == old(p.state)
    {
      hide Books, Isolated;
      ghost var m, free := paging.mem[..], paging.pm.Free();
      proc := AddProc(name, entryPoint);
      assert paging.Valid() && paging.mem[..] == m && paging.pm.Free() == free;
    }

    /** The records of user_space_proc_create; page tables and frames are not touched. */
    method AddProc(name: string, entryPoint: nat) returns (proc: Proc?)
      requires Books() && |name| < 64
      modifies this`procList, this`procs, this`poolUsed, this`pidNext, this`used, procs
      ensures Books()
      ensures proc == null <==> PROC_BYTES * (|old(procs)| + 1) > POOL_SIZE
      ensures proc == null ==> procs == old(procs)
      ensures proc != null ==> fresh(proc) && procs == [proc] + old(procs) && proc.pid !in live
      ensures proc != null ==> proc.state == Created && proc.entryPoint == entryPoint && proc.name == name
      ensures proc != null ==> proc.pid == |old(procs)| + 1 && proc.stackBase == 0x4000_0000 + 0x1_4000 * |old(procs)|
                               && proc.heapBase == proc.stackBase + 0x4000
      ensures forall p :: p in old(procs) ==> p.Memory() == old(p.Memory()) && p.state == old(p.state)
    {
      hide SlotBase, At, Linked, Isolated;
      if poolUsed + PROC_BYTES > POOL_SIZE { return null; }
      NextSlot(|procs|);
      ghost var olds := procs;
      proc := new Proc(pidNext, name, entryPoint, used);
      poolUsed, pidNext, used := poolUsed + PROC_BYTES, pidNext + 1, used + STACK_SIZE + HEAP_SIZE;
      Prepend(proc);
      Renumbered(proc, olds);
    }

    /** The books after a new record has been put before the others. */
    twostate lemma Renumbered(new proc: Proc, olds: seq<Proc>)
      requires olds == old(procs) && procs == [proc] + olds && live == old(live)
      requires old(Slots()) && old(Recorded())
      requires poolUsed == PROC_BYTES * |procs| <= POOL_SIZE && pidNext == |procs| + 1 && used == SlotBase(|procs|)
      requires proc.pid == |procs| && proc.stackBase == SlotBase(|olds|) && proc.heapBase == proc.stackBase + STACK_SIZE
      requires forall p :: p in olds ==> p.pid == old(p.pid) && p.stackBase == old(p.stackBase) && p.heapBase == old(p.heapBase)
                                         && p.Memory() == old(p.Memory())
      ensures Slots() && Recorded()
    {
      hide SlotBase, At, Linked, Isolated;
      forall i | 0 <= i < |procs|
        ensures procs[i].pid == |procs| - i && procs[i].stackBase == SlotBase(|procs| - i - 1)
        ensures procs[i].heapBase == procs[i].stackBase + STACK_SIZE
        ensures procs[i].pid in live ==> live[procs[i].pid] == procs[i].Memory()
      {
        if i > 0 { assert procs[i] == olds[i - 1]; }
      }
    }

    /** user_space_proc_mmap: code 1 exactly when the stack or, beside it, the heap finds no run of frames; when only the
        heap does not, the stack's frames stay claimed for good. */
    method ProcMmap(proc: Proc) returns (r: Outcome)
      requires Valid() && proc in procs
      modifies this`live, proc`physStack, proc`physHeap, paging`tables, paging.mem, paging.pm.frames, paging.pm.bitmap
      ensures r != Panic ==> Valid()
      ensures r == Code(0) || r == Code(1) || r == Panic
      ensures r == Code(0) ==> live == old(live)[proc.pid := proc.Memory()] && FramesOf(proc.Memory()) <= old(paging.pm.Free())
      ensures r == Code(0) ==> forall page :: IsPage(page) && !proc.Memory().Has(page) ==>
                paging.Translate(page) == old(paging.Translate(page))
      ensures r == Code(0) ==> forall page :: IsPage(page) && proc.Memory().Has(page) ==>
                paging.CanWrite(page) == old(paging.UpperWritable(page))
      ensures r == Code(0) ==> forall f :: f in FramesOf(proc.Memory()) ==> f < paging.mem.Length && paging.mem[f] == Zeros()
      ensures r == Code(0) ==> FirstFit(old(paging.pm.bitmap[..]), paging.pm.total, proc.physStack / 4096, STACK_PAGES)
      ensures r == Panic ==> paging.pm.Full()
      ensures r == Code(1) <==> NoFit(old(paging.pm.bitmap[..]), paging.pm.total, STACK_PAGES)
                                || HeapFindsNone(old(paging.pm.bitmap[..]), paging.pm.total)
      ensures r == Code(1) ==>
                (paging.pm.Free() == old(paging.pm.Free()) <==> NoFit(old(paging.pm.bitmap[..]), paging.pm.total, STACK_PAGES))
      ensures HeapFindsNone(old(paging.pm.bitmap[..]), paging.pm.total) ==>
                exists s: nat :: FirstFit(old(paging.pm.bitmap[..]), paging.pm.total, s, STACK_PAGES)
                                 && paging.pm.Free() == old(paging.pm.Free()) - Range(s, STACK_PAGES)
      ensures r == Code(1) ==> live == old(live) && proc.Memory() == old(proc.Memory()) && paging.mem[..] == old(paging.mem[..])
    {
      hide Isolated, NoLargeUser, Owns, Walk, Upper, Writable, RegionMap, FirstFit, NoFit, FreeBelow, Tree, SlotBase, RegionOk;
      hide Grew, Range, Books;
      ghost var m0, t0, f0 := paging.mem[..], paging.tables, paging.pm.Free();
      ghost var k := SlotOf(proc);
      SlotRegions(k);
      var physStack := paging.pm.AllocTo(STACK_PAGES);
      assert paging.mem[..] == m0;
      ghost var f1 := paging.pm.Free();
      IsolatedShrinks(m0, paging.root, t0, f0, f1, live);
      if physStack == 0 {
        StackFirst(old(paging.pm.bitmap[..]), paging.pm.total);
        return Code(1);
      }
      ClaimedFrames(old(paging.pm.bitmap[..]), paging.pm.total, physStack / PAGE_SIZE, STACK_PAGES);
      ghost var bits := paging.pm.bitmap[..];
      var physHeap := paging.pm.AllocTo(HEAP_PAGES);
      assert paging.mem[..] == m0;
      ghost var f2 := paging.pm.Free();
      IsolatedShrinks(m0, paging.root, t0, f1, f2, live);
      HeapBesideStack(old(paging.pm.bitmap[..]), bits, paging.pm.total, physStack / PAGE_SIZE);
      if physHeap == 0 { return Code(1); }
      ClaimedFrames(bits, paging.pm.total, physHeap / PAGE_SIZE, HEAP_PAGES);
      var ok := MapClaimed(proc, physStack, physHeap, f0);
      r := if ok then Code(0) else Panic;
    }

    /** Lines 81-85 of user_space_proc_mmap, with frames that were in the free set f0. */
    method MapClaimed(proc: Proc, physStack: nat, physHeap: nat, ghost f0: set<nat>) returns (ok: bool)
      requires Books() && paging.Valid() && proc in procs && paging.pm.Free() <= f0
      requires Isolated(paging.mem[..], paging.root, paging.tables, f0, live) && NoLargeUser(paging.mem[..], paging.root)
      requires physStack % PAGE_SIZE == 0 && physHeap % PAGE_SIZE == 0 && FramesOf(Space(proc.stackBase, physStack, physHeap)) <= f0
      requires paging.DataFrames(physStack / PAGE_SIZE, STACK_PAGES) && paging.DataFrames(physHeap / PAGE_SIZE, HEAP_PAGES)
      requires Range(physStack / PAGE_SIZE, STACK_PAGES) !! Range(physHeap / PAGE_SIZE, HEAP_PAGES)
      modifies this`live, proc`physStack, proc`physHeap, paging`tables, paging.mem, paging.pm.frames, paging.pm.bitmap
      ensures ok ==> Valid() && proc.Memory() == Space(proc.stackBase, physStack, physHeap) && live == old(live)[proc.pid := proc.Memory()]
      ensures ok ==> forall page :: IsPage(page) && !proc.Memory().Has(page) ==>
                paging.Translate(page) == old(paging.Translate(page))
      ensures ok ==> forall page :: IsPage(page) && proc.Memory().Has(page) ==>
                paging.CanWrite(page) == old(paging.UpperWritable(page))
      ensures ok ==> forall f :: f in FramesOf(proc.Memory()) ==> f < paging.mem.Length && paging.mem[f] == Zeros()
      ensures !ok ==> paging.pm.Full()
    {
      hide Isolated, NoLargeUser, Owns, Walk, Upper, Writable, RegionMap, NoFit, FreeBelow, Tree, SlotBase, RegionOk, Grew;
      hide Range, FramesOf, Books;
      ghost var m0, t0, f2 := paging.mem[..], paging.tables, paging.pm.Free();
      ghost var k := SlotOf(proc);
      ghost var s := Space(proc.stackBase, physStack, physHeap);
      ok := MapBoth(proc, physStack, physHeap, k);
      if !ok { return; }
      GrewTwice(t0, f0, t0, f2, paging.tables, paging.pm.Free()) by { GrewFree(t0, f0, f2); }
      NoLargeKept(m0, paging.mem[..], paging.root, paging.tables, paging.pm.Free(), s, k);
      IsolatedUpdate(m0, paging.mem[..], paging.root, t0, paging.tables, f0, paging.pm.Free(), live, proc.pid, s);
      Record(proc, physStack, physHeap);
    }

    /** Lines 83-84 of user_space_proc_mmap. */
    method Record(proc: Proc, physStack: nat, physHeap: nat)
      requires Books() && proc in procs
      modifies this`live, proc`physStack, proc`physHeap
      ensures Books() && live == old(live)[proc.pid := proc.Memory()]
      ensures proc.Memory() == Space(proc.stackBase, physStack, physHeap)
    {
      hide SlotBase, Linked;
      ghost var i :| 0 <= i < |procs| && procs[i] == proc;
      proc.physStack := physStack;
      proc.physHeap := physHeap;
      live := live[proc.pid := proc.Memory()];
      assert Recorded() by {
        forall j | 0 <= j < |procs| && procs[j].pid in live ensures live[procs[j].pid] == procs[j].Memory() {
          assert procs[j].pid == |procs| - j && proc.pid == |procs| - i;
        }
      }
    }

    /** Lines 81-82 of user_space_proc_mmap. */
    method MapBoth(proc: Proc, physStack: nat, physHeap: nat, ghost k: nat) returns (ok: bool)
      requires paging.Valid() && proc.stackBase == SlotBase(k) && proc.heapBase == SlotBase(k) + STACK_SIZE && SlotBase(k + 1) <= USER_TOP
      requires physStack % PAGE_SIZE == 0 && physHeap % PAGE_SIZE == 0
      requires paging.DataFrames(physStack / PAGE_SIZE, STACK_PAGES) && paging.DataFrames(physHeap / PAGE_SIZE, HEAP_PAGES)
      requires Range(physStack / PAGE_SIZE, STACK_PAGES) !! Range(physHeap / PAGE_SIZE, HEAP_PAGES)
      requires NoLargeUser(paging.mem[..], paging.root)
      modifies paging`tables, paging.mem, paging.pm.frames, paging.pm.bitmap
      ensures paging.Valid() && Grew(old(paging.tables), old(paging.pm.Free()), paging.tables, paging.pm.Free())
      ensures !ok ==> paging.pm.Full()
      ensures var s := Space(SlotBase(k), physStack, physHeap);
              ok ==> && Owns(paging.mem[..], paging.root, paging.tables, paging.pm.Free(), s)
                     && (forall page :: IsPage(page) && !s.Has(page) ==> paging.Translate(page) == old(paging.Translate(page)))
                     && (forall page :: IsPage(page) && s.Has(page) ==> paging.CanWrite(page) == old(paging.UpperWritable(page)))
                     && (forall f :: f in FramesOf(s) ==> f < paging.mem.Length && paging.mem[f] == Zeros())
    {
      hide Owns, Walk, RegionMap, Tree, SlotBase, RegionOk, Grew, NoFit, FreeBelow, FramesOf, DataKeptBut, NoLargeUser, Upper;
      hide Writable, InRegion;
      ghost var m0, t0, f0 := paging.mem[..], paging.tables, paging.pm.Free();
      ghost var s := Space(SlotBase(k), physStack, physHeap);
      SlotRegions(k);
      SlotNoLarge(m0, paging.root, k);
      ok := paging.MapRegion(physStack, proc.stackBase, STACK_SIZE);
      if !ok { return; }
      RegionNoLarge(m0, paging.mem[..], paging.root, physStack, proc.stackBase, STACK_PAGES);
      SlotNoLarge(paging.mem[..], paging.root, k);
      ghost var m1, t1, f1 := paging.mem[..], paging.tables, paging.pm.Free();
      DataStays(t0, f0, t1, f1, physStack / PAGE_SIZE, STACK_PAGES);
      DataStays(t0, f0, t1, f1, physHeap / PAGE_SIZE, HEAP_PAGES);
      ok := paging.MapRegion(physHeap, proc.heapBase, HEAP_SIZE);
      GrewTwice(t0, f0, t1, f1, paging.tables, paging.pm.Free());
      if !ok { return; }
      DataStays(t1, f1, paging.tables, paging.pm.Free(), physStack / PAGE_SIZE, STACK_PAGES);
      DataStays(t1, f1, paging.tables, paging.pm.Free(), physHeap / PAGE_SIZE, HEAP_PAGES);
      BothZero(m1, paging.mem[..], paging.tables, paging.pm.Free(), s);
      OwnsFresh(m0, m1, paging.mem[..], paging.root, paging.tables, paging.pm.Free(), s, k);
    }

    /** Mapping the heap leaves the zeroed stack frames alone. */
    lemma BothZero(m: Frames, m': Frames, t: map<Path, nat>, free: set<nat>, s: Space)
      requires DataKeptBut(m, m', t, s.physHeap / PAGE_SIZE, HEAP_PAGES)
      requires Range(s.physStack / PAGE_SIZE, STACK_PAGES) !! Range(s.physHeap / PAGE_SIZE, HEAP_PAGES)
      requires ZeroData(m, t, free, s.physStack / PAGE_SIZE, STACK_PAGES) && ZeroData(m', t, free, s.physHeap / PAGE_SIZE, HEAP_PAGES)
      ensures forall f :: f in FramesOf(s) ==> f < |m'| && f !in t.Values && f !in free && m'[f] == Zeros()
    {
      forall f | f in FramesOf(s) ensures f < |m'| && f !in t.Values && f !in free && m'[f] == Zeros() {
        if f in Range(s.physStack / PAGE_SIZE, STACK_PAGES) {
          assert f !in Range(s.physHeap / PAGE_SIZE, HEAP_PAGES);
          assert f !in t.Values && f !in free;
          assert m'[f] == m[f];
        } else {
          assert f in Range(s.physHeap / PAGE_SIZE, HEAP_PAGES);
          assert f !in t.Values && f !in free;
        }
      }
    }

    ghost predicate ZeroData(m: Frames, t: map<Path, nat>, free: set<nat>, p: nat, n: nat) {
      p + n <= |m| && forall f :: p <= f < p + n ==> f !in t.Values && f !in free && m[f] == Zeros()
    }

    /** user_space_proc_kill: 0 and a zombie when the pid exists, 1 and no change otherwise. */
    method ProcKill(pid: nat) returns (code: nat)
      requires Books()
      modifies procs`state
      ensures Books()
      ensures code == 0 <==> 1 <= pid <= |procs|
      ensures code == 0 || code == 1
      ensures forall j :: 0 <= j < |procs| ==> procs[j].state == if procs[j].pid == pid then Zombie else old(procs[j].state)
    {
      hide SlotBase, Recorded;
      var proc := procList;
      ghost var i := 0;
      while proc != null
        invariant 0 <= i <= |procs| && proc == At(procs, i)
        invariant !(|procs| - i < pid <= |procs|)
        invariant Books()
        invariant forall j :: 0 <= j < |procs| ==> procs[j].state == old(procs[j].state)
        decreases |procs| - i
      {
        if proc.pid == pid {
          proc.state := Zombie;
          return 0;
        }
        proc := proc.next;
        i := i + 1;
      }
      code := 1;
    }

    /** user_space_schedule: the successor of the current process in the list, around the end. */
    method Schedule()
      requires Books()
      modifies this`procCurr, procs`state
      ensures Books()
      ensures procs == [] ==> procCurr == old(procCurr)
      ensures procs != [] ==> procCurr == procs[RoundRobin(old(Index()), |procs|)]
      ensures procs != [] ==> Index() == RoundRobin(old(Index()), |procs|)
      ensures forall p :: p in procs ==> p.state == if p == procCurr && old(p.state) == Ready then Running else old(p.state)
    {
      hide SlotBase, Recorded, Slots, Linked;
      if procList == null {
        HeadNull();
        return;
      }
      Advance();
      assert Books();
      if procCurr.state == Ready { procCurr.state := Running; }
    }

    lemma HeadNull()
      requires Linked()
      ensures procList == null <==> procs == []
    {
    }

    method Advance()
      requires Linked() && procList != null
      modifies this`procCurr
      ensures Linked() && procs != [] && procCurr == procs[RoundRobin(old(Index()), |procs|)]
      ensures Index() == RoundRobin(old(Index()), |procs|)
    {
      ghost var i := Index();
      if procCurr == null {
        procCurr := procList;
      } else {
        procCurr := procCurr.next;
        if procCurr == null { procCurr := procList; }
      }
      assert procCurr == procs[RoundRobin(i, |procs|)];
    }

    /** The position of the current process in the list; -1 before the first call. */
    ghost function Index(): (i: int)
      requires Linked()
      reads this`procList, this`procCurr, this`procs, procs`next, procs`prev
      ensures -1 <= i < |procs|
      ensures i == -1 <==> procCurr == null
      ensures i >= 0 ==> procs[i] == procCurr
    {
      if procCurr == null then -1
      else
        var i :| 0 <= i < |procs| && procs[i] == procCurr;
        i
    }

    lemma SlotOf(proc: Proc) returns (k: nat)
      requires Books() && proc in procs
      ensures proc.pid == k + 1 && k < |procs| && proc.stackBase == SlotBase(k) && SlotBase(k + 1) <= USER_TOP
      ensures proc.heapBase == SlotBase(k) + STACK_SIZE
    {
      hide Linked, Recorded, SlotBase;
      var i :| 0 <= i < |procs| && procs[i] == proc;
      SlotMonotone(|procs| - i, |procs|);
      k := |procs| - i - 1;
      PoolBoundsAddresses(|procs|);
    }

    method Prepend(proc: Proc)
      requires Linked() && proc !in procs && proc.next == null && proc.prev == null
      modifies this`procList, this`procs, procs, proc
      ensures Linked() && procs == [proc] + old(procs)
      ensures forall p :: p in procs ==> p.pid == old(p.pid) && p.stackBase == old(p.stackBase) && p.heapBase == old(p.heapBase)
                                         && p.Memory() == old(p.Memory()) && p.state == old(p.state)
                                         && p.name == old(p.name) && p.entryPoint == old(p.entryPoint)
    {
      ghost var olds := procs;
      proc.next := procList;
      if procList != null { procList.prev := proc; }
      procList := proc;
      procs := [proc] + olds;
      forall i | 0 <= i < |procs|
        ensures procs[i].next == At(procs, i + 1) && procs[i].prev == At(procs, i - 1)
      {
        if i > 0 {
          var p := olds[i - 1];
          assert p.next == old(p.next) == At(olds, i);
          assert i > 1 ==> p.prev == old(p.prev) == At(olds, i - 2);
        }
      }
    }
  }

  lemma SlotMonotone(j: nat, k: nat)
    requires j <= k
    ensures SlotBase(j) <= SlotBase(k)
  {
  }

  lemma GrewFree(t: map<Path, nat>, free: set<nat>, free': set<nat>)
    requires free' <= free
    ensures Grew(t, free, t, free')
  {
  }

  lemma NextSlot(k: nat)
    ensures SlotBase(k) == 0x4000_0000 + 0x1_4000 * k
    ensures SlotBase(k + 1) == SlotBase(k) + STACK_SIZE + HEAP_SIZE
  {
  }
}
