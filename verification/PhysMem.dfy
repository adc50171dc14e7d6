/** core/kernel/mem/phys/physmem.c: the physical frame allocator. The addresses of its two tables are kept;
    the tables themselves are arrays beside the memory they describe. */
module PhysMem {
  import opened Arith
  import opened Memory
  import opened Bitmap

  const PAGE_SIZE: nat := 4096
  const FRAME_FREE: nat := 0
  const FRAME_USED: nat := 1
  const FRAME_KERNEL: nat := 2
  const FIRST_FRAME: nat := 512          // start_search
  const FRAME_BYTES: nat := 8            // sizeof(physmem_pageframe_t)

  datatype PageFrame = PageFrame(rc: nat, flags: nat)

  datatype EntryType = Usable | Reclaimable | Other
  datatype Entry = Entry(base: nat, length: nat, kind: EntryType) {
    function End(): nat { base + length }
    /** Frame f belongs to the entry as physmem_addr_mark counts frames. */
    predicate Covers(f: nat) { base / PAGE_SIZE <= f < End() / PAGE_SIZE }
  }

  // ---------- runs of free frames ----------

  ghost predicate FreeRun(bits: seq<bv8>, total: nat, s: nat, n: nat) {
    s + n <= total && forall f :: s <= f < s + n ==> !Test(bits, f)
  }

  /** s is the lowest start, at or above frame 512, of n free frames. */
  ghost predicate FirstFit(bits: seq<bv8>, total: nat, s: nat, n: nat) {
    FIRST_FRAME <= s && FreeRun(bits, total, s, n)
    && forall t :: FIRST_FRAME <= t < s ==> !FreeRun(bits, total, t, n)
  }

  ghost predicate NoFit(bits: seq<bv8>, total: nat, n: nat) {
    forall s :: FIRST_FRAME <= s ==> !FreeRun(bits, total, s, n)
  }

  ghost function FreeBelow(bits: seq<bv8>, n: nat): (r: set<nat>)
    ensures forall f: nat :: f in r <==> f < n && !Test(bits, f)
  {
    set f: nat | f < n && !Test(bits, f)
  }

  ghost function Range(lo: nat, n: nat): (r: set<nat>)
    ensures forall f: nat :: f in r <==> lo <= f < lo + n
  {
    if n == 0 then {} else Range(lo, n - 1) + {lo + n - 1}
  }

  lemma {:induction false} RangeSize(lo: nat, n: nat)
    ensures |Range(lo, n)| == n
    decreases n
  {
    if n > 0 { RangeSize(lo, n - 1); }
  }

  // ---------- the memory map at boot ----------

  /** What the boot protocol guarantees of its map: no entry reaches 2^64, usable entries are page-aligned
      and meet no other entry. */
  ghost predicate MapOk(mpr: seq<Entry>) {
    && (forall i :: 0 <= i < |mpr| ==> mpr[i].End() < U64)
    && (forall i :: 0 <= i < |mpr| && mpr[i].kind.Usable? ==> mpr[i].base % PAGE_SIZE == 0 && mpr[i].length % PAGE_SIZE == 0)
    && (forall i, j :: 0 <= i < |mpr| && 0 <= j < |mpr| && i != j && mpr[i].kind.Usable? ==>
                         mpr[j].length == 0 || mpr[i].End() <= mpr[j].base || mpr[j].End() <= mpr[i].base)
  }

  /** Frame f lies in usable memory. */
  ghost predicate InUsable(mpr: seq<Entry>, f: nat) {
    exists i :: 0 <= i < |mpr| && mpr[i].kind.Usable? && mpr[i].Covers(f)
  }

  /** What the marking pass leaves for frame f after the first n entries: the last covering entry decides. */
  ghost predicate MarkedUsed(mpr: seq<Entry>, f: nat, n: nat)
    requires n <= |mpr|
  {
    if n == 0 then true
    else if mpr[n - 1].Covers(f) then !mpr[n - 1].kind.Usable?
    else MarkedUsed(mpr, f, n - 1)
  }

  /** A covered frame ends inside the entry; in an aligned entry it also starts inside. */
  ghost predicate Covered(mpr: seq<Entry>, f: nat, n: nat)
    requires n <= |mpr|
  {
    n > 0 && (mpr[n - 1].Covers(f) || Covered(mpr, f, n - 1))
  }

  lemma FrameBounds(e: Entry, f: nat)
    ensures e.Covers(f) ==> e.base < (f + 1) * PAGE_SIZE <= e.End()
    ensures e.Covers(f) && e.base % PAGE_SIZE == 0 ==> e.base <= f * PAGE_SIZE
  {
  }

  /** Entries that share a frame, as frames are counted, share an address. */
  lemma CoversApart(mpr: seq<Entry>, f: nat, i: nat, j: nat)
    requires MapOk(mpr) && i < |mpr| && j < |mpr| && i != j
    requires mpr[i].kind.Usable? && mpr[i].Covers(f)
    ensures !mpr[j].Covers(f)
  {
    FrameBounds(mpr[i], f);
    FrameBounds(mpr[j], f);
  }

  /** Entry i is the last of the first n that covers frame f. */
  ghost predicate LastCover(mpr: seq<Entry>, f: nat, n: nat, i: int) {
    0 <= i < n <= |mpr| && mpr[i].Covers(f) && forall j :: i < j < n ==> !mpr[j].Covers(f)
  }

  /** Whatever overlaps: a frame is marked used when no entry covers it, or the last one that does is not usable. */
  lemma {:induction false} LastEntryDecides(mpr: seq<Entry>, f: nat, n: nat)
    requires n <= |mpr|
    ensures MarkedUsed(mpr, f, n) <==>
              (forall i :: 0 <= i < n ==> !mpr[i].Covers(f)) || exists i :: LastCover(mpr, f, n, i) && !mpr[i].kind.Usable?
    decreases n
  {
    if n > 0 {
      LastEntryDecides(mpr, f, n - 1);
      if mpr[n - 1].Covers(f) {
        assert LastCover(mpr, f, n, n - 1);
      } else {
        assert forall i :: LastCover(mpr, f, n, i) <==> LastCover(mpr, f, n - 1, i);
      }
    }
  }

  lemma {:induction false} MarkedExactly(mpr: seq<Entry>, f: nat, n: nat)
    requires MapOk(mpr) && n <= |mpr|
    ensures !MarkedUsed(mpr, f, n) <==> exists i :: 0 <= i < n && mpr[i].kind.Usable? && mpr[i].Covers(f)
    decreases n
  {
    if n > 0 {
      MarkedExactly(mpr, f, n - 1);
      if mpr[n - 1].Covers(f) && !mpr[n - 1].kind.Usable? {
        forall i | 0 <= i < n && mpr[i].kind.Usable? ensures !mpr[i].Covers(f) {
          if mpr[i].Covers(f) { CoversApart(mpr, f, i, n - 1); }
        }
      }
    }
  }

  lemma UnmarkedUsable(mpr: seq<Entry>, f: nat)
    requires MapOk(mpr)
    ensures !MarkedUsed(mpr, f, |mpr|) <==> InUsable(mpr, f)
  {
    MarkedExactly(mpr, f, |mpr|);
  }

  /** The end of the highest usable or reclaimable entry. */
  function Highest(mpr: seq<Entry>): (h: nat)
    ensures forall i :: 0 <= i < |mpr| && !mpr[i].kind.Other? ==> mpr[i].End() <= h
    ensures h == 0 || exists i :: 0 <= i < |mpr| && !mpr[i].kind.Other? && mpr[i].End() == h
  {
    if mpr == [] then 0
    else
      var n := |mpr| - 1;
      var h := Highest(mpr[..n]);
      assert forall i :: 0 <= i < n ==> mpr[i] == mpr[..n][i];
      if mpr[n].kind.Other? then h else Max(h, mpr[n].End())
  }

  predicate Hosts(e: Entry, size: nat, floor: nat) { e.kind.Usable? && e.length >= size && e.base >= floor }

  /** Entry j can hold the bytes and no entry from index i up to it can. */
  ghost predicate FirstHostAt(mpr: seq<Entry>, size: nat, floor: nat, i: nat, j: nat) {
    i <= j < |mpr| && Hosts(mpr[j], size, floor) && forall k :: i <= k < j ==> !Hosts(mpr[k], size, floor)
  }

  /** The base of the first entry from index i on that can hold size bytes at or above floor, or 0. */
  function FirstHost(mpr: seq<Entry>, size: nat, floor: nat, i: nat): (r: nat)
    requires i <= |mpr|
    ensures r != 0 ==> exists j :: i <= j < |mpr| && Hosts(mpr[j], size, floor) && mpr[j].base == r
    ensures if exists j :: i <= j < |mpr| && Hosts(mpr[j], size, floor)
            then exists j: nat :: FirstHostAt(mpr, size, floor, i, j) && mpr[j].base == r
            else r == 0
    decreases |mpr| - i
  {
    if i == |mpr| then 0
    else if Hosts(mpr[i], size, floor) then
      assert FirstHostAt(mpr, size, floor, i, i);
      mpr[i].base
    else
      var r := FirstHost(mpr, size, floor, i + 1);
      assert forall j: nat :: FirstHostAt(mpr, size, floor, i + 1, j) ==> FirstHostAt(mpr, size, floor, i, j);
      r
  }

  /** physmem_addr_get_tracking: above 16 MiB if possible, else above 1 MiB, else anywhere. */
  function Tracking(mpr: seq<Entry>, size: nat): (r: nat)
    ensures r != 0 ==> exists j :: 0 <= j < |mpr| && Hosts(mpr[j], size, 0) && mpr[j].base == r
  {
    if exists j :: 0 <= j < |mpr| && Hosts(mpr[j], size, 0x100_0000) then FirstHost(mpr, size, 0x100_0000, 0)
    else if exists j :: 0 <= j < |mpr| && Hosts(mpr[j], size, 0x10_0000) then FirstHost(mpr, size, 0x10_0000, 0)
    else FirstHost(mpr, size, 0, 0)
  }

  /** A host that begins at address 0 counts as none, so the allocator refuses a memory map with no other one. */
  lemma HostAtZeroRefused(length: nat, size: nat)
    requires size <= length
    ensures var mpr := [Entry(0, length, Usable)]; Hosts(mpr[0], size, 0) && Tracking(mpr, size) == 0
  {
  }

  method FindHighest(mpr: seq<Entry>) returns (highest: nat)
    ensures highest == Highest(mpr)
  {
    highest := 0;
    for i := 0 to |mpr|
      invariant highest == Highest(mpr[..i])
    {
      assert mpr[..i + 1][..i] == mpr[..i];
      if !mpr[i].kind.Other? && mpr[i].End() > highest { highest := mpr[i].End(); }
    }
    assert mpr[..|mpr|] == mpr;
  }

  method SearchHost(mpr: seq<Entry>, size: nat, floor: nat) returns (found: bool, base: nat)
    ensures found <==> exists j :: 0 <= j < |mpr| && Hosts(mpr[j], size, floor)
    ensures base == FirstHost(mpr, size, floor, 0)
  {
    for i := 0 to |mpr|
      invariant forall j :: 0 <= j < i ==> !Hosts(mpr[j], size, floor)
      invariant FirstHost(mpr, size, floor, 0) == FirstHost(mpr, size, floor, i)
    {
      if Hosts(mpr[i], size, floor) { return true, mpr[i].base; }
    }
    return false, 0;
  }

  /** The highest of the three floors above which some entry can hold the bytes. */
  ghost predicate BestFloor(mpr: seq<Entry>, size: nat, floor: nat) {
    && (floor == 0x100_0000 || floor == 0x10_0000 || floor == 0)
    && (exists j :: 0 <= j < |mpr| && Hosts(mpr[j], size, floor))
    && (forall j :: 0 <= j < |mpr| && Hosts(mpr[j], size, 0x100_0000) ==> floor == 0x100_0000)
    && (forall j :: 0 <= j < |mpr| && Hosts(mpr[j], size, 0x10_0000) ==> floor >= 0x10_0000)
  }

  method AddrGetTracking(mpr: seq<Entry>, size: nat) returns (addr: nat)
    ensures addr == Tracking(mpr, size)
    ensures if forall j :: 0 <= j < |mpr| ==> !Hosts(mpr[j], size, 0) then addr == 0
            else exists floor: nat, j: nat :: BestFloor(mpr, size, floor) && FirstHostAt(mpr, size, floor, 0, j) && mpr[j].base == addr
  {
    var found;
    found, addr := SearchHost(mpr, size, 0x100_0000);
    if found { return; }
    found, addr := SearchHost(mpr, size, 0x10_0000);
    if found { return; }
    found, addr := SearchHost(mpr, size, 0);
  }

  /** used_bytes_to_frame_count */
  function FrameCount(size: nat): nat { (size + PAGE_SIZE - 1) / PAGE_SIZE }

  function TableBytes(total: nat): nat { total * FRAME_BYTES + (total + 7) / 8 }

  /** The frames that hold size bytes from a frame's start on: enough, and not one more. */
  lemma FramesHold(size: nat)
    ensures size <= FrameCount(size) * 4096 < size + 4096
  {
  }

  /** The records of the frames from lo to hi - 1 become r; the others stay. */
  ghost predicate Recorded(was: seq<PageFrame>, now: seq<PageFrame>, lo: nat, hi: nat, r: PageFrame) {
    |now| == |was| && forall f :: 0 <= f < |was| ==> now[f] == if lo <= f < hi then r else was[f]
  }

  class PhysMem {
    var frames: array<PageFrame>
    var bitmap: array<bv8>
    var total: nat
    ghost var metaStart: nat      // the frames that hold the two tables
    ghost var metaCount: nat

    ghost predicate Valid()
      reads this, frames, bitmap
    {
      && frames as object != bitmap as object
      && frames.Length == total && bitmap.Length == (total + 7) / 8
      && total * PAGE_SIZE < U64
      && (forall f: nat :: f < total && !Test(bitmap[..], f) ==> frames[f] == PageFrame(0, FRAME_FREE))
      && forall f :: metaStart <= f < metaStart + metaCount && f < total ==> Test(bitmap[..], f)
    }

    ghost function Free(): set<nat>
      reads this, bitmap
    {
      FreeBelow(bitmap[..], total)
    }

    /** Not one frame can be allocated. */
    ghost predicate Full()
      reads this, bitmap
    {
      NoFit(bitmap[..], total, 1)
    }

    /** The loop bodies of the marking functions: set here, clear below. */
    method SetFrame(f: nat, flags: nat)
      requires Valid() && f < total
      modifies frames, bitmap
      ensures Valid()
      ensures forall g: nat :: g < total ==> Test(bitmap[..], g) == (g == f || Test(old(bitmap[..]), g))
      ensures frames[..] == old(frames[..])[f := PageFrame(1, flags)]
    {
      hide Test;
      frames[f] := PageFrame(1, flags);
      BitmapSet(bitmap, f);
    }

    method ClearFrame(f: nat)
      requires Valid() && f < total && !(metaStart <= f < metaStart + metaCount)
      modifies frames, bitmap
      ensures Valid()
      ensures forall g: nat :: g < total ==> Test(bitmap[..], g) == (g != f && Test(old(bitmap[..]), g))
      ensures frames[..] == old(frames[..])[f := PageFrame(0, 0)]
    {
      hide Test;
      frames[f] := PageFrame(0, FRAME_FREE);
      BitmapClear(bitmap, f);
    }

    method MarkUsed(addr: nat, count: nat)
      requires Valid() && addr < U64 && count < U64
      modifies frames, bitmap
      ensures Valid()
      ensures var lo := addr / PAGE_SIZE; var hi := (lo + count) % U64;
              && (forall f: nat :: f < total ==> Test(bitmap[..], f) == (lo <= f < hi || Test(old(bitmap[..]), f)))
              && Recorded(old(frames[..]), frames[..], lo, hi, PageFrame(1, 1))
    {
      hide Test;
      var lo := addr / PAGE_SIZE;
      var hi := (lo + count) % U64;
      if hi > total { hi := total; }
      var f := lo;
      while f < hi
        invariant lo <= f && (f <= hi || f == lo)
        invariant Valid()
        invariant forall g: nat :: g < total ==> Test(bitmap[..], g) == (lo <= g < f || Test(old(bitmap[..]), g))
        invariant Recorded(old(frames[..]), frames[..], lo, f, PageFrame(1, 1))
      {
        SetFrame(f, FRAME_USED);
        f := f + 1;
      }
    }

    method MarkFree(addr: nat, count: nat)
      requires Valid() && addr < U64 && count < U64
      requires var lo := addr / PAGE_SIZE; lo + count <= metaStart || metaStart + metaCount <= lo
      modifies frames, bitmap
      ensures Valid()
      ensures var lo := addr / PAGE_SIZE; var hi := (lo + count) % U64;
              && (forall f: nat :: f < total ==> Test(bitmap[..], f) == (!(lo <= f < hi) && Test(old(bitmap[..]), f)))
              && Recorded(old(frames[..]), frames[..], lo, hi, PageFrame(0, 0))
    {
      hide Test;
      var lo := addr / PAGE_SIZE;
      var hi := (lo + count) % U64;
      if hi > total { hi := total; }
      var f := lo;
      while f < hi
        invariant lo <= f && (f <= hi || f == lo)
        invariant Valid()
        invariant forall g: nat :: g < total ==> Test(bitmap[..], g) == (!(lo <= g < f) && Test(old(bitmap[..]), g))
        invariant Recorded(old(frames[..]), frames[..], lo, f, PageFrame(0, 0))
      {
        ClearFrame(f);
        f := f + 1;
      }
    }

    /** physmem_alloc_to: the lowest fitting run at or above frame 512, or 0. */
    method AllocTo(count: nat) returns (addr: nat)
      requires Valid() && count < U64
      modifies frames, bitmap
      ensures Valid()
      ensures addr == 0 <==> count == 0 || NoFit(old(bitmap[..]), total, count)
      ensures addr == 0 ==> bitmap[..] == old(bitmap[..])
      ensures addr != 0 ==> addr % PAGE_SIZE == 0 && FirstFit(old(bitmap[..]), total, addr / PAGE_SIZE, count)
      ensures addr != 0 ==> Free() == old(Free()) - Range(addr / PAGE_SIZE, count)
      ensures addr != 0 ==> addr >= 0x20_0000
      ensures addr != 0 ==> Recorded(old(frames[..]), frames[..], addr / PAGE_SIZE, addr / PAGE_SIZE + count, PageFrame(1, 1))
      ensures addr == 0 ==> frames[..] == old(frames[..])
    {
      hide Test;
      if count == 0 { return 0; }
      var consecutive, startFrame, allFree := 0, 0, false;
      var frame := FIRST_FRAME;
      while frame < total
        invariant FIRST_FRAME <= frame && 0 <= consecutive < count
        invariant consecutive <= frame - FIRST_FRAME
        invariant consecutive > 0 ==> startFrame == frame - consecutive
        invariant consecutive > 0 ==> FreeRun(bitmap[..], total, startFrame, consecutive)
        invariant forall t :: FIRST_FRAME <= t < frame - consecutive ==> !FreeRun(bitmap[..], total, t, count)
        invariant !allFree
      {
        if !Test(bitmap[..], frame) {
          if consecutive == 0 { startFrame := frame; }
          consecutive := consecutive + 1;
          if consecutive >= count {
            allFree := true;
            break;
          }
        } else {
          consecutive := 0;
        }
        frame := frame + 1;
      }
      if allFree {
        assert FirstFit(bitmap[..], total, startFrame, count);
        addr := startFrame * PAGE_SIZE;
        MarkUsed(addr, count);
        return;
      }
      return 0;
    }

    /** physmem_free_to */
    method FreeTo(addr: nat, count: nat)
      requires Valid() && addr < U64 && count < U64
      requires var lo := addr / PAGE_SIZE; lo + count <= metaStart || metaStart + metaCount <= lo
      modifies frames, bitmap
      ensures Valid()
      ensures var lo := addr / PAGE_SIZE;
              && (lo + count <= total ==> Free() == old(Free()) + Range(lo, count))
              && (lo + count < U64 ==> forall f: nat :: f in Free() <==> f < total && (f in old(Free()) || lo <= f < lo + count))
              && (lo + count < U64 ==> Recorded(old(frames[..]), frames[..], lo, lo + count, PageFrame(0, 0)))
    {
      hide Test;
      if count == 0 {
        assert Range(addr / PAGE_SIZE, 0) == {};
        return;
      }
      MarkFree(addr, count);
    }

    /** physmem_free_get */
    method FreeGet() returns (count: nat)
      requires Valid()
      ensures count == |Free()|
    {
      hide Test;
      count := 0;
      for frame := 0 to total
        invariant count == |FreeBelow(bitmap[..], frame)|
      {
        assert FreeBelow(bitmap[..], frame + 1)
            == FreeBelow(bitmap[..], frame) + if Test(bitmap[..], frame) then {} else {frame};
        if !Test(bitmap[..], frame) { count := count + 1; }
      }
      assert FreeBelow(bitmap[..], 0) == {};
    }

    /** The frames that the first n entries cover are recorded as the last such entry says: used by the kernel, or free. */
    ghost predicate MapRecorded(mpr: seq<Entry>, n: nat)
      requires n <= |mpr|
      reads this, frames
    {
      forall f: nat :: f < total && f < frames.Length && Covered(mpr, f, n) ==>
                         frames[f] == if MarkedUsed(mpr, f, n) then PageFrame(1, 3) else PageFrame(0, 0)
    }

    /** physmem_addr_mark */
    method MarkMap(mpr: seq<Entry>)
      requires Valid() && metaCount == 0 && forall i :: 0 <= i < |mpr| ==> mpr[i].End() < U64
      requires forall f: nat :: f < total ==> Test(bitmap[..], f)
      modifies frames, bitmap
      ensures Valid()
      ensures forall f: nat :: f < total ==> Test(bitmap[..], f) == MarkedUsed(mpr, f, |mpr|)
      ensures MapRecorded(mpr, |mpr|)
    {
      hide Test;
      for i := 0 to |mpr|
        invariant Valid()
        invariant forall f: nat :: f < total ==> Test(bitmap[..], f) == MarkedUsed(mpr, f, i)
        invariant MapRecorded(mpr, i)
      {
        var entry := mpr[i];
        var lo, hi := entry.base / PAGE_SIZE, entry.End() / PAGE_SIZE;
        if lo < total {
          if hi > total { hi := total; }
          var f := lo;
          while f < hi
            invariant lo <= f && (f <= hi || f == lo) && Valid()
            invariant forall g: nat :: g < total ==>
                        Test(bitmap[..], g) == if lo <= g < f then !entry.kind.Usable? else MarkedUsed(mpr, g, i)
            invariant forall g: nat :: g < total && lo <= g < f ==>
                        frames[g] == if entry.kind.Usable? then PageFrame(0, 0) else PageFrame(1, 3)
            invariant forall g: nat :: g < total && !(lo <= g < f) && Covered(mpr, g, i) ==>
                        frames[g] == if MarkedUsed(mpr, g, i) then PageFrame(1, 3) else PageFrame(0, 0)
          {
            if entry.kind.Usable? {
              ClearFrame(f);
            } else {
              SetFrame(f, FRAME_USED + FRAME_KERNEL);
            }
            f := f + 1;
          }
        }
      }
    }

    /** physmem_init, lines 126-131: both tables in place, every bit set. */
    method PlaceTables()
      requires total * PAGE_SIZE < U64
      modifies this
      ensures Valid() && total == old(total) && metaCount == 0
      ensures fresh(frames) && fresh(bitmap)
      ensures forall f: nat :: f < total ==> Test(bitmap[..], f)
    {
      frames := new PageFrame[total];
      bitmap := new bv8[(total + 7) / 8](_ => 0xFF);
      metaStart, metaCount := 0, 0;
      AllSet(bitmap[..]);
    }

    /** physmem_init; a false result stands for its panic when no usable entry can hold the tables. */
    method Init(mpr: seq<Entry>) returns (ok: bool)
      requires MapOk(mpr)
      modifies this
      ensures total == Highest(mpr) / PAGE_SIZE
      ensures var size := total * 8 + (total + 7) / 8;
              var addr := Tracking(mpr, size);
              && (ok <==> addr != 0)
              && (ok ==> forall a: nat :: addr <= a < addr + size ==> a / 4096 !in Free())
              && (ok ==> metaStart * 4096 == addr && size <= metaCount * 4096 < size + 4096)
      ensures ok ==> forall f :: metaStart <= f < metaStart + metaCount ==> f < frames.Length && frames[f] == PageFrame(1, 1)
      ensures ok ==> Valid() && fresh(frames) && fresh(bitmap)
      ensures ok ==> forall f :: metaStart <= f < metaStart + metaCount ==> InUsable(mpr, f)
      ensures ok ==> forall f: nat :: f in Free() <==> InUsable(mpr, f) && !(metaStart <= f < metaStart + metaCount)
    {
      hide MapOk, Highest, Tracking, InUsable, TableBytes, FrameCount, Recorded;
      var highest := FindHighest(mpr);
      total := highest / PAGE_SIZE;
      TableBytesAre(total);
      var size := TableBytes(total);
      hide FirstHostAt, BestFloor, Hosts;
      var addr := AddrGetTracking(mpr, size);
      if addr == 0 { return false; }
      MetaInUsable(mpr, addr, size);
      FramesHold(size);
      TableFrames(addr, size);
      Bootstrap(mpr, addr, size);
      ok := true;
    }

    /** Lines 126-134 of physmem_init. */
    method Bootstrap(mpr: seq<Entry>, addr: nat, size: nat)
      requires MapOk(mpr) && total == Highest(mpr) / PAGE_SIZE && addr < U64
      requires addr / PAGE_SIZE + FrameCount(size) <= total
      modifies this
      ensures Valid() && fresh(frames) && fresh(bitmap) && total == old(total)
      ensures metaStart == addr / PAGE_SIZE && metaCount == FrameCount(size)
      ensures forall f :: metaStart <= f < metaStart + metaCount ==> f < frames.Length && frames[f] == PageFrame(1, 1)
      ensures forall f: nat :: f in Free() <==> InUsable(mpr, f) && !(metaStart <= f < metaStart + metaCount)
    {
      hide Test, InUsable, MarkedUsed, MapOk, FrameCount, Highest, Covered;
      NoWrap(mpr);
      HighestBound(mpr);
      PlaceTables();
      MarkMap(mpr);
      var toUsed := FrameCount(size);
      MarkUsed(addr, toUsed);
      metaStart, metaCount := addr / PAGE_SIZE, toUsed;
      forall f: nat ensures f in Free() <==> InUsable(mpr, f) && !(metaStart <= f < metaStart + metaCount) {
        UnmarkedUsable(mpr, f);
        UsableBelowTotal(mpr, f);
      }
    }
  }

  /** The two tables take 8 bytes and one bit for each frame. */
  lemma TableBytesAre(total: nat)
    ensures TableBytes(total) == total * 8 + (total + 7) / 8
  {
  }

  lemma NoWrap(mpr: seq<Entry>)
    requires MapOk(mpr)
    ensures forall i :: 0 <= i < |mpr| ==> mpr[i].End() < U64
  {
  }

  lemma HighestBound(mpr: seq<Entry>)
    requires MapOk(mpr)
    ensures Highest(mpr) / PAGE_SIZE * PAGE_SIZE < U64
  {
  }

  lemma AllSet(bits: seq<bv8>)
    requires forall i :: 0 <= i < |bits| ==> bits[i] == 0xFF
    ensures forall f: nat :: f / 8 < |bits| ==> Test(bits, f)
  {
  }

  lemma UsableBelowTotal(mpr: seq<Entry>, f: nat)
    ensures InUsable(mpr, f) ==> f < Highest(mpr) / PAGE_SIZE
  {
  }

  lemma CeilFits(base: nat, length: nat, size: nat)
    requires base % PAGE_SIZE == 0 && length % PAGE_SIZE == 0 && size <= length
    ensures base / PAGE_SIZE + FrameCount(size) <= (base + length) / PAGE_SIZE
  {
    var b, l := base / PAGE_SIZE, length / PAGE_SIZE;
    assert base + length == (b + l) * PAGE_SIZE;
  }

  /** The frames of the two tables all lie in the usable entry that was chosen for them. */
  /** Every byte of the tables lies in one of the frames counted for them. */
  lemma TableFrames(addr: nat, size: nat)
    requires addr % PAGE_SIZE == 0
    ensures forall a: nat :: addr <= a < addr + size ==> addr / PAGE_SIZE <= a / PAGE_SIZE < addr / PAGE_SIZE + FrameCount(size)
  {
    FramesHold(size);
    hide FrameCount;
    forall a: nat | addr <= a < addr + size ensures addr / PAGE_SIZE <= a / PAGE_SIZE < addr / PAGE_SIZE + FrameCount(size) {
      assert a < (addr / PAGE_SIZE + FrameCount(size)) * PAGE_SIZE;
    }
  }

  lemma MetaInUsable(mpr: seq<Entry>, addr: nat, size: nat)
    requires MapOk(mpr) && addr != 0 && addr == Tracking(mpr, size)
    ensures addr < U64 && addr % PAGE_SIZE == 0 && addr / PAGE_SIZE + FrameCount(size) <= Highest(mpr) / PAGE_SIZE
    ensures forall f :: addr / PAGE_SIZE <= f < addr / PAGE_SIZE + FrameCount(size) ==> InUsable(mpr, f)
  {
    hide FrameCount, FirstHost, Highest;
    var j :| 0 <= j < |mpr| && Hosts(mpr[j], size, 0) && mpr[j].base == addr;
    CeilFits(addr, mpr[j].length, size);
    assert mpr[j].End() <= Highest(mpr);
    forall f | addr / PAGE_SIZE <= f < addr / PAGE_SIZE + FrameCount(size) ensures InUsable(mpr, f) {
      assert mpr[j].Covers(f);
    }
  }
}
