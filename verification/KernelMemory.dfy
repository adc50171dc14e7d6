/** core/kernel/mem/kernel_memory/kernel_memory.c: the kernel heap and its used-bytes counter. */
module KernelMemory {
  import opened Memory
  import opened Heap
  import opened Wrappers
  import opened HeapLaws

  // core/kernel/mem/mem.h: the arena is what is left of HEAP_SIZE after the slab, I/O and DMA areas.
  const HEAP_SIZE: nat := 1024 * 1024 * 32
  const OFFSET_SLAB_META: nat := 4096
  const OFFSET_SLAB_DATA: nat := OFFSET_SLAB_META + 4096
  const OFFSET_IO: nat := OFFSET_SLAB_DATA + 1024 * 1024 * 8
  const OFFSET_DMA: nat := OFFSET_IO + 1024 * 1024 * 4
  const OFFSET_HEAP: nat := OFFSET_DMA + 1024 * 1024 * 2
  const TOTAL_HEAP: nat := HEAP_SIZE - OFFSET_HEAP - HDR

  function Bytes(bs: seq<Block>, used: bool): nat {
    if bs == [] then 0
    else Bytes(bs[..|bs| - 1], used) + if bs[|bs| - 1].used == used then bs[|bs| - 1].size else 0
  }

  lemma {:induction false} BytesConcat(a: seq<Block>, b: seq<Block>, used: bool)
    ensures Bytes(a + b, used) == Bytes(a, used) + Bytes(b, used)
    decreases |b|
  {
    if b == [] {
      assert a + b == a;
    } else {
      assert (a + b)[..|a + b| - 1] == a + b[..|b| - 1];
      BytesConcat(a, b[..|b| - 1], used);
    }
  }

  lemma BytesAround(pre: seq<Block>, b: Block, post: seq<Block>, used: bool)
    ensures Bytes(pre + [b] + post, used) == Bytes(pre, used) + (if b.used == used then b.size else 0) + Bytes(post, used)
  {
    BytesConcat(pre + [b], post, used);
    assert (pre + [b])[..|pre|] == pre;
  }

  lemma BytesMarked(bs: seq<Block>, k: nat, mark: bool)
    requires k < |bs|
    ensures bs[k].used && !mark ==> Bytes(Marked(bs, k, mark), true) == Bytes(bs, true) - bs[k].size
    ensures !bs[k].used && mark ==> Bytes(Marked(bs, k, mark), true) == Bytes(bs, true) + bs[k].size
  {
    assert bs == bs[..k] + [bs[k]] + bs[k + 1..];
    assert Marked(bs, k, mark) == bs[..k] + [bs[k].(used := mark)] + bs[k + 1..];
    BytesAround(bs[..k], bs[k], bs[k + 1..], true);
    BytesAround(bs[..k], bs[k].(used := mark), bs[k + 1..], true);
  }

  lemma BytesJoined(bs: seq<Block>, i: nat)
    requires i + 1 < |bs| && !bs[i].used && !bs[i + 1].used
    ensures Bytes(Joined(bs, i), true) == Bytes(bs, true)
  {
    var pre, rest, post := bs[..i], bs[i + 1..], bs[i + 2..];
    assert Bytes([], true) == 0;
    hide Bytes;
    assert bs == pre + [bs[i]] + rest;
    assert rest == [] + [bs[i + 1]] + post;
    BytesAround(pre, bs[i], rest, true);
    BytesAround([], bs[i + 1], post, true);
    BytesAround(pre, Joined(bs, i)[i], post, true);
    assert Joined(bs, i) == pre + [Joined(bs, i)[i]] + post;
  }

  lemma BytesSplit(bs: seq<Block>, k: nat, size: nat)
    requires k < |bs| && !bs[k].used && Splits(bs[k], size)
    ensures Bytes(SplitAt(bs, k, size), true) == Bytes(bs, true)
  {
    var r := SplitAt(bs, k, size);
    assert bs == bs[..k] + [bs[k]] + bs[k + 1..];
    assert r == bs[..k] + [r[k]] + ([] + [r[k + 1]] + bs[k + 1..]);
    BytesAround(bs[..k], bs[k], bs[k + 1..], true);
    BytesAround(bs[..k], r[k], [] + [r[k + 1]] + bs[k + 1..], true);
    BytesAround([], r[k + 1], bs[k + 1..], true);
  }

  lemma {:induction false} BytesForward(bs: seq<Block>, k: nat)
    requires k < |bs| && !bs[k].used
    ensures Bytes(MergeForward(bs, k), true) == Bytes(bs, true) && !MergeForward(bs, k)[k].used
    decreases |bs|
  {
    if k + 1 < |bs| && !bs[k + 1].used {
      BytesJoined(bs, k);
      BytesForward(Joined(bs, k), k);
    }
  }

  lemma {:induction false} BytesBackward(bs: seq<Block>, k: nat)
    requires k < |bs| && !bs[k].used
    ensures Bytes(MergeBackward(bs, k), true) == Bytes(bs, true)
    decreases |bs|
  {
    if k > 0 && !bs[k - 1].used {
      BytesJoined(bs, k - 1);
      BytesBackward(Joined(bs, k - 1), k - 1);
    }
  }

  /** What free does to the used bytes: exactly the freed block's size goes. */
  lemma BytesFreed(bs: seq<Block>, ptr: nat)
    requires FindLive(bs, ptr).Some?
    ensures Bytes(FreeOn(bs, ptr), true) == Bytes(bs, true) - bs[FindLive(bs, ptr).value].size
  {
    var k := FindLive(bs, ptr).value;
    BytesMarked(bs, k, false);
    BytesForward(Marked(bs, k, false), k);
    BytesBackward(MergeForward(Marked(bs, k, false), k), k);
  }

  /** What malloc does to the used bytes: exactly the new block's size is added. */
  lemma BytesMalloced(bs: seq<Block>, k: nat, size: nat)
    requires k < |bs| && !bs[k].used
    ensures var r := Allocated(bs, k, size);
            && Bytes(r, true) == Bytes(bs, true) + r[k].size
            && |r| == |bs| + (if Splits(bs[k], size) then 1 else 0)
  {
    if Splits(bs[k], size) {
      BytesSplit(bs, k, size);
      BytesMarked(SplitAt(bs, k, size), k, true);
    } else {
      BytesMarked(bs, k, true);
    }
  }

  /** Used payloads, free payloads and headers fill the arena. */
  lemma {:induction false} BytesFillArena(bs: seq<Block>, start: nat, end: nat)
    requires Tiled(bs, start, end)
    ensures Bytes(bs, true) + Bytes(bs, false) + HDR * |bs| == end - start
    decreases |bs|
  {
    var n := |bs| - 1;
    if n > 0 {
      assert Tiled(bs[..n], start, bs[n].addr);
      BytesFillArena(bs[..n], start, bs[n].addr);
    } else {
      assert bs[..n] == [];
    }
  }

  // ---------- the accounting law ----------

  /** The counter after a run of live frees: used payload bytes, one header for every block but the first,
      and one more header for every past allocation that took a whole block. The counter is a u64. */
  function Ledger(bs: seq<Block>, wholes: nat): nat
    requires bs != []
  {
    (Bytes(bs, true) + HDR * (|bs| - 1) + HDR * wholes) % U64
  }

  /** kernel_memory_get_free_size for that counter. */
  function Reported(total: int, used: nat): nat { (total - used) % U64 }

  /** The reported free size is the free payload bytes less 40 for every past whole-block allocation, modulo 2^64. */
  lemma ReportedFree(bs: seq<Block>, start: nat, end: nat, wholes: nat)
    requires Tiled(bs, start, end)
    ensures Reported(end - start - HDR, Ledger(bs, wholes)) == (Bytes(bs, false) - HDR * wholes) % U64
  {
    BytesFillArena(bs, start, end);
    var u := Bytes(bs, true) + HDR * (|bs| - 1) + HDR * wholes;
    SubMod(end - start - HDR, u);
  }

  lemma SubMod(a: int, b: int)
    ensures (a - b % U64) % U64 == (a - b) % U64
  {
    var q := b / U64;
    assert b == q * U64 + b % U64;
    ModShift(a - b, q);
  }

  lemma {:induction false} ModShift(a: int, q: int)
    ensures (a + q * U64) % U64 == a % U64
    decreases if q < 0 then -q else q
  {
    if q > 0 { ModShift(a, q - 1); assert a + q * U64 == a + (q - 1) * U64 + U64; }
    if q < 0 { ModShift(a, q + 1); assert a + q * U64 == a + (q + 1) * U64 - U64; }
  }

  /** The reported free size is exact if and only if no whole-block allocation has happened,
      and it never overstates if and only if the drift is covered by the free bytes;
      beyond that the subtraction wraps and reports nearly 2^64 free bytes. */
  lemma ReportedFreeExact(bs: seq<Block>, start: nat, end: nat, wholes: nat)
    requires Tiled(bs, start, end) && end < U64 && HDR * wholes < U64
    ensures var shown := Reported(end - start - HDR, Ledger(bs, wholes));
            && (shown == Bytes(bs, false) <==> wholes == 0)
            && (shown <= Bytes(bs, false) <==> HDR * wholes <= Bytes(bs, false))
  {
    ReportedFree(bs, start, end, wholes);
    BytesFillArena(bs, start, end);
  }

  /** One whole-arena allocation on the fresh kernel heap: nothing is free, 2^64 - 40 bytes are reported free. */
  lemma WholeArenaUnderflows(start: nat)
    requires 0 < start
    ensures var bs := [Block(start, TOTAL_HEAP, false)];
            var (r, ptr) := MallocOn(bs, TOTAL_HEAP - 8);
            && ptr == start + HDR && |r| == 1
            && Bytes(r, false) == 0
            && Reported(TOTAL_HEAP, Ledger(r, 1)) == U64 - 40
  {
    var bs := [Block(start, TOTAL_HEAP, false)];
    assert Round16(TOTAL_HEAP - 8) == TOTAL_HEAP - 8;
    assert IsBestFit(bs, TOTAL_HEAP - 8, 0, 1);
    BestFitUnique(bs, TOTAL_HEAP - 8, 0);
    var r := [Block(start, TOTAL_HEAP, true)];
    assert MallocOn(bs, TOTAL_HEAP - 8).0 == r;
    assert r[..0] == [];
    assert Bytes(r[..0], true) == 0 && Bytes(r[..0], false) == 0;
    assert Bytes(r, true) == TOTAL_HEAP && Bytes(r, false) == 0;
  }

  lemma AddMod(a: int, b: int)
    ensures (a % U64 + b) % U64 == (a + b) % U64
  {
    assert a == a / U64 * U64 + a % U64;
    ModShift(a % U64 + b, a / U64);
  }

  /** malloc's block->size + 40 moves the ledger exactly. */
  lemma LedgerMalloc(bs: seq<Block>, size: nat, wholes: nat, k: nat)
    requires bs != [] && size != 0 && BestFit(bs, Round16(size)) == Some(k)
    ensures var r := MallocOn(bs, size).0;
            && k < |r|
            && Ledger(r, wholes + if |r| == |bs| then 1 else 0) == (Ledger(bs, wholes) + r[k].size + HDR) % U64
  {
    var s := Round16(size);
    assert Fits(bs[k], s);
    BytesMalloced(bs, k, s);
    var r := Allocated(bs, k, s);
    AddMod(Bytes(bs, true) + HDR * (|bs| - 1) + HDR * wholes, r[k].size + HDR);
  }

  /** free's block->size and its 40 for every merged header move the ledger exactly. */
  lemma LedgerFree(bs: seq<Block>, ptr: nat, wholes: nat)
    requires FindLive(bs, ptr).Some?
    ensures var r := FreeOn(bs, ptr);
            && r != []
            && Ledger(r, wholes)
               == ((Ledger(bs, wholes) - bs[FindLive(bs, ptr).value].size) % U64 - HDR * (|bs| - |r|)) % U64
  {
    var r := FreeOn(bs, ptr);
    var size: int := bs[FindLive(bs, ptr).value].size;
    BytesFreed(bs, ptr);
    MergedNonEmpty(bs, ptr);
    var u := Bytes(bs, true) + HDR * (|bs| - 1) + HDR * wholes;
    AddMod(u, -size);
    AddMod(u - size, 0 - HDR * (|bs| - |r|));
  }

  lemma {:induction false} BackwardNonEmpty(bs: seq<Block>, k: nat)
    requires k < |bs|
    ensures MergeBackward(bs, k) != []
    decreases |bs|
  {
    if k > 0 && !bs[k - 1].used { BackwardNonEmpty(Joined(bs, k - 1), k - 1); }
  }

  lemma MergedNonEmpty(bs: seq<Block>, ptr: nat)
    requires bs != []
    ensures FreeOn(bs, ptr) != []
  {
    var k := FindLive(bs, ptr);
    if k.Some? { BackwardNonEmpty(MergeForward(Marked(bs, k.value, false), k.value), k.value); }
  }

  /** The block that a successful malloc returns, by index. */
  lemma MallocIndex(bs: seq<Block>, size: nat) returns (k: nat)
    requires MallocOn(bs, size).1 != 0
    ensures size != 0 && BestFit(bs, Round16(size)) == Some(k)
    ensures k < |MallocOn(bs, size).0| && MallocOn(bs, size).0[k].Payload() == MallocOn(bs, size).1
  {
    k := BestFit(bs, Round16(size)).value;
    assert Fits(bs[k], Round16(size));
  }

  /** Freeing a pointer that is not live keeps the law exactly when the header in front of it reads size 0. */
  lemma DeadFreeLedger(bs: seq<Block>, wholes: nat, stale: nat)
    requires bs != [] && stale < U64
    ensures (Ledger(bs, wholes) - stale) % U64 == Ledger(bs, wholes) <==> stale == 0
  {
    var l := Ledger(bs, wholes);
    if stale > l {
      ModShift(l - stale + U64, -1);
    }
  }

  lemma NothingUsed(start: nat)
    ensures Ledger([Block(start, TOTAL_HEAP, false)], 0) == 0
  {
    var bs := [Block(start, TOTAL_HEAP, false)];
    assert bs[..0] == [];
    assert Bytes(bs, true) == 0;
  }

  lemma OnlyFree(start: nat)
    ensures FindLive([Block(start, TOTAL_HEAP, false)], start + HDR).None?
  {
  }

  lemma TwiceReported()
    ensures Reported(TOTAL_HEAP, (0 - TOTAL_HEAP) % U64) == 2 * TOTAL_HEAP
  {
  }

  /** A concrete double free on the fresh kernel heap: the header in front of the stale pointer reads the whole arena,
      and the report becomes twice the arena. */
  lemma DoubleFree(start: nat, m: seq<byte>)
    requires 0 < start && start + HDR + TOTAL_HEAP <= |m| && Represents(m, [Block(start, TOTAL_HEAP, false)])
    ensures var bs := [Block(start, TOTAL_HEAP, false)];
            var (r, ptr) := MallocOn(bs, 16);
            && ptr == start + HDR && FreeOn(r, ptr) == bs && FindLive(bs, ptr).None?
            && HeaderAt(m, ptr - HDR).size == TOTAL_HEAP
            && Reported(TOTAL_HEAP, (Ledger(bs, 0) - TOTAL_HEAP) % U64) == 2 * TOTAL_HEAP
  {
    var bs := [Block(start, TOTAL_HEAP, false)];
    assert Written(m, bs, 0);
    NothingUsed(start);
    hide HeaderAt, Ledger, FreeOn, MallocOn, FindLive, Represents, Bytes, Reported;
    TwiceReported();
    assert FindLive(bs, start + HDR).None? by { OnlyFree(start); }
    MallocThenFree(bs, start, start + HDR + TOTAL_HEAP, 16);
    FirstBlock(start, 16);
  }

  lemma MallocZero(bs: seq<Block>)
    ensures MallocOn(bs, 0) == (bs, 0)
  {
  }

  /** The block of a successful malloc holds the rounded size, was free before,
      and every block that was live before is live now. */
  lemma MallocRoom(bs: seq<Block>, size: nat, k: nat)
    requires size != 0 && BestFit(bs, Round16(size)) == Some(k)
    ensures var r := MallocOn(bs, size).0;
            k < |r| && r[k].size >= Round16(size) && UsedIn(bs, Marked(r, k, false))
  {
    var s := Round16(size);
    assert Fits(bs[k], s);
    var r := MallocOn(bs, size).0;
    UsedSplit(bs, k, s);
    var cut := if Splits(bs[k], s) then SplitAt(bs, k, s) else bs;
    assert Marked(r, k, false) == cut;
  }

  /** An allocation of count items of size bytes that succeeds holds them all if and only if neither the product
      nor its rounding wraps; beyond that the block is smaller than the items. */
  lemma ItemsFit(bs: seq<Block>, start: nat, end: nat, size: nat, count: nat)
    requires Shape(bs, start, end) && 0 < start && end <= U64 - 16
    requires MallocOn(bs, count * size % U64).1 != 0
    ensures var (r, ptr) := MallocOn(bs, count * size % U64);
            && FindLive(r, ptr).Some?
            && (r[FindLive(r, ptr).value].size >= count * size <==> count * size <= U64 - 16)
  {
    BlockHolds(bs, start, end, count * size % U64);
    WrapsPast(count * size);
  }

  lemma BlockHolds(bs: seq<Block>, start: nat, end: nat, total: nat)
    requires Shape(bs, start, end) && 0 < start && end <= U64 - 16 && total < U64
    requires MallocOn(bs, total).1 != 0
    ensures var (r, ptr) := MallocOn(bs, total);
            && FindLive(r, ptr).Some?
            && r[FindLive(r, ptr).value].size < U64 - 16
            && (total <= U64 - 16 ==> r[FindLive(r, ptr).value].size >= total)
  {
    var (r, ptr) := MallocOn(bs, total);
    MallocFresh(bs, start, end, total);
    MallocKeepsShape(bs, start, end, total);
    AllOrdered(r, start, end);
    RoundedCovers(total);
    hide MallocOn, Round16, Tiled;
  }

  lemma WrapsPast(n: nat)
    ensures n <= U64 - 16 ==> n % U64 == n
  {
  }

  /** A concrete wrap: 2^62 + 4 items of 4 bytes get a block of 16 bytes from the fresh kernel heap. */
  lemma WrappedItems(start: nat)
    requires 0 < start
    ensures var (r, ptr) := MallocOn([Block(start, TOTAL_HEAP, false)], (0x4000_0000_0000_0000 + 4) * 4 % U64);
            ptr == start + HDR && r[0] == Block(start, 16, true)
  {
    FirstBlock(start, 16);
  }

  /** A request of more than 2^64 - 16 bytes succeeds, with an empty block. */
  lemma HugeRequestSucceeds(start: nat)
    requires 0 < start
    ensures var (r, ptr) := MallocOn([Block(start, TOTAL_HEAP, false)], U64 - 1);
            ptr == start + HDR && r[0] == Block(start, 0, true)
  {
    FirstBlock(start, U64 - 1);
  }

  lemma FirstBlock(start: nat, size: nat)
    requires 0 < size && Round16(size) <= TOTAL_HEAP - HDR - 16
    ensures var (r, ptr) := MallocOn([Block(start, TOTAL_HEAP, false)], size);
            && ptr == start + HDR
            && r == [Block(start, Round16(size), true), Block(start + HDR + Round16(size), TOTAL_HEAP - Round16(size) - HDR, false)]
  {
    var bs := [Block(start, TOTAL_HEAP, false)];
    assert IsBestFit(bs, Round16(size), 0, 1);
    BestFitUnique(bs, Round16(size), 0);
  }

  /** Writing inside one payload touches no header and no other live payload. */
  lemma PayloadWrite(m: seq<byte>, m': seq<byte>, bs: seq<Block>, start: nat, end: nat, k: nat)
    requires Tiled(bs, start, end) && end <= |m| && k < |bs|
    requires Only(m, m', bs[k].Payload(), bs[k].End())
    ensures forall j :: 0 <= j < |bs| ==> HeaderAt(m', bs[j].addr) == HeaderAt(m, bs[j].addr)
    ensures PayloadsKept(Marked(bs, k, false), m, m')
  {
    TiledMarked(bs, start, end, k, false);
    FreePayloadWrite(m, m', Marked(bs, k, false), start, end, k);
    forall j | 0 <= j < |bs| ensures HeaderAt(m', bs[j].addr) == HeaderAt(m, bs[j].addr) {
      assert Marked(bs, k, false)[j].addr == bs[j].addr;
    }
  }

  lemma RepresentsSame(m: seq<byte>, m': seq<byte>, bs: seq<Block>)
    requires Represents(m, bs) && |m| == |m'|
    requires forall j :: 0 <= j < |bs| ==> HeaderAt(m', bs[j].addr) == HeaderAt(m, bs[j].addr)
    ensures Represents(m', bs)
  {
    forall j | 0 <= j < |bs| ensures Written(m', bs, j) { assert Written(m, bs, j); }
  }

  class KernelMemory {
    const heap: Heap
    const startSlabMeta: nat
    const startSlabData: nat
    const startIo: nat
    const startDma: nat
    const totalHeap: nat
    var usedHeap: nat
    ghost var wholes: nat   // successful allocations that did not split

    ghost predicate Valid()
      reads this, heap, heap.mem
    {
      && heap.Valid() && Shape(heap.blocks, heap.start, heap.end)
      && totalHeap == heap.end - heap.start - HDR
      && usedHeap < U64
    }

    ghost predicate Accounted()
      requires heap.blocks != []
      reads this, heap
    {
      usedHeap == Ledger(heap.blocks, wholes)
    }

    /** The counter has gone up from before by the size of the block at ptr and its header. */
    ghost predicate Charged(ptr: nat, before: nat)
      reads this, heap
    {
      exists k :: 0 <= k < |heap.blocks| && heap.blocks[k].addr + 40 == ptr && usedHeap == (before + heap.blocks[k].size + 40) % U64
    }

    /** kernel_memory_init, once its arguments are accepted, for the 32 MiB area at ptr: the four other areas follow
        the page of the header, and the heap arena is the rest. */
    constructor (mem: array<byte>, ptr: nat)
      requires 0 < ptr && ptr + HEAP_SIZE <= mem.Length < U64 - 16
      modifies mem
      ensures Valid() && Accounted() && wholes == 0
      ensures heap.mem == mem && fresh(heap) && totalHeap == TOTAL_HEAP && usedHeap == 0
      ensures heap.blocks == [Block(ptr + OFFSET_HEAP, TOTAL_HEAP, false)] && heap.end == ptr + HEAP_SIZE
      ensures startSlabMeta == ptr + 4096 && startSlabData == startSlabMeta + 4096
      ensures startIo == startSlabData + 0x80_0000 && startDma == startIo + 0x40_0000 && heap.start == startDma + 0x20_0000
      ensures Only(old(mem[..]), mem[..], heap.start, heap.start + HDR)
    {
      heap := new Heap(mem, ptr + OFFSET_HEAP, ptr + HEAP_SIZE);
      startSlabMeta, startSlabData := ptr + OFFSET_SLAB_META, ptr + OFFSET_SLAB_DATA;
      startIo, startDma := ptr + OFFSET_IO, ptr + OFFSET_DMA;
      totalHeap := TOTAL_HEAP;
      usedHeap := 0;
      wholes := 0;
      new;
      assert heap.blocks[..0] == [];
      assert Bytes(heap.blocks, true) == 0;
      assert Tiled(heap.blocks, heap.start, heap.end);
    }

    /** The counter update shared by kernel_memory_create and kernel_memory_alloc. */
    method Take(size: nat) returns (ptr: nat)
      requires Valid() && size < U64
      modifies this`usedHeap, this`wholes, heap`blocks, heap.mem
      ensures Valid() && (heap.blocks, ptr) == MallocOn(old(heap.blocks), size)
      ensures old(Accounted()) ==> Accounted()
      ensures wholes == old(wholes) + if ptr != 0 && |heap.blocks| == |old(heap.blocks)| then 1 else 0
      ensures ptr == 0 ==> usedHeap == old(usedHeap)
      ensures ptr != 0 ==> Charged(ptr, old(usedHeap))
      ensures PayloadsKept(old(heap.blocks), old(heap.mem[..]), heap.mem[..])
      ensures Only(old(heap.mem[..]), heap.mem[..], heap.start, heap.end)
    {
      hide Load, PayloadsKept, Tiled, Ledger;
      ghost var bs := heap.blocks;
      ptr := heap.Malloc(size);
      MallocKeepsShape(bs, heap.start, heap.end, size);
      MallocFails(bs, heap.start, heap.end, size);
      if ptr == 0 { return; }
      ghost var k := MallocIndex(bs, size);
      LedgerMalloc(bs, size, wholes, k);
      assert Written(heap.mem[..], heap.blocks, k);
      var block := HeaderAt(heap.mem[..], ptr - HDR);
      usedHeap := (usedHeap + block.size + HDR) % U64;
      if |heap.blocks| == |old(heap.blocks)| { wholes := wholes + 1; }
    }

    method Create(size: nat) returns (ptr: nat)
      requires Valid() && size < U64
      modifies this`usedHeap, this`wholes, heap`blocks, heap.mem
      ensures Valid() && (heap.blocks, ptr) == MallocOn(old(heap.blocks), size)
      ensures old(Accounted()) ==> Accounted()
      ensures wholes == old(wholes) + if ptr != 0 && |heap.blocks| == |old(heap.blocks)| then 1 else 0
      ensures ptr == 0 ==> usedHeap == old(usedHeap)
      ensures ptr != 0 ==> Charged(ptr, old(usedHeap))
      ensures PayloadsKept(old(heap.blocks), old(heap.mem[..]), heap.mem[..])
    {
      if size == 0 {
        PayloadsKeptRefl(heap.blocks, heap.mem[..]);
        return 0;
      }
      ptr := Take(size);
    }

    /** A zeroed array of count items. The product is a u64 and wraps; a wrapped product of more than
        2^64 - 16 would make memset run past the end of the payload. */
    method Alloc(size: nat, count: nat) returns (ptr: nat)
      requires Valid() && size < U64 && count < U64 && count * size % U64 <= U64 - 16
      modifies this`usedHeap, this`wholes, heap`blocks, heap.mem
      ensures Valid() && (heap.blocks, ptr) == MallocOn(old(heap.blocks), count * size % U64)
      ensures old(Accounted()) ==> Accounted()
      ensures wholes == old(wholes) + if ptr != 0 && |heap.blocks| == |old(heap.blocks)| then 1 else 0
      ensures ptr == 0 ==> usedHeap == old(usedHeap)
      ensures ptr != 0 ==> Charged(ptr, old(usedHeap))
      ensures ptr != 0 ==> ptr + count * size % U64 <= heap.end
      ensures ptr != 0 ==> forall x :: ptr <= x < ptr + count * size % U64 ==> heap.mem[x] == 0
      ensures PayloadsKept(old(heap.blocks), old(heap.mem[..]), heap.mem[..])
    {
      hide Load, PayloadsKept, Tiled, Ledger, HeaderAt, MallocOn;
      ghost var bs, m := heap.blocks, heap.mem[..];
      if size == 0 {
        PayloadsKeptRefl(heap.blocks, heap.mem[..]);
        MallocZero(bs);
        return 0;
      }
      var total := count * size % U64;
      ptr := Take(total);
      if ptr == 0 { return; }
      ghost var r, m1 := heap.blocks, heap.mem[..];
      ghost var k := MallocIndex(bs, total);
      RoundedCovers(total);
      MallocRoom(bs, total, k);
      AllOrdered(r, heap.start, heap.end);
      Memset(heap.mem, ptr, 0, total);
      PayloadWrite(m1, heap.mem[..], r, heap.start, heap.end, k);
      RepresentsSame(m1, heap.mem[..], r);
      PayloadsKeptTrans(bs, Marked(r, k, false), m, m1, heap.mem[..]);
    }

    /** kernel_memory_free: the counter is lowered by the size in the header before free looks at it,
        so a pointer that is not live lowers the counter although nothing is freed. */
    method FreePtr(ptr: nat)
      requires Valid()
      requires ptr == 0 || HDR <= ptr <= heap.mem.Length
      requires ptr == 0 || FindLive(heap.blocks, ptr).Some?
               || HeaderAt(heap.mem[..], ptr - HDR).magic != BLOCK_MAGIC || HeaderAt(heap.mem[..], ptr - HDR).used == 0
      modifies this`usedHeap, heap`blocks, heap.mem
      ensures Valid() && heap.blocks == FreeOn(old(heap.blocks), ptr)
      ensures FindLive(old(heap.blocks), ptr).Some? && old(Accounted()) ==> Accounted()
      ensures FindLive(old(heap.blocks), ptr).None? ==> heap.blocks == old(heap.blocks)
      ensures FindLive(old(heap.blocks), ptr).None? && ptr != 0 ==>
                usedHeap == (old(usedHeap) - HeaderAt(old(heap.mem[..]), ptr - HDR).size) % U64
      ensures var k, bs := FindLive(old(heap.blocks), ptr), old(heap.blocks);
              k.Some? ==> usedHeap == (old(usedHeap) - bs[k.value].size - 40 * (|bs| - |heap.blocks|)) % U64
      ensures ptr == 0 ==> usedHeap == old(usedHeap)
      ensures PayloadsKept(Dropped(old(heap.blocks), ptr), old(heap.mem[..]), heap.mem[..])
    {
      hide Load, PayloadsKept, Tiled, Ledger;
      ghost var bs := heap.blocks;
      assert FindLive(bs, ptr).None? ==> FreeOn(bs, ptr) == bs;
      hide FreeOn;
      FreeKeepsShape(bs, heap.start, heap.end, ptr);
      if ptr == 0 {
        NullNotLive(bs);
        PayloadsKeptRefl(Dropped(bs, ptr), heap.mem[..]);
        return;
      }
      ghost var live := FindLive(bs, ptr);
      if live.Some? {
        assert Written(heap.mem[..], bs, live.value);
        LedgerFree(bs, ptr, wholes);
        AddMod(usedHeap - bs[live.value].size, 0 - HDR * (|bs| - |FreeOn(bs, ptr)|));
      }
      hide Shape;
      usedHeap := (usedHeap - HeaderAt(heap.mem[..], ptr - HDR).size) % U64;
      var merged := heap.Free(ptr);
      usedHeap := (usedHeap - HDR * merged) % U64;
    }

    /** kernel_memory_get_free_size: while the counter is in step with the blocks, the free bytes less 40 for every
        past whole-block allocation; so exact if and only if there was none, and no overstatement if and only if
        the free bytes cover the drift. */
    method GetFreeSize() returns (n: nat)
      requires Valid()
      ensures n < U64 && (n + usedHeap) % U64 == totalHeap
      ensures heap.blocks != []
      ensures Accounted() ==> n == (Bytes(heap.blocks, false) - HDR * wholes) % U64
      ensures Accounted() && HDR * wholes < U64 ==>
                && (n == Bytes(heap.blocks, false) <==> wholes == 0)
                && (n <= Bytes(heap.blocks, false) <==> HDR * wholes <= Bytes(heap.blocks, false))
    {
      hide Ledger;
      n := (totalHeap - usedHeap) % U64;
      AddMod(totalHeap - usedHeap, usedHeap);
      ReportedFree(heap.blocks, heap.start, heap.end, wholes);
      if HDR * wholes < U64 { ReportedFreeExact(heap.blocks, heap.start, heap.end, wholes); }
    }
  }

  /** kernel_memory_init; null stands for its panic. The size is compared with one header only. */
  method KernelMemoryInit(mem: array<byte>, ptr: nat, size: nat) returns (k: KernelMemory?)
    requires 0 < ptr && HDR <= size ==> ptr + HEAP_SIZE <= mem.Length < U64 - 16
    modifies mem
    ensures k == null <==> ptr == 0 || size < HDR
    ensures k == null ==> mem[..] == old(mem[..])
    ensures k != null ==> k.Valid() && k.Accounted() && k.heap.mem == mem && k.heap.blocks == [Block(ptr + OFFSET_HEAP, TOTAL_HEAP, false)]
  {
    if ptr == 0 || size < HDR { return null; }
    k := new KernelMemory(mem, ptr);
  }
}
