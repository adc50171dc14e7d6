/** core/kernel/mem/heap/heap.c: a best-fit allocator over a doubly linked list of blocks
    whose headers live inside the arena they describe. */
module Heap {
  import opened Memory
  import opened Wrappers

  const BLOCK_MAGIC: nat := 0xDEADBEEF
  const HDR: nat := 40                    // sizeof(heap_block_t)
  // Field offsets inside a header: magic is 4 bytes, used is 1 byte, the others 8.
  const SIZE_AT: nat := 8
  const NEXT_AT: nat := 16
  const PREV_AT: nat := 24
  const USED_AT: nat := 32

  datatype Block = Block(addr: nat, size: nat, used: bool) {
    function Payload(): nat { addr + HDR }
    function End(): nat { addr + HDR + size }
  }

  // ---------- the block list as a value ----------

  /** The blocks lie one after the other and fill [start, end) exactly. */
  ghost predicate Tiled(bs: seq<Block>, start: nat, end: nat) {
    && |bs| > 0
    && bs[0].addr == start
    && (forall i :: 0 <= i < |bs| - 1 ==> bs[i].End() == bs[i + 1].addr)
    && bs[|bs| - 1].End() == end
  }

  ghost predicate NoAdjacentFree(bs: seq<Block>) {
    forall i :: 0 <= i < |bs| - 1 ==> bs[i].used || bs[i + 1].used
  }

  function Round16(size: nat): nat {
    (size + 15) % U64 / 16 * 16
  }

  predicate Fits(b: Block, size: nat) { !b.used && b.size >= size }

  /** Among the first n blocks, block k is the first of the smallest free ones that hold size bytes. */
  ghost predicate IsBestFit(bs: seq<Block>, size: nat, k: nat, n: nat) {
    && k < n <= |bs| && Fits(bs[k], size)
    && (forall j :: 0 <= j < n && Fits(bs[j], size) ==> bs[k].size <= bs[j].size)
    && (forall j :: 0 <= j < k && Fits(bs[j], size) ==> bs[k].size < bs[j].size)
  }

  function BestFitIn(bs: seq<Block>, size: nat, n: nat): (r: Option<nat>)
    requires n <= |bs|
    ensures r.None? ==> forall j :: 0 <= j < n ==> !Fits(bs[j], size)
    ensures r.Some? ==> IsBestFit(bs, size, r.value, n)
  {
    if n == 0 then None
    else
      var r := BestFitIn(bs, size, n - 1);
      if Fits(bs[n - 1], size) && (r.None? || bs[n - 1].size < bs[r.value].size) then Some(n - 1) else r
  }

  function BestFit(bs: seq<Block>, size: nat): (r: Option<nat>)
    ensures r.None? ==> forall j :: 0 <= j < |bs| ==> !Fits(bs[j], size)
    ensures r.Some? ==> IsBestFit(bs, size, r.value, |bs|)
  {
    BestFitIn(bs, size, |bs|)
  }

  predicate Splits(b: Block, size: nat) { b.size >= size + HDR + 16 }

  function Marked(bs: seq<Block>, k: nat, used: bool): seq<Block>
    requires k < |bs|
  {
    bs[k := bs[k].(used := used)]
  }

  /** Block k keeps size bytes; the rest becomes a new block after it. */
  function SplitAt(bs: seq<Block>, k: nat, size: nat): (r: seq<Block>)
    requires k < |bs| && Splits(bs[k], size)
    ensures |r| == |bs| + 1
  {
    bs[..k] + [bs[k].(size := size), Block(bs[k].addr + HDR + size, bs[k].size - size - HDR, false)] + bs[k + 1..]
  }

  function Allocated(bs: seq<Block>, k: nat, size: nat): seq<Block>
    requires k < |bs|
  {
    Marked(if Splits(bs[k], size) then SplitAt(bs, k, size) else bs, k, true)
  }

  /** Block i absorbs block i + 1. */
  function Joined(bs: seq<Block>, i: nat): (r: seq<Block>)
    requires i + 1 < |bs|
    ensures |r| == |bs| - 1
  {
    bs[..i] + [Block(bs[i].addr, bs[i].size + HDR + bs[i + 1].size, bs[i].used)] + bs[i + 2..]
  }

  function MergeForward(bs: seq<Block>, k: nat): (r: seq<Block>)
    requires k < |bs|
    ensures k < |r| <= |bs|
    decreases |bs|
  {
    if k + 1 < |bs| && !bs[k + 1].used then MergeForward(Joined(bs, k), k) else bs
  }

  function MergeBackward(bs: seq<Block>, k: nat): (r: seq<Block>)
    requires k < |bs|
    ensures |r| <= |bs|
    decreases |bs|
  {
    if k > 0 && !bs[k - 1].used then MergeBackward(Joined(bs, k - 1), k - 1) else bs
  }

  function Merged(bs: seq<Block>, k: nat): (r: seq<Block>)
    requires k < |bs|
    ensures |r| <= |bs|
  {
    MergeBackward(MergeForward(bs, k), k)
  }

  function Released(bs: seq<Block>, k: nat): (r: seq<Block>)
    requires k < |bs|
    ensures |r| <= |bs|
  {
    Merged(Marked(bs, k, false), k)
  }

  /** The used block whose payload starts at ptr. */
  function FindLive(bs: seq<Block>, ptr: nat): (r: Option<nat>)
    ensures r.Some? ==> r.value < |bs| && bs[r.value].used && bs[r.value].Payload() == ptr
    ensures r.None? ==> forall j :: 0 <= j < |bs| && bs[j].used ==> bs[j].Payload() != ptr
  {
    if bs == [] then None
    else if bs[|bs| - 1].used && bs[|bs| - 1].Payload() == ptr then Some(|bs| - 1)
    else FindLive(bs[..|bs| - 1], ptr)
  }

  /** malloc on the block list: the new list and the returned pointer. */
  function MallocOn(bs: seq<Block>, size: nat): (seq<Block>, nat) {
    if size == 0 then (bs, 0)
    else match BestFit(bs, Round16(size))
      case None => (bs, 0)
      case Some(k) => (Allocated(bs, k, Round16(size)), bs[k].Payload())
  }

  /** The list with the block at ptr marked free, nothing merged yet. */
  function Dropped(bs: seq<Block>, ptr: nat): seq<Block> {
    match FindLive(bs, ptr)
    case None => bs
    case Some(k) => Marked(bs, k, false)
  }

  /** free on the block list; a pointer to no live payload changes nothing. */
  function FreeOn(bs: seq<Block>, ptr: nat): (r: seq<Block>)
    ensures |r| <= |bs|
  {
    match FindLive(bs, ptr)
    case None => bs
    case Some(k) => Released(bs, k)
  }

  lemma {:induction false} Ordered(bs: seq<Block>, start: nat, end: nat, i: nat, j: nat)
    requires Tiled(bs, start, end) && i < j < |bs|
    ensures bs[i].End() <= bs[j].addr
    decreases j
  {
    if i + 1 < j { Ordered(bs, start, end, i, j - 1); }
  }

  lemma AllOrdered(bs: seq<Block>, start: nat, end: nat)
    requires Tiled(bs, start, end)
    ensures forall i, j :: 0 <= i < j < |bs| ==> bs[i].End() <= bs[j].addr
    ensures forall i :: 0 <= i < |bs| ==> start <= bs[i].addr && bs[i].End() <= end
  {
    forall i, j | 0 <= i < j < |bs| ensures bs[i].End() <= bs[j].addr {
      Ordered(bs, start, end, i, j);
    }
    forall i | 0 <= i < |bs| ensures start <= bs[i].addr && bs[i].End() <= end {
      if i > 0 { Ordered(bs, start, end, 0, i); }
      if i < |bs| - 1 { Ordered(bs, start, end, i, |bs| - 1); }
    }
  }

  lemma TiledJoined(bs: seq<Block>, start: nat, end: nat, i: nat)
    requires Tiled(bs, start, end) && i + 1 < |bs|
    ensures Tiled(Joined(bs, i), start, end)
  {
    var r := Joined(bs, i);
    forall j | 0 <= j < |r| - 1 ensures r[j].End() == r[j + 1].addr {
      if j < i { assert r[j] == bs[j]; } else if j > i { assert r[j] == bs[j + 1]; }
      if j + 1 < i { assert r[j + 1] == bs[j + 1]; } else if j + 1 > i { assert r[j + 1] == bs[j + 2]; }
    }
  }

  lemma TiledSplit(bs: seq<Block>, start: nat, end: nat, k: nat, size: nat)
    requires Tiled(bs, start, end) && k < |bs| && Splits(bs[k], size)
    ensures Tiled(SplitAt(bs, k, size), start, end)
  {
    var r := SplitAt(bs, k, size);
    forall j | 0 <= j < |r| - 1 ensures r[j].End() == r[j + 1].addr {
      if j < k { assert r[j] == bs[j]; } else if j > k + 1 { assert r[j] == bs[j - 1]; }
      if j + 1 < k { assert r[j + 1] == bs[j + 1]; } else if j + 1 > k + 1 { assert r[j + 1] == bs[j]; }
    }
  }

  /** There is at most one first smallest fitting block, and BestFit finds it. */
  lemma BestFitUnique(bs: seq<Block>, size: nat, k: nat)
    requires IsBestFit(bs, size, k, |bs|)
    ensures BestFit(bs, size) == Some(k)
  {
    assert Fits(bs[BestFit(bs, size).value], size);
  }

  /** No later block can beat an exact fit, so the search may stop there. */
  lemma ExactFit(bs: seq<Block>, size: nat, i: nat)
    requires i < |bs| && BestFitIn(bs, size, i + 1) == Some(i) && bs[i].size == size
    ensures BestFit(bs, size) == Some(i)
  {
    BestFitUnique(bs, size, i);
  }

  lemma NoneBefore(bs: seq<Block>, size: nat)
    ensures BestFitIn(bs, size, 0).None?
    ensures BestFit(bs, size) == BestFitIn(bs, size, |bs|)
  {
  }

  /** One more block of the search. */
  lemma BestFitNext(bs: seq<Block>, size: nat, i: nat)
    requires i < |bs|
    ensures var r := BestFitIn(bs, size, i);
            && (r.Some? ==> r.value < i)
            && BestFitIn(bs, size, i + 1) == if Fits(bs[i], size) && (r.None? || bs[i].size < bs[r.value].size) then Some(i) else r
  {
  }

  lemma TiledStart(bs: seq<Block>, start: nat, end: nat)
    requires Tiled(bs, start, end)
    ensures |bs| > 0 && bs[0].addr == start
  {
  }

  lemma TiledMarked(bs: seq<Block>, start: nat, end: nat, k: nat, used: bool)
    requires Tiled(bs, start, end) && k < |bs|
    ensures Tiled(Marked(bs, k, used), start, end)
  {
  }

  // ---------- the list as it lies in memory ----------

  datatype Header = Header(magic: nat, size: nat, next: nat, prev: nat, used: nat)

  function HeaderAt(m: seq<byte>, a: nat): Header {
    Header(Load(m, a, 4), Load(m, a + SIZE_AT, 8), Load(m, a + NEXT_AT, 8), Load(m, a + PREV_AT, 8), Load(m, a + USED_AT, 1))
  }

  function NextOf(bs: seq<Block>, i: nat): nat { if i + 1 < |bs| then bs[i + 1].addr else 0 }

  function PrevOf(bs: seq<Block>, i: nat): nat
    requires i <= |bs|
  {
    if i > 0 then bs[i - 1].addr else 0
  }

  function HeaderOf(bs: seq<Block>, i: nat): Header
    requires i < |bs|
  {
    Header(BLOCK_MAGIC, bs[i].size, NextOf(bs, i), PrevOf(bs, i), if bs[i].used then 1 else 0)
  }

  ghost predicate Written(m: seq<byte>, bs: seq<Block>, i: nat)
    requires i < |bs|
  {
    bs[i].addr + HDR <= |m| && HeaderAt(m, bs[i].addr) == HeaderOf(bs, i)
  }

  ghost predicate Represents(m: seq<byte>, bs: seq<Block>) {
    forall i :: 0 <= i < |bs| ==> Written(m, bs, i)
  }

  /** Every payload byte of a used block of bs is the same in m and m'. */
  ghost predicate PayloadsKept(bs: seq<Block>, m: seq<byte>, m': seq<byte>) {
    && |m| == |m'|
    && forall b, x :: b in bs && b.used && b.Payload() <= x < b.End() && x < |m| ==> m'[x] == m[x]
  }

  lemma HeaderKept(m: seq<byte>, m': seq<byte>, a: nat)
    requires |m| == |m'| && forall x :: a <= x < a + HDR && x < |m| ==> m'[x] == m[x]
    ensures HeaderAt(m', a) == HeaderAt(m, a)
  {
    hide Load;
    LoadSame(m, m', a, 4);
    LoadSame(m, m', a + SIZE_AT, 8);
    LoadSame(m, m', a + NEXT_AT, 8);
    LoadSame(m, m', a + PREV_AT, 8);
    LoadSame(m, m', a + USED_AT, 1);
  }

  /** A write inside the header of block k leaves every other header as it was. */
  lemma OtherHeadersKept(m: seq<byte>, m': seq<byte>, bs: seq<Block>, start: nat, end: nat, k: nat)
    requires Tiled(bs, start, end) && end <= |m| && k < |bs|
    requires Only(m, m', bs[k].addr, bs[k].addr + HDR)
    ensures forall j :: 0 <= j < |bs| && j != k ==> HeaderAt(m', bs[j].addr) == HeaderAt(m, bs[j].addr)
    ensures PayloadsKept(bs, m, m')
  {
    AllOrdered(bs, start, end);
    forall j | 0 <= j < |bs| && j != k
      ensures HeaderAt(m', bs[j].addr) == HeaderAt(m, bs[j].addr)
    {
      HeaderKept(m, m', bs[j].addr);
    }
  }

  /** Every used block of bs is still a used block of bs'. */
  ghost predicate UsedIn(bs: seq<Block>, bs': seq<Block>) {
    forall b :: b in bs && b.used ==> b in bs'
  }

  lemma UsedJoined(bs: seq<Block>, i: nat)
    requires i + 1 < |bs| && !bs[i].used && !bs[i + 1].used
    ensures UsedIn(bs, Joined(bs, i))
  {
    forall b | b in bs && b.used ensures b in Joined(bs, i) {
      var j :| 0 <= j < |bs| && bs[j] == b;
      assert Joined(bs, i)[if j < i then j else j - 1] == b;
    }
  }

  lemma UsedSplit(bs: seq<Block>, k: nat, size: nat)
    requires k < |bs| && !bs[k].used
    ensures Splits(bs[k], size) ==> UsedIn(bs, SplitAt(bs, k, size))
  {
    if Splits(bs[k], size) {
      var r := SplitAt(bs, k, size);
      forall b | b in bs && b.used ensures b in r {
        var j :| 0 <= j < |bs| && bs[j] == b;
        assert r[if j < k then j else j + 1] == b;
      }
    }
  }

  lemma PayloadsKeptRefl(bs: seq<Block>, m: seq<byte>)
    ensures PayloadsKept(bs, m, m)
  {
  }

  lemma PayloadsKeptDropped(bs: seq<Block>, k: nat, m: seq<byte>, m': seq<byte>)
    requires k < |bs| && PayloadsKept(bs, m, m')
    ensures PayloadsKept(Marked(bs, k, false), m, m')
  {
    forall b | b in Marked(bs, k, false) && b.used ensures b in bs {
      var j :| 0 <= j < |bs| && Marked(bs, k, false)[j] == b;
      assert bs[j] == b;
    }
  }

  lemma NullNotLive(bs: seq<Block>)
    ensures FindLive(bs, 0).None?
  {
  }

  lemma PayloadsKeptTrans(bs: seq<Block>, bs': seq<Block>, m: seq<byte>, m': seq<byte>, m'': seq<byte>)
    requires PayloadsKept(bs, m, m') && PayloadsKept(bs', m', m'') && UsedIn(bs, bs')
    ensures PayloadsKept(bs, m, m'')
  {
  }

  /** Rewriting headers i and i + 2 turns the memory of bs into the memory of Joined(bs, i). */
  lemma RepresentsJoined(m: seq<byte>, m': seq<byte>, bs: seq<Block>, i: nat)
    requires Represents(m, bs) && i + 1 < |bs| && |m| == |m'|
    requires forall j :: 0 <= j < |bs| && !(i <= j <= i + 2) ==> HeaderAt(m', bs[j].addr) == HeaderAt(m, bs[j].addr)
    requires HeaderAt(m', bs[i].addr) == HeaderOf(Joined(bs, i), i)
    requires i + 2 < |bs| ==> HeaderAt(m', bs[i + 2].addr) == HeaderOf(bs, i + 2).(prev := bs[i].addr)
    ensures Represents(m', Joined(bs, i))
  {
    hide HeaderAt;
    var r := Joined(bs, i);
    forall j | 0 <= j < |r| ensures Written(m', r, j) {
      assert Written(m, bs, if j <= i then j else j + 1);
    }
  }

  lemma RepresentsMarked(m: seq<byte>, m': seq<byte>, bs: seq<Block>, k: nat, used: bool)
    requires Represents(m, bs) && k < |bs| && |m| == |m'|
    requires forall j :: 0 <= j < |bs| && j != k ==> HeaderAt(m', bs[j].addr) == HeaderAt(m, bs[j].addr)
    requires HeaderAt(m', bs[k].addr) == HeaderOf(bs, k).(used := if used then 1 else 0)
    ensures Represents(m', Marked(bs, k, used))
  {
    hide HeaderAt;
    var r := Marked(bs, k, used);
    forall j | 0 <= j < |r| ensures Written(m', r, j) {
      assert Written(m, bs, j);
    }
  }

  /** Writing a header after size bytes of block k, and relinking its neighbours, gives SplitAt(bs, k, size). */
  lemma RepresentsSplit(m: seq<byte>, m': seq<byte>, bs: seq<Block>, k: nat, size: nat)
    requires Represents(m, bs) && k < |bs| && Splits(bs[k], size) && |m| == |m'| && bs[k].End() <= |m|
    requires forall j :: 0 <= j < |bs| && !(k <= j <= k + 1) ==> HeaderAt(m', bs[j].addr) == HeaderAt(m, bs[j].addr)
    requires HeaderAt(m', bs[k].addr) == HeaderOf(SplitAt(bs, k, size), k)
    requires HeaderAt(m', bs[k].addr + HDR + size) == HeaderOf(SplitAt(bs, k, size), k + 1)
    requires k + 1 < |bs| ==> HeaderAt(m', bs[k + 1].addr) == HeaderOf(bs, k + 1).(prev := bs[k].addr + HDR + size)
    ensures Represents(m', SplitAt(bs, k, size))
  {
    hide HeaderAt;
    var r := SplitAt(bs, k, size);
    forall j | 0 <= j < |r| ensures Written(m', r, j) {
      assert j != k + 1 ==> Written(m, bs, if j <= k then j else j - 1);
    }
  }

  /** A write inside the payload of a free block touches no header and no used payload. */
  lemma FreePayloadWrite(m: seq<byte>, m': seq<byte>, bs: seq<Block>, start: nat, end: nat, k: nat)
    requires Tiled(bs, start, end) && end <= |m| && k < |bs| && !bs[k].used
    requires Only(m, m', bs[k].Payload(), bs[k].End())
    ensures forall j :: 0 <= j < |bs| ==> HeaderAt(m', bs[j].addr) == HeaderAt(m, bs[j].addr)
    ensures PayloadsKept(bs, m, m')
  {
    AllOrdered(bs, start, end);
    forall j | 0 <= j < |bs|
      ensures HeaderAt(m', bs[j].addr) == HeaderAt(m, bs[j].addr)
    {
      HeaderKept(m, m', bs[j].addr);
    }
  }

  // The assignments blk->field = v of the source.

  method SetMagic(mem: array<byte>, blk: nat, v: nat)
    requires blk + HDR <= mem.Length && v < U32
    modifies mem
    ensures HeaderAt(mem[..], blk) == HeaderAt(old(mem[..]), blk).(magic := v)
    ensures Only(old(mem[..]), mem[..], blk, blk + 4)
  {
    Widths();
    ghost var was := mem[..];
    Store(mem, blk, 4, v);
    hide Load;
    LoadSame(was, mem[..], blk + SIZE_AT, 8);
    LoadSame(was, mem[..], blk + NEXT_AT, 8);
    LoadSame(was, mem[..], blk + PREV_AT, 8);
    LoadSame(was, mem[..], blk + USED_AT, 1);
  }

  method SetSize(mem: array<byte>, blk: nat, v: nat)
    requires blk + HDR <= mem.Length && v < U64
    modifies mem
    ensures HeaderAt(mem[..], blk) == HeaderAt(old(mem[..]), blk).(size := v)
    ensures Only(old(mem[..]), mem[..], blk + SIZE_AT, blk + SIZE_AT + 8)
  {
    Widths();
    ghost var was := mem[..];
    Store(mem, blk + SIZE_AT, 8, v);
    hide Load;
    LoadSame(was, mem[..], blk, 4);
    LoadSame(was, mem[..], blk + NEXT_AT, 8);
    LoadSame(was, mem[..], blk + PREV_AT, 8);
    LoadSame(was, mem[..], blk + USED_AT, 1);
  }

  method SetNext(mem: array<byte>, blk: nat, v: nat)
    requires blk + HDR <= mem.Length && v < U64
    modifies mem
    ensures HeaderAt(mem[..], blk) == HeaderAt(old(mem[..]), blk).(next := v)
    ensures Only(old(mem[..]), mem[..], blk + NEXT_AT, blk + NEXT_AT + 8)
  {
    Widths();
    ghost var was := mem[..];
    Store(mem, blk + NEXT_AT, 8, v);
    hide Load;
    LoadSame(was, mem[..], blk, 4);
    LoadSame(was, mem[..], blk + SIZE_AT, 8);
    LoadSame(was, mem[..], blk + PREV_AT, 8);
    LoadSame(was, mem[..], blk + USED_AT, 1);
  }

  method SetPrev(mem: array<byte>, blk: nat, v: nat)
    requires blk + HDR <= mem.Length && v < U64
    modifies mem
    ensures HeaderAt(mem[..], blk) == HeaderAt(old(mem[..]), blk).(prev := v)
    ensures Only(old(mem[..]), mem[..], blk + PREV_AT, blk + PREV_AT + 8)
  {
    Widths();
    ghost var was := mem[..];
    Store(mem, blk + PREV_AT, 8, v);
    hide Load;
    LoadSame(was, mem[..], blk, 4);
    LoadSame(was, mem[..], blk + SIZE_AT, 8);
    LoadSame(was, mem[..], blk + NEXT_AT, 8);
    LoadSame(was, mem[..], blk + USED_AT, 1);
  }

  method SetUsed(mem: array<byte>, blk: nat, v: nat)
    requires blk + HDR <= mem.Length && v < 256
    modifies mem
    ensures HeaderAt(mem[..], blk) == HeaderAt(old(mem[..]), blk).(used := v)
    ensures Only(old(mem[..]), mem[..], blk + USED_AT, blk + USED_AT + 1)
  {
    Widths();
    ghost var was := mem[..];
    Store(mem, blk + USED_AT, 1, v);
    hide Load;
    LoadSame(was, mem[..], blk, 4);
    LoadSame(was, mem[..], blk + SIZE_AT, 8);
    LoadSame(was, mem[..], blk + NEXT_AT, 8);
    LoadSame(was, mem[..], blk + PREV_AT, 8);
  }

  /** All five fields of a fresh header. */
  method SetHeader(mem: array<byte>, blk: nat, size: nat, next: nat, prev: nat)
    requires blk + HDR <= mem.Length && size < U64 && next < U64 && prev < U64
    modifies mem
    ensures HeaderAt(mem[..], blk) == Header(BLOCK_MAGIC, size, next, prev, 0)
    ensures Only(old(mem[..]), mem[..], blk, blk + HDR)
  {
    hide Load, HeaderAt;
    SetMagic(mem, blk, BLOCK_MAGIC);
    SetSize(mem, blk, size);
    SetUsed(mem, blk, 0);
    SetNext(mem, blk, next);
    SetPrev(mem, blk, prev);
  }

  /** The size and next fields in one step. */
  method Resize(mem: array<byte>, blk: nat, size: nat, next: nat)
    requires blk + HDR <= mem.Length && size < U64 && next < U64
    modifies mem
    ensures HeaderAt(mem[..], blk) == HeaderAt(old(mem[..]), blk).(size := size, next := next)
    ensures Only(old(mem[..]), mem[..], blk, blk + HDR)
  {
    hide Load, HeaderAt;
    SetSize(mem, blk, size);
    SetNext(mem, blk, next);
  }

  /** The plausibility test of free: !size > (1 < 40), where ! and < give 0 or 1. */
  predicate Implausible(size: nat) {
    var notSize := if size == 0 then 1 else 0;
    var bound := if 1 < 40 then 1 else 0;
    notSize > bound
  }

  /** It never fires. */
  lemma NeverImplausible(size: nat)
    ensures !Implausible(size)
  {
  }

  class Heap {
    const mem: array<byte>
    const start: nat
    const end: nat
    ghost var blocks: seq<Block>

    ghost predicate Valid()
      reads this, mem
    {
      && 0 < start && end <= mem.Length < U64 - 16
      && Tiled(blocks, start, end)
      && Represents(mem[..], blocks)
    }

    /** kernel_memory.c:21-25 writes the first header; [start, end) becomes one free block. */
    constructor (mem: array<byte>, start: nat, end: nat)
      requires 0 < start && start + HDR <= end <= mem.Length < U64 - 16
      modifies mem
      ensures Valid() && this.mem == mem && this.start == start && this.end == end
      ensures blocks == [Block(start, end - start - HDR, false)]
      ensures Only(old(mem[..]), mem[..], start, start + HDR)
    {
      this.mem := mem;
      this.start := start;
      this.end := end;
      blocks := [Block(start, end - start - HDR, false)];
      new;
      hide Load, HeaderAt;
      SetHeader(mem, start, end - start - HDR, 0, 0);
    }

    /** heap_merge_free_blocks, lines 15-16: cur takes over the size and the successor of next. */
    method TakeOver(cur: nat, next: nat, ghost i: nat)
      requires Valid() && i + 1 < |blocks| && cur == blocks[i].addr && next == blocks[i + 1].addr
      modifies mem
      ensures HeaderAt(mem[..], cur) == HeaderOf(Joined(blocks, i), i)
      ensures Only(old(mem[..]), mem[..], cur, cur + HDR)
    {
      hide Load, HeaderAt;
      ghost var m0 := mem[..];
      AllOrdered(blocks, start, end);
      assert Written(m0, blocks, i) && Written(m0, blocks, i + 1);
      var h, n := HeaderAt(mem[..], cur), HeaderAt(mem[..], next);
      Resize(mem, cur, h.size + HDR + n.size, n.next);
    }

    /** The loop body of heap_merge_free_blocks: cur absorbs its successor. */
    method Absorb(cur: nat, next: nat, ghost i: nat)
      requires Valid() && i + 1 < |blocks| && cur == blocks[i].addr && next == blocks[i + 1].addr
      requires !blocks[i].used && !blocks[i + 1].used
      modifies this`blocks, mem
      ensures Valid() && blocks == Joined(old(blocks), i)
      ensures PayloadsKept(old(blocks), old(mem[..]), mem[..])
      ensures Only(old(mem[..]), mem[..], start, end)
    {
      hide Load, HeaderAt, Tiled, PayloadsKept;
      ghost var bs, m0 := blocks, mem[..];
      AllOrdered(bs, start, end);
      TakeOver(cur, next, i);
      ghost var m1 := mem[..];
      OtherHeadersKept(m0, m1, bs, start, end, i);
      var after := HeaderAt(mem[..], cur).next;
      if after != 0 {
        assert Written(m0, bs, i + 2);
        if HeaderAt(mem[..], after).magic == BLOCK_MAGIC {
          SetPrev(mem, after, cur);
        }
        OtherHeadersKept(m1, mem[..], bs, start, end, i + 2);
        PayloadsKeptTrans(bs, bs, m0, m1, mem[..]);
      }
      blocks := Joined(bs, i);
      TiledJoined(bs, start, end, i);
      RepresentsJoined(m0, mem[..], bs, i);
    }

    /** The first loop of heap_merge_free_blocks. */
    method MergeNextBlocks(block: nat, ghost k: nat) returns (ret: nat)
      requires Valid() && k < |blocks| && block == blocks[k].addr && !blocks[k].used
      modifies this`blocks, mem
      ensures Valid() && blocks == MergeForward(old(blocks), k)
      ensures !blocks[k].used && block == blocks[k].addr
      ensures ret == |old(blocks)| - |blocks|
      ensures PayloadsKept(old(blocks), old(mem[..]), mem[..]) && UsedIn(old(blocks), blocks)
      ensures Only(old(mem[..]), mem[..], start, end)
    {
      hide Load, HeaderAt, Tiled, PayloadsKept;
      PayloadsKeptRefl(blocks, mem[..]);
      ret := 0;
      var current := block;
      assert Written(mem[..], blocks, k);
      var next := HeaderAt(mem[..], current).next;
      while next != 0 && HeaderAt(mem[..], next).used == 0 && HeaderAt(mem[..], next).magic == BLOCK_MAGIC
        invariant Valid() && k < |blocks| && current == blocks[k].addr && !blocks[k].used && next == NextOf(blocks, k)
        invariant MergeForward(blocks, k) == MergeForward(old(blocks), k)
        invariant ret == |old(blocks)| - |blocks|
        invariant PayloadsKept(old(blocks), old(mem[..]), mem[..]) && UsedIn(old(blocks), blocks)
        invariant Only(old(mem[..]), mem[..], start, end)
        decreases |blocks|
      {
        assert Written(mem[..], blocks, k + 1);
        ghost var bs, m := blocks, mem[..];
        Absorb(current, next, k);
        UsedJoined(bs, k);
        PayloadsKeptTrans(old(blocks), bs, old(mem[..]), m, mem[..]);
        assert Written(mem[..], blocks, k);
        next := HeaderAt(mem[..], current).next;
        ret := ret + 1;
      }
      if k + 1 < |blocks| {
        assert Written(mem[..], blocks, k + 1);
        AllOrdered(blocks, start, end);
      }
    }

    /** The second loop of heap_merge_free_blocks. */
    method MergePrevBlocks(block: nat, ghost k: nat) returns (ret: nat)
      requires Valid() && k < |blocks| && block == blocks[k].addr && !blocks[k].used
      modifies this`blocks, mem
      ensures Valid() && blocks == MergeBackward(old(blocks), k)
      ensures ret == |old(blocks)| - |blocks|
      ensures PayloadsKept(old(blocks), old(mem[..]), mem[..])
      ensures Only(old(mem[..]), mem[..], start, end)
    {
      hide Load, HeaderAt, Tiled, PayloadsKept;
      PayloadsKeptRefl(blocks, mem[..]);
      ret := 0;
      var current := block;
      ghost var i: nat := k;
      assert Written(mem[..], blocks, i);
      var prev := HeaderAt(mem[..], current).prev;
      while prev != 0 && HeaderAt(mem[..], prev).used == 0 && HeaderAt(mem[..], prev).magic == BLOCK_MAGIC
        invariant Valid() && i < |blocks| && current == blocks[i].addr && !blocks[i].used && prev == PrevOf(blocks, i)
        invariant MergeBackward(blocks, i) == MergeBackward(old(blocks), k)
        invariant ret == |old(blocks)| - |blocks|
        invariant PayloadsKept(old(blocks), old(mem[..]), mem[..]) && UsedIn(old(blocks), blocks)
        invariant Only(old(mem[..]), mem[..], start, end)
        decreases |blocks|
      {
        assert Written(mem[..], blocks, i - 1);
        ghost var bs, m := blocks, mem[..];
        Absorb(prev, current, i - 1);
        UsedJoined(bs, i - 1);
        PayloadsKeptTrans(old(blocks), bs, old(mem[..]), m, mem[..]);
        i := i - 1;
        ret := ret + 1;
        current := prev;
        assert Written(mem[..], blocks, i);
        prev := HeaderAt(mem[..], current).prev;
      }
      if i > 0 {
        assert Written(mem[..], blocks, i - 1);
        AllOrdered(blocks, start, end);
      }
    }

    method MergeFreeBlocks(block: nat, ghost k: nat) returns (ret: nat)
      requires Valid() && k < |blocks| && block == blocks[k].addr && !blocks[k].used
      modifies this`blocks, mem
      ensures Valid() && blocks == Merged(old(blocks), k)
      ensures ret == |old(blocks)| - |blocks|
      ensures PayloadsKept(old(blocks), old(mem[..]), mem[..])
      ensures Only(old(mem[..]), mem[..], start, end)
    {
      hide Load, Tiled, PayloadsKept;
      assert Written(mem[..], blocks, k);
      ret := 0;
      if HeaderAt(mem[..], block).magic == BLOCK_MAGIC {
        ret := MergeNextBlocks(block, k);
        ghost var bs, m := blocks, mem[..];
        var merged := MergePrevBlocks(block, k);
        PayloadsKeptTrans(old(blocks), bs, old(mem[..]), m, mem[..]);
        ret := ret + merged;
      }
    }

    /** blk->used = used for block k. */
    method SetMark(blk: nat, used: bool, ghost k: nat)
      requires Valid() && k < |blocks| && blk == blocks[k].addr
      modifies this`blocks, mem
      ensures Valid() && blocks == Marked(old(blocks), k, used)
      ensures PayloadsKept(old(blocks), old(mem[..]), mem[..])
      ensures Only(old(mem[..]), mem[..], start, end)
    {
      hide Load, HeaderAt, PayloadsKept, Tiled;
      ghost var bs, m0 := blocks, mem[..];
      AllOrdered(bs, start, end);
      TiledMarked(bs, start, end, k, used);
      assert Written(m0, bs, k);
      SetUsed(mem, blk, if used then 1 else 0);
      OtherHeadersKept(m0, mem[..], bs, start, end, k);
      RepresentsMarked(m0, mem[..], bs, k, used);
      blocks := Marked(bs, k, used);
    }

    /** malloc, lines 55-65: cut a new free block out of the tail of a free block. */
    method Split(blk: nat, size: nat, ghost k: nat)
      requires Valid() && k < |blocks| && blk == blocks[k].addr && !blocks[k].used && Splits(blocks[k], size)
      modifies this`blocks, mem
      ensures Valid() && blocks == SplitAt(old(blocks), k, size)
      ensures PayloadsKept(old(blocks), old(mem[..]), mem[..])
      ensures Only(old(mem[..]), mem[..], start, end)
    {
      hide Load, HeaderAt, Tiled, PayloadsKept;
      ghost var bs, m0 := blocks, mem[..];
      ghost var r := SplitAt(bs, k, size);
      AllOrdered(bs, start, end);
      assert Written(m0, bs, k);
      var h := HeaderAt(mem[..], blk);
      var newBlock := blk + HDR + size;
      SetHeader(mem, newBlock, h.size - size - HDR, h.next, blk);
      ghost var m1 := mem[..];
      FreePayloadWrite(m0, m1, bs, start, end, k);
      if h.next != 0 {
        assert Written(m0, bs, k + 1);
        SetPrev(mem, h.next, newBlock);
        OtherHeadersKept(m1, mem[..], bs, start, end, k + 1);
        HeaderKept(m1, mem[..], newBlock);
        PayloadsKeptTrans(bs, bs, m0, m1, mem[..]);
      }
      ghost var m2 := mem[..];
      Resize(mem, blk, size, newBlock);
      OtherHeadersKept(m2, mem[..], bs, start, end, k);
      HeaderKept(m2, mem[..], newBlock);
      PayloadsKeptTrans(bs, bs, m0, m2, mem[..]);
      TiledSplit(bs, start, end, k, size);
      RepresentsSplit(m0, mem[..], bs, k, size);
      blocks := r;
    }

    /** The search loop of malloc: the first smallest free block of at least size bytes, or 0. */
    method FindBestFit(size: nat) returns (best: nat, ghost k: nat)
      requires Valid()
      ensures best == 0 <==> BestFit(blocks, size).None?
      ensures best != 0 ==> BestFit(blocks, size) == Some(k) && k < |blocks| && best == blocks[k].addr
    {
      hide Load, Tiled, IsBestFit, HeaderAt, BestFitIn;
      NoneBefore(blocks, size);
      assert blocks[0].addr == start by { TiledStart(blocks, start, end); }
      AllOrdered(blocks, start, end);
      var current := start;
      best, k := 0, 0;
      var bestSize := U64 - 1;
      ghost var i := 0;
      while current != 0
        invariant 0 <= i <= |blocks| && current == (if i < |blocks| then blocks[i].addr else 0)
        invariant best == 0 ==> bestSize == U64 - 1 && BestFitIn(blocks, size, i).None?
        invariant best != 0 ==> BestFitIn(blocks, size, i) == Some(k) && k < i && best == blocks[k].addr && bestSize == blocks[k].size
        decreases |blocks| - i
      {
        assert Written(mem[..], blocks, i);
        var h := HeaderAt(mem[..], current);
        BestFitNext(blocks, size, i);
        assert h.size == blocks[i].size && (h.used == 0 <==> !blocks[i].used) && h.next == NextOf(blocks, i);
        if h.used == 0 && h.size >= size && h.size < bestSize {
          best, bestSize, k := current, h.size, i;
          if h.size == size {
            ExactFit(blocks, size, i);
            return;
          }
        }
        current := h.next;
        i := i + 1;
      }
    }

    method Malloc(size: nat) returns (ptr: nat)
      requires Valid() && size < U64
      modifies this`blocks, mem
      ensures Valid() && (blocks, ptr) == MallocOn(old(blocks), size)
      ensures PayloadsKept(old(blocks), old(mem[..]), mem[..])
      ensures Only(old(mem[..]), mem[..], start, end)
    {
      hide Load, HeaderAt, Tiled, PayloadsKept;
      PayloadsKeptRefl(blocks, mem[..]);
      if size == 0 { return 0; }
      var rounded := Round16(size);
      var best, k := FindBestFit(rounded);
      if best == 0 { return 0; }
      AllOrdered(blocks, start, end);
      assert Written(mem[..], blocks, k);
      if HeaderAt(mem[..], best).size >= rounded + HDR + 16 {
        Split(best, rounded, k);
      }
      ghost var bs, m := blocks, mem[..];
      SetMark(best, true, k);
      UsedSplit(old(blocks), k, rounded);
      PayloadsKeptTrans(old(blocks), bs, old(mem[..]), m, mem[..]);
      ptr := best + HDR;
    }

    /** The source's callers pass null, a pointer that malloc returned, or one whose header shows it is not live. */
    method Free(ptr: nat) returns (merged: nat)
      requires Valid()
      requires ptr == 0 || HDR <= ptr <= mem.Length
      requires ptr == 0 || FindLive(blocks, ptr).Some?
               || HeaderAt(mem[..], ptr - HDR).magic != BLOCK_MAGIC || HeaderAt(mem[..], ptr - HDR).used == 0
      modifies this`blocks, mem
      ensures Valid() && blocks == FreeOn(old(blocks), ptr)
      ensures merged == |old(blocks)| - |blocks|
      ensures (forall i :: 0 <= i < |old(blocks)| && old(blocks)[i].used ==> old(blocks)[i].addr + 40 != ptr) ==> blocks == old(blocks)
      ensures PayloadsKept(Dropped(old(blocks), ptr), old(mem[..]), mem[..])
      ensures Only(old(mem[..]), mem[..], start, end)
    {
      hide Load, Tiled, PayloadsKept;
      PayloadsKeptRefl(Dropped(blocks, ptr), mem[..]);
      ghost var live := FindLive(blocks, ptr);
      merged := 0;
      if ptr == 0 {
        NullNotLive(blocks);
        return;
      }
      var blk := ptr - HDR;
      if live.Some? { assert Written(mem[..], blocks, live.value); }
      if HeaderAt(mem[..], blk).magic != BLOCK_MAGIC { return; }
      if HeaderAt(mem[..], blk).used == 0 { return; }
      // The test at lines 81-84 is Implausible, which never fires.
      SetMark(blk, false, live.value);
      PayloadsKeptDropped(old(blocks), live.value, old(mem[..]), mem[..]);
      ghost var bs, m := blocks, mem[..];
      merged := MergeFreeBlocks(blk, live.value);
      PayloadsKeptTrans(bs, bs, old(mem[..]), m, mem[..]);
    }
  }
}
