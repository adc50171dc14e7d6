/** Laws of the block list of heap.c over single calls and over whole runs of malloc and free. */
module HeapLaws {
  import opened Memory
  import opened Heap
  import opened Wrappers

  // ---------- shape ----------

  /** No two neighbours are free, except possibly in the pairs that contain block k. */
  ghost predicate NoAdjacentFreeBut(bs: seq<Block>, k: nat) {
    forall i :: 0 <= i < |bs| - 1 && i != k && i + 1 != k ==> bs[i].used || bs[i + 1].used
  }

  /** What malloc and free keep: the blocks fill the arena and free neighbours are merged. */
  ghost predicate Shape(bs: seq<Block>, start: nat, end: nat) {
    Tiled(bs, start, end) && NoAdjacentFree(bs)
  }

  lemma {:induction false} ForwardShape(bs: seq<Block>, start: nat, end: nat, k: nat)
    requires Tiled(bs, start, end) && k < |bs| && !bs[k].used && NoAdjacentFreeBut(bs, k)
    ensures var r := MergeForward(bs, k);
            && Tiled(r, start, end) && !r[k].used && NoAdjacentFreeBut(r, k) && (k + 1 < |r| ==> r[k + 1].used)
            && UsedIn(bs, r)
    decreases |bs|
  {
    if k + 1 < |bs| && !bs[k + 1].used {
      var j := Joined(bs, k);
      TiledJoined(bs, start, end, k);
      UsedJoined(bs, k);
      JoinedBut(bs, k, k);
      ForwardShape(j, start, end, k);
    }
  }

  /** Joining two free blocks moves at most the pairs that contain the joined block. */
  lemma JoinedBut(bs: seq<Block>, k: nat, hole: nat)
    requires k + 1 < |bs| && NoAdjacentFreeBut(bs, hole) && (hole == k || hole == k + 1)
    requires hole == k + 1 && k + 2 < |bs| ==> bs[k + 2].used
    ensures NoAdjacentFreeBut(Joined(bs, k), k)
    ensures hole == k + 1 && k + 1 < |Joined(bs, k)| ==> Joined(bs, k)[k + 1].used
  {
    var j := Joined(bs, k);
    forall i | 0 <= i < |j| - 1 && i != k && i + 1 != k ensures j[i].used || j[i + 1].used {
      var o := if i < k then i else i + 1;
      assert j[i] == bs[o] && j[i + 1] == bs[o + 1];
    }
  }

  lemma {:induction false} BackwardShape(bs: seq<Block>, start: nat, end: nat, k: nat)
    requires Tiled(bs, start, end) && k < |bs| && !bs[k].used && NoAdjacentFreeBut(bs, k)
    requires k + 1 < |bs| ==> bs[k + 1].used
    ensures Shape(MergeBackward(bs, k), start, end) && UsedIn(bs, MergeBackward(bs, k))
    decreases |bs|
  {
    if k > 0 && !bs[k - 1].used {
      var j := Joined(bs, k - 1);
      TiledJoined(bs, start, end, k - 1);
      UsedJoined(bs, k - 1);
      JoinedBut(bs, k - 1, k);
      BackwardShape(j, start, end, k - 1);
    }
  }

  lemma ReleasedShape(bs: seq<Block>, start: nat, end: nat, k: nat)
    requires Shape(bs, start, end) && k < |bs|
    ensures Shape(Released(bs, k), start, end) && UsedIn(Marked(bs, k, false), Released(bs, k))
  {
    var d := Marked(bs, k, false);
    TiledMarked(bs, start, end, k, false);
    ForwardShape(d, start, end, k);
    BackwardShape(MergeForward(d, k), start, end, k);
  }

  lemma AllocatedShape(bs: seq<Block>, start: nat, end: nat, k: nat, size: nat)
    requires Shape(bs, start, end) && k < |bs| && !bs[k].used
    ensures Shape(Allocated(bs, k, size), start, end)
  {
    var r := Allocated(bs, k, size);
    var s := if Splits(bs[k], size) then SplitAt(bs, k, size) else bs;
    if Splits(bs[k], size) { TiledSplit(bs, start, end, k, size); }
    TiledMarked(s, start, end, k, true);
    forall i | 0 <= i < |r| - 1 ensures r[i].used || r[i + 1].used {
      if Splits(bs[k], size) {
        if i + 1 < k { assert r[i] == bs[i] && r[i + 1] == bs[i + 1]; }
        if i > k {
          assert r[i + 1] == bs[i];
          assert bs[i - 1].used || bs[i].used;
          if i > k + 1 { assert r[i] == bs[i - 1]; }
        }
      } else {
        assert bs[i].used || bs[i + 1].used;
      }
    }
  }

  /** malloc keeps the arena exactly filled and never leaves two free neighbours. */
  lemma MallocKeepsShape(bs: seq<Block>, start: nat, end: nat, size: nat)
    requires Shape(bs, start, end)
    ensures Shape(MallocOn(bs, size).0, start, end)
  {
    var k := BestFit(bs, Round16(size));
    if size != 0 && k.Some? { AllocatedShape(bs, start, end, k.value, Round16(size)); }
  }

  /** free keeps the arena exactly filled and never leaves two free neighbours. */
  lemma FreeKeepsShape(bs: seq<Block>, start: nat, end: nat, ptr: nat)
    requires Shape(bs, start, end)
    ensures Shape(FreeOn(bs, ptr), start, end) && UsedIn(Dropped(bs, ptr), FreeOn(bs, ptr))
  {
    var k := FindLive(bs, ptr);
    if k.Some? { ReleasedShape(bs, start, end, k.value); }
  }

  // ---------- one call ----------

  /** The rounded size covers the request exactly when the addition of 15 does not wrap. */
  lemma RoundedCovers(size: nat)
    requires size < U64
    ensures Round16(size) >= size <==> size <= U64 - 16
    ensures size <= U64 - 16 ==> Round16(size) < size + 16
    ensures size > U64 - 16 ==> Round16(size) == 0
    ensures Round16(size) % 16 == 0
  {
  }

  /** A successful malloc, spelled out: the first smallest free block that holds the request rounded up to 16 gives its
      front when at least 40 + 16 bytes are to spare, and else goes whole. */
  lemma MallocExactly(bs: seq<Block>, size: nat) returns (k: nat)
    requires size < U64 && MallocOn(bs, size).1 != 0
    ensures var s := if size + 15 < U64 then (size + 15) / 16 * 16 else 0;
            && k < |bs| && !bs[k].used && bs[k].size >= s
            && (forall j :: 0 <= j < |bs| && !bs[j].used && bs[j].size >= s ==> bs[k].size <= bs[j].size)
            && (forall j :: 0 <= j < k && !bs[j].used && bs[j].size >= s ==> bs[k].size < bs[j].size)
            && MallocOn(bs, size).1 == bs[k].addr + 40
            && MallocOn(bs, size).0 ==
               if bs[k].size >= s + 56
               then bs[..k] + [Block(bs[k].addr, s, true), Block(bs[k].addr + 40 + s, bs[k].size - s - 40, false)] + bs[k + 1..]
               else bs[..k] + [Block(bs[k].addr, bs[k].size, true)] + bs[k + 1..]
  {
    k := BestFit(bs, Round16(size)).value;
    var s := Round16(size);
    assert Fits(bs[k], s);
    forall j | 0 <= j < |bs| && !bs[j].used && bs[j].size >= s ensures Fits(bs[j], s) {
    }
  }

  /** Every size is a multiple of 8, if the arena's is. */
  ghost predicate Eights(bs: seq<Block>) { forall i :: 0 <= i < |bs| ==> bs[i].size % 8 == 0 }

  lemma EightsJoined(bs: seq<Block>, k: nat)
    requires Eights(bs) && k + 1 < |bs|
    ensures Eights(Joined(bs, k))
  {
    var r := Joined(bs, k);
    forall i | 0 <= i < |r| ensures r[i].size % 8 == 0 {
      if i == k {
        EightsSum(bs[k].size, bs[k + 1].size);
      } else {
        assert r[i] == if i < k then bs[i] else bs[i + 1];
      }
    }
  }

  lemma EightsSum(a: nat, b: nat)
    requires a % 8 == 0 && b % 8 == 0
    ensures (a + 40 + b) % 8 == 0
  {
  }

  lemma {:induction false} EightsForward(bs: seq<Block>, k: nat)
    requires Eights(bs) && k < |bs|
    ensures Eights(MergeForward(bs, k))
    decreases |bs|
  {
    if k + 1 < |bs| && !bs[k + 1].used {
      EightsJoined(bs, k);
      hide Eights;
      EightsForward(Joined(bs, k), k);
    }
  }

  lemma {:induction false} EightsBackward(bs: seq<Block>, k: nat)
    requires Eights(bs) && k < |bs|
    ensures Eights(MergeBackward(bs, k))
    decreases k
  {
    if 0 < k && !bs[k - 1].used {
      EightsJoined(bs, k - 1);
      hide Eights;
      EightsBackward(Joined(bs, k - 1), k - 1);
    }
  }

  lemma MallocKeepsEights(bs: seq<Block>, size: nat)
    requires Eights(bs) && size < U64
    ensures Eights(MallocOn(bs, size).0)
  {
    MallocNull(bs, size);
    if MallocOn(bs, size).1 != 0 {
      var k := MallocExactly(bs, size);
      hide MallocOn;
      var s := if size + 15 < U64 then (size + 15) / 16 * 16 else 0;
      if bs[k].size >= s + 56 {
        EightsLeft(if size + 15 < U64 then (size + 15) / 16 else 0, bs[k].size);
        EightsPut(bs, k, [Block(bs[k].addr, s, true), Block(bs[k].addr + 40 + s, bs[k].size - s - 40, false)]);
      } else {
        EightsPut(bs, k, [Block(bs[k].addr, bs[k].size, true)]);
      }
      hide Eights;
    }
  }

  lemma EightsLeft(q: nat, n: nat)
    requires n % 8 == 0 && q * 16 + 40 <= n
    ensures q * 16 % 8 == 0 && (n - q * 16 - 40) % 8 == 0
  {
  }

  lemma EightsPut(bs: seq<Block>, k: nat, mid: seq<Block>)
    requires Eights(bs) && k < |bs| && Eights(mid)
    ensures Eights(bs[..k] + mid + bs[k + 1..])
  {
  }

  lemma MallocNull(bs: seq<Block>, size: nat)
    ensures MallocOn(bs, size).1 == 0 ==> MallocOn(bs, size).0 == bs
  {
    var k := BestFit(bs, Round16(size));
    if size != 0 && k.Some? { assert Fits(bs[k.value], Round16(size)); }
  }

  lemma ApplyKeepsEights(bs: seq<Block>, op: Op)
    requires Eights(bs) && (op.Malloc? ==> op.size < U64)
    ensures Eights(Apply(bs, op))
  {
    hide MallocOn, MergeForward, MergeBackward;
    match op
    case Malloc(size) => MallocKeepsEights(bs, size);
    case Free(ptr) =>
      var k := FindLive(bs, ptr);
      if k.Some? {
        var d := Marked(bs, k.value, false);
        assert Eights(d);
        hide Eights;
        EightsForward(d, k.value);
        EightsBackward(MergeForward(d, k.value), k.value);
      }
  }

  /** Over any run all block sizes stay multiples of 8. Multiples of 16 they do not stay: see MergedSize. */
  lemma {:induction false} RunKeepsEights(bs: seq<Block>, ops: seq<Op>)
    requires Eights(bs) && forall i :: 0 <= i < |ops| && ops[i].Malloc? ==> ops[i].size < U64
    ensures Eights(Run(bs, ops))
    decreases |ops|
  {
    if ops != [] {
      ApplyKeepsEights(bs, ops[0]);
      RunKeepsEights(Apply(bs, ops[0]), ops[1..]);
    }
  }

  lemma FindLiveUnique(bs: seq<Block>, start: nat, end: nat, k: nat)
    requires Tiled(bs, start, end) && k < |bs| && bs[k].used
    ensures FindLive(bs, bs[k].Payload()) == Some(k)
  {
    AllOrdered(bs, start, end);
  }

  /** malloc returns null exactly when the request is 0 or no free block holds the rounded size,
      and then changes nothing. */
  lemma MallocFails(bs: seq<Block>, start: nat, end: nat, size: nat)
    requires Tiled(bs, start, end) && 0 < start
    ensures var (r, ptr) := MallocOn(bs, size);
            && (ptr == 0 <==> size == 0 || forall j :: 0 <= j < |bs| ==> !Fits(bs[j], Round16(size)))
            && (ptr == 0 <==> size == 0 || forall j :: 0 <= j < |bs| ==> bs[j].used || bs[j].size < (size + 15) % U64 / 16 * 16)
            && (ptr == 0 ==> r == bs)
  {
    hide Tiled, Allocated;
    var k := BestFit(bs, Round16(size));
    if k.Some? { assert Fits(bs[k.value], Round16(size)); }
  }

  /** Where malloc succeeds, the pointer was not live before and is live now, its block holds the rounded size,
      and its payload meets the payload of no other live block. */
  lemma MallocFresh(bs: seq<Block>, start: nat, end: nat, size: nat)
    requires Shape(bs, start, end) && MallocOn(bs, size).1 != 0
    ensures var (r, ptr) := MallocOn(bs, size);
            && FindLive(bs, ptr).None?
            && FindLive(r, ptr).Some?
            && r[FindLive(r, ptr).value].size >= Round16(size)
            && forall j :: 0 <= j < |r| && j != FindLive(r, ptr).value && r[j].used ==>
                             r[j].End() <= ptr || r[FindLive(r, ptr).value].End() <= r[j].Payload()
  {
    var (r, ptr) := MallocOn(bs, size);
    var k := BestFit(bs, Round16(size)).value;
    assert Fits(bs[k], Round16(size));
    MallocKeepsShape(bs, start, end, size);
    assert r[k].used && r[k].Payload() == ptr && r[k].size >= Round16(size);
    hide Allocated, MallocOn;
    FindLiveUnique(r, start, end, k);
    AllOrdered(bs, start, end);
    AllOrdered(r, start, end);
  }

  lemma MergeNothing(bs: seq<Block>, k: nat)
    requires k < |bs| && NoAdjacentFree(bs) && !bs[k].used
    ensures Merged(bs, k) == bs
  {
  }

  lemma JoinSplit(bs: seq<Block>, k: nat, size: nat)
    requires k < |bs| && !bs[k].used && NoAdjacentFree(bs) && Splits(bs[k], size)
    ensures Merged(SplitAt(bs, k, size), k) == bs
  {
    var cut := SplitAt(bs, k, size);
    assert Joined(cut, k) == bs;
    assert MergeForward(cut, k) == MergeForward(bs, k);
    MergeNothing(bs, k);
  }

  /** malloc followed by free of its result gives back the very same list. */
  lemma MallocThenFree(bs: seq<Block>, start: nat, end: nat, size: nat)
    requires Shape(bs, start, end) && 0 < start
    ensures FreeOn(MallocOn(bs, size).0, MallocOn(bs, size).1) == bs
  {
    hide Tiled, Merged;
    var (r, ptr) := MallocOn(bs, size);
    MallocKeepsShape(bs, start, end, size);
    if ptr == 0 {
      NullNotLive(bs);
    } else {
      var s := Round16(size);
      var k := BestFit(bs, s).value;
      assert Fits(bs[k], s);
      FindLiveUnique(r, start, end, k);
      if Splits(bs[k], s) {
        assert Marked(r, k, false) == SplitAt(bs, k, s);
        JoinSplit(bs, k, s);
      } else {
        assert Marked(r, k, false) == bs;
        MergeNothing(bs, k);
      }
    }
  }

  // ---------- runs ----------

  datatype Op = Malloc(size: nat) | Free(ptr: nat)

  function Apply(bs: seq<Block>, op: Op): seq<Block> {
    match op
    case Malloc(size) => MallocOn(bs, size).0
    case Free(ptr) => FreeOn(bs, ptr)
  }

  function Run(bs: seq<Block>, ops: seq<Op>): seq<Block>
    decreases |ops|
  {
    if ops == [] then bs else Run(Apply(bs, ops[0]), ops[1..])
  }

  lemma ApplyKeepsShape(bs: seq<Block>, start: nat, end: nat, op: Op)
    requires Shape(bs, start, end)
    ensures Shape(Apply(bs, op), start, end)
  {
    match op
    case Malloc(size) => MallocKeepsShape(bs, start, end, size);
    case Free(ptr) => FreeKeepsShape(bs, start, end, ptr);
  }

  lemma {:induction false} RunKeepsShape(bs: seq<Block>, start: nat, end: nat, ops: seq<Op>)
    requires Shape(bs, start, end)
    ensures Shape(Run(bs, ops), start, end)
    decreases |ops|
  {
    if ops != [] {
      ApplyKeepsShape(bs, start, end, ops[0]);
      RunKeepsShape(Apply(bs, ops[0]), start, end, ops[1..]);
    }
  }

  lemma OneUsed(bs: seq<Block>)
    requires |bs| > 1 && NoAdjacentFree(bs)
    ensures bs[0].used || bs[1].used
  {
  }

  // ---------- the live blocks determine the list ----------

  ghost predicate SameUsed(bs: seq<Block>, cs: seq<Block>) { UsedIn(bs, cs) && UsedIn(cs, bs) }

  lemma NextSame(bs: seq<Block>, cs: seq<Block>, start: nat, end: nat, n: nat)
    requires Shape(bs, start, end) && Shape(cs, start, end) && SameUsed(bs, cs)
    requires n < |bs| && n <= |cs| && bs[..n] == cs[..n]
    ensures n < |cs| && bs[n] == cs[n]
  {
    AllOrdered(bs, start, end);
    AllOrdered(cs, start, end);
    if n > 0 { assert bs[n - 1] == bs[..n][n - 1] == cs[..n][n - 1] == cs[n - 1]; }
    assert n < |cs| && bs[n].addr == cs[n].addr;
    hide Tiled;
    if bs[n].used {
      assert bs[n] in cs;
    } else if cs[n].used {
      assert cs[n] in bs;
    } else if bs[n].End() < cs[n].End() {
      NextUsed(bs, cs, start, end, n);
    } else if cs[n].End() < bs[n].End() {
      NextUsed(cs, bs, start, end, n);
    }
  }

  /** A used block lies outside every free block of its list. */
  lemma UsedOutside(cs: seq<Block>, start: nat, end: nat, n: nat, b: Block)
    requires Tiled(cs, start, end) && n < |cs| && !cs[n].used && b in cs && b.used
    ensures b.End() <= cs[n].addr || cs[n].End() <= b.addr
  {
    AllOrdered(cs, start, end);
    var j :| 0 <= j < |cs| && cs[j] == b;
    assert j != n;
  }

  /** So the used block that follows a free one does not start inside a free block of the other list. */
  lemma NextUsed(bs: seq<Block>, cs: seq<Block>, start: nat, end: nat, n: nat)
    requires Shape(bs, start, end) && Shape(cs, start, end) && SameUsed(bs, cs) && n < |bs| && n < |cs|
    requires bs[n].addr == cs[n].addr && !bs[n].used && !cs[n].used
    ensures bs[n].End() >= cs[n].End()
  {
    AllOrdered(bs, start, end);
    AllOrdered(cs, start, end);
    if n + 1 < |bs| {
      assert bs[n + 1].used && bs[n + 1].addr == bs[n].End();
      UsedOutside(cs, start, end, n, bs[n + 1]);
    }
  }

  lemma {:induction false} PrefixesSame(bs: seq<Block>, cs: seq<Block>, start: nat, end: nat, n: nat)
    requires Shape(bs, start, end) && Shape(cs, start, end) && SameUsed(bs, cs) && n <= |bs|
    ensures n <= |cs| && bs[..n] == cs[..n]
    decreases n
  {
    if n > 0 {
      PrefixesSame(bs, cs, start, end, n - 1);
      NextSame(bs, cs, start, end, n - 1);
    }
  }

  /** A well-shaped list is determined by its live blocks. */
  lemma ShapeDetermined(bs: seq<Block>, cs: seq<Block>, start: nat, end: nat)
    requires Shape(bs, start, end) && Shape(cs, start, end) && SameUsed(bs, cs)
    ensures bs == cs
  {
    PrefixesSame(bs, cs, start, end, |bs|);
    PrefixesSame(cs, bs, start, end, |cs|);
  }

  lemma {:induction false} ForwardUses(bs: seq<Block>, k: nat)
    requires k < |bs| && !bs[k].used
    ensures UsedIn(MergeForward(bs, k), bs) && !MergeForward(bs, k)[k].used
    decreases |bs|
  {
    if k + 1 < |bs| && !bs[k + 1].used { ForwardUses(Joined(bs, k), k); }
  }

  lemma {:induction false} BackwardUses(bs: seq<Block>, k: nat)
    requires k < |bs| && !bs[k].used
    ensures UsedIn(MergeBackward(bs, k), bs)
    decreases k
  {
    if 0 < k && !bs[k - 1].used { BackwardUses(Joined(bs, k - 1), k - 1); }
  }

  /** free of a live pointer makes the one well-shaped list whose live blocks are the other live blocks. */
  lemma FreeExactly(bs: seq<Block>, start: nat, end: nat, k: nat, cs: seq<Block>)
    requires Shape(bs, start, end) && k < |bs| && bs[k].used && Shape(cs, start, end)
    requires forall b: Block :: b.used ==> (b in cs <==> b in bs && b != bs[k])
    ensures FreeOn(bs, bs[k].addr + 40) == cs
  {
    FindLiveUnique(bs, start, end, k);
    var d, r := Marked(bs, k, false), FreeOn(bs, bs[k].Payload());
    FreeKeepsShape(bs, start, end, bs[k].Payload());
    ForwardUses(d, k);
    BackwardUses(MergeForward(d, k), k);
    MarkedUses(bs, start, end, k);
    hide FreeOn, Shape, Marked, MergeForward, MergeBackward, Tiled;
    ShapeDetermined(r, cs, start, end);
  }

  lemma MarkedUses(bs: seq<Block>, start: nat, end: nat, k: nat)
    requires Shape(bs, start, end) && k < |bs| && bs[k].used
    ensures forall b: Block :: b.used ==> (b in Marked(bs, k, false) <==> b in bs && b != bs[k])
  {
    AllOrdered(bs, start, end);
    var d := Marked(bs, k, false);
    forall b: Block | b.used ensures b in d <==> b in bs && b != bs[k] {
      if b in bs && b != bs[k] {
        var i :| 0 <= i < |bs| && bs[i] == b;
        assert d[i] == b;
      }
      if b in d {
        var i :| 0 <= i < |d| && d[i] == b;
        assert i != k && bs[i] == b && bs[i].addr != bs[k].addr;
      }
    }
  }

  /** Sizes are no multiples of 16 in general: two neighbours of 16 bytes merge to 72. */
  lemma MergedSize(start: nat, rest: nat)
    ensures var bs := [Block(start, 16, false), Block(start + 56, 16, true), Block(start + 112, rest, true)];
            FreeOn(bs, start + 96) == [Block(start, 72, false), Block(start + 112, rest, true)]
  {
    var end := start + 112 + 40 + rest;
    FreeExactly([Block(start, 16, false), Block(start + 56, 16, true), Block(start + 112, rest, true)], start, end, 1,
                [Block(start, 72, false), Block(start + 112, rest, true)]);
  }

  /** With nothing live, the only well-shaped list is the initial one. */
  lemma NothingLive(bs: seq<Block>, start: nat, end: nat)
    requires start + HDR <= end && Shape(bs, start, end) && forall i :: 0 <= i < |bs| ==> !bs[i].used
    ensures bs == [Block(start, end - start - HDR, false)]
  {
    if |bs| > 1 { OneUsed(bs); }
  }

  /** Any run from the initial heap that leaves nothing live leaves the initial heap. */
  lemma RunBackToStart(start: nat, end: nat, ops: seq<Op>)
    requires start + HDR <= end
    ensures var init := [Block(start, end - start - HDR, false)];
            (forall b :: b in Run(init, ops) ==> !b.used) ==> Run(init, ops) == init
  {
    var init := [Block(start, end - start - HDR, false)];
    RunKeepsShape(init, start, end, ops);
    if forall b :: b in Run(init, ops) ==> !b.used { NothingLive(Run(init, ops), start, end); }
  }

  lemma UsedAllocated(bs: seq<Block>, k: nat, size: nat)
    requires k < |bs| && !bs[k].used
    ensures UsedIn(bs, Allocated(bs, k, size))
  {
    UsedSplit(bs, k, size);
    var s := if Splits(bs[k], size) then SplitAt(bs, k, size) else bs;
    forall b | b in bs && b.used ensures b in Allocated(bs, k, size) {
      var j :| 0 <= j < |s| && s[j] == b;
      assert Allocated(bs, k, size)[j] == b;
    }
  }

  /** One call leaves every live block in place, except the one it frees. */
  lemma ApplyKeepsLive(bs: seq<Block>, start: nat, end: nat, op: Op, b: Block)
    requires Shape(bs, start, end) && b in bs && b.used && op != Free(b.Payload())
    ensures b in Apply(bs, op)
  {
    match op
    case Malloc(size) =>
      var k := BestFit(bs, Round16(size));
      if size != 0 && k.Some? {
        assert Fits(bs[k.value], Round16(size));
        UsedAllocated(bs, k.value, Round16(size));
      }
    case Free(ptr) =>
      FreeKeepsShape(bs, start, end, ptr);
      var j :| 0 <= j < |bs| && bs[j] == b;
      assert Dropped(bs, ptr)[j] == b;
  }

  /** Memory and list between two calls. */
  datatype Snapshot = Snapshot(blocks: seq<Block>, mem: seq<byte>)

  /** The contracts of Heap.Malloc and Heap.Free, as a relation. */
  ghost predicate Step(s: Snapshot, op: Op, s': Snapshot) {
    && s'.blocks == Apply(s.blocks, op)
    && PayloadsKept(if op.Free? then Dropped(s.blocks, op.ptr) else s.blocks, s.mem, s'.mem)
  }

  /** A run of calls, between which the owners of live payloads write nothing. */
  ghost predicate Trace(ss: seq<Snapshot>, ops: seq<Op>) {
    |ss| == |ops| + 1 && forall i :: 0 <= i < |ops| ==> Step(ss[i], ops[i], ss[i + 1])
  }

  /** Until it is freed, a live block keeps its place, its size and every byte of its payload,
      whatever else is allocated, split, freed or merged meanwhile. */
  lemma {:induction false} ContentsUntilFreed(ss: seq<Snapshot>, ops: seq<Op>, start: nat, end: nat, b: Block)
    requires Trace(ss, ops) && Shape(ss[0].blocks, start, end) && end <= |ss[0].mem|
    requires b in ss[0].blocks && b.used && Free(b.Payload()) !in ops
    ensures b in ss[|ops|].blocks && |ss[|ops|].mem| == |ss[0].mem|
    ensures forall x :: b.Payload() <= x < b.End() && x < |ss[0].mem| ==> ss[|ops|].mem[x] == ss[0].mem[x]
    decreases |ops|
  {
    if ops != [] {
      assert Step(ss[0], ops[0], ss[1]);
      ApplyKeepsShape(ss[0].blocks, start, end, ops[0]);
      ApplyKeepsLive(ss[0].blocks, start, end, ops[0], b);
      if ops[0].Free? {
        var j :| 0 <= j < |ss[0].blocks| && ss[0].blocks[j] == b;
        assert Dropped(ss[0].blocks, ops[0].ptr)[j] == b;
      }
      assert forall i :: 0 <= i < |ops| - 1 ==> Step(ss[1..][i], ops[1..][i], ss[1..][i + 1]) by {
        forall i | 0 <= i < |ops| - 1 ensures Step(ss[1..][i], ops[1..][i], ss[1..][i + 1]) {
          assert Step(ss[i + 1], ops[i + 1], ss[i + 2]);
        }
      }
      ContentsUntilFreed(ss[1..], ops[1..], start, end, b);
    }
  }
}
