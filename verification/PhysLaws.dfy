/** Runs of physmem_alloc_to and physmem_free_to: who owns which frames. */
module PhysLaws {
  import opened Memory
  import opened PhysMem

  /** An outstanding allocation. */
  datatype Claim = Claim(start: nat, count: nat) {
    ghost function Frames(): set<nat> { Range(start, count) }
  }

  datatype Ownership = Ownership(free: set<nat>, claims: seq<Claim>)

  datatype Op = Alloc(count: nat) | Release(claim: nat)

  /** The contracts of AllocTo and FreeTo, the latter called for one outstanding claim. */
  ghost predicate Step(s: Ownership, op: Op, s': Ownership) {
    match op
    case Alloc(n) =>
      || s' == s   // count is 0 or no run fits
      || (n > 0 && exists start :: Range(start, n) <= s.free
                                   && s' == Ownership(s.free - Range(start, n), s.claims + [Claim(start, n)]))
    case Release(i) =>
      && i < |s.claims|
      && s' == Ownership(s.free + s.claims[i].Frames(), Without(s.claims, i))
  }

  ghost predicate Trace(ss: seq<Ownership>, ops: seq<Op>) {
    |ss| == |ops| + 1 && forall i :: 0 <= i < |ops| ==> Step(ss[i], ops[i], ss[i + 1])
  }

  function Claimed(claims: seq<Claim>): nat {
    if claims == [] then 0 else Claimed(claims[..|claims| - 1]) + claims[|claims| - 1].count
  }

  /** Claims are pairwise disjoint, disjoint from the free frames, inside the frames that were free at boot,
      and together with the free frames they account for every one of those. */
  ghost predicate Inv(s: Ownership, boot: set<nat>) {
    && s.free <= boot
    && (forall i :: 0 <= i < |s.claims| ==> s.claims[i].count > 0)
    && (forall i :: 0 <= i < |s.claims| ==> s.claims[i].Frames() <= boot && s.claims[i].Frames() !! s.free)
    && (forall i, j :: 0 <= i < j < |s.claims| ==> s.claims[i].Frames() !! s.claims[j].Frames())
    && |s.free| + Claimed(s.claims) == |boot|
  }

  lemma {:induction false} ClaimedConcat(a: seq<Claim>, b: seq<Claim>)
    ensures Claimed(a + b) == Claimed(a) + Claimed(b)
    decreases |b|
  {
    if b == [] {
      assert a + b == a;
    } else {
      assert (a + b)[..|a + b| - 1] == a + b[..|b| - 1];
      ClaimedConcat(a, b[..|b| - 1]);
    }
  }

  lemma TakeSize(s: set<nat>, t: set<nat>)
    requires t <= s
    ensures |s - t| == |s| - |t|
  {
    assert s == (s - t) + t;
  }

  /** An allocation found by physmem_alloc_to consists of free frames; taking it lowers the free count by exactly n,
      and giving it back restores the free set. */
  lemma FitIsFree(bits: seq<bv8>, total: nat, s: nat, n: nat)
    requires FreeRun(bits, total, s, n)
    ensures var free := FreeBelow(bits, total);
            && Range(s, n) <= free
            && |free - Range(s, n)| == |free| - n
            && (free - Range(s, n)) + Range(s, n) == free
  {
    RangeSize(s, n);
    TakeSize(FreeBelow(bits, total), Range(s, n));
  }

  lemma AllocKeeps(s: Ownership, boot: set<nat>, start: nat, n: nat)
    requires Inv(s, boot) && Range(start, n) <= s.free && n > 0
    ensures Inv(Ownership(s.free - Range(start, n), s.claims + [Claim(start, n)]), boot)
  {
    hide Claimed, Range;
    var claims := s.claims + [Claim(start, n)];
    RangeSize(start, n);
    TakeSize(s.free, Range(start, n));
    ClaimedConcat(s.claims, [Claim(start, n)]);
    ClaimedOne(Claim(start, n));
  }

  function Without(claims: seq<Claim>, i: nat): seq<Claim>
    requires i < |claims|
  {
    claims[..i] + claims[i + 1..]
  }

  lemma ClaimedOne(c: Claim)
    ensures Claimed([c]) == c.count
  {
    assert [c][..0] == [];
  }

  lemma ClaimedWithout(claims: seq<Claim>, i: nat)
    requires i < |claims|
    ensures Claimed(Without(claims, i)) + claims[i].count == Claimed(claims)
  {
    hide Claimed;
    var c, pre, post := claims[i], claims[..i], claims[i + 1..];
    assert claims == pre + ([c] + post);
    ClaimedConcat(pre, [c] + post);
    ClaimedConcat([c], post);
    ClaimedConcat(pre, post);
    ClaimedOne(c);
  }

  lemma GiveSize(s: set<nat>, t: set<nat>)
    requires t !! s
    ensures |s + t| == |s| + |t|
  {
  }

  lemma ReleaseKeeps(s: Ownership, boot: set<nat>, i: nat)
    requires Inv(s, boot) && i < |s.claims|
    ensures Inv(Ownership(s.free + s.claims[i].Frames(), Without(s.claims, i)), boot)
  {
    hide Claimed, Range;
    var c := s.claims[i];
    var rest := Without(s.claims, i);
    assert |c.Frames()| == c.count by { RangeSize(c.start, c.count); }
    GiveSize(s.free, c.Frames());
    ClaimedWithout(s.claims, i);
    forall j | 0 <= j < |rest| ensures rest[j].Frames() <= boot && rest[j].Frames() !! s.free + c.Frames() {
      var o := if j < i then j else j + 1;
      assert rest[j] == s.claims[o];
      assert s.claims[o].Frames() !! c.Frames();
      assert s.claims[o].Frames() !! s.free;
    }
    forall j, k | 0 <= j < k < |rest| ensures rest[j].Frames() !! rest[k].Frames() {
      assert rest[j] == s.claims[if j < i then j else j + 1];
      assert rest[k] == s.claims[if k < i then k else k + 1];
    }
  }

  // ---------- the calls make these steps ----------

  /** What physmem_alloc_to ensures is an allocation step: addr is its result, bits and bits' the bitmap before and after. */
  lemma AllocIsStep(s: Ownership, bits: seq<bv8>, bits': seq<bv8>, total: nat, n: nat, addr: nat)
    requires s.free == FreeBelow(bits, total)
    requires addr == 0 ==> bits' == bits
    requires addr != 0 ==> n > 0 && FirstFit(bits, total, addr / PAGE_SIZE, n)
                           && FreeBelow(bits', total) == FreeBelow(bits, total) - Range(addr / PAGE_SIZE, n)
    ensures Step(s, Alloc(n), Ownership(FreeBelow(bits', total), if addr == 0 then s.claims else s.claims + [Claim(addr / PAGE_SIZE, n)]))
  {
    if addr != 0 { FitIsFree(bits, total, addr / PAGE_SIZE, n); }
  }

  /** An outstanding claim meets what physmem_free_to demands, and giving it back is a release step;
      boot is the free set that physmem_init ensures. */
  lemma ReleaseIsStep(s: Ownership, boot: set<nat>, i: nat, total: nat, metaStart: nat, metaCount: nat, free': set<nat>)
    requires Inv(s, boot) && i < |s.claims| && total * PAGE_SIZE < U64 && metaCount > 0
    requires forall f :: f in boot ==> f < total && !(metaStart <= f < metaStart + metaCount)
    ensures var c := s.claims[i];
            && c.start * PAGE_SIZE < U64 && c.count < U64 && c.start + c.count <= total
            && (c.start + c.count <= metaStart || metaStart + metaCount <= c.start)
            && (free' == s.free + Range(c.start, c.count) ==> Step(s, Release(i), Ownership(free', Without(s.claims, i))))
  {
    var c := s.claims[i];
    assert c.start in c.Frames() && c.start + c.count - 1 in c.Frames();
    assert metaStart !in c.Frames() by { assert metaStart !in boot; }
  }

  lemma InvAtBoot(boot: set<nat>)
    ensures Inv(Ownership(boot, []), boot)
  {
  }

  /** Every state of every run from boot: outstanding ranges are pairwise disjoint and never touch a frame
      outside the boot-time free set, which excludes the allocator's own tables; no frame is lost or gained. */
  lemma {:induction false} RunKeepsOwnership(ss: seq<Ownership>, ops: seq<Op>, boot: set<nat>, i: nat)
    requires Trace(ss, ops) && i < |ss| && ss[0] == Ownership(boot, [])
    ensures Inv(ss[i], boot)
    decreases i
  {
    hide Inv, Range;
    if i == 0 {
      assert Inv(Ownership(boot, []), boot) by { InvAtBoot(boot); }
    } else {
      RunKeepsOwnership(ss, ops, boot, i - 1);
      var s, s' := ss[i - 1], ss[i];
      assert Step(s, ops[i - 1], s');
      match ops[i - 1]
      case Alloc(n) =>
        if s' != s {
          var start :| Range(start, n) <= s.free
                       && s' == Ownership(s.free - Range(start, n), s.claims + [Claim(start, n)]);
          AllocKeeps(s, boot, start, n);
        }
      case Release(k) =>
        ReleaseKeeps(s, boot, k);
    }
  }
}
