/** core/kernel/mem/paging/paging.c: building the tables in place, over frames from physmem_alloc_to.
    The direct map (hhdm) is the identity here: a table in frame f is mem[f]. A false result stands for
    initiate_panic, after which the kernel does nothing more. */
module Paging {
  import opened Arith
  import opened Memory
  import opened Bitmap
  import opened PhysMem
  import opened PageTable

  /** No table is lost or moved, no frame becomes free, and every new table frame was free before and is not now. */
  ghost predicate Grew(tables: map<Path, nat>, free: set<nat>, tables': map<Path, nat>, free': set<nat>) {
    && (forall p :: p in tables ==> p in tables' && tables'[p] == tables[p])
    && free' <= free
    && tables'.Values - tables.Values <= free - free'
  }

  lemma GrewTwice(t0: map<Path, nat>, f0: set<nat>, t1: map<Path, nat>, f1: set<nat>, t2: map<Path, nat>, f2: set<nat>)
    requires Grew(t0, f0, t1, f1) && Grew(t1, f1, t2, f2)
    ensures Grew(t0, f0, t2, f2)
  {
    forall x | x in t2.Values - t0.Values ensures x in f0 - f2 {
      if x in t1.Values { assert x in t1.Values - t0.Values; } else { assert x in t2.Values - t1.Values; }
    }
  }

  /** All pages translate the same, and the write bits above the last level are as they were. */
  ghost predicate SameMap(m: Frames, tables: map<Path, nat>, m': Frames, tables': map<Path, nat>) {
    && (forall page :: IsPage(page) ==> Lookup(m', tables', page) == Lookup(m, tables, page))
    && (forall page :: IsPage(page) ==> (UpFlat(m', tables', page) <==> UpFlat(m, tables, page)))
  }

  /** Frames that hold no table are untouched. */
  ghost predicate DataKept(m: Frames, m': Frames, tables': map<Path, nat>) {
    |m'| == |m| && forall f :: 0 <= f < |m| && f !in tables'.Values ==> m'[f] == m[f]
  }

  lemma SameMapTwice(m0: Frames, t0: map<Path, nat>, m1: Frames, t1: map<Path, nat>, m2: Frames, t2: map<Path, nat>)
    requires SameMap(m0, t0, m1, t1) && SameMap(m1, t1, m2, t2)
    ensures SameMap(m0, t0, m2, t2)
  {
    hide Lookup, UpFlat;
  }

  lemma SameMapAt(m: Frames, t: map<Path, nat>, m': Frames, t': map<Path, nat>, page: Path)
    requires SameMap(m, t, m', t') && IsPage(page)
    ensures Lookup(m', t', page) == Lookup(m, t, page)
  {
  }

  lemma GrewLess(t0: map<Path, nat>, f0: set<nat>, t1: map<Path, nat>, f1: set<nat>)
    requires Grew(t0, f0, t1, f1)
    ensures f1 <= f0 && forall p :: p in t0 ==> p in t1 && t1[p] == t0[p]
  {
  }

  lemma DataKeptTwice(m0: Frames, m1: Frames, t1: map<Path, nat>, m2: Frames, t2: map<Path, nat>)
    requires DataKept(m0, m1, t1) && DataKept(m1, m2, t2)
    requires forall p :: p in t1 ==> p in t2 && t2[p] == t1[p]
    ensures DataKept(m0, m2, t2)
  {
    forall f | f in t1.Values ensures f in t2.Values {
      var p :| p in t1 && t1[p] == f;
      assert t2[p] == f;
    }
  }

  lemma AllWalks(m: Frames, root: nat, tables: map<Path, nat>)
    requires Tree(m, root, tables)
    ensures forall page :: IsPage(page) ==> Walk(m, root, page) == Lookup(m, tables, page)
    ensures forall page :: IsPage(page) ==> (Upper(m, root, page) <==> UpFlat(m, tables, page))
  {
    forall page | IsPage(page)
      ensures Walk(m, root, page) == Lookup(m, tables, page) && (Upper(m, root, page) <==> UpFlat(m, tables, page))
    {
      WalkIsLookup(m, root, tables, page);
      UpperIsFlat(m, root, tables, page);
    }
  }

  /** What one level of paging_map_page stores: nothing, or a link to the one spare frame. */
  ghost predicate OneStore(m: Frames, m': Frames, f: nat, i: nat, next: nat, spare: seq<nat>) {
    && f < |m| && |m[f]| == ENTRIES && i < ENTRIES
    && if Present(m[f][i]) then m' == m && next == FrameOf(m[f][i]) && spare == []
       else next < |m| && m' == Linked(m, f, i, next) && spare == [next]
  }

  lemma StoredOne(m: Frames, m': Frames, page: Path, n: nat, f: nat, next: nat, spare: seq<nat>, rest: seq<nat>, v: nat)
    requires IsPage(page) && n < 3 && OneStore(m, m', f, page[n], next, spare)
    ensures Stored(m, page, n, f, spare + rest, v) == Stored(m', page, n + 1, next, rest, v)
  {
    StoredStep(m, page, n, f, spare + rest, v);
    assert [] + rest == rest && ([next] + rest)[1..] == rest;
    hide Stored, Present, Linked, FrameOf;
  }

  /** What lets a page be written, read off its translation. */
  predicate Allows(t: Translation) {
    match t case Unmapped => false case Leaf(e) => WriteBit(e) case HugeLeaf(e) => WriteBit(e)
  }

  lemma AllWritable(m: Frames, root: nat)
    ensures forall page :: IsPage(page) ==> (Writable(m, root, page) <==> Upper(m, root, page) && Allows(Walk(m, root, page)))
  {
    forall page | IsPage(page) ensures Writable(m, root, page) <==> Upper(m, root, page) && Allows(Walk(m, root, page)) {
      WritableIs(m, root, page);
    }
  }

  function Mapped(pa: nat, flags: nat): Translation {
    if Present(flags) then Leaf(LeafEntry(pa, flags)) else Unmapped
  }

  class Paging {
    const pm: PhysMem
    const mem: array<Table>
    const root: nat                       // the frame in cr3
    ghost var tables: map<Path, nat>

    ghost predicate Valid()
      reads this, mem, pm, pm.frames, pm.bitmap
    {
      && pm.Valid()
      && mem as object != pm.frames as object && mem as object != pm.bitmap as object
      && mem.Length == pm.total <= 0x100_0000_0000
      && Tree(mem[..], root, tables)
      && tables.Values !! pm.Free()
    }

    /** paging_init: adopt the tables that the boot loader left in cr3. They must form a tree over frames
        that the frame allocator will not hand out. */
    constructor (pm: PhysMem, mem: array<Table>, cr3: nat, ghost boot: map<Path, nat>)
      requires pm.Valid() && mem as object != pm.frames as object && mem as object != pm.bitmap as object
      requires mem.Length == pm.total <= 0x100_0000_0000
      requires Tree(mem[..], FrameOf(cr3), boot) && boot.Values !! pm.Free()
      ensures Valid() && this.pm == pm && this.mem == mem && tables == boot && root == FrameOf(cr3)
    {
      this.pm, this.mem, root, tables := pm, mem, FrameOf(cr3), boot;
    }

    ghost function Translate(page: Path): Translation
      reads this, mem
    {
      Walk(mem[..], root, page)
    }

    /** The hardware lets the page be written. */
    ghost predicate CanWrite(page: Path)
      reads this, mem
    {
      Writable(mem[..], root, page)
    }

    /** Nothing above the last level forbids writing the page. */
    ghost predicate UpperWritable(page: Path)
      reads this, mem
    {
      Upper(mem[..], root, page)
    }

    /** One level of paging_map_page, lines 30-39, 41-50 and 52-61: the table that entry i of the table of level n leads to,
        made on demand. Bit 7 is not looked at, so under a large page the table is ordinary memory. */
    method NextTable(table: nat, i: nat, ghost page: Path, ghost n: nat) returns (ok: bool, next: nat, ghost spare: seq<nat>)
      requires Valid() && IsPage(page) && n < 3 && i == page[n] && Sound(mem[..], tables, pm.Free(), page, n, table)
      modifies this`tables, mem, pm.frames, pm.bitmap
      ensures Valid() && Grew(old(tables), old(pm.Free()), tables, pm.Free())
      ensures ok ==> Sound(mem[..], tables, pm.Free(), page, n + 1, next) && next < mem.Length
      ensures ok && old(Genuine(tables, page, n, table)) && !old(LargeAt(mem[..], tables, page[..n], page[n])) ==>
                Genuine(tables, page, n + 1, next)
      ensures !ok ==> pm.Full() && (old(Genuine(tables, page, n, table)) ==> page[..n + 1] !in tables)
      ensures SameMap(old(mem[..]), old(tables), mem[..], tables)
      ensures old(Genuine(tables, page, n, table)) ==> DataKept(old(mem[..]), mem[..], tables)
      ensures ok ==> OneStore(old(mem[..]), mem[..], table, i, next, spare) && forall f :: f in spare ==> f in old(pm.Free())
    {
      hide Test, TableEntry, FrameOf, Huge, EntryAt, Tree, Child, FirstFit, NoFit, Lookup, FreeBelow, UpFlat;
      ghost var m0, t0, free0 := mem[..], tables, pm.Free();
      TableLength(m0, root, t0, table);
      SoundHere(m0, root, t0, free0, page, n, table);
      var e := mem[table][i];
      if Present(e) {
        return true, FrameOf(e), [];
      }
      var phys := pm.AllocTo(1);
      assert mem[..] == m0;
      if phys == 0 { return false, 0, []; }
      next := phys / PAGE_SIZE;
      AllocatedFrame(old(pm.bitmap[..]), pm.total, next);
      LinkSound(m0, root, t0, free0, pm.Free(), page, n, table, next);
      mem[table] := mem[table][i := TableEntry(next)];
      mem[next] := Zeros();
      assert mem[..] == Linked(m0, table, i, next);
      if Genuine(t0, page, n, table) {
        tables := tables[page[..n + 1] := next];
      }
      ok, spare := true, [next];
    }

    /** Lines 24-61 of paging_map_page: the last-level table for va, with every missing table on the way. */
    method Descend(va: nat) returns (ok: bool, pt: nat, ghost spare: seq<nat>)
      requires Valid() && Sound(mem[..], tables, pm.Free(), PageOf(va), 0, root)
      modifies this`tables, mem, pm.frames, pm.bitmap
      ensures Valid() && Grew(old(tables), old(pm.Free()), tables, pm.Free())
      ensures ok ==> Sound(mem[..], tables, pm.Free(), PageOf(va), 3, pt)
      ensures ok && !old(Translate(PageOf(va))).HugeLeaf? ==> Genuine(tables, PageOf(va), 3, pt)
      ensures !ok ==> pm.Full() && PageOf(va)[..3] !in tables
      ensures SameMap(old(mem[..]), old(tables), mem[..], tables)
      ensures !old(Translate(PageOf(va))).HugeLeaf? ==> DataKept(old(mem[..]), mem[..], tables)
      ensures ok ==> forall f :: f in spare ==> f in old(pm.Free())
      ensures ok ==> forall v :: Stored(old(mem[..]), PageOf(va), 0, root, spare, v) == Stored(mem[..], PageOf(va), 3, pt, [], v)
    {
      hide Tree, Lookup, LargeAt, Walk, Sound, Stored, Genuine, OneStore, UpFlat, Upper, DataKept, SameMap, Grew;
      ghost var m0, t0, f0 := mem[..], tables, pm.Free();
      ghost var page := PageOf(va);
      AllWalks(m0, root, t0);
      assert Genuine(t0, page, 0, root) by { RootGenuine(m0, root, t0, page); }
      if !Translate(page).HugeLeaf? { NoneLarge(m0, root, t0, page, 0); }
      pt := 0;
      var pdpt, pd;
      ghost var s1, s2, s3;
      ok, pdpt, s1 := NextTable(root, va / 0x80_0000_0000 % 512, page, 0);
      spare := [];
      if !ok { MissingBelow(mem[..], root, tables, page, 1); return; }
      ghost var m1, t1, f1 := mem[..], tables, pm.Free();
      GrewLess(t0, f0, t1, f1);
      SameMapAt(m0, t0, m1, t1, page);
      if !old(Translate(page)).HugeLeaf? { NoneLarge(m1, root, t1, page, 1); }
      ok, pd, s2 := NextTable(pdpt, va / 0x4000_0000 % 512, page, 1);
      GrewTwice(t0, f0, t1, f1, tables, pm.Free());
      GrewLess(t1, f1, tables, pm.Free());
      SameMapTwice(m0, t0, m1, t1, mem[..], tables);
      SameMapAt(m0, t0, mem[..], tables, page);
      if !old(Translate(page)).HugeLeaf? { DataKeptTwice(m0, m1, t1, mem[..], tables); }
      if !ok { NoTable(mem[..], root, tables, page, 2); return; }
      ghost var m2, t2, f2 := mem[..], tables, pm.Free();
      if !old(Translate(page)).HugeLeaf? { NoneLarge(m2, root, t2, page, 2); }
      ok, pt, s3 := NextTable(pd, va / 0x20_0000 % 512, page, 2);
      GrewTwice(t0, f0, t2, f2, tables, pm.Free());
      GrewLess(t2, f2, tables, pm.Free());
      SameMapTwice(m0, t0, m2, t2, mem[..], tables);
      SameMapAt(m0, t0, mem[..], tables, page);
      if !old(Translate(page)).HugeLeaf? { DataKeptTwice(m0, m2, t2, mem[..], tables); }
      if !ok { NoTable(mem[..], root, tables, page, 3); return; }
      spare := s1 + (s2 + (s3 + []));
      ghost var m3 := mem[..];
      forall v ensures Stored(m0, page, 0, root, spare, v) == Stored(m3, page, 3, pt, [], v) {
        StoredOne(m2, m3, page, 2, pd, pt, s3, [], v);
        StoredOne(m1, m2, page, 1, pdpt, pd, s2, s3 + [], v);
        StoredOne(m0, m1, page, 0, root, pdpt, s1, s2 + (s3 + []), v);
      }
    }

    lemma RootGenuine(m: Frames, root: nat, t: map<Path, nat>, page: Path)
      requires Tree(m, root, t) && IsPage(page)
      ensures Genuine(t, page, 0, root)
    {
      assert page[..0] == [];
    }

    lemma MissingBelow(m: Frames, root: nat, t: map<Path, nat>, page: Path, n: nat)
      requires Tree(m, root, t) && IsPage(page) && n <= 3 && page[..n] !in t
      ensures page[..3] !in t
    {
      PrefixIn(m, root, t, page[..3], n);
      assert page[..3][..n] == page[..n];
    }

    /** A page without a table at level n, or under a large page, has no last-level table. */
    lemma NoTable(m: Frames, root: nat, t: map<Path, nat>, page: Path, n: nat)
      requires Tree(m, root, t) && IsPage(page) && n <= 3
      requires page[..n] !in t || Lookup(m, t, page).HugeLeaf?
      ensures page[..3] !in t
    {
      if page[..n] !in t { MissingBelow(m, root, t, page, n); }
    }

    /** paging_map_page refines the update of one page in the flat map, if no large page covers the page; under a large page
        whose misread frames are ordinary memory it changes no translation. Its stores are exactly Stored. */
    method MapPage(va: nat, pa: nat, flags: nat) returns (ok: bool)
      requires Valid() && (Translate(PageOf(va)).HugeLeaf? ==> Sound(mem[..], tables, pm.Free(), PageOf(va), 0, root))
      modifies this`tables, mem, pm.frames, pm.bitmap
      ensures Valid() && Grew(old(tables), old(pm.Free()), tables, pm.Free())
      ensures var covered := old(Translate(PageOf(va))).HugeLeaf?;
              && (forall page :: IsPage(page) ==>
                    Translate(page) == if ok && page == PageOf(va) && !covered then Mapped(pa, flags) else old(Translate(page)))
              && (!covered ==> DataKept(old(mem[..]), mem[..], tables))
              && (ok && !covered ==> (CanWrite(PageOf(va)) <==> Present(flags) && WriteBit(flags) && old(UpperWritable(PageOf(va)))))
      ensures forall page :: IsPage(page) && page != PageOf(va) ==> CanWrite(page) == old(CanWrite(page))
      ensures forall page :: IsPage(page) ==> UpperWritable(page) == old(UpperWritable(page))
      ensures ok ==> exists spare :: (forall f :: f in spare ==> f in old(pm.Free()))
                                     && mem[..] == Stored(old(mem[..]), PageOf(va), 0, root, spare, LeafEntry(pa, flags))
      ensures !ok ==> pm.Full() && PageOf(va)[..3] !in tables
    {
      hide Tree, Lookup, LeafEntry, Present, WriteBit, Walk, Child, Sound, Stored, Genuine, UpFlat, Upper, Writable;
      ghost var m0, t0, page := mem[..], tables, PageOf(va);
      AllWalks(m0, root, t0);
      AllWritable(m0, root);
      if !Translate(page).HugeLeaf? {
        RootGenuine(m0, root, t0, page);
        UncoveredSound(m0, root, t0, pm.Free(), page, 0, root);
      }
      var pt;
      ghost var spare;
      ok, pt, spare := Descend(va);
      AllWalks(mem[..], root, tables);
      AllWritable(mem[..], root);
      if !ok { return; }
      ghost var m := mem[..];
      var entry := LeafEntry(pa, flags);
      SoundLast(m, root, tables, pm.Free(), page, pt, [], entry);
      mem[pt] := mem[pt][va / 0x1000 % 512 := entry];
      assert mem[..] == WithEntry(m, pt, page[3], entry);
      StoredLeaf(m, root, tables, page, pt, entry);
      AllWalks(mem[..], root, tables);
      AllWritable(mem[..], root);
      LeafPresent(pa, flags);
      LeafWritable(pa, flags);
    }

    /** is_page_mapped: the entries' bits as the code reads them, which is the hardware's answer unless a large page covers the page. */
    method IsPageMapped(va: nat) returns (r: bool)
      requires Valid() && (Translate(PageOf(va)).HugeLeaf? ==> Readable(mem[..], PageOf(va), 0, root))
      ensures r <==> Seen(mem[..], PageOf(va), 0, root)
      ensures !Translate(PageOf(va)).HugeLeaf? ==> (r <==> Translate(PageOf(va)) != Unmapped)
    {
      hide Tree, FrameOf, Huge, Walk, Lookup, Genuine;
      var page := PageOf(va);
      ghost var m := mem[..];
      AllWalks(m, root, tables);
      if !Translate(page).HugeLeaf? {
        RootGenuine(m, root, tables, page);
        UncoveredSound(m, root, tables, {}, page, 0, root);
      }
      TableLengths(m, root, tables);
      if !Present(mem[root][page[0]]) { return false; }
      var pdpt := FrameOf(mem[root][page[0]]);
      assert Readable(m, page, 1, pdpt);
      if !Present(mem[pdpt][page[1]]) { return false; }
      var pd := FrameOf(mem[pdpt][page[1]]);
      assert Readable(m, page, 2, pd);
      if !Present(mem[pd][page[2]]) { return false; }
      var pt := FrameOf(mem[pd][page[2]]);
      assert Readable(m, page, 3, pt);
      r := Present(mem[pt][page[3]]);
    }

    /** No large page covers the region. */
    ghost predicate NoneLargeIn(virt: nat, n: nat)
      reads this, mem
    {
      forall page :: IsPage(page) && InRegion(page, virt, n) ==> !Translate(page).HugeLeaf?
    }

    /** The frames [p, p + n) are ordinary memory: in range, not tables, and not for the frame allocator to hand out. */
    ghost predicate DataFrames(p: nat, n: nat)
      reads this, mem, pm, pm.frames, pm.bitmap
    {
      p + n <= mem.Length && forall f :: p <= f < p + n ==> f !in tables.Values && f !in pm.Free()
    }

    /** memset((u64 *)virt, 0, size) over the pages just mapped: each store goes where the walk leads. */
    method ZeroRegion(phys: nat, virt: nat, n: nat)
      requires Valid() && RegionOk(virt, n * PAGE_SIZE) && phys % PAGE_SIZE == 0 && DataFrames(phys / PAGE_SIZE, n)
      requires forall page :: IsPage(page) && InRegion(page, virt, n) ==>
                 Translate(page) == RegionMap(page, phys, virt, n, Unmapped)
      modifies mem
      ensures Valid()
      ensures forall page :: IsPage(page) ==> Translate(page) == old(Translate(page)) && UpperWritable(page) == old(UpperWritable(page))
      ensures forall f :: phys / PAGE_SIZE <= f < phys / PAGE_SIZE + n ==> mem[f] == Zeros()
      ensures DataKeptBut(old(mem[..]), mem[..], tables, phys / PAGE_SIZE, n)
    {
      hide Tree, Lookup, Walk, LeafEntry, Or, PageOf, RegionMap, InRegion, FrameOf, RegionOk, Upper, UpFlat;
      ghost var m0, p0 := mem[..], phys / PAGE_SIZE;
      for i := 0 to n
        invariant Valid()
        invariant forall page :: IsPage(page) ==> Translate(page) == Walk(m0, root, page) && UpperWritable(page) == Upper(m0, root, page)
        invariant forall f :: p0 <= f < p0 + i ==> mem[f] == Zeros()
        invariant DataKeptBut(m0, mem[..], tables, p0, n)
      {
        ghost var m := mem[..];
        var page := PageOf(virt + i * PAGE_SIZE);
        RegionEntry(phys, virt, i, n);
        var t := Walk(mem[..], root, page);
        var f := FrameOf(t.entry);
        mem[f] := Zeros();
        AllWalks(m, root, tables);
        TableLengths(m, root, tables);
        OutsideTables(m, mem[..], root, tables);
        AllWalks(mem[..], root, tables);
      }
    }

    /** map_region: the pages of [virt, virt + size) map to the frames from phys on, writable and zeroed;
        every other page translates as before and every other data frame is untouched. */
    method MapRegion(phys: nat, virt: nat, size: nat) returns (ok: bool)
      requires Valid()
      requires RegionOk(virt, size) && phys % PAGE_SIZE == 0 && DataFrames(phys / PAGE_SIZE, size / PAGE_SIZE)
      requires NoneLargeIn(virt, size / PAGE_SIZE)
      modifies this`tables, mem, pm.frames, pm.bitmap
      ensures Valid() && Grew(old(tables), old(pm.Free()), tables, pm.Free())
      ensures ok ==> forall page :: IsPage(page) ==>
                Translate(page) == RegionMap(page, phys, virt, size / PAGE_SIZE, old(Translate(page)))
      ensures forall page :: IsPage(page) ==> UpperWritable(page) == old(UpperWritable(page))
      ensures ok ==> forall page :: IsPage(page) ==>
                CanWrite(page) == if InRegion(page, virt, size / PAGE_SIZE) then old(UpperWritable(page)) else old(CanWrite(page))
      ensures forall f :: phys / PAGE_SIZE <= f < phys / PAGE_SIZE + size / PAGE_SIZE ==>
                f !in tables.Values && (ok ==> mem[f] == Zeros())
      ensures !ok ==> pm.Full()
      ensures DataKeptBut(old(mem[..]), mem[..], tables, phys / PAGE_SIZE, size / PAGE_SIZE)
    {
      hide Tree, Lookup, Walk, LeafEntry, Or, PageOf, RegionMap, InRegion, Upper, Writable, WriteBit;
      ghost var m0, t0, f0, p0 := mem[..], tables, pm.Free(), phys / PAGE_SIZE;
      var frames := size / PAGE_SIZE;
      RegionNone(phys, virt);
      ok := true;
      for i := 0 to frames
        invariant Valid() && Grew(t0, f0, tables, pm.Free()) && DataFrames(p0, frames)
        invariant DataKept(m0, mem[..], tables)
        invariant forall page :: IsPage(page) ==> UpperWritable(page) == Upper(m0, root, page)
        invariant forall page :: IsPage(page) ==>
                    Translate(page) == RegionMap(page, phys, virt, i, Walk(m0, root, page))
      {
        ghost var m1, t1, f1 := mem[..], tables, pm.Free();
        RegionHas(virt, i, frames);
        RegionAhead(PageOf(virt + i * PAGE_SIZE), phys, virt, i, frames, Walk(m0, root, PageOf(virt + i * PAGE_SIZE)));
        ok := MapPage(virt + i * PAGE_SIZE, phys + i * PAGE_SIZE, PTE_PRESENT + PTE_WRITABLE);
        GrewTwice(t0, f0, t1, f1, tables, pm.Free());
        DataKeptTwice(m0, m1, t1, mem[..], tables);
        DataStays(t1, f1, tables, pm.Free(), p0, frames);
        if !ok { return; }
        forall page | IsPage(page)
          ensures Translate(page) == RegionMap(page, phys, virt, i + 1, Walk(m0, root, page))
        {
          RegionStep(page, phys, virt, i, frames, Walk(m0, root, page));
        }
      }
      RegionInside(phys, virt, frames);
      ghost var m1 := mem[..];
      ZeroRegion(phys, virt, frames);
      DataKeptButTwice(m0, m1, mem[..], tables, p0, frames);
      RegionWritable(m0, mem[..], root, phys, virt, frames);
      ok := true;
    }

    /** map_region_alloc: the region gets freshly allocated frames. */
    method MapRegionAlloc(virt: nat, size: nat) returns (ok: bool, phys: nat)
      requires Valid() && RegionOk(virt, size) && NoneLargeIn(virt, size / PAGE_SIZE)
      modifies this`tables, mem, pm.frames, pm.bitmap
      ensures Valid() && Grew(old(tables), old(pm.Free()), tables, pm.Free())
      ensures ok ==> phys % PAGE_SIZE == 0 && FirstFit(old(pm.bitmap[..]), pm.total, phys / PAGE_SIZE, size / PAGE_SIZE)
      ensures ok ==> forall page :: IsPage(page) ==>
                Translate(page) == RegionMap(page, phys, virt, size / PAGE_SIZE, old(Translate(page)))
      ensures ok ==> forall page :: IsPage(page) ==>
                CanWrite(page) == if InRegion(page, virt, size / PAGE_SIZE) then old(UpperWritable(page)) else old(CanWrite(page))
      ensures ok ==> forall f :: phys / PAGE_SIZE <= f < phys / PAGE_SIZE + size / PAGE_SIZE ==>
                f in old(pm.Free()) && f !in pm.Free() && f !in tables.Values && mem[f] == Zeros()
      ensures !ok ==> size / PAGE_SIZE == 0 || NoFit(old(pm.bitmap[..]), pm.total, size / PAGE_SIZE) || pm.Full()
    {
      hide Tree, Walk, FirstFit, NoFit, FreeBelow, RegionMap, RegionOk, Test, Upper, Writable, InRegion;
      ghost var m0, t0, f0 := mem[..], tables, pm.Free();
      var frames := size / PAGE_SIZE;
      FramesFit(virt, size);
      phys := pm.AllocTo(frames);
      assert mem[..] == m0;
      if phys == 0 {
        return false, 0;
      }
      ClaimedFrames(old(pm.bitmap[..]), pm.total, phys / PAGE_SIZE, frames);
      ghost var f1 := pm.Free();
      ok := MapRegion(phys, virt, size);
      GrewTwice(t0, f0, t0, f1, tables, pm.Free());
    }

    /** map_user_space_region: pages that are already mapped keep their translation; the others are filled in. */
    method MapUserSpaceRegion(physStart: nat, size: nat) returns (ok: bool)
      requires Valid() && RegionOk(ULIME_START, FrameCount(size) * PAGE_SIZE) && NoneLargeIn(ULIME_START, FrameCount(size))
      modifies this`tables, mem, pm.frames, pm.bitmap
      ensures Valid() && Grew(old(tables), old(pm.Free()), tables, pm.Free())
      ensures ok ==> physStart % PAGE_SIZE == 0
      ensures !ok ==> physStart % PAGE_SIZE != 0 || pm.Full()
      ensures ok ==> forall page :: IsPage(page) ==>
                Translate(page) == if old(Translate(page)) != Unmapped then old(Translate(page))
                                   else RegionMap(page, physStart, ULIME_START, FrameCount(size), Unmapped)
      ensures ok ==> forall page :: IsPage(page) ==>
                CanWrite(page) == if InRegion(page, ULIME_START, FrameCount(size)) && old(Translate(page)) == Unmapped
                                  then old(UpperWritable(page)) else old(CanWrite(page))
      ensures DataKept(old(mem[..]), mem[..], tables)
    {
      hide Tree, Walk, LeafEntry, PageOf, RegionMap, RegionOk, FrameCount, Stored, Seen, Sound, Readable, InRegion, Upper, Writable;
      ghost var m0, t0, f0 := mem[..], tables, pm.Free();
      if physStart % PAGE_SIZE != 0 { return false; }
      var pages := FrameCount(size);
      RegionNone(physStart, ULIME_START);
      ok := true;
      for i := 0 to pages
        invariant Valid() && Grew(t0, f0, tables, pm.Free()) && DataKept(m0, mem[..], tables)
        invariant forall page :: IsPage(page) ==> UpperWritable(page) == Upper(m0, root, page)
        invariant forall page :: IsPage(page) ==>
                    Translate(page) == if Walk(m0, root, page) != Unmapped then Walk(m0, root, page)
                                       else RegionMap(page, physStart, ULIME_START, i, Unmapped)
      {
        ghost var m1, t1, f1 := mem[..], tables, pm.Free();
        RegionHas(ULIME_START, i, pages);
        RegionAhead(PageOf(ULIME_START + i * PAGE_SIZE), physStart, ULIME_START, i, pages, Unmapped);
        var mapped := IsPageMapped(ULIME_START + i * PAGE_SIZE);
        RegionPresent(physStart, i);
        forall page | IsPage(page)
          ensures RegionMap(page, physStart, ULIME_START, i + 1, Unmapped)
                  == if page == PageOf(ULIME_START + i * PAGE_SIZE)
                     then Mapped(physStart + i * PAGE_SIZE, PTE_PRESENT + PTE_WRITABLE)
                     else RegionMap(page, physStart, ULIME_START, i, Unmapped)
          ensures page == PageOf(ULIME_START + i * PAGE_SIZE) ==>
                    RegionMap(page, physStart, ULIME_START, i, Unmapped) == Unmapped
        {
          RegionStep(page, physStart, ULIME_START, i, pages, Unmapped);
          RegionAhead(page, physStart, ULIME_START, i, pages, Unmapped);
        }
        if !mapped {
          ok := MapPage(ULIME_START + i * PAGE_SIZE, physStart + i * PAGE_SIZE, PTE_PRESENT + PTE_WRITABLE);
          GrewTwice(t0, f0, t1, f1, tables, pm.Free());
          DataKeptTwice(m0, m1, t1, mem[..], tables);
          if !ok { return; }
        }
      }
      FilledWritable(m0, mem[..], root, physStart, ULIME_START, pages);
    }
  }

  const ULIME_START: nat := 0xFFFF_8000_0000_0000 + 2 * (1024 * 1024 * 32)

  lemma FramesFit(virt: nat, size: nat)
    requires RegionOk(virt, size)
    ensures size / PAGE_SIZE < U64
  {
  }

  lemma RegionPresent(phys: nat, i: nat)
    ensures Mapped(phys + i * PAGE_SIZE, PTE_PRESENT + PTE_WRITABLE) != Unmapped
  {
  }

  /** Before its turn, page i is outside the part of the region already mapped. */
  lemma RegionHas(virt: nat, i: nat, n: nat)
    requires RegionOk(virt, n * PAGE_SIZE) && i < n
    ensures InRegion(PageOf(virt + i * PAGE_SIZE), virt, n)
  {
    hide PageOf;
    RegionPage(virt, i, n);
  }

  lemma RegionAhead(page: Path, phys: nat, virt: nat, i: nat, n: nat, before: Translation)
    requires IsPage(page) && RegionOk(virt, n * PAGE_SIZE) && i < n
    ensures page == PageOf(virt + i * PAGE_SIZE) ==> RegionMap(page, phys, virt, i, before) == before
  {
    hide PageOf;
    RegionPage(virt, i, n);
  }

  lemma ClaimedFrames(bits: seq<bv8>, total: nat, s: nat, n: nat)
    requires FirstFit(bits, total, s, n)
    ensures s + n <= total && Range(s, n) <= FreeBelow(bits, total)
    ensures forall f :: s <= f < s + n ==> f in FreeBelow(bits, total) && f in Range(s, n)
  {
  }

  /** Data frames outside [p, p + n) are untouched. */
  ghost predicate DataKeptBut(m: Frames, m': Frames, tables': map<Path, nat>, p: nat, n: nat) {
    |m'| == |m| && forall f :: 0 <= f < |m| && f !in tables'.Values && !(p <= f < p + n) ==> m'[f] == m[f]
  }

  lemma DataKeptButTwice(m0: Frames, m1: Frames, m2: Frames, tables: map<Path, nat>, p: nat, n: nat)
    requires DataKept(m0, m1, tables) && DataKeptBut(m1, m2, tables, p, n)
    ensures DataKeptBut(m0, m2, tables, p, n)
  {
  }

  /** Growth of the tree never reaches a frame that was not free. */
  lemma DataStays(t: map<Path, nat>, free: set<nat>, t': map<Path, nat>, free': set<nat>, p: nat, n: nat)
    requires Grew(t, free, t', free') && forall f :: p <= f < p + n ==> f !in t.Values && f !in free
    ensures forall f :: p <= f < p + n ==> f !in t'.Values && f !in free'
  {
    forall f | p <= f < p + n ensures f !in t'.Values && f !in free' {
      assert f in t'.Values - t.Values ==> f in free - free';
    }
  }

  lemma TableLengths(m: Frames, root: nat, tables: map<Path, nat>)
    requires Tree(m, root, tables)
    ensures forall f :: 0 <= f < |m| ==> |m[f]| == ENTRIES
  {
  }

  /** A page-aligned region that ends at or below the top of the 48-bit space. */
  ghost predicate RegionOk(virt: nat, size: nat) {
    && virt % PAGE_SIZE == 0 && size % PAGE_SIZE == 0 && virt + size <= U64
    && virt / PAGE_SIZE % 0x10_0000_0000 + size / PAGE_SIZE <= 0x10_0000_0000
  }

  ghost predicate InRegion(page: Path, virt: nat, n: nat)
    requires |page| == 4
  {
    var first := virt / PAGE_SIZE % 0x10_0000_0000;
    first <= Number(page) < first + n
  }

  /** What n mapped pages from virt on make of one page. */
  ghost function RegionMap(page: Path, phys: nat, virt: nat, n: nat, before: Translation): Translation
    requires |page| == 4
  {
    if InRegion(page, virt, n) then
      Leaf(LeafEntry(phys + (Number(page) - virt / PAGE_SIZE % 0x10_0000_0000) * PAGE_SIZE, PTE_PRESENT + PTE_WRITABLE))
    else before
  }

  lemma RegionNone(phys: nat, virt: nat)
    ensures forall page, before :: IsPage(page) ==> RegionMap(page, phys, virt, 0, before) == before
  {
  }

  lemma RegionInside(phys: nat, virt: nat, n: nat)
    ensures forall page, before :: IsPage(page) && InRegion(page, virt, n) ==>
              RegionMap(page, phys, virt, n, before) == RegionMap(page, phys, virt, n, Unmapped)
  {
  }

  /** Page i of a region. */
  lemma RegionPage(virt: nat, i: nat, n: nat)
    requires RegionOk(virt, n * PAGE_SIZE) && i < n
    ensures Number(PageOf(virt + i * PAGE_SIZE)) == virt / PAGE_SIZE % 0x10_0000_0000 + i
  {
    hide PageOf;
    var v := virt / PAGE_SIZE;
    PageNumber(virt + i * PAGE_SIZE);
    QuotientIs(virt + i * PAGE_SIZE, 4096, v + i, 0);
    QuotientIs(v + i, 0x10_0000_0000, v / 0x10_0000_0000, v % 0x10_0000_0000 + i);
  }

  /** Mapping page i extends the mapped part of the region by that page and no other. */
  /** After the loop of map_region its pages can be written when nothing above them forbids it. */
  lemma RegionWritable(m: Frames, m': Frames, root: nat, phys: nat, virt: nat, n: nat)
    requires forall page :: IsPage(page) ==> Walk(m', root, page) == RegionMap(page, phys, virt, n, Walk(m, root, page))
    requires forall page :: IsPage(page) ==> (Upper(m', root, page) <==> Upper(m, root, page))
    ensures forall page :: IsPage(page) ==>
              (Writable(m', root, page) <==> if InRegion(page, virt, n) then Upper(m, root, page) else Writable(m, root, page))
  {
    hide Walk, Upper, Writable, InRegion, LeafEntry, WriteBit;
    AllWritable(m, root);
    AllWritable(m', root);
    forall page | IsPage(page) && InRegion(page, virt, n) ensures Allows(RegionMap(page, phys, virt, n, Walk(m, root, page))) {
      RegionAllows(page, phys, virt, n, Walk(m, root, page));
    }
  }

  /** The same where mapped pages are left as they are. */
  lemma FilledWritable(m: Frames, m': Frames, root: nat, phys: nat, virt: nat, n: nat)
    requires forall page :: IsPage(page) ==>
               Walk(m', root, page) == if Walk(m, root, page) != Unmapped then Walk(m, root, page)
                                       else RegionMap(page, phys, virt, n, Unmapped)
    requires forall page :: IsPage(page) ==> (Upper(m', root, page) <==> Upper(m, root, page))
    ensures forall page :: IsPage(page) ==>
              (Writable(m', root, page) <==> if InRegion(page, virt, n) && Walk(m, root, page) == Unmapped then Upper(m, root, page)
                                             else Writable(m, root, page))
  {
    hide Walk, Upper, Writable, InRegion, LeafEntry, WriteBit;
    AllWritable(m, root);
    AllWritable(m', root);
    forall page | IsPage(page) && InRegion(page, virt, n) ensures Allows(RegionMap(page, phys, virt, n, Unmapped)) {
      RegionAllows(page, phys, virt, n, Unmapped);
    }
  }

  lemma RegionAllows(page: Path, phys: nat, virt: nat, n: nat, before: Translation)
    requires IsPage(page) && InRegion(page, virt, n)
    ensures Allows(RegionMap(page, phys, virt, n, before))
  {
    hide LeafEntry;
    var i: nat := Number(page) - virt / PAGE_SIZE % 0x10_0000_0000;
    assert RegionMap(page, phys, virt, n, before) == Leaf(LeafEntry(phys + i * PAGE_SIZE, PTE_PRESENT + PTE_WRITABLE));
    LeafWritable(phys + i * PAGE_SIZE, PTE_PRESENT + PTE_WRITABLE);
  }

  lemma RegionStep(page: Path, phys: nat, virt: nat, i: nat, n: nat, before: Translation)
    requires IsPage(page) && RegionOk(virt, n * PAGE_SIZE) && i < n
    ensures RegionMap(page, phys, virt, i + 1, before)
            == if page == PageOf(virt + i * PAGE_SIZE) then Mapped(phys + i * PAGE_SIZE, PTE_PRESENT + PTE_WRITABLE)
               else RegionMap(page, phys, virt, i, before)
  {
    hide PageOf, LeafEntry;
    RegionPage(virt, i, n);
    if Number(page) == Number(PageOf(virt + i * PAGE_SIZE)) { SameNumber(page, PageOf(virt + i * PAGE_SIZE)); }
  }

  /** Page i of a mapped region leads to frame i of its physical range. */
  lemma RegionEntry(phys: nat, virt: nat, i: nat, n: nat)
    requires RegionOk(virt, n * PAGE_SIZE) && i < n && phys % PAGE_SIZE == 0 && phys / PAGE_SIZE + n <= 0x100_0000_0000
    ensures var page := PageOf(virt + i * PAGE_SIZE);
            && InRegion(page, virt, n)
            && RegionMap(page, phys, virt, n, Unmapped).Leaf?
            && FrameOf(RegionMap(page, phys, virt, n, Unmapped).entry) == phys / PAGE_SIZE + i
  {
    hide PageOf, LeafEntry;
    RegionPage(virt, i, n);
    LeafExact(phys + i * PAGE_SIZE, PTE_PRESENT + PTE_WRITABLE);
    assert (phys + i * PAGE_SIZE) / 4096 == phys / PAGE_SIZE + i;
  }

  lemma AllocatedFrame(bits: seq<bv8>, total: nat, s: nat)
    requires FirstFit(bits, total, s, 1)
    ensures s < total && s in FreeBelow(bits, total) && Range(s, 1) == {s}
  {
  }
}
