/** 4-level page tables as values: what the hardware walk of Intel SDM Vol. 3A, section 4.5 sees in memory,
    and the tree of tables that core/kernel/mem/paging/paging.c builds for it. */
module PageTable {
  import opened Arith

  const PTE_PRESENT: nat := 1
  const PTE_WRITABLE: nat := 2
  const ENTRIES: nat := 512

  // Memory is a sequence of frames; a frame read as a table is 512 entries.
  type Table = seq<nat>
  type Frames = seq<Table>

  predicate Present(e: nat) { e % 2 == 1 }
  predicate WriteBit(e: nat) { e / 2 % 2 == 1 }
  predicate Huge(e: nat) { e / 128 % 2 == 1 }

  /** Bits 12 to 51: the mask 0x000FFFFFFFFFF000, as a frame number. */
  function FrameOf(e: nat): nat { e / 4096 % 0x100_0000_0000 }

  /** a | b */
  function Or(a: nat, b: nat): nat
    decreases a
  {
    if a == 0 then b
    else 2 * Or(a / 2, b / 2) + if a % 2 == 1 || b % 2 == 1 then 1 else 0
  }

  /** An entry that points to a table: (frame & mask) | PTE_PRESENT | PTE_WRITABLE. */
  function TableEntry(frame: nat): nat { Or(frame * 4096, Or(PTE_PRESENT, PTE_WRITABLE)) }

  /** (physical_addr & mask) | flags */
  function LeafEntry(physicalAddr: nat, flags: nat): nat { Or(FrameOf(physicalAddr) * 4096, flags) }

  // ---------- bit arithmetic ----------

  /** x << k */
  function Shl(x: nat, k: nat): nat {
    if k == 0 then x else 2 * Shl(x, k - 1)
  }

  lemma {:induction false} ShlIsProduct(x: nat, k: nat)
    ensures Shl(x, k) == x * Shl(1, k)
    decreases k
  {
    if k > 0 {
      ShlIsProduct(x, k - 1);
      var one := Shl(1, k - 1);
      assert Shl(x, k) == 2 * Shl(x, k - 1) && Shl(1, k) == 2 * one;
      hide Shl;
      Doubled(x, one);
    }
  }

  lemma Doubled(x: nat, y: nat)
    ensures 2 * (x * y) == x * (2 * y)
  {
  }

  lemma Shl12(x: nat)
    ensures Shl(x, 12) == x * 4096
  {
    ShlIsProduct(x, 12);
    assert Shl(1, 12) == 4096;
  }

  lemma Shl40(x: nat)
    ensures Shl(x, 40) == x * 0x100_0000_0000
  {
    ShlIsProduct(x, 40);
    assert Shl(1, 10) == 0x400;
    assert Shl(1, 20) == 0x10_0000;
    assert Shl(1, 30) == 0x4000_0000;
    assert Shl(1, 40) == 0x100_0000_0000;
  }

  /** The low k bits of an or come from the operand that has them when the other one has none. */
  lemma {:induction false} OrShifted(x: nat, k: nat, low: nat, h: nat)
    requires low < Shl(1, k)
    ensures Or(Shl(x, k), low + Shl(h, k)) == low + Shl(Or(x, h), k)
    decreases k
  {
    if k > 0 {
      OrShifted(x, k - 1, low / 2, h);
      if Shl(x, k) == 0 { ShlZero(x, k); ShlZero(x, k - 1); }
    }
  }

  lemma {:induction false} ShlZero(x: nat, k: nat)
    requires Shl(x, k) == 0
    ensures x == 0
    decreases k
  {
    if k > 0 { ShlZero(x, k - 1); }
  }

  /** Operands without a common bit: the or is the sum. */
  lemma {:induction false} OrApart(x: nat, k: nat, h: nat)
    requires x < Shl(1, k)
    ensures Or(x, Shl(h, k)) == x + Shl(h, k)
    decreases k
  {
    if k > 0 && x > 0 { OrApart(x / 2, k - 1, h); }
  }

  lemma OrFrame(frame: nat, flags: nat)
    ensures Or(frame * 4096, flags) == flags % 4096 + Or(frame, flags / 4096) * 4096
  {
    Shl12(frame);
    Shl12(1);
    Shl12(flags / 4096);
    Shl12(Or(frame, flags / 4096));
    OrShifted(frame, 12, flags % 4096, flags / 4096);
  }

  lemma OrNothing(x: nat)
    ensures Or(x, 0) == x
  {
  }

  /** A leaf is present exactly when its flags say so. */
  lemma LeafPresent(pa: nat, flags: nat)
    ensures Present(LeafEntry(pa, flags)) <==> Present(flags)
  {
    hide Or, FrameOf;
    OrFrame(FrameOf(pa), flags);
    LowBit(flags % 4096, Or(FrameOf(pa), flags / 4096));
    LowBit(flags % 4096, flags / 4096);
  }

  /** A leaf can be written through exactly when its flags say so. */
  lemma LeafWritable(pa: nat, flags: nat)
    ensures WriteBit(LeafEntry(pa, flags)) <==> WriteBit(flags)
  {
    hide Or, FrameOf;
    OrFrame(FrameOf(pa), flags);
    SecondBit(flags % 4096, Or(FrameOf(pa), flags / 4096));
    SecondBit(flags % 4096, flags / 4096);
  }

  lemma SecondBit(low: nat, q: nat)
    ensures (low + q * 4096) / 2 % 2 == low / 2 % 2
  {
    assert (low + q * 4096) / 2 == low / 2 + q * 2048;
  }

  lemma LowBit(low: nat, q: nat)
    ensures (low + q * 4096) % 2 == low % 2
  {
  }

  /** When the flags have no address bit, the leaf names exactly the given frame and carries exactly the given flags. */
  lemma LeafExact(pa: nat, flags: nat)
    requires FrameOf(flags) == 0
    ensures FrameOf(LeafEntry(pa, flags)) == FrameOf(pa)
    ensures LeafEntry(pa, flags) - FrameOf(pa) * 4096 == flags
  {
    hide Or, Shl;
    var f, g := FrameOf(pa), flags / 4096;
    OrFrame(f, flags);
    assert Or(f, g) == f + g by {
      Shl40(1);
      Shl40(g / 0x100_0000_0000);
      OrApart(f, 40, g / 0x100_0000_0000);
    }
    assert flags == flags % 4096 + g * 4096;
    SplitFrame(flags % 4096, f, g / 0x100_0000_0000);
  }

  lemma SplitFrame(low: nat, f: nat, high: nat)
    requires low < 4096 && f < 0x100_0000_0000
    ensures FrameOf(low + (f + high * 0x100_0000_0000) * 4096) == f
  {
    assert (low + (f + high * 0x100_0000_0000) * 4096) / 4096 == f + high * 0x100_0000_0000;
  }

  lemma OrLowBits(frame: nat, low: nat)
    requires low < 4096
    ensures Or(frame * 4096, low) == frame * 4096 + low
  {
    OrFrame(frame, low);
    OrNothing(frame);
  }

  /** A table entry is present, is not huge, and names its table. */
  lemma TableEntryExact(frame: nat)
    requires frame < 0x100_0000_0000
    ensures TableEntry(frame) == frame * 4096 + 3
    ensures Present(TableEntry(frame)) && WriteBit(TableEntry(frame)) && !Huge(TableEntry(frame)) && FrameOf(TableEntry(frame)) == frame
  {
    assert Or(PTE_PRESENT, PTE_WRITABLE) == 3;
    hide Or, Present, WriteBit, Huge, FrameOf;
    OrLowBits(frame, 3);
    LinkBits(frame);
  }

  lemma LinkBits(frame: nat)
    requires frame < 0x100_0000_0000
    ensures var e := frame * 4096 + 3; Present(e) && WriteBit(e) && !Huge(e) && FrameOf(e) == frame
  {
    var e := frame * 4096 + 3;
    assert e / 4096 == frame;
    assert e / 2 == frame * 2048 + 1;
    assert e / 128 == 32 * frame;
  }

  // ---------- pages ----------

  // A page is the path of four 9-bit indices that the walk consumes, from PML4 to PT.
  type Path = seq<nat>

  predicate IsPage(p: Path) { |p| == 4 && forall i :: 0 <= i < 4 ==> p[i] < ENTRIES }

  function PageOf(va: nat): (p: Path)
    ensures IsPage(p)
  {
    [va / 0x80_0000_0000 % 512, va / 0x4000_0000 % 512, va / 0x20_0000 % 512, va / 0x1000 % 512]
  }

  /** The 36-bit page number of a path. */
  function Number(p: Path): nat
    requires |p| == 4
  {
    p[0] * 0x800_0000 + p[1] * 0x4_0000 + p[2] * 0x200 + p[3]
  }

  lemma Regroup(d: nat, r: nat, s: nat)
    requires s < 512
    ensures (r * 512 + s) * d == r * (d * 512) + s * d && s * d <= 511 * d
  {
    ProductLe(s, 511, d);
    assert (r * 512 + s) * d == r * 512 * d + s * d;
    assert r * (d * 512) == r * 512 * d;
  }

  lemma DivStep(x: nat, d: nat, q: nat)
    requires d > 0 && q == x / d
    ensures x / (d * 512) == q / 512
  {
    var r, s := q / 512, q % 512;
    assert x == q * d + x % d;
    Regroup(d, r, s);
    QuotientIs(x, d * 512, r, s * d + x % d);
  }

  /** Four base-512 digits make a number below 2^36. */
  lemma Digits(n: nat, a: nat, b: nat, c: nat)
    requires a == n / 512 && b == a / 512 && c == b / 512
    ensures c % 512 * 0x800_0000 + b % 512 * 0x4_0000 + a % 512 * 0x200 + n % 512 == n % 0x10_0000_0000
  {
    var d := c / 512;
    var low := c % 512 * 0x800_0000 + b % 512 * 0x4_0000 + a % 512 * 0x200 + n % 512;
    assert n == d * 0x10_0000_0000 + low;
    assert low < 0x10_0000_0000;
  }

  /** The four indices are the base-512 digits of the page number; bits above 47 play no part. */
  lemma PageNumber(va: nat)
    ensures Number(PageOf(va)) == va / 4096 % 0x10_0000_0000
  {
    DivStep(va, 0x1000, va / 0x1000);
    DivStep(va, 0x20_0000, va / 0x20_0000);
    DivStep(va, 0x4000_0000, va / 0x4000_0000);
    Digits(va / 0x1000, va / 0x20_0000, va / 0x4000_0000, va / 0x80_0000_0000);
  }

  lemma SameNumber(p: Path, q: Path)
    requires IsPage(p) && IsPage(q) && Number(p) == Number(q)
    ensures p == q
  {
    assert p[0] == q[0] && p[1] == q[1] && p[2] == q[2] && p[3] == q[3];
  }

  /** Two virtual addresses name the same page exactly when bits 12 to 47 agree. */
  lemma SamePage(va: nat, vb: nat)
    ensures PageOf(va) == PageOf(vb) <==> va / 4096 % 0x10_0000_0000 == vb / 4096 % 0x10_0000_0000
  {
    PageNumber(va);
    PageNumber(vb);
    if va / 4096 % 0x10_0000_0000 == vb / 4096 % 0x10_0000_0000 { SameNumber(PageOf(va), PageOf(vb)); }
  }

  // ---------- the hardware walk ----------

  datatype Translation = Unmapped | Leaf(entry: nat) | HugeLeaf(entry: nat)

  function EntryAt(m: Frames, f: nat, i: nat): nat {
    if f < |m| && i < |m[f]| then m[f][i] else 0
  }

  /** The walk from the table in frame f along path; bit 7 stops it at the second and third level. */
  function Walk(m: Frames, f: nat, path: Path): Translation
    decreases |path|
  {
    if path == [] then Unmapped
    else
      var e := EntryAt(m, f, path[0]);
      if !Present(e) then Unmapped
      else if |path| == 1 then Leaf(e)
      else if |path| < 4 && Huge(e) then HugeLeaf(e)
      else Walk(m, FrameOf(e), path[1..])
  }

  /** The hardware lets a page be written when bit 1 is set in every entry on its path. */
  function Writable(m: Frames, f: nat, path: Path): bool
    decreases |path|
  {
    path != []
    && var e := EntryAt(m, f, path[0]);
       Present(e) && WriteBit(e) && (|path| == 1 || (|path| < 4 && Huge(e)) || Writable(m, FrameOf(e), path[1..]))
  }

  /** Bit 1 is set in every present entry on the path above the last level. */
  function Upper(m: Frames, f: nat, path: Path): bool
    decreases |path|
  {
    |path| <= 1
    || var e := EntryAt(m, f, path[0]);
       Present(e) ==> WriteBit(e) && ((|path| < 4 && Huge(e)) || Upper(m, FrameOf(e), path[1..]))
  }

  lemma {:induction false} WritableIs(m: Frames, f: nat, path: Path)
    requires 0 < |path|
    ensures Writable(m, f, path) <==>
            Upper(m, f, path) && match Walk(m, f, path) case Unmapped => false case Leaf(e) => WriteBit(e) case HugeLeaf(e) => WriteBit(e)
    decreases |path|
  {
    hide Present, WriteBit, Huge, FrameOf, EntryAt;
    if |path| > 1 { WritableIs(m, FrameOf(EntryAt(m, f, path[0])), path[1..]); }
  }

  // ---------- the tree of tables ----------

  function Child(p: Path, i: nat): (c: Path) { p + [i] }

  /** A present entry of the second or third level that maps a large page instead of a table. */
  predicate Large(p: Path, e: nat) { |p| > 0 && Present(e) && Huge(e) }

  /** tables maps the path of every table to its frame: a present entry of an upper table leads to its child or maps
      a large page, nothing else has a child, and no frame holds two tables. */
  ghost predicate Tree(m: Frames, root: nat, tables: map<Path, nat>) {
    && (forall f :: 0 <= f < |m| ==> |m[f]| == ENTRIES)
    && [] in tables && tables[[]] == root
    && (forall p :: p in tables ==> |p| <= 3 && tables[p] < |m| && (p != [] ==> p[..|p| - 1] in tables))
    && (forall p, q :: p in tables && q in tables && p != q ==> tables[p] != tables[q])
    && (forall p, i {:trigger Child(p, i)} :: p in tables && |p| < 3 && 0 <= i < ENTRIES ==>
                                                var e := EntryAt(m, tables[p], i);
                                                (Present(e) && !Large(p, e) <==> Child(p, i) in tables)
                                                && (Child(p, i) in tables ==> FrameOf(e) == tables[Child(p, i)]))
  }

  /** Entry i of the table at path p maps a large page. */
  ghost predicate LargeAt(m: Frames, tables: map<Path, nat>, p: Path, i: nat) {
    p in tables && Large(p, EntryAt(m, tables[p], i))
  }

  /** The flat map that the tree stands for. */
  ghost function Lookup(m: Frames, tables: map<Path, nat>, page: Path): Translation
    requires |page| == 4
  {
    if page[..3] in tables then
      var e := EntryAt(m, tables[page[..3]], page[3]);
      if Present(e) then Leaf(e) else Unmapped
    else if LargeAt(m, tables, page[..2], page[2]) then HugeLeaf(EntryAt(m, tables[page[..2]], page[2]))
    else if LargeAt(m, tables, page[..1], page[1]) then HugeLeaf(EntryAt(m, tables[page[..1]], page[1]))
    else Unmapped
  }

  /** What the tree says along the path of one page. */
  lemma Spine(m: Frames, root: nat, tables: map<Path, nat>, page: Path, n: nat)
    requires Tree(m, root, tables) && IsPage(page) && n < 3
    ensures page[..n + 1] in tables ==> page[..n] in tables
    ensures page[..n] in tables ==>
              var e := EntryAt(m, tables[page[..n]], page[n]);
              && (Present(e) && !Large(page[..n], e) <==> page[..n + 1] in tables)
              && (page[..n + 1] in tables ==> FrameOf(e) == tables[page[..n + 1]])
  {
    hide FrameOf, Present, Huge, EntryAt, Large;
    assert Child(page[..n], page[n]) == page[..n + 1];
    assert page[..n + 1][..n] == page[..n];
  }

  lemma FullSpine(m: Frames, root: nat, tables: map<Path, nat>, page: Path)
    requires Tree(m, root, tables) && IsPage(page)
    ensures page[..0] in tables
    ensures page[..3] in tables ==> page[..2] in tables
    ensures page[..2] in tables ==> page[..1] in tables && !LargeAt(m, tables, page[..1], page[1])
    ensures page[..3] in tables ==> !LargeAt(m, tables, page[..2], page[2])
    ensures !LargeAt(m, tables, page[..0], page[0])
  {
    Spine(m, root, tables, page, 0);
    Spine(m, root, tables, page, 1);
    Spine(m, root, tables, page, 2);
    assert page[..0] == [];
    hide Tree, EntryAt, Present, Huge, FrameOf;
  }

  /** A page that no large page covers has none on its path. */
  lemma NoneLarge(m: Frames, root: nat, tables: map<Path, nat>, page: Path, n: nat)
    requires Tree(m, root, tables) && IsPage(page) && n < 3 && !Lookup(m, tables, page).HugeLeaf?
    ensures !LargeAt(m, tables, page[..n], page[n])
  {
    FullSpine(m, root, tables, page);
    hide Tree, EntryAt, LargeAt;
  }

  lemma {:induction false} PrefixIn(m: Frames, root: nat, tables: map<Path, nat>, p: Path, n: nat)
    requires Tree(m, root, tables) && n <= |p|
    ensures p in tables ==> p[..n] in tables
    decreases |p| - n
  {
    if n < |p| {
      PrefixIn(m, root, tables, p, n + 1);
      assert p[..n + 1][..n] == p[..n];
    } else {
      assert p[..n] == p;
    }
  }

  /** The walk that is already at the table with path page[..n]. */
  lemma {:induction false} WalkFrom(m: Frames, root: nat, tables: map<Path, nat>, page: Path, n: nat)
    requires Tree(m, root, tables) && IsPage(page) && n <= 3 && page[..n] in tables
    ensures Walk(m, tables[page[..n]], page[n..]) == Lookup(m, tables, page)
    decreases 3 - n
  {
    var e := EntryAt(m, tables[page[..n]], page[n]);
    if n < 3 {
      Spine(m, root, tables, page, n);
      FullSpine(m, root, tables, page);
      if page[..n + 1] in tables { WalkFrom(m, root, tables, page, n + 1); }
      assert page[n..][1..] == page[n + 1..];
    }
    hide Tree, FrameOf, Present, Huge, EntryAt;
  }

  /** The hardware walk over a well-formed tree computes the flat map, large pages included. */
  lemma WalkIsLookup(m: Frames, root: nat, tables: map<Path, nat>, page: Path)
    requires Tree(m, root, tables) && IsPage(page)
    ensures Walk(m, root, page) == Lookup(m, tables, page)
  {
    assert page[..0] == [] && page[0..] == page;
    WalkFrom(m, root, tables, page, 0);
  }

  /** At level k of the page's path the tree holds no present entry without bit 1. */
  ghost predicate UpAt(m: Frames, tables: map<Path, nat>, page: Path, k: nat)
    requires |page| == 4 && k < 3
  {
    page[..k] in tables && Present(EntryAt(m, tables[page[..k]], page[k])) ==> WriteBit(EntryAt(m, tables[page[..k]], page[k]))
  }

  ghost predicate UpFlat(m: Frames, tables: map<Path, nat>, page: Path)
    requires |page| == 4
  {
    UpAt(m, tables, page, 0) && UpAt(m, tables, page, 1) && UpAt(m, tables, page, 2)
  }

  /** The hardware's view of the upper entries is the tree's. */
  lemma UpperIsFlat(m: Frames, root: nat, tables: map<Path, nat>, page: Path)
    requires Tree(m, root, tables) && IsPage(page)
    ensures Upper(m, root, page) <==> UpFlat(m, tables, page)
  {
    Spine(m, root, tables, page, 0);
    Spine(m, root, tables, page, 1);
    Spine(m, root, tables, page, 2);
    FullSpine(m, root, tables, page);
    assert page[..0] == [] && page[1..][0] == page[1] && page[2..][0] == page[2];
    assert page[1..][1..] == page[2..] && page[2..][1..] == page[3..];
    assert Upper(m, 0, page[3..]) && tables[page[..0]] == root;
    hide Present, WriteBit, Huge, FrameOf, EntryAt, Tree;
    if page[..2] in tables {
      assert Upper(m, tables[page[..2]], page[2..]) <==> UpAt(m, tables, page, 2);
    }
    if page[..1] in tables {
      assert Upper(m, tables[page[..1]], page[1..]) <==> UpAt(m, tables, page, 1) && UpAt(m, tables, page, 2);
    }
  }

  function Zeros(): (t: Table)
    ensures |t| == ENTRIES && forall i :: 0 <= i < ENTRIES ==> t[i] == 0
  {
    seq(ENTRIES, i => 0)
  }

  /** Entry i of the table at path p becomes a link to a zeroed table in frame c. */
  function Linked(m: Frames, f: nat, i: nat, c: nat): (r: Frames)
    requires f < |m| && i < |m[f]| && c < |m|
    ensures |r| == |m|
  {
    var t: Table := m[f][i := TableEntry(c)];
    m[f := t][c := Zeros()]
  }

  lemma ChildParts(p: Path, i: nat, q: Path, j: nat)
    ensures Child(p, i) == Child(q, j) <==> p == q && i == j
    ensures Child(p, i) != [] && Child(p, i)[..|Child(p, i)| - 1] == p
  {
    assert Child(p, i)[..|Child(p, i)| - 1] == p && Child(q, j)[..|Child(q, j)| - 1] == q;
    assert Child(p, i)[|p|] == i && Child(q, j)[|q|] == j;
  }

  /** Where memory changes when a table is linked. */
  lemma LinkEntries(m: Frames, root: nat, tables: map<Path, nat>, p: Path, i: nat, c: nat, q: Path, j: nat)
    requires Tree(m, root, tables) && p in tables && i < ENTRIES && c < |m| && c !in tables.Values
    requires q in tables && j < ENTRIES
    ensures EntryAt(Linked(m, tables[p], i, c), tables[q], j)
            == if q == p && j == i then TableEntry(c) else EntryAt(m, tables[q], j)
    ensures EntryAt(Linked(m, tables[p], i, c), c, j) == 0
  {
    hide TableEntry;
    assert tables[q] in tables.Values;
  }

  lemma LinkKeepsTree(m: Frames, root: nat, tables: map<Path, nat>, p: Path, i: nat, c: nat)
    requires Tree(m, root, tables) && p in tables && |p| < 3 && i < ENTRIES && !Present(EntryAt(m, tables[p], i))
    requires c < |m| <= 0x100_0000_0000 && c !in tables.Values
    ensures Tree(Linked(m, tables[p], i, c), root, tables[Child(p, i) := c])
  {
    hide TableEntry, FrameOf, Present, Huge, EntryAt, Child;
    TableEntryExact(c);
    var m', n := Linked(m, tables[p], i, c), Child(p, i);
    var tables' := tables[n := c];
    assert n !in tables;
    ChildParts(p, i, p, i);
    forall q, r | q in tables' && r in tables' && q != r ensures tables'[q] != tables'[r] {
      assert q != n ==> tables[q] in tables.Values;
      assert r != n ==> tables[r] in tables.Values;
    }
    forall q, j | q in tables' && |q| < 3 && 0 <= j < ENTRIES
      ensures var e := EntryAt(m', tables'[q], j);
              (Present(e) && !Large(q, e) <==> Child(q, j) in tables')
              && (Child(q, j) in tables' ==> FrameOf(e) == tables'[Child(q, j)])
    {
      ChildParts(p, i, q, j);
      ChildParts(q, j, q, j);
      if q == n {
        LinkEntries(m, root, tables, p, i, c, p, j);
        ZeroAbsent();
      } else {
        LinkEntries(m, root, tables, p, i, c, q, j);
      }
    }
  }

  lemma ZeroAbsent()
    ensures !Present(0)
  {
  }

  /** Linking a zeroed table from a frame outside the tree keeps the tree and changes no translation. */
  lemma LinkKeeps(m: Frames, root: nat, tables: map<Path, nat>, p: Path, i: nat, c: nat)
    requires Tree(m, root, tables) && p in tables && |p| < 3 && i < ENTRIES && !Present(EntryAt(m, tables[p], i))
    requires c < |m| <= 0x100_0000_0000 && c !in tables.Values
    ensures Tree(Linked(m, tables[p], i, c), root, tables[Child(p, i) := c])
    ensures forall page :: IsPage(page) ==>
                             Lookup(Linked(m, tables[p], i, c), tables[Child(p, i) := c], page) == Lookup(m, tables, page)
  {
    hide TableEntry, FrameOf, EntryAt, Lookup;
    LinkKeepsTree(m, root, tables, p, i, c);
    forall page | IsPage(page)
      ensures Lookup(Linked(m, tables[p], i, c), tables[Child(p, i) := c], page) == Lookup(m, tables, page)
    {
      LinkKeepsLookup(m, root, tables, p, i, c, page);
    }
  }

  lemma LinkKeepsLookup(m: Frames, root: nat, tables: map<Path, nat>, p: Path, i: nat, c: nat, page: Path)
    requires Tree(m, root, tables) && p in tables && |p| < 3 && i < ENTRIES && !Present(EntryAt(m, tables[p], i))
    requires c < |m| <= 0x100_0000_0000 && c !in tables.Values && IsPage(page)
    ensures Lookup(Linked(m, tables[p], i, c), tables[Child(p, i) := c], page) == Lookup(m, tables, page)
  {
    var m', n := Linked(m, tables[p], i, c), Child(p, i);
    var tables' := tables[n := c];
    LinkKeepsTree(m, root, tables, p, i, c);
    FullSpine(m, root, tables, page);
    FullSpine(m', root, tables', page);
    if page[..|p| + 1] == n {
      NewPath(m, root, tables, p, i, c, page);
    } else {
      forall k | 0 <= k < 4 && page[..k] in tables'
        ensures page[..k] in tables && EntryAt(m', tables'[page[..k]], page[k]) == EntryAt(m, tables[page[..k]], page[k])
      {
        OldEntry(m, root, tables, p, i, c, page, k);
      }
      hide Tree, EntryAt, TableEntry, FrameOf, Linked, Present, Huge, Child;
    }
  }

  lemma OldEntry(m: Frames, root: nat, tables: map<Path, nat>, p: Path, i: nat, c: nat, page: Path, k: nat)
    requires Tree(m, root, tables) && p in tables && |p| < 3 && i < ENTRIES && !Present(EntryAt(m, tables[p], i))
    requires c < |m| <= 0x100_0000_0000 && c !in tables.Values && IsPage(page)
    requires k < 4 && page[..k] in tables[Child(p, i) := c] && page[..|p| + 1] != Child(p, i)
    ensures page[..k] in tables
    ensures EntryAt(Linked(m, tables[p], i, c), tables[page[..k]], page[k]) == EntryAt(m, tables[page[..k]], page[k])
  {
    assert page[..k] != Child(p, i);
    LinkEntries(m, root, tables, p, i, c, page[..k], page[k]);
    assert page[..k + 1] == page[..k] + [page[k]];
  }

  /** Pages under the new table were and are unmapped. */
  lemma NewPath(m: Frames, root: nat, tables: map<Path, nat>, p: Path, i: nat, c: nat, page: Path)
    requires Tree(m, root, tables) && p in tables && |p| < 3 && i < ENTRIES && !Present(EntryAt(m, tables[p], i))
    requires c < |m| <= 0x100_0000_0000 && c !in tables.Values && IsPage(page) && page[..|p| + 1] == Child(p, i)
    ensures Lookup(m, tables, page) == Unmapped
    ensures Lookup(Linked(m, tables[p], i, c), tables[Child(p, i) := c], page) == Unmapped
  {
    var m', n := Linked(m, tables[p], i, c), Child(p, i);
    var tables' := tables[n := c];
    LinkKeepsTree(m, root, tables, p, i, c);
    FullSpine(m, root, tables, page);
    FullSpine(m', root, tables', page);
    assert page[..|p|] == n[..|p|] == p && page[|p|] == n[|p|] == i;
    Spine(m, root, tables, page, |p|);
    LinkEntries(m, root, tables, p, i, c, p, page[|p| + 1]);
    ZeroAbsent();
    if |p| + 1 < 3 { Spine(m', root, tables', page, |p| + 1); }
    hide Tree, EntryAt, TableEntry, FrameOf, Linked, Present, Huge, Child;
  }

  /** Writing entry i of the last-level table at path q changes the translation of that one page. */
  lemma LeafWrite(m: Frames, root: nat, tables: map<Path, nat>, q: Path, i: nat, v: nat)
    requires Tree(m, root, tables) && q in tables && |q| == 3 && i < ENTRIES
    ensures var t: Table := m[tables[q]][i := v];
            var m' := m[tables[q] := t];
            && Tree(m', root, tables)
            && forall page :: IsPage(page) ==>
                 Lookup(m', tables, page) == if page == Child(q, i) then (if Present(v) then Leaf(v) else Unmapped)
                                             else Lookup(m, tables, page)
  {
    hide FrameOf, Present, Huge, EntryAt, Child;
    var t: Table := m[tables[q]][i := v];
    var m' := m[tables[q] := t];
    LeafWriteEntries(m, root, tables, q, i, v);
    LeafWriteTree(m, root, tables, q, i, v);
    hide Tree;
    forall page | IsPage(page)
      ensures Lookup(m', tables, page) == if page == Child(q, i) then (if Present(v) then Leaf(v) else Unmapped)
                                          else Lookup(m, tables, page)
    {
      ChildSplit(page);
      ChildParts(q, i, page[..3], page[3]);
    }
  }

  lemma ChildSplit(page: Path)
    requires |page| == 4
    ensures Child(page[..3], page[3]) == page
  {
  }

  lemma LeafWriteTree(m: Frames, root: nat, tables: map<Path, nat>, q: Path, i: nat, v: nat)
    requires Tree(m, root, tables) && q in tables && |q| == 3 && i < ENTRIES
    ensures var t: Table := m[tables[q]][i := v]; Tree(m[tables[q] := t], root, tables)
  {
    LeafWriteEntries(m, root, tables, q, i, v);
    hide FrameOf, Present, Huge, EntryAt;
  }

  lemma LeafWriteEntries(m: Frames, root: nat, tables: map<Path, nat>, q: Path, i: nat, v: nat)
    requires Tree(m, root, tables) && q in tables && |q| == 3 && i < ENTRIES
    ensures var t: Table := m[tables[q]][i := v];
            var m' := m[tables[q] := t];
            forall p, j: nat :: p in tables ==>
              EntryAt(m', tables[p], j) == if p == q && j == i then v else EntryAt(m, tables[p], j)
  {
    var t: Table := m[tables[q]][i := v];
    var m' := m[tables[q] := t];
    forall p, j: nat | p in tables
      ensures EntryAt(m', tables[p], j) == if p == q && j == i then v else EntryAt(m, tables[p], j)
    {
      if p != q { assert tables[p] != tables[q]; }
    }
  }

  /** Linking a table keeps the write bits on every path. */
  lemma LinkUp(m: Frames, root: nat, tables: map<Path, nat>, p: Path, i: nat, c: nat, page: Path, k: nat)
    requires Tree(m, root, tables) && p in tables && |p| < 3 && i < ENTRIES && !Present(EntryAt(m, tables[p], i))
    requires c < |m| <= 0x100_0000_0000 && c !in tables.Values && IsPage(page) && k < 3
    ensures UpAt(Linked(m, tables[p], i, c), tables[Child(p, i) := c], page, k) <==> UpAt(m, tables, page, k)
  {
    TableEntryExact(c);
    ZeroAbsent();
    var n := Child(p, i);
    assert n !in tables;
    hide TableEntry, Present, WriteBit, EntryAt, Tree, Linked, Child;
    if page[..k] in tables {
      LinkEntries(m, root, tables, p, i, c, page[..k], page[k]);
    } else if page[..k] == n {
      LinkEntries(m, root, tables, p, i, c, p, page[k]);
    }
  }

  lemma LinkUpFlat(m: Frames, root: nat, tables: map<Path, nat>, p: Path, i: nat, c: nat, page: Path)
    requires Tree(m, root, tables) && p in tables && |p| < 3 && i < ENTRIES && !Present(EntryAt(m, tables[p], i))
    requires c < |m| <= 0x100_0000_0000 && c !in tables.Values && IsPage(page)
    ensures UpFlat(Linked(m, tables[p], i, c), tables[Child(p, i) := c], page) <==> UpFlat(m, tables, page)
  {
    hide UpAt, Tree, Linked, Child, Present;
    LinkUp(m, root, tables, p, i, c, page, 0);
    LinkUp(m, root, tables, p, i, c, page, 1);
    LinkUp(m, root, tables, p, i, c, page, 2);
  }

  /** Memory outside the tables plays no part in the tree or in any translation. */
  lemma OutsideTables(m: Frames, m': Frames, root: nat, tables: map<Path, nat>)
    requires Tree(m, root, tables) && |m'| == |m|
    requires forall f :: 0 <= f < |m| ==> |m'[f]| == ENTRIES && (f in tables.Values ==> m'[f] == m[f])
    ensures Tree(m', root, tables)
    ensures forall page :: IsPage(page) ==> Lookup(m', tables, page) == Lookup(m, tables, page)
    ensures forall page :: IsPage(page) ==> (UpFlat(m', tables, page) <==> UpFlat(m, tables, page))
  {
    hide FrameOf, Present, Huge, Lookup, UpFlat;
    forall p | p in tables ensures m'[tables[p]] == m[tables[p]] {
      assert tables[p] in tables.Values;
    }
    forall page | IsPage(page)
      ensures Lookup(m', tables, page) == Lookup(m, tables, page) && (UpFlat(m', tables, page) <==> UpFlat(m, tables, page))
    {
      SameTables(m, m', root, tables, page);
    }
  }

  lemma SameTables(m: Frames, m': Frames, root: nat, tables: map<Path, nat>, page: Path)
    requires Tree(m, root, tables) && IsPage(page) && |m'| == |m|
    requires forall p :: p in tables ==> m'[tables[p]] == m[tables[p]]
    ensures Lookup(m', tables, page) == Lookup(m, tables, page) && (UpFlat(m', tables, page) <==> UpFlat(m, tables, page))
  {
    forall p, i: nat | p in tables ensures EntryAt(m', tables[p], i) == EntryAt(m, tables[p], i) {
    }
    hide FrameOf, Present, WriteBit, Huge, EntryAt, Tree;
  }

  // ---------- the frames that the code reads as tables ----------

  /** f is the table of the tree at level n of the page's path. */
  ghost predicate Genuine(tables: map<Path, nat>, page: Path, n: nat, f: nat)
    requires n <= |page|
  {
    page[..n] in tables && tables[page[..n]] == f
  }

  /** The code follows present entries whatever bit 7 says. Every frame that it reads as the table of level n and below
      is the tree's own table, or ordinary memory: neither another table nor free. */
  ghost predicate Sound(m: Frames, tables: map<Path, nat>, free: set<nat>, page: Path, n: nat, f: nat)
    requires |page| == 4 && n <= 3
    decreases 3 - n
  {
    && f < |m|
    && (Genuine(tables, page, n, f) || (f !in tables.Values && f !in free))
    && (n < 3 && Present(EntryAt(m, f, page[n])) ==> Sound(m, tables, free, page, n + 1, FrameOf(EntryAt(m, f, page[n]))))
  }

  /** The stores of paging_map_page from the table f of level n on: a missing table comes from the next spare frame,
      zeroed; then the leaf entry v is written. */
  function Stored(m: Frames, page: Path, n: nat, f: nat, spare: seq<nat>, v: nat): Frames
    requires IsPage(page) && n <= 3
    decreases 3 - n
  {
    if f >= |m| || |m[f]| != ENTRIES then m
    else if n == 3 then WithEntry(m, f, page[3], v)
    else if Present(m[f][page[n]]) then Stored(m, page, n + 1, FrameOf(m[f][page[n]]), spare, v)
    else if spare == [] || spare[0] >= |m| then m
    else Stored(Linked(m, f, page[n], spare[0]), page, n + 1, spare[0], spare[1..], v)
  }

  function WithEntry(m: Frames, f: nat, i: nat, v: nat): (r: Frames)
    requires f < |m| && i < |m[f]|
    ensures |r| == |m|
  {
    var t: Table := m[f][i := v];
    m[f := t]
  }

  /** What is_page_mapped answers: the bits of present entries, whatever bit 7 says. */
  function Seen(m: Frames, page: Path, n: nat, f: nat): bool
    requires |page| == 4 && n <= 3
    decreases 3 - n
  {
    var e := EntryAt(m, f, page[n]);
    Present(e) && (n == 3 || Seen(m, page, n + 1, FrameOf(e)))
  }

  /** All frames that is_page_mapped reads exist. */
  ghost predicate Readable(m: Frames, page: Path, n: nat, f: nat)
    requires |page| == 4 && n <= 3
    decreases 3 - n
  {
    f < |m| && (n < 3 && Present(EntryAt(m, f, page[n])) ==> Readable(m, page, n + 1, FrameOf(EntryAt(m, f, page[n]))))
  }

  /** From a table of the tree, a present entry that maps no large page leads to the next one. */
  lemma GenuineNext(m: Frames, root: nat, tables: map<Path, nat>, page: Path, n: nat, f: nat)
    requires Tree(m, root, tables) && IsPage(page) && n < 3 && Genuine(tables, page, n, f)
    ensures var e := EntryAt(m, f, page[n]);
            && f < |m| && |m[f]| == ENTRIES && e == m[f][page[n]]
            && (Present(e) && !LargeAt(m, tables, page[..n], page[n]) ==> Genuine(tables, page, n + 1, FrameOf(e)))
            && (LargeAt(m, tables, page[..n], page[n]) ==> Present(e) && page[..n + 1] !in tables)
            && (!Present(e) ==> page[..n + 1] !in tables)
  {
    Spine(m, root, tables, page, n);
  }

  /** A page that no large page covers leads the code through the tree alone, and it sees what the hardware sees. */
  lemma {:induction false} UncoveredSound(m: Frames, root: nat, tables: map<Path, nat>, free: set<nat>, page: Path, n: nat, f: nat)
    requires Tree(m, root, tables) && IsPage(page) && n <= 3 && Genuine(tables, page, n, f)
    requires !Lookup(m, tables, page).HugeLeaf?
    ensures Sound(m, tables, free, page, n, f) && Readable(m, page, n, f)
    ensures Seen(m, page, n, f) <==> Lookup(m, tables, page) != Unmapped
    decreases 3 - n
  {
    hide Lookup, LargeAt, Walk;
    if n < 3 {
      GenuineNext(m, root, tables, page, n, f);
      NoneLarge(m, root, tables, page, n);
      var e := EntryAt(m, f, page[n]);
      if Present(e) {
        UncoveredSound(m, root, tables, free, page, n + 1, FrameOf(e));
      } else {
        MissingUnmapped(m, root, tables, page, n + 1);
      }
    } else {
      LeafLookup(m, root, tables, page);
    }
  }

  lemma MissingUnmapped(m: Frames, root: nat, tables: map<Path, nat>, page: Path, n: nat)
    requires Tree(m, root, tables) && IsPage(page) && 0 < n <= 3 && page[..n] !in tables && page[..n - 1] in tables
    requires !Lookup(m, tables, page).HugeLeaf?
    ensures Lookup(m, tables, page) == Unmapped
  {
    FullSpine(m, root, tables, page);
    hide Tree;
  }

  lemma LeafLookup(m: Frames, root: nat, tables: map<Path, nat>, page: Path)
    requires Tree(m, root, tables) && IsPage(page) && page[..3] in tables
    ensures var e := EntryAt(m, tables[page[..3]], page[3]);
            Lookup(m, tables, page) == if Present(e) then Leaf(e) else Unmapped
    ensures tables[page[..3]] < |m|
  {
    hide FrameOf, Present, Huge, EntryAt;
  }

  /** Frames for new tables: they exist, hold no table, and differ. */
  ghost predicate Spare(m: Frames, tables: map<Path, nat>, spare: seq<nat>) {
    && (forall i :: 0 <= i < |spare| ==> spare[i] < |m| <= 0x100_0000_0000 && spare[i] !in tables.Values)
    && (forall i, j :: 0 <= i < j < |spare| ==> spare[i] != spare[j])
  }

  lemma SpareRest(m: Frames, tables: map<Path, nat>, page: Path, n: nat, spare: seq<nat>)
    requires |page| == 4 && n < 3 && spare != [] && Spare(m, tables, spare)
    ensures Spare(m, tables, spare[1..]) && Spare(m, tables[page[..n + 1] := spare[0]], spare[1..])
    ensures spare[0] < |m| <= 0x100_0000_0000 && spare[0] !in tables.Values
    ensures spare[0] in SetOf(spare) && SetOf(spare[1..]) <= SetOf(spare) - {spare[0]}
  {
    var rest := spare[1..];
    forall i | 0 <= i < |rest| ensures rest[i] == spare[i + 1] && rest[i] != spare[0] {
    }
  }

  lemma SpareSame(m: Frames, m': Frames, tables: map<Path, nat>, spare: seq<nat>)
    requires Spare(m, tables, spare) && |m'| == |m|
    ensures Spare(m', tables, spare)
  {
  }

  ghost function SetOf(spare: seq<nat>): (s: set<nat>)
    ensures forall f :: f in s <==> f in spare
  {
    set f | f in spare
  }

  /** Linking a spare frame below a table of the tree or below ordinary memory keeps the tree and every translation,
      and the code goes on soundly in the spare frame. */
  lemma LinkSound(m: Frames, root: nat, tables: map<Path, nat>, free: set<nat>, free': set<nat>, page: Path, n: nat, f: nat, c: nat)
    requires Tree(m, root, tables) && IsPage(page) && n < 3 && Sound(m, tables, free, page, n, f)
    requires f < |m| && |m[f]| == ENTRIES && !Present(m[f][page[n]])
    requires c < |m| <= 0x100_0000_0000 && c !in tables.Values && c in free && free' <= free - {c}
    ensures var m' := Linked(m, f, page[n], c);
            var tables' := if Genuine(tables, page, n, f) then tables[page[..n + 1] := c] else tables;
            && Tree(m', root, tables')
            && (forall q :: IsPage(q) ==> Lookup(m', tables', q) == Lookup(m, tables, q))
            && (forall q :: IsPage(q) ==> (UpFlat(m', tables', q) <==> UpFlat(m, tables, q)))
            && Sound(m', tables', free', page, n + 1, c)
            && (Genuine(tables, page, n, f) ==> page[..n + 1] !in tables && Genuine(tables', page, n + 1, c))
  {
    hide TableEntry, FrameOf, Lookup, UpFlat, Huge;
    var m' := Linked(m, f, page[n], c);
    assert EntryAt(m, f, page[n]) == m[f][page[n]];
    assert n < 2 ==> m'[c][page[n + 1]] == 0 && EntryAt(m', c, page[n + 1]) == 0;
    if Genuine(tables, page, n, f) {
      GenuineNext(m, root, tables, page, n, f);
      assert Child(page[..n], page[n]) == page[..n + 1];
      LinkKeeps(m, root, tables, page[..n], page[n], c);
      forall q | IsPage(q) ensures UpFlat(m', tables[page[..n + 1] := c], q) <==> UpFlat(m, tables, q) {
        LinkUpFlat(m, root, tables, page[..n], page[n], c, q);
      }
    } else {
      OutsideTables(m, m', root, tables);
    }
    ZeroAbsent();
  }

  lemma SoundHere(m: Frames, root: nat, tables: map<Path, nat>, free: set<nat>, page: Path, n: nat, f: nat)
    requires Tree(m, root, tables) && IsPage(page) && n < 3 && Sound(m, tables, free, page, n, f)
    ensures f < |m| && |m[f]| == ENTRIES && EntryAt(m, f, page[n]) == m[f][page[n]]
    ensures Present(m[f][page[n]]) ==> Sound(m, tables, free, page, n + 1, FrameOf(m[f][page[n]])) && FrameOf(m[f][page[n]]) < |m|
    ensures Genuine(tables, page, n, f) ==>
              && (Present(m[f][page[n]]) && !LargeAt(m, tables, page[..n], page[n]) ==>
                    Genuine(tables, page, n + 1, FrameOf(m[f][page[n]])))
              && (!Present(m[f][page[n]]) ==> page[..n + 1] !in tables)
  {
    if Genuine(tables, page, n, f) { GenuineNext(m, root, tables, page, n, f); }
  }

  /** One level of the stores. */
  lemma StoredStep(m: Frames, page: Path, n: nat, f: nat, spare: seq<nat>, v: nat)
    requires IsPage(page) && n < 3 && f < |m| && |m[f]| == ENTRIES
    ensures Present(m[f][page[n]]) ==> Stored(m, page, n, f, spare, v) == Stored(m, page, n + 1, FrameOf(m[f][page[n]]), spare, v)
    ensures !Present(m[f][page[n]]) && spare != [] && spare[0] < |m| ==>
              Stored(m, page, n, f, spare, v) == Stored(Linked(m, f, page[n], spare[0]), page, n + 1, spare[0], spare[1..], v)
  {
    hide Present, FrameOf, Linked;
  }

  lemma SoundLast(m: Frames, root: nat, tables: map<Path, nat>, free: set<nat>, page: Path, f: nat, spare: seq<nat>, v: nat)
    requires Tree(m, root, tables) && IsPage(page) && Sound(m, tables, free, page, 3, f)
    ensures f < |m| && |m[f]| == ENTRIES && (Genuine(tables, page, 3, f) || f !in tables.Values)
    ensures Stored(m, page, 3, f, spare, v) == WithEntry(m, f, page[3], v)
    ensures Lookup(m, tables, page).HugeLeaf? ==> !Genuine(tables, page, 3, f)
    ensures Genuine(tables, page, 3, f) ==> f in tables.Values
  {
  }

  /** A run of paging_map_page from level n on, when every frame it misreads is ordinary memory: it changes the
      translation of the page when it ends in the page's own table, and no translation otherwise. */
  lemma {:induction false} StoredFrom(m: Frames, root: nat, tables: map<Path, nat>, page: Path, n: nat, f: nat, spare: seq<nat>, v: nat)
    requires Tree(m, root, tables) && IsPage(page) && n <= 3 && |spare| >= 3 - n && Spare(m, tables, spare)
    requires Sound(m, tables, SetOf(spare), page, n, f)
    requires Lookup(m, tables, page).HugeLeaf? || Genuine(tables, page, n, f)
    ensures var m' := Stored(m, page, n, f, spare, v);
            forall q :: IsPage(q) ==>
              Walk(m', root, q) == if q == page && !Lookup(m, tables, page).HugeLeaf? then (if Present(v) then Leaf(v) else Unmapped)
                                   else Walk(m, root, q)
    decreases 3 - n
  {
    hide Lookup, FrameOf, Present, Huge, EntryAt, TableEntry, Walk, Linked, Sound, Stored, Spare, SetOf, Genuine, Tree, WithEntry;
    if n == 3 {
      SoundLast(m, root, tables, SetOf(spare), page, f, spare, v);
      StoredLeaf(m, root, tables, page, f, v);
    } else {
      SoundHere(m, root, tables, SetOf(spare), page, n, f);
      StoredStep(m, page, n, f, spare, v);
      if Present(m[f][page[n]]) {
        FollowedFrom(m, root, tables, page, n, f);
        StoredFrom(m, root, tables, page, n + 1, FrameOf(m[f][page[n]]), spare, v);
      } else {
        var c, rest := spare[0], spare[1..];
        SpareRest(m, tables, page, n, spare);
        LinkSound(m, root, tables, SetOf(spare), SetOf(rest), page, n, f, c);
        var m' := Linked(m, f, page[n], c);
        var tables' := if Genuine(tables, page, n, f) then tables[page[..n + 1] := c] else tables;
        forall q | IsPage(q) ensures Walk(m', root, q) == Walk(m, root, q) {
          WalkIsLookup(m, root, tables, q);
          WalkIsLookup(m', root, tables', q);
        }
        SpareSame(m, m', tables', rest);
        StoredFrom(m', root, tables', page, n + 1, c, rest, v);
      }
    }
  }

  lemma FollowedFrom(m: Frames, root: nat, tables: map<Path, nat>, page: Path, n: nat, f: nat)
    requires Tree(m, root, tables) && IsPage(page) && n < 3 && f < |m| && |m[f]| == ENTRIES && Present(m[f][page[n]])
    requires !Lookup(m, tables, page).HugeLeaf? ==> Genuine(tables, page, n, f)
    ensures EntryAt(m, f, page[n]) == m[f][page[n]]
    ensures !Lookup(m, tables, page).HugeLeaf? ==> Genuine(tables, page, n + 1, FrameOf(m[f][page[n]]))
  {
    if !Lookup(m, tables, page).HugeLeaf? {
      NoneLarge(m, root, tables, page, n);
      GenuineNext(m, root, tables, page, n, f);
    }
  }

  lemma TableLength(m: Frames, root: nat, tables: map<Path, nat>, f: nat)
    requires Tree(m, root, tables) && f < |m|
    ensures |m[f]| == ENTRIES
  {
  }

  lemma StoredLeaf(m: Frames, root: nat, tables: map<Path, nat>, page: Path, f: nat, v: nat)
    requires Tree(m, root, tables) && IsPage(page) && f < |m| && |m[f]| == ENTRIES
    requires Genuine(tables, page, 3, f) || (f !in tables.Values && Lookup(m, tables, page).HugeLeaf?)
    ensures Tree(WithEntry(m, f, page[3], v), root, tables)
    ensures forall q :: IsPage(q) ==>
              Walk(WithEntry(m, f, page[3], v), root, q)
              == if q == page && !Lookup(m, tables, page).HugeLeaf? then (if Present(v) then Leaf(v) else Unmapped) else Walk(m, root, q)
    ensures forall q :: IsPage(q) ==> (UpFlat(WithEntry(m, f, page[3], v), tables, q) <==> UpFlat(m, tables, q))
  {
    var m' := WithEntry(m, f, page[3], v);
    if Genuine(tables, page, 3, f) {
      LeafUp(m, root, tables, page, f, v);
      LeafWrite(m, root, tables, page[..3], page[3], v);
      ChildSplit(page);
      LeafLookup(m, root, tables, page);
    } else {
      OutsideTables(m, m', root, tables);
    }
    forall q | IsPage(q)
      ensures Walk(m', root, q) == Lookup(m', tables, q) && Walk(m, root, q) == Lookup(m, tables, q)
    {
      WalkIsLookup(m', root, tables, q);
      WalkIsLookup(m, root, tables, q);
    }
    hide Lookup, Walk, Tree, UpFlat;
  }

  /** A leaf plays no part in the write bits above it. */
  lemma LeafUp(m: Frames, root: nat, tables: map<Path, nat>, page: Path, f: nat, v: nat)
    requires Tree(m, root, tables) && IsPage(page) && f < |m| && |m[f]| == ENTRIES && Genuine(tables, page, 3, f)
    ensures forall q :: IsPage(q) ==> (UpFlat(WithEntry(m, f, page[3], v), tables, q) <==> UpFlat(m, tables, q))
  {
    LeafWriteEntries(m, root, tables, page[..3], page[3], v);
    hide EntryAt, Present, WriteBit, Tree;
    forall q | IsPage(q) ensures UpFlat(WithEntry(m, f, page[3], v), tables, q) <==> UpFlat(m, tables, q) {
      assert |q[..0]| == 0 && |q[..1]| == 1 && |q[..2]| == 2 && |page[..3]| == 3;
    }
  }

  /** With frames for three new tables at hand, and every misread frame ordinary memory, paging_map_page maps the page
      if and only if no large page covers it; under a large page no translation changes at all. */
  lemma MappingTakesEffect(m: Frames, root: nat, tables: map<Path, nat>, page: Path, spare: seq<nat>, v: nat)
    requires Tree(m, root, tables) && IsPage(page) && Present(v) && |spare| >= 3 && Spare(m, tables, spare)
    requires Lookup(m, tables, page).HugeLeaf? ==> Sound(m, tables, SetOf(spare), page, 0, root)
    ensures var m' := Stored(m, page, 0, root, spare, v);
            && (Walk(m', root, page) == Leaf(v) <==> !Lookup(m, tables, page).HugeLeaf?)
            && (Lookup(m, tables, page).HugeLeaf? ==> forall q :: IsPage(q) ==> Walk(m', root, q) == Walk(m, root, q))
  {
    FullSpine(m, root, tables, page);
    assert page[..0] == [];
    RootTable(m, root, tables);
    hide Tree, Sound, Stored, Walk, Lookup, Spare;
    if !Lookup(m, tables, page).HugeLeaf? { UncoveredSound(m, root, tables, SetOf(spare), page, 0, root); }
    StoredFrom(m, root, tables, page, 0, root, spare, v);
    WalkIsLookup(m, root, tables, page);
  }

  lemma RootTable(m: Frames, root: nat, tables: map<Path, nat>)
    requires Tree(m, root, tables)
    ensures [] in tables && tables[[]] == root
  {
  }

  // ---------- what happens under a large page ----------

  lemma SeenStep(m: Frames, page: Path, n: nat, f: nat)
    requires IsPage(page) && n < 3 && f < |m| && |m[f]| == ENTRIES
    ensures Seen(m, page, n, f) <==> Present(m[f][page[n]]) && Seen(m, page, n + 1, FrameOf(m[f][page[n]]))
  {
    hide Present, FrameOf;
  }

  /** In frame f, the present entry of level n leads to frame g. */
  predicate LeadsTo(m: Frames, page: Path, n: nat, f: nat, g: nat)
    requires |page| == 4 && n < 3
  {
    f < |m| && |m[f]| == ENTRIES && page[n] < ENTRIES && Present(m[f][page[n]]) && FrameOf(m[f][page[n]]) == g
  }

  /** When the frame that the code misreads as the page directory has no entry for the page, is_page_mapped says no;
      paging_map_page links a new table there, and then is_page_mapped says yes. */
  lemma UnseenThenSeen(m: Frames, page: Path, root: nat, f: nat, g: nat, spare: seq<nat>, v: nat)
    requires IsPage(page) && LeadsTo(m, page, 0, root, f) && LeadsTo(m, page, 1, f, g)
    requires g < |m| && |m[g]| == ENTRIES && !Present(m[g][page[2]]) && g != root && g != f
    requires spare != [] && spare[0] < |m| <= 0x100_0000_0000 && spare[0] != root && spare[0] != f && spare[0] != g && Present(v)
    ensures !Seen(m, page, 0, root) && Seen(Stored(m, page, 0, root, spare, v), page, 0, root)
  {
    var c := spare[0];
    var m1 := Linked(m, g, page[2], c);
    assert m1[g][page[2]] == TableEntry(c) && m1[c] == Zeros() && m1[root] == m[root] && m1[f] == m[f];
    var m2 := WithEntry(m1, c, page[3], v);
    assert m2[g][page[2]] == TableEntry(c) && EntryAt(m2, c, page[3]) == v && m2[root] == m[root] && m2[f] == m[f];
    assert |m2[g]| == ENTRIES;
    TableEntryExact(c);
    hide TableEntry, Present, FrameOf, EntryAt, Linked, WithEntry;
    assert Stored(m1, page, 3, c, spare[1..], v) == m2;
    assert Seen(m2, page, 3, c);
    hide Stored, Seen;
    StoredStep(m, page, 2, g, spare, v);
    StoredStep(m, page, 1, f, spare, v);
    StoredStep(m, page, 0, root, spare, v);
    SeenStep(m, page, 2, g);
    SeenStep(m, page, 1, f);
    SeenStep(m, page, 0, root);
    SeenStep(m2, page, 2, g);
    SeenStep(m2, page, 1, f);
    SeenStep(m2, page, 0, root);
  }

  /** Along present entries the leaf goes into the last frame, whatever that frame is. */
  lemma StoredAlong(m: Frames, page: Path, root: nat, f: nat, g: nat, h: nat, spare: seq<nat>, v: nat)
    requires IsPage(page) && LeadsTo(m, page, 0, root, f) && LeadsTo(m, page, 1, f, g) && LeadsTo(m, page, 2, g, h)
    requires h < |m| && |m[h]| == ENTRIES
    ensures Stored(m, page, 0, root, spare, v) == WithEntry(m, h, page[3], v)
  {
    assert Stored(m, page, 3, h, spare, v) == WithEntry(m, h, page[3], v);
    hide Stored, Present, FrameOf, WithEntry;
    StoredStep(m, page, 2, g, spare, v);
    StoredStep(m, page, 1, f, spare, v);
    StoredStep(m, page, 0, root, spare, v);
  }

  /** A table whose first entry is e and whose others are absent. */
  function Single(e: nat): (t: Table)
    ensures |t| == ENTRIES && t[0] == e && forall i :: 0 < i < ENTRIES ==> t[i] == 0
  {
    Zeros()[0 := e]
  }

  /** The table holds one entry, the first, which leads to frame g. */
  predicate Links(t: Table, g: nat) { |t| == ENTRIES && t == Single(t[0]) && Present(t[0]) && !Huge(t[0]) && FrameOf(t[0]) == g }

  predicate FirstPage(page: Path) { |page| == 4 && page[0] == page[1] == page[2] == page[3] == 0 }

  /** One table at each level but the last, or but the last two. */
  ghost predicate ChainOf(tables: map<Path, nat>, root: nat, f: nat, g: nat, deep: bool) {
    tables == if deep then map[[] := root, [0] := f, [0, 0] := g] else map[[] := root, [0] := f]
  }

  /** Tables that hold one entry each form a tree when each entry leads to the next table and the last one maps a large page. */
  lemma ChainTree(m: Frames, tables: map<Path, nat>, page: Path, root: nat, f: nat, g: nat, deep: bool)
    requires (forall x :: 0 <= x < |m| ==> |m[x]| == ENTRIES) && root < |m| && f < |m| <= 0x100_0000_0000 && root != f
    requires Links(m[root], f)
    requires if deep then g < |m| && g != root && g != f && Links(m[f], g) && m[g] == Single(129) else m[f] == Single(129)
    requires FirstPage(page) && ChainOf(tables, root, f, g, deep)
    ensures Tree(m, root, tables) && Lookup(m, tables, page) == HugeLeaf(129)
  {
    assert Present(129) && Huge(129) && !Present(0);
    hide Present, Huge, FrameOf;
    assert Tree(m, root, tables) by {
      forall p, i | p in tables && |p| < 3 && 0 <= i < ENTRIES
        ensures var e := EntryAt(m, tables[p], i);
                (Present(e) && !Large(p, e) <==> Child(p, i) in tables)
                && (Child(p, i) in tables ==> FrameOf(e) == tables[Child(p, i)])
      {
        ChainEntry(m, tables, root, f, g, deep, p, i);
      }
      hide Large, EntryAt, ChainOf, Links, Child;
      ChainPaths(tables, root, f, g, deep);
    }
    assert page[..1] == [0] && page[..2] == [0, 0] && page[..3] == [0, 0, 0];
    hide Tree;
  }

  lemma ChainPaths(tables: map<Path, nat>, root: nat, f: nat, g: nat, deep: bool)
    requires ChainOf(tables, root, f, g, deep) && root != f && (deep ==> g != root && g != f)
    ensures [] in tables && tables[[]] == root && [0] in tables && tables[[0]] == f
    ensures forall p :: p in tables ==> |p| <= 3 && (p != [] ==> p[..|p| - 1] in tables)
    ensures forall p :: p in tables ==> tables[p] == root || tables[p] == f || (deep && tables[p] == g)
    ensures forall p, q :: p in tables && q in tables && p != q ==> tables[p] != tables[q]
  {
    assert [0][..0] == [] && [0, 0][..1] == [0];
  }

  lemma SingleAt(m: Frames, f: nat, e: nat, i: nat)
    requires f < |m| && m[f] == Single(e) && i < ENTRIES
    ensures EntryAt(m, f, i) == if i == 0 then e else 0
  {
  }

  lemma ChainEntry(m: Frames, tables: map<Path, nat>, root: nat, f: nat, g: nat, deep: bool, p: Path, i: nat)
    requires root < |m| && f < |m| && root != f && Links(m[root], f)
    requires if deep then g < |m| && g != root && g != f && Links(m[f], g) && m[g] == Single(129) else m[f] == Single(129)
    requires ChainOf(tables, root, f, g, deep) && p in tables && |p| < 3 && i < ENTRIES
    ensures var e := EntryAt(m, tables[p], i);
            (Present(e) && !Large(p, e) <==> Child(p, i) in tables)
            && (Child(p, i) in tables ==> FrameOf(e) == tables[Child(p, i)])
  {
    assert Present(129) && Huge(129) && !Present(0);
    ChainIn(tables, root, f, g, deep, p);
    ChainIn(tables, root, f, g, deep, Child(p, i));
    hide Present, Huge, FrameOf, EntryAt, Single, Child, ChainOf;
    ChildParts(p, i, [], 0);
    ChildParts(p, i, [0], 0);
    ChildIs();
    if p == [] {
      SingleAt(m, root, m[root][0], i);
    } else if p == [0] {
      SingleAt(m, f, if deep then m[f][0] else 129, i);
    } else {
      SingleAt(m, g, 129, i);
    }
  }

  lemma ChainIn(tables: map<Path, nat>, root: nat, f: nat, g: nat, deep: bool, q: Path)
    requires ChainOf(tables, root, f, g, deep)
    ensures q in tables <==> q == [] || q == [0] || (deep && q == [0, 0])
    ensures q in tables ==> tables[q] == if q == [] then root else if q == [0] then f else g
  {
  }

  lemma ChildIs()
    ensures Child([], 0) == [0] && Child([0], 0) == [0, 0]
  {
  }

  /** Frame 0 holds zeros, and the table in frame f maps a 1 GiB page over it. */
  ghost predicate CoveredMemory(m: Frames, root: nat, f: nat) {
    && (forall x :: 0 <= x < |m| ==> |m[x]| == ENTRIES) && 0 < root < |m| <= 0x100_0000_0000 && 0 < f < |m| && root != f
    && Links(m[root], f) && m[f] == Single(129) && m[0] == Zeros()
  }

  lemma CoveredMemoryExists() returns (m: Frames, spare: seq<nat>)
    ensures CoveredMemory(m, 3, 4) && |m| == 6
    ensures |spare| == 3 && 0 !in spare && forall tables :: ChainOf(tables, 3, 4, 0, false) ==> Spare(m, tables, spare)
  {
    hide TableEntry, Present, Huge, FrameOf;
    TableEntryExact(4);
    m := [Zeros(), Zeros(), Zeros(), Single(TableEntry(4)), Single(129), Zeros()];
    assert m[0] == Zeros() && m[3] == Single(TableEntry(4)) && m[4] == Single(129);
    assert Links(m[3], 4);
    spare := [1, 2, 5];
    forall tables | ChainOf(tables, 3, 4, 0, false) ensures Spare(m, tables, spare) { ChainPaths(tables, 3, 4, 0, false); }
  }

  /** There a large page covers the first address, the hardware maps it, and is_page_mapped denies it; after a run of
      paging_map_page is_page_mapped says yes and the hardware sees no change. */
  lemma CoveredUnseen(m: Frames, tables: map<Path, nat>, page: Path, root: nat, f: nat, spare: seq<nat>, v: nat)
    requires CoveredMemory(m, root, f) && ChainOf(tables, root, f, 0, false) && FirstPage(page) && Present(v)
    requires |spare| >= 3 && 0 !in spare && Spare(m, tables, spare)
    ensures Tree(m, root, tables) && Walk(m, root, page) == HugeLeaf(129) && !Seen(m, page, 0, root)
    ensures var m' := Stored(m, page, 0, root, spare, v);
            Walk(m', root, page) == HugeLeaf(129) && Seen(m', page, 0, root)
  {
    hide *;
    CoveredTree(m, tables, page, root, f, spare);
    CoveredSound(m, tables, page, root, f, spare);
    WalkIsLookup(m, root, tables, page);
    MappingTakesEffect(m, root, tables, page, spare, v);
    UnseenThenSeen(m, page, root, f, 0, spare, v);
  }

  lemma CoveredTree(m: Frames, tables: map<Path, nat>, page: Path, root: nat, f: nat, spare: seq<nat>)
    requires CoveredMemory(m, root, f) && ChainOf(tables, root, f, 0, false) && FirstPage(page)
    requires |spare| >= 3 && 0 !in spare && Spare(m, tables, spare)
    ensures IsPage(page) && Tree(m, root, tables) && Lookup(m, tables, page) == HugeLeaf(129)
    ensures 0 < |m| && root != 0 && f != 0 && spare[0] < |m| <= 0x100_0000_0000
    ensures spare[0] != root && spare[0] != f && spare[0] != 0
  {
    ChainTree(m, tables, page, root, f, 0, false);
    ChainPaths(tables, root, f, 0, false);
    assert tables[[]] in tables.Values && tables[[0]] in tables.Values && spare[0] in spare;
  }

  lemma CoveredSound(m: Frames, tables: map<Path, nat>, page: Path, root: nat, f: nat, spare: seq<nat>)
    requires CoveredMemory(m, root, f) && ChainOf(tables, root, f, 0, false) && FirstPage(page) && 0 !in spare
    ensures Sound(m, tables, SetOf(spare), page, 0, root)
    ensures LeadsTo(m, page, 0, root, f) && LeadsTo(m, page, 1, f, 0) && !Present(m[0][page[2]]) && |m[0]| == ENTRIES
  {
    assert Present(129) && FrameOf(129) == 0 && !Present(0);
    hide Present, FrameOf, Huge;
    ChainPaths(tables, root, f, 0, false);
    assert EntryAt(m, root, 0) == m[root][0] && EntryAt(m, f, 0) == 129 && EntryAt(m, 0, 0) == 0;
    assert 0 !in tables.Values;
    assert page[..0] == [] && page[..1] == [0];
    assert Genuine(tables, page, 0, root) && Genuine(tables, page, 1, f);
    hide EntryAt, SetOf, ChainOf, Genuine;
    assert Sound(m, tables, SetOf(spare), page, 2, 0);
    assert Sound(m, tables, SetOf(spare), page, 1, f);
  }

  /** One table in each of three frames, and a 2 MiB page that begins with the root table in frame 0. */
  ghost predicate LoopMemory(m: Frames, root: nat, f: nat, g: nat) {
    && (forall x :: 0 <= x < |m| ==> |m[x]| == ENTRIES) && root == 0 && f < |m| <= 0x100_0000_0000 && g < |m|
    && root != f && g != root && g != f
    && Links(m[root], f) && Links(m[f], g) && m[g] == Single(129)
  }

  lemma LoopMemoryExists() returns (m: Frames)
    ensures LoopMemory(m, 0, 1, 2)
  {
    hide TableEntry, Present, Huge, FrameOf;
    TableEntryExact(1);
    TableEntryExact(2);
    m := [Single(TableEntry(1)), Single(TableEntry(2)), Single(129)];
    assert m[0] == Single(TableEntry(1)) && m[1] == Single(TableEntry(2)) && m[2] == Single(129);
    assert Links(m[0], 1) && Links(m[1], 2);
  }

  /** There the leaf goes into the root, and the translation of the page changes although a large page covers it. */
  lemma MisreadRoot(m: Frames, tables: map<Path, nat>, page: Path, root: nat, f: nat, g: nat)
    requires LoopMemory(m, root, f, g) && ChainOf(tables, root, f, g, true) && FirstPage(page)
    ensures Tree(m, root, tables) && Walk(m, root, page) == HugeLeaf(129)
    ensures Walk(Stored(m, page, 0, root, [], 3), root, page) == Leaf(3)
  {
    ChainTree(m, tables, page, root, f, g, true);
    LoopLeads(m, page, root, f, g);
    hide Tree, Lookup, ChainOf, Stored, Walk, LoopMemory, LeadsTo, Present, Huge, FrameOf;
    WalkIsLookup(m, root, tables, page);
    StoredAlong(m, page, root, f, g, root, [], 3);
    var m' := WithEntry(m, root, page[3], 3);
    assert m'[root][0] == 3 && |m'[root]| == ENTRIES;
    RootLoop(m', page);
  }

  lemma LoopLeads(m: Frames, page: Path, root: nat, f: nat, g: nat)
    requires LoopMemory(m, root, f, g) && FirstPage(page)
    ensures LeadsTo(m, page, 0, root, f) && LeadsTo(m, page, 1, f, g) && LeadsTo(m, page, 2, g, root)
    ensures |m[root]| == ENTRIES && IsPage(page)
  {
    assert Present(129) && FrameOf(129) == 0;
    hide Present, FrameOf, Huge;
  }

  lemma RootLoop(m: Frames, page: Path)
    requires |m| > 0 && |m[0]| == ENTRIES && m[0][0] == 3 && FirstPage(page)
    ensures Walk(m, 0, page) == Leaf(3)
  {
    assert Present(3) && FrameOf(3) == 0 && !Huge(3) && EntryAt(m, 0, 0) == 3;
    hide Present, FrameOf, Huge, EntryAt;
    assert Walk(m, 0, page[3..]) == Leaf(3);
    assert page[2..][1..] == page[3..] && Walk(m, 0, page[2..]) == Leaf(3);
    assert page[1..][1..] == page[2..] && Walk(m, 0, page[1..]) == Leaf(3);
  }
}
