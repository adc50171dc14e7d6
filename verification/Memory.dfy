/** Byte-addressed memory and the word-at-a-time routines of core/drivers/memory/mem.c.
    An address is an index into the array of bytes; multi-byte fields are little-endian. */
module Memory {
  const U64: nat := 0x1_0000_0000_0000_0000
  const U32: nat := 0x1_0000_0000

  type byte = x: int | 0 <= x < 256

  function Pow256(n: nat): (p: nat)
    ensures p > 0
  {
    if n == 0 then 1 else 256 * Pow256(n - 1)
  }

  /** The low byte first. */
  function Byte(v: nat, i: nat): byte {
    if i == 0 then v % 256 else Byte(v / 256, i - 1)
  }

  /** The n-byte little-endian field at address a; only addresses inside memory are read. */
  function Load(m: seq<byte>, a: nat, n: nat): nat
    decreases n
  {
    if n == 0 || a >= |m| then 0 else m[a] + 256 * Load(m, a + 1, n - 1)
  }

  /** The byte at offset n of a field weighs 256^n. */
  lemma {:induction false} LoadMore(m: seq<byte>, a: nat, n: nat)
    requires a + n < |m|
    ensures Load(m, a, n + 1) == Load(m, a, n) + m[a + n] * Pow256(n)
    decreases n
  {
    if n > 0 {
      LoadMore(m, a + 1, n - 1);
      assert 256 * (m[a + n] * Pow256(n - 1)) == m[a + n] * Pow256(n);
    }
  }

  /** m and m' differ at most on [lo, hi). */
  ghost predicate Only(m: seq<byte>, m': seq<byte>, lo: nat, hi: nat) {
    |m| == |m'| && forall x :: 0 <= x < |m| && !(lo <= x < hi) ==> m'[x] == m[x]
  }

  lemma {:induction false} LoadStored(m: seq<byte>, a: nat, n: nat, v: nat)
    requires a + n <= |m| && v < Pow256(n)
    requires forall x :: a <= x < a + n ==> m[x] == Byte(v, x - a)
    ensures Load(m, a, n) == v
    decreases n
  {
    if n > 0 {
      forall x | a + 1 <= x < a + 1 + (n - 1) ensures m[x] == Byte(v / 256, x - (a + 1)) {
        assert m[x] == Byte(v, x - a);
      }
      assert m[a] == Byte(v, a - a);
      LoadStored(m, a + 1, n - 1, v / 256);
    }
  }

  lemma Widths()
    ensures Pow256(1) == 256 && Pow256(4) == U32 && Pow256(8) == U64
  {
    assert Pow256(2) == 0x1_0000;
    assert Pow256(3) == 0x100_0000;
    assert Pow256(4) == U32;
    assert Pow256(5) == 0x100_0000_0000;
    assert Pow256(6) == 0x1_0000_0000_0000;
    assert Pow256(7) == 0x100_0000_0000_0000;
  }

  /** A field whose bytes are the same reads the same. */
  lemma {:induction false} LoadSame(m: seq<byte>, m': seq<byte>, a: nat, n: nat)
    requires |m| == |m'| && forall x :: a <= x < a + n && x < |m| ==> m'[x] == m[x]
    ensures Load(m', a, n) == Load(m, a, n)
    decreases n
  {
    if n > 0 { LoadSame(m, m', a + 1, n - 1); }
  }

  /** The machine's n-byte store. */
  method Store(mem: array<byte>, a: nat, n: nat, v: nat)
    requires a + n <= mem.Length && v < Pow256(n)
    modifies mem
    ensures Load(mem[..], a, n) == v
    ensures forall x :: a <= x < a + n ==> mem[x] == Byte(v, x - a)
    ensures Only(old(mem[..]), mem[..], a, a + n)
  {
    forall i | 0 <= i < n {
      mem[a + i] := Byte(v, i);
    }
    LoadStored(mem[..], a, n, v);
  }

  // ---------- memset, memcpy, memmove ----------

  /** val | (val << 8) | (val << 16) | (val << 24) */
  function Splat(val: byte): nat { val * 0x0101_0101 }

  lemma SplatBytes(val: byte)
    ensures Splat(val) < Pow256(4)
    ensures forall i :: 0 <= i < 4 ==> Byte(Splat(val), i) == val
  {
    Widths();
    var v := Splat(val);
    assert v / 256 == val * 0x01_0101 && v / 256 / 256 == val * 0x0101 && v / 256 / 256 / 256 == val;
    assert Byte(v, 0) == val && Byte(v, 1) == Byte(v / 256, 0);
    assert Byte(v, 2) == Byte(v / 256, 1) == Byte(v / 256 / 256, 0);
    assert Byte(v, 3) == Byte(v / 256, 2) == Byte(v / 256 / 256, 1) == Byte(v / 256 / 256 / 256, 0);
  }

  /** Bytes up to a word boundary, then words, then the remaining bytes: n bytes of val in all. */
  method Memset(mem: array<byte>, ptr: nat, val: byte, n: nat)
    requires ptr + n <= mem.Length
    modifies mem
    ensures forall x :: ptr <= x < ptr + n ==> mem[x] == val
    ensures Only(old(mem[..]), mem[..], ptr, ptr + n)
  {
    hide Load, Byte;
    var p, left := ptr, n;
    SplatBytes(val);
    while left != 0 && p % 4 != 0
      invariant ptr <= p && 0 <= left && p + left == ptr + n
      invariant forall x :: ptr <= x < p ==> mem[x] == val
      invariant Only(old(mem[..]), mem[..], ptr, ptr + n)
    {
      mem[p] := val;
      p, left := p + 1, left - 1;
    }
    var n32 := left / 4;
    while n32 != 0
      invariant ptr <= p && 0 <= n32 && p + 4 * n32 + left % 4 == ptr + n
      invariant forall x :: ptr <= x < p ==> mem[x] == val
      invariant Only(old(mem[..]), mem[..], ptr, ptr + n)
    {
      Store(mem, p, 4, Splat(val));
      assert forall x :: p <= x < p + 4 ==> mem[x] == Byte(Splat(val), x - p);
      p, n32 := p + 4, n32 - 1;
    }
    left := left % 4;
    while left != 0
      invariant ptr <= p && 0 <= left && p + left == ptr + n
      invariant forall x :: ptr <= x < p ==> mem[x] == val
      invariant Only(old(mem[..]), mem[..], ptr, ptr + n)
    {
      mem[p] := val;
      p, left := p + 1, left - 1;
    }
  }

  /** One u32 assignment: all four source bytes are read before any is written. */
  method CopyWord(mem: array<byte>, d: nat, s: nat)
    requires d + 4 <= mem.Length && s + 4 <= mem.Length
    modifies mem
    ensures forall x :: d <= x < d + 4 ==> mem[x] == old(mem[x - d + s])
    ensures Only(old(mem[..]), mem[..], d, d + 4)
  {
    mem[d], mem[d + 1], mem[d + 2], mem[d + 3] := mem[s], mem[s + 1], mem[s + 2], mem[s + 3];
  }

  /** The first k of n bytes are copied and the source bytes still to be read are untouched. */
  ghost predicate Copied(m: seq<byte>, m': seq<byte>, dst: nat, src: nat, n: nat, k: nat) {
    && dst + n <= |m| && src + n <= |m|
    && Only(m, m', dst, dst + n)
    && (forall x :: dst <= x < dst + k && k <= n ==> m'[x] == m[x - dst + src])
    && (forall x :: src + k <= x < src + n ==> m'[x] == m[x])
  }

  lemma CopiedMore(m: seq<byte>, m': seq<byte>, m'': seq<byte>, dst: nat, src: nat, n: nat, k: nat, w: nat)
    requires Copied(m, m', dst, src, n, k) && k + w <= n && (dst <= src || src + n <= dst)
    requires Only(m', m'', dst + k, dst + k + w)
    requires forall x :: dst + k <= x < dst + k + w ==> m''[x] == m'[x - dst + src]
    ensures Copied(m, m'', dst, src, n, k + w)
  {
  }

  lemma CopiedAll(m: seq<byte>, m': seq<byte>, dst: nat, src: nat, n: nat)
    requires Copied(m, m', dst, src, n, n)
    ensures dst + n <= |m| == |m'| && Only(m, m', dst, dst + n)
    ensures src + n <= |m| && forall x :: dst <= x < dst + n ==> m'[x] == m[x - dst + src]
  {
  }

  method CopyByte(mem: array<byte>, d: nat, s: nat)
    requires d < mem.Length && s < mem.Length
    modifies mem
    ensures mem[d] == old(mem[s])
    ensures Only(old(mem[..]), mem[..], d, d + 1)
  {
    mem[d] := mem[s];
  }

  /** The middle loop of memcpy: n32 words. */
  method CopyWords(mem: array<byte>, dst: nat, src: nat, n: nat, k: nat, n32: nat, ghost m: seq<byte>)
    requires Copied(m, mem[..], dst, src, n, k) && k + 4 * n32 <= n && (dst <= src || src + n <= dst)
    modifies mem
    ensures Copied(m, mem[..], dst, src, n, k + 4 * n32)
  {
    for i := 0 to n32
      invariant Copied(m, mem[..], dst, src, n, k + 4 * i)
    {
      ghost var m' := mem[..];
      CopyWord(mem, dst + (k + 4 * i), src + (k + 4 * i));
      CopiedMore(m, m', mem[..], dst, src, n, k + 4 * i, 4);
    }
  }

  /** The first loop of memcpy: bytes until the destination is aligned. */
  method CopyHead(mem: array<byte>, dst: nat, src: nat, n: nat) returns (k: nat)
    requires dst + n <= mem.Length && src + n <= mem.Length && (dst <= src || src + n <= dst)
    modifies mem
    ensures k <= n && Copied(old(mem[..]), mem[..], dst, src, n, k)
  {
    ghost var m := mem[..];
    k := 0;
    while k < n && (dst + k) % 4 != 0
      invariant k <= n && Copied(m, mem[..], dst, src, n, k)
    {
      ghost var m' := mem[..];
      CopyByte(mem, dst + k, src + k);
      CopiedMore(m, m', mem[..], dst, src, n, k, 1);
      k := k + 1;
    }
  }

  /** The last loop of memcpy: the bytes after the words. */
  method CopyTail(mem: array<byte>, dst: nat, src: nat, n: nat, from: nat, ghost m: seq<byte>)
    requires Copied(m, mem[..], dst, src, n, from) && from <= n && (dst <= src || src + n <= dst)
    modifies mem
    ensures Copied(m, mem[..], dst, src, n, n)
  {
    for k := from to n
      invariant Copied(m, mem[..], dst, src, n, k)
    {
      ghost var m' := mem[..];
      CopyByte(mem, dst + k, src + k);
      CopiedMore(m, m', mem[..], dst, src, n, k, 1);
    }
  }

  /** Correct whenever the destination does not start inside the source. */
  method Memcpy(mem: array<byte>, dst: nat, src: nat, n: nat)
    requires dst + n <= mem.Length && src + n <= mem.Length
    requires dst <= src || src + n <= dst
    modifies mem
    ensures forall x :: dst <= x < dst + n ==> mem[x] == old(mem[x - dst + src])
    ensures Only(old(mem[..]), mem[..], dst, dst + n)
  {
    ghost var m := mem[..];
    var k := CopyHead(mem, dst, src, n);
    var n32 := (n - k) / 4;
    CopyWords(mem, dst, src, n, k, n32, m);
    CopyTail(mem, dst, src, n, k + 4 * n32, m);
    CopiedAll(m, mem[..], dst, src, n);
  }

  /** Correct for every overlap. */
  method Memmove(mem: array<byte>, dst: nat, src: nat, n: nat)
    requires dst + n <= mem.Length && src + n <= mem.Length
    modifies mem
    ensures forall x :: dst <= x < dst + n ==> mem[x] == old(mem[x - dst + src])
    ensures Only(old(mem[..]), mem[..], dst, dst + n)
  {
    if dst < src {
      ghost var m := mem[..];
      for i := 0 to n
        invariant Copied(m, mem[..], dst, src, n, i)
      {
        ghost var m' := mem[..];
        CopyByte(mem, dst + i, src + i);
        CopiedMore(m, m', mem[..], dst, src, n, i, 1);
      }
    } else {
      for i := n downto 0
        invariant forall x :: dst + i <= x < dst + n ==> mem[x] == old(mem[x - dst + src])
        invariant forall x :: src <= x < src + i ==> mem[x] == old(mem[x])
        invariant Only(old(mem[..]), mem[..], dst, dst + n)
      {
        mem[dst + i] := mem[src + i];
      }
    }
  }
}
