/** core/kernel/shell/commands/network.c:77-87: the Internet checksum of RFC 1071, over little-endian words. */
module Checksum {
  import opened Arith
  import opened Memory

  function Word(low: int, high: int): int { low + 256 * high }

  /** The sum of the 16-bit words; an odd last byte counts as the low byte of a word. */
  function WordSum(d: seq<byte>): nat {
    if d == [] then 0
    else if |d| == 1 then d[0]
    else Word(d[0], d[1]) + WordSum(d[2..])
  }

  /** Adding the carries back in until the sum fits 16 bits. */
  function Fold(sum: nat): (r: nat)
    ensures r < 0x1_0000 && r % 65535 == sum % 65535 && (r == 0 <==> sum == 0)
    decreases sum
  {
    if sum < 0x1_0000 then sum
    else
      CarryKeeps(sum);
      Fold(sum % 0x1_0000 + sum / 0x1_0000)
  }

  lemma CarryKeeps(sum: nat)
    requires sum >= 0x1_0000
    ensures var s := sum % 0x1_0000 + sum / 0x1_0000;
            0 < s < sum && s % 65535 == sum % 65535
  {
    var q, r := sum / 0x1_0000, sum % 0x1_0000;
    assert sum == q + r + 65535 * q;
    ModDrop(q + r, q);
  }

  lemma {:induction false} ModDrop(a: nat, q: nat)
    ensures (a + 65535 * q) % 65535 == a % 65535
    decreases q
  {
    if q > 0 { ModDrop(a, q - 1); assert a + 65535 * q == a + 65535 * (q - 1) + 65535; }
  }

  /** The checksum of data whose word sum fits the 32-bit accumulator. */
  function Check(d: seq<byte>): (c: nat)
    ensures c < 0x1_0000
  {
    0xFFFF - Fold(WordSum(d) % U32)
  }

  /** An odd last byte counts as if a zero byte followed it (RFC 1071, section 1). */
  lemma {:induction false} PaddedSum(d: seq<byte>)
    requires |d| % 2 == 1
    ensures WordSum(d + [0]) == WordSum(d)
    decreases |d|
  {
    if |d| > 1 {
      PaddedSum(d[2..]);
      assert (d + [0])[2..] == d[2..] + [0];
    }
  }

  lemma PaddedCheck(d: seq<byte>)
    requires |d| % 2 == 1
    ensures Check(d + [0]) == Check(d)
  {
    PaddedSum(d);
  }

  /** One word, low byte first, and what two words give: the end-around carry comes back in. */
  lemma WordCheck(a: byte, b: byte, c: byte, d: byte)
    ensures Check([a, b]) == 0xFFFF - (a + 256 * b)
    ensures var s := a + 256 * b + (c + 256 * d);
            Check([a, b, c, d]) == 0xFFFF - if s < 0x1_0000 then s else s - 0xFFFF
  {
    TwoBytes(a, b);
    TwoBytes(c, d);
    assert WordSum([a, b, c, d]) == a + 256 * b + WordSum([c, d]) by { assert [a, b, c, d][2..] == [c, d]; }
    hide WordSum;
    FoldOnce(a + 256 * b);
    FoldOnce(a + 256 * b + (c + 256 * d));
    hide Fold;
    CheckIs([a, b]);
    CheckIs([a, b, c, d]);
    hide Check;
  }

  lemma TwoBytes(a: byte, b: byte)
    ensures WordSum([a, b]) == a + 256 * b
  {
    assert [a, b][2..] == [];
  }

  lemma FoldOnce(s: nat)
    requires s < 0x2_0000 - 1
    ensures Fold(s) == if s < 0x1_0000 then s else s - 0xFFFF
  {
    assert s >= 0x1_0000 ==> s / 0x1_0000 == 1 && s % 0x1_0000 == s - 0x1_0000;
  }

  lemma CheckIs(d: seq<byte>)
    requires WordSum(d) < U32
    ensures Check(d) == 0xFFFF - Fold(WordSum(d))
  {
    hide WordSum, Fold;
  }

  lemma WrapAdd(acc: nat, w: nat)
    ensures (acc % U32 + w) % U32 == (acc + w) % U32
  {
    var q, r := acc / U32, acc % U32;
    var q', r' := (r + w) / U32, (r + w) % U32;
    assert acc + w == (q + q') * U32 + r';
    assert (acc + w) / U32 == q + q' by { Quotient(acc + w, q + q', r'); }
  }

  lemma Quotient(x: nat, q: nat, r: nat)
    requires r < U32 && x == q * U32 + r
    ensures x / U32 == q
  {
    QuotientIs(x, U32, q, r);
  }

  /** The folding loop. */
  method FoldSum(sum: nat) returns (r: nat)
    ensures r == Fold(sum)
  {
    r := sum;
    while r / 0x1_0000 != 0
      invariant Fold(r) == Fold(sum)
      decreases r
    {
      CarryKeeps(r);
      r := r % 0x1_0000 + r / 0x1_0000;
    }
  }

  method NetworkChecksum(mem: array<byte>, data: nat, len: nat) returns (c: nat)
    requires data + len <= mem.Length
    ensures c == Check(mem[data..data + len])
    ensures len % 2 == 1 ==> c == Check(mem[data..data + len] + [0])
  {
    ghost var d, acc: nat := mem[data..data + len], 0;
    var sum, ptr, left := 0, data, len;
    while left > 1
      invariant 0 <= left <= len && ptr == data + (len - left)
      invariant sum == acc % U32 && acc + WordSum(d[len - left..]) == WordSum(d)
    {
      ghost var rest := d[len - left..];
      assert rest[2..] == d[len - left + 2..];
      var w := Word(mem[ptr], mem[ptr + 1]);
      WrapAdd(acc, w);
      sum, acc := (sum + w) % U32, acc + w;
      ptr := ptr + 2;
      left := left - 2;
    }
    if left != 0 {
      WrapAdd(acc, mem[ptr]);
      sum, acc := (sum + mem[ptr]) % U32, acc + mem[ptr];
    }
    assert acc == WordSum(d);
    if len % 2 == 1 { PaddedCheck(d); }
    hide WordSum;
    var folded := FoldSum(sum);
    c := 0xFFFF - folded;
  }

  // ---------- what the checksum is for ----------

  /** A message verifies, that is its checksum is 0, exactly when its word sum is a positive multiple of 65535. */
  lemma VerifiesExactly(d: seq<byte>)
    requires WordSum(d) < U32
    ensures Check(d) == 0 <==> WordSum(d) > 0 && WordSum(d) % 65535 == 0
  {
    CheckIs(d);
    hide WordSum, Fold, Check;
  }

  /** d with the checksum c in the field at the given offset, low byte first. */
  function Stored(d: seq<byte>, at: nat, c: nat): (r: seq<byte>)
    requires at + 2 <= |d| && c < 0x1_0000
    ensures |r| == |d|
  {
    var low: byte, high: byte := c % 256, c / 256;
    d[at := low][at + 1 := high]
  }

  lemma {:induction false} StoredSum(d: seq<byte>, at: nat, c: nat)
    requires at % 2 == 0 && at + 2 <= |d| && c < 0x1_0000
    ensures WordSum(Stored(d, at, c)) == WordSum(d) - Word(d[at], d[at + 1]) + c
    decreases at
  {
    if at == 0 {
      assert Stored(d, at, c)[2..] == d[2..];
    } else {
      assert Stored(d, at, c)[2..] == Stored(d[2..], at - 2, c);
      StoredSum(d[2..], at - 2, c);
    }
  }

  /** Storing the checksum in a zeroed field at an even offset makes the message verify, for even and odd lengths. */
  lemma StoreThenVerify(d: seq<byte>, at: nat)
    requires at % 2 == 0 && at + 2 <= |d| && d[at] == 0 && d[at + 1] == 0
    requires WordSum(d) + 0xFFFF < U32
    ensures Check(Stored(d, at, Check(d))) == 0
  {
    CheckIs(d);
    hide Fold, WordSum, Stored, Check;
    var s, c := WordSum(d), Check(d);
    StoredSum(d, at, c);
    Complement(s, Fold(s));
    VerifiesExactly(Stored(d, at, c));
  }

  lemma Complement(s: nat, f: nat)
    requires f < 0x1_0000 && f % 65535 == s % 65535 && (f == 0 <==> s == 0)
    ensures s + (0xFFFF - f) > 0 && (s + (0xFFFF - f)) % 65535 == 0
  {
  }

  lemma {:induction false} WordSumConcat(a: seq<byte>, b: seq<byte>)
    requires |a| % 2 == 0
    ensures WordSum(a + b) == WordSum(a) + WordSum(b)
    decreases |a|
  {
    if a == [] {
      assert a + b == b;
    } else {
      assert (a + b)[2..] == a[2..] + b;
      WordSumConcat(a[2..], b);
    }
  }

  /** Exchanging two neighbouring even-length fields, such as the two addresses of an IP header, keeps the checksum. */
  lemma SwapKeeps(pre: seq<byte>, x: seq<byte>, y: seq<byte>, post: seq<byte>)
    requires |pre| % 2 == 0 && |x| % 2 == 0 && |y| % 2 == 0
    ensures Check(pre + y + x + post) == Check(pre + x + y + post)
  {
    WordSumConcat(pre + y + x, post);
    WordSumConcat(pre + y, x);
    WordSumConcat(pre, y);
    WordSumConcat(pre + x + y, post);
    WordSumConcat(pre + x, y);
    WordSumConcat(pre, x);
  }

  /** A message that verifies gets its own checksum back when the field is zeroed and computed again,
      except that a field of 0xFFFF comes back as 0. */
  lemma RecomputeExact(d: seq<byte>, at: nat, c: nat)
    requires at % 2 == 0 && at + 2 <= |d| && c < 0x1_0000 && d[at] == 0 && d[at + 1] == 0
    requires 0 < WordSum(d) && WordSum(d) + 0xFFFF < U32
    requires Check(Stored(d, at, c)) == 0
    ensures Check(d) == if c == 0xFFFF then 0 else c
  {
    hide Fold, WordSum, Stored;
    var s := WordSum(d);
    StoredSum(d, at, c);
    VerifiesExactly(Stored(d, at, c));
    Inverse(s, Fold(s), c);
  }

  lemma Inverse(s: nat, f: nat, c: nat)
    requires 0 < f < 0x1_0000 && f % 65535 == s % 65535 && c < 0x1_0000 && (s + c) % 65535 == 0
    ensures 0xFFFF - f == if c == 0xFFFF then 0 else c
  {
  }
}
