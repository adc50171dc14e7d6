/** common/string/string.c and common/outputs/print.c: writing an int in decimal and reading it back, through
    NUL-terminated buffers and the in-place XOR reversal. */
module Decimal {
  import opened Arith
  import opened Memory
  import opened CString

  const ZERO: int := 48
  const MINUS: int := 45
  const PLUS: int := 43
  const SPACE: int := 32
  const TAB: int := 9
  const INT_LIMIT: int := 0x8000_0000

  // ---------- what the text means ----------

  predicate IsDigit(c: byte) { ZERO <= c <= ZERO + 9 }

  function DigitOf(d: nat): byte
    requires d < 10
  {
    ZERO + d
  }

  /** Decimal digits of v, most significant first. */
  function Digits(v: nat): (d: seq<byte>)
    ensures |d| > 0 && forall i :: 0 <= i < |d| ==> IsDigit(d[i])
    ensures |d| > 1 ==> d[0] != ZERO
    ensures v > 0 ==> d[0] != ZERO
  {
    if v < 10 then [DigitOf(v)] else Digits(v / 10) + [DigitOf(v % 10)]
  }

  function Numeral(v: int): (n: seq<byte>)
    ensures |n| > 0 && forall i :: 0 <= i < |n| ==> n[i] == MINUS || IsDigit(n[i])
  {
    if v < 0 then [MINUS] + Digits(Abs(v)) else Digits(v)
  }

  function DigitValue(c: byte): nat
    requires IsDigit(c)
  {
    c - ZERO
  }

  /** Positional value of a digit string. */
  function Value(d: seq<byte>): (v: nat)
    requires forall i :: 0 <= i < |d| ==> IsDigit(d[i])
  {
    if d == [] then 0 else Value(d[..|d| - 1]) * 10 + DigitValue(d[|d| - 1])
  }

  function Blanks(s: seq<byte>): (n: nat)
    ensures n <= |s| && forall i :: 0 <= i < n ==> s[i] == SPACE || s[i] == TAB
    ensures n < |s| ==> s[n] != SPACE && s[n] != TAB
  {
    if s != [] && (s[0] == SPACE || s[0] == TAB) then 1 + Blanks(s[1..]) else 0
  }

  predicate Signed(s: seq<byte>) { s != [] && (s[0] == MINUS || s[0] == PLUS) }

  /** Length of the longest digit prefix. */
  function DigitRun(s: seq<byte>): (n: nat)
    ensures n <= |s| && forall i :: 0 <= i < n ==> IsDigit(s[i])
    ensures n < |s| ==> !IsDigit(s[n])
  {
    if s != [] && IsDigit(s[0]) then 1 + DigitRun(s[1..]) else 0
  }

  /** The text after its leading blanks, and the digits after the sign. */
  function Body(s: seq<byte>): seq<byte> { s[Blanks(s)..] }

  function Mantissa(s: seq<byte>): (d: seq<byte>)
    ensures forall i :: 0 <= i < |d| ==> IsDigit(d[i])
  {
    var u := if Signed(Body(s)) then Body(s)[1..] else Body(s);
    u[..DigitRun(u)]
  }

  function Parse(s: seq<byte>): int
  {
    Value(Mantissa(s)) * if Signed(Body(s)) && Body(s)[0] == MINUS then -1 else 1
  }

  lemma {:induction false} ValueOfDigits(v: nat)
    ensures Value(Digits(v)) == v
  {
    if v >= 10 {
      ValueOfDigits(v / 10);
      assert Digits(v)[..|Digits(v)| - 1] == Digits(v / 10);
    } else {
      assert Digits(v)[..0] == [];
    }
  }

  lemma {:induction false} PrefixValue(d: seq<byte>, k: nat)
    requires k <= |d| && forall i :: 0 <= i < |d| ==> IsDigit(d[i])
    ensures Value(d[..k]) <= Value(d)
  {
    if k < |d| {
      PrefixValue(d[..|d| - 1], k);
      assert d[..|d| - 1][..k] == d[..k];
    } else {
      assert d[..k] == d;
    }
  }

  lemma {:induction false} ValuePositive(d: seq<byte>)
    requires d != [] && d[0] != ZERO && forall i :: 0 <= i < |d| ==> IsDigit(d[i])
    ensures Value(d) > 0
  {
    PrefixValue(d, 1);
    assert d[..1][..0] == [];
  }

  /** The printed form is the only one without leading zeros. */
  lemma {:induction false} DigitsOfValue(d: seq<byte>)
    requires d != [] && (|d| > 1 ==> d[0] != ZERO) && forall i :: 0 <= i < |d| ==> IsDigit(d[i])
    ensures Digits(Value(d)) == d
  {
    var front := d[..|d| - 1];
    if front == [] {
      assert Value(front) == 0;
    } else {
      ValuePositive(front);
      DigitsOfValue(front);
      assert d == front + [d[|d| - 1]];
    }
  }

  lemma {:induction false} BlanksThen(blanks: seq<byte>, t: seq<byte>)
    requires forall i :: 0 <= i < |blanks| ==> blanks[i] == SPACE || blanks[i] == TAB
    requires Blanks(t) == 0
    ensures Blanks(blanks + t) == |blanks|
  {
    if blanks == [] {
      assert blanks + t == t;
    } else {
      BlanksThen(blanks[1..], t);
      assert (blanks + t)[1..] == blanks[1..] + t;
    }
  }

  lemma {:induction false} DigitsThen(d: seq<byte>, rest: seq<byte>)
    requires forall i :: 0 <= i < |d| ==> IsDigit(d[i])
    requires rest != [] ==> !IsDigit(rest[0])
    ensures DigitRun(d + rest) == |d|
  {
    if d == [] {
      assert d + rest == rest;
    } else {
      DigitsThen(d[1..], rest);
      assert (d + rest)[1..] == d[1..] + rest;
    }
  }

  /** A text that starts with no blank: a sign or none, digits, and then no digit. */
  lemma MantissaThen(sign: seq<byte>, d: seq<byte>, rest: seq<byte>)
    requires sign == [] || sign == [PLUS] || sign == [MINUS]
    requires forall i :: 0 <= i < |d| ==> IsDigit(d[i])
    requires rest != [] ==> !IsDigit(rest[0])
    requires sign == [] && d == [] && rest != [] ==> rest[0] !in [SPACE, TAB, PLUS, MINUS]
    ensures var t, u := sign + (d + rest), d + rest;
            && Blanks(t) == 0 && u[..DigitRun(u)] == d
            && (Signed(t) <==> sign != []) && (sign != [] ==> t[0] == sign[0] && t[1..] == u) && (sign == [] ==> t == u)
  {
    DigitsThen(d, rest);
    hide DigitRun;
    var t, u := sign + (d + rest), d + rest;
    assert u != [] ==> u[0] == if d != [] then d[0] else rest[0];
    assert sign == [] ==> t == u;
  }

  /** What is read: blanks, a sign or none, the digits; whatever follows the digits is ignored. */
  lemma ParseExactly(blanks: seq<byte>, sign: seq<byte>, d: seq<byte>, rest: seq<byte>)
    requires forall i :: 0 <= i < |blanks| ==> blanks[i] == 32 || blanks[i] == 9
    requires sign == [] || sign == [43] || sign == [45]
    requires forall i :: 0 <= i < |d| ==> 48 <= d[i] <= 57
    requires rest != [] ==> !(48 <= rest[0] <= 57)
    requires sign == [] && d == [] && rest != [] ==> rest[0] !in [32, 9, 43, 45]
    ensures Mantissa(blanks + (sign + (d + rest))) == d
    ensures Parse(blanks + (sign + (d + rest))) == Value(d) * if sign == [45] then -1 else 1
  {
    var t := sign + (d + rest);
    MantissaThen(sign, d, rest);
    BlanksThen(blanks, t);
    hide Blanks, DigitRun, Value;
    assert (blanks + t)[|blanks|..] == t;
  }

  /** Trailing text that does not start with a digit is ignored, and so are leading blanks. */
  lemma ParseInContext(blanks: seq<byte>, v: int, rest: seq<byte>)
    requires forall i :: 0 <= i < |blanks| ==> blanks[i] == SPACE || blanks[i] == TAB
    requires rest != [] ==> !IsDigit(rest[0])
    ensures Parse(blanks + (Numeral(v) + rest)) == v && Value(Mantissa(blanks + (Numeral(v) + rest))) == Abs(v)
  {
    hide Digits, Value, Parse, Mantissa;
    var sign, d := if v < 0 then [MINUS] else [], Digits(Abs(v));
    ParseExactly(blanks, sign, d, rest);
    ValueOfDigits(Abs(v));
    assert Numeral(v) + rest == sign + (d + rest);
  }

  lemma Shifted(v: nat, t: nat)
    ensures v * t * 10 == v * (10 * t)
  {
  }

  lemma TenNext(n: nat)
    ensures Ten(n + 1) == 10 * Ten(n)
  {
  }

  /** The weight of a digit is its power of ten. */
  lemma {:induction false} ValueJoin(a: seq<byte>, b: seq<byte>)
    requires forall i :: 0 <= i < |a| ==> 48 <= a[i] <= 57
    requires forall i :: 0 <= i < |b| ==> 48 <= b[i] <= 57
    ensures Value(a + b) == Value(a) * Ten(|b|) + Value(b)
    ensures |b| == 1 ==> Value(b) == b[0] - 48
    decreases |b|
  {
    if b == [] {
      assert a + b == a;
    } else {
      var n := |b| - 1;
      ValueJoin(a, b[..n]);
      assert (a + b)[..|a| + n] == a + b[..n];
      Shifted(Value(a), Ten(n));
      hide Ten;
      assert Ten(|b|) == 10 * Ten(n) by { TenNext(n); }
    }
  }

  /** str_to_int(str_from_int(v)) == v. */
  lemma ParseOfNumeral(v: int)
    ensures Parse(Numeral(v)) == v && Value(Mantissa(Numeral(v))) == Abs(v)
  {
    ParseInContext([], v, []);
    assert [] + (Numeral(v) + []) == Numeral(v);
  }

  /** An int never needs more than ten digits, so the 12-byte buffers hold sign, digits and terminator. */
  lemma {:induction false} DigitsLength(v: nat, k: nat, bound: nat)
    requires bound == Ten(k) && k > 0 && v < bound
    ensures |Digits(v)| <= k
  {
    if v >= 10 {
      DigitsLength(v / 10, k - 1, Ten(k - 1));
    }
  }

  function Ten(k: nat): nat { if k == 0 then 1 else 10 * Ten(k - 1) }

  lemma NumeralFits(v: int)
    requires -INT_LIMIT < v < INT_LIMIT
    ensures |Numeral(v)| <= 11 && |Digits(Abs(v))| <= 10
  {
    assert Ten(5) == 100000;
    assert Ten(10) == 10000000000;
    DigitsLength(Abs(v), 10, Ten(10));
  }

  // ---------- in-place reversal ----------

  function Reverse(s: seq<byte>): (r: seq<byte>)
    ensures |r| == |s| && forall i :: 0 <= i < |s| ==> r[i] == s[|s| - 1 - i]
  {
    seq(|s|, i requires 0 <= i < |s| => s[|s| - 1 - i])
  }

  function Xor(a: nat, b: nat): nat {
    if a == 0 then b else 2 * Xor(a / 2, b / 2) + (a + b) % 2
  }

  lemma {:induction false} XorZero(a: nat)
    ensures Xor(a, 0) == a
  {
    if a > 0 { XorZero(a / 2); }
  }

  lemma {:induction false} XorTurned(a: nat, b: nat)
    ensures Xor(a, b) == Xor(b, a)
  {
    if b == 0 {
      XorZero(a);
    } else if a > 0 {
      XorTurned(a / 2, b / 2);
    } else {
      XorZero(b);
    }
  }

  lemma XorParity(a: nat, b: nat, q: nat)
    ensures var x := 2 * q + (a + b) % 2; x / 2 == q && (a + x) % 2 == b % 2
  {
  }

  lemma {:induction false} XorUndone(a: nat, b: nat)
    ensures Xor(a, Xor(a, b)) == b
  {
    if a > 0 {
      XorUndone(a / 2, b / 2);
      var q := Xor(a / 2, b / 2);
      var x := 2 * q + (a + b) % 2;
      assert Xor(a, b) == x;
      assert Xor(a, x) == 2 * Xor(a / 2, x / 2) + (a + x) % 2;
      hide Xor;
      XorParity(a, b, q);
    }
  }

  lemma {:induction false} XorBelow(a: nat, b: nat, k: nat)
    requires a < Two(k) && b < Two(k)
    ensures Xor(a, b) < Two(k)
  {
    if k > 0 && a > 0 { XorBelow(a / 2, b / 2, k - 1); }
  }

  function Two(k: nat): nat { if k == 0 then 1 else 2 * Two(k - 1) }

  /** Three XOR assignments exchange two bytes. */
  lemma XorSwaps(a: byte, b: byte)
    ensures var x := Xor(a, b); var y := Xor(b, x); x < 256 && y == a && Xor(x, y) == b
  {
    assert Two(8) == 256;
    XorBelow(a, b, 8);
    XorTurned(a, b);
    XorUndone(b, a);
    XorTurned(Xor(a, b), a);
    XorUndone(a, b);
  }

  /** str_reverse */
  method StrReverse(b: array<byte>, ghost s: seq<byte>)
    requires Holds(b, s)
    modifies b
    ensures Holds(b, Reverse(s)) && b[|s|..] == old(b[|s|..])
  {
    var end := 0;
    while b[end] != 0
      invariant end <= |s|
      invariant end < |s| ==> b[end] == s[end]
      decreases |s| - end
    {
      end := end + 1;
      assert end < |s| ==> b[..|s|][end] == s[end];
    }
    var lo, hi := 0, end - 1;
    while lo < hi
      invariant 0 <= lo && hi == |s| - 1 - lo && lo <= hi + 2
      invariant forall i :: 0 <= i < lo || hi < i < |s| ==> b[i] == s[|s| - 1 - i]
      invariant forall i :: lo <= i <= hi ==> b[i] == s[i]
      invariant b[|s|..] == old(b[|s|..])
    {
      XorSwaps(b[lo], b[hi]);
      b[lo] := Xor(b[lo], b[hi]);
      b[hi] := Xor(b[hi], b[lo]);
      b[lo] := Xor(b[lo], b[hi]);
      lo, hi := lo + 1, hi - 1;
    }
  }

  // ---------- the printers ----------

  /** The last digit is the remainder, the ones before it are the quotient's. */
  lemma LastDigit(v: nat)
    ensures var d := Digits(v); d[|d| - 1] == DigitOf(v % 10)
    ensures var d := Digits(v); if v < 10 then |d| == 1 else |d| > 1 && d[..|d| - 1] == Digits(v / 10)
  {
  }

  /** What one turn of a digit loop leaves to do, k digits being written already. */
  lemma NextDigit(digits: seq<byte>, k: nat, v: nat)
    requires k < |digits| && digits[..|digits| - k] == Digits(v)
    ensures digits[|digits| - 1 - k] == DigitOf(v % 10)
    ensures if v / 10 == 0 then k + 1 == |digits| else k + 1 < |digits| && digits[..|digits| - (k + 1)] == Digits(v / 10)
  {
    LastDigit(v);
    var front := digits[..|digits| - k];
    assert front[..|front| - 1] == digits[..|digits| - (k + 1)];
  }

  /** Lines 137-140 of str_from_int: the digits, last first. */
  method WriteDigits(buffer: array<byte>, value: nat) returns (k: nat)
    requires |Digits(value)| <= buffer.Length
    modifies buffer
    ensures k == |Digits(value)| && buffer[..k] == Reverse(Digits(value)) && buffer[k..] == old(buffer[k..])
  {
    ghost var digits := Digits(value);
    hide Digits;
    var v := value;
    k := 0;
    while true
      invariant k < |digits| && digits[..|digits| - k] == Digits(v)
      invariant forall i :: 0 <= i < k ==> buffer[i] == digits[|digits| - 1 - i]
      invariant buffer[|digits|..] == old(buffer[|digits|..])
      decreases v
    {
      NextDigit(digits, k, v);
      buffer[k] := ZERO + v % 10;
      k := k + 1;
      v := v / 10;
      if v == 0 { break; }
    }
  }

  lemma ReverseConcat(a: seq<byte>, b: seq<byte>)
    ensures Reverse(a + b) == Reverse(b) + Reverse(a)
  {
    hide Reverse;
    var l, r := Reverse(a + b), Reverse(b) + Reverse(a);
    forall i | 0 <= i < |l| ensures l[i] == r[i] {
      assert l[i] == (a + b)[|a| + |b| - 1 - i];
    }
  }

  lemma ReverseTwice(s: seq<byte>)
    ensures Reverse(Reverse(s)) == s
  {
  }

  lemma ReversedNumeral(value: int)
    ensures Reverse(Numeral(value)) == Reverse(Digits(Abs(value))) + (if value < 0 then [MINUS] else [])
    ensures Reverse(Reverse(Numeral(value))) == Numeral(value)
    ensures forall i :: 0 <= i < |Numeral(value)| ==> Reverse(Numeral(value))[i] != 0
  {
    var sign: seq<byte> := if value < 0 then [MINUS] else [];
    assert Numeral(value) == sign + Digits(Abs(value));
    hide Digits, Numeral;
    assert Reverse(sign) == sign;
    ReverseConcat(sign, Digits(Abs(value)));
    ReverseTwice(Numeral(value));
  }

  lemma SameTail(a: seq<byte>, b: seq<byte>, i: nat, j: nat)
    requires |a| == |b| && i <= j <= |a| && a[i..] == b[i..]
    ensures a[j..] == b[j..]
  {
    assert a[j..] == a[i..][j - i..];
    assert b[j..] == b[i..][j - i..];
  }

  /** Lines 141-142 of str_from_int. */
  method EndText(buffer: array<byte>, at: nat, negative: bool) returns (k: nat)
    requires at + (if negative then 1 else 0) < buffer.Length
    modifies buffer
    ensures k == at + (if negative then 1 else 0)
    ensures buffer[..k] == old(buffer[..at]) + (if negative then [MINUS] else [])
    ensures buffer[k] == 0 && buffer[k + 1..] == old(buffer[k + 1..])
  {
    k := at;
    if negative {
      buffer[k] := MINUS;
      k := k + 1;
    }
    buffer[k] := 0;
  }

  /** str_from_int */
  method StrFromInt(buffer: array<byte>, value: int)
    requires -INT_LIMIT < value < INT_LIMIT && |Numeral(value)| < buffer.Length
    modifies buffer
    ensures Holds(buffer, Numeral(value)) && buffer[|Numeral(value)| + 1..] == old(buffer[|Numeral(value)| + 1..])
  {
    ghost var r, rest := Reverse(Numeral(value)), buffer[|Numeral(value)| + 1..];
    ghost var sign: seq<byte> := if value < 0 then [MINUS] else [];
    ReversedNumeral(value);
    assert r == Reverse(Digits(Abs(value))) + sign;
    hide Digits, Numeral, Reverse, Abs;
    ghost var was := buffer[..];
    var k := WriteDigits(buffer, Abs(value));
    assert |r| == k + |sign|;
    SameTail(buffer[..], was, k, |r| + 1);
    k := EndText(buffer, k, value < 0);
    assert buffer[..k] == r;
    assert buffer[k + 1..] == rest;
    ghost var mid := buffer[..];
    assert Holds(buffer, r);
    hide Holds;
    StrReverse(buffer, r);
    SameTail(buffer[..], mid, k, k + 1);
  }

  /** Lines 169-172 of IntToString: the digits, last first. */
  method TakeDigits(temp: array<byte>, value: nat) returns (k: nat)
    requires 0 < value && |Digits(value)| <= temp.Length
    modifies temp
    ensures k == |Digits(value)| && temp[..k] == Reverse(Digits(value))
  {
    ghost var digits := Digits(value);
    hide Digits;
    var v := value;
    k := 0;
    while v > 0
      invariant 0 <= v
      invariant if v == 0 then k == |digits| else k < |digits| && digits[..|digits| - k] == Digits(v)
      invariant forall i :: 0 <= i < k ==> temp[i] == digits[|digits| - 1 - i]
      decreases v
    {
      NextDigit(digits, k, v);
      temp[k] := v % 10 + ZERO;
      k := k + 1;
      v := v / 10;
    }
  }

  /** Lines 177-180 of IntToString: the digits again, first one first. */
  method CopyBack(temp: array<byte>, buffer: array<byte>, from: nat, count: nat, ghost t: seq<byte>)
    requires temp != buffer && count == |t| <= temp.Length && temp[..|t|] == t && from + |t| < buffer.Length
    modifies buffer
    ensures buffer[..] == old(buffer[..from]) + Reverse(t) + [0] + old(buffer[from + |t| + 1..])
  {
    var k, at := count, from;
    while k > 0
      invariant at == from + |t| - k && 0 <= k <= |t|
      invariant buffer[..at] == old(buffer[..from]) + Reverse(t)[..|t| - k]
      invariant buffer[at..] == old(buffer[at..])
    {
      k := k - 1;
      assert temp[k] == temp[..|t|][k];
      buffer[at] := temp[k];
      at := at + 1;
    }
    buffer[at] := 0;
  }

  lemma Ended(m: seq<byte>, n: seq<byte>, rest: seq<byte>)
    requires m == n + [0] + rest
    ensures m[..|n|] == n && m[|n|] == 0 && m[|n| + 1..] == rest
  {
  }

  /** IntToString */
  method IntToString(value: int, buffer: array<byte>)
    requires -INT_LIMIT < value < INT_LIMIT && |Numeral(value)| < buffer.Length
    modifies buffer
    ensures Holds(buffer, Numeral(value)) && buffer[|Numeral(value)| + 1..] == old(buffer[|Numeral(value)| + 1..])
  {
    var temp := new byte[12];
    ghost var n, rest := Numeral(value), buffer[|Numeral(value)| + 1..];
    assert value == 0 ==> n == [ZERO];
    if value == 0 {
      buffer[0], buffer[1] := ZERO, 0;
      assert buffer[..] == [ZERO] + [0] + rest;
    } else {
      NumeralFits(value);
      WritePositive(value, buffer, temp);
    }
    Ended(buffer[..], n, rest);
    hide Numeral, Digits;
    assert buffer[..][..|n|] == buffer[..|n|] && buffer[..][|n| + 1..] == buffer[|n| + 1..];
  }

  /** Lines 169-180 of IntToString. */
  method WritePositive(value: int, buffer: array<byte>, temp: array<byte>)
    requires value != 0 && |Numeral(value)| < buffer.Length && |Digits(Abs(value))| <= temp.Length && temp != buffer
    modifies buffer, temp
    ensures buffer[..] == Numeral(value) + [0] + old(buffer[|Numeral(value)| + 1..])
  {
    ghost var n, digits := Numeral(value), Digits(Abs(value));
    ghost var sign: seq<byte> := if value < 0 then [MINUS] else [];
    assert n == sign + digits;
    hide Digits, Numeral, Reverse, Abs;
    ReverseTwice(digits);
    var k := TakeDigits(temp, Abs(value));
    ghost var t := temp[..k];
    assert Reverse(t) == digits;
    var at := 0;
    if value < 0 {
      buffer[at] := MINUS;
      at := at + 1;
    }
    assert buffer[..at] == sign && |n| == at + |t|;
    assert buffer[at + |t| + 1..] == old(buffer[|n| + 1..]);
    CopyBack(temp, buffer, at, k, t);
  }

  // ---------- the parser ----------

  lemma NextValue(d: seq<byte>, k: nat)
    requires k < |d| && forall i :: 0 <= i < |d| ==> IsDigit(d[i])
    ensures Value(d[..k + 1]) == Value(d[..k]) * 10 + (d[k] - ZERO) && Value(d[..k + 1]) <= Value(d)
  {
    PrefixValue(d, k + 1);
    assert d[..k + 1][..k] == d[..k];
  }

  /** Where the digits start: after the blanks and the sign. */
  function DigitsFrom(s: seq<byte>): (q: nat)
    ensures q <= |s|
  {
    Blanks(s) + if Signed(Body(s)) then 1 else 0
  }

  lemma BlanksAt(s: seq<byte>)
    ensures forall i :: 0 <= i < Blanks(s) ==> CharAt(s, i) == SPACE || CharAt(s, i) == TAB
    ensures var c := CharAt(s, Blanks(s)); c != SPACE && c != TAB && (Signed(Body(s)) <==> c == MINUS || c == PLUS)
    ensures Signed(Body(s)) ==> Body(s)[0] == CharAt(s, Blanks(s))
  {
    hide Blanks;
  }

  lemma MantissaAt(s: seq<byte>)
    ensures var q, d := DigitsFrom(s), Mantissa(s); q + |d| <= |s| && s[q..q + |d|] == d && !IsDigit(CharAt(s, q + |d|))
  {
    var q, d := DigitsFrom(s), Mantissa(s);
    var u := s[q..];
    assert u == if Signed(Body(s)) then Body(s)[1..] else Body(s);
    hide Blanks, DigitRun;
    assert d == u[..DigitRun(u)];
  }

  /** The digit loop of str_to_int, from position q where the digits d stand. */
  method ReadDigits(b: array<byte>, q: nat, ghost d: seq<byte>) returns (r: int)
    requires q + |d| < b.Length && b[q..q + |d|] == d && !IsDigit(b[q + |d|])
    requires forall i :: 0 <= i < |d| ==> IsDigit(d[i])
    ensures r == Value(d)
  {
    var p := q;
    r := 0;
    assert d[..0] == [];
    assert forall i :: q <= i < q + |d| ==> b[i] == b[q..q + |d|][i - q];
    while ZERO <= b[p] <= ZERO + 9
      invariant q <= p <= q + |d|
      invariant r == Value(d[..p - q]) <= Value(d)
      decreases q + |d| - p
    {
      NextValue(d, p - q);
      r := r * 10 + (b[p] - ZERO);
      p := p + 1;
    }
    assert d[..|d|] == d;
  }

  /** Lines 117-123 of str_to_int: past the blanks and the sign. */
  method ReadSign(b: array<byte>, ghost s: seq<byte>) returns (p: nat, sign: int)
    requires Holds(b, s)
    ensures p == DigitsFrom(s) && sign == (if Signed(Body(s)) && Body(s)[0] == MINUS then -1 else 1)
  {
    BlanksAt(s);
    Scanned(b, s);
    ghost var n := Blanks(s);
    hide Blanks, Body, Signed, CharAt;
    p := 0;
    while b[p] == SPACE || b[p] == TAB
      invariant p <= n
      decreases n - p
    {
      p := p + 1;
    }
    sign := 1;
    if b[p] == MINUS {
      sign := -1;
      p := p + 1;
    } else if b[p] == PLUS {
      p := p + 1;
    }
  }

  /** str_to_int, for texts whose value an int can hold. */
  method StrToInt(b: array<byte>, ghost s: seq<byte>) returns (r: int)
    requires Holds(b, s) && Value(Mantissa(s)) < INT_LIMIT
    ensures r == Parse(s) && -INT_LIMIT < r < INT_LIMIT
  {
    hide Blanks, DigitRun, Value, Signed;
    ghost var d := Mantissa(s);
    MantissaAt(s);
    Scanned(b, s);
    var p, sign := ReadSign(b, s);
    assert b[p..p + |d|] == s[p..p + |d|];
    hide DigitsFrom, Body, Mantissa;
    r := ReadDigits(b, p, d);
    r := r * sign;
  }
}
