/** NUL-terminated texts in byte buffers: the routines of common/string/string.c that the printers and the editor use. */
module CString {
  import opened Memory

  /** A buffer holds the text s, NUL-terminated. */
  ghost predicate Holds(b: array<byte>, s: seq<byte>)
    reads b
  {
    |s| < b.Length && b[..|s|] == s && b[|s|] == 0 && forall i :: 0 <= i < |s| ==> s[i] != 0
  }

  /** What a scan of a NUL-terminated text meets at position i. */
  function CharAt(s: seq<byte>, i: nat): byte { if i < |s| then s[i] else 0 }

  lemma Scanned(b: array<byte>, s: seq<byte>)
    requires Holds(b, s)
    ensures |s| < b.Length && b[..|s|] == s && forall i :: 0 <= i <= |s| ==> b[i] == CharAt(s, i)
  {
    assert forall i :: 0 <= i < |s| ==> b[i] == b[..|s|][i];
  }

  /** str_len */
  method StrLen(b: array<byte>, ghost s: seq<byte>) returns (n: nat)
    requires Holds(b, s)
    ensures n == |s|
  {
    Scanned(b, s);
    n := 0;
    while b[n] != 0
      invariant n <= |s|
      decreases |s| - n
    {
      n := n + 1;
    }
  }

  /** str_copy from &src[at]. */
  method StrCopy(dst: array<byte>, src: array<byte>, at: nat, ghost s: seq<byte>)
    requires dst != src && Holds(src, s) && at <= |s| && |s| - at < dst.Length
    modifies dst
    ensures Holds(dst, s[at..])
  {
    Scanned(src, s);
    var i := 0;
    while true
      invariant i <= |s| - at
      invariant dst[..i] == s[at..at + i]
      decreases |s| - i
    {
      dst[i] := src[at + i];
      i := i + 1;
      if dst[i - 1] == 0 { break; }
    }
    assert i == |s| - at + 1;
  }

  /** str_append */
  method StrAppend(dst: array<byte>, src: array<byte>, ghost d: seq<byte>, ghost s: seq<byte>)
    requires dst != src && Holds(dst, d) && Holds(src, s) && |d| + |s| < dst.Length
    modifies dst
    ensures Holds(dst, d + s)
  {
    Scanned(src, s);
    var n := StrLen(dst, d);
    var i := 0;
    while true
      invariant i <= |s|
      invariant dst[..n + i] == d + s[..i]
      decreases |s| - i
    {
      dst[n + i] := src[i];
      i := i + 1;
      if dst[n + i - 1] == 0 { break; }
    }
  }
}
