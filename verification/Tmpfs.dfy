/** core/fs/vfs/tmpfs/tmpfs.c, with the descriptor table of core/fs/vfs/vfs.c and commands.c:
    a growing buffer read and written through any number of descriptors. Whether the kernel heap has
    room for a new buffer or descriptor is a parameter of the call. */
module Tmpfs {
  import opened Memory

  const MAX_FDS: nat := 64
  const FIRST_FD: nat := 3
  const SIGN64: nat := 0x8000_0000_0000_0000

  // ---------- files as byte sequences ----------

  /** Writing b at position p <= |c|: overwrite, and extend when it reaches past the end. */
  function Overwrite(c: seq<byte>, p: nat, b: seq<byte>): (r: seq<byte>)
    requires p <= |c|
    ensures |r| == if p + |b| > |c| then p + |b| else |c|
  {
    c[..p] + b + if p + |b| < |c| then c[p + |b|..] else []
  }

  /** What a read of n bytes at position p returns. */
  function ReadAt(c: seq<byte>, p: nat, n: nat): seq<byte> {
    if p >= |c| then [] else if p + n > |c| then c[p..] else c[p..p + n]
  }

  /** A read returns what was last written there. */
  lemma WriteThenRead(c: seq<byte>, p: nat, b: seq<byte>)
    requires p <= |c|
    ensures b != [] ==> ReadAt(Overwrite(c, p, b), p, |b|) == b
  {
    if b != [] { assert Overwrite(c, p, b)[p..p + |b|] == b; }
  }

  /** Consecutive writes through an advancing position are one write of the whole text, whatever the pieces. */
  lemma WritesJoin(c: seq<byte>, p: nat, a: seq<byte>, b: seq<byte>)
    requires p <= |c|
    ensures Overwrite(Overwrite(c, p, a), p + |a|, b) == Overwrite(c, p, a + b)
  {
    var l, r := Overwrite(Overwrite(c, p, a), p + |a|, b), Overwrite(c, p, a + b);
    assert |l| == |r|;
    assert l[..p + |a|] == c[..p] + a;
    assert r[..p + |a|] == c[..p] + a;
    assert l[p + |a|..] == r[p + |a|..];
    assert l == l[..p + |a|] + l[p + |a|..];
    assert r == r[..p + |a|] + r[p + |a|..];
  }

  /** Consecutive reads through an advancing position join to one read, whatever the pieces. */
  lemma ReadsJoin(c: seq<byte>, p: nat, m: nat, n: nat)
    requires p <= |c|
    ensures ReadAt(c, p, m) + ReadAt(c, p + |ReadAt(c, p, m)|, n) == ReadAt(c, p, if p + m > |c| then m else m + n)
  {
  }

  /** A write at the start of a file that is not longer than the text leaves exactly the text. */
  lemma WriteReplaces(c: seq<byte>, b: seq<byte>)
    ensures Overwrite(c, 0, b) == b <==> |c| <= |b|
  {
  }

  // ---------- nodes and descriptors ----------

  class Node {
    var isFile: bool
    var priv: bool            // has its tmpfs_data record
    var size: nat
    var data: array?<byte>
    var cap: nat

    ghost predicate Valid()
      reads this
    {
      && size <= cap
      && (data == null ==> cap == 0)
      && (data != null ==> priv)
      && (data != null ==> data.Length == cap)
    }

    /** The file as a byte sequence. */
    ghost function Contents(): (c: seq<byte>)
      requires Valid()
      reads this, data
      ensures |c| == size
    {
      if data == null then [] else data[..size]
    }

    constructor (isFile: bool)
      ensures Valid() && Contents() == [] && data == null && this.isFile == isFile
    {
      this.isFile := isFile;
      priv, size, data, cap := false, 0, null, 0;
    }
  }

  class File {
    const node: Node
    var pos: nat

    constructor (node: Node)
      ensures this.node == node && pos == 0
    {
      this.node := node;
      pos := 0;
    }
  }

  /** (needed + 4095) & ~4095 */
  function PageUp(n: nat): (r: nat)
    ensures n <= r < n + 4096 && r % 4096 == 0
  {
    (n + 4095) / 4096 * 4096
  }

  /** The capacity once a write that ends at needed has found room. */
  function CapAfter(cap: nat, needed: nat): nat { if needed > cap then PageUp(needed) else cap }

  lemma SliceOf(d: seq<byte>, size: nat, p: nat, n: nat)
    requires p + n <= size <= |d|
    ensures d[p..p + n] == d[..size][p..p + n]
  {
  }

  /** tmpfs_read */
  method TmpfsRead(file: File, cnt: nat) returns (n: int, buf: seq<byte>)
    requires file.node.Valid() && file.pos + cnt < U64
    modifies file`pos
    ensures !file.node.isFile ==> n == -1 && buf == [] && file.pos == old(file.pos)
    ensures file.node.isFile ==> buf == ReadAt(file.node.Contents(), old(file.pos), cnt) && n == |buf| && file.pos == old(file.pos) + |buf|
    ensures var c, p := file.node.Contents(), old(file.pos);
            file.node.isFile ==> n == (if p >= |c| then 0 else if cnt < |c| - p then cnt else |c| - p)
                                 && forall i :: 0 <= i < n ==> buf[i] == c[p + i]
  {
    var node := file.node;
    buf := [];
    if !node.isFile { return -1, []; }
    if node.data == null { return 0, []; }
    if file.pos >= node.size { return 0, []; }
    var toRead := cnt;
    if file.pos + toRead > node.size { toRead := node.size - file.pos; }
    buf := node.data[file.pos..file.pos + toRead];
    SliceOf(node.data[..], node.size, file.pos, toRead);
    assert buf == node.Contents()[file.pos..file.pos + toRead];
    file.pos := file.pos + toRead;
    n := toRead;
  }

  /** Lines 37-48 of tmpfs_write: make room for needed bytes. A failed allocation changes nothing. */
  method Grow(node: Node, needed: nat, allocOk: bool) returns (ok: bool)
    requires node.Valid() && node.priv
    modifies node`data, node`cap
    ensures ok <==> needed <= old(node.cap) || allocOk
    ensures !ok ==> node.data == old(node.data) && node.cap == old(node.cap)
    ensures node.Valid() && node.Contents() == old(node.Contents())
    ensures ok ==> needed <= node.cap && (needed > 0 ==> node.data != null)
    ensures ok ==> node.cap == CapAfter(old(node.cap), needed)
    ensures ok ==> if needed <= old(node.cap) then node.cap == old(node.cap) else node.cap < needed + 4096 && node.cap % 4096 == 0
    ensures node.data == old(node.data) || fresh(node.data)
  {
    if needed > node.cap {
      var newCap := PageUp(needed);
      if !allocOk { return false; }
      var newData := new byte[newCap];
      if node.data != null && node.size > 0 {
        forall i | 0 <= i < node.size {
          newData[i] := node.data[i];
        }
      }
      assert newData[..node.size] == node.Contents();
      node.data := newData;
      node.cap := newCap;
    }
    ok := true;
  }

  /** Line 49 of tmpfs_write: copy buf to position p of the node's buffer. */
  method CopyIn(node: Node, p: nat, buf: seq<byte>)
    requires node.Valid() && p + |buf| <= node.cap && (buf != [] ==> node.data != null)
    modifies node.data
    ensures node.data != null ==> node.data[..] == old(node.data[..])[..p] + buf + old(node.data[..])[p + |buf|..]
  {
    if buf != [] {
      forall i | 0 <= i < |buf| {
        node.data[p + i] := buf[i];
      }
      ghost var now, was := node.data[..], old(node.data[..]);
      assert now[..p] == was[..p];
      assert now[p + |buf|..] == was[p + |buf|..];
      assert forall x :: p <= x < p + |buf| ==> now[x] == buf[x - p] by {
        forall x | p <= x < p + |buf| ensures now[x] == buf[x - p] {
          assert node.data[p + (x - p)] == buf[x - p];
        }
      }
      assert now[p..p + |buf|] == buf;
      assert now == now[..p] + now[p..p + |buf|] + now[p + |buf|..];
    }
  }

  /** What putting b at position p of a buffer holding c in its first |c| bytes makes of the file. */
  lemma Placed(raw: seq<byte>, c: seq<byte>, p: nat, b: seq<byte>, now: seq<byte>)
    requires |c| <= |raw| && p + |b| <= |raw| && c == raw[..|c|]
    requires now == (raw[..p] + b + raw[p + |b|..])[..if p + |b| > |c| then p + |b| else |c|]
    ensures p <= |c| ==> now == Overwrite(c, p, b)
    ensures now[p..p + |b|] == b
    ensures forall i :: 0 <= i < |c| && !(p <= i < p + |b|) ==> now[i] == c[i]
  {
    var full := raw[..p] + b + raw[p + |b|..];
    assert |full| == |raw|;
    assert forall i :: 0 <= i < |now| ==> now[i] == full[i];
    assert forall i :: p <= i < p + |b| ==> full[i] == b[i - p];
    assert forall i :: p + |b| <= i < |raw| ==> full[i] == raw[i];
  }

  /** tmpfs_write. At or below the end of the file it is exactly Overwrite; past the end the bytes between the old end
      and the position are whatever the buffer held. recordOk and allocOk say whether the heap has room for the record
      that the first write makes and for a larger buffer. */
  method TmpfsWrite(file: File, buf: seq<byte>, recordOk: bool, allocOk: bool) returns (n: int)
    requires file.node.Valid() && file.pos + |buf| + 4095 < U64
    modifies file`pos, file.node, file.node.data
    ensures file.node.Valid() && file.node.isFile == old(file.node.isFile)
    ensures n == -1 || n == |buf|
    ensures n == -1 <==> !file.node.isFile || (!old(file.node.priv) && !recordOk)
                         || (old(file.pos) + |buf| > old(file.node.cap) && !allocOk)
    ensures file.node.priv <==> old(file.node.priv) || (file.node.isFile && recordOk)
    ensures n == -1 ==> file.node.Contents() == old(file.node.Contents()) && file.pos == old(file.pos)
    ensures n == -1 ==> file.node.data == old(file.node.data)
    ensures file.node.cap == if n == -1 then old(file.node.cap) else CapAfter(old(file.node.cap), old(file.pos) + |buf|)
    ensures n != -1 ==>
              var was, now := old(file.node.Contents()), file.node.Contents();
              && file.pos == old(file.pos) + |buf|
              && (old(file.pos) <= |was| ==> now == Overwrite(was, old(file.pos), buf))
              && |now| == (if file.pos > |was| then file.pos else |was|)
              && now[old(file.pos)..file.pos] == buf
              && (forall i :: 0 <= i < |was| && !(old(file.pos) <= i < file.pos) ==> now[i] == was[i])
    ensures file.node.data == old(file.node.data) || fresh(file.node.data)
  {
    hide CapAfter;
    var node := file.node;
    if !node.isFile { return -1; }
    if !node.priv {
      if !recordOk { return -1; }
      node.priv := true;
    }
    var ok := Grow(node, file.pos + |buf|, allocOk);
    if !ok { return -1; }
    ghost var was := node.Contents();
    var p := file.pos;
    ghost var raw := if node.data == null then [] else node.data[..];
    CopyIn(node, p, buf);
    file.pos := file.pos + |buf|;
    if file.pos > node.size { node.size := file.pos; }
    n := |buf|;
    Placed(raw, was, p, buf, node.Contents());
    hide Overwrite;
  }

  // ---------- the descriptor table ----------

  datatype Desc = Closed | Desc(node: Node, pos: nat)

  /** Files as byte sequences, and what each descriptor stands for. */
  datatype Fs = Fs(files: map<Node, seq<byte>>, fds: seq<Desc>) {
    ghost predicate Ok() {
      |fds| == MAX_FDS && forall i :: 0 <= i < MAX_FDS && fds[i].Desc? ==> fds[i].node in files
    }

    ghost predicate IsOpen(fd: int) { Ok() && 0 <= fd < MAX_FDS && fds[fd].Desc? }

    ghost function At(fd: int): seq<byte>
      requires IsOpen(fd)
    {
      files[fds[fd].node]
    }

    ghost function Moved(fd: int, pos: nat): Fs
      requires IsOpen(fd)
    {
      this.(fds := fds[fd := Desc(fds[fd].node, pos)])
    }

    /** No descriptor stands past the end of its file. */
    ghost predicate InBounds() {
      Ok() && forall i :: 0 <= i < MAX_FDS && fds[i].Desc? ==> fds[i].pos <= |files[fds[i].node]|
    }
  }

  /** The calls that change something. */
  datatype Call =
    | FOpen(fd: nat, node: Node)
    | FClose(fd: nat)
    | FRead(fd: nat, cnt: nat)
    | FWrite(fd: nat, buf: seq<byte>)
    | FSeek(fd: nat, pos: nat)

  ghost predicate Can(v: Fs, c: Call) {
    v.Ok() && match c
      case FOpen(fd, node) => fd < MAX_FDS && v.fds[fd] == Closed && node in v.files
      case FClose(fd) => v.IsOpen(fd)
      case FRead(fd, _) => v.IsOpen(fd)
      case FWrite(fd, _) => v.IsOpen(fd) && v.fds[fd].pos <= |v.At(fd)|
      case FSeek(fd, pos) => v.IsOpen(fd)
  }

  ghost function After(v: Fs, c: Call): (r: Fs)
    requires Can(v, c)
    ensures r.Ok() && r.files.Keys == v.files.Keys
  {
    match c
    case FOpen(fd, node) => v.(fds := v.fds[fd := Desc(node, 0)])
    case FClose(fd) => v.(fds := v.fds[fd := Closed])
    case FRead(fd, cnt) => v.Moved(fd, v.fds[fd].pos + |ReadAt(v.At(fd), v.fds[fd].pos, cnt)|)
    case FWrite(fd, buf) =>
      v.Moved(fd, v.fds[fd].pos + |buf|).(files := v.files[v.fds[fd].node := Overwrite(v.At(fd), v.fds[fd].pos, buf)])
    case FSeek(fd, pos) => v.Moved(fd, pos)
  }

  /** A run whose seeks stay inside the files, whatever descriptors share them. */
  ghost predicate Run(v: Fs, cs: seq<Call>, r: Fs)
    decreases |cs|
  {
    if cs == [] then r == v
    else Can(v, cs[0]) && (cs[0].FSeek? ==> cs[0].pos <= |v.At(cs[0].fd)|) && Run(After(v, cs[0]), cs[1..], r)
  }

  lemma AfterInBounds(v: Fs, c: Call)
    requires v.InBounds() && Can(v, c) && (c.FSeek? ==> c.pos <= |v.At(c.fd)|)
    ensures After(v, c).InBounds()
    ensures forall n :: n in v.files ==> |v.files[n]| <= |After(v, c).files[n]|
  {
    hide Overwrite, ReadAt;
    if c.FRead? { ReadFits(v.At(c.fd), v.fds[c.fd].pos, c.cnt); }
  }

  lemma ReadFits(c: seq<byte>, p: nat, n: nat)
    requires p <= |c|
    ensures p + |ReadAt(c, p, n)| <= |c|
  {
  }

  /** Files never shrink, so in such a run every position stays inside its file and every write can go on. */
  lemma {:induction false} RunInBounds(v: Fs, cs: seq<Call>, r: Fs)
    requires v.InBounds() && Run(v, cs, r)
    ensures r.InBounds() && r.files.Keys == v.files.Keys
    ensures forall n :: n in v.files ==> |v.files[n]| <= |r.files[n]|
    decreases |cs|
  {
    if cs != [] {
      AfterInBounds(v, cs[0]);
      RunInBounds(After(v, cs[0]), cs[1..], r);
    }
  }

  /** No write of the run reaches bytes lo to hi - 1 of file n. */
  ghost predicate Spares(v: Fs, cs: seq<Call>, n: Node, lo: nat, hi: nat)
    decreases |cs|
  {
    cs == [] ||
    (Can(v, cs[0]) && Spares(After(v, cs[0]), cs[1..], n, lo, hi) &&
     (cs[0].FWrite? && v.fds[cs[0].fd].node == n ==> v.fds[cs[0].fd].pos + |cs[0].buf| <= lo || hi <= v.fds[cs[0].fd].pos))
  }

  lemma OverwriteSpares(c: seq<byte>, p: nat, b: seq<byte>, lo: nat, hi: nat)
    requires p <= |c| && lo <= hi <= |c| && (p + |b| <= lo || hi <= p)
    ensures Overwrite(c, p, b)[lo..hi] == c[lo..hi]
  {
  }

  /** Written bytes stay until a write reaches them, whichever descriptors the calls go through. */
  lemma {:induction false} BytesStay(v: Fs, cs: seq<Call>, r: Fs, n: Node, lo: nat, hi: nat)
    requires v.InBounds() && Run(v, cs, r) && n in v.files && lo <= hi <= |v.files[n]| && Spares(v, cs, n, lo, hi)
    ensures n in r.files && hi <= |r.files[n]| && r.files[n][lo..hi] == v.files[n][lo..hi]
    decreases |cs|
  {
    if cs != [] {
      AfterInBounds(v, cs[0]);
      if cs[0].FWrite? && v.fds[cs[0].fd].node == n {
        OverwriteSpares(v.files[n], v.fds[cs[0].fd].pos, cs[0].buf, lo, hi);
      }
      BytesStay(After(v, cs[0]), cs[1..], r, n, lo, hi);
    }
  }

  class Vfs {
    const fds: array<File?>
    ghost var nodes: set<Node>

    /** Distinct descriptors are distinct objects, and distinct nodes have distinct buffers. */
    ghost predicate Valid()
      reads this, fds, nodes, set i | 0 <= i < fds.Length :: fds[i]
    {
      && fds.Length == MAX_FDS
      && (forall i :: 0 <= i < MAX_FDS && fds[i] != null ==> fds[i].node in nodes)
      && (forall i, j :: 0 <= i < j < MAX_FDS && fds[i] != null ==> fds[i] != fds[j])
      && (forall n :: n in nodes ==> n.Valid())
      && (forall m, n :: m in nodes && n in nodes && m != n && m.data != null ==> m.data != n.data)
    }

    /** fs_init */
    constructor (nodes: set<Node>)
      requires forall n :: n in nodes ==> n.Valid()
      requires forall m, n :: m in nodes && n in nodes && m != n && m.data != null ==> m.data != n.data
      ensures Valid() && this.nodes == nodes && forall i :: 0 <= i < MAX_FDS ==> fds[i] == null
    {
      fds := new File?[MAX_FDS](_ => null);
      this.nodes := nodes;
    }

    /** The table and the files are v. */
    ghost predicate Shows(v: Fs)
      requires Valid()
      reads this, fds, nodes, set i | 0 <= i < fds.Length :: fds[i], set n | n in nodes && n.data != null :: n.data
    {
      && v.files.Keys == nodes && |v.fds| == MAX_FDS
      && (forall n :: n in nodes ==> v.files[n] == n.Contents())
      && (forall i :: 0 <= i < MAX_FDS ==> v.fds[i] == if fds[i] == null then Closed else Desc(fds[i].node, fds[i].pos))
    }

    predicate Open(fd: int)
      requires fds.Length == MAX_FDS
      reads this, fds
    {
      0 <= fd < MAX_FDS && fds[fd] != null
    }

    /** What no call on another descriptor or node may change. */
    twostate predicate OthersKept(fd: int, node: Node?)
      requires old(Valid()) && Valid()
      reads this, fds, nodes, set i | 0 <= i < fds.Length :: fds[i], set n | n in nodes && n.data != null :: n.data
    {
      && (forall g :: 0 <= g < MAX_FDS && g != fd ==> fds[g] == old(fds[g]) && (fds[g] != null ==> fds[g].pos == old(fds[g].pos)))
      && nodes == old(nodes)
      && (forall n :: n in nodes && n != node ==> n.Contents() == old(n.Contents()))
    }

    /** fs_open once the path is resolved (null when it is not); fileOk says whether the heap has room for the descriptor. */
    method FsOpen(node: Node?, fileOk: bool, ghost v: Fs) returns (fd: int)
      requires Valid() && Shows(v) && (node != null ==> node in nodes)
      modifies fds
      ensures Valid() && OthersKept(fd, null)
      ensures fd == -1 <==> node == null || !fileOk || forall i :: FIRST_FD <= i < MAX_FDS ==> old(fds[i]) != null
      ensures fd != -1 ==> FIRST_FD <= fd < MAX_FDS && old(fds[fd]) == null && forall i :: FIRST_FD <= i < fd ==> old(fds[i]) != null
      ensures fd == -1 ==> Shows(v)
      ensures fd != -1 ==> Can(v, FOpen(fd, node)) && Shows(After(v, FOpen(fd, node))) && fresh(fds[fd])
      ensures fd != -1 ==> fds[fd].node == node && fds[fd].pos == 0
    {
      if node == null || !fileOk { return -1; }
      var file := new File(node);
      for i := FIRST_FD to MAX_FDS
        invariant forall j :: FIRST_FD <= j < i ==> fds[j] != null
        invariant fds[..] == old(fds[..])
      {
        if fds[i] == null {
          fds[i] := file;
          return i;
        }
      }
      return -1;
    }

    /** fs_close */
    method FsClose(fd: int, ghost v: Fs) returns (r: int)
      requires Valid() && Shows(v)
      modifies fds
      ensures Valid() && OthersKept(fd, null)
      ensures r == if old(Open(fd)) then 0 else -1
      ensures if r == -1 then Shows(v) else Can(v, FClose(fd)) && Shows(After(v, FClose(fd)))
      ensures r != -1 ==> fds[fd] == null
    {
      if !Open(fd) { return -1; }
      fds[fd] := null;
      r := 0;
    }

    /** fs_read */
    method FsRead(fd: int, cnt: nat, ghost v: Fs) returns (n: int, buf: seq<byte>)
      requires Valid() && Shows(v) && (Open(fd) ==> fds[fd].pos + cnt < U64)
      modifies if Open(fd) then {fds[fd]} else {}
      ensures Valid() && OthersKept(fd, null) && Open(fd) == old(Open(fd))
      ensures n == -1 <==> !Open(fd) || !fds[fd].node.isFile
      ensures Open(fd) ==> fds[fd] == old(fds[fd])
      ensures n == -1 ==> Shows(v) && buf == []
      ensures n != -1 ==> Can(v, FRead(fd, cnt)) && Shows(After(v, FRead(fd, cnt)))
      ensures n != -1 ==> buf == ReadAt(v.At(fd), v.fds[fd].pos, cnt) && n == |buf|
      ensures n != -1 ==> fds[fd].pos == old(fds[fd].pos) + n
    {
      if !Open(fd) { return -1, []; }
      n, buf := TmpfsRead(fds[fd], cnt);
    }

    /** fs_lseek: SEEK_SET is 0, SEEK_CUR 1, SEEK_END 2; positions are unsigned and wrap, the result
        is the position read as a signed number, so -1 may also be the answer to a seek to 2^64 - 1. */
    method FsLseek(fd: int, offset: int, whence: nat, ghost v: Fs) returns (r: int)
      requires Valid() && Shows(v)
      modifies if Open(fd) then {fds[fd]} else {}
      ensures Valid() && OthersKept(fd, null) && Open(fd) == old(Open(fd))
      ensures !Open(fd) || whence > 2 ==> r == -1 && Shows(v)
      ensures Open(fd) && whence <= 2 ==>
                && v.IsOpen(fd)
                && var pos := (offset + if whence == 0 then 0 else if whence == 1 then v.fds[fd].pos else |v.At(fd)|) % U64;
                   Shows(After(v, FSeek(fd, pos))) && fds[fd].pos == pos && r == if pos < SIGN64 then pos else pos - U64
    {
      if !Open(fd) || whence > 2 { return -1; }
      var file := fds[fd];
      var pos := (offset + if whence == 0 then 0 else if whence == 1 then file.pos else file.node.size) % U64;
      SetPosition(fd, pos, v);
      r := if pos < SIGN64 then pos else pos - U64;
    }

    /** Lines 144-157 of fs_lseek, once the position is known. */
    method SetPosition(fd: int, pos: nat, ghost v: Fs)
      requires Valid() && Shows(v) && Open(fd)
      modifies fds[fd]
      ensures Valid() && OthersKept(fd, null) && Open(fd)
      ensures v.IsOpen(fd) && Shows(After(v, FSeek(fd, pos))) && fds[fd] == old(fds[fd]) && fds[fd].pos == pos
    {
      hide Overwrite, ReadAt;
      fds[fd].pos := pos;
    }

    /** fs_write: through a position at or below the end, the node's bytes become Overwrite of its bytes;
        every other descriptor and node stays as it is, and a failed growth changes nothing at all. */
    method FsWrite(fd: int, buf: seq<byte>, recordOk: bool, allocOk: bool, ghost v: Fs) returns (n: int)
      requires Valid() && Shows(v) && (Open(fd) ==> fds[fd].pos + |buf| + 4095 < U64)
      modifies if Open(fd) then {fds[fd], fds[fd].node} else {}
      modifies if Open(fd) && fds[fd].node.data != null then {fds[fd].node.data} else {}
      ensures Valid() && Open(fd) == old(Open(fd)) && OthersKept(fd, if Open(fd) then fds[fd].node else null)
      ensures n == -1 || n == |buf|
      ensures n == -1 <==> !Open(fd) || !fds[fd].node.isFile || (!old(fds[fd].node.priv) && !recordOk)
                           || (old(fds[fd].pos) + |buf| > old(fds[fd].node.cap) && !allocOk)
      ensures n == -1 ==> Shows(v)
      ensures n != -1 && Can(v, FWrite(fd, buf)) ==> Shows(After(v, FWrite(fd, buf)))
      ensures n != -1 ==> fds[fd].pos == old(fds[fd].pos) + |buf|
    {
      if !Open(fd) { return -1; }
      hide ReadAt, Overwrite, CapAfter, Node.Contents, Node.Valid;
      n := WriteThrough(fd, buf, recordOk, allocOk);
      assert v.IsOpen(fd) && v.fds[fd].node == fds[fd].node && ShowsBut(fd, fds[fd].node, v);
      hide ShowsBut, Shows;
      if n == -1 {
        NothingShows(fd, v);
      } else if Can(v, FWrite(fd, buf)) {
        WriteShows(fd, buf, v);
      }
    }

    /** Line 67 of fs_write. */
    method WriteThrough(fd: int, buf: seq<byte>, recordOk: bool, allocOk: bool) returns (n: int)
      requires Valid() && Open(fd) && fds[fd].pos + |buf| + 4095 < U64
      modifies fds[fd], fds[fd].node, fds[fd].node.data
      ensures Valid() && Open(fd) && fds[fd] == old(fds[fd]) && OthersKept(fd, fds[fd].node)
      ensures n == -1 || n == |buf|
      ensures n == -1 <==> !fds[fd].node.isFile || (!old(fds[fd].node.priv) && !recordOk)
                           || (old(fds[fd].pos) + |buf| > old(fds[fd].node.cap) && !allocOk)
      ensures n == -1 ==> fds[fd].pos == old(fds[fd].pos) && fds[fd].node.Contents() == old(fds[fd].node.Contents())
      ensures n != -1 ==> fds[fd].pos == old(fds[fd].pos) + |buf|
      ensures n != -1 && old(fds[fd].pos) <= |old(fds[fd].node.Contents())| ==>
                fds[fd].node.Contents() == Overwrite(old(fds[fd].node.Contents()), old(fds[fd].pos), buf)
    {
      hide ReadAt, Overwrite, CapAfter;
      n := TmpfsWrite(fds[fd], buf, recordOk, allocOk);
    }

    lemma NothingShows(fd: nat, v: Fs)
      requires Valid() && Open(fd) && ShowsBut(fd, fds[fd].node, v) && v.IsOpen(fd)
      requires v.fds[fd] == Desc(fds[fd].node, fds[fd].pos) && v.At(fd) == fds[fd].node.Contents()
      ensures Shows(v)
    {
    }

    /** All but descriptor fd and file node is as in v. */
    ghost predicate ShowsBut(fd: nat, node: Node, v: Fs)
      requires Valid()
      reads this, fds, nodes, set i | 0 <= i < fds.Length :: fds[i], set n | n in nodes && n.data != null :: n.data
    {
      && v.files.Keys == nodes && |v.fds| == MAX_FDS
      && (forall n :: n in nodes && n != node ==> v.files[n] == n.Contents())
      && (forall i :: 0 <= i < MAX_FDS && i != fd ==> v.fds[i] == if fds[i] == null then Closed else Desc(fds[i].node, fds[i].pos))
    }

    lemma WriteShows(fd: nat, buf: seq<byte>, v: Fs)
      requires Valid() && Open(fd) && ShowsBut(fd, fds[fd].node, v) && Can(v, FWrite(fd, buf))
      requires v.fds[fd].node == fds[fd].node && fds[fd].pos == v.fds[fd].pos + |buf|
      requires fds[fd].node.Contents() == Overwrite(v.At(fd), v.fds[fd].pos, buf)
      ensures Shows(After(v, FWrite(fd, buf)))
    {
      hide Overwrite, ReadAt;
    }
  }
}
