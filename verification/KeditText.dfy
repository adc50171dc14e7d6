/** What the editor of core/kernel/shell/commands/kedit.c does to a text: lines on the screen, one flat file on disk. */
module KeditText {
  import opened Memory
  import opened Tmpfs

  const MAX_LINES: nat := 100
  const MAX_LINE_LEN: nat := 256
  const NEWLINE: byte := 10

  type Line = seq<byte>

  /** A char that a line may hold. */
  predicate Clean(l: Line) { |l| < MAX_LINE_LEN && forall i :: 0 <= i < |l| ==> l[i] != 0 && l[i] != NEWLINE }

  predicate CleanAll(t: seq<Line>) { forall i :: 0 <= i < |t| ==> Clean(t[i]) }

  predicate GoodText(t: seq<Line>) { 1 <= |t| <= MAX_LINES && CleanAll(t) }

  datatype Doc = Doc(text: seq<Line>, y: nat, x: nat) {
    predicate Good() { GoodText(text) && y < |text| && x <= |text[y]| }

    function Here(): Line
      requires Good()
    {
      text[y]
    }
  }

  // ---------- edits on lines ----------

  function Insert(d: Doc, c: byte): (r: Doc)
    requires d.Good() && c != 0 && c != NEWLINE
    ensures r.Good()
  {
    if |d.Here()| >= MAX_LINE_LEN - 1 then d
    else Doc(d.text[d.y := d.Here()[..d.x] + [c] + d.Here()[d.x..]], d.y, d.x + 1)
  }

  function Delete(d: Doc): (r: Doc)
    requires d.Good()
    ensures r.Good()
  {
    if d.x > 0 then
      Doc(d.text[d.y := d.Here()[..d.x - 1] + d.Here()[d.x..]], d.y, d.x - 1)
    else if d.y > 0 && |d.text[d.y - 1]| + |d.Here()| < MAX_LINE_LEN - 1 then
      Doc(d.text[..d.y - 1] + [d.text[d.y - 1] + d.Here()] + d.text[d.y + 1..], d.y - 1, |d.text[d.y - 1]|)
    else
      d
  }

  function Break(d: Doc): (r: Doc)
    requires d.Good()
    ensures r.Good()
  {
    if |d.text| >= MAX_LINES then d
    else Doc(d.text[..d.y] + [d.Here()[..d.x], d.Here()[d.x..]] + d.text[d.y + 1..], d.y + 1, 0)
  }

  function Clamp(v: int, hi: nat): nat { if v < 0 then 0 else if v > hi then hi else v }

  function Move(d: Doc, dx: int, dy: int): (r: Doc)
    requires d.Good()
    ensures r.Good()
  {
    var y := Clamp(d.y + dy, |d.text| - 1);
    Doc(d.text, y, Clamp(d.x + dx, |d.text[y]|))
  }

  /** What a key other than Ctrl+Q and Ctrl+S does to the text. */
  function Keyed(d: Doc, key: int): (r: Doc)
    requires d.Good()
    ensures r.Good()
  {
    if key == 10 || key == 13 then Break(d)
    else if key == 8 || key == 127 then Delete(d)
    else if 32 <= key <= 126 then Insert(d, key)
    else if key == 0x80 then Move(d, 0, -1)
    else if key == 0x81 then Move(d, 0, 1)
    else if key == 0x82 then Move(d, -1, 0)
    else if key == 0x83 then Move(d, 1, 0)
    else d
  }

  lemma OtherKeys(d: Doc, key: int)
    requires d.Good()
    ensures key == 17 || key == 19 ==> Keyed(d, key) == d
  {
  }

  // ---------- the flat text ----------

  /** The lines with a newline after each. */
  function Ended(t: seq<Line>): seq<byte> {
    if t == [] then [] else Ended(t[..|t| - 1]) + t[|t| - 1] + [NEWLINE]
  }

  /** The lines with a newline before each. */
  function Begun(t: seq<Line>): seq<byte> {
    if t == [] then [] else [NEWLINE] + t[0] + Begun(t[1..])
  }

  /** The lines joined by newlines: what is saved. */
  function Flat(t: seq<Line>): seq<byte>
    requires t != []
  {
    Ended(t[..|t| - 1]) + t[|t| - 1]
  }

  /** Where the cursor stands in the flat text. */
  function Offset(d: Doc): nat
    requires d.Good()
  {
    |Ended(d.text[..d.y])| + d.x
  }

  lemma EndedMore(a: seq<Line>, l: Line)
    ensures Ended(a + [l]) == Ended(a) + l + [NEWLINE]
  {
    assert (a + [l])[..|a|] == a;
  }

  lemma {:induction false} FlatAround(a: seq<Line>, l: Line, b: seq<Line>)
    ensures Flat(a + [l] + b) == Ended(a) + l + Begun(b)
    decreases |b|
  {
    var t := a + [l] + b;
    if b == [] {
      assert t[..|t| - 1] == a && Begun(b) == [];
    } else {
      FlatAround(a + [l], b[0], b[1..]);
      assert a + [l] + [b[0]] + b[1..] == t;
      EndedMore(a, l);
      assert Begun(b) == [NEWLINE] + b[0] + Begun(b[1..]);
      hide Ended, Begun, Flat;
    }
  }

  /** The text on both sides of the cursor's line. */
  lemma Parts(d: Doc)
    requires d.Good()
    ensures Flat(d.text) == Ended(d.text[..d.y]) + d.Here() + Begun(d.text[d.y + 1..])
    ensures Offset(d) <= |Flat(d.text)|
  {
    FlatAround(d.text[..d.y], d.Here(), d.text[d.y + 1..]);
    assert d.text[..d.y] + [d.Here()] + d.text[d.y + 1..] == d.text;
  }

  ghost predicate Inserted(before: seq<byte>, o: nat, c: byte, after: seq<byte>) {
    o <= |before| && after == before[..o] + [c] + before[o..]
  }

  lemma SplitAt(p: seq<byte>, l: seq<byte>, x: nat, q: seq<byte>)
    requires x <= |l|
    ensures (p + l + q)[..|p| + x] == p + l[..x] && (p + l + q)[|p| + x..] == l[x..] + q
  {
  }

  lemma Spliced(p: seq<byte>, l: seq<byte>, x: nat, c: byte, q: seq<byte>)
    requires x <= |l|
    ensures p + (l[..x] + [c] + l[x..]) + q == (p + l[..x]) + [c] + (l[x..] + q)
  {
  }

  /** Typing a character inserts it at the cursor in the flat text and moves past it, unless the line is full. */
  lemma InsertOnFlat(d: Doc, c: byte)
    requires d.Good() && c != 0 && c != NEWLINE
    ensures var r := Insert(d, c);
            if |d.Here()| < MAX_LINE_LEN - 1
            then Inserted(Flat(d.text), Offset(d), c, Flat(r.text)) && Offset(r) == Offset(d) + 1
            else r == d
  {
    if |d.Here()| < MAX_LINE_LEN - 1 {
      var r := Insert(d, c);
      var p, l, q := Ended(d.text[..d.y]), d.Here(), Begun(d.text[d.y + 1..]);
      Parts(d);
      Parts(r);
      assert r.text[..d.y] == d.text[..d.y] && r.text[d.y + 1..] == d.text[d.y + 1..];
      SplitAt(p, l, d.x, q);
      assert r.Here() == l[..d.x] + [c] + l[d.x..];
      Spliced(p, l, d.x, c, q);
      hide Ended, Begun, Flat, Insert, Doc.Good;
    }
  }

  /** Enter inserts a newline at the cursor in the flat text and moves past it, unless there are 100 lines. */
  lemma BreakOnFlat(d: Doc)
    requires d.Good()
    ensures var r := Break(d);
            if |d.text| < MAX_LINES
            then Inserted(Flat(d.text), Offset(d), NEWLINE, Flat(r.text)) && Offset(r) == Offset(d) + 1
            else r == d
  {
    if |d.text| < MAX_LINES {
      var r := Break(d);
      var p, l, q := Ended(d.text[..d.y]), d.Here(), Begun(d.text[d.y + 1..]);
      Parts(d);
      Parts(r);
      var a := r.text[..d.y + 1];
      assert a == d.text[..d.y] + [l[..d.x]];
      assert a[..d.y] == d.text[..d.y];
      assert Ended(a) == p + l[..d.x] + [NEWLINE];
      assert r.text[r.y + 1..] == d.text[d.y + 1..];
      SplitAt(p, l, d.x, q);
      hide Ended, Begun, Flat;
      assert p + l[..d.x] + [NEWLINE] + l[d.x..] + q == (p + l[..d.x]) + [NEWLINE] + (l[d.x..] + q);
    }
  }

  predicate CanDelete(d: Doc)
    requires d.Good()
  {
    d.x > 0 || (d.y > 0 && |d.text[d.y - 1]| + |d.Here()| < MAX_LINE_LEN - 1)
  }

  /** Backspace removes the character or newline before the cursor from the flat text, unless there is none
      or the joined line would be too long. */
  lemma DeleteOnFlat(d: Doc)
    requires d.Good()
    ensures var r := Delete(d);
            if CanDelete(d)
            then 0 < Offset(d) <= |Flat(d.text)| && Offset(r) == Offset(d) - 1
                 && Inserted(Flat(r.text), Offset(d) - 1, Flat(d.text)[Offset(d) - 1], Flat(d.text))
            else r == d
  {
    if d.x > 0 {
      DeleteInLine(d);
    } else if CanDelete(d) {
      DeleteNewline(d);
    }
  }

  lemma DeleteInLine(d: Doc)
    requires d.Good() && d.x > 0
    ensures var r := Delete(d);
            Inserted(Flat(r.text), Offset(r), d.Here()[d.x - 1], Flat(d.text)) && Offset(r) == Offset(d) - 1
    ensures Flat(d.text)[Offset(d) - 1] == d.Here()[d.x - 1]
  {
    var r, l := Delete(d), d.Here();
    Parts(d);
    assert r.Here()[..r.x] + [l[d.x - 1]] + r.Here()[r.x..] == l;
    assert Insert(r, l[d.x - 1]).text == d.text;
    InsertOnFlat(r, l[d.x - 1]);
  }

  lemma DeleteNewline(d: Doc)
    requires d.Good() && d.x == 0 && CanDelete(d)
    ensures var r := Delete(d);
            Inserted(Flat(r.text), Offset(r), NEWLINE, Flat(d.text)) && Offset(r) == Offset(d) - 1
    ensures Flat(d.text)[Offset(d) - 1] == NEWLINE
  {
    var r := Delete(d);
    Parts(d);
    assert r.Here() == d.text[d.y - 1] + d.Here();
    assert Break(r).text == d.text;
    assert Break(r) == d;
    BreakOnFlat(r);
  }

  /** Backspace undoes typing. */
  lemma DeleteUndoesInsert(d: Doc, c: byte)
    requires d.Good() && c != 0 && c != NEWLINE
    ensures Delete(Insert(d, c)) == d <==> |d.Here()| < MAX_LINE_LEN - 1 || !CanDelete(d)
  {
    var r := Insert(d, c);
    if |d.Here()| < MAX_LINE_LEN - 1 {
      assert r.Here()[..r.x - 1] + r.Here()[r.x..] == d.Here();
      assert Delete(r).text == d.text;
    } else if CanDelete(d) {
      DeleteOnFlat(d);
    }
  }

  /** Backspace undoes Enter exactly when the line is not full: a full line, once split, cannot be joined again. */
  lemma DeleteUndoesBreak(d: Doc)
    requires d.Good() && |d.text| < MAX_LINES
    ensures Delete(Break(d)) == d <==> |d.Here()| < MAX_LINE_LEN - 1
  {
    var r := Break(d);
    assert r.text[r.y - 1] + r.Here() == d.Here();
    if |d.Here()| < MAX_LINE_LEN - 1 {
      assert Delete(r).text == d.text;
    }
  }

  /** What each key does, in the flat text: Enter, Backspace, a character, the four arrows. */
  ghost predicate KeyEffect(d: Doc, key: int, r: Doc)
    requires d.Good() && r.Good()
  {
    var was, now, o := Flat(d.text), Flat(r.text), Offset(d);
    if key == 10 || key == 13 then
      if |d.text| < 100 then Inserted(was, o, 10, now) && Offset(r) == o + 1 else r == d
    else if key == 8 || key == 127 then
      if d.x > 0 || (d.y > 0 && |d.text[d.y - 1]| + |d.text[d.y]| < 255)
      then 0 < o <= |was| && Inserted(now, o - 1, was[o - 1], was) && Offset(r) == o - 1
      else r == d
    else if 32 <= key <= 126 then
      if |d.text[d.y]| < 255 then Inserted(was, o, key, now) && Offset(r) == o + 1 else r == d
    else
      ArrowEffect(d, key, r)
  }

  ghost predicate ArrowEffect(d: Doc, key: int, r: Doc)
    requires d.Good() && r.Good()
  {
    && r.text == d.text
    && (key == 0x80 && d.y > 0 ==> r.y == d.y - 1 && r.x == if d.x <= |d.text[r.y]| then d.x else |d.text[r.y]|)
    && (key == 0x81 && d.y + 1 < |d.text| ==> r.y == d.y + 1 && r.x == if d.x <= |d.text[r.y]| then d.x else |d.text[r.y]|)
    && (key == 0x82 && d.x > 0 ==> r.y == d.y && r.x == d.x - 1)
    && (key == 0x83 && d.x < |d.text[d.y]| ==> r.y == d.y && r.x == d.x + 1)
    && (key == 0x80 && d.y == 0 ==> r == d)
    && (key == 0x81 && d.y + 1 == |d.text| ==> r == d)
    && (key == 0x82 && d.x == 0 ==> r == d)
    && (key == 0x83 && d.x == |d.text[d.y]| ==> r == d)
    && (key < 0x80 || key > 0x83 ==> r == d)
  }

  lemma KeyedExactly(d: Doc, key: int)
    requires d.Good()
    ensures KeyEffect(d, key, Keyed(d, key))
  {
    if key == 10 || key == 13 {
      BreakOnFlat(d);
    } else if key == 8 || key == 127 {
      DeleteOnFlat(d);
    } else if 32 <= key <= 126 {
      InsertOnFlat(d, key);
    } else {
      ArrowsExactly(d, key);
    }
    hide Ended, Begun, Flat, Offset, Insert, Delete, Break, ArrowEffect, Move, GoodText;
  }

  lemma ArrowsExactly(d: Doc, key: int)
    requires d.Good() && !(key == 10 || key == 13 || key == 8 || key == 127 || 32 <= key <= 126)
    ensures ArrowEffect(d, key, Keyed(d, key))
  {
  }

  // ---------- saving ----------

  /** The k-th write of a save: the lines with a newline between them. */
  function Piece(t: seq<Line>, k: nat): seq<byte>
    requires k < 2 * |t| - 1
  {
    if k % 2 == 0 then t[k / 2] else [NEWLINE]
  }

  lemma PieceSize(t: seq<Line>, k: nat)
    requires k < 2 * |t| - 1 && CleanAll(t)
    ensures |Piece(t, k)| <= MAX_LINE_LEN
  {
  }

  /** What lands of the writes from the k-th on, when len bytes have landed in a buffer of capacity cap:
      a piece that finds no room is skipped. */
  function Landed(t: seq<Line>, k: nat, len: nat, cap: nat, allocOk: nat -> bool): seq<byte>
    requires t != []
    decreases 2 * |t| - k
  {
    if k >= 2 * |t| - 1 then []
    else
      var need := len + |Piece(t, k)|;
      if need <= cap || allocOk(k) then Piece(t, k) + Landed(t, k + 1, need, CapAfter(cap, need), allocOk)
      else Landed(t, k + 1, len, cap, allocOk)
  }

  lemma LandedNext(t: seq<Line>, k: nat, w: seq<byte>, cap: nat, allocOk: nat -> bool)
    requires k < 2 * |t| - 1
    ensures var p := Piece(t, k);
            w + Landed(t, k, |w|, cap, allocOk) ==
            if |w| + |p| <= cap || allocOk(k) then (w + p) + Landed(t, k + 1, |w + p|, CapAfter(cap, |w + p|), allocOk)
            else w + Landed(t, k + 1, |w|, cap, allocOk)
  {
    hide Piece, CapAfter;
    var p := Piece(t, k);
    var room := |w| + |p| <= cap || allocOk(k);
    var after := if room then Landed(t, k + 1, |w| + |p|, CapAfter(cap, |w| + |p|), allocOk) else Landed(t, k + 1, |w|, cap, allocOk);
    assert Landed(t, k, |w|, cap, allocOk) == if room then p + after else after;
    hide Landed;
    assert (w + p) + after == w + (p + after);
  }

  function Rest(t: seq<Line>, k: nat): seq<byte>
    requires t != []
    decreases 2 * |t| - k
  {
    if k >= 2 * |t| - 1 then [] else Piece(t, k) + Rest(t, k + 1)
  }

  ghost predicate AllRoom(allocOk: nat -> bool) { forall k :: allocOk(k) }

  /** When the heap always has room, or the file's buffer is large enough already, all of the text lands. */
  lemma {:induction false} AllLands(t: seq<Line>, k: nat, len: nat, cap: nat, allocOk: nat -> bool)
    requires t != []
    ensures AllRoom(allocOk) || len + |Rest(t, k)| <= cap ==> Landed(t, k, len, cap, allocOk) == Rest(t, k)
    decreases 2 * |t| - k
  {
    if k < 2 * |t| - 1 {
      var need := len + |Piece(t, k)|;
      AllLands(t, k + 1, need, CapAfter(cap, need), allocOk);
      assert Rest(t, k) == Piece(t, k) + Rest(t, k + 1);
      assert need <= cap || AllRoom(allocOk) ==>
          Landed(t, k, len, cap, allocOk) == Piece(t, k) + Landed(t, k + 1, need, CapAfter(cap, need), allocOk);
      hide Landed, Rest, Piece, PageUp;
    }
  }

  /** A save without room loses pieces from the middle: the long first line is skipped, the newline and the next line land. */
  lemma PartialSave(l: Line, b: byte, cap: nat, allocOk: nat -> bool)
    requires 2 <= cap < |l| && forall k :: k < 3 ==> !allocOk(k)
    ensures Landed([l, [b]], 0, 0, cap, allocOk) == [10, b]
  {
    var t := [l, [b]];
    assert Piece(t, 0) == l && Piece(t, 1) == [NEWLINE] && Piece(t, 2) == [b];
    assert Landed(t, 3, 2, cap, allocOk) == [];
    assert Landed(t, 2, 1, cap, allocOk) == [b];
    assert Landed(t, 1, 0, cap, allocOk) == [NEWLINE] + [b];
  }

  lemma RestOfLine(t: seq<Line>, i: nat)
    requires i < |t|
    ensures Rest(t, 2 * i) == t[i] + if i + 1 < |t| then [NEWLINE] + Rest(t, 2 * (i + 1)) else []
  {
    assert Rest(t, 2 * i) == Piece(t, 2 * i) + Rest(t, 2 * i + 1);
    assert Piece(t, 2 * i) == t[i];
    if i + 1 < |t| {
      assert Rest(t, 2 * i + 1) == Piece(t, 2 * i + 1) + Rest(t, 2 * i + 2);
      assert Piece(t, 2 * i + 1) == [NEWLINE];
    }
    hide Rest, Piece;
  }

  /** The pieces make the flat text. */
  lemma {:induction false} RestIsFlat(t: seq<Line>, i: nat)
    requires i < |t|
    ensures Ended(t[..i]) + Rest(t, 2 * i) == Flat(t)
    decreases |t| - i
  {
    RestOfLine(t, i);
    hide Rest;
    if i + 1 < |t| {
      RestIsFlat(t, i + 1);
      EndedMore(t[..i], t[i]);
      assert t[..i + 1] == t[..i] + [t[i]];
      Regrouped(Ended(t[..i]), t[i], [NEWLINE], Rest(t, 2 * (i + 1)));
      hide Ended, Flat;
    }
  }

  lemma Regrouped(a: seq<byte>, b: seq<byte>, c: seq<byte>, d: seq<byte>)
    ensures a + b + c + d == a + (b + (c + d))
  {
  }

  /** A save for which there is room writes the flat text. */
  lemma WholeLands(t: seq<Line>, cap: nat, allocOk: nat -> bool)
    requires t != []
    ensures AllRoom(allocOk) || |Flat(t)| <= cap ==> Landed(t, 0, 0, cap, allocOk) == Flat(t)
  {
    AllLands(t, 0, 0, cap, allocOk);
    RestIsFlat(t, 0);
    assert Ended(t[..0]) == [];
    hide Landed, Rest, Ended, Flat;
  }

  // ---------- loading ----------

  /** What has been read: finished lines, and the bytes kept of the line being read. */
  datatype Feed = Feed(done: seq<Line>, cur: Line)

  /** One byte of the file. The hundredth line ends at its first byte, and bytes past column 255 are dropped. */
  function Step(s: Feed, b: byte): Feed {
    if |s.done| >= MAX_LINES then s
    else if b == NEWLINE || |s.done| >= MAX_LINES - 1 then Feed(s.done + [s.cur], [])
    else if |s.cur| < MAX_LINE_LEN - 1 then Feed(s.done, s.cur + [b])
    else s
  }

  function Steps(s: Feed, c: seq<byte>): Feed
    decreases |c|
  {
    if c == [] then s else Steps(Step(s, c[0]), c[1..])
  }

  /** A line on the screen ends at its first NUL. */
  function Shown(l: Line): (r: Line)
    ensures |r| <= |l| && r == l[..|r|] && forall i :: 0 <= i < |r| ==> r[i] != 0
    ensures |r| < |l| ==> l[|r|] == 0
  {
    if l == [] || l[0] == 0 then [] else [l[0]] + Shown(l[1..])
  }

  function AllShown(t: seq<Line>): (r: seq<Line>)
    ensures |r| == |t| && forall i :: 0 <= i < |t| ==> r[i] == Shown(t[i])
  {
    seq(|t|, i requires 0 <= i < |t| => Shown(t[i]))
  }

  function Finish(s: Feed): seq<Line> {
    var t := if s.cur != [] && |s.done| < MAX_LINES then s.done + [s.cur] else s.done;
    if t == [] then [[]] else AllShown(t)
  }

  const NOTHING := Feed([], [])

  /** The lines that a file gives. */
  function Loaded(c: seq<byte>): seq<Line> { Finish(Steps(NOTHING, c)) }

  /** The chunks in which the file is read do not matter. */
  lemma {:induction false} StepsJoin(s: Feed, a: seq<byte>, b: seq<byte>)
    ensures Steps(s, a + b) == Steps(Steps(s, a), b)
    decreases |a|
  {
    if a == [] {
      assert a + b == b;
    } else {
      StepsJoin(Step(s, a[0]), a[1..], b);
      assert (a + b)[1..] == a[1..] + b;
    }
  }

  /** What every state of a load keeps. */
  ghost predicate Feeding(s: Feed) {
    && |s.done| <= MAX_LINES && (|s.done| >= MAX_LINES - 1 ==> s.cur == [])
    && FreeOfNewlines(s.cur) && forall i :: 0 <= i < |s.done| ==> FreeOfNewlines(s.done[i])
  }

  ghost predicate FreeOfNewlines(l: Line) { |l| < MAX_LINE_LEN && forall i :: 0 <= i < |l| ==> l[i] != NEWLINE }

  lemma StepFeeding(s: Feed, b: byte)
    requires Feeding(s)
    ensures Feeding(Step(s, b))
  {
  }

  lemma {:induction false} StepsFeeding(s: Feed, c: seq<byte>)
    requires Feeding(s)
    ensures Feeding(Steps(s, c))
    decreases |c|
  {
    if c != [] {
      StepFeeding(s, c[0]);
      StepsFeeding(Step(s, c[0]), c[1..]);
    }
  }

  /** Whatever the file holds, what is loaded is a text the editor can work on. */
  lemma LoadedIsGood(c: seq<byte>)
    ensures GoodText(Loaded(c))
  {
    StepsFeeding(NOTHING, c);
    FinishGood(Steps(NOTHING, c));
  }

  lemma FinishGood(s: Feed)
    requires Feeding(s)
    ensures GoodText(Finish(s))
  {
    forall i | 0 <= i < |Finish(s)| ensures Clean(Finish(s)[i]) {
    }
  }

  /** What is kept of a line of the file, whatever its length. */
  function Cut(l: Line): Line { if |l| > MAX_LINE_LEN - 1 then l[..MAX_LINE_LEN - 1] else l }

  function CutAll(t: seq<Line>): (r: seq<Line>)
    ensures |r| == |t| && forall i :: 0 <= i < |t| ==> r[i] == Cut(t[i])
  {
    seq(|t|, i requires 0 <= i < |t| => Cut(t[i]))
  }

  ghost predicate NoNewline(l: Line) { NEWLINE !in l }

  ghost predicate NoNewlines(t: seq<Line>) { forall i :: 0 <= i < |t| ==> NoNewline(t[i]) }

  lemma {:induction false} StepsLine(s: Feed, l: Line)
    requires NoNewline(l) && |s.cur| < MAX_LINE_LEN && |s.done| < MAX_LINES - 1
    ensures Steps(s, l) == Feed(s.done, Cut(s.cur + l))
    decreases |l|
  {
    if l == [] {
      assert s.cur + l == s.cur;
    } else {
      assert s.cur + [l[0]] + l[1..] == s.cur + l;
      assert |s.cur| == MAX_LINE_LEN - 1 ==> Cut(s.cur + l) == s.cur == Cut(s.cur + l[1..]);
      StepsLine(Step(s, l[0]), l[1..]);
    }
  }

  lemma {:induction false} StepsEnded(t: seq<Line>)
    requires |t| < MAX_LINES && NoNewlines(t)
    ensures Steps(NOTHING, Ended(t)) == Feed(CutAll(t), [])
    decreases |t|
  {
    if t == [] {
      assert CutAll(t) == [];
    } else {
      var front, l := t[..|t| - 1], t[|t| - 1];
      StepsEnded(front);
      StepsLine(Feed(CutAll(front), []), l);
      assert [] + l == l;
      StepsJoin(NOTHING, Ended(front), l);
      StepsJoin(NOTHING, Ended(front) + l, [NEWLINE]);
      assert Steps(Feed(CutAll(front), Cut(l)), [NEWLINE]) == Feed(CutAll(front) + [Cut(l)], []);
      assert CutAll(t) == CutAll(front) + [Cut(l)];
    }
  }

  /** What any file loads as, given as its lines t: each is cut at 255 bytes and shown up to its first NUL;
      an empty last line does not count; of a hundredth line nothing but an empty line remains. */
  lemma LoadedExactly(t: seq<Line>)
    requires t != [] && NoNewlines(t)
    ensures var front, last := t[..|t| - 1], t[|t| - 1];
            && (|t| < 100 && last != [] ==> Loaded(Flat(t)) == AllShown(CutAll(t)))
            && (1 < |t| <= 100 && last == [] ==> Loaded(Flat(t)) == AllShown(CutAll(front)))
            && (|t| >= 100 && Flat(t[99..]) != [] ==> Loaded(Flat(t)) == AllShown(CutAll(t[..99])) + [[]])
            && (t == [[]] ==> Loaded(Flat(t)) == [[]])
  {
    var front, last := t[..|t| - 1], t[|t| - 1];
    if |t| < MAX_LINES || (|t| == MAX_LINES && last == []) {
      StepsEnded(front);
      StepsJoin(NOTHING, Ended(front), last);
      if last != [] {
        StepsLine(Feed(CutAll(front), []), last);
        assert [] + last == last;
        assert CutAll(t) == CutAll(front) + [Cut(last)];
      }
    } else {
      HundredthLine(t);
    }
  }

  lemma HundredthLine(t: seq<Line>)
    requires |t| >= MAX_LINES && NoNewlines(t) && Flat(t[MAX_LINES - 1..]) != []
    ensures Loaded(Flat(t)) == AllShown(CutAll(t[..MAX_LINES - 1])) + [[]]
  {
    var head, rest := t[..MAX_LINES - 1], Flat(t[MAX_LINES - 1..]);
    FlatSplit(t, MAX_LINES - 1);
    StepsEnded(head);
    StepsJoin(NOTHING, Ended(head), rest);
    hide Flat, Ended;
    var kept := CutAll(head);
    assert Step(Feed(kept, []), rest[0]) == Feed(kept + [[]], []);
    Ignored(Feed(kept + [[]], []), rest[1..]);
    assert AllShown(kept + [[]]) == AllShown(kept) + [[]];
  }

  lemma {:induction false} FlatSplit(t: seq<Line>, k: nat)
    requires k < |t|
    ensures Flat(t) == Ended(t[..k]) + Flat(t[k..])
    decreases |t|
  {
    if k == 0 {
      assert t[..0] == [] && t[0..] == t;
      assert Ended(t[..0]) == [];
    } else {
      FlatSplit(t[1..], k - 1);
      assert t[1..][..k - 1] == t[1..k] && t[1..][k - 1..] == t[k..];
      FlatFirst(t);
      EndedFirst(t[..k]);
      assert t[..k][1..] == t[1..k];
      hide Flat, Ended;
    }
  }

  lemma FlatFirst(t: seq<Line>)
    requires |t| > 1
    ensures Flat(t) == t[0] + [NEWLINE] + Flat(t[1..])
  {
    EndedFirst(t[..|t| - 1]);
    assert t[..|t| - 1][1..] == t[1..][..|t| - 2];
    hide Ended;
  }

  lemma {:induction false} EndedFirst(t: seq<Line>)
    requires t != []
    ensures Ended(t) == t[0] + [NEWLINE] + Ended(t[1..])
    decreases |t|
  {
    var n := |t| - 1;
    if n > 0 {
      EndedFirst(t[..n]);
      assert t[..n][1..] == t[1..][..n - 1];
    } else {
      assert t[..n] == [] && t[1..] == [];
    }
  }

  lemma {:induction false} ShownClean(l: Line)
    requires Clean(l)
    ensures Shown(l) == l
  {
    if l != [] { ShownClean(l[1..]); }
  }

  lemma AllShownClean(t: seq<Line>)
    requires CleanAll(t)
    ensures AllShown(t) == t
  {
    forall i | 0 <= i < |t| ensures AllShown(t)[i] == t[i] { ShownClean(t[i]); }
  }

  lemma {:induction false} Ignored(s: Feed, c: seq<byte>)
    requires |s.done| >= MAX_LINES
    ensures Steps(s, c) == s
    decreases |c|
  {
    if c != [] { Ignored(s, c[1..]); }
  }

  /** What a saved text loads as, whole. */
  lemma LoadedFlat(t: seq<Line>)
    requires GoodText(t)
    ensures var front, last := t[..|t| - 1], t[|t| - 1];
            Loaded(Flat(t)) ==
            if |t| == MAX_LINES && last != [] then front + [[]]
            else if last == [] && |t| > 1 then front
            else t
  {
    var front, last := t[..|t| - 1], t[|t| - 1];
    hide Loaded, CutAll, AllShown;
    CutClean(front);
    CutClean(t);
    LoadedExactly(t);
    AllShownClean(front);
    AllShownClean(t);
    if |t| == MAX_LINES {
      assert t[99..] == [last] && t[..99] == front;
      FlatOne(last);
    }
    hide Flat, CleanAll, NoNewlines;
  }

  lemma FlatOne(l: Line)
    ensures Flat([l]) == l
  {
    assert [l][..0] == [];
  }

  lemma CutClean(t: seq<Line>)
    requires CleanAll(t)
    ensures CutAll(t) == t && NoNewlines(t)
  {
  }

  /** Saving over a file that is not longer, then loading, gives back the same lines exactly when there are at most 99
      and the last is not empty (or is the only one). */
  lemma SaveThenLoad(c: seq<byte>, t: seq<Line>)
    requires GoodText(t) && |c| <= |Flat(t)|
    ensures Loaded(Overwrite(c, 0, Flat(t))) == t <==> |t| == 1 || (|t| < MAX_LINES && t[|t| - 1] != [])
  {
    WriteReplaces(c, Flat(t));
    LoadedFlat(t);
  }
}
