/** core/kernel/shell/commands/kedit.c: the line buffers of the editor, edited in place, refining KeditText. */
module Kedit {
  import opened Memory
  import opened CString
  import opened Tmpfs
  import opened KeditText

  const CHUNK: nat := 1024

  class Editor {
    const lines: seq<array<byte>>
    var lineCount: int
    var cursorX: int
    var cursorY: int
    var modified: bool
    var active: bool                // in_kedit
    ghost var text: seq<Line>

    /** The line buffers are one per line and apart. */
    ghost predicate Buffers() {
      && |lines| == MAX_LINES
      && (forall i :: 0 <= i < MAX_LINES ==> lines[i].Length == MAX_LINE_LEN)
      && (forall i, j :: 0 <= i < j < MAX_LINES ==> lines[i] != lines[j])
    }

    /** Lines lo to hi - 1 of t, t[k] in buffer k + shift. */
    ghost predicate Rows(t: seq<Line>, lo: nat, hi: nat, shift: int)
      requires Buffers()
      reads lines
    {
      forall k :: lo <= k < hi && k < |t| && 0 <= k + shift < MAX_LINES ==> Holds(lines[k + shift], t[k])
    }

    ghost predicate Valid()
      reads this`text, this`lineCount, this`cursorX, this`cursorY, lines
    {
      && Buffers()
      && lineCount == |text| && 0 <= cursorY && 0 <= cursorX && Doc(text, cursorY, cursorX).Good()
      && Rows(text, 0, |text|, 0)
    }

    ghost function View(): (d: Doc)
      requires Valid()
      reads this`text, this`lineCount, this`cursorX, this`cursorY, lines
      ensures d.Good()
    {
      Doc(text, cursorY, cursorX)
    }

    constructor ()
      ensures Valid() && View() == Doc([[]], 0, 0) && !modified
      ensures forall i :: 0 <= i < MAX_LINES ==> fresh(lines[i])
    {
      var rows: seq<array<byte>> := [];
      for i := 0 to MAX_LINES
        invariant |rows| == i
        invariant forall j :: 0 <= j < i ==> fresh(rows[j]) && rows[j].Length == MAX_LINE_LEN && rows[j][0] == 0
        invariant forall j, k :: 0 <= j < k < i ==> rows[j] != rows[k]
      {
        var row := new byte[MAX_LINE_LEN](_ => 0);
        rows := rows + [row];
      }
      lines := rows;
      lineCount, cursorX, cursorY, modified, active := 1, 0, 0, false, false;
      text := [[]];
    }

    /** kedit_insert_char */
    method InsertChar(c: byte)
      requires Valid() && c != 0 && c != NEWLINE
      modifies this`text, this`cursorX, this`modified, lines
      ensures Valid() && View() == Insert(old(View()), c)
      ensures modified == (old(modified) || View() != old(View()))
    {
      if cursorX >= MAX_LINE_LEN - 1 { return; }
      ghost var d := View();
      var line := lines[cursorY];
      assert Holds(line, d.Here());
      var len := StrLen(line, d.Here());
      if len >= MAX_LINE_LEN - 1 { return; }
      OpenGap(line, d.Here(), cursorX, len, c);
      text := Insert(d, c).text;
      cursorX := cursorX + 1;
      modified := true;
    }

    /** kedit_move_cursor */
    method MoveCursor(dx: int, dy: int)
      requires Valid()
      modifies this`cursorX, this`cursorY
      ensures Valid() && View() == Move(old(View()), dx, dy)
    {
      cursorX := cursorX + dx;
      cursorY := cursorY + dy;
      if cursorY < 0 { cursorY := 0; }
      if cursorY >= lineCount { cursorY := lineCount - 1; }
      if cursorX < 0 { cursorX := 0; }
      assert Holds(lines[cursorY], text[cursorY]);
      var len := StrLen(lines[cursorY], text[cursorY]);
      if cursorX > len { cursorX := len; }
    }

    /** kedit_delete_char */
    method DeleteChar()
      requires Valid()
      modifies this, lines
      ensures active == old(active)
      ensures Valid() && View() == Delete(old(View())) && modified
    {
      ghost var d := View();
      var line := lines[cursorY];
      assert Holds(line, d.Here());
      var len := StrLen(line, d.Here());
      if cursorX > 0 && len > 0 {
        CloseGap(line, d.Here(), cursorX, len);
        text := Delete(d).text;
        cursorX := cursorX - 1;
      } else if cursorX == 0 && cursorY > 0 {
        assert Holds(lines[cursorY - 1], text[cursorY - 1]);
        var prevLen := StrLen(lines[cursorY - 1], text[cursorY - 1]);
        if prevLen + len < MAX_LINE_LEN - 1 { JoinLines(prevLen); }
      }
      modified := true;
    }

    /** Lines 136-142 of kedit_delete_char. */
    method JoinLines(prevLen: nat)
      requires Valid() && cursorX == 0 && cursorY > 0 && CanDelete(View()) && prevLen == |text[cursorY - 1]|
      modifies this, lines
      ensures active == old(active)
      ensures Valid() && View() == Delete(old(View()))
    {
      ghost var d, head := View(), text[..cursorY - 1] + [text[cursorY - 1] + text[cursorY]];
      assert Holds(lines[cursorY - 1], text[cursorY - 1]) && Holds(lines[cursorY], text[cursorY]);
      StrAppend(lines[cursorY - 1], lines[cursorY], text[cursorY - 1], text[cursorY]);
      MoveUp(head);
      RowsJoined(d, head);
      Place(Delete(d), lineCount - 1, cursorY - 1, prevLen);
    }

    /** The new line count and cursor, once the buffers hold the lines of r. */
    method Place(ghost r: Doc, count: int, y: int, x: int)
      requires Buffers() && r.Good() && count == |r.text| && y == r.y && x == r.x && Rows(r.text, 0, |r.text|, 0)
      modifies this`text, this`lineCount, this`cursorY, this`cursorX
      ensures Valid() && View() == r
    {
      text := r.text;
      lineCount := count;
      cursorY := y;
      cursorX := x;
    }

    lemma RowsJoined(d: Doc, head: seq<Line>)
      requires Buffers() && d.Good() && d.x == 0 && d.y > 0 && CanDelete(d)
      requires head == d.text[..d.y - 1] + [d.text[d.y - 1] + d.Here()]
      requires Rows(head, 0, d.y, 0) && Rows(d.text, d.y + 1, |d.text|, -1)
      ensures Rows(Delete(d).text, 0, |Delete(d).text|, 0)
    {
      var t := Delete(d).text;
      hide Holds;
      forall k | 0 <= k < |t| ensures Holds(lines[k], t[k]) {
        if k < d.y {
          assert t[k] == head[k] && Holds(lines[k + 0], head[k]);
        } else {
          assert t[k] == d.text[k + 1] && Holds(lines[k + 1 + -1], d.text[k + 1]);
        }
      }
    }

    /** Lines 137-139 of kedit_delete_char: the lines after the cursor's line move up over it. */
    method MoveUp(ghost head: seq<Line>)
      requires Buffers() && 0 <= cursorY <= |head| && lineCount == |text| <= MAX_LINES && CleanAll(text)
      requires Rows(head, 0, cursorY, 0) && Rows(text, cursorY + 1, |text|, 0)
      modifies lines
      ensures Rows(head, 0, cursorY, 0) && Rows(text, cursorY + 1, |text|, -1)
    {
      hide Holds;
      var i := cursorY;
      while i < lineCount - 1
        invariant cursorY <= i && (i < lineCount || i == cursorY)
        invariant Rows(head, 0, cursorY, 0)
        invariant Rows(text, cursorY + 1, i + 1, -1)
        invariant Rows(text, i + 1, |text|, 0)
      {
        assert Holds(lines[i + 1], text[i + 1]);
        StrCopy(lines[i], lines[i + 1], 0, text[i + 1]);
        assert text[i + 1][0..] == text[i + 1];
        i := i + 1;
      }
    }

    /** Lines 152-154 of kedit_new_line: the lines after the cursor's line move down. */
    method MoveDown()
      requires Valid() && lineCount < MAX_LINES
      modifies lines
      ensures Rows(text, 0, cursorY + 1, 0) && Rows(text, cursorY + 1, |text|, 1)
    {
      hide Holds;
      var i := lineCount;
      while i > cursorY + 1
        invariant cursorY + 1 <= i <= lineCount
        invariant Rows(text, 0, i, 0)
        invariant Rows(text, i, |text|, 1)
      {
        assert Holds(lines[i - 1], text[i - 1]);
        StrCopy(lines[i], lines[i - 1], 0, text[i - 1]);
        assert text[i - 1][0..] == text[i - 1];
        i := i - 1;
      }
    }

    /** kedit_new_line */
    method NewLine()
      requires Valid()
      modifies this, lines
      ensures active == old(active)
      ensures Valid() && View() == Break(old(View()))
      ensures modified == (old(modified) || View() != old(View()))
    {
      if lineCount >= MAX_LINES { return; }
      ghost var d := View();
      var current := lines[cursorY];
      assert Holds(current, d.Here());
      var currentLen := StrLen(current, d.Here());
      if cursorX <= currentLen { SplitLine(); }
    }

    /** Lines 152-161 of kedit_new_line. */
    method SplitLine()
      requires Valid() && lineCount < MAX_LINES
      modifies this, lines
      ensures active == old(active)
      ensures Valid() && View() == Break(old(View())) && modified
    {
      ghost var d := View();
      ghost var r := Break(d);
      assert r.Good() && r.y == d.y + 1 && r.x == 0 && |r.text| == |d.text| + 1;
      var current := lines[cursorY];
      MoveDown();
      var rest := new byte[MAX_LINE_LEN];
      assert Holds(current, d.Here());
      StrCopy(rest, current, cursorX, d.Here());
      Truncate(current, d.Here(), cursorX);
      assert d.Here()[cursorX..][0..] == d.Here()[cursorX..];
      StrCopy(lines[cursorY + 1], rest, 0, d.Here()[cursorX..]);
      hide Holds;
      assert Rows(text, 0, cursorY, 0) && Rows(text, cursorY + 1, |text|, 1);
      RowsSplit(d);
      hide Break, Rows;
      Place(r, lineCount + 1, cursorY + 1, 0);
      modified := true;
    }

    lemma RowsSplit(d: Doc)
      requires Buffers() && d.Good() && |d.text| < MAX_LINES
      requires Rows(d.text, 0, d.y, 0) && Rows(d.text, d.y + 1, |d.text|, 1)
      requires Holds(lines[d.y], d.Here()[..d.x]) && Holds(lines[d.y + 1], d.Here()[d.x..])
      ensures Rows(Break(d).text, 0, |Break(d).text|, 0)
    {
      var t := Break(d).text;
      hide Holds;
      forall k | 0 <= k < |t| ensures Holds(lines[k], t[k]) {
        if k < d.y {
          assert t[k] == d.text[k] && Holds(lines[k + 0], d.text[k]);
        } else if k > d.y + 1 {
          assert t[k] == d.text[k - 1] && Holds(lines[k - 1 + 1], d.text[k - 1]);
        }
      }
    }

    /** Backspace always marks the text as modified, the arrows never do, other keys when they change it. */
    static ghost predicate Marks(key: int, was: Doc, now: Doc) {
      key == 8 || key == 127 || (now != was && !(0x80 <= key <= 0x83))
    }

    /** kedit_handle_key: Ctrl+Q (17) leaves, Ctrl+S (19) saves, every other key acts on the text. */
    method HandleKey(key: int, file: File?, allocOk: nat -> bool)
      requires Valid() && (key == 19 && file != null ==> Saveable(file))
      modifies this, lines
      modifies if key == 19 && file != null then {file, file.node} else {}
      modifies if key == 19 && file != null && file.node.data != null then {file.node.data} else {}
      ensures Valid() && View() == Keyed(old(View()), key) && KeyEffect(old(View()), key, View())
      ensures active == (old(active) && key != 17)
      ensures key != 19 ==> modified == (old(modified) || Marks(key, old(View()), View()))
      ensures key == 19 && file != null ==> !modified && Saved(file, old(file.node.Contents()), old(file.node.cap), text, allocOk)
    {
      hide Saveable, Saved, Keyed, KeyEffect;
      OtherKeys(View(), key);
      KeyedExactly(View(), key);
      if key == 17 {
        active := false;
      } else if key == 19 {
        Save(file, allocOk);
      } else {
        EditKey(key);
      }
    }

    /** Lines 186-202 of kedit_handle_key. */
    method EditKey(key: int)
      requires Valid() && key != 17 && key != 19
      modifies this, lines
      ensures Valid() && View() == Keyed(old(View()), key) && active == old(active)
      ensures modified == (old(modified) || Marks(key, old(View()), View()))
    {
      if key == 10 || key == 13 {
        NewLine();
      } else if key == 8 || key == 127 {
        DeleteChar();
      } else if 32 <= key <= 126 {
        InsertChar(key);
      } else if key == 0x80 {
        MoveCursor(0, -1);
      } else if key == 0x81 {
        MoveCursor(0, 1);
      } else if key == 0x82 {
        MoveCursor(-1, 0);
      } else if key == 0x83 {
        MoveCursor(1, 0);
      }
    }

    // ---------- saving and loading ----------

    /** The file's buffer is none of the line buffers. */
    ghost predicate Apart(file: File)
      reads file.node
    {
      forall k :: 0 <= k < |lines| ==> lines[k] != file.node.data
    }

    /** A descriptor that fs_open has just given. */
    ghost predicate Saveable(file: File)
      reads file, file.node
    {
      file.pos == 0 && file.node.Valid() && file.node.isFile && Apart(file)
    }

    /** The file after a save over contents c: overwritten from the start with the pieces of the text that found room. */
    ghost predicate Saved(file: File, c: seq<byte>, cap: nat, t: seq<Line>, allocOk: nat -> bool)
      reads file.node, file.node.data
    {
      && file.node.Valid() && file.node.isFile && t != []
      && file.node.Contents() == Overwrite(c, 0, Landed(t, 0, 0, cap, allocOk))
    }

    /** kedit_save; file is null when there is no name or the open fails. allocOk(k) says whether the heap has room
        for a larger buffer at the k-th write; a write that fails is ignored. */
    method Save(file: File?, allocOk: nat -> bool)
      requires Valid() && (file != null ==> Saveable(file))
      modifies this`modified
      modifies if file != null then {file, file.node} else {}
      modifies if file != null && file.node.data != null then {file.node.data} else {}
      ensures Valid() && View() == old(View()) && modified == (file == null && old(modified))
      ensures file != null ==> Saved(file, old(file.node.Contents()), old(file.node.cap), text, allocOk)
      ensures file != null && (AllRoom(allocOk) || |Flat(text)| <= old(file.node.cap)) ==>
                file.node.Contents() == Overwrite(old(file.node.Contents()), 0, Flat(text))
    {
      if file == null { return; }
      hide Valid, Saveable, Saved;
      SaveTo(file, allocOk);
      modified := false;
    }

    /** Lines 101-107 of kedit_save. */
    method SaveTo(file: File, allocOk: nat -> bool)
      requires Valid() && Saveable(file)
      modifies file, file.node, file.node.data
      ensures Valid() && Saved(file, old(file.node.Contents()), old(file.node.cap), text, allocOk)
      ensures AllRoom(allocOk) || |Flat(text)| <= old(file.node.cap) ==>
                file.node.Contents() == Overwrite(old(file.node.Contents()), 0, Flat(text))
    {
      ghost var c, cap := file.node.Contents(), file.node.cap;
      WriteNothing(c);
      WholeLands(text, cap, allocOk);
      assert Saving(file, 0, [], c, cap, allocOk);
      hide Saving, Overwrite, Rows, Landed, Flat, AllRoom, CleanAll;
      SaveLines(file, c, cap, allocOk);
    }

    /** The save before its k-th write, w being what has landed so far over a file of contents c. */
    ghost predicate Saving(file: File, k: nat, w: seq<byte>, c: seq<byte>, cap: nat, allocOk: nat -> bool)
      reads this`text, file, file.node, file.node.data
    {
      && Apart(file) && file.node.Valid() && file.node.isFile
      && 0 < |text| && k <= 2 * |text| - 1
      && file.pos == |w| <= k * MAX_LINE_LEN
      && file.node.Contents() == Overwrite(c, 0, w)
      && Landed(text, 0, 0, cap, allocOk) == w + Landed(text, k, |w|, file.node.cap, allocOk)
    }

    /** The loop of kedit_save. */
    method SaveLines(file: File, ghost c: seq<byte>, ghost cap: nat, allocOk: nat -> bool)
      requires Valid() && Saving(file, 0, [], c, cap, allocOk)
      modifies file`pos, file.node, file.node.data
      ensures Valid() && Saved(file, c, cap, text, allocOk)
      ensures file.node.data == old(file.node.data) || fresh(file.node.data)
    {
      assert lineCount == |text| > 0;
      ghost var n, w := |text|, [];
      assert Saving(file, 0, w, c, cap, allocOk);
      for i := 0 to lineCount
        invariant Valid() && Saving(file, if i < n then 2 * i else 2 * n - 1, w, c, cap, allocOk)
        invariant file.node.data == old(file.node.data) || fresh(file.node.data)
      {
        w := SaveLine(file, i, w, c, cap, allocOk);
      }
      assert w + [] == w;
    }

    /** Lines 102-105 of kedit_save. */
    method SaveLine(file: File, i: nat, ghost w: seq<byte>, ghost c: seq<byte>, ghost cap: nat, allocOk: nat -> bool)
      returns (ghost w': seq<byte>)
      requires Valid() && i < lineCount && Saving(file, 2 * i, w, c, cap, allocOk)
      modifies file`pos, file.node, file.node.data
      ensures Valid() && Saving(file, if i + 1 < |text| then 2 * (i + 1) else 2 * |text| - 1, w', c, cap, allocOk)
      ensures file.node.data == old(file.node.data) || fresh(file.node.data)
    {
      hide Saving, Valid, Piece;
      var line := TextOf(i);
      w' := WritePiece(file, line, 2 * i, w, c, cap, allocOk);
      if i < lineCount - 1 {
        w' := WritePiece(file, [NEWLINE], 2 * i + 1, w', c, cap, allocOk);
      }
    }

    /** The bytes of line i up to its terminator. */
    method TextOf(i: nat) returns (line: seq<byte>)
      requires Valid() && i < lineCount
      ensures i < |text| == lineCount && line == text[i] == Piece(text, 2 * i)
      ensures i < lineCount - 1 ==> Piece(text, 2 * i + 1) == [NEWLINE]
    {
      assert Holds(lines[i], text[i]);
      var len := StrLen(lines[i], text[i]);
      line := lines[i][..len];
    }

    lemma Bounds()
      requires Valid()
      ensures |text| == lineCount <= MAX_LINES && CleanAll(text)
    {
    }

    /** One fs_write of the save. */
    method WritePiece(file: File, buf: seq<byte>, k: nat, ghost w: seq<byte>, ghost c: seq<byte>, ghost cap: nat, allocOk: nat -> bool)
      returns (ghost w': seq<byte>)
      requires Valid() && Saving(file, k, w, c, cap, allocOk) && k < 2 * |text| - 1 && buf == Piece(text, k)
      modifies file`pos, file.node, file.node.data
      ensures Valid() && Saving(file, k + 1, w', c, cap, allocOk)
      ensures file.node.data == old(file.node.data) || fresh(file.node.data)
    {
      Bounds();
      PieceSize(text, k);
      LandedNext(text, k, w, file.node.cap, allocOk);
      ghost var whole, room := Landed(text, 0, 0, cap, allocOk), |w| + |buf| <= file.node.cap || allocOk(k);
      ghost var next := if room then w + buf else w;
      assert whole == next + Landed(text, k + 1, |next|, if room then CapAfter(file.node.cap, |next|) else file.node.cap, allocOk);
      hide Overwrite, Valid, Piece, Landed, CapAfter, CleanAll, Node.Valid, Node.Contents;
      w' := Append(file, buf, allocOk(k), w, c);
    }

    /** cmd_kedit with kedit_load; file is null when the open fails. */
    method Load(file: File?)
      requires Buffers() && (file != null ==> Saveable(file) && file.node.size + CHUNK < U64)
      modifies this, lines
      modifies if file != null then {file} else {}
      ensures Valid() && !modified && active
      ensures View() == Doc(if file == null then [[]] else Loaded(file.node.Contents()), 0, 0)
      ensures file != null ==> file.node.Valid() && file.node.Contents() == old(file.node.Contents())
    {
      cursorX, cursorY, modified, active := 0, 0, false, true;
      if file == null {
        lineCount := 1;
        lines[0][0] := 0;
        text := [[]];
        return;
      }
      var lineIdx, bufPos := ReadChunks(file);
      ghost var c := file.node.Contents();
      LoadedIsGood(c);
      hide Steps;
      modified := false;
      FinishLoad(lineIdx, bufPos, Steps(NOTHING, c));
    }

    /** Lines 69-81 of kedit_load. */
    method ReadChunks(file: File) returns (lineIdx: nat, bufPos: nat)
      requires Buffers() && file.pos == 0 && file.node.Valid() && file.node.isFile && Apart(file)
      requires file.node.size + CHUNK < U64
      modifies file`pos, lines
      ensures file.node.Valid() && file.node.Contents() == old(file.node.Contents())
      ensures Reading(Steps(NOTHING, file.node.Contents()), lineIdx, bufPos)
    {
      hide Steps;
      ghost var c := file.node.Contents();
      ghost var s := NOTHING;
      lineIdx, bufPos := 0, 0;
      StepsOn(c, 0, 0);
      while true
        invariant file.node.Contents() == c && file.pos <= |c|
        invariant s == Steps(NOTHING, c[..file.pos]) && Reading(s, lineIdx, bufPos) && lineIdx < MAX_LINES
        decreases |c| - file.pos
      {
        ghost var p := file.pos;
        var n, chunk := TmpfsRead(file, CHUNK);
        if n <= 0 { break; }
        StepsOn(c, p, file.pos);
        lineIdx, bufPos := LoadChunk(chunk, lineIdx, bufPos, s);
        s := Steps(s, chunk);
        if lineIdx >= MAX_LINES { break; }
      }
      StepsOn(c, file.pos, |c|);
      if lineIdx >= MAX_LINES { Ignored(s, c[file.pos..]); }
    }

    /** The buffers hold what has been read: each finished line up to its terminator, and the line being read. */
    ghost predicate Reading(s: Feed, lineIdx: nat, bufPos: nat)
      reads lines
    {
      && Buffers() && Feeding(s) && lineIdx == |s.done| && bufPos == |s.cur|
      && (forall k :: 0 <= k < lineIdx ==> Raw(lines[k], s.done[k]))
      && (lineIdx < MAX_LINES ==> lines[lineIdx][..bufPos] == s.cur)
    }

    /** The loop body at lines 71-78 of kedit_load. */
    method StoreByte(b: byte, lineIdx: nat, bufPos: nat, ghost s: Feed) returns (line: nat, pos: nat)
      requires Reading(s, lineIdx, bufPos) && lineIdx < MAX_LINES
      modifies lines
      ensures Reading(Step(s, b), line, pos)
    {
      StepFeeding(s, b);
      line, pos := lineIdx, bufPos;
      if b == NEWLINE || lineIdx >= MAX_LINES - 1 {
        lines[lineIdx][bufPos] := 0;
        assert lines[lineIdx][..bufPos] == s.cur;
        line := line + 1;
        pos := 0;
      } else if bufPos < MAX_LINE_LEN - 1 {
        lines[lineIdx][bufPos] := b;
        assert lines[lineIdx][..bufPos] == s.cur;
        pos := pos + 1;
      }
    }

    /** Lines 70-79 of kedit_load. */
    method LoadChunk(chunk: seq<byte>, lineIdx: nat, bufPos: nat, ghost s: Feed) returns (line: nat, pos: nat)
      requires Reading(s, lineIdx, bufPos) && lineIdx < MAX_LINES
      modifies lines
      ensures Reading(Steps(s, chunk), line, pos)
    {
      line, pos := lineIdx, bufPos;
      ghost var t := s;
      assert chunk[0..] == chunk;
      for i := 0 to |chunk|
        invariant Reading(t, line, pos) && line < MAX_LINES
        invariant Steps(s, chunk) == Steps(t, chunk[i..])
      {
        line, pos := StoreByte(chunk[i], line, pos, t);
        assert chunk[i..][1..] == chunk[i + 1..];
        t := Step(t, chunk[i]);
        if line >= MAX_LINES {
          Ignored(t, chunk[i + 1..]);
          return;
        }
      }
    }

    /** Lines 82-90 of kedit_load. */
    method FinishLoad(lineIdx: nat, bufPos: nat, ghost s: Feed)
      requires Reading(s, lineIdx, bufPos) && GoodText(Finish(s)) && cursorX == cursorY == 0
      modifies this`lineCount, this`text, lines
      ensures Valid() && View() == Doc(Finish(s), 0, 0)
    {
      var line := lineIdx;
      ghost var t := s.done;
      if bufPos > 0 && line < MAX_LINES {
        lines[line][bufPos] := 0;
        assert lines[line][..bufPos] == s.cur;
        line := line + 1;
        t := t + [s.cur];
      }
      lineCount := line;
      if lineCount == 0 {
        lineCount := 1;
        lines[0][0] := 0;
        text := [[]];
      } else {
        text := AllShown(t);
        forall k | 0 <= k < |t| ensures Holds(lines[k], text[k]) { RawHolds(lines[k], t[k]); }
      }
    }
  }

  /** The bytes of a line up to its terminator; a NUL among them ends what is shown. */
  ghost predicate Raw(b: array<byte>, l: Line)
    reads b
  {
    |l| < b.Length && b[..|l|] == l && b[|l|] == 0
  }

  lemma RawHolds(b: array<byte>, l: Line)
    requires Raw(b, l)
    ensures Holds(b, Shown(l))
  {
    var r := Shown(l);
    assert b[..|r|] == b[..|l|][..|r|];
    if |r| < |l| { assert b[|r|] == b[..|l|][|r|]; }
  }

  /** Reading on from p to q. */
  lemma StepsOn(c: seq<byte>, p: nat, q: nat)
    requires p <= q <= |c|
    ensures Steps(NOTHING, c[..q]) == Steps(Steps(NOTHING, c[..p]), c[p..q])
    ensures c[..|c|] == c
    ensures Steps(Steps(NOTHING, c[..p]), []) == Steps(NOTHING, c[..p])
    ensures Steps(NOTHING, c[..0]) == NOTHING
  {
    assert c[..q] == c[..p] + c[p..q];
    StepsJoin(NOTHING, c[..p], c[p..q]);
  }

  lemma WriteNothing(c: seq<byte>)
    ensures Overwrite(c, 0, []) == c
  {
  }

  /** fs_write at the end of what has landed so far. */
  method Append(file: File, buf: seq<byte>, allocOk: bool, ghost w: seq<byte>, ghost c: seq<byte>) returns (ghost w': seq<byte>)
    requires file.node.Valid() && file.node.isFile && file.pos == |w| && |w| + |buf| + 4095 < U64
    requires file.node.Contents() == Overwrite(c, 0, w)
    modifies file`pos, file.node, file.node.data
    ensures w' == if |w| + |buf| <= old(file.node.cap) || allocOk then w + buf else w
    ensures file.node.cap == if |w| + |buf| <= old(file.node.cap) || allocOk then CapAfter(old(file.node.cap), |w + buf|)
                             else old(file.node.cap)
    ensures file.node.Valid() && file.node.isFile && file.pos == |w'| && file.node.Contents() == Overwrite(c, 0, w')
    ensures file.node.data == old(file.node.data) || fresh(file.node.data)
  {
    WritesJoin(c, 0, w, buf);
    hide CapAfter;
    var n := TmpfsWrite(file, buf, allocOk, allocOk);
    w' := if n == -1 then w else w + buf;
  }

  /** Cut a line short. */
  method Truncate(line: array<byte>, ghost l: Line, x: nat)
    requires Holds(line, l) && x <= |l|
    modifies line
    ensures Holds(line, l[..x])
  {
    line[x] := 0;
    assert line[..x] == l[..x];
  }

  /** Lines 118-121 of kedit_insert_char: everything from x on, the NUL included, moves right, and c takes its place. */
  method OpenGap(line: array<byte>, ghost l: Line, x: nat, len: nat, c: byte)
    requires Holds(line, l) && len == |l| && x <= len && len + 1 < line.Length && c != 0
    modifies line
    ensures Holds(line, l[..x] + [c] + l[x..])
  {
    Scanned(line, l);
    var i: int := len;
    while i >= x
      invariant x - 1 <= i <= len
      invariant forall k :: 0 <= k <= i ==> line[k] == CharAt(l, k)
      invariant forall k :: i + 1 < k <= len + 1 ==> line[k] == CharAt(l, k - 1)
    {
      line[i + 1] := line[i];
      i := i - 1;
    }
    line[x] := c;
    ghost var r := l[..x] + [c] + l[x..];
    assert forall k :: 0 <= k < |r| ==> line[k] == r[k];
    assert line[..|r|] == r;
  }

  /** Lines 129-131 of kedit_delete_char: everything from x on, the NUL included, moves left. */
  method CloseGap(line: array<byte>, ghost l: Line, x: nat, len: nat)
    requires Holds(line, l) && len == |l| && 0 < x <= len
    modifies line
    ensures Holds(line, l[..x - 1] + l[x..])
  {
    Scanned(line, l);
    var i := x - 1;
    while i < len
      invariant x - 1 <= i <= len
      invariant forall k :: 0 <= k < x - 1 ==> line[k] == CharAt(l, k)
      invariant forall k :: x - 1 <= k < i ==> line[k] == CharAt(l, k + 1)
      invariant forall k :: i <= k <= len ==> line[k] == CharAt(l, k)
    {
      line[i] := line[i + 1];
      i := i + 1;
    }
    ghost var r := l[..x - 1] + l[x..];
    assert forall k :: 0 <= k < |r| ==> line[k] == r[k];
    assert line[..|r|] == r;
  }
}
