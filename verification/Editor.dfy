/** The em editor: a flat buffer with a length and a cursor. */
module EditorMachine {
  import opened Common
  import opened CStrings
  import opened EditorText
  import opened EditorWords
  import opened EditorLayout
  import opened FileTable

  class Editor {
    const buffer: array<char>
    var bufLen: nat
    var cursor: nat

    ghost predicate Valid()
      reads this, buffer
    {
      buffer.Length == EM_BUF_SIZE && cursor <= bufLen < EM_BUF_SIZE && buffer[bufLen] == NUL
    }

    // The text and the cursor.
    function Document(): Doc
      requires bufLen <= buffer.Length
      reads this, buffer
    {
      Doc(buffer[..bufLen], cursor)
    }

    constructor ()
      ensures Valid() && Document() == Doc("", 0) && fresh(buffer)
    {
      buffer := new char[EM_BUF_SIZE](_ => NUL);
      bufLen, cursor := 0, 0;
    }

    // ---------- editing ----------

    method InsertChar(c: char)
      requires Valid()
      modifies this, buffer
      ensures Valid() && Document() == Insert(old(Document()), c)
    {
      if bufLen < EM_BUF_SIZE - 1 {
        ghost var d := Document();
        OpenGap(cursor);
        ghost var before, behind := buffer[..cursor], buffer[cursor + 1..bufLen + 1];
        buffer[cursor] := c;
        bufLen := bufLen + 1;
        cursor := cursor + 1;
        buffer[bufLen] := NUL;
        assert buffer[..bufLen] == before + [c] + behind;
        assert before == d.text[..d.cur] && behind == d.text[d.cur..];
      }
    }

    // The shift of an insertion: room for one character at position at.
    method OpenGap(at: nat)
      requires at <= bufLen < buffer.Length
      modifies buffer
      ensures buffer[..at] == old(buffer[..at]) && buffer[at + 1..bufLen + 1] == old(buffer[at..bufLen])
    {
      var k := bufLen;
      while k > at
        invariant at <= k <= bufLen
        invariant forall i :: 0 <= i <= k ==> buffer[i] == old(buffer[i])
        invariant forall i :: k < i <= bufLen ==> buffer[i] == old(buffer[i - 1])
      {
        buffer[k] := buffer[k - 1];
        k := k - 1;
      }
    }

    // The shift both deletions do: close the gap at position from.
    method CloseGap(from: nat)
      requires from < bufLen < buffer.Length
      modifies buffer
      ensures buffer[..bufLen - 1] == old(buffer[..from] + buffer[from + 1..bufLen])
    {
      var k := from;
      while k < bufLen - 1
        invariant from <= k <= bufLen - 1
        invariant forall i :: 0 <= i < from || k <= i < buffer.Length ==> buffer[i] == old(buffer[i])
        invariant forall i :: from <= i < k ==> buffer[i] == old(buffer[i + 1])
      {
        buffer[k] := buffer[k + 1];
        k := k + 1;
      }
    }

    method DeleteChar()
      requires Valid()
      modifies this, buffer
      ensures Valid() && Document() == Delete(old(Document()))
    {
      if cursor < bufLen {
        CloseGap(cursor);
        bufLen := bufLen - 1;
        buffer[bufLen] := NUL;
        assert buffer[..bufLen] == old(buffer[..cursor] + buffer[cursor + 1..bufLen]);
      }
    }

    method BackspaceChar()
      requires Valid()
      modifies this, buffer
      ensures Valid() && Document() == Backspace(old(Document()))
    {
      if cursor > 0 {
        CloseGap(cursor - 1);
        bufLen := bufLen - 1;
        cursor := cursor - 1;
        buffer[bufLen] := NUL;
        assert buffer[..bufLen] == old(buffer[..cursor - 1] + buffer[cursor..bufLen]);
      }
    }

    // ---------- moving ----------

    method MoveLeft()
      requires Valid()
      modifies this`cursor
      ensures Valid() && Document() == Left(old(Document()))
    {
      if cursor > 0 {
        cursor := cursor - 1;
      }
    }

    method MoveRight()
      requires Valid()
      modifies this`cursor
      ensures Valid() && Document() == Right(old(Document()))
    {
      if cursor < bufLen {
        cursor := cursor + 1;
      }
    }

    method FindLineStart(from: nat) returns (p: nat)
      requires Valid() && from <= bufLen
      ensures p == LineStart(buffer[..bufLen], from)
    {
      p := from;
      while p > 0 && buffer[p - 1] != '\n'
        invariant p <= from && LineStart(buffer[..bufLen], p) == LineStart(buffer[..bufLen], from)
      {
        p := p - 1;
      }
    }

    method FindLineEnd(from: nat) returns (p: nat)
      requires Valid() && from <= bufLen
      ensures p == LineEnd(buffer[..bufLen], from)
    {
      p := from;
      while p < bufLen && buffer[p] != '\n'
        invariant from <= p <= bufLen && LineEnd(buffer[..bufLen], p) == LineEnd(buffer[..bufLen], from)
      {
        p := p + 1;
      }
    }

    method MoveUp()
      requires Valid()
      modifies this`cursor
      ensures Valid() && Document() == Up(old(Document()))
    {
      var p := FindLineStart(cursor);
      if p > 0 {
        var prevEnd := p - 1;
        var prevStart := FindLineStart(prevEnd);
        var col := cursor - p;
        var prevLen := prevEnd - prevStart;
        if col > prevLen {
          col := prevLen;
        }
        cursor := prevStart + col;
      }
    }

    method MoveDown()
      requires Valid()
      modifies this`cursor
      ensures Valid() && Document() == Down(old(Document()))
    {
      hide LineStart, LineEnd;
      var p := FindLineEnd(cursor);
      if p < bufLen {
        var lineStart := FindLineStart(cursor);
        var col := cursor - lineStart;
        var nextStart := p + 1;
        var nextEnd := FindLineEnd(nextStart);
        var nextLen := nextEnd - nextStart;
        if col > nextLen {
          col := nextLen;
        }
        cursor := nextStart + col;
      }
    }

    method MoveHome()
      requires Valid()
      modifies this`cursor
      ensures Valid() && Document() == Home(old(Document()))
    {
      cursor := FindLineStart(cursor);
    }

    method MoveEnd()
      requires Valid()
      modifies this`cursor
      ensures Valid() && Document() == End(old(Document()))
    {
      cursor := FindLineEnd(cursor);
    }

    // ---------- keys ----------

    method PressKey(k: Key)
      requires Valid()
      modifies this, buffer
      ensures Valid() && Document() == Press(old(Document()), k)
    {
      match k {
        case UpKey => MoveUp();
        case DownKey => MoveDown();
        case LeftKey => MoveLeft();
        case RightKey => MoveRight();
        case HomeKey => MoveHome();
        case EndKey => MoveEnd();
        case DeleteKey => DeleteChar();
        case BackspaceKey => BackspaceChar();
        case EnterKey => InsertChar('\n');
        case TabKey =>
          InsertChar(' ');
          InsertChar(' ');
          InsertChar(' ');
          InsertChar(' ');
        case CharKey(code) =>
          if Printable(code) {
            InsertChar(code as char);
          }
      }
    }

    // Any run of keys does to the buffer what it does to a text with a cursor.
    method PressKeys(ks: seq<Key>)
      requires Valid()
      modifies this, buffer
      ensures Valid() && Document() == PressAll(old(Document()), ks)
    {
      var i := 0;
      while i < |ks|
        invariant i <= |ks| && Valid() && Document() == PressAll(old(Document()), ks[..i])
      {
        assert ks[..i + 1][..i] == ks[..i];
        PressKey(ks[i]);
        i := i + 1;
      }
      assert ks[..i] == ks;
    }

    // ---------- hopping ----------

    method SkipWord(from: nat, to: nat) returns (i: nat)
      requires Valid() && from <= to <= bufLen && (to == bufLen || !IsWordChar(buffer[to]))
      ensures from <= i <= to && i == WordEnd(buffer[..bufLen], from)
    {
      i := from;
      while i < to && IsWordChar(buffer[i])
        invariant from <= i <= to && WordEnd(buffer[..bufLen], i) == WordEnd(buffer[..bufLen], from)
      {
        i := i + 1;
      }
    }

    // One pass over whole words in [from, to): the first that is a typo.
    method Scan(typo: string -> bool, from: nat, to: nat) returns (found: bool, at: nat)
      requires Valid() && from <= to <= bufLen
      requires from == 0 || from == bufLen || !IsWordChar(buffer[from])
      requires to == bufLen || !IsWordChar(buffer[to])
      ensures found ==> from <= at < to && TypoStart(buffer[..bufLen], typo, at)
      ensures found ==> NoTypo(buffer[..bufLen], typo, from, at)
      ensures !found ==> NoTypo(buffer[..bufLen], typo, from, to)
    {
      hide NoTypo, TypoStart, WordEnd;
      var i := from;
      ghost var text := buffer[..bufLen];
      NothingYet(text, typo, from);
      while i < to
        invariant from <= i <= to && NoTypo(text, typo, from, i)
        invariant i == 0 || i >= bufLen || !IsWordChar(text[i]) || !IsWordChar(text[i - 1])
      {
        if IsWordChar(buffer[i]) {
          var start := i;
          i := SkipWord(start, to);
          var word := buffer[start..i];
          SliceOfPrefix(buffer[..], bufLen, start, i);
          if typo(word) {
            TypoHere(text, typo, start);
            return true, start;
          }
          PassWord(text, typo, from, start);
        } else {
          PassGap(text, typo, from, i);
          i := i + 1;
        }
      }
      return false, 0;
    }

    // The cursor goes to the next typo in cyclic order, if there is one. It ends up where it was if and
    // only if there is no typo, or none but the one it is on.
    method HopError(typo: string -> bool) returns (found: bool)
      requires Valid()
      modifies this`cursor
      ensures Valid() && buffer[..bufLen] == old(buffer[..bufLen])
      ensures found ==> HopsTo(buffer[..bufLen], typo, old(cursor), cursor)
      ensures !found ==> cursor == old(cursor) && NoTypo(buffer[..bufLen], typo, 0, bufLen)
      ensures cursor == old(cursor) <==> forall t: nat :: TypoStart(buffer[..bufLen], typo, t) ==> t == old(cursor)
    {
      ghost var text := buffer[..bufLen];
      var start := SkipWord(cursor, bufLen);
      var at;
      found, at := Scan(typo, start, bufLen);
      if found {
        cursor := at;
      } else {
        found, at := Scan(typo, 0, start);
        if found {
          cursor := at;
        }
      }
      if found {
        HopStays(text, typo, old(cursor), cursor);
      }
    }

    // ---------- the screen ----------

    method GetCursorRowCol() returns (row: nat, col: nat)
      requires Valid()
      ensures Pos(row, col) == PosAt(buffer[..bufLen], cursor)
    {
      row, col := 0, 0;
      var i := 0;
      while i < cursor && i < bufLen
        invariant i <= cursor && Pos(row, col) == PosAt(buffer[..bufLen], i)
      {
        if buffer[i] == '\n' {
          row := row + 1;
          col := 0;
        } else {
          col := col + 1;
          if col >= WIDTH {
            col := 0;
            row := row + 1;
          }
        }
        i := i + 1;
      }
    }

    // The inner loop of em_render: the characters of a word, as far as the screen goes.
    method DrawWord(screen: array<char>, start: nat, end: nat, row: nat, col: nat) returns (r: nat, c: nat)
      requires Valid() && screen.Length == CELLS && screen != buffer
      requires start <= end <= bufLen && row < TEXT_ROWS
      requires forall k :: start <= k < end ==> IsWordChar(buffer[k])
      requires Pos(row, col) == PosAt(buffer[..bufLen], start)
      requires screen[..] == Drawn(buffer[..bufLen], start)
      modifies screen
      ensures screen[..] == Drawn(buffer[..bufLen], end)
      ensures r < TEXT_ROWS ==> Pos(r, c) == PosAt(buffer[..bufLen], end)
      ensures r >= TEXT_ROWS ==> screen[..] == Drawn(buffer[..bufLen], bufLen)
    {
      ghost var text := buffer[..bufLen];
      r, c := row, col;
      var k := start;
      while k < end && r < TEXT_ROWS
        invariant start <= k <= end && buffer[..bufLen] == text
        invariant Pos(r, c) == PosAt(text, k) && screen[..] == Drawn(text, k)
      {
        r, c := DrawAt(screen, k, r, c);
        k := k + 1;
      }
      if r >= TEXT_ROWS {
        DrawnComplete(text, k, end);
        DrawnComplete(text, k, bufLen);
      }
    }

    // draw_cell for one character that is not a newline, and the step to the next cell.
    method DrawAt(screen: array<char>, k: nat, row: nat, col: nat) returns (r: nat, c: nat)
      requires Valid() && screen.Length == CELLS && screen != buffer
      requires k < bufLen && buffer[k] != '\n' && row < TEXT_ROWS
      requires Pos(row, col) == PosAt(buffer[..bufLen], k)
      requires screen[..] == Drawn(buffer[..bufLen], k)
      modifies screen
      ensures screen[..] == Drawn(buffer[..bufLen], k + 1)
      ensures Pos(r, c) == PosAt(buffer[..bufLen], k + 1)
    {
      screen[row * WIDTH + col] := buffer[k];
      r, c := row, col + 1;
      if c >= WIDTH {
        c := 0;
        r := r + 1;
      }
    }

    // The text part of em_render: words in one go, other characters one by one.
    method Render(screen: array<char>)
      requires Valid() && screen.Length == CELLS && screen != buffer
      modifies screen
      ensures screen[..] == Drawn(buffer[..bufLen], bufLen)
    {
      ghost var text := buffer[..bufLen];
      var x := 0;
      while x < CELLS
        invariant x <= CELLS && forall y :: 0 <= y < x ==> screen[y] == ' '
        invariant buffer[..bufLen] == text
      {
        screen[x] := ' ';
        x := x + 1;
      }
      assert screen[..] == Drawn(text, 0);
      var r: nat, c: nat, i: nat := 0, 0, 0;
      while i < bufLen && r < TEXT_ROWS
        invariant i <= bufLen && buffer[..bufLen] == text
        invariant screen[..] == Drawn(text, i)
        invariant r < TEXT_ROWS ==> Pos(r, c) == PosAt(text, i)
        invariant r >= TEXT_ROWS ==> screen[..] == Drawn(text, bufLen)
      {
        if IsWordChar(buffer[i]) {
          var start := i;
          i := SkipWord(start, bufLen);
          r, c := DrawWord(screen, start, i, r, c);
        } else if buffer[i] == '\n' {
          r, c, i := r + 1, 0, i + 1;
          if r >= TEXT_ROWS {
            DrawnComplete(text, i, bufLen);
          }
        } else {
          r, c := DrawAt(screen, i, r, c);
          i := i + 1;
          if r >= TEXT_ROWS {
            DrawnComplete(text, i, bufLen);
          }
        }
      }
    }

    // ---------- files ----------

    // em_save; the text goes to the file system, and the change log learns of it.
    method Save(fs: FileSystem, log: ChangeLog, name: string) returns (saved: bool)
      requires Valid() && fs.Valid() && log.Valid() && NUL !in name && |name| < 64
      modifies fs.files, log, log.log
      ensures Valid() && Document() == old(Document()) && fs.Valid() && log.Valid()
      ensures saved <==> name in old(fs.Table()) || |old(fs.Table())| < 64
      ensures !saved ==> fs.Table() == old(fs.Table()) && log.events == old(log.events)
      ensures saved ==> log.events == old(log.events) + [Cut("EDITED", "root", name)]
      ensures saved && (name in old(fs.Table()) ==> !old(fs.Table())[name].isDir) ==>
        && name in fs.Table() && !fs.Table()[name].isDir && fs.Table()[name].data == Document().text
        && fs.Table() - {name} == old(fs.Table()) - {name}
      ensures name in old(fs.Table()) && old(fs.Table())[name].isDir ==> fs.Table() == old(fs.Table())
    {
      hide TableOf, Unique, Flagged, LastOf;
      var f := fs.Lookup(name);
      if f.None? {
        var r := fs.Create(name);
        if r != 0 {
          return false;
        }
      }
      assert Take(buffer[..bufLen], FS_MAX_FILESIZE - 1) == buffer[..bufLen];
      var r := fs.Write(name, buffer[..bufLen]);
      log.Record("EDITED", "root", name);
      return true;
    }

    // The load part of em_run.
    method Load(fs: FileSystem, log: ChangeLog, name: string)
      requires fs.Valid() && log.Valid() && buffer.Length == EM_BUF_SIZE
      modifies this, buffer, log, log.log
      ensures Valid() && fs.Valid() && log.Valid() && fs.Table() == old(fs.Table())
      ensures log.events == old(log.events) + [Cut("VIEW", "root", name)]
      ensures Document() ==
        Doc(if name in fs.Table() then Take(fs.Table()[name].data, 2047) else "", 0)
    {
      hide TableOf, Unique, Flagged, LastOf;
      bufLen, cursor := 0, 0;
      log.Record("VIEW", "root", name);
      var f := fs.Lookup(name);
      if f.Some? {
        CopyIn(f.value.data);
      } else {
        buffer[0] := NUL;
      }
    }

    // Lines 712 to 717: at most 2047 characters are copied in.
    method CopyIn(data: string)
      requires buffer.Length == EM_BUF_SIZE
      modifies this`bufLen, buffer
      ensures bufLen < EM_BUF_SIZE && buffer[bufLen] == NUL && buffer[..bufLen] == Take(data, EM_BUF_SIZE - 1)
    {
      var n := |data|;
      if n >= EM_BUF_SIZE {
        n := EM_BUF_SIZE - 1;
      }
      var i := 0;
      while i < n
        invariant i <= n && buffer[..i] == data[..i]
      {
        buffer[i] := data[i];
        i := i + 1;
      }
      bufLen := n;
      buffer[bufLen] := NUL;
    }

    // Saving to a regular or new file and loading it again returns the same text, which the file then
    // holds; no other file changes, and both events are logged.
    method SaveThenLoad(fs: FileSystem, log: ChangeLog, name: string) returns (saved: bool)
      requires Valid() && fs.Valid() && log.Valid() && NUL !in name && |name| < 64
      requires name in fs.Table() ==> !fs.Table()[name].isDir
      modifies this, buffer, fs.files, log, log.log
      ensures Valid() && fs.Valid() && log.Valid()
      ensures saved <==> name in old(fs.Table()) || |old(fs.Table())| < 64
      ensures saved ==> Document() == Doc(old(Document()).text, 0)
      ensures saved ==> name in fs.Table() && !fs.Table()[name].isDir && fs.Table()[name].data == old(Document()).text
      ensures fs.Table() - {name} == old(fs.Table()) - {name}
      ensures saved ==> log.events == old(log.events) + [Cut("EDITED", "root", name)] + [Cut("VIEW", "root", name)]
      ensures !saved ==> Document() == old(Document()) && fs.Table() == old(fs.Table()) && log.events == old(log.events)
    {
      saved := Save(fs, log, name);
      if saved {
        assert Take(Document().text, EM_BUF_SIZE - 1) == Document().text;
        Load(fs, log, name);
      }
    }
  }
}
