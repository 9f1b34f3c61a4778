/** What the console shows, stated on the characters put out and the cells alone. */
module ConsoleLaws {
  import opened Console

  // ---------- text ----------

  // No line feed, return, tab or backspace.
  predicate Plain(c: char) {
    c != '\n' && c != '\r' && c != '\t' && c as int != 8
  }

  predicate PlainText(s: string) {
    forall i :: 0 <= i < |s| ==> Plain(s[i])
  }

  function Puts(s: string): seq<Event> {
    seq(|s|, i requires 0 <= i < |s| => PutChar(s[i]))
  }

  // The terminal shows s from its first cell on and nothing else, with the cursor behind it.
  ghost predicate ShowsText(t: Terminal, s: string) {
    && Sound(t) && 80 * t.row + t.col == |s|
    && forall y, x {:trigger t.rows[y][x]} :: 0 <= y < |t.rows| && 0 <= x < 80 ==>
         t.rows[y][x] == if 80 * y + x < |s| then s[80 * y + x] else ' '
  }

  lemma {:induction false} TextShown(s: string)
    requires PlainText(s)
    ensures ShowsText(Run(FreshTerminal(), Puts(s)), s)
  {
    if s != "" {
      var n := |s| - 1;
      TextShown(s[..n]);
      assert Puts(s)[..n] == Puts(s[..n]);
      OneMore(Run(FreshTerminal(), Puts(s[..n])), s[..n], s[n]);
      assert s == s[..n] + [s[n]];
    }
  }

  lemma OneMore(t: Terminal, s: string, c: char)
    requires ShowsText(t, s) && Plain(c)
    ensures ShowsText(Put(t, c), s + [c])
  {
    var r := Put(t, c);
    forall y, x | 0 <= y < |r.rows| && 0 <= x < 80
      ensures r.rows[y][x] == if 80 * y + x < |s + [c]| then (s + [c])[80 * y + x] else ' '
    {
      SameCell(y, x, t.row, t.col);
    }
  }

  lemma SameCell(y: nat, x: nat, y': nat, x': nat)
    requires x < 80 && x' < 80
    ensures 80 * y + x == 80 * y' + x' <==> y == y' && x == x'
  {
  }

  // Character k of a text is in row k / 80 at column k % 80, all other cells are blank, and there are no
  // more rows than 25 or than the cursor needs.
  lemma TextPlace(s: string)
    requires PlainText(s)
    ensures var t := Run(FreshTerminal(), Puts(s));
      && t.row == |s| / 80 && t.col == |s| % 80
      && |t.rows| == (if |s| / 80 < 25 then 25 else |s| / 80 + 1)
      && (forall k :: 0 <= k < |s| ==> k / 80 < |t.rows| && |t.rows[k / 80]| == 80 && t.rows[k / 80][k % 80] == s[k])
      && (forall y, x :: 0 <= y < |t.rows| && 0 <= x < |t.rows[y]| && 80 * y + x >= |s| ==> t.rows[y][x] == ' ')
  {
    TextShown(s);
    var t := Run(FreshTerminal(), Puts(s));
    forall k | 0 <= k < |s| ensures k / 80 < |t.rows| && t.rows[k / 80][k % 80] == s[k] {
      assert k == 80 * (k / 80) + k % 80;
      assert k / 80 <= t.row;
    }
  }

  // The screen after a text on a cleared console: its last 25 rows, and blanks behind it.
  method ShowText(screen: Screen, s: string)
    requires screen.cells.Length == 2000 && PlainText(s)
    modifies screen, screen.cells
    ensures screen.Valid() && 80 * screen.row + screen.col == |s| - 80 * Above(|s|)
    ensures forall k :: 0 <= k < 2000 ==>
      screen.cells[k] == if 80 * Above(|s|) + k < |s| then s[80 * Above(|s|) + k] else ' '
  {
    hide Run, Put;
    screen.ClearScreen();
    screen.Play(Puts(s));
    TextShown(s);
    forall k | 0 <= k < 2000
      ensures screen.cells[k] == if 80 * Above(|s|) + k < |s| then s[80 * Above(|s|) + k] else ' '
    {
      var y, x := k / 80, k % 80;
      assert k == 80 * y + x;
      screen.CellShows(y, x);
    }
  }

  // The rows of a text of n characters that have left the screen at the top.
  function Above(n: nat): nat {
    if n / 80 < 25 then 0 else n / 80 - 24
  }

  // ---------- cursor movements ----------

  // The rows of t are all there in r, as they were; rows r has beyond them are blank.
  ghost predicate RowsKept(t: Terminal, r: Terminal) {
    && t.rows <= r.rows
    && forall y :: |t.rows| <= y < |r.rows| ==> r.rows[y] == BlankRow()
  }

  // A cleared console: 25 blank rows of 80 columns, and the cursor in the corner.
  lemma Cleared(t: Terminal)
    requires Sound(t)
    ensures var r := Run(t, [Clear]);
      && r.row == 0 && r.col == 0 && |r.rows| == 25
      && forall y :: 0 <= y < 25 ==> |r.rows[y]| == 80 && forall x :: 0 <= x < 80 ==> r.rows[y][x] == ' '
  {
    RunOne(t, Clear);
  }

  lemma RunOne(t: Terminal, e: Event)
    requires Sound(t)
    ensures Run(t, [e]) == Step(t, e)
  {
    assert [e][..0] == [];
  }

  lemma RunTwo(t: Terminal, e: Event, f: Event)
    requires Sound(t)
    ensures Run(t, [e, f]) == Step(Step(t, e), f)
  {
    assert [e, f][..1] == [e];
    RunOne(t, e);
  }

  // A line feed goes to the start of the next row, a return to the start of the same; neither writes.
  lemma LineEnds(t: Terminal)
    requires Sound(t)
    ensures var r := Run(t, [PutChar('\n')]); r.row == t.row + 1 && r.col == 0 && RowsKept(t, r)
    ensures var r := Run(t, [PutChar('\r')]); r.row == t.row && r.col == 0 && r.rows == t.rows
  {
    RunOne(t, PutChar('\n'));
    RunOne(t, PutChar('\r'));
  }

  // A tab goes to the next multiple of 4, which behind column 75 is the start of the next row; it does
  // not write.
  lemma Tab(t: Terminal)
    requires Sound(t)
    ensures var r := Run(t, [PutChar('\t')]);
      && RowsKept(t, r)
      && if t.col < 76 then r.row == t.row && t.col < r.col <= t.col + 4 && r.col % 4 == 0
         else r.row == t.row + 1 && r.col == 0
  {
    RunOne(t, PutChar('\t'));
  }

  // A character and a backspace leave the cursor where it was and its cell blank, except in the last
  // column, where the character has already gone to the next row and the backspace does nothing.
  lemma PutThenErase(t: Terminal, c: char, e: Event)
    requires Sound(t) && Plain(c) && (e == Erase || e == PutChar(8 as char))
    ensures var r := Run(t, [PutChar(c), e]);
      if t.col < 79 then r == t.(rows := t.rows[t.row := t.rows[t.row][t.col := ' ']])
      else r.row == t.row + 1 && r.col == 0 && r.rows[t.row] == t.rows[t.row][79 := c]
  {
    hide Run, Sound;
    RunTwo(t, PutChar(c), e);
    if t.col < 79 {
      PutInRow(t, c);
      EraseInRow(Put(t, c));
      var row := t.rows[t.row];
      assert row[t.col := c][t.col := ' '] == row[t.col := ' '];
      assert t.rows[t.row := row[t.col := c]][t.row := row[t.col := ' ']] == t.rows[t.row := row[t.col := ' ']];
    } else {
      PutAtEnd(t, c);
    }
  }

  lemma PutInRow(t: Terminal, c: char)
    requires Sound(t) && Plain(c) && t.col < 79
    ensures t.row < |t.rows| && |t.rows[t.row]| == 80
    ensures Put(t, c) == Terminal(t.rows[t.row := t.rows[t.row][t.col := c]], t.row, t.col + 1)
  {
  }

  lemma EraseInRow(t: Terminal)
    requires Sound(t) && t.col > 0
    ensures t.row < |t.rows| && |t.rows[t.row]| == 80 && t.col < 80
    ensures Back(t) == Terminal(t.rows[t.row := t.rows[t.row][t.col - 1 := ' ']], t.row, t.col - 1)
  {
  }

  lemma PutAtEnd(t: Terminal, c: char)
    requires Sound(t) && Plain(c) && t.col >= 79
    ensures var r := Put(t, c);
      && t.row < |t.rows| && t.row < |r.rows| && |t.rows[t.row]| == 80
      && r.row == t.row + 1 && r.col == 0 && r.rows[t.row] == t.rows[t.row][79 := c]
  {
  }

  // A backspace never leaves the row, and at its start does nothing.
  lemma EraseAtStart(t: Terminal, e: Event)
    requires Sound(t) && t.col == 0 && (e == Erase || e == PutChar(8 as char))
    ensures Run(t, [e]) == t
  {
    RunOne(t, e);
  }
}
