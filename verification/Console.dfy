/** The text console: a window of 25 rows that shows the bottom of a terminal of unbounded height. */
module Console {
  import opened Common

  const HEIGHT: nat := 25
  const BACKSPACE: char := 8 as char

  // ---------- the unbounded terminal ----------

  // Rows from the top of the session down; the last 25 are the ones a screen would show.
  datatype Terminal = Terminal(rows: seq<string>, row: nat, col: nat)

  function BlankRow(): string {
    seq(WIDTH, _ => ' ')
  }

  function FreshTerminal(): Terminal {
    Terminal(seq(HEIGHT, _ => BlankRow()), 0, 0)
  }

  // The cursor is on a row there is, and rows are added only when the cursor needs them.
  ghost predicate Sound(t: Terminal) {
    && |t.rows| == (if t.row < HEIGHT then HEIGHT else t.row + 1)
    && t.col < WIDTH
    && forall y :: 0 <= y < |t.rows| ==> |t.rows[y]| == WIDTH
  }

  function NewLine(t: Terminal): (r: Terminal)
    requires Sound(t)
    ensures Sound(r)
  {
    Terminal(if t.row + 1 < |t.rows| then t.rows else t.rows + [BlankRow()], t.row + 1, 0)
  }

  function PutAt(t: Terminal, col: nat, c: char): (r: Terminal)
    requires Sound(t) && col < WIDTH
    ensures Sound(r) && Top(r) == Top(t)
  {
    t.(rows := t.rows[t.row := t.rows[t.row][col := c]])
  }

  function Back(t: Terminal): (r: Terminal)
    requires Sound(t)
    ensures Sound(r)
  {
    if t.col > 0 then PutAt(t, t.col - 1, ' ').(col := t.col - 1) else t
  }

  function MoveTo(t: Terminal, col: nat): (r: Terminal)
    requires Sound(t)
    ensures Sound(r) && (col < WIDTH ==> Top(r) == Top(t))
  {
    if col >= WIDTH then NewLine(t) else t.(col := col)
  }

  function Put(t: Terminal, c: char): (r: Terminal)
    requires Sound(t)
    ensures Sound(r)
  {
    if c == '\n' then NewLine(t)
    else if c == '\r' then t.(col := 0)
    else if c == BACKSPACE then Back(t)
    else if c == '\t' then MoveTo(t, (t.col + 4) / 4 * 4)
    else MoveTo(PutAt(t, t.col, c), t.col + 1)
  }

  // What a client can do to the console.
  datatype Event = PutChar(c: char) | Erase | Clear

  function Step(t: Terminal, e: Event): (r: Terminal)
    requires Sound(t)
    ensures Sound(r)
  {
    match e
    case PutChar(c) => Put(t, c)
    case Erase => Back(t)
    case Clear => FreshTerminal()
  }

  function Run(t: Terminal, es: seq<Event>): (r: Terminal)
    requires Sound(t)
    ensures Sound(r)
  {
    if es == [] then t else Step(Run(t, es[..|es| - 1]), es[|es| - 1])
  }

  // ---------- the screen ----------

  // The first row of the terminal that is on the screen.
  function Top(t: Terminal): nat
    requires Sound(t)
  {
    |t.rows| - HEIGHT
  }

  function At(y: nat, x: nat): nat {
    y * WIDTH + x
  }

  // The cells show the rows of the terminal from top on.
  ghost predicate Shows(cells: seq<char>, rows: seq<string>, top: nat) {
    && |cells| == HEIGHT * WIDTH && |rows| >= top + HEIGHT
    && (forall y :: 0 <= y < |rows| ==> |rows[y]| == WIDTH)
    && forall y, x :: 0 <= y < HEIGHT && 0 <= x < WIDTH ==> cells[At(y, x)] == rows[top + y][x]
  }

  class Screen {
    const cells: array<char>
    var row: nat
    var col: nat
    ghost var term: Terminal

    // The screen and the cursor are the bottom of the terminal.
    ghost predicate Valid()
      reads this, cells
    {
      && Sound(term) && Shows(cells[..], term.rows, Top(term))
      && row == term.row - Top(term) && col == term.col
      && row < HEIGHT && col < WIDTH
    }

    // Where the cells of the last 25 rows are.
    lemma CellShows(y: nat, x: nat)
      requires Valid() && y < 25 && x < 80
      ensures cells.Length == 2000 && |term.rows| >= 25
      ensures |term.rows[|term.rows| - 25 + y]| == 80
      ensures cells[80 * y + x] == term.rows[|term.rows| - 25 + y][x]
    {
      assert cells[..][At(y, x)] == term.rows[Top(term) + y][x];
    }

    constructor ()
      ensures Valid() && term == FreshTerminal() && fresh(cells)
    {
      cells := new char[HEIGHT * WIDTH](_ => ' ');
      row, col, term := 0, 0, FreshTerminal();
    }

    method ClearScreen()
      requires cells.Length == HEIGHT * WIDTH
      modifies this, cells
      ensures Valid() && term == FreshTerminal()
    {
      var y := 0;
      while y < HEIGHT
        invariant y <= HEIGHT && forall k :: 0 <= k < At(y, 0) ==> cells[k] == ' '
      {
        var x := 0;
        while x < WIDTH
          invariant x <= WIDTH && forall k :: 0 <= k < At(y, x) ==> cells[k] == ' '
        {
          cells[At(y, x)] := ' ';
          x := x + 1;
        }
        y := y + 1;
      }
      row, col, term := 0, 0, FreshTerminal();
    }

    // The copying loops of vga_scroll: every row moves up by one and the last becomes blank.
    method ShiftUp(ghost rows: seq<string>, ghost top: nat)
      requires |rows| == top + HEIGHT && Shows(cells[..], rows, top)
      modifies cells
      ensures Shows(cells[..], rows + [BlankRow()], top + 1)
    {
      ghost var more := rows + [BlankRow()];
      var y := 0;
      while y < HEIGHT - 1
        invariant y <= HEIGHT - 1
        invariant RowsShown(cells[..], rows, top + 1, 0, y) && RowsShown(cells[..], rows, top, y, HEIGHT)
      {
        CopyRowUp(y, rows, top);
        y := y + 1;
      }
      var x := 0;
      while x < WIDTH
        invariant x <= WIDTH && RowsShown(cells[..], rows, top + 1, 0, y)
        invariant forall k :: 0 <= k < x ==> cells[At(y, k)] == ' '
      {
        cells[At(y, x)] := ' ';
        x := x + 1;
      }
    }

    // One row copied over the row above it.
    method CopyRowUp(y: nat, ghost rows: seq<string>, ghost top: nat)
      requires y < HEIGHT - 1 && |rows| == top + HEIGHT
      requires RowsShown(cells[..], rows, top + 1, 0, y) && RowsShown(cells[..], rows, top, y, HEIGHT)
      modifies cells
      ensures RowsShown(cells[..], rows, top + 1, 0, y + 1) && RowsShown(cells[..], rows, top, y + 1, HEIGHT)
    {
      var x := 0;
      while x < WIDTH
        invariant x <= WIDTH
        invariant RowsShown(cells[..], rows, top + 1, 0, y) && RowsShown(cells[..], rows, top, y + 1, HEIGHT)
        invariant forall k :: 0 <= k < x ==> cells[At(y, k)] == rows[top + 1 + y][k]
      {
        cells[At(y, x)] := cells[At(y + 1, x)];
        x := x + 1;
      }
    }

    // vga_scroll: nothing unless the cursor has left the last row.
    method Scroll()
      requires Sound(term) && col == term.col && col < WIDTH
      requires if row < HEIGHT then row == term.row - Top(term) && Shows(cells[..], term.rows, Top(term))
               else row == HEIGHT && Scrolled(cells[..], term)
      modifies cells, this`row
      ensures Valid()
    {
      if row >= HEIGHT {
        ShiftUp(term.rows[..|term.rows| - 1], Top(term) - 1);
        row := HEIGHT - 1;
      }
    }

    // vga_backspace.
    method EraseChar()
      requires Valid()
      modifies this, cells
      ensures Valid() && term == Back(old(term))
    {
      if col > 0 {
        col := col - 1;
        ghost var t := term;
        Write(' ');
        term := Back(t);
      }
    }

    // A character stored under the cursor.
    method Write(c: char)
      requires Sound(term) && Shows(cells[..], term.rows, Top(term))
      requires row < HEIGHT && col < WIDTH && row == term.row - Top(term)
      modifies cells
      ensures Shows(cells[..], PutAt(term, col, c).rows, Top(term))
    {
      cells[At(row, col)] := c;
    }

    // vga_putchar.
    method PutCharacter(c: char)
      requires Valid()
      modifies this, cells
      ensures Valid() && term == Put(old(term), c)
    {
      hide Shows, Scrolled, BlankRow, Sound, Top;
      ghost var t := term;
      LineFeed(cells[..], t);
      if c == '\n' {
        col := 0;
        row := row + 1;
        term := NewLine(t);
      } else if c == '\r' {
        col := 0;
        term := MoveTo(t, 0);
      } else if c == BACKSPACE {
        EraseChar();
        return;
      } else if c == '\t' {
        col := (col + 4) / 4 * 4;
        term := MoveTo(t, col);
      } else {
        Write(c);
        LineFeed(cells[..], PutAt(t, col, c));
        term := MoveTo(PutAt(t, col, c), col + 1);
        col := col + 1;
      }
      if col >= WIDTH {
        col := 0;
        row := row + 1;
      }
      Scroll();
    }

    // Any run of the console shows the bottom of what the terminal makes of the same events.
    method Play(events: seq<Event>)
      requires Valid()
      modifies this, cells
      ensures Valid() && term == Run(old(term), events)
    {
      var i := 0;
      while i < |events|
        invariant i <= |events| && Valid() && term == Run(old(term), events[..i])
      {
        assert events[..i + 1][..i] == events[..i];
        match events[i] {
          case PutChar(c) => PutCharacter(c);
          case Erase => EraseChar();
          case Clear => ClearScreen();
        }
        i := i + 1;
      }
      assert events[..i] == events;
    }
  }

  // Screen rows lo to hi show the terminal rows from top on.
  ghost predicate RowsShown(cells: seq<char>, rows: seq<string>, top: nat, lo: nat, hi: nat) {
    && |cells| == HEIGHT * WIDTH && hi <= HEIGHT && |rows| >= top + hi
    && (forall y :: 0 <= y < |rows| ==> |rows[y]| == WIDTH)
    && forall y, x :: lo <= y < hi && 0 <= x < WIDTH ==> cells[At(y, x)] == rows[top + y][x]
  }

  // The cursor has moved to a new last row that the screen does not show yet.
  ghost predicate Scrolled(cells: seq<char>, t: Terminal)
    requires Sound(t)
  {
    && t.row >= HEIGHT && t.row == |t.rows| - 1 && t.rows[t.row] == BlankRow()
    && Shows(cells, t.rows[..t.row], Top(t) - 1)
  }

  // A line feed either moves the cursor on the screen or leaves its last row to be scrolled in.
  lemma LineFeed(cells: seq<char>, t: Terminal)
    requires Sound(t) && Shows(cells, t.rows, Top(t))
    ensures var r := NewLine(t);
      if t.row - Top(t) + 1 < HEIGHT then r.row - Top(r) == t.row - Top(t) + 1 && Shows(cells, r.rows, Top(r))
      else t.row - Top(t) + 1 == HEIGHT && Scrolled(cells, r)
  {
    var r := NewLine(t);
    if t.row + 1 == |t.rows| {
      assert r.rows[..r.row] == t.rows;
    }
  }
}
