/** Where characters appear on the editor's screen: the cursor's character-by-character computation
    and the grid the renderer fills. */
module EditorLayout {
  import opened Common

  const TEXT_ROWS: nat := 23
  const CELLS: nat := TEXT_ROWS * WIDTH

  // A row and a column.
  datatype Pos = Pos(row: nat, col: nat)

  // Where the next character goes after c was put at p.
  function After(p: Pos, c: char): (r: Pos)
    ensures p.col < WIDTH ==> r.col < WIDTH
  {
    if c == '\n' then Pos(p.row + 1, 0)
    else if p.col + 1 >= WIDTH then Pos(p.row + 1, 0)
    else Pos(p.row, p.col + 1)
  }

  // The position of character i, scanning character by character.
  function PosAt(text: string, i: nat): (p: Pos)
    requires i <= |text|
    ensures p.col < WIDTH
  {
    if i == 0 then Pos(0, 0) else After(PosAt(text, i - 1), text[i - 1])
  }

  function Cell(p: Pos): nat {
    p.row * WIDTH + p.col
  }

  // Later characters have later cells.
  lemma {:induction false} CellsIncrease(text: string, i: nat, j: nat)
    requires i < j <= |text|
    ensures Cell(PosAt(text, i)) < Cell(PosAt(text, j))
    ensures PosAt(text, i).row <= PosAt(text, j).row
    decreases j
  {
    if i + 1 < j {
      CellsIncrease(text, i, j - 1);
    }
  }

  function Blank(n: nat): string {
    seq(n, _ => ' ')
  }

  // The text rows after the first n characters have been drawn.
  function Drawn(text: string, n: nat): (s: string)
    requires n <= |text|
    ensures |s| == CELLS
  {
    if n == 0 then Blank(CELLS)
    else
      var p := PosAt(text, n - 1);
      if text[n - 1] == '\n' || p.row >= TEXT_ROWS then Drawn(text, n - 1)
      else Drawn(text, n - 1)[Cell(p) := text[n - 1]]
  }

  // Character k is on the screen.
  predicate Visible(text: string, k: nat) {
    k < |text| && text[k] != '\n' && PosAt(text, k).row < TEXT_ROWS
  }

  // Once a position is below the screen, nothing more is drawn.
  lemma {:induction false} DrawnComplete(text: string, n: nat, m: nat)
    requires n <= m <= |text| && (PosAt(text, n).row >= TEXT_ROWS || n == m)
    ensures Drawn(text, m) == Drawn(text, n)
    decreases m
  {
    if n < m {
      DrawnComplete(text, n, m - 1);
      if n < m - 1 {
        CellsIncrease(text, n, m - 1);
      }
    }
  }

  // ---------- agreement ----------

  lemma {:induction false} DrawnWhere(text: string, n: nat, k: nat)
    requires k < n <= |text| && Visible(text, k)
    ensures Cell(PosAt(text, k)) < CELLS && Drawn(text, n)[Cell(PosAt(text, k))] == text[k]
  {
    if k < n - 1 {
      DrawnWhere(text, n - 1, k);
      CellsIncrease(text, k, n - 1);
    }
  }

  lemma {:induction false} DrawnOnlyThere(text: string, n: nat, x: nat)
    requires n <= |text| && x < CELLS
    requires forall k :: 0 <= k < n && Visible(text, k) ==> Cell(PosAt(text, k)) != x
    ensures Drawn(text, n)[x] == ' '
  {
    if n > 0 {
      DrawnOnlyThere(text, n - 1, x);
      assert text[n - 1] != '\n' && PosAt(text, n - 1).row < TEXT_ROWS ==> Visible(text, n - 1);
    }
  }

  // Every visible character is in exactly the cell its cursor position names, no two share a cell,
  // and all other cells are blank.
  lemma LayoutAgreement(text: string)
    ensures forall k: nat :: Visible(text, k) ==>
      Cell(PosAt(text, k)) < CELLS && Drawn(text, |text|)[Cell(PosAt(text, k))] == text[k]
    ensures forall i, j :: 0 <= i < j < |text| ==> PosAt(text, i) != PosAt(text, j)
    ensures forall x :: 0 <= x < CELLS && (forall k: nat :: Visible(text, k) ==> Cell(PosAt(text, k)) != x) ==>
      Drawn(text, |text|)[x] == ' '
  {
    forall k: nat | Visible(text, k)
      ensures Cell(PosAt(text, k)) < CELLS && Drawn(text, |text|)[Cell(PosAt(text, k))] == text[k]
    {
      DrawnWhere(text, |text|, k);
    }
    forall i, j | 0 <= i < j < |text| ensures PosAt(text, i) != PosAt(text, j) {
      CellsIncrease(text, i, j);
    }
    forall x | 0 <= x < CELLS && (forall k: nat :: Visible(text, k) ==> Cell(PosAt(text, k)) != x)
      ensures Drawn(text, |text|)[x] == ' '
    {
      DrawnOnlyThere(text, |text|, x);
    }
  }
}
