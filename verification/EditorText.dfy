/** The editor's document as a value: a text and a cursor, and what each key does to them. */
module EditorText {
  import opened Common

  const EM_BUF_SIZE: nat := 2048

  datatype Doc = Doc(text: string, cur: nat)

  predicate Ok(d: Doc) {
    d.cur <= |d.text| < EM_BUF_SIZE
  }

  // ---------- editing ----------

  function Insert(d: Doc, c: char): (r: Doc)
    requires Ok(d)
    ensures Ok(r)
  {
    if |d.text| == EM_BUF_SIZE - 1 then d
    else Doc(d.text[..d.cur] + [c] + d.text[d.cur..], d.cur + 1)
  }

  function Delete(d: Doc): (r: Doc)
    requires Ok(d)
    ensures Ok(r)
  {
    if d.cur == |d.text| then d else Doc(d.text[..d.cur] + d.text[d.cur + 1..], d.cur)
  }

  function Backspace(d: Doc): (r: Doc)
    requires Ok(d)
    ensures Ok(r)
  {
    if d.cur == 0 then d else Doc(d.text[..d.cur - 1] + d.text[d.cur..], d.cur - 1)
  }

  // ---------- moving ----------

  function Left(d: Doc): Doc {
    if d.cur > 0 then d.(cur := d.cur - 1) else d
  }

  function Right(d: Doc): Doc {
    if d.cur < |d.text| then d.(cur := d.cur + 1) else d
  }

  // The start of the line that position p is on.
  function LineStart(text: string, p: nat): (q: nat)
    requires p <= |text|
    ensures q <= p && (q > 0 ==> text[q - 1] == '\n')
    ensures forall k :: q <= k < p ==> text[k] != '\n'
  {
    if p > 0 && text[p - 1] != '\n' then LineStart(text, p - 1) else p
  }

  // The end of that line: its newline, or the end of the text.
  function LineEnd(text: string, p: nat): (q: nat)
    requires p <= |text|
    ensures p <= q <= |text| && (q < |text| ==> text[q] == '\n')
    ensures forall k :: p <= k < q ==> text[k] != '\n'
    decreases |text| - p
  {
    if p < |text| && text[p] != '\n' then LineEnd(text, p + 1) else p
  }

  function Up(d: Doc): (r: Doc)
    requires Ok(d)
    ensures Ok(r)
  {
    var p := LineStart(d.text, d.cur);
    if p == 0 then d
    else
      var start := LineStart(d.text, p - 1);
      d.(cur := start + Min(d.cur - p, p - 1 - start))
  }

  function Down(d: Doc): (r: Doc)
    requires Ok(d)
    ensures Ok(r)
  {
    var p := LineEnd(d.text, d.cur);
    if p == |d.text| then d
    else
      var start := LineStart(d.text, d.cur);
      var end := LineEnd(d.text, p + 1);
      d.(cur := p + 1 + Min(d.cur - start, end - (p + 1)))
  }

  function Home(d: Doc): (r: Doc)
    requires Ok(d)
    ensures Ok(r)
  {
    d.(cur := LineStart(d.text, d.cur))
  }

  function End(d: Doc): (r: Doc)
    requires Ok(d)
    ensures Ok(r)
  {
    d.(cur := LineEnd(d.text, d.cur))
  }

  // ---------- keys ----------

  datatype Key = UpKey | DownKey | LeftKey | RightKey | HomeKey | EndKey | DeleteKey | BackspaceKey
    | EnterKey | TabKey | CharKey(code: nat)

  predicate Printable(code: nat) {
    32 <= code <= 255 && code != 127
  }

  // The direct writing mode of em_run; a tab is four spaces, unprintable codes do nothing.
  function Press(d: Doc, k: Key): (r: Doc)
    requires Ok(d)
    ensures Ok(r)
  {
    match k
    case UpKey => Up(d)
    case DownKey => Down(d)
    case LeftKey => Left(d)
    case RightKey => Right(d)
    case HomeKey => Home(d)
    case EndKey => End(d)
    case DeleteKey => Delete(d)
    case BackspaceKey => Backspace(d)
    case EnterKey => Insert(d, '\n')
    case TabKey => Insert(Insert(Insert(Insert(d, ' '), ' '), ' '), ' ')
    case CharKey(code) => if Printable(code) then Insert(d, code as char) else d
  }

  function PressAll(d: Doc, ks: seq<Key>): (r: Doc)
    requires Ok(d)
    ensures Ok(r)
  {
    if ks == [] then d else Press(PressAll(d, ks[..|ks| - 1]), ks[|ks| - 1])
  }

  // ---------- laws ----------

  lemma InsertThenBackspace(d: Doc, c: char)
    requires Ok(d)
    ensures |d.text| < EM_BUF_SIZE - 1 ==> Backspace(Insert(d, c)) == d
  {
    if |d.text| < EM_BUF_SIZE - 1 {
      var i := Insert(d, c);
      assert i.text[..i.cur - 1] == d.text[..d.cur] && i.text[i.cur..] == d.text[d.cur..];
      assert d.text[..d.cur] + d.text[d.cur..] == d.text;
    }
  }

  lemma LeftThenDelete(d: Doc)
    requires Ok(d) && d.cur > 0
    ensures Delete(Left(d)) == Backspace(d)
  {
  }

  lemma LineStartIs(text: string, p: nat, q: nat)
    requires q <= p <= |text| && (q > 0 ==> text[q - 1] == '\n') && forall k :: q <= k < p ==> text[k] != '\n'
    ensures LineStart(text, p) == q
  {
  }

  lemma LineEndIs(text: string, p: nat, q: nat)
    requires p <= q <= |text| && (q < |text| ==> text[q] == '\n') && forall k :: p <= k < q ==> text[k] != '\n'
    ensures LineEnd(text, p) == q
  {
  }

  // From any line but the first, up then down comes back exactly when the line above is at least as
  // long as the cursor's column.
  lemma UpThenDown(d: Doc)
    requires Ok(d) && LineStart(d.text, d.cur) > 0
    ensures var p := LineStart(d.text, d.cur);
      var above := LineStart(d.text, p - 1);
      Down(Up(d)) == d <==> d.cur - p <= p - 1 - above
  {
    hide LineStart, LineEnd;
    var p := LineStart(d.text, d.cur);
    var above := LineStart(d.text, p - 1);
    var u := Up(d);
    LineStartIs(d.text, u.cur, above);
    LineEndIs(d.text, u.cur, p - 1);
    var end := LineEnd(d.text, d.cur);
    LineEndIs(d.text, p, end);
  }

  // Down then up, likewise, with the line below.
  lemma DownThenUp(d: Doc)
    requires Ok(d) && LineEnd(d.text, d.cur) < |d.text|
    ensures var below := LineEnd(d.text, d.cur) + 1;
      Up(Down(d)) == d <==> d.cur - LineStart(d.text, d.cur) <= LineEnd(d.text, below) - below
  {
    hide LineStart, LineEnd;
    var start, p := LineStart(d.text, d.cur), LineEnd(d.text, d.cur);
    var w := Down(d);
    LineStartIs(d.text, w.cur, p + 1);
    LineStartIs(d.text, p, start);
  }
}
