/** What the editor's keys, words and screen do, stated on texts, positions and cells alone. */
module EditorLaws {
  import opened EditorText
  import opened EditorWords
  import opened EditorLayout

  // ---------- keys that write ----------

  lemma PressOne(d: Doc, k: Key)
    requires Ok(d)
    ensures PressAll(d, [k]) == Press(d, k)
  {
    assert [k][..0] == [];
  }

  // r is d with s put in at the cursor, which ends up behind it.
  predicate PutIn(d: Doc, s: string, r: Doc) {
    && |r.text| == |d.text| + |s| && r.cur == d.cur + |s| && d.cur <= |d.text|
    && r.text[..d.cur] == d.text[..d.cur]
    && r.text[d.cur..r.cur] == s
    && r.text[r.cur..] == d.text[d.cur..]
  }

  // A printable key puts its character in, Enter a newline, Tab four spaces, as long as there is room
  // for 2047 characters; other codes do nothing, and nothing happens to a full text.
  lemma WritingKeys(d: Doc, code: nat)
    requires Ok(d)
    ensures |d.text| < 2047 && 32 <= code <= 255 && code != 127 ==> PutIn(d, [code as char], PressAll(d, [CharKey(code)]))
    ensures |d.text| < 2047 ==> PutIn(d, "\n", PressAll(d, [EnterKey]))
    ensures |d.text| <= 2043 ==> PutIn(d, "    ", PressAll(d, [TabKey]))
    ensures code < 32 || code == 127 || code > 255 ==> PressAll(d, [CharKey(code)]) == d
    ensures |d.text| == 2047 ==> PressAll(d, [CharKey(code)]) == PressAll(d, [EnterKey]) == PressAll(d, [TabKey]) == d
  {
    PressOne(d, CharKey(code));
    PressOne(d, EnterKey);
    PressOne(d, TabKey);
    if |d.text| < 2047 && 32 <= code <= 255 && code != 127 {
      InsertPutsIn(d, code as char);
    }
    if |d.text| < 2047 {
      InsertPutsIn(d, '\n');
    }
    if |d.text| <= 2043 {
      FourSpaces(d);
    }
  }

  lemma InsertPutsIn(d: Doc, c: char)
    requires Ok(d) && |d.text| < 2047
    ensures PutIn(d, [c], Insert(d, c))
  {
  }

  lemma PutInBoth(d: Doc, s: string, r: Doc, c: char, r': Doc)
    requires PutIn(d, s, r) && PutIn(r, [c], r')
    ensures PutIn(d, s + [c], r')
  {
    assert r'.text[..d.cur] == r'.text[..r.cur][..d.cur];
    assert r'.text[d.cur..r.cur] == r'.text[..r.cur][d.cur..] == r.text[..r.cur][d.cur..] == s;
    assert r'.text[d.cur..r'.cur] == r'.text[d.cur..r.cur] + r'.text[r.cur..r'.cur];
  }

  lemma FourSpaces(d: Doc)
    requires Ok(d) && |d.text| <= 2043
    ensures PutIn(d, "    ", Press(d, TabKey))
  {
    hide PutIn, Insert;
    var d1 := Insert(d, ' ');
    var d2 := Insert(d1, ' ');
    var d3 := Insert(d2, ' ');
    InsertPutsIn(d, ' ');
    Room(d, " ", d1);
    InsertPutsIn(d1, ' ');
    PutInBoth(d, " ", d1, ' ', d2);
    assert " " + [' '] == "  ";
    Room(d, "  ", d2);
    InsertPutsIn(d2, ' ');
    PutInBoth(d, "  ", d2, ' ', d3);
    assert "  " + [' '] == "   ";
    Room(d, "   ", d3);
    InsertPutsIn(d3, ' ');
    PutInBoth(d, "   ", d3, ' ', Insert(d3, ' '));
    assert "   " + [' '] == "    ";
  }

  function Chars(s: string): seq<Key> {
    seq(|s|, i requires 0 <= i < |s| => CharKey(s[i] as int))
  }

  // Typing a text of printable characters puts it in at the cursor.
  lemma {:induction false} TypeText(d: Doc, s: string)
    requires Ok(d) && |d.text| + |s| <= 2047
    requires forall i :: 0 <= i < |s| ==> 32 <= s[i] as int <= 126
    ensures PutIn(d, s, PressAll(d, Chars(s)))
  {
    hide PutIn, Insert;
    if s != "" {
      var n := |s| - 1;
      TypeText(d, s[..n]);
      var r := PressAll(d, Chars(s[..n]));
      OneMoreKey(d, s);
      Room(d, s[..n], r);
      InsertPutsIn(r, s[n]);
      PutInBoth(d, s[..n], r, s[n], Insert(r, s[n]));
      assert s == s[..n] + [s[n]];
    } else {
      NothingTyped(d);
    }
  }

  lemma OneMoreKey(d: Doc, s: string)
    requires Ok(d) && s != "" && 32 <= s[|s| - 1] as int <= 126
    ensures PressAll(d, Chars(s)) == Insert(PressAll(d, Chars(s[..|s| - 1])), s[|s| - 1])
  {
    assert Chars(s)[..|s| - 1] == Chars(s[..|s| - 1]);
  }

  lemma NothingTyped(d: Doc)
    requires Ok(d)
    ensures PutIn(d, "", PressAll(d, Chars("")))
  {
    assert d.text[d.cur..d.cur] == "";
  }

  lemma Room(d: Doc, s: string, r: Doc)
    requires PutIn(d, s, r)
    ensures |r.text| == |d.text| + |s|
  {
  }

  // Delete takes out the character under the cursor, Backspace the one before it; the rest stays.
  lemma ErasingKeys(d: Doc)
    requires Ok(d)
    ensures var r := PressAll(d, [DeleteKey]);
      r.cur == d.cur && if d.cur == |d.text| then r == d
      else |r.text| == |d.text| - 1 && r.text[..d.cur] == d.text[..d.cur] && r.text[d.cur..] == d.text[d.cur + 1..]
    ensures var r := PressAll(d, [BackspaceKey]);
      if d.cur == 0 then r == d
      else (&& r.cur == d.cur - 1 && |r.text| == |d.text| - 1
            && r.text[..r.cur] == d.text[..r.cur] && r.text[r.cur..] == d.text[d.cur..])
  {
    PressOne(d, DeleteKey);
    PressOne(d, BackspaceKey);
  }

  // ---------- keys that move ----------

  predicate StartsLine(text: string, p: nat) {
    p <= |text| && (p > 0 ==> text[p - 1] == '\n')
  }

  predicate EndsLine(text: string, p: nat) {
    p <= |text| && (p < |text| ==> text[p] == '\n')
  }

  predicate OneLine(text: string, p: nat, q: nat) {
    p <= q <= |text| && forall k :: p <= k < q ==> text[k] != '\n'
  }

  // Left and Right go one character, Home and End to the ends of the line; none of them writes.
  lemma MovingKeys(d: Doc)
    requires Ok(d)
    ensures PressAll(d, [LeftKey]) == Doc(d.text, if d.cur == 0 then 0 else d.cur - 1)
    ensures PressAll(d, [RightKey]) == Doc(d.text, if d.cur == |d.text| then d.cur else d.cur + 1)
    ensures var r := PressAll(d, [HomeKey]); r.text == d.text && StartsLine(d.text, r.cur) && OneLine(d.text, r.cur, d.cur)
    ensures var r := PressAll(d, [EndKey]); r.text == d.text && EndsLine(d.text, r.cur) && OneLine(d.text, d.cur, r.cur)
  {
    PressOne(d, LeftKey);
    PressOne(d, RightKey);
    PressOne(d, HomeKey);
    PressOne(d, EndKey);
  }

  // Up goes from the line [s, e] to the line [a, s - 1] above it, to the same column or to its end.
  lemma UpGoes(d: Doc, s: nat, a: nat)
    requires Ok(d) && StartsLine(d.text, s) && OneLine(d.text, s, d.cur)
    requires s > 0 ==> a < s && StartsLine(d.text, a) && OneLine(d.text, a, s - 1)
    ensures var r := PressAll(d, [UpKey]);
      r.text == d.text && r.cur == if s == 0 then d.cur else if a + (d.cur - s) < s then a + (d.cur - s) else s - 1
  {
    hide LineStart;
    PressOne(d, UpKey);
    LineStartIs(d.text, d.cur, s);
    if s > 0 {
      LineStartIs(d.text, s - 1, a);
    }
  }

  // Down goes from the line [s, e] to the line [e + 1, z] below it, to the same column or to its end.
  lemma DownGoes(d: Doc, s: nat, e: nat, z: nat)
    requires Ok(d) && StartsLine(d.text, s) && OneLine(d.text, s, d.cur)
    requires EndsLine(d.text, e) && OneLine(d.text, d.cur, e)
    requires e < |d.text| ==> EndsLine(d.text, z) && OneLine(d.text, e + 1, z)
    ensures var r := PressAll(d, [DownKey]);
      r.text == d.text &&
      r.cur == if e == |d.text| then d.cur else if e + 1 + (d.cur - s) <= z then e + 1 + (d.cur - s) else z
  {
    hide LineStart, LineEnd;
    PressOne(d, DownKey);
    LineStartIs(d.text, d.cur, s);
    LineEndIs(d.text, d.cur, e);
    if e < |d.text| {
      LineEndIs(d.text, e + 1, z);
    }
  }

  // ---------- words ----------

  // The ASCII letters.
  predicate Letter(c: char) {
    65 <= c as int <= 90 || 97 <= c as int <= 122
  }

  // A word is judged as a whole: letters, with no letter before and none behind; nothing starts inside it.
  lemma WholeWord(a: string, w: string, b: string, typo: string -> bool)
    requires w != "" && forall i :: 0 <= i < |w| ==> Letter(w[i])
    requires (a != "" ==> !Letter(a[|a| - 1])) && (b != "" ==> !Letter(b[0]))
    ensures TypoStart(a + w + b, typo, |a|) <==> typo(w)
    ensures forall i :: |a| < i < |a| + |w| ==> !TypoStart(a + w + b, typo, i)
  {
    var text := a + w + b;
    assert forall i :: |a| <= i < |a| + |w| ==> text[i] == w[i - |a|] && IsWordChar(text[i]);
    WordEndIs(text, |a|, |a| + |w|);
    assert text[|a|..|a| + |w|] == w;
  }

  // No word starts where there is no letter.
  lemma NoWordThere(text: string, typo: string -> bool, i: nat)
    requires i < |text| && !Letter(text[i])
    ensures !TypoStart(text, typo, i)
  {
  }

  lemma WordEndIs(text: string, i: nat, e: nat)
    requires i <= e <= |text| && (e < |text| ==> !IsWordChar(text[e])) && forall k :: i <= k < e ==> IsWordChar(text[k])
    ensures WordEnd(text, i) == e
  {
  }

  // A hop goes on to the nearest typo behind the cursor; where there is none, to the first of the text.
  lemma HopGoesOn(text: string, typo: string -> bool, cur: nat, target: nat)
    requires HopsTo(text, typo, cur, target)
    ensures TypoStart(text, typo, target)
    ensures (exists t: nat :: TypoStart(text, typo, t) && t > cur) <==> target > cur
    ensures forall t: nat :: TypoStart(text, typo, t) && t > cur ==> cur < target <= t
    ensures target <= cur ==> forall t: nat :: TypoStart(text, typo, t) ==> target <= t
  {
    forall t: nat | TypoStart(text, typo, t) && t > cur ensures cur < target <= t {
      assert t < |text|;
      assert !(cur + 1 <= t < target) && (target <= cur ==> !(cur + 1 <= t < |text|));
    }
    if target <= cur {
      forall t: nat | TypoStart(text, typo, t) ensures target <= t {
        assert !(0 <= t < target);
      }
    }
  }

  // ---------- the screen ----------

  predicate NoNewline(s: string) {
    forall i :: 0 <= i < |s| ==> s[i] != '\n'
  }

  // Without newlines character i is in row i / 80 at column i % 80.
  lemma {:induction false} RowAndColumn(text: string, i: nat)
    requires i <= |text| && NoNewline(text[..i])
    ensures PosAt(text, i) == Pos(i / 80, i % 80)
  {
    if i > 0 {
      assert text[..i][i - 1] == text[i - 1] && text[..i][..i - 1] == text[..i - 1];
      assert forall k :: 0 <= k < i - 1 ==> text[..i - 1][k] == text[..i][k];
      RowAndColumn(text, i - 1);
    }
  }

  // A newline goes down one row to its start, and the characters behind it go on from there.
  lemma {:induction false} RowAfterNewline(a: string, b: string, k: nat)
    requires k <= |b| && NoNewline(b[..k])
    ensures PosAt(a + "\n" + b, |a| + 1 + k) == Pos(PosAt(a, |a|).row + 1 + k / 80, k % 80)
  {
    var text := a + "\n" + b;
    if k > 0 {
      assert b[..k][k - 1] == b[k - 1];
      assert forall j :: 0 <= j < k - 1 ==> b[..k - 1][j] == b[..k][j];
      RowAfterNewline(a, b, k - 1);
      assert text[|a| + k] == b[k - 1];
    } else {
      SamePosition(a, text, |a|);
      assert text[|a|] == '\n';
    }
  }

  lemma {:induction false} SamePosition(a: string, b: string, i: nat)
    requires i <= |a| && i <= |b| && a[..i] == b[..i]
    ensures PosAt(a, i) == PosAt(b, i)
  {
    if i > 0 {
      assert a[..i - 1] == a[..i][..i - 1] && b[..i - 1] == b[..i][..i - 1];
      assert a[i - 1] == a[..i][i - 1] && b[i - 1] == b[..i][i - 1];
      SamePosition(a, b, i - 1);
    }
  }

  // The 1840 text cells show the first 1840 characters of a text without newlines, and blanks behind it.
  lemma PlainScreen(text: string, k: nat)
    requires NoNewline(text) && k < 1840
    ensures |Drawn(text, |text|)| == 1840
    ensures Drawn(text, |text|)[k] == if k < |text| then text[k] else ' '
  {
    hide Drawn, PosAt;
    forall j: nat | j < |text| ensures PosAt(text, j) == Pos(j / 80, j % 80) && Cell(PosAt(text, j)) == j {
      RowAndColumn(text, j);
    }
    if k < |text| {
      assert Visible(text, k);
      DrawnWhere(text, |text|, k);
    } else {
      DrawnOnlyThere(text, |text|, k);
    }
  }
}
