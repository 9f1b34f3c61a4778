/** What the prompt does, stated on keys, lines and the list of commands alone. */
module HistoryLaws {
  import opened History

  lemma {:induction false} PressParts(s: Session, ks: seq<Key>, js: seq<Key>)
    requires Sound(s)
    ensures PressAll(s, ks + js) == PressAll(PressAll(s, ks), js)
  {
    if js == [] {
      assert ks + js == ks;
    } else {
      var n := |js| - 1;
      assert (ks + js)[..|ks + js| - 1] == ks + js[..n];
      PressParts(s, ks, js[..n]);
    }
  }

  lemma PressOne(s: Session, k: Key)
    requires Sound(s)
    ensures PressAll(s, [k]) == Press(s, k)
  {
    assert [k][..0] == [];
  }

  // A line that is entered is the newest command, added to the list unless it already was, and the next
  // Up brings it back.
  lemma EnterThenUp(s: Session)
    requires Sound(s) && s.line != ""
    ensures var r := PressAll(s, [Enter, Up]);
      && r.line == s.line && r.log != [] && r.log[|r.log| - 1] == s.line
      && r.log == if s.log != [] && s.log[|s.log| - 1] == s.line then s.log else s.log + [s.line]
  {
    hide PressAll, Press, Sound;
    assert [Enter, Up] == [Enter] + [Up];
    PressParts(s, [Enter], [Up]);
    PressOne(s, Enter);
    PressOne(Press(s, Enter), Up);
    Entered(s);
    Recalled(Press(s, Enter));
  }

  lemma Entered(s: Session)
    requires Sound(s) && s.line != ""
    ensures var r := Press(s, Enter);
      && r.back == 0 && r.log != [] && r.log[|r.log| - 1] == s.line
      && r.log == if s.log != [] && s.log[|s.log| - 1] == s.line then s.log else s.log + [s.line]
  {
  }

  lemma Recalled(s: Session)
    requires Sound(s) && s.back == 0 && s.log != []
    ensures var r := Press(s, Up); r.log == s.log && r.line == s.log[|s.log| - 1]
  {
  }

  // Entering leaves a blank prompt, from which Down does nothing; a blank line is not kept.
  lemma EnterClears(s: Session)
    requires Sound(s)
    ensures var r := PressAll(s, [Enter]);
      r.line == "" && PressAll(r, [Down]) == r && (s.line == "" ==> r.log == s.log)
  {
    PressOne(s, Enter);
    PressOne(Press(s, Enter), Down);
  }

  // A printable character goes to the end of a line that has fewer than 127; anything else is ignored.
  lemma Typed(s: Session, c: char)
    requires Sound(s)
    ensures var r := PressAll(s, [Char(c)]);
      && r.log == s.log && r.back == s.back
      && if 32 <= c as int <= 255 && c as int != 127 && |s.line| < 127
         then |r.line| == |s.line| + 1 && r.line[..|s.line|] == s.line && r.line[|s.line|] == c
         else r.line == s.line
  {
    PressOne(s, Char(c));
  }

  // Backspace takes the last character off, and leaves a blank line alone.
  lemma Rubbed(s: Session)
    requires Sound(s)
    ensures var r := PressAll(s, [Rubout]);
      && r.log == s.log && r.back == s.back
      && (s.line == "" ==> r.line == "")
      && (s.line != "" ==> |r.line| == |s.line| - 1 && r.line <= s.line)
  {
    PressOne(s, Rubout);
  }

  predicate Printable(s: string) {
    forall i :: 0 <= i < |s| ==> 32 <= s[i] as int <= 126
  }

  function Chars(s: string): seq<Key> {
    seq(|s|, i requires 0 <= i < |s| => Char(s[i]))
  }

  lemma {:induction false} TypeLine(s: Session, cmd: string)
    requires Sound(s) && s.line == "" && |cmd| <= 127 && Printable(cmd)
    ensures PressAll(s, Chars(cmd)) == s.(line := cmd)
  {
    if cmd != "" {
      var n := |cmd| - 1;
      assert Chars(cmd)[..n] == Chars(cmd[..n]);
      TypeLine(s, cmd[..n]);
      assert cmd == cmd[..n] + [cmd[n]];
    }
  }

  // Typing a command, entering it and pressing Up shows it again, and it is the newest in the list.
  lemma TypeEnterUp(s: Session, cmd: string)
    requires Sound(s) && s.line == "" && 0 < |cmd| <= 127 && Printable(cmd)
    ensures var r := PressAll(s, Chars(cmd) + [Enter, Up]);
      r.line == cmd && r.log != [] && r.log[|r.log| - 1] == cmd
  {
    PressParts(s, Chars(cmd), [Enter, Up]);
    TypeLine(s, cmd);
    EnterThenUp(s.(line := cmd));
  }

  // k presses of Up from the prompt show the k-th newest command, the 32nd at most, the oldest at most.
  lemma UpShows(s: Session, k: nat)
    requires Sound(s) && s.back == 0 && k > 0 && s.log != []
    ensures var total := |s.log|;
      PressAll(s, Repeat(Up, k)).line ==
      s.log[total - (if k <= total && k <= 32 then k else if total <= 32 then total else 32)]
  {
    UpMany(s, k);
  }
}
