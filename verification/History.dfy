/** The shell's command history: a ring of 32 entries that stands for the whole list of commands, and the
    line being typed, which the ring fills in. */
module History {
  import opened Common
  import opened CStrings

  const HIST_MAX: nat := 32
  const CMD_MAX_LEN: nat := 128

  // ---------- the session the ring stands for ----------

  // Every command so far, how many commands the user has gone back, and the line on the screen.
  datatype Session = Session(log: seq<string>, back: nat, line: string)

  datatype Key = Up | Down | Enter | Rubout | Char(c: char)

  // The number of commands that can be recalled.
  function Depth(total: nat): nat {
    Min(total, HIST_MAX)
  }

  // What one more command line does to the list: blank lines and repeats are not kept.
  function Extended(log: seq<string>, cmd: string): seq<string> {
    if cmd == "" || (log != [] && log[|log| - 1] == cmd) then log else log + [cmd]
  }

  ghost predicate NoAdjacentRepeats(log: seq<string>) {
    forall i, j :: 0 <= i && j == i + 1 && j < |log| ==> log[i] != log[j]
  }

  predicate IsLine(s: string) {
    |s| < CMD_MAX_LEN && NUL !in s
  }

  ghost predicate Sound(s: Session) {
    && s.back <= Depth(|s.log|) && IsLine(s.line) && NoAdjacentRepeats(s.log)
    && forall c :: c in s.log ==> c != "" && IsLine(c)
  }

  predicate Accepts(c: char) {
    32 as char <= c <= 255 as char && c != 127 as char
  }

  // The k-th newest command, or the blank line for none.
  function Newest(log: seq<string>, k: nat): string
    requires k <= |log|
  {
    if k == 0 then "" else log[|log| - k]
  }

  function Press(s: Session, k: Key): (r: Session)
    requires Sound(s)
    ensures Sound(r)
  {
    match k
    case Up =>
      if s.log == [] then s
      else
        var b := Min(s.back + 1, Depth(|s.log|));
        Session(s.log, b, Newest(s.log, b))
    case Down => if s.back == 0 then s else Session(s.log, s.back - 1, Newest(s.log, s.back - 1))
    case Enter => Session(Extended(s.log, s.line), 0, "")
    case Rubout => if s.line == "" then s else s.(line := s.line[..|s.line| - 1])
    case Char(c) => if Accepts(c) && |s.line| < CMD_MAX_LEN - 1 then s.(line := s.line + [c]) else s
  }

  function PressAll(s: Session, ks: seq<Key>): (r: Session)
    requires Sound(s)
    ensures Sound(r)
  {
    if ks == [] then s else Press(PressAll(s, ks[..|ks| - 1]), ks[|ks| - 1])
  }

  function Repeat(k: Key, n: nat): (ks: seq<Key>)
    ensures |ks| == n
  {
    seq(n, _ => k)
  }

  // k presses of Up from the prompt show the min(k, 32, total)-th newest command.
  lemma {:induction false} UpMany(s: Session, k: nat)
    requires Sound(s) && s.back == 0 && k > 0 && s.log != []
    ensures var b := Min(k, Depth(|s.log|));
      PressAll(s, Repeat(Up, k)) == Session(s.log, b, Newest(s.log, b))
  {
    assert Repeat(Up, k)[..k - 1] == Repeat(Up, k - 1);
    if k > 1 {
      UpMany(s, k - 1);
    }
  }

  // j presses of Down come that many commands forward again, and to the blank line when there are enough.
  lemma {:induction false} DownMany(s: Session, j: nat)
    requires Sound(s) && s.back > 0
    ensures var b := if j < s.back then s.back - j else 0;
      PressAll(s, Repeat(Down, j)) == if j == 0 then s else Session(s.log, b, Newest(s.log, b))
  {
    if j > 0 {
      assert Repeat(Down, j)[..j - 1] == Repeat(Down, j - 1);
      DownMany(s, j - 1);
    }
  }

  // As many presses of Down as there were commands to go back to end on the blank prompt.
  lemma UpThenDown(s: Session, k: nat)
    requires Sound(s) && s.back == 0 && 0 < k <= Depth(|s.log|)
    ensures PressAll(PressAll(s, Repeat(Up, k)), Repeat(Down, k)) == Session(s.log, 0, "")
  {
    UpMany(s, k);
    DownMany(PressAll(s, Repeat(Up, k)), k);
  }

  // A character typed and rubbed out leaves the session as it was, when there was room for it.
  lemma TypeThenRubout(s: Session, c: char)
    requires Sound(s) && Accepts(c)
    ensures Press(Press(s, Char(c)), Rubout) == s <==> |s.line| < CMD_MAX_LEN - 1
  {
    if |s.line| < CMD_MAX_LEN - 1 {
      assert (s.line + [c])[..|s.line|] == s.line;
    }
  }

  // Two list positions fewer than 32 apart use different ring slots.
  lemma SlotsDiffer(i: nat, j: nat)
    requires i < j < i + HIST_MAX
    ensures i % HIST_MAX != j % HIST_MAX
  {
  }

  // ---------- the ring and the line buffer ----------

  class Recall {
    const entries: array<string>
    const buf: array<char>
    var total: nat
    var index: int
    var len: nat
    ghost var log: seq<string>

    // The ring holds the last 32 commands of the list.
    ghost predicate Stored()
      reads this, entries
    {
      && entries.Length == HIST_MAX && total == |log|
      && (forall i :: total - Depth(total) <= i < total ==> entries[i % HIST_MAX] == log[i])
    }

    ghost predicate Valid()
      reads this, entries, buf
    {
      && Stored() && buf.Length == CMD_MAX_LEN && len < CMD_MAX_LEN
      && (index == -1 || total - Depth(total) <= index < total)
      && Sound(State())
    }

    ghost function State(): Session
      requires len <= buf.Length && (index == -1 || 0 <= index <= total)
      reads this, buf
    {
      Session(log, if index == -1 then 0 else total - index, buf[..len])
    }

    constructor ()
      ensures Valid() && State() == Session([], 0, "") && fresh(entries) && fresh(buf)
    {
      entries := new string[HIST_MAX](_ => "");
      buf := new char[CMD_MAX_LEN](_ => NUL);
      total, index, len, log := 0, -1, 0, [];
    }

    // hist_add.
    method Add(cmd: string)
      requires Stored()
      modifies this`total, this`log, entries
      ensures Stored() && log == Extended(old(log), cmd)
    {
      if cmd == "" {
        return;
      }
      if total > 0 && entries[(total - 1) % HIST_MAX] == cmd {
        return;
      }
      entries[total % HIST_MAX] := cmd;
      forall i | total + 1 - Depth(total + 1) <= i < total ensures entries[i % HIST_MAX] == log[i] {
        SlotsDiffer(i, total);
      }
      total := total + 1;
      log := log + [cmd];
    }

    // The Enter key, apart from running the line.
    method PressEnter()
      requires Valid()
      modifies this, entries, buf
      ensures Valid() && State() == Press(old(State()), Key.Enter)
    {
      ghost var s := State();
      buf[len] := NUL;
      assert buf[..len] == s.line;
      if len > 0 {
        Add(buf[..len]);
      }
      index := -1;
      len := 0;
      assert State() == Press(s, Key.Enter);
    }

    method PressChar(c: char)
      requires Valid()
      modifies this`len, buf
      ensures Valid() && State() == Press(old(State()), Char(c))
    {
      if Accepts(c) {
        if len < CMD_MAX_LEN - 1 {
          buf[len] := c;
          len := len + 1;
        }
      }
    }

    method PressRubout()
      requires Valid()
      modifies this`len
      ensures Valid() && State() == Press(old(State()), Key.Rubout)
    {
      if len > 0 {
        len := len - 1;
        assert buf[..len] == old(buf[..len])[..len];
      }
    }

    // strcpy of a recalled command into the line, and its length.
    method Recollect(cmd: string)
      requires buf.Length == CMD_MAX_LEN && |cmd| < CMD_MAX_LEN
      modifies this`len, buf
      ensures len == |cmd| && buf[..len] == cmd
    {
      var i := 0;
      while i < |cmd|
        invariant i <= |cmd| && buf[..i] == cmd[..i]
      {
        buf[i] := cmd[i];
        i := i + 1;
      }
      buf[i] := NUL;
      len := i;
    }

    method PressUp()
      requires Valid()
      modifies this`index, this`len, buf
      ensures Valid() && State() == Press(old(State()), Key.Up)
    {
      ghost var s := State();
      var count := if total > HIST_MAX then HIST_MAX else total;
      if count > 0 {
        if index == -1 {
          index := total - 1;
        } else if index > total - count {
          index := index - 1;
        }
        assert log[index] in log;
        Recollect(entries[index % HIST_MAX]);
        assert State() == Press(s, Key.Up);
      }
    }

    method PressDown()
      requires Valid()
      modifies this`index, this`len, buf
      ensures Valid() && State() == Press(old(State()), Key.Down)
    {
      ghost var s := State();
      if index != -1 {
        if index < total - 1 {
          index := index + 1;
          assert log[index] in log;
          Recollect(entries[index % HIST_MAX]);
        } else {
          index := -1;
          buf[0] := NUL;
          len := 0;
        }
        assert State() == Press(s, Key.Down);
      }
    }

    // Any run of keys does to the ring and the buffer what it does to the session with its whole list.
    method PressKeys(ks: seq<Key>)
      requires Valid()
      modifies this, entries, buf
      ensures Valid() && State() == PressAll(old(State()), ks)
    {
      for i := 0 to |ks|
        invariant Valid() && State() == PressAll(old(State()), ks[..i])
      {
        match ks[i] {
          case Up => PressUp();
          case Down => PressDown();
          case Enter => PressEnter();
          case Rubout => PressRubout();
          case Char(c) => PressChar(c);
        }
        assert ks[..i + 1][..i] == ks[..i];
      }
      assert ks[..|ks|] == ks;
    }
  }
}
