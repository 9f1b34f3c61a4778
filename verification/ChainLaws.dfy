/** What a chained line does, stated on lines and commands alone: which text a command is given, and which
    commands run. */
module ChainLaws {
  import opened Common
  import opened CStrings
  import opened CommandChain

  // ---------- trimming ----------

  // Spaces and tabs.
  predicate Spacing(s: string) {
    forall c :: c in s ==> c in " \t"
  }

  // A text that neither begins nor ends with a space or a tab.
  predicate Tight(s: string) {
    s != "" ==> s[0] !in " \t" && s[|s| - 1] !in " \t"
  }

  lemma SpacingIsBlanks(s: string)
    ensures Spacing(s) <==> Blanks(s)
  {
    assert forall i :: 0 <= i < |s| ==> s[i] in s;
  }

  // Trimming takes spacing off both ends and nothing else.
  lemma TrimTakesSpacing(s: string) returns (l: string, r: string)
    ensures Spacing(l) && Spacing(r) && s == l + Trim(s) + r && Tight(Trim(s))
  {
    l := SkippedAreBlanks(s);
    r := TrimmedAreBlanks(Skip(s));
    SpacingIsBlanks(l);
    SpacingIsBlanks(r);
    assert s == l + (Trim(s) + r);
    if Trim(s) != "" {
      assert Trim(s)[0] == Skip(s)[0];
    }
  }

  lemma {:induction false} TrimmedAreBlanks(s: string) returns (r: string)
    ensures Blanks(r) && s == TrimRight(s) + r
  {
    r := "";
    if s != "" && IsBlank(s[|s| - 1]) {
      r := TrimmedAreBlanks(s[..|s| - 1]);
      r := r + [s[|s| - 1]];
    }
  }

  // So a tight text with spacing around it is what is left of the whole.
  lemma TrimIs(l: string, c: string, r: string)
    requires Spacing(l) && Spacing(r) && Tight(c)
    ensures Trim(l + c + r) == c
  {
    SpacingIsBlanks(l);
    SpacingIsBlanks(r);
    assert l + c + r == l + (c + r);
    SkipBlanksBefore(l, c + r);
    if c == "" {
      assert c + r == r + "";
      SkipBlanksBefore(r, "");
    } else {
      assert (c + r)[0] == c[0];
      TrimRightOver(c, r);
    }
  }

  lemma {:induction false} TrimRightOver(c: string, r: string)
    requires Blanks(r) && Tight(c) && c != ""
    ensures TrimRight(c + r) == c
  {
    if r == "" {
      assert c + r == c;
    } else {
      var n := |r| - 1;
      assert (c + r)[..|c + r| - 1] == c + r[..n] && (c + r)[|c + r| - 1] == r[n];
      TrimRightOver(c, r[..n]);
    }
  }

  // ---------- which commands a line has ----------

  function NonEmpty(cs: seq<string>): seq<string> {
    if cs == [] then []
    else (if cs[0] == "" then [] else [cs[0]]) + NonEmpty(cs[1..])
  }

  // The texts between the spacing are the commands, empty ones apart.
  lemma {:induction false} CommandsAre(ps: seq<string>, ls: seq<string>, cs: seq<string>, rs: seq<string>)
    requires |ps| == |ls| == |cs| == |rs|
    requires forall i :: 0 <= i < |ps| ==> ps[i] == ls[i] + cs[i] + rs[i] && Spacing(ls[i]) && Tight(cs[i]) && Spacing(rs[i])
    ensures Commands(ps) == NonEmpty(cs)
  {
    if ps != [] {
      TrimIs(ls[0], cs[0], rs[0]);
      CommandsAre(ps[1..], ls[1..], cs[1..], rs[1..]);
    }
  }

  // The same of a line: pieces joined by "&&", none with "&&" in it, nor with '&' where the next begins.
  lemma LineHasCommands(ps: seq<string>, ls: seq<string>, cs: seq<string>, rs: seq<string>)
    requires |ps| == |ls| == |cs| == |rs| > 0 && Leftmost(ps)
    requires forall i :: 0 <= i < |ps| ==> ps[i] == ls[i] + cs[i] + rs[i] && Spacing(ls[i]) && Tight(cs[i]) && Spacing(rs[i])
    ensures Commands(Split(Join(ps))) == NonEmpty(cs)
  {
    SplitUnique(ps);
    CommandsAre(ps, ls, cs, rs);
  }

  predicate NoChain(c: string) {
    forall i :: 0 <= i < |c| - 1 ==> !(c[i] == '&' && c[i + 1] == '&')
  }

  // A line without "&&" runs its text between the spacing, arguments included, as one command.
  lemma OneCommand<S>(run: Semantics<S>, st: S, l: string, c: string, r: string)
    requires Spacing(l) && Spacing(r) && Tight(c) && c != "" && NoChain(c)
    ensures RunUntilFailure(run, st, Commands(Split(l + c + r))) == run(st, c).0
  {
    hide Trim, FindSub;
    var s := l + c + r;
    forall j | 0 <= j <= |s| ensures !OccursAt(s, SEPARATOR, j) {
      Ampersands(s, j);
      assert j < |l| ==> s[j] in l;
      assert |l| + |c| <= j + 1 < |s| ==> s[j + 1] in r;
    }
    FindSubIs(s, SEPARATOR, |s| + 1);
    TrimIs(l, c, r);
    assert Split(s) == [s] && [s][1..] == [];
    assert Commands([s]) == [c] + Commands([]);
    assert [c][1..] == [];
  }

  // handle_line on such a line.
  method HandleOne<S(!new)>(line: array<char>, run: Semantics<S>, st0: S, ghost l: string, ghost c: string, ghost r: string)
    returns (st: S)
    requires InPlace(run) && HoldsAt(line[..], 0, l + c + r)
    requires Spacing(l) && Spacing(r) && Tight(c) && c != "" && NoChain(c)
    modifies line
    ensures st == run(st0, c).0
  {
    hide Commands, Split, RunUntilFailure;
    st := HandleLine(line, run, st0, l + c + r);
    OneCommand(run, st0, l, c, r);
  }

  // ---------- which commands run ----------

  // The state after the first n commands, and the result of the next one, had none been held back.
  function StateAfter<S>(run: Semantics<S>, st: S, cs: seq<string>, n: nat): S
    requires n <= |cs|
  {
    if n == 0 then st else run(StateAfter(run, st, cs, n - 1), cs[n - 1]).0
  }

  function CodeOf<S>(run: Semantics<S>, st: S, cs: seq<string>, i: nat): int
    requires i < |cs|
  {
    run(StateAfter(run, st, cs, i), cs[i]).1
  }

  // The first n commands run and no other, where all of them but the last succeed, and the last fails
  // unless it is the last of all.
  lemma {:induction false} StopsAtFailure<S>(run: Semantics<S>, st: S, cs: seq<string>) returns (n: nat)
    ensures n <= |cs| && RunUntilFailure(run, st, cs) == StateAfter(run, st, cs, n)
    ensures forall i :: 0 <= i < n - 1 ==> CodeOf(run, st, cs, i) == 0
    ensures n < |cs| ==> n > 0 && CodeOf(run, st, cs, n - 1) != 0
  {
    n := 0;
    if cs != [] {
      var r := run(st, cs[0]);
      assert StateAfter(run, st, cs, 0) == st;
      if r.1 != 0 {
        n := 1;
      } else {
        var m := StopsAtFailure(run, r.0, cs[1..]);
        n := m + 1;
        FirstDone(run, st, cs, m);
        forall i | 0 <= i < |cs| - 1 ensures CodeOf(run, st, cs, i + 1) == CodeOf(run, r.0, cs[1..], i) {
          FirstDone(run, st, cs, i);
        }
        forall i | 0 <= i < n - 1 ensures CodeOf(run, st, cs, i) == 0 {
          assert i > 0 ==> CodeOf(run, st, cs, (i - 1) + 1) == CodeOf(run, r.0, cs[1..], i - 1);
        }
        assert m < |cs| - 1 ==> CodeOf(run, st, cs, (m - 1) + 1) == CodeOf(run, r.0, cs[1..], m - 1);
      }
    }
  }

  lemma {:induction false} FirstDone<S>(run: Semantics<S>, st: S, cs: seq<string>, n: nat)
    requires cs != [] && n < |cs|
    ensures StateAfter(run, st, cs, n + 1) == StateAfter(run, run(st, cs[0]).0, cs[1..], n)
  {
    if n > 0 {
      FirstDone(run, st, cs, n - 1);
    } else {
      assert StateAfter(run, st, cs, 0) == st;
    }
  }
}
