/** The shell's command chaining: a line is split in place on "&&" and its commands run until one fails. */
module CommandChain {
  import opened Common
  import opened CStrings

  const SEPARATOR: string := "&&"

  // ---------- the split ----------

  // The leftmost non-overlapping split on "&&".
  function Split(s: string): (ps: seq<string>)
    ensures |ps| > 0
    decreases |s|
  {
    var i := FindSub(s, SEPARATOR);
    if i <= |s| then [s[..i]] + Split(s[i + 2..]) else [s]
  }

  function Join(ps: seq<string>): string
    requires |ps| > 0
  {
    if |ps| == 1 then ps[0] else ps[0] + SEPARATOR + Join(ps[1..])
  }

  predicate Free(t: string) {
    FindSub(t, SEPARATOR) > |t|
  }

  // No piece contains a separator, nor does a piece with the first '&' behind it.
  predicate Leftmost(ps: seq<string>)
    requires |ps| > 0
  {
    && Free(ps[|ps| - 1])
    && forall i :: 0 <= i < |ps| - 1 ==> Free(ps[i] + "&")
  }

  // Joining the pieces gives the line, and Split is the only leftmost way to get it.
  lemma {:induction false} SplitJoins(s: string)
    ensures Join(Split(s)) == s && Leftmost(Split(s))
    decreases |s|
  {
    hide FindSub;
    var i := FindSub(s, SEPARATOR);
    if i <= |s| {
      SplitJoins(s[i + 2..]);
      assert s == s[..i] + SEPARATOR + s[i + 2..];
      FreeBefore(s, i);
    }
  }

  lemma FreeBefore(s: string, i: nat)
    requires i == FindSub(s, SEPARATOR) <= |s|
    ensures Free(s[..i] + "&")
  {
    hide FindSub;
    var t := s[..i] + "&";
    Ampersands(s, i);
    forall j | 0 <= j <= |t| ensures !OccursAt(t, SEPARATOR, j) {
      Ampersands(t, j);
      Ampersands(s, j);
    }
    FindSubIs(t, SEPARATOR, |t| + 1);
  }

  lemma Ampersands(s: string, j: nat)
    ensures OccursAt(s, SEPARATOR, j) <==> j + 2 <= |s| && s[j] == '&' && s[j + 1] == '&'
  {
    if j + 2 <= |s| {
      assert s[j..j + 2] == [s[j], s[j + 1]];
    }
  }

  lemma {:induction false} SplitUnique(ps: seq<string>)
    requires |ps| > 0 && Leftmost(ps)
    ensures Split(Join(ps)) == ps
    decreases |ps|
  {
    hide FindSub;
    if |ps| > 1 {
      var s, p := Join(ps), ps[0];
      assert Leftmost(ps[1..]) by {
        assert forall i :: 0 <= i < |ps[1..]| - 1 ==> ps[1..][i] == ps[i + 1];
      }
      SplitUnique(ps[1..]);
      FirstSeparator(p, Join(ps[1..]));
      assert s[..|p|] == p && s[|p| + 2..] == Join(ps[1..]);
    }
  }

  lemma FirstSeparator(p: string, rest: string)
    requires Free(p + "&")
    ensures FindSub(p + SEPARATOR + rest, SEPARATOR) == |p|
  {
    hide FindSub;
    var s := p + SEPARATOR + rest;
    assert s[|p|..|p| + 2] == SEPARATOR;
    forall j | 0 <= j < |p| ensures !OccursAt(s, SEPARATOR, j) {
      Ampersands(s, j);
      Ampersands(p + "&", j);
      assert !OccursAt(p + "&", SEPARATOR, j);
    }
    FindSubIs(s, SEPARATOR, |p|);
  }

  // ---------- trimming ----------

  function TrimRight(s: string): (r: string)
    ensures |r| <= |s|
    ensures r != "" ==> !IsBlank(r[|r| - 1])
  {
    if s != "" && IsBlank(s[|s| - 1]) then TrimRight(s[..|s| - 1]) else s
  }

  function Trim(s: string): string {
    TrimRight(Skip(s))
  }

  function Commands(ps: seq<string>): seq<string> {
    if ps == [] then []
    else (if Trim(ps[0]) == "" then [] else [Trim(ps[0])]) + Commands(ps[1..])
  }

  // ---------- running ----------

  // A command takes a state and its text to a new state and a result; the third component is what it
  // leaves in the bytes of its text, which it may rewrite but not outgrow.
  type Semantics<!S> = (S, string) -> (S, int, string)

  ghost predicate InPlace<S(!new)>(run: Semantics<S>) {
    forall st, c :: |run(st, c).2| == |c|
  }

  // Run commands in order up to and including the first that fails.
  function RunUntilFailure<S>(run: Semantics<S>, st: S, cs: seq<string>): S {
    if cs == [] then st
    else
      var r := run(st, cs[0]);
      if r.1 != 0 then r.0 else RunUntilFailure(run, r.0, cs[1..])
  }

  // The first trimming loop: past the blanks in front.
  method PassBlanks(line: array<char>, from: nat, ghost t: string) returns (sub: nat)
    requires HoldsAt(line[..], from, t)
    ensures from <= sub && sub + |Skip(t)| == from + |t| && HoldsAt(line[..], sub, Skip(t))
  {
    sub := from;
    ghost var u := t;
    HeldChar(line[..], sub, u, 0);
    while line[sub] == ' ' || line[sub] == '\t'
      invariant from <= sub && sub + |u| == from + |t| && HoldsAt(line[..], sub, u) && Skip(u) == Skip(t)
      invariant u != "" ==> line[sub] == u[0]
      invariant u == "" ==> line[sub] == NUL
      decreases |u|
    {
      HeldTail(line[..], sub, u);
      sub, u := sub + 1, u[1..];
      HeldChar(line[..], sub, u, 0);
    }
  }

  // The second: back over the blanks behind.
  method BackOverBlanks(line: array<char>, sub: nat, ghost u: string) returns (end: nat)
    requires HoldsAt(line[..], sub, u)
    ensures end == sub + |TrimRight(u)| && TrimRight(u) == u[..|TrimRight(u)|]
  {
    var n := Strlen(line, sub, u);
    end := sub + n;
    ghost var w := u;
    while end > sub && (line[end - 1] == ' ' || line[end - 1] == '\t')
      invariant end == sub + |w| && |w| <= |u| && w == u[..|w|] && TrimRight(w) == TrimRight(u)
      decreases |w|
    {
      HeldChar(line[..], sub, u, |w| - 1);
      end, w := end - 1, w[..|w| - 1];
    }
    if end > sub {
      HeldChar(line[..], sub, u, |w| - 1);
    }
  }

  // Both trimming loops and the NUL behind the trimmed text.
  method TrimInPlace(line: array<char>, from: nat, ghost t: string) returns (sub: nat, end: nat)
    requires HoldsAt(line[..], from, t)
    modifies line
    ensures from <= sub <= end <= from + |t| && HoldsAt(line[..], sub, Trim(t)) && end == sub + |Trim(t)|
    ensures forall k :: 0 <= k < line.Length && k != end ==> line[k] == old(line[k])
  {
    sub := PassBlanks(line, from, t);
    ghost var u := Skip(t);
    end := BackOverBlanks(line, sub, u);
    HeldPrefix(line[..], sub, u, |TrimRight(u)|);
    ghost var m := line[..];
    line[end] := NUL;
    assert line[..] == m[end := NUL];
  }

  lemma HeldTail(buf: seq<char>, off: nat, t: string)
    requires HoldsAt(buf, off, t) && t != ""
    ensures HoldsAt(buf, off + 1, t[1..])
  {
    assert buf[off + 1..off + |t|] == buf[off..off + |t|][1..];
  }

  // Cutting a held string with a NUL leaves its prefix.
  lemma HeldPrefix(buf: seq<char>, off: nat, t: string, n: nat)
    requires HoldsAt(buf, off, t) && n <= |t|
    ensures HoldsAt(buf[off + n := NUL], off, t[..n])
  {
    assert buf[off + n := NUL][off..off + n] == buf[off..off + |t|][..n];
    assert forall x :: x in t[..n] ==> x in t;
  }

  // handle_single_command on the text in [sub, end).
  method RunOne<S(!new)>(line: array<char>, sub: nat, end: nat, run: Semantics<S>, st: S, ghost c: string)
    returns (st': S, code: int)
    requires InPlace(run) && HoldsAt(line[..], sub, c) && end == sub + |c|
    modifies line
    ensures st' == run(st, c).0 && code == run(st, c).1
    ensures forall k :: 0 <= k < line.Length && !(sub <= k < end) ==> line[k] == old(line[k])
  {
    var r := run(st, line[sub..end]);
    st', code := r.0, r.1;
    forall k | sub <= k < end {
      line[k] := r.2[k - sub];
    }
  }

  // One piece: trimmed, and run unless nothing is left of it. Bytes behind the piece stay as they are.
  method RunPiece<S(!new)>(line: array<char>, from: nat, run: Semantics<S>, st: S, ghost t: string)
    returns (st': S, code: int)
    requires InPlace(run) && HoldsAt(line[..], from, t)
    modifies line
    ensures if Trim(t) == "" then st' == st && code == 0
            else st' == run(st, Trim(t)).0 && code == run(st, Trim(t)).1
    ensures forall k :: 0 <= k < line.Length && !(from <= k <= from + |t|) ==> line[k] == old(line[k])
  {
    var sub, end := TrimInPlace(line, from, t);
    HeldChar(line[..], sub, Trim(t), 0);
    st', code := st, 0;
    if line[sub] != NUL {
      st', code := RunOne(line, sub, end, run, st, Trim(t));
    }
  }

  // handle_line: exactly the commands of the split run, in order, up to the first failure.
  method HandleLine<S(!new)>(line: array<char>, run: Semantics<S>, st0: S, ghost s: string) returns (st: S)
    requires InPlace(run) && HoldsAt(line[..], 0, s)
    modifies line
    ensures st == RunUntilFailure(run, st0, Commands(Split(s)))
  {
    hide InPlace, Trim, FindSub, Split, Commands, RunUntilFailure, HoldsAt;
    st := st0;
    var p := 0;
    ghost var rest := s;
    HeldChar(line[..], 0, s, 0);
    while line[p] != NUL
      invariant HoldsAt(line[..], p, rest) && p < line.Length && (line[p] == NUL <==> rest == "")
      invariant RunUntilFailure(run, st, Commands(Split(rest))) == RunUntilFailure(run, st0, Commands(Split(s)))
      decreases |rest|
    {
      var found, at := Strstr(line, p, rest, SEPARATOR);
      if !found {
        CommandsOfLast(run, st, rest);
        var code;
        st, code := RunPiece(line, p, run, st, rest);
        return;
      }
      CommandsOfFirst(run, st, rest);
      CutAt(line[..], p, rest, at);
      HeldChar(line[..], p, rest, at);
      ghost var m := line[..];
      line[p + at] := NUL;
      assert line[..] == m[p + at := NUL];
      var code;
      st, code := RunPiece(line, p, run, st, rest[..at]);
      if code != 0 {
        return;
      }
      HeldFrame(m, line[..], p + at + 2, rest[at + 2..]);
      p, rest := p + at + 2, rest[at + 2..];
      HeldChar(line[..], p, rest, 0);
    }
    NothingToRun(run, st);
  }

  // Cutting at a separator leaves the piece in front and the text behind.
  lemma CutAt(m: seq<char>, p: nat, rest: string, at: nat)
    requires HoldsAt(m, p, rest) && at == FindSub(rest, SEPARATOR) <= |rest|
    ensures at + 2 <= |rest|
    ensures HoldsAt(m[p + at := NUL], p, rest[..at]) && HoldsAt(m, p + at + 2, rest[at + 2..])
  {
    hide FindSub, HoldsAt;
    assert OccursAt(rest, SEPARATOR, at);
    HeldPrefix(m, p, rest, at);
    HeldSuffix(m, p, rest, at + 2);
  }

  lemma HeldSuffix(buf: seq<char>, off: nat, t: string, n: nat)
    requires HoldsAt(buf, off, t) && n <= |t|
    ensures HoldsAt(buf, off + n, t[n..])
  {
    assert buf[off + n..off + |t|] == buf[off..off + |t|][n..];
    assert forall x :: x in t[n..] ==> x in t;
  }

  lemma CommandsOfLast<S>(run: Semantics<S>, st: S, s: string)
    requires FindSub(s, SEPARATOR) > |s|
    ensures RunUntilFailure(run, st, Commands(Split(s))) ==
      if Trim(s) == "" then st else run(st, Trim(s)).0
  {
    hide FindSub, Trim;
    assert Split(s) == [s];
    assert Commands([s]) == (if Trim(s) == "" then [] else [Trim(s)]) + Commands([]);
  }

  lemma CommandsOfFirst<S>(run: Semantics<S>, st: S, s: string)
    requires FindSub(s, SEPARATOR) <= |s|
    ensures var i := FindSub(s, SEPARATOR);
      var t := Trim(s[..i]);
      RunUntilFailure(run, st, Commands(Split(s))) ==
        if t == "" then RunUntilFailure(run, st, Commands(Split(s[i + 2..])))
        else if run(st, t).1 != 0 then run(st, t).0
        else RunUntilFailure(run, run(st, t).0, Commands(Split(s[i + 2..])))
  {
    hide FindSub, Trim;
    var i := FindSub(s, SEPARATOR);
    var t := Trim(s[..i]);
    var more := Commands(Split(s[i + 2..]));
    assert Split(s)[1..] == Split(s[i + 2..]);
    assert Commands(Split(s)) == (if t == "" then [] else [t]) + more;
    if t != "" {
      assert ([t] + more)[1..] == more;
    } else {
      assert [] + more == more;
    }
  }

  lemma NothingToRun<S>(run: Semantics<S>, st: S)
    ensures RunUntilFailure(run, st, Commands(Split(""))) == st
  {
    hide FindSub;
    assert !OccursAt("", SEPARATOR, 0);
    FindSubIs("", SEPARATOR, 1);
    assert Split("") == [""];
    assert Commands([""]) == Commands([]);
  }
}
