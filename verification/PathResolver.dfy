/** fs_resolve_path as it runs: a local copy is tokenised in place and the components are pointers
    into it. */
module PathResolver {
  import opened Common
  import opened CStrings
  import opened Paths

  // Each pointer in comps leads to its component of the stack, behind the scanning position p.
  ghost predicate Points(temp: seq<char>, comps: seq<nat>, stack: seq<string>, p: nat, len: nat) {
    && |comps| == |stack|
    && forall k :: 0 <= k < |stack| ==> PointsAt(temp, comps[k], stack[k], p, len)
  }

  ghost predicate PointsAt(temp: seq<char>, start: nat, c: string, p: nat, len: nat) {
    HoldsAt(temp, start, c) && (start + |c| < p || p == len)
  }

  // Writing a NUL at or behind the scanning position changes no component found so far.
  lemma PointsStay(temp: seq<char>, temp': seq<char>, comps: seq<nat>, stack: seq<string>, p: nat, p': nat, len: nat)
    requires Points(temp, comps, stack, p, len) && p <= p' <= len && |temp'| == |temp|
    requires forall i :: 0 <= i < p && i < |temp| ==> temp'[i] == temp[i]
    requires p == len ==> temp' == temp
    ensures Points(temp', comps, stack, p', len)
  {
    forall k | 0 <= k < |stack| ensures PointsAt(temp', comps[k], stack[k], p', len) {
      assert PointsAt(temp, comps[k], stack[k], p, len);
      HeldFrame(temp, temp', comps[k], stack[k]);
    }
  }

  // Lines 71 to 99: the text to tokenise is put together in temp.
  method Join(cwd: Option<string>, path: string, temp: array<char>)
    requires temp.Length == TEMP_SIZE && path != "" && NUL !in path && (cwd.Some? ==> NUL !in cwd.value)
    modifies temp
    ensures HoldsAt(temp[..], 0, Joined(cwd, path))
  {
    if path[0] == '/' {
      CopyBounded(temp, path, TEMP_SIZE - 1);
    } else if cwd.None? || cwd.value == "/" {
      temp[0] := '/';
      temp[1] := NUL;
      assert temp[..][0..1] == "/";
      Strncat(temp, "/", path, TEMP_SIZE - 2);
    } else {
      CopyBounded(temp, cwd.value, TEMP_SIZE - 1);
      ghost var t := Take(cwd.value, TEMP_SIZE - 1);
      var clen := Strlen(temp, 0, t);
      if clen < TEMP_SIZE - 2 {
        temp[clen] := '/';
        temp[clen + 1] := NUL;
        assert temp[..][0..clen + 1] == t + "/";
        Strncat(temp, t + "/", path, TEMP_SIZE - clen - 2);
      }
    }
  }

  // The inner loops: past the slashes, and to the end of the component.
  method SkipSlashes(temp: array<char>, from: nat, ghost t: string) returns (p: nat)
    requires from <= |t| && HoldsAt(temp[..], from, t[from..])
    ensures from <= p <= |t| && HoldsAt(temp[..], p, t[p..])
    ensures Components(t[p..]) == Components(t[from..]) && (p < |t| ==> t[p] != '/')
  {
    p := from;
    while temp[p] == '/'
      invariant from <= p <= |t| && HoldsAt(temp[..], p, t[p..])
      invariant Components(t[p..]) == Components(t[from..])
      decreases |t| - p
    {
      Held(temp[..], p, t);
      assert t[p..][1..] == t[p + 1..];
      p := p + 1;
    }
    Held(temp[..], p, t);
  }

  method EndOfComponent(temp: array<char>, start: nat, ghost t: string) returns (p: nat)
    requires start <= |t| && HoldsAt(temp[..], start, t[start..])
    ensures start <= p <= |t| && HoldsAt(temp[..], p, t[p..])
    ensures p == start + Span(t[start..])
  {
    p := start;
    while temp[p] != NUL && temp[p] != '/'
      invariant start <= p <= |t| && HoldsAt(temp[..], p, t[p..])
      invariant Span(t[start..]) == p - start + Span(t[p..])
      decreases |t| - p
    {
      Held(temp[..], p, t);
      assert t[p..][1..] == t[p + 1..];
      p := p + 1;
    }
    Held(temp[..], p, t);
  }

  // The character under the cursor, and the string after it.
  lemma Held(temp: seq<char>, p: nat, t: string)
    requires p <= |t| && HoldsAt(temp, p, t[p..])
    ensures temp[p] == NUL <==> p == |t|
    ensures p < |t| ==> temp[p] == t[p] && HoldsAt(temp, p + 1, t[p + 1..])
  {
    if p < |t| {
      assert temp[p..p + |t[p..]|][0] == t[p..][0];
      assert t[p] in t[p..];
      assert t[p + 1..] == t[p..][1..];
      assert temp[p + 1..p + |t[p..]|] == temp[p..p + |t[p..]|][1..];
    }
  }

  // One component: ignored, undone by "..", or pushed while there is room.
  method Classify(temp: array<char>, comps: array<nat>, count: nat, start: nat, p: nat,
                  ghost c: string, ghost stack: seq<string>, ghost len: nat) returns (count': nat)
    requires comps.Length == MAX_COMPONENTS && count == |stack| <= MAX_COMPONENTS
    requires Points(temp[..], comps[..count], stack, p, len) && PointsAt(temp[..], start, c, p, len)
    modifies comps
    ensures count' == |Push(stack, c)| <= MAX_COMPONENTS
    ensures Points(temp[..], comps[..count'], Push(stack, c), p, len)
  {
    count' := count;
    var dot := Strcmp(temp, start, c, ".");
    if dot == 0 {
      return;
    }
    var dots := Strcmp(temp, start, c, "..");
    if dots == 0 {
      if count > 0 {
        count' := count - 1;
      }
    } else if count < MAX_COMPONENTS {
      comps[count] := start;
      count' := count + 1;
    }
  }

  // One round of the loop: a component is cut off with a NUL and classified.
  method OneComponent(temp: array<char>, comps: array<nat>, count: nat, start: nat,
                      ghost stack: seq<string>, ghost t: string) returns (count': nat, p: nat, ghost c: string)
    requires start < |t| && t[start] != '/' && HoldsAt(temp[..], start, t[start..])
    requires comps.Length == MAX_COMPONENTS && count == |stack| <= MAX_COMPONENTS
    requires Points(temp[..], comps[..count], stack, start, |t|)
    modifies temp, comps
    ensures start < p <= |t| && HoldsAt(temp[..], p, t[p..])
    ensures Components(t[start..]) == [c] + Components(t[p..])
    ensures count' == |Push(stack, c)| <= MAX_COMPONENTS
    ensures Points(temp[..], comps[..count'], Push(stack, c), p, |t|)
  {
    hide Components, Span, Push;
    ghost var m := temp[..];
    p := EndOfComponent(temp, start, t);
    Held(m, p, t);
    c := t[start..p];
    CutComponent(m, start, p, t);
    if temp[p] != NUL {
      temp[p] := NUL;
      p := p + 1;
    }
    CutHolds(m, temp[..], start, start + |c|, t);
    PointsStay(m, temp[..], comps[..count], stack, start, p, |t|);
    count' := Classify(temp, comps, count, start, p, c, stack, |t|);
  }

  lemma CutComponent(m: seq<char>, start: nat, p: nat, t: string)
    requires start < |t| && t[start] != '/' && p == start + Span(t[start..])
    ensures start < p <= |t|
    ensures Components(t[start..]) == [t[start..p]] + Components(t[p..])
    ensures p < |t| ==> Components(t[p..]) == Components(t[p + 1..])
  {
    var u := t[start..];
    assert u[0] == t[start];
    assert u[..Span(u)] == t[start..p] && u[Span(u)..] == t[p..];
    if p < |t| {
      assert t[p..][0] == u[Span(u)] == '/';
      assert t[p..][1..] == t[p + 1..];
    }
  }

  lemma CutHolds(m: seq<char>, m': seq<char>, start: nat, p: nat, t: string)
    requires start <= p <= |t| && HoldsAt(m, start, t[start..]) && |m'| == |m| && m'[p] == NUL
    requires forall i :: 0 <= i < |m| && i != p ==> m'[i] == m[i]
    ensures HoldsAt(m', start, t[start..p])
  {
    assert m'[start..p] == t[start..p] by {
      forall i | start <= i < p ensures m'[i] == t[i] {
        assert m[start..start + |t[start..]|][i - start] == t[start..][i - start];
      }
    }
    assert forall x :: x in t[start..p] ==> x in t[start..];
  }

  // The tokenising loop: afterwards comps[..count] points at the surviving components.
  method Tokenise(temp: array<char>, comps: array<nat>, ghost t: string) returns (count: nat)
    requires HoldsAt(temp[..], 0, t) && comps.Length == MAX_COMPONENTS
    modifies temp, comps
    ensures count <= MAX_COMPONENTS
    ensures Points(temp[..], comps[..count], Fold([], Components(t)), |t|, |t|)
  {
    count := 0;
    var p := 0;
    ghost var stack: seq<string> := [];
    assert t[0..] == t;
    while temp[p] != NUL
      invariant p <= |t| < temp.Length && HoldsAt(temp[..], p, t[p..])
      invariant count == |stack| <= MAX_COMPONENTS
      invariant Points(temp[..], comps[..count], stack, p, |t|)
      invariant Fold(stack, Components(t[p..])) == Fold([], Components(t))
      decreases |t| - p
    {
      Held(temp[..], p, t);
      ghost var was := p;
      p := SkipSlashes(temp, p, t);
      PointsStay(temp[..], temp[..], comps[..count], stack, was, p, |t|);
      Held(temp[..], p, t);
      if temp[p] == NUL {
        break;
      }
      ghost var c;
      count, p, c := OneComponent(temp, comps, count, p, stack, t);
      stack := Push(stack, c);
    }
    Held(temp[..], p, t);
    assert t[p..] == "";
  }

  // Lines 134 to 147: the surviving components are written out.
  method Build(temp: array<char>, comps: array<nat>, count: nat, out: array<char>, ghost stack: seq<string>, ghost len: nat)
    requires temp != out && out.Length >= FS_MAX_PATH && count <= comps.Length
    requires Points(temp[..], comps[..count], stack, len, len)
    modifies out
    ensures HoldsAt(out[..], 0, if stack == [] then "/" else Append("", stack))
  {
    hide Append;
    if count == 0 {
      out[0] := '/';
      out[1] := NUL;
      assert out[..][0..1] == "/";
      return;
    }
    out[0] := NUL;
    ghost var o := "";
    var i := 0;
    while i < count
      invariant i <= count && HoldsAt(out[..], 0, o) && |o| < FS_MAX_PATH
      invariant Points(temp[..], comps[..count], stack, len, len)
      invariant Append(o, stack[i..]) == Append("", stack)
    {
      AppendStep(o, stack, i);
      o := BuildOne(temp, comps[i], out, o, stack[i]);
      i := i + 1;
    }
    AppendEnd(o, stack[i..]);
    assert stack[0..] == stack;
  }

  lemma AppendStep(o: string, stack: seq<string>, i: nat)
    requires i < |stack|
    ensures Append(o, stack[i..]) ==
            Append(if |o| + 1 + |stack[i]| < FS_MAX_PATH then o + "/" + stack[i] else o, stack[i + 1..])
  {
    assert stack[i..][1..] == stack[i + 1..];
  }

  lemma AppendEnd(o: string, rest: seq<string>)
    ensures rest == [] ==> Append(o, rest) == o
  {
  }

  // One component of the output, if it still fits.
  method BuildOne(temp: array<char>, start: nat, out: array<char>, ghost o: string, ghost c: string) returns (ghost o': string)
    requires temp != out && out.Length >= FS_MAX_PATH && |o| < FS_MAX_PATH
    requires HoldsAt(out[..], 0, o) && HoldsAt(temp[..], start, c)
    modifies out
    ensures o' == (if |o| + 1 + |c| < FS_MAX_PATH then o + "/" + c else o)
    ensures HoldsAt(out[..], 0, o')
  {
    var len := Strlen(out, 0, o);
    var n := Strlen(temp, start, c);
    o' := o;
    if len + 1 + n < FS_MAX_PATH {
      out[len] := '/';
      out[len + 1] := NUL;
      assert out[..][0..len + 1] == o + "/";
      Strcat(out, o + "/", temp, start, c);
      o' := o + "/" + c;
    }
  }

  // fs_resolve_path: the buffer ends up holding the resolution.
  method ResolvePath(cwd: Option<string>, path: Option<string>, out: array<char>)
    requires out.Length >= FS_MAX_PATH
    requires (cwd.Some? ==> NUL !in cwd.value) && (path.Some? ==> NUL !in path.value)
    modifies out
    ensures HoldsAt(out[..], 0, Resolve(cwd, path))
  {
    if path.None? || path.value == "" {
      if cwd.None? || cwd.value == "" {
        out[0] := '/';
        out[1] := NUL;
        assert out[..][0..1] == "/";
      } else {
        CopyBounded(out, cwd.value, FS_MAX_PATH - 1);
      }
      return;
    }
    var temp := new char[TEMP_SIZE];
    Join(cwd, path.value, temp);
    var comps := new nat[MAX_COMPONENTS];
    ghost var t := Joined(cwd, path.value);
    var count := Tokenise(temp, comps, t);
    Build(temp, comps, count, out, Fold([], Components(t)), |t|);
  }
}
