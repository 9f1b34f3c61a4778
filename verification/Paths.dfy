/** What fs_resolve_path computes, as a function of its arguments, and what that function promises. */
module Paths {
  import opened Common
  import opened CStrings

  const FS_MAX_PATH: nat := 64
  const TEMP_SIZE: nat := 2 * FS_MAX_PATH
  const MAX_COMPONENTS: nat := 16

  // ---------- components ----------

  // Where the first '/' is, or the length.
  function Span(s: string): (n: nat)
    ensures n <= |s| && '/' !in s[..n]
    ensures n < |s| ==> s[n] == '/'
  {
    if s == "" || s[0] == '/' then 0 else 1 + Span(s[1..])
  }

  // The maximal non-empty stretches without '/'.
  function Components(s: string): seq<string>
    decreases |s|
  {
    if s == "" then []
    else if s[0] == '/' then Components(s[1..])
    else [s[..Span(s)]] + Components(s[Span(s)..])
  }

  // The path with the given components.
  function Concat(cs: seq<string>): string {
    if cs == [] then "" else "/" + cs[0] + Concat(cs[1..])
  }

  predicate Plain(c: string) {
    c != "" && '/' !in c && c != "." && c != ".."
  }

  predicate AllPlain(cs: seq<string>) {
    forall i :: 0 <= i < |cs| ==> Plain(cs[i])
  }

  // "/" alone, or '/'-led components none of which is empty, "." or "..".
  predicate Canonical(s: string) {
    s == "/" || (s != "" && AllPlain(Components(s)) && s == Concat(Components(s)))
  }

  // ---------- the function with its limits ----------

  // Line 71 to 99: the text that is tokenised.
  function Joined(cwd: Option<string>, path: string): string
    requires path != ""
  {
    if path[0] == '/' then Take(path, TEMP_SIZE - 1)
    else if cwd.None? || cwd.value == "/" then "/" + Take(path, TEMP_SIZE - 2)
    else
      var t := Take(cwd.value, TEMP_SIZE - 1);
      if |t| < TEMP_SIZE - 2 then t + "/" + Take(path, TEMP_SIZE - |t| - 2) else t
  }

  // One component against the stack; more than 16 are silently dropped.
  function Push(stack: seq<string>, c: string): (r: seq<string>)
    ensures |stack| <= MAX_COMPONENTS ==> |r| <= MAX_COMPONENTS
  {
    if c == "." then stack
    else if c == ".." then (if |stack| > 0 then stack[..|stack| - 1] else stack)
    else if |stack| < MAX_COMPONENTS then stack + [c]
    else stack
  }

  function Fold(stack: seq<string>, cs: seq<string>): (r: seq<string>)
    ensures |stack| <= MAX_COMPONENTS ==> |r| <= MAX_COMPONENTS
    decreases |cs|
  {
    if cs == [] then stack else Fold(Push(stack, cs[0]), cs[1..])
  }

  // Append what fits in 63 characters, skipping what does not.
  function Append(out: string, cs: seq<string>): string
    decreases |cs|
  {
    if cs == [] then out
    else if |out| + 1 + |cs[0]| < FS_MAX_PATH then Append(out + "/" + cs[0], cs[1..])
    else Append(out, cs[1..])
  }

  function Resolve(cwd: Option<string>, path: Option<string>): string {
    if path.None? || path.value == "" then
      (if cwd.None? || cwd.value == "" then "/" else Take(cwd.value, FS_MAX_PATH - 1))
    else
      var stack := Fold([], Components(Joined(cwd, path.value)));
      if stack == [] then "/" else Append("", stack)
  }

  // ---------- the same without limits ----------

  function FullPath(cwd: Option<string>, path: string): string
    requires path != ""
  {
    if path[0] == '/' then path
    else if cwd.None? then "/" + path
    else cwd.value + "/" + path
  }

  function StackPush(stack: seq<string>, c: string): seq<string> {
    if c == "." then stack
    else if c == ".." then (if |stack| > 0 then stack[..|stack| - 1] else stack)
    else stack + [c]
  }

  function StackFold(stack: seq<string>, cs: seq<string>): seq<string>
    decreases |cs|
  {
    if cs == [] then stack else StackFold(StackPush(stack, cs[0]), cs[1..])
  }

  function Normal(stack: seq<string>): string {
    if stack == [] then "/" else Concat(stack)
  }

  // The stack never has to hold a seventeenth component.
  predicate NeverFull(stack: seq<string>, cs: seq<string>)
    decreases |cs|
  {
    |stack| <= MAX_COMPONENTS && (cs == [] || NeverFull(StackPush(stack, cs[0]), cs[1..]))
  }

  predicate WithinLimits(cwd: Option<string>, path: string)
    requires path != ""
  {
    var t := FullPath(cwd, path);
    && |t| < TEMP_SIZE
    && NeverFull([], Components(t))
    && |Normal(StackFold([], Components(t)))| < FS_MAX_PATH
  }

  // ---------- lemmas about components ----------

  lemma {:induction false} ComponentsPlain(s: string)
    ensures forall c :: c in Components(s) ==> c != "" && '/' !in c
    decreases |s|
  {
    if s != "" {
      if s[0] == '/' {
        ComponentsPlain(s[1..]);
      } else {
        ComponentsPlain(s[Span(s)..]);
      }
    }
  }

  // A '/' between two texts separates their components.
  lemma {:induction false} ComponentsSplit(a: string, b: string)
    ensures Components(a + "/" + b) == Components(a) + Components(b)
    decreases |a|
  {
    var s := a + "/" + b;
    if a == "" {
      assert s[1..] == b;
    } else if a[0] == '/' {
      assert s[1..] == a[1..] + "/" + b;
      ComponentsSplit(a[1..], b);
    } else {
      var n := Span(a);
      SpanOf(a, "/" + b);
      assert s == a + ("/" + b);
      assert s[..n] == a[..n] && s[n..] == a[n..] + "/" + b;
      ComponentsSplit(a[n..], b);
    }
  }

  lemma {:induction false} SpanOf(a: string, rest: string)
    requires rest == "" || rest[0] == '/'
    ensures Span(a + rest) == Span(a)
  {
    if a == "" {
      assert a + rest == rest;
    } else {
      assert (a + rest)[1..] == a[1..] + rest;
      SpanOf(a[1..], rest);
    }
  }

  lemma {:induction false} WholeSpan(c: string)
    requires '/' !in c
    ensures Span(c) == |c|
  {
    if c != "" {
      WholeSpan(c[1..]);
    }
  }

  lemma {:induction false} ComponentsOfConcat(cs: seq<string>)
    requires forall i :: 0 <= i < |cs| ==> cs[i] != "" && '/' !in cs[i]
    ensures Components(Concat(cs)) == cs
    ensures Concat(cs) == "" || Concat(cs)[0] == '/'
  {
    if cs != [] {
      var c, rest := cs[0], Concat(cs[1..]);
      ComponentsOfConcat(cs[1..]);
      assert Concat(cs)[1..] == c + rest;
      SpanOf(c, rest);
      WholeSpan(c);
      assert (c + rest)[..|c|] == c && (c + rest)[|c|..] == rest;
    }
  }

  // ---------- lemmas about the fold ----------

  lemma {:induction false} FoldPlain(stack: seq<string>, cs: seq<string>)
    requires AllPlain(stack) && forall c :: c in cs ==> c != "" && '/' !in c
    ensures AllPlain(Fold(stack, cs)) && AllPlain(StackFold(stack, cs))
    decreases |cs|
  {
    if cs != [] {
      assert cs[0] in cs;
      assert forall c :: c in cs[1..] ==> c in cs;
      PushPlain(stack, cs[0]);
      FoldPlain(Push(stack, cs[0]), cs[1..]);
      FoldPlain(StackPush(stack, cs[0]), cs[1..]);
    }
  }

  lemma PushPlain(stack: seq<string>, c: string)
    requires AllPlain(stack) && c != "" && '/' !in c
    ensures AllPlain(Push(stack, c)) && AllPlain(StackPush(stack, c))
  {
  }

  lemma {:induction false} FoldUnlimited(stack: seq<string>, cs: seq<string>)
    requires NeverFull(stack, cs)
    ensures Fold(stack, cs) == StackFold(stack, cs)
    decreases |cs|
  {
    if cs != [] {
      FoldUnlimited(StackPush(stack, cs[0]), cs[1..]);
    }
  }

  lemma {:induction false} FoldOfPlain(stack: seq<string>, cs: seq<string>)
    requires AllPlain(cs) && |stack| + |cs| <= MAX_COMPONENTS
    ensures Fold(stack, cs) == stack + cs
    decreases |cs|
  {
    if cs != [] {
      FoldOfPlain(stack + [cs[0]], cs[1..]);
      assert stack + [cs[0]] + cs[1..] == stack + cs;
    } else {
      assert stack + cs == stack;
    }
  }

  lemma {:induction false} StackFoldOfPlain(stack: seq<string>, cs: seq<string>)
    requires AllPlain(cs)
    ensures StackFold(stack, cs) == stack + cs
    decreases |cs|
  {
    if cs != [] {
      StackFoldOfPlain(stack + [cs[0]], cs[1..]);
      assert stack + [cs[0]] + cs[1..] == stack + cs;
    } else {
      assert stack + cs == stack;
    }
  }

  lemma {:induction false} StackFoldConcat(stack: seq<string>, cs: seq<string>, ds: seq<string>)
    ensures StackFold(stack, cs + ds) == StackFold(StackFold(stack, cs), ds)
    decreases |cs|
  {
    if cs == [] {
      assert cs + ds == ds;
    } else {
      assert (cs + ds)[1..] == cs[1..] + ds;
      StackFoldConcat(StackPush(stack, cs[0]), cs[1..], ds);
    }
  }

  // ---------- lemmas about the output ----------

  // The output is the components that were kept.
  lemma {:induction false} AppendKeeps(out: string, cs: seq<string>) returns (kept: seq<string>)
    requires |out| < FS_MAX_PATH
    ensures Append(out, cs) == out + Concat(kept)
    ensures |Append(out, cs)| < FS_MAX_PATH && |kept| <= |cs|
    ensures forall c :: c in kept ==> c in cs
    decreases |cs|
  {
    if cs == [] {
      kept := [];
    } else if |out| + 1 + |cs[0]| < FS_MAX_PATH {
      kept := AppendKeeps(out + "/" + cs[0], cs[1..]);
      kept := [cs[0]] + kept;
    } else {
      kept := AppendKeeps(out, cs[1..]);
    }
  }

  lemma {:induction false} AppendNothing(out: string, cs: seq<string>)
    requires |out| < FS_MAX_PATH
    ensures Append(out, cs) == "" <==> out == "" && forall c :: c in cs ==> |c| >= FS_MAX_PATH - 1
    decreases |cs|
  {
    if cs != [] {
      if |out| + 1 + |cs[0]| < FS_MAX_PATH {
        AppendNothing(out + "/" + cs[0], cs[1..]);
        assert out == "" ==> cs[0] in cs && |cs[0]| < FS_MAX_PATH - 1;
      } else {
        AppendNothing(out, cs[1..]);
        if out == "" {
          assert forall c :: c in cs <==> c == cs[0] || c in cs[1..];
        }
      }
    }
  }

  lemma {:induction false} AppendAll(out: string, cs: seq<string>)
    requires |out| + |Concat(cs)| < FS_MAX_PATH
    ensures Append(out, cs) == out + Concat(cs)
    decreases |cs|
  {
    if cs != [] {
      assert Concat(cs) == "/" + cs[0] + Concat(cs[1..]);
      AppendAll(out + "/" + cs[0], cs[1..]);
      assert out + "/" + cs[0] + Concat(cs[1..]) == out + Concat(cs);
    } else {
      assert out + Concat(cs) == out;
    }
  }

  // ---------- what resolution promises ----------

  // The stack a non-empty path leaves.
  function Survivors(cwd: Option<string>, path: string): seq<string>
    requires path != ""
  {
    Fold([], Components(Joined(cwd, path)))
  }

  // Output is under 64 characters and canonical, except that it is empty exactly when components
  // survive and every one of them is 63 characters or longer.
  lemma ResolveCanonical(cwd: Option<string>, path: string)
    requires path != ""
    ensures var r := Resolve(cwd, Some(path));
      var stack := Survivors(cwd, path);
      && |r| < 64
      && (r == "" <==> stack != [] && forall c :: c in stack ==> |c| >= 63)
      && (r != "" ==> Canonical(r) && |Components(r)| <= 16)
  {
    var stack := Survivors(cwd, path);
    ComponentsPlain(Joined(cwd, path));
    FoldPlain([], Components(Joined(cwd, path)));
    if stack != [] {
      AppendNothing("", stack);
      var kept := AppendKeeps("", stack);
      assert AllPlain(kept) by {
        forall i | 0 <= i < |kept| ensures Plain(kept[i]) {
          assert kept[i] in stack;
        }
      }
      ComponentsOfConcat(kept);
      assert Resolve(cwd, Some(path)) == Concat(kept);
    } else {
      assert Components("/") == [];
    }
  }

  // A canonical path that fits is its own resolution, whatever the working directory.
  lemma FixedPoint(cwd: Option<string>, r: string)
    requires Canonical(r) && |r| < 64 && |Components(r)| <= 16
    ensures Resolve(cwd, Some(r)) == r
  {
    if r == "/" {
      assert Components("/") == [];
      assert Joined(cwd, r) == "/";
    } else {
      var cs := Components(r);
      ComponentsOfConcat(cs);
      assert r[0] == '/' && Joined(cwd, r) == r;
      FoldOfPlain([], cs);
      assert [] + cs == cs;
      AppendAll("", cs);
      assert cs != [];
    }
  }

  // Resolving twice is resolving once; an empty path gives a canonical working directory back.
  lemma ResolveIdempotent(cwd: Option<string>, cwd': Option<string>, path: string)
    ensures path != "" && Resolve(cwd, Some(path)) != "" ==>
      Resolve(cwd', Some(Resolve(cwd, Some(path)))) == Resolve(cwd, Some(path))
    ensures cwd.Some? && Canonical(cwd.value) && |cwd.value| < 64 ==>
      Resolve(cwd, None) == cwd.value && Resolve(cwd, Some("")) == cwd.value
  {
    if path != "" {
      ResolveCanonical(cwd, path);
      if Resolve(cwd, Some(path)) != "" {
        FixedPoint(cwd', Resolve(cwd, Some(path)));
      }
    }
  }

  // Within the three limits resolution is the plain stack fold.
  lemma ResolveIsStackFold(cwd: Option<string>, path: string)
    requires path != "" && WithinLimits(cwd, path)
    ensures Resolve(cwd, Some(path)) == Normal(StackFold([], Components(FullPath(cwd, path))))
  {
    var full := FullPath(cwd, path);
    JoinedIsFull(cwd, path);
    FoldUnlimited([], Components(full));
    var stack := StackFold([], Components(full));
    if stack != [] {
      AppendAll("", stack);
    }
  }

  lemma JoinedIsFull(cwd: Option<string>, path: string)
    requires path != "" && |FullPath(cwd, path)| < TEMP_SIZE
    ensures Components(Joined(cwd, path)) == Components(FullPath(cwd, path))
  {
    if path[0] == '/' {
      assert Take(path, TEMP_SIZE - 1) == path;
    } else if cwd.None? || cwd.value == "/" {
      assert Take(path, TEMP_SIZE - 2) == path;
      if cwd.Some? {
        assert FullPath(cwd, path)[1..] == "/" + path;
      }
    } else {
      assert Take(cwd.value, TEMP_SIZE - 1) == cwd.value;
      assert Take(path, TEMP_SIZE - |cwd.value| - 2) == path;
    }
  }

  // Resolving in two steps is resolving the joined path in one.
  lemma ResolveComposes(cwd: Option<string>, a: string, b: string)
    requires a != "" && b != "" && b[0] != '/'
    requires WithinLimits(cwd, a) && WithinLimits(cwd, a + "/" + b)
    requires FullPath(cwd, a)[0] == '/' || |Resolve(cwd, Some(a))| + 1 + |b| < TEMP_SIZE
    ensures Resolve(Some(Resolve(cwd, Some(a))), Some(b)) == Resolve(cwd, Some(a + "/" + b))
  {
    hide Resolve, WithinLimits, Components, StackFold, Normal;
    var r := Resolve(cwd, Some(a));
    var full := FullPath(cwd, a);
    ResolveIsStackFold(cwd, a);
    ComponentsOfNormal(full);
    assert FullPath(cwd, a + "/" + b) == full + "/" + b;
    ResolveIsStackFold(cwd, a + "/" + b);
    UnfoldLimits(cwd, a + "/" + b);
    NotLonger(full);
    LimitsCompose(r, full, b);
    assert FullPath(Some(r), b) == r + "/" + b;
    ResolveIsStackFold(Some(r), b);
    FoldOfJoined(full, b);
    FoldOfJoined(r, b);
  }

  // The stack of a longer path goes on from the stack of the shorter one.
  lemma FoldOfJoined(a: string, b: string)
    ensures StackFold([], Components(a + "/" + b)) == StackFold(StackFold([], Components(a)), Components(b))
  {
    ComponentsSplit(a, b);
    StackFoldConcat([], Components(a), Components(b));
  }

  lemma UnfoldLimits(cwd: Option<string>, path: string)
    requires path != "" && WithinLimits(cwd, path)
    ensures |FullPath(cwd, path)| < TEMP_SIZE && NeverFull([], Components(FullPath(cwd, path)))
    ensures |Normal(StackFold([], Components(FullPath(cwd, path))))| < FS_MAX_PATH
  {
  }

  // Taking out "." and ".." and spare slashes makes an absolute path no longer.
  lemma NotLonger(full: string)
    requires full != ""
    ensures full[0] == '/' ==> |Normal(StackFold([], Components(full)))| <= |full|
  {
    ComponentsLength(full);
    FoldLength([], Components(full));
  }

  lemma {:induction false} ComponentsLength(s: string)
    ensures |Concat(Components(s))| <= |s| + 1
    ensures s != "" && s[0] == '/' ==> |Concat(Components(s))| <= |s|
    decreases |s|
  {
    if s != "" {
      if s[0] == '/' {
        ComponentsLength(s[1..]);
      } else {
        var n := Span(s);
        ComponentsLength(s[n..]);
        ConcatFirst(s[..n], Components(s[n..]));
      }
    }
  }

  lemma ConcatFirst(c: string, cs: seq<string>)
    ensures |Concat([c] + cs)| == 1 + |c| + |Concat(cs)|
  {
    assert ([c] + cs)[1..] == cs;
  }

  lemma {:induction false} ConcatLast(cs: seq<string>, c: string)
    ensures |Concat(cs + [c])| == |Concat(cs)| + 1 + |c|
  {
    if cs != [] {
      assert (cs + [c])[1..] == cs[1..] + [c];
      ConcatLast(cs[1..], c);
    } else {
      assert cs + [c] == [c];
    }
  }

  lemma {:induction false} FoldLength(stack: seq<string>, cs: seq<string>)
    ensures |Concat(StackFold(stack, cs))| <= |Concat(stack)| + |Concat(cs)|
    decreases |cs|
  {
    if cs != [] {
      var n := |stack|;
      ConcatLast(stack, cs[0]);
      if n > 0 {
        assert stack == stack[..n - 1] + [stack[n - 1]];
        ConcatLast(stack[..n - 1], stack[n - 1]);
      }
      FoldLength(StackPush(stack, cs[0]), cs[1..]);
    }
  }

  lemma LimitsCompose(r: string, full: string, b: string)
    requires b != "" && b[0] != '/' && |r| + 1 + |b| < TEMP_SIZE
    requires Components(r) == StackFold([], Components(full))
    requires StackFold([], Components(r)) == Components(r) && AllPlain(Components(r))
    requires NeverFull([], Components(full + "/" + b))
    requires |Normal(StackFold([], Components(full + "/" + b)))| < FS_MAX_PATH
    ensures WithinLimits(Some(r), b)
  {
    hide Components, StackFold, NeverFull, Concat;
    ComponentsSplit(r, b);
    ComponentsSplit(full, b);
    StackFoldConcat([], Components(r), Components(b));
    StackFoldConcat([], Components(full), Components(b));
    NeverFullSplit([], Components(full), Components(b));
    assert [] + Components(r) == Components(r);
    NeverFullPlain([], Components(r), Components(b));
  }

  lemma {:induction false} NeverFullSplit(stack: seq<string>, cs: seq<string>, ds: seq<string>)
    requires NeverFull(stack, cs + ds)
    ensures NeverFull(StackFold(stack, cs), ds)
    decreases |cs|
  {
    if cs == [] {
      assert cs + ds == ds;
    } else {
      assert (cs + ds)[1..] == cs[1..] + ds;
      NeverFullSplit(StackPush(stack, cs[0]), cs[1..], ds);
    }
  }

  lemma {:induction false} NeverFullPlain(stack: seq<string>, cs: seq<string>, ds: seq<string>)
    requires AllPlain(cs) && NeverFull(stack + cs, ds)
    ensures NeverFull(stack, cs + ds)
    decreases |cs|
  {
    if cs == [] {
      assert stack + cs == stack && cs + ds == ds;
    } else {
      assert (cs + ds)[1..] == cs[1..] + ds;
      assert stack + cs == stack + [cs[0]] + cs[1..];
      FullStackBound(stack + cs, ds);
      NeverFullPlain(stack + [cs[0]], cs[1..], ds);
    }
  }

  lemma FullStackBound(stack: seq<string>, cs: seq<string>)
    requires NeverFull(stack, cs)
    ensures |stack| <= MAX_COMPONENTS
  {
  }

  // The normal form of a path has the path's stack as its components, and folding them changes nothing.
  lemma ComponentsOfNormal(full: string)
    ensures var stack := StackFold([], Components(full));
      Components(Normal(stack)) == stack && StackFold([], stack) == stack && AllPlain(stack)
  {
    var stack := StackFold([], Components(full));
    ComponentsPlain(full);
    FoldPlain([], Components(full));
    ComponentsOfConcat(stack);
    assert Components("/") == [];
    StackFoldOfPlain([], stack);
    assert [] + stack == stack;
  }
}
