/** What resolution does to the pieces of a path: going up, staying, and the three limits, each stated on
    paths and results alone. */
module PathLaws {
  import opened Common
  import opened CStrings
  import opened Paths

  // ---------- up and stay ----------

  // Going into b and up again goes nowhere.
  lemma UpUndoes(cwd: Option<string>, a: string, b: string)
    requires a != "" && Plain(b) && WithinLimits(cwd, a + "/" + (b + "/.."))
    ensures Resolve(cwd, Some(a + "/" + (b + "/.."))) == Resolve(cwd, Some(a))
  {
    hide Components, StackFold, Resolve, NeverFull, WithinLimits, Normal;
    var full, tail := FullPath(cwd, a), b + "/..";
    assert FullPath(cwd, a + "/" + tail) == full + "/" + tail;
    UnfoldLimits(cwd, a + "/" + tail);
    OnePart(b);
    OnePart("..");
    ComponentsSplit(b, "..");
    assert b + "/" + ".." == tail;
    var stack := StackFold([], Components(full));
    FoldOfJoined(full, tail);
    DownAndUp(stack, b);
    Prefix(cwd, a, tail);
    ResolveIsStackFold(cwd, a);
    ResolveIsStackFold(cwd, a + "/" + tail);
  }

  // "." goes nowhere, and neither does a slash at the end.
  lemma DotStays(cwd: Option<string>, a: string)
    requires a != "" && WithinLimits(cwd, a + "/.")
    ensures Resolve(cwd, Some(a + "/.")) == Resolve(cwd, Some(a)) == Resolve(cwd, Some(a + "/"))
  {
    hide Components, StackFold, Resolve, NeverFull, WithinLimits, Normal;
    var full := FullPath(cwd, a);
    assert FullPath(cwd, a + "/.") == full + "/" + "." && a + "/." == a + "/" + ".";
    assert FullPath(cwd, a + "/") == full + "/" + "" && a + "/" == a + "/" + "";
    UnfoldLimits(cwd, a + "/" + ".");
    OnePart(".");
    NoPart();
    FoldOfJoined(full, ".");
    FoldOfJoined(full, "");
    DotIgnored(StackFold([], Components(full)));
    Prefix(cwd, a, ".");
    EmptyEnd(cwd, a);
    ResolveIsStackFold(cwd, a);
    ResolveIsStackFold(cwd, a + "/" + ".");
    ResolveIsStackFold(cwd, a + "/" + "");
  }

  // There is nothing above the root.
  lemma RootStays(cwd: Option<string>)
    ensures Resolve(cwd, Some("/..")) == "/" && Resolve(cwd, Some("/")) == "/" && Resolve(None, Some("..")) == "/"
  {
    assert Components("/..") == [".."] by {
      OnePart("..");
      assert "/.."[1..] == "..";
    }
    assert Components("/") == [] by {
      NoPart();
      assert "/"[1..] == "";
    }
    assert Take("/..", TEMP_SIZE - 1) == "/.." && Take("/", TEMP_SIZE - 1) == "/";
    assert "/" + Take("..", TEMP_SIZE - 2) == "/..";
    UpFromEmpty();
  }

  // No path at all gives the working directory, its first 63 characters, or the root where there is none.
  lemma NoPath(cwd: string)
    ensures Resolve(None, None) == Resolve(None, Some("")) == Resolve(Some(""), None) == "/"
    ensures cwd != "" ==> Resolve(Some(cwd), None) == Resolve(Some(cwd), Some("")) == cwd[..if |cwd| < 63 then |cwd| else 63]
  {
  }

  lemma UpFromEmpty()
    ensures Fold([], [".."]) == []
  {
  }

  lemma OnePart(c: string)
    requires c != "" && '/' !in c
    ensures Components(c) == [c]
  {
    WholeSpan(c);
    assert c[..|c|] == c && c[|c|..] == "";
  }

  lemma NoPart()
    ensures Components("") == []
  {
  }

  lemma DownAndUp(stack: seq<string>, b: string)
    requires Plain(b)
    ensures StackFold(stack, [b] + [".."]) == stack
  {
    var pushed := stack + [b];
    assert ([b] + [".."])[1..] == [".."] && [".."][1..] == [];
    assert StackFold(pushed, [".."]) == StackFold(pushed[..|pushed| - 1], []);
    assert pushed[..|pushed| - 1] == stack;
  }

  lemma DotIgnored(stack: seq<string>)
    ensures StackFold(stack, ["."]) == stack && StackFold(stack, []) == stack
  {
    assert ["."][1..] == [];
  }

  // What comes before the last step keeps to the limits as well, when the step ends where it began.
  lemma Prefix(cwd: Option<string>, a: string, tail: string)
    requires a != "" && WithinLimits(cwd, a + "/" + tail)
    requires var stack := StackFold([], Components(FullPath(cwd, a))); StackFold(stack, Components(tail)) == stack
    ensures WithinLimits(cwd, a)
  {
    hide Components, StackFold, NeverFull, Normal, WithinLimits;
    var full := FullPath(cwd, a);
    assert FullPath(cwd, a + "/" + tail) == full + "/" + tail;
    UnfoldLimits(cwd, a + "/" + tail);
    ComponentsSplit(full, tail);
    StackFoldConcat([], Components(full), Components(tail));
    NeverFullPrefix([], Components(full), Components(tail));
    FoldLimits(cwd, a);
  }

  lemma FoldLimits(cwd: Option<string>, path: string)
    requires path != "" && |FullPath(cwd, path)| < TEMP_SIZE && NeverFull([], Components(FullPath(cwd, path)))
    requires |Normal(StackFold([], Components(FullPath(cwd, path))))| < FS_MAX_PATH
    ensures WithinLimits(cwd, path)
  {
  }

  lemma EmptyEnd(cwd: Option<string>, a: string)
    requires a != "" && WithinLimits(cwd, a + "/" + ".")
    ensures WithinLimits(cwd, a + "/" + "")
  {
    hide Components, StackFold, NeverFull;
    var full := FullPath(cwd, a);
    assert FullPath(cwd, a + "/" + ".") == full + "/" + ".";
    assert FullPath(cwd, a + "/" + "") == full + "/" + "";
    OnePart(".");
    NoPart();
    ComponentsSplit(full, ".");
    ComponentsSplit(full, "");
    StackFoldConcat([], Components(full), ["."]);
    StackFoldConcat([], Components(full), []);
    DotIgnored(StackFold([], Components(full)));
    NeverFullPrefix([], Components(full), ["."]);
    assert Components(full) + [] == Components(full);
  }

  lemma {:induction false} NeverFullPrefix(stack: seq<string>, cs: seq<string>, ds: seq<string>)
    requires NeverFull(stack, cs + ds)
    ensures NeverFull(stack, cs)
    decreases |cs|
  {
    if cs != [] {
      assert (cs + ds)[1..] == cs[1..] + ds;
      NeverFullPrefix(StackPush(stack, cs[0]), cs[1..], ds);
    }
  }

  // ---------- sixteen components ----------

  // Of plain components that fit the text buffer, the first sixteen survive and the rest are dropped.
  lemma SixteenSurvive(cwd: Option<string>, cs: seq<string>)
    requires cs != [] && AllPlain(cs) && |Concat(cs)| <= 127
    ensures Concat(cs) != "" && Survivors(cwd, Concat(cs)) == cs[..Min(|cs|, 16)]
  {
    ComponentsOfConcat(cs);
    assert Take(Concat(cs), TEMP_SIZE - 1) == Concat(cs);
    FoldKeepsFirst([], cs);
    assert [] + cs[..Min(|cs|, 16)] == cs[..Min(|cs|, 16)];
  }

  lemma {:induction false} FoldKeepsFirst(stack: seq<string>, cs: seq<string>)
    requires AllPlain(cs) && |stack| <= 16
    ensures Fold(stack, cs) == stack + cs[..Min(|cs|, 16 - |stack|)]
    decreases |cs|
  {
    if cs != [] {
      FoldKeepsFirst(Push(stack, cs[0]), cs[1..]);
      var n := Min(|cs|, 16 - |stack|);
      if |stack| < 16 {
        assert stack + [cs[0]] + cs[1..][..n - 1] == stack + cs[..n];
      }
    }
  }

  // ---------- sixty-three characters ----------

  // A plain path resolves to its first sixteen components when they fit in 63 characters.
  lemma PlainPath(cwd: Option<string>, cs: seq<string>)
    requires cs != [] && AllPlain(cs) && |Concat(cs)| <= 127 && |Concat(cs[..Min(|cs|, 16)])| <= 63
    ensures Resolve(cwd, Some(Concat(cs))) == Concat(cs[..Min(|cs|, 16)])
  {
    SixteenSurvive(cwd, cs);
    AppendAll("", cs[..Min(|cs|, 16)]);
  }

  // A component that does not fit is left out, and a later one that does is not.
  lemma LongOneSkipped(cwd: Option<string>, c: string, d: string)
    requires Plain(c) && Plain(d) && |c| + |d| <= 125 && |d| <= 62
    ensures |c| >= 63 ==> Resolve(cwd, Some("/" + c + "/" + d)) == "/" + d
    ensures |c| <= 62 && |c| + |d| >= 62 ==> Resolve(cwd, Some("/" + c + "/" + d)) == "/" + c
    ensures |c| + |d| <= 61 ==> Resolve(cwd, Some("/" + c + "/" + d)) == "/" + c + "/" + d
  {
    hide Components, Resolve, Concat, Fold;
    var cs := [c, d];
    TwoParts(c, d);
    SixteenSurvive(cwd, cs);
    assert cs[..Min(|cs|, 16)] == cs;
    assert "" + "/" + d == "/" + d;
    ResolveOfTwo(cwd, "/" + c + "/" + d, c, d);
  }

  lemma TwoParts(c: string, d: string)
    ensures Concat([c, d]) == "/" + c + "/" + d
  {
    assert [c, d][1..] == [d] && [d][1..] == [];
    assert Concat([d]) == "/" + d + "" == "/" + d;
    assert Concat([c, d]) == "/" + c + Concat([d]);
    assert "/" + c + ("/" + d) == "/" + c + "/" + d;
  }

  lemma ResolveOfTwo(cwd: Option<string>, path: string, c: string, d: string)
    requires path != "" && Survivors(cwd, path) == [c, d]
    ensures var first := if 1 + |c| < 64 then "/" + c else "";
      Resolve(cwd, Some(path)) == if |first| + 1 + |d| < 64 then first + "/" + d else first
  {
    var first := if 1 + |c| < 64 then "/" + c else "";
    assert [c, d][1..] == [d] && [d][1..] == [];
    assert "" + "/" + c == "/" + c;
    assert Append(first, [d]) == if |first| + 1 + |d| < 64 then first + "/" + d else first;
    assert Append("", [c, d]) == Append(first, [d]);
  }

  // ---------- 127 characters ----------

  // Of an absolute path only the first 127 characters count, and the working directory does not.
  lemma CutAt127(cwd: Option<string>, cwd': Option<string>, path: string)
    requires path != "" && path[0] == '/'
    ensures Resolve(cwd, Some(path)) == Resolve(cwd', Some(path[..Min(|path|, 127)]))
  {
    var cut := path[..Min(|path|, 127)];
    assert Take(path, TEMP_SIZE - 1) == cut && Take(cut, TEMP_SIZE - 1) == cut;
  }

  // A relative path is the one that starts with the working directory; the root adds one slash only.
  lemma RelativeIsJoined(cwd: string, path: string)
    requires path != "" && path[0] != '/' && (cwd == "" || cwd[0] == '/')
    ensures Resolve(Some(cwd), Some(path)) == Resolve(None, Some((if cwd == "/" then "" else cwd) + "/" + path))
    ensures Resolve(None, Some(path)) == Resolve(None, Some("/" + path))
  {
    hide Components, Fold;
    assert Take("/" + path, TEMP_SIZE - 1) == "/" + Take(path, TEMP_SIZE - 2);
    assert "" + "/" + path == "/" + path;
    if cwd != "/" {
      JoinedCut(cwd, path);
    }
  }

  lemma JoinedCut(cwd: string, path: string)
    requires path != "" && path[0] != '/' && (cwd == "" || cwd[0] == '/') && cwd != "/"
    ensures Components(Joined(Some(cwd), path)) == Components(Joined(None, cwd + "/" + path))
  {
    hide Components;
    var whole := cwd + "/" + path;
    if |cwd| < 126 {
      assert Take(cwd, TEMP_SIZE - 1) == cwd;
      assert Take(whole, TEMP_SIZE - 1) == cwd + "/" + Take(path, TEMP_SIZE - |cwd| - 2);
    } else if |cwd| == 126 {
      assert Take(cwd, TEMP_SIZE - 1) == cwd;
      assert Take(whole, TEMP_SIZE - 1) == cwd + "/" + "";
      ComponentsSplit(cwd, "");
      NoPart();
      assert Components(cwd) + [] == Components(cwd);
    } else {
      assert Take(whole, TEMP_SIZE - 1) == Take(cwd, TEMP_SIZE - 1);
    }
  }
}
