/** NUL-terminated strings in character buffers, and the library routines the kernel uses on them. */
module CStrings {
  import opened Common

  const NUL: char := '\0'

  // From position off on, the buffer holds the string t and its terminator.
  ghost predicate HoldsAt(buf: seq<char>, off: nat, t: string) {
    && off + |t| < |buf|
    && buf[off..off + |t|] == t
    && buf[off + |t|] == NUL
    && NUL !in t
  }

  function Take(s: string, n: nat): string {
    s[..Min(n, |s|)]
  }

  // A held string survives writes elsewhere.
  lemma HeldFrame(buf: seq<char>, buf': seq<char>, off: nat, t: string)
    requires HoldsAt(buf, off, t) && |buf'| == |buf|
    requires forall i :: off <= i <= off + |t| && i < |buf| ==> buf'[i] == buf[i]
    ensures HoldsAt(buf', off, t)
  {
  }

  method Strlen(buf: array<char>, off: nat, ghost t: string) returns (n: nat)
    requires HoldsAt(buf[..], off, t)
    ensures n == |t|
  {
    n := 0;
    while buf[off + n] != NUL
      invariant n <= |t|
      decreases |t| - n
    {
      assert buf[off + n] == buf[..][off + n];
      n := n + 1;
    }
  }

  // The difference of the first characters in which two strings differ, a NUL ending each.
  function Difference(t: string, s: string): int {
    if t == "" || s == "" || t[0] != s[0] then First(t) - First(s) else Difference(t[1..], s[1..])
  }

  function First(s: string): int {
    (if s == "" then NUL else s[0]) as int
  }

  lemma {:induction false} NoDifference(t: string, s: string)
    requires NUL !in t && NUL !in s
    ensures Difference(t, s) == 0 <==> t == s
  {
    if t != "" && s != "" && t[0] == s[0] {
      assert t == [t[0]] + t[1..] && s == [s[0]] + s[1..];
      NoDifference(t[1..], s[1..]);
    } else {
      assert t != "" ==> t[0] in t;
      assert s != "" ==> s[0] in s;
    }
  }

  // The difference is that of the first place where the strings differ.
  lemma {:induction false} DifferenceAt(p: string, a: char, u: string, b: char, v: string)
    requires a != b
    ensures Difference(p + [a] + u, p + [b] + v) == a as int - b as int
    ensures Difference(p, p + [b] + v) == 0 - b as int && Difference(p + [a] + u, p) == a as int
  {
    if p == "" {
      assert p + [a] + u == [a] + u && p + [b] + v == [b] + v;
    } else {
      assert (p + [a] + u)[1..] == p[1..] + [a] + u && (p + [b] + v)[1..] == p[1..] + [b] + v;
      DifferenceAt(p[1..], a, u, b, v);
    }
  }

  // strcmp of a held string and a constant.
  method Strcmp(buf: array<char>, off: nat, ghost t: string, s: string) returns (d: int)
    requires HoldsAt(buf[..], off, t) && NUL !in s
    ensures d == Difference(t, s)
    ensures d == 0 <==> t == s
  {
    var i := 0;
    HeldChar(buf[..], off, t, 0);
    while buf[off + i] != NUL && i < |s| && buf[off + i] == s[i]
      invariant i <= |t| && i <= |s| && off + i < buf.Length
      invariant (buf[off + i] == NUL <==> i == |t|) && (i < |t| ==> buf[off + i] == t[i])
      invariant Difference(t[i..], s[i..]) == Difference(t, s)
      decreases |t| - i
    {
      HeldChar(buf[..], off, t, i + 1);
      assert t[i..][1..] == t[i + 1..] && s[i..][1..] == s[i + 1..];
      i := i + 1;
    }
    d := buf[off + i] as int - (if i < |s| then s[i] else NUL) as int;
    if i < |s| {
      assert s[i] in s;
    }
    NoDifference(t, s);
  }

  // strncpy from a string: the first n characters, then NULs up to n.
  method Strncpy(dest: array<char>, src: string, n: nat)
    requires n <= dest.Length && NUL !in src
    modifies dest
    ensures dest[..Min(n, |src|)] == Take(src, n)
    ensures forall i :: Min(n, |src|) <= i < n ==> dest[i] == NUL
    ensures forall i :: n <= i < dest.Length ==> dest[i] == old(dest[i])
  {
    var i := 0;
    while i < n && i < |src|
      invariant i <= n && i <= |src| && dest[..i] == src[..i]
      invariant forall k :: n <= k < dest.Length ==> dest[k] == old(dest[k])
    {
      dest[i] := src[i];
      i := i + 1;
    }
    ghost var m := i;
    while i < n
      invariant m <= i <= n && dest[..m] == src[..m]
      invariant forall k :: m <= k < i ==> dest[k] == NUL
      invariant forall k :: n <= k < dest.Length ==> dest[k] == old(dest[k])
    {
      dest[i] := NUL;
      i := i + 1;
    }
  }

  // strncpy of at most n characters followed by the terminator the callers write themselves.
  method CopyBounded(dest: array<char>, src: string, n: nat)
    requires n < dest.Length && NUL !in src
    modifies dest
    ensures HoldsAt(dest[..], 0, Take(src, n))
  {
    Strncpy(dest, src, n);
    dest[n] := NUL;
    assert dest[..][..Min(n, |src|)] == Take(src, n);
  }

  // strncat from a string.
  method Strncat(dest: array<char>, ghost t: string, src: string, n: nat)
    requires HoldsAt(dest[..], 0, t) && NUL !in src && |t| + Min(n, |src|) < dest.Length
    modifies dest
    ensures HoldsAt(dest[..], 0, t + Take(src, n))
  {
    var d := Strlen(dest, 0, t);
    var i := 0;
    while i < n && i < |src|
      invariant i <= n && i <= |src| && dest[..d + i] == t + src[..i]
    {
      dest[d + i] := src[i];
      i := i + 1;
    }
    dest[d + i] := NUL;
    assert dest[..][..d + i] == t + Take(src, n);
  }

  // strcat of the string held in another buffer.
  method Strcat(dest: array<char>, ghost t: string, buf: array<char>, off: nat, ghost c: string)
    requires dest != buf && HoldsAt(dest[..], 0, t) && HoldsAt(buf[..], off, c) && |t| + |c| < dest.Length
    modifies dest
    ensures HoldsAt(dest[..], 0, t + c)
  {
    var d := Strlen(dest, 0, t);
    var n := Strlen(buf, off, c);
    var i := 0;
    while i < n
      invariant i <= n && dest[..d + i] == t + c[..i]
      invariant HoldsAt(buf[..], off, c)
    {
      assert buf[..][off..off + |c|][i] == c[i];
      dest[d + i] := buf[off + i];
      i := i + 1;
    }
    dest[d + i] := NUL;
    assert dest[..][..d + i] == t + c;
  }

  // ---------- strstr ----------

  predicate OccursAt(t: string, needle: string, i: nat) {
    i + |needle| <= |t| && t[i..i + |needle|] == needle
  }

  // The leftmost place where needle occurs in t, or |t| + 1.
  function FindSub(t: string, needle: string): (i: nat)
    ensures i <= |t| + 1
    ensures i <= |t| ==> OccursAt(t, needle, i)
    ensures forall j :: 0 <= j < i && j <= |t| ==> !OccursAt(t, needle, j)
  {
    if OccursAt(t, needle, 0) then 0
    else if t == "" then 1
    else
      var i := FindSub(t[1..], needle);
      assert forall j :: 1 <= j <= |t| ==> (OccursAt(t, needle, j) <==> OccursAt(t[1..], needle, j - 1)) by {
        forall j | 1 <= j <= |t| ensures OccursAt(t, needle, j) <==> OccursAt(t[1..], needle, j - 1) {
          if j + |needle| <= |t| {
            assert t[1..][j - 1..j - 1 + |needle|] == t[j..j + |needle|];
          }
        }
      }
      i + 1
  }

  lemma FindSubIs(t: string, needle: string, i: nat)
    requires i <= |t| + 1 && (i <= |t| ==> OccursAt(t, needle, i))
    requires forall j :: 0 <= j < i && j <= |t| ==> !OccursAt(t, needle, j)
    ensures FindSub(t, needle) == i
  {
  }

  // strstr on a held string: the offset of the leftmost occurrence, or none.
  method Strstr(buf: array<char>, off: nat, ghost t: string, needle: string) returns (found: bool, at: nat)
    requires HoldsAt(buf[..], off, t) && needle != "" && NUL !in needle
    ensures found <==> FindSub(t, needle) <= |t|
    ensures found ==> at == FindSub(t, needle)
  {
    at := 0;
    while buf[off + at] != NUL
      invariant at <= |t| && forall j :: 0 <= j < at ==> !OccursAt(t, needle, j)
      decreases |t| - at
    {
      HeldChar(buf[..], off, t, at);
      var n := 0;
      while n < |needle| && buf[off + at + n] != NUL && buf[off + at + n] == needle[n]
        invariant n <= |needle| && at + n <= |t| && t[at..at + n] == needle[..n]
        decreases |needle| - n
      {
        HeldChar(buf[..], off, t, at + n);
        n := n + 1;
      }
      HeldChar(buf[..], off, t, at + n);
      if n == |needle| {
        assert needle[..n] == needle;
        FindSubIs(t, needle, at);
        return true, at;
      }
      NoOccurrence(t, needle, at, n);
      at := at + 1;
    }
    HeldChar(buf[..], off, t, at);
    FindSubIs(t, needle, |t| + 1);
    return false, 0;
  }

  // A mismatch at position n rules an occurrence out.
  lemma NoOccurrence(t: string, needle: string, at: nat, n: nat)
    requires n < |needle| && NUL !in needle && at + n <= |t|
    requires at + n < |t| ==> t[at + n] != needle[n]
    ensures !OccursAt(t, needle, at)
  {
    if at + |needle| <= |t| {
      assert t[at..at + |needle|][n] == t[at + n];
    }
  }

  lemma HeldChar(buf: seq<char>, off: nat, t: string, i: nat)
    requires HoldsAt(buf, off, t) && i <= |t|
    ensures off + i < |buf|
    ensures buf[off + i] == NUL <==> i == |t|
    ensures i < |t| ==> buf[off + i] == t[i]
  {
    if i < |t| {
      assert buf[off..off + |t|][i] == t[i];
      assert t[i] in t;
    }
  }
}
