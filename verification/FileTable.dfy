/** The file system: sixty-four slots that stand for a map from paths to files, and the change log. */
module FileTable {
  import opened Common
  import opened CStrings

  const FS_MAX_FILES: nat := 64
  const FS_MAX_PATH: nat := 64
  const FS_MAX_FILESIZE: nat := 2048
  const FS_MAX_CHANGES: nat := 64

  // One slot; data is the first size bytes of the slot's buffer.
  datatype File = File(path: string, data: string, isDir: bool, isSystem: bool, used: bool)

  // What a path leads to.
  datatype Entry = Entry(data: string, isDir: bool, isSystem: bool)

  predicate StartsWith(s: string, prefix: string) {
    |s| >= |prefix| && s[..|prefix|] == prefix
  }

  predicate SystemPath(path: string) {
    StartsWith(path, "/boot") || StartsWith(path, "/krnl")
  }

  // ---------- the slots as a value ----------

  predicate Matches(f: File, path: string) {
    f.used && f.path == path
  }

  // The first slot that holds path, or the number of slots.
  function FindIn(fs: seq<File>, path: string): (i: nat)
    ensures i <= |fs| && (i < |fs| ==> Matches(fs[i], path))
    ensures forall j :: 0 <= j < i ==> !Matches(fs[j], path)
  {
    if fs == [] || Matches(fs[0], path) then 0 else 1 + FindIn(fs[1..], path)
  }

  // The first unused slot, or the number of slots.
  function FreeIn(fs: seq<File>): (i: nat)
    ensures i <= |fs| && (i < |fs| ==> !fs[i].used)
    ensures forall j :: 0 <= j < i ==> fs[j].used
  {
    if fs == [] || !fs[0].used then 0 else 1 + FreeIn(fs[1..])
  }

  function NewFile(path: string, isDir: bool): File {
    File(Take(path, FS_MAX_PATH - 1), "", isDir, SystemPath(path), true)
  }

  function Added(fs: seq<File>, path: string, isDir: bool): seq<File> {
    if FindIn(fs, path) < |fs| || FreeIn(fs) == |fs| then fs
    else fs[FreeIn(fs) := NewFile(path, isDir)]
  }

  function Written(fs: seq<File>, path: string, data: string): seq<File> {
    var i := FindIn(fs, path);
    if i == |fs| || fs[i].isDir then fs else fs[i := fs[i].(data := Take(data, FS_MAX_FILESIZE - 1))]
  }

  function Deleted(fs: seq<File>, path: string): seq<File> {
    var i := FindIn(fs, path);
    if i == |fs| then fs else fs[i := fs[i].(used := false, path := "", data := "")]
  }

  function BytesIn(fs: seq<File>): nat {
    if fs == [] then 0
    else BytesIn(fs[..|fs| - 1]) + Size(fs[|fs| - 1])
  }

  function Size(f: File): nat {
    if f.used && !f.isDir then |f.data| else 0
  }

  // System paths are those under "/boot" and "/krnl", as far as the first five characters tell.
  lemma SystemPathIs(path: string)
    ensures SystemPath(path) <==> exists rest :: path == "/boot" + rest || path == "/krnl" + rest
  {
    if SystemPath(path) {
      assert path == "/boot" + path[5..] || path == "/krnl" + path[5..];
    }
  }

  // No path is held by two used slots.
  ghost predicate Unique(fs: seq<File>) {
    forall i, j :: 0 <= i < j < |fs| && fs[i].used && fs[j].used ==> fs[i].path != fs[j].path
  }

  // Every used slot has a short path and the system flag its path asks for.
  ghost predicate Flagged(fs: seq<File>) {
    forall i :: 0 <= i < |fs| && fs[i].used ==>
      |fs[i].path| < FS_MAX_PATH && NUL !in fs[i].path && fs[i].isSystem == SystemPath(fs[i].path)
  }

  // ---------- the map it stands for ----------

  ghost function PathsIn(fs: seq<File>): set<string> {
    set i | 0 <= i < |fs| && fs[i].used :: fs[i].path
  }

  ghost function TableOf(fs: seq<File>): map<string, Entry> {
    map p | p in PathsIn(fs) :: EntryOf(fs[FindIn(fs, p)])
  }

  function EntryOf(f: File): Entry {
    Entry(f.data, f.isDir, f.isSystem)
  }

  lemma TableHas(fs: seq<File>, path: string)
    ensures path in TableOf(fs) <==> FindIn(fs, path) < |fs|
  {
    if FindIn(fs, path) < |fs| {
      assert Matches(fs[FindIn(fs, path)], path);
    }
  }

  lemma TableAt(fs: seq<File>, path: string)
    ensures FindIn(fs, path) < |fs| ==> path in TableOf(fs) && TableOf(fs)[path] == EntryOf(fs[FindIn(fs, path)])
  {
    TableHas(fs, path);
  }

  lemma FindIs(fs: seq<File>, path: string, i: nat)
    requires Unique(fs) && i < |fs| && Matches(fs[i], path)
    ensures FindIn(fs, path) == i
  {
    var j := FindIn(fs, path);
    assert j <= i;
    assert Matches(fs[j], path);
  }

  // What replacing one slot does to the table, as long as paths stay unique.
  lemma SlotReplaced(fs: seq<File>, k: nat, f: File)
    requires k < |fs| && Unique(fs) && Unique(fs[k := f])
    ensures TableOf(fs[k := f]) ==
      (if fs[k].used then TableOf(fs) - {fs[k].path} else TableOf(fs)) +
      (if f.used then map[f.path := EntryOf(f)] else map[])
  {
    hide TableOf, FindIn, Unique;
    var gs := fs[k := f];
    var base := if fs[k].used then TableOf(fs) - {fs[k].path} else TableOf(fs);
    var want := base + (if f.used then map[f.path := EntryOf(f)] else map[]);
    forall p ensures p in TableOf(gs) <==> p in want
             ensures p in TableOf(gs) ==> TableOf(gs)[p] == want[p]
    {
      hide TableOf, FindIn, Unique;
      SlotReplacedAt(fs, k, f, p);
    }
  }

  lemma SlotReplacedAt(fs: seq<File>, k: nat, f: File, p: string)
    requires k < |fs| && Unique(fs) && Unique(fs[k := f])
    ensures var gs := fs[k := f];
      if f.used && p == f.path then p in TableOf(gs) && TableOf(gs)[p] == EntryOf(f)
      else if fs[k].used && p == fs[k].path then p !in TableOf(gs)
      else (p in TableOf(gs) <==> p in TableOf(fs)) && (p in TableOf(fs) ==> TableOf(gs)[p] == TableOf(fs)[p])
  {
    hide TableOf, FindIn;
    var gs := fs[k := f];
    TableHas(fs, p);
    TableHas(gs, p);
    TableAt(fs, p);
    TableAt(gs, p);
    var i, j := FindIn(fs, p), FindIn(gs, p);
    if i < |fs| && i != k {
      assert Matches(gs[i], p);
      FindIs(gs, p, i);
    }
    if j < |gs| && j != k {
      assert Matches(fs[j], p);
      FindIs(fs, p, j);
    }
    if f.used && p == f.path {
      assert Matches(gs[k], p);
      FindIs(gs, p, k);
    } else if fs[k].used && p == fs[k].path {
      FindIs(fs, p, k);
    }
  }

  // ---------- the operations as map updates ----------

  lemma AddedIsUpdate(fs: seq<File>, path: string, isDir: bool)
    requires Unique(fs) && Flagged(fs) && |path| < FS_MAX_PATH && NUL !in path
    ensures var gs := Added(fs, path, isDir);
      && Unique(gs) && Flagged(gs)
      && (gs != fs <==> path !in TableOf(fs) && FreeIn(fs) < |fs|)
      && TableOf(gs) == if gs == fs then TableOf(fs)
                        else TableOf(fs)[path := Entry("", isDir, SystemPath(path))]
  {
    hide TableOf, FindIn, FreeIn, SystemPath, Unique, Flagged;
    var gs := Added(fs, path, isDir);
    TableHas(fs, path);
    if FindIn(fs, path) == |fs| && FreeIn(fs) < |fs| {
      var k := FreeIn(fs);
      assert Take(path, FS_MAX_PATH - 1) == path;
      StillUnique(fs, k, NewFile(path, isDir));
      StillFlagged(fs, k, NewFile(path, isDir));
      assert gs[k].used && !fs[k].used;
      SlotReplaced(fs, k, NewFile(path, isDir));
    }
  }

  lemma StillFlagged(fs: seq<File>, k: nat, f: File)
    requires k < |fs| && Flagged(fs)
    requires |f.path| < FS_MAX_PATH && NUL !in f.path && f.isSystem == SystemPath(f.path)
    ensures Flagged(fs[k := f])
  {
  }

  lemma StillUnique(fs: seq<File>, k: nat, f: File)
    requires k < |fs| && Unique(fs) && FindIn(fs, f.path) == |fs|
    ensures Unique(fs[k := f])
  {
    var gs := fs[k := f];
    forall i, j | 0 <= i < j < |gs| && gs[i].used && gs[j].used ensures gs[i].path != gs[j].path {
      assert i != k ==> !Matches(fs[i], f.path);
      assert j != k ==> !Matches(fs[j], f.path);
    }
  }

  lemma WrittenIsUpdate(fs: seq<File>, path: string, data: string)
    requires Unique(fs) && Flagged(fs)
    ensures var gs := Written(fs, path, data);
      && Unique(gs) && Flagged(gs)
      && TableOf(gs) == if path in TableOf(fs) && !TableOf(fs)[path].isDir
                        then TableOf(fs)[path := TableOf(fs)[path].(data := Take(data, FS_MAX_FILESIZE - 1))]
                        else TableOf(fs)
  {
    hide TableOf, FindIn, SystemPath;
    TableHas(fs, path);
    TableAt(fs, path);
    var i := FindIn(fs, path);
    if i < |fs| && !fs[i].isDir {
      SlotReplaced(fs, i, fs[i].(data := Take(data, FS_MAX_FILESIZE - 1)));
    }
  }

  lemma DeletedIsUpdate(fs: seq<File>, path: string)
    requires Unique(fs) && Flagged(fs)
    ensures var gs := Deleted(fs, path);
      Unique(gs) && Flagged(gs) && TableOf(gs) == TableOf(fs) - {path}
  {
    hide TableOf, FindIn, SystemPath;
    TableHas(fs, path);
    var i := FindIn(fs, path);
    if i < |fs| {
      SlotReplaced(fs, i, fs[i].(used := false, path := "", data := ""));
    }
  }

  // Flags stay right for paths of any length: a path and what is left of it after the cut agree on them.
  lemma AddedFlagged(fs: seq<File>, path: string, isDir: bool)
    requires Flagged(fs) && NUL !in path
    ensures Flagged(Added(fs, path, isDir))
  {
    hide Flagged;
    var k, f := FreeIn(fs), NewFile(path, isDir);
    assert forall prefix: string {:trigger StartsWith(path, prefix)} :: |prefix| == 5 ==>
      (StartsWith(f.path, prefix) <==> StartsWith(path, prefix));
    if k < |fs| {
      StillFlagged(fs, k, f);
    }
  }

  // A path too long for a slot is in none.
  lemma NotThere(fs: seq<File>, path: string)
    requires |path| >= FS_MAX_PATH && forall i :: 0 <= i < |fs| && fs[i].used ==> |fs[i].path| < FS_MAX_PATH
    ensures FindIn(fs, path) == |fs|
  {
  }

  // Paths of 64 characters and more: the slot is given a cut path, so the file cannot be found under
  // its own name, and uniqueness survives exactly when no file has the cut path already.
  lemma LongPathIsLost(fs: seq<File>, path: string, isDir: bool)
    requires Unique(fs) && Flagged(fs) && |path| >= 64 && FreeIn(fs) < |fs|
    ensures var gs := Added(fs, path, isDir);
      && gs != fs && FindIn(gs, path) == |gs|
      && (Unique(gs) <==> path[..63] !in TableOf(fs))
  {
    hide TableOf, FindIn, FreeIn, SystemPath;
    var k, cut := FreeIn(fs), path[..63];
    assert cut == Take(path, FS_MAX_PATH - 1);
    var gs := Added(fs, path, isDir);
    NotThere(fs, path);
    assert gs == fs[k := NewFile(path, isDir)];
    NotThere(gs, path);
    assert gs[k].used && !fs[k].used;
    TableHas(fs, cut);
    var i := FindIn(fs, cut);
    if i < |fs| {
      assert gs[i].used && gs[k].used && gs[i].path == gs[k].path;
    } else {
      StillUnique(fs, k, NewFile(path, isDir));
    }
  }

  // ---------- how many files, how many bytes ----------

  lemma {:induction false} UsedSlotsArePaths(fs: seq<File>)
    requires Unique(fs)
    ensures |PathsIn(fs)| <= |fs|
    ensures |PathsIn(fs)| == |fs| <==> FreeIn(fs) == |fs|
  {
    hide FreeIn;
    if fs != [] {
      var n := |fs| - 1;
      var init := fs[..n];
      UsedSlotsArePaths(init);
      assert FreeIn(init) == n <==> forall j :: 0 <= j < n ==> fs[j].used;
      if fs[n].used {
        assert PathsIn(fs) == PathsIn(init) + {fs[n].path};
        assert fs[n].path !in PathsIn(init);
      } else {
        assert PathsIn(fs) == PathsIn(init);
      }
    }
  }

  ghost function BytesOf(m: map<string, Entry>): nat {
    if m == map[] then 0
    else
      var p :| p in m;
      (if m[p].isDir then 0 else |m[p].data|) + BytesOf(m - {p})
  }

  // The sum does not depend on the order in which the paths are taken.
  lemma {:induction false} BytesWithout(m: map<string, Entry>, p: string)
    requires p in m
    ensures BytesOf(m) == (if m[p].isDir then 0 else |m[p].data|) + BytesOf(m - {p})
    decreases |m|
  {
    var q :| q in m && BytesOf(m) == (if m[q].isDir then 0 else |m[q].data|) + BytesOf(m - {q});
    if q != p {
      BytesWithout(m - {q}, p);
      assert m - {q} - {p} == m - {p} - {q};
      BytesWithout(m - {p}, q);
    }
  }

  lemma {:induction false} BytesAreTheTables(fs: seq<File>)
    requires Unique(fs)
    ensures BytesIn(fs) == BytesOf(TableOf(fs))
  {
    hide TableOf, BytesOf;
    if fs == [] {
      NoTable();
    } else {
      var n := |fs| - 1;
      var init := fs[..n];
      BytesAreTheTables(init);
      LastSlot(fs);
      if fs[n].used {
        BytesWithout(TableOf(fs), fs[n].path);
        assert TableOf(fs) - {fs[n].path} == TableOf(init);
      }
    }
  }

  lemma NoTable()
    ensures TableOf([]) == map[] && BytesOf(map[]) == 0
  {
  }

  lemma LastSlot(fs: seq<File>)
    requires fs != [] && Unique(fs)
    ensures var n := |fs| - 1;
      && (!fs[n].used ==> TableOf(fs) == TableOf(fs[..n]))
      && (fs[n].used ==> fs[n].path !in TableOf(fs[..n])
                         && TableOf(fs) == TableOf(fs[..n])[fs[n].path := EntryOf(fs[n])])
  {
    hide TableOf, FindIn;
    var n := |fs| - 1;
    var init := fs[..n];
    forall p ensures p in TableOf(init) ==> p in TableOf(fs) && TableOf(fs)[p] == TableOf(init)[p]
             ensures p in TableOf(fs) && p !in TableOf(init) ==> fs[n].used && p == fs[n].path
    {
      LastSlotAt(fs, p);
    }
    if fs[n].used {
      var p := fs[n].path;
      assert Matches(fs[n], p);
      FindIs(fs, p, n);
      TableAt(fs, p);
      TableHas(init, p);
      var i := FindIn(init, p);
    }
  }

  lemma LastSlotAt(fs: seq<File>, p: string)
    requires fs != [] && Unique(fs)
    ensures var init := fs[..|fs| - 1];
      && (p in TableOf(init) ==> p in TableOf(fs) && TableOf(fs)[p] == TableOf(init)[p])
      && (p in TableOf(fs) && p !in TableOf(init) ==> Matches(fs[|fs| - 1], p))
  {
    hide TableOf, FindIn;
    var n := |fs| - 1;
    var init := fs[..n];
    TableHas(fs, p);
    TableAt(fs, p);
    TableHas(init, p);
    TableAt(init, p);
    var i, j := FindIn(init, p), FindIn(fs, p);
    if i < n {
      assert Matches(fs[i], p);
      FindIs(fs, p, i);
    }
  }

  // ---------- the file system as it runs ----------

  class FileSystem {
    const files: array<File>

    constructor ()
      ensures Valid() && Table() == map[] && fresh(files)
    {
      files := new File[FS_MAX_FILES](_ => File("", "", false, false, false));
    }

    function Slots(): seq<File>
      reads files
    {
      files[..]
    }

    // Kept by every operation, whatever the paths.
    ghost predicate Labelled()
      reads files
    {
      files.Length == FS_MAX_FILES && Flagged(Slots())
    }

    // Kept by every operation on paths under 64 characters.
    ghost predicate Valid()
      reads files
    {
      Labelled() && Unique(Slots())
    }

    method FindSlot() returns (i: nat)
      ensures i == FreeIn(Slots())
    {
      i := 0;
      while i < files.Length && files[i].used
        invariant i <= files.Length && FreeIn(files[..]) == i + FreeIn(files[i..])
      {
        i := i + 1;
      }
    }

    method Find(path: string) returns (i: nat)
      ensures i == FindIn(Slots(), path)
    {
      i := 0;
      while i < files.Length && !(files[i].used && files[i].path == path)
        invariant i <= files.Length && FindIn(files[..], path) == i + FindIn(files[i..], path)
      {
        i := i + 1;
      }
    }

    // The map from paths to files.
    ghost function Table(): map<string, Entry>
      reads files
    {
      TableOf(Slots())
    }

    // The part fs_create and fs_mkdir share: take the first unused slot.
    method Add(path: string, isDir: bool) returns (r: int)
      modifies files
      ensures Slots() == Added(old(Slots()), path, isDir)
      ensures r == if Slots() != old(Slots()) then 0 else -1
    {
      var i := Find(path);
      if i < files.Length {
        return -1;
      }
      var f := FindSlot();
      if f == files.Length {
        return -1;
      }
      files[f] := File(Take(path, FS_MAX_PATH - 1), "", isDir, SystemPath(path), true);
      assert Slots()[f].used && !old(Slots())[f].used;
      return 0;
    }

    method Create(path: string) returns (r: int)
      requires Labelled() && NUL !in path
      modifies files
      ensures Slots() == Added(old(Slots()), path, false) && Labelled()
      ensures old(Valid()) && |path| < 64 ==> Valid() && AddStep(old(Table()), Table(), path, false, r)
    {
      ghost var fs := Slots();
      r := Add(path, false);
      AddedFlagged(fs, path, false);
      if old(Valid()) && |path| < FS_MAX_PATH {
        AddedIsUpdate(fs, path, false);
        RoomIsFreeSlot(fs);
      }
    }

    method Mkdir(path: string) returns (r: int)
      requires Labelled() && NUL !in path
      modifies files
      ensures path == "/" ==> r == -1 && Slots() == old(Slots())
      ensures path != "/" ==> Slots() == Added(old(Slots()), path, true) && Labelled()
      ensures old(Valid()) && |path| < 64 && path != "/" ==> Valid() && AddStep(old(Table()), Table(), path, true, r)
    {
      ghost var fs := Slots();
      if path == "/" {
        return -1;
      }
      r := Add(path, true);
      AddedFlagged(fs, path, true);
      if old(Valid()) && |path| < FS_MAX_PATH {
        AddedIsUpdate(fs, path, true);
        RoomIsFreeSlot(fs);
      }
    }

    method Write(path: string, data: string) returns (r: int)
      requires Labelled()
      modifies files
      ensures Slots() == Written(old(Slots()), path, data) && Labelled()
      ensures old(Valid()) ==> Valid() && var regular := path in old(Table()) && !old(Table())[path].isDir;
        && r == (if regular then 0 else -1)
        && Table() == if regular then old(Table())[path := old(Table())[path].(data := Take(data, 2047))]
                      else old(Table())
    {
      ghost var fs := Slots();
      if old(Valid()) {
        WrittenIsUpdate(fs, path, data);
        TableAt(fs, path);
        TableHas(fs, path);
      }
      var i := Find(path);
      if i == files.Length || files[i].isDir {
        return -1;
      }
      files[i] := files[i].(data := Take(data, FS_MAX_FILESIZE - 1));
      return 0;
    }

    method Delete(path: string) returns (r: int)
      requires Labelled()
      modifies files
      ensures Slots() == Deleted(old(Slots()), path) && Labelled()
      ensures old(Valid()) ==> Valid() && Table() == old(Table()) - {path}
      ensures r == if path in old(Table()) then 0 else -1
    {
      ghost var fs := Slots();
      if old(Valid()) {
        DeletedIsUpdate(fs, path);
      }
      TableHas(fs, path);
      var i := Find(path);
      if i == files.Length {
        return -1;
      }
      files[i] := files[i].(used := false, path := "", data := "");
      return 0;
    }

    // What fs_find hands to its callers.
    method Lookup(path: string) returns (r: Option<Entry>)
      requires Valid()
      ensures r == if path in Table() then Some(Table()[path]) else None
    {
      TableHas(Slots(), path);
      TableAt(Slots(), path);
      var i := Find(path);
      r := if i < files.Length then Some(EntryOf(files[i])) else None;
    }

    // The table never changes the answer the prefix gives, whatever paths it holds.
    method IsSystem(path: string) returns (r: bool)
      requires Labelled()
      ensures r <==> |path| >= 5 && (path[..5] == "/boot" || path[..5] == "/krnl")
    {
      if StartsWith(path, "/boot") || StartsWith(path, "/krnl") {
        return true;
      }
      var i := Find(path);
      r := i < files.Length && files[i].isSystem;
    }

    method IsDir(path: string) returns (r: bool)
      requires Valid()
      ensures r <==> path == "/" || (path in Table() && Table()[path].isDir)
    {
      if path == "/" {
        return true;
      }
      var f := Lookup(path);
      r := f.Some? && f.value.isDir;
    }

    method UsedBytes() returns (total: nat)
      requires Valid()
      ensures total == BytesOf(Table())
    {
      total := 0;
      var i := 0;
      while i < files.Length
        invariant i <= files.Length && total == BytesIn(files[..i])
      {
        assert files[..i + 1][..i] == files[..i];
        if files[i].used && !files[i].isDir {
          total := total + |files[i].data|;
        }
        i := i + 1;
      }
      assert files[..i] == Slots();
      BytesAreTheTables(Slots());
    }
  }

  // Adding succeeds exactly when the path is new and fewer than 64 exist, and adds an empty entry.
  ghost predicate AddStep(t: map<string, Entry>, t': map<string, Entry>, path: string, isDir: bool, r: int) {
    if path !in t && |t| < 64 then r == 0 && t' == t[path := Entry("", isDir, SystemPath(path))]
    else r == -1 && t' == t
  }

  lemma RoomIsFreeSlot(fs: seq<File>)
    requires Unique(fs)
    ensures |TableOf(fs)| < |fs| <==> FreeIn(fs) < |fs|
  {
    UsedSlotsArePaths(fs);
    assert TableOf(fs).Keys == PathsIn(fs);
  }

  // ---------- the change log ----------

  datatype Change = Change(kind: string, user: string, filename: string)

  function Cut(kind: string, user: string, filename: string): Change {
    Change(Take(kind, 9), Take(user, 15), Take(filename, FS_MAX_PATH - 1))
  }

  // The last n entries of a history.
  function LastOf<T>(events: seq<T>, n: nat): seq<T> {
    if |events| <= n then events else events[|events| - n..]
  }

  // What is kept of an event's texts: their first 9, 15 and 63 characters.
  lemma CutIs(kind: string, user: string, filename: string)
    ensures var e := Cut(kind, user, filename);
      && e.kind <= kind && |e.kind| == Min(|kind|, 9)
      && e.user <= user && |e.user| == Min(|user|, 15)
      && e.filename <= filename && |e.filename| == Min(|filename|, 63)
  {
  }

  // One more event: it pushes the oldest one out once there are n.
  lemma LastOfNext<T>(events: seq<T>, e: T, n: nat)
    requires n > 0
    ensures var last := LastOf(events, n);
      LastOf(events + [e], n) == (if |last| < n then last else last[1..]) + [e]
  {
  }

  class ChangeLog {
    const log: array<Change>
    var count: nat
    ghost var events: seq<Change>

    ghost predicate Valid()
      reads this, log
    {
      && log.Length == FS_MAX_CHANGES && count <= FS_MAX_CHANGES
      && log[..count] == LastOf(events, FS_MAX_CHANGES)
    }

    // The log holds the last 64 events, oldest first.
    lemma Recent()
      requires Valid()
      ensures count == Min(|events|, 64) <= log.Length
      ensures forall i :: 0 <= i < count ==> log[i] == events[|events| - count + i]
    {
      assert forall i :: 0 <= i < count ==> log[i] == log[..count][i];
    }

    constructor ()
      ensures Valid() && events == [] && fresh(log)
    {
      log := new Change[FS_MAX_CHANGES](_ => Change("", "", ""));
      count, events := 0, [];
    }

    // fs_log_change: shift out the oldest entry when the log is full, then append.
    method Record(kind: string, user: string, filename: string)
      requires Valid()
      modifies this, log
      ensures Valid() && events == old(events) + [Cut(kind, user, filename)]
    {
      hide LastOf, Cut;
      var e := Cut(kind, user, filename);
      ghost var was := log[..count];
      LastOfNext(events, e, FS_MAX_CHANGES);
      if count >= FS_MAX_CHANGES {
        assert was == log[..];
        ShiftOut();
        count := FS_MAX_CHANGES - 1;
        was := was[1..];
      }
      assert log[..count] == was;
      Append(e);
      events := events + [e];
    }

    method Append(e: Change)
      requires count < log.Length
      modifies this`count, log
      ensures count == old(count) + 1 && log[..count] == old(log[..count]) + [e]
    {
      log[count] := e;
      count := count + 1;
    }

    // The loop that shifts out the oldest entry of a full log.
    method ShiftOut()
      requires log.Length == FS_MAX_CHANGES
      modifies log
      ensures log[..FS_MAX_CHANGES - 1] == old(log[..])[1..]
    {
      var i := 0;
      while i < FS_MAX_CHANGES - 1
        invariant i <= FS_MAX_CHANGES - 1
        invariant forall k :: 0 <= k < i ==> log[k] == old(log[k + 1])
        invariant forall k :: i <= k < FS_MAX_CHANGES ==> log[k] == old(log[k])
      {
        log[i] := log[i + 1];
        i := i + 1;
      }
    }
  }
}
