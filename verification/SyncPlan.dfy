/** Planning a one-way sync: which action each path of the source and of the
    destination gets. */
module SyncPlan {
  import opened Bytes
  import opened Seqs
  import Times

  /** A relative path as the list of its names; it has one slash fewer than names. */
  type Path = seq<string>

  /** `sized`: the protocol reports the file's size; `mtime`: its time, as a string. */
  datatype Node = Dir | File(bytes: seq<byte>, mtime: Option<string>, sized: bool)

  /** Everything below a sync root. */
  type Tree = map<Path, Node>

  function Slashes(p: Path): int {
    |p| - 1
  }

  /** What lies above a listed path is a listed directory. */
  ghost predicate Rooted(t: Tree) {
    forall p :: p in t ==> p != [] && (|p| > 1 ==> p[..|p| - 1] in t && t[p[..|p| - 1]].Dir?)
  }

  // ---- Listings ----------------------------------------------------------------------------

  /** A `DirectoryEntry` with its relative path. */
  datatype Entry = Entry(path: Path, isDir: bool, size: Option<nat>, mtime: Option<string>)

  function EntryPath(e: Entry): Path {
    e.path
  }

  function EntryOf(p: Path, n: Node): Entry {
    match n
    case Dir => Entry(p, true, None, None)
    case File(bytes, mtime, sized) => Entry(p, false, if sized then Some(|bytes|) else None, mtime)
  }

  /** Entries of the tree, none twice. */
  predicate Reports(es: seq<Entry>, t: Tree) {
    && Keyed(es, EntryPath)
    && (forall i :: 0 <= i < |es| ==> es[i].path in t && es[i] == EntryOf(es[i].path, t[es[i].path]))
  }

  /** A listing of the tree, in any order. */
  predicate Lists(es: seq<Entry>, t: Tree) {
    Reports(es, t) && forall p :: p in t ==> EntryOf(p, t[p]) in es
  }

  /** The `HashMap` from relative path to entry. */
  function Index(es: seq<Entry>): map<Path, Entry> {
    if es == [] then map[]
    else Index(es[..|es| - 1])[es[|es| - 1].path := es[|es| - 1]]
  }

  lemma {:induction false} IndexOf(es: seq<Entry>, p: Path)
    requires Keyed(es, EntryPath)
    ensures p in Index(es) <==> exists i :: 0 <= i < |es| && es[i].path == p
    ensures forall i :: 0 <= i < |es| && es[i].path == p ==> p in Index(es) && Index(es)[p] == es[i]
  {
    if es != [] {
      var n := |es| - 1;
      assert es == es[..n] + [es[n]];
      IndexOf(es[..n], p);
      assert forall i :: 0 <= i < n ==> es[..n][i] == es[i];
      assert forall i :: 0 <= i < n ==> EntryPath(es[i]) != EntryPath(es[n]);
    }
  }

  /** A path met twice is indexed with the later entry. */
  lemma {:induction false} IndexIsLast(es: seq<Entry>, i: nat)
    requires i < |es| && forall j :: i < j < |es| ==> es[j].path != es[i].path
    ensures es[i].path in Index(es) && Index(es)[es[i].path] == es[i]
  {
    if i < |es| - 1 {
      IndexIsLast(es[..|es| - 1], i);
    }
  }

  function Indexed(t: Tree): map<Path, Entry> {
    map p | p in t :: EntryOf(p, t[p])
  }

  lemma {:induction false} IndexOfListing(es: seq<Entry>, t: Tree)
    requires Lists(es, t)
    ensures Index(es) == Indexed(t)
  {
    forall p
      ensures p in Index(es) <==> p in t
      ensures p in t ==> Index(es)[p] == EntryOf(p, t[p])
    {
      IndexOf(es, p);
      if p in t {
        var i :| 0 <= i < |es| && es[i] == EntryOf(p, t[p]);
        assert es[i].path == p;
      }
    }
  }

  // ---- Decisions ----------------------------------------------------------------------------

  datatype CompareMode = Size | ModTime | Checksum

  /** `keep` is the include and exclude filter. */
  datatype Config = Config(compare: CompareMode, dryRun: bool, delete: bool, update: bool,
                           keep: Path -> bool, minSize: Option<nat>, maxSize: Option<nat>)

  datatype ActionKind = Copy | Mkdir | Delete | Skip

  datatype Action = Action(kind: ActionKind, path: Path, sourceSize: Option<nat>, destSize: Option<nat>)

  function ActionPath(a: Action): Path {
    a.path
  }

  /** `needs_update`. A checksum comparison compares sizes, as the code notes. */
  predicate NeedsUpdate(src: Entry, dst: Entry, c: Config) {
    match c.compare
    case Size => src.size != dst.size
    case ModTime => src.size != dst.size || src.mtime.None? || dst.mtime.None? || src.mtime != dst.mtime
    case Checksum => src.size != dst.size
  }

  /** Whether a source file passes the path filter and the size bounds. */
  predicate Wanted(e: Entry, c: Config) {
    && c.keep(e.path)
    && (e.size.Some? && c.minSize.Some? ==> c.minSize.value <= e.size.value)
    && (e.size.Some? && c.maxSize.Some? ==> e.size.value <= c.maxSize.value)
  }

  /** `--update`: the destination is as new as the source, by the order of strings. */
  predicate UpToDate(src: Entry, dst: Entry) {
    src.mtime.Some? && dst.mtime.Some? && Times.LexLe(src.mtime.value, dst.mtime.value)
  }

  /** Whether source file `e` is copied over what the destination has there. */
  predicate CopyWanted(e: Entry, there: Option<Entry>, c: Config) {
    && Wanted(e, c)
    && match there
       case None => true
       case Some(d) => NeedsUpdate(e, d, c) && !(c.update && UpToDate(e, d))
  }

  /** With `--update`, between times that are seconds in step, a file is copied exactly if
      it differs and is newer. */
  lemma UpdateCopiesNewer(e: Entry, d: Entry, c: Config)
    requires c.update && e.mtime.Some? && d.mtime.Some?
    requires Times.Decimal(e.mtime.value) && Times.Decimal(d.mtime.value)
    requires Times.InStep(e.mtime.value, d.mtime.value)
    ensures CopyWanted(e, Some(d), c) <==>
              Wanted(e, c) && NeedsUpdate(e, d, c) && Times.Seconds(e.mtime.value) > Times.Seconds(d.mtime.value)
  {
    Times.OrderIsTime(e.mtime.value, d.mtime.value);
  }

  function Find(index: map<Path, Entry>, p: Path): Option<Entry> {
    if p in index then Some(index[p]) else None
  }

  /** The action for a source entry; none for a directory that is there already. */
  function Decide(e: Entry, dst: map<Path, Entry>, c: Config): seq<Action> {
    var there := Find(dst, e.path);
    if e.isDir then (if there.None? then [Action(Mkdir, e.path, None, None)] else [])
    else
      var destSize := if Wanted(e, c) && there.Some? then there.value.size else None;
      [Action(if CopyWanted(e, there, c) then Copy else Skip, e.path, e.size, destSize)]
  }

  function SourceActions(src: seq<Entry>, dst: map<Path, Entry>, c: Config): seq<Action> {
    if src == [] then []
    else SourceActions(src[..|src| - 1], dst, c) + Decide(src[|src| - 1], dst, c)
  }

  function FileDeletes(dst: seq<Entry>, src: map<Path, Entry>): seq<Action> {
    if dst == [] then []
    else
      var d := dst[|dst| - 1];
      FileDeletes(dst[..|dst| - 1], src)
      + (if d.path !in src && !d.isDir then [Action(Delete, d.path, None, d.size)] else [])
  }

  function DirDeletes(dst: seq<Entry>, src: map<Path, Entry>): seq<Path> {
    if dst == [] then []
    else
      var d := dst[|dst| - 1];
      DirDeletes(dst[..|dst| - 1], src) + (if d.path !in src && d.isDir then [d.path] else [])
  }

  function DeleteOf(p: Path): Action {
    Action(Delete, p, None, None)
  }

  function DeletesOf(ps: seq<Path>): (r: seq<Action>)
    ensures |r| == |ps| && forall i :: 0 <= i < |ps| ==> r[i] == DeleteOf(ps[i])
  {
    seq(|ps|, i requires 0 <= i < |ps| => DeleteOf(ps[i]))
  }

  /** The key that puts the deepest first. */
  function Shallowness(p: Path): int {
    -Slashes(p)
  }

  function DeepestFirst(dst: seq<Entry>, src: map<Path, Entry>): seq<Path> {
    SortBy(DirDeletes(dst, src), Shallowness)
  }

  function Plan(src: seq<Entry>, dst: seq<Entry>, c: Config): seq<Action> {
    SourceActions(src, Index(dst), c)
    + (if c.delete then FileDeletes(dst, Index(src)) + DeletesOf(DeepestFirst(dst, Index(src))) else [])
  }

  function PathsOf(ps: seq<Path>): set<Path> {
    set i | 0 <= i < |ps| :: ps[i]
  }

  // ---- The code ------------------------------------------------------------------------------

  method BuildIndex(es: seq<Entry>) returns (index: map<Path, Entry>)
    ensures index == Index(es)
  {
    index := map[];
    for i := 0 to |es|
      invariant index == Index(es[..i])
    {
      assert es[..i + 1][..i] == es[..i];
      index := index[es[i].path := es[i]];
    }
    assert es[..|es|] == es;
  }

  /** The body of the planning loop over the source. */
  method PlanEntry(entry: Entry, dst: map<Path, Entry>, c: Config) returns (a: seq<Action>)
    ensures a == Decide(entry, dst, c)
  {
    var rel := entry.path;
    if entry.isDir {
      if rel !in dst {
        return [Action(Mkdir, rel, None, None)];
      }
      return [];
    }
    if !c.keep(rel) {
      return [Action(Skip, rel, entry.size, None)];
    }
    if entry.size.Some? {
      if c.minSize.Some? && entry.size.value < c.minSize.value {
        return [Action(Skip, rel, entry.size, None)];
      }
      if c.maxSize.Some? && entry.size.value > c.maxSize.value {
        return [Action(Skip, rel, entry.size, None)];
      }
    }
    var needsCopy := if rel in dst then NeedsUpdate(entry, dst[rel], c) else true;
    var destSize := if rel in dst then dst[rel].size else None;
    if needsCopy {
      if c.update && rel in dst && entry.mtime.Some? && dst[rel].mtime.Some? {
        if Times.LexLe(entry.mtime.value, dst[rel].mtime.value) {
          return [Action(Skip, rel, entry.size, destSize)];
        }
      }
      return [Action(Copy, rel, entry.size, destSize)];
    }
    return [Action(Skip, rel, entry.size, destSize)];
  }

  lemma PathsOfSnoc(ps: seq<Path>, i: nat)
    requires i < |ps|
    ensures PathsOf(ps[..i + 1]) == PathsOf(ps[..i]) + {ps[i]}
  {
    assert forall j :: 0 <= j < i ==> ps[..i + 1][j] == ps[..i][j];
    assert ps[..i + 1][i] == ps[i];
  }

  /** The extraneous entries of the destination. */
  method FindExtraneous(dst: seq<Entry>, srcIndex: map<Path, Entry>)
    returns (deleteFiles: seq<Action>, deleteDirs: seq<Path>)
    ensures deleteFiles == FileDeletes(dst, srcIndex) && deleteDirs == DirDeletes(dst, srcIndex)
  {
    deleteFiles, deleteDirs := [], [];
    for i := 0 to |dst|
      invariant deleteFiles == FileDeletes(dst[..i], srcIndex)
      invariant deleteDirs == DirDeletes(dst[..i], srcIndex)
    {
      assert dst[..i + 1][..i] == dst[..i];
      var rel := dst[i].path;
      if rel !in srcIndex {
        if dst[i].isDir {
          deleteDirs := deleteDirs + [rel];
        } else {
          deleteFiles := deleteFiles + [Action(Delete, rel, None, dst[i].size)];
        }
      }
    }
    assert dst[..|dst|] == dst;
  }

  /** The planning half of `sync`. */
  method BuildPlan(src: seq<Entry>, dst: seq<Entry>, c: Config)
    returns (actions: seq<Action>, dirDeleteSet: set<Path>)
    ensures actions == Plan(src, dst, c)
    ensures dirDeleteSet == if c.delete then PathsOf(DeepestFirst(dst, Index(src))) else {}
  {
    hide Index, Decide, FileDeletes, DirDeletes, SortBy, PathsOf;
    var dstIndex := BuildIndex(dst);
    actions := [];
    for i := 0 to |src|
      invariant actions == SourceActions(src[..i], dstIndex, c)
    {
      assert src[..i + 1][..i] == src[..i];
      var a := PlanEntry(src[i], dstIndex, c);
      actions := actions + a;
    }
    assert src[..|src|] == src;
    dirDeleteSet := {};
    if c.delete {
      var srcIndex := BuildIndex(src);
      var deleteFiles, deleteDirs := FindExtraneous(dst, srcIndex);
      deleteDirs := SortBy(deleteDirs, Shallowness);
      actions := actions + deleteFiles;
      ghost var planned := actions;
      NoPaths(deleteDirs);
      for i := 0 to |deleteDirs|
        invariant actions == planned + DeletesOf(deleteDirs)[..i]
        invariant dirDeleteSet == PathsOf(deleteDirs[..i])
      {
        PathsOfSnoc(deleteDirs, i);
        dirDeleteSet := dirDeleteSet + {deleteDirs[i]};
        actions := actions + [DeleteOf(deleteDirs[i])];
      }
      assert deleteDirs[..|deleteDirs|] == deleteDirs;
    }
  }

  lemma NoPaths(ps: seq<Path>)
    ensures PathsOf(ps[..0]) == {}
  {
  }
}
