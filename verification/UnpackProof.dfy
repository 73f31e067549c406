/** When unpacking rebuilds the tree a manifest describes: exactly when no file's
    temporary name is the name of a directory or of a file unpacked before it, and the
    modes applied on the way leave room for what is still to come. */
module UnpackProof {
  import opened Bytes
  import opened Paths
  import opened Merkle
  import opened Manifest
  import opened Unpack

  /** A tree as a walk finds it: every path validates and lies in listed directories. */
  ghost predicate ValidTree(t: FileTree) {
    && (forall p :: p in t ==> SafePath(p))
    && (forall p, q :: q in t && Above(p, q) ==> p in t && t[p].DirNode?)
  }

  predicate IsDir(t: FileTree, p: Path) {
    p in t && t[p].DirNode?
  }

  predicate IsFile(t: FileTree, p: Path) {
    p in t && t[p].FileNode?
  }

  function PathSet(es: seq<Entry>): set<Path> {
    set i | 0 <= i < |es| :: es[i].path
  }

  predicate DistinctPaths(es: seq<Entry>) {
    forall i, j :: 0 <= i < j < |es| ==> es[i].path != es[j].path
  }

  /** Entry `e` says of its path what the tree says, and the packed file holds the
      content where `e` says it is. */
  predicate Matches(hash: seq<byte> -> Digest, t: FileTree, packed: seq<byte>, base: nat, e: Entry) {
    && e.path in t && e.mode == t[e.path].mode
    && match e.kind
       case Dir => t[e.path].DirNode?
       case File =>
         && t[e.path].FileNode? && e.size == |t[e.path].bytes| && e.sha256 == hash(t[e.path].bytes)
         && base + e.offset + e.size <= |packed|
         && packed[base + e.offset..base + e.offset + e.size] == t[e.path].bytes
  }

  /** The manifest lists the nodes of the tree, each once, in whatever order. */
  ghost predicate Describes(hash: seq<byte> -> Digest, t: FileTree, packed: seq<byte>, base: nat, m: Manifest) {
    var ds, fl := OfKind(m.entries, Dir), OfKind(m.entries, File);
    && (forall i :: 0 <= i < |ds| ==> Matches(hash, t, packed, base, ds[i]))
    && (forall i :: 0 <= i < |fl| ==> Matches(hash, t, packed, base, fl[i]))
    && DistinctPaths(fl)
    && (forall p :: IsDir(t, p) ==> p in PathSet(ds))
    && (forall p :: IsFile(t, p) ==> p in PathSet(fl))
  }

  // ---- What is restored -------------------------------------------------------------------------

  /** A node as it ends up: a mode of zero is not applied. */
  function Shown(host: Host, n: Node): Node {
    match n
    case DirNode(mode) => DirNode(if mode == 0 then host.dirMode else mode)
    case FileNode(mode, bytes) => FileNode(if mode == 0 then host.fileMode else mode, bytes)
  }

  function Restored(host: Host, t: FileTree): FileTree {
    map p | p in t :: Shown(host, t[p])
  }

  /** Modes of zero are not applied: where a new node gets another, they are not kept. */
  predicate ModesKept(host: Host, t: FileTree) {
    forall p :: p in t && t[p].mode == 0 ==> (if t[p].DirNode? then host.dirMode else host.fileMode) == 0
  }

  /** What is restored is the tree itself exactly when no mode of it is zero, or a new node
      gets a mode of zero too. */
  lemma RestoredIsSame(host: Host, t: FileTree)
    ensures Restored(host, t) == t <==> ModesKept(host, t)
  {
    var r := Restored(host, t);
    if r == t {
      forall p | p in t && t[p].mode == 0
        ensures (if t[p].DirNode? then host.dirMode else host.fileMode) == 0
      {
        assert r[p] == t[p];
      }
    }
    if ModesKept(host, t) {
      assert forall p :: p in t ==> Shown(host, t[p]) == t[p];
    }
  }

  // ---- Directories -----------------------------------------------------------------------------

  predicate Reached(P: set<Path>, q: Path) {
    q in P || exists p :: p in P && Above(q, p)
  }

  /** What exists once the directories `P` have been made. */
  ghost function Made(host: Host, t: FileTree, P: set<Path>): FileTree {
    map q | q in t && t[q].DirNode? && Reached(P, q) :: if q in P then Shown(host, t[q]) else DirNode(host.dirMode)
  }

  /** With the directories `P` made, `p` can be. */
  ghost predicate MayMake(host: Host, t: FileTree, P: set<Path>, p: Path) {
    var fs := Made(host, t, P);
    Reachable(host, fs, p) && forall q :: q in Lineage(p) && q !in fs ==> MayAdd(host, fs, q)
  }

  lemma MadeMore(t: FileTree, P: set<Path>, p: Path)
    requires ValidTree(t) && IsDir(t, p)
    ensures forall q :: IsDir(t, q) && Reached(P + {p}, q) <==> (IsDir(t, q) && Reached(P, q)) || q == p || Above(q, p)
  {
    hide SafePath, Above;
    forall q
      ensures IsDir(t, q) && Reached(P + {p}, q) <==> (IsDir(t, q) && Reached(P, q)) || q == p || Above(q, p)
    {
      if q !in P + {p} && Reached(P + {p}, q) {
        var r :| r in P + {p} && Above(q, r);
        assert r == p || r in P;
      }
    }
  }

  /** What stands with `p` and all on the way to it added, once the mode of `p` is applied. */
  lemma MadeNext(host: Host, t: FileTree, P: set<Path>, p: Path)
    requires ValidTree(t) && IsDir(t, p)
    ensures var fs := Made(host, t, P);
            var made := map q | q in fs.Keys + Lineage(p) :: if q in fs then fs[q] else DirNode(host.dirMode);
            p in made && ApplyMode(made, p, t[p].mode) == Made(host, t, P + {p})
  {
    hide SafePath, Above, Reached;
    var fs, next := Made(host, t, P), Made(host, t, P + {p});
    var made := map q | q in fs.Keys + Lineage(p) :: if q in fs then fs[q] else DirNode(host.dirMode);
    forall q
      ensures q in Lineage(p) <==> q == p || Above(q, p)
      ensures q in P ==> Reached(P, q)
    {
      LineageMeans(p, q);
      ReachedMade(P, q);
    }
    MadeMore(t, P, p);
    forall q
      ensures q in made <==> q in next
      ensures q in made && q != p ==> made[q] == next[q]
    {
    }
    assert ApplyMode(made, p, t[p].mode).Keys == next.Keys;
    assert ApplyMode(made, p, t[p].mode)[p] == next[p];
  }

  lemma ReachedMade(P: set<Path>, q: Path)
    ensures q in P ==> Reached(P, q)
  {
  }

  lemma {:induction false} MakeDirStep(host: Host, t: FileTree, P: set<Path>, e: Entry)
    requires ValidTree(t) && IsDir(t, e.path) && e.mode == t[e.path].mode
    ensures if MayMake(host, t, P, e.path) then MakeDir(host, Made(host, t, P), e) == Ok(Made(host, t, P + {e.path}))
            else MakeDir(host, Made(host, t, P), e).Err?
  {
    hide SafePath, Above, Reachable, MayAdd, Lineage, ApplyMode;
    var fs := Made(host, t, P);
    assert SafePath(e.path);
    assert forall q :: q in fs ==> fs[q].DirNode?;
    hide Made;
    MadeNext(host, t, P, e.path);
  }

  /** Every directory of the list can be made after those before it. */
  ghost predicate DirsOpen(host: Host, t: FileTree, ds: seq<Entry>) {
    forall i :: 0 <= i < |ds| ==> MayMake(host, t, PathSet(ds[..i]), ds[i].path)
  }

  lemma {:induction false} MakeDirsAll(host: Host, t: FileTree, all: seq<Entry>, k: nat)
    requires ValidTree(t) && k <= |all|
    requires forall i :: 0 <= i < |all| ==> IsDir(t, all[i].path) && all[i].mode == t[all[i].path].mode
    ensures var r := MakeDirs(host, Made(host, t, PathSet(all[..k])), all[k..]);
            if forall i :: k <= i < |all| ==> MayMake(host, t, PathSet(all[..i]), all[i].path) then
              r == Ok(Made(host, t, PathSet(all)))
            else r.Err?
    decreases |all| - k
  {
    hide MakeDir, Made, MayMake;
    if k == |all| {
      assert all[..k] == all;
    } else {
      MakeDirStep(host, t, PathSet(all[..k]), all[k]);
      PathSetBack(all, k);
      assert all[k..][1..] == all[k + 1..];
      MakeDirsAll(host, t, all, k + 1);
    }
  }

  lemma PathSetBack(es: seq<Entry>, k: nat)
    requires k < |es|
    ensures PathSet(es[..k + 1]) == PathSet(es[..k]) + {es[k].path}
  {
    var a, b := es[..k + 1], es[..k];
    assert forall i :: 0 <= i < k ==> a[i] == b[i];
    forall p
      ensures p in PathSet(a) <==> p in PathSet(b) + {es[k].path}
    {
      if p in PathSet(a) {
        var i :| 0 <= i < |a| && a[i].path == p;
        assert i < k ==> b[i].path == p;
      }
      if p in PathSet(b) {
        var i :| 0 <= i < |b| && b[i].path == p;
        assert a[i].path == p;
      }
      assert a[k].path in PathSet(a);
    }
  }

  lemma PathSetFront(es: seq<Entry>)
    requires es != []
    ensures PathSet(es) == {es[0].path} + PathSet(es[1..])
  {
    forall p
      ensures p in PathSet(es) <==> p in {es[0].path} + PathSet(es[1..])
    {
      if p in PathSet(es) {
        var i :| 0 <= i < |es| && es[i].path == p;
        assert i > 0 ==> es[1..][i - 1].path == p;
      }
      if p in PathSet(es[1..]) {
        var i :| 0 <= i < |es[1..]| && es[1..][i].path == p;
        assert es[i + 1].path == p;
      }
      assert es[0].path in PathSet(es);
    }
  }

  // ---- Files ---------------------------------------------------------------------------------------

  /** The directories of the tree, and the files `done`. */
  function Stage(host: Host, t: FileTree, done: set<Path>): FileTree {
    map q | q in t && (t[q].DirNode? || q in done) :: Shown(host, t[q])
  }

  /** The directories on the way to `p` can be searched, and the one it lies in written. */
  predicate FileOpen(host: Host, t: FileTree, p: Path) {
    Reachable(host, Restored(host, t), p) && MayAdd(host, Restored(host, t), p)
  }

  lemma {:induction false} ParentIsNearest(p: Path)
    ensures Parent(p) == [] || Above(Parent(p), p)
    ensures forall q :: q in Lineage(Parent(p)) && q != [] ==> Above(q, p)
  {
    forall q | q in Lineage(Parent(p)) && q != []
      ensures Above(q, p)
    {
      LineageMeans(Parent(p), q);
    }
  }

  /** What is added to a name without a slash stays in its directory. */
  lemma {:induction false} ParentOfLonger(p: Path, added: seq<byte>)
    requires SLASH !in added
    ensures Parent(p + added) == Parent(p)
    decreases |added|
  {
    if added == [] {
      assert p + added == p;
    } else {
      var n := |added| - 1;
      assert added[n] in added;
      assert (p + added)[..|p| + n] == p + added[..n];
      ParentOfLonger(p, added[..n]);
    }
  }

  /** A temporary name stands next to the name it is for. */
  lemma {:induction false} TempIsNext(p: Path)
    ensures Parent(TempName(p)) == Parent(p)
    ensures forall a :: Above(a, TempName(p)) <==> Above(a, p)
  {
    ParentOfLonger(p, UNPACK_SUFFIX);
    forall a
      ensures Above(a, TempName(p)) <==> Above(a, p)
    {
      if |a| >= |p| && |a| < |TempName(p)| {
        assert TempName(p)[|a|] == UNPACK_SUFFIX[|a| - |p|] != SLASH;
      } else if |a| < |p| {
        assert TempName(p)[..|a|] == p[..|a|];
      }
    }
  }

  /** Above a listed node there are only directories of the tree, all of them staged. */
  lemma {:induction false} StageReaches(host: Host, t: FileTree, done: set<Path>, p: Path)
    requires ValidTree(t) && p in t
    ensures Reachable(host, Stage(host, t, done), p) <==> Reachable(host, Restored(host, t), p)
    ensures Parent(p) != [] ==> IsDir(t, Parent(p))
    ensures MayAdd(host, Stage(host, t, done), p) <==> MayAdd(host, Restored(host, t), p)
  {
    hide SafePath, Above;
    var fs, r := Stage(host, t, done), Restored(host, t);
    forall a | Above(a, p)
      ensures a in fs && a in r && fs[a] == r[a]
    {
    }
    ParentIsNearest(p);
  }

  /** The parent of a listed file is there already, so making it changes nothing. */
  lemma {:induction false} ParentsExist(host: Host, t: FileTree, done: set<Path>, p: Path)
    requires ValidTree(t) && p in t
    ensures FileOpen(host, t, p) ==> MakeParent(host, Stage(host, t, done), p) == Ok(Stage(host, t, done))
    ensures MakeParent(host, Stage(host, t, done), p).Ok? ==>
              MakeParent(host, Stage(host, t, done), p) == Ok(Stage(host, t, done))
  {
    hide SafePath, Above, MayAdd;
    var fs := Stage(host, t, done);
    StageReaches(host, t, done, p);
    if Parent(p) != [] {
      forall q | q in Lineage(Parent(p))
        ensures IsDir(t, q) && q in fs
      {
        LineageMeans(Parent(p), q);
        AboveChain(q, Parent(p), p);
      }
      assert fs.Keys + Lineage(Parent(p)) == fs.Keys;
      if FileOpen(host, t, p) {
        forall a | a in fs && Above(a, Parent(p))
          ensures Enterable(host, fs[a])
        {
          AboveChain(a, Parent(p), p);
        }
        assert Reachable(host, fs, Parent(p));
      }
      if CreateDirAll(host, fs, Parent(p)).Ok? {
        var made := CreateDirAll(host, fs, Parent(p)).value;
        assert made.Keys == fs.Keys;
        assert made == fs;
      }
    }
  }

  lemma AboveChain(a: Path, b: Path, c: Path)
    requires Above(b, c) && (a == b || Above(a, b))
    ensures Above(a, c)
  {
  }

  lemma {:induction false} TempReaches(host: Host, fs: FileTree, p: Path)
    ensures Reachable(host, fs, TempName(p)) <==> Reachable(host, fs, p)
    ensures MayAdd(host, fs, TempName(p)) <==> MayAdd(host, fs, p)
  {
    TempIsNext(p);
  }

  /** A file put at the temporary name changes no directory on the way to it. */
  lemma {:induction false} SameDirs(host: Host, fs: FileTree, fs': FileTree, tmp: Path, p: Path)
    requires tmp == TempName(p) && fs'.Keys == fs.Keys + {tmp} && forall q :: q in fs && q != tmp ==> fs'[q] == fs[q]
    ensures Reachable(host, fs', p) <==> Reachable(host, fs, p)
    ensures MayAdd(host, fs', p) <==> MayAdd(host, fs, p)
  {
    ParentIsNearest(p);
    assert !Above(tmp, p);
    assert forall a :: Above(a, p) ==> a != tmp && (a in fs <==> a in fs');
  }

  /** Once the file has its name, nothing has the temporary one. */
  lemma StagedIsMoved(host: Host, hash: seq<byte> -> Digest, packed: seq<byte>, base: nat, fs: FileTree, e: Entry)
    ensures var r := StageAndRename(host, hash, packed, base, fs, e); r.Ok? ==> TempName(e.path) !in r.value
  {
    hide Reachable, MayAdd, Slice;
  }

  /** Neither the way to a file nor its directory changes while it is staged. */
  lemma {:induction false} StageIsOpen(host: Host, t: FileTree, done: set<Path>, p: Path, staging: Node)
    requires ValidTree(t) && p in t
    ensures var fs, tmp := Stage(host, t, done), TempName(p);
            var staged := fs[tmp := staging];
            && (FileOpen(host, t, p) <==> Reachable(host, fs, tmp) && MayAdd(host, fs, tmp))
            && (FileOpen(host, t, p) <==> Reachable(host, staged, tmp) && MayAdd(host, staged, tmp))
  {
    hide SafePath, Parent, Reachable, MayAdd, Above;
    var fs, tmp := Stage(host, t, done), TempName(p);
    var staged := fs[tmp := staging];
    StageReaches(host, t, done, p);
    TempReaches(host, fs, p);
    TempReaches(host, staged, p);
    SameDirs(host, fs, staged, tmp, p);
  }

  /** A file where its directory lets it be made, or its temporary name is in the way. */
  lemma {:induction false} StageStep(host: Host, hash: seq<byte> -> Digest, t: FileTree, packed: seq<byte>, base: nat,
                                     done: set<Path>, e: Entry)
    requires ValidTree(t) && e.kind == File && Matches(hash, t, packed, base, e)
    ensures var r, tmp := StageAndRename(host, hash, packed, base, Stage(host, t, done), e), TempName(e.path);
            if !FileOpen(host, t, e.path) || IsDir(t, tmp) then r.Err?
            else if IsFile(t, tmp) && tmp in done then r.Ok? ==> tmp !in r.value
            else r == Ok(Stage(host, t, done + {e.path}))
  {
    hide SafePath, FileOpen, Reachable, MayAdd;
    var fs, p, tmp := Stage(host, t, done), e.path, TempName(e.path);
    var mode := if tmp in fs then fs[tmp].mode else host.fileMode;
    var staged := fs[tmp := FileNode(mode, t[p].bytes)];
    assert fs[tmp := FileNode(mode, [])][tmp := FileNode(mode, t[p].bytes)] == staged;
    assert e.size == 0 ==> t[p].bytes == [];
    StagedIsMoved(host, hash, packed, base, fs, e);
    StageIsOpen(host, t, done, p, FileNode(mode, t[p].bytes));
    if tmp !in fs && FileOpen(host, t, p) {
      assert ApplyMode((staged - {tmp})[p := staged[tmp]], p, e.mode) == Stage(host, t, done + {p});
    }
  }

  /** One file: into place if its directory and its temporary name let it, refused if the
      mode of a directory above it or a directory in the way forbids it, and at the cost
      of another file if that has the temporary name and was unpacked before. */
  lemma {:induction false} PlaceFileStep(host: Host, hash: seq<byte> -> Digest, t: FileTree, packed: seq<byte>,
                                         base: nat, done: set<Path>, e: Entry)
    requires ValidTree(t) && e.kind == File && Matches(hash, t, packed, base, e)
    ensures var r, tmp := PlaceFile(host, hash, packed, base, Stage(host, t, done), e), TempName(e.path);
            if !FileOpen(host, t, e.path) || IsDir(t, tmp) then r.Err?
            else if IsFile(t, tmp) && tmp in done then r.Ok? ==> tmp !in r.value
            else r == Ok(Stage(host, t, done + {e.path}))
  {
    hide SafePath, MakeParent, StageAndRename, FileOpen;
    ParentsExist(host, t, done, e.path);
    StageStep(host, hash, t, packed, base, done, e);
  }

  /** A file that has been lost is not put back by the ones that follow. */
  lemma {:induction false} LostStaysLost(host: Host, hash: seq<byte> -> Digest, packed: seq<byte>, base: nat,
                                         fs: FileTree, es: seq<Entry>, q: Path)
    requires q !in fs && q != []
    requires forall i :: 0 <= i < |es| ==> es[i].path != q && !Above(q, es[i].path)
    requires PlaceFiles(host, hash, packed, base, fs, es).Ok?
    ensures q !in PlaceFiles(host, hash, packed, base, fs, es).value
    decreases |es|
  {
    hide PlaceFile;
    if es != [] {
      OneStaysLost(host, hash, packed, base, fs, es[0], q);
      LostStaysLost(host, hash, packed, base, PlaceFile(host, hash, packed, base, fs, es[0]).value, es[1..], q);
    }
  }

  lemma {:induction false} OneStaysLost(host: Host, hash: seq<byte> -> Digest, packed: seq<byte>, base: nat,
                                        fs: FileTree, e: Entry, q: Path)
    requires q !in fs && q != [] && e.path != q && !Above(q, e.path)
    requires PlaceFile(host, hash, packed, base, fs, e).Ok?
    ensures q !in PlaceFile(host, hash, packed, base, fs, e).value
  {
    hide SafePath, Lineage, Above, Reachable, MayAdd;
    ParentIsNearest(e.path);
    var made := MakeParent(host, fs, e.path).value;
    assert q !in made;
  }

  /** Entry `i` is written in a directory that lets it, under a name that is no directory's,
      no earlier entry's and none of `done`. */
  predicate Placeable(host: Host, t: FileTree, done: set<Path>, fl: seq<Entry>, i: nat)
    requires i < |fl|
  {
    var tmp := TempName(fl[i].path);
    FileOpen(host, t, fl[i].path) && !IsDir(t, tmp) && tmp !in done && tmp !in PathSet(fl[..i])
  }

  predicate Clear(host: Host, t: FileTree, done: set<Path>, fl: seq<Entry>)
    decreases |fl|
  {
    fl == [] ||
    (var tmp := TempName(fl[0].path);
     FileOpen(host, t, fl[0].path) && !IsDir(t, tmp) && tmp !in done && Clear(host, t, done + {fl[0].path}, fl[1..]))
  }

  /** Everything of the tree is there, whatever it looks like. */
  predicate Complete(r: Result<FileTree, UnpackError>, t: FileTree) {
    r.Ok? && r.value.Keys == t.Keys
  }

  lemma {:induction false} PlaceFilesExact(host: Host, hash: seq<byte> -> Digest, t: FileTree, packed: seq<byte>,
                                           base: nat, done: set<Path>, fl: seq<Entry>)
    requires ValidTree(t) && DistinctPaths(fl)
    requires forall i :: 0 <= i < |fl| ==> fl[i].kind == File && Matches(hash, t, packed, base, fl[i])
    requires forall i :: 0 <= i < |fl| ==> fl[i].path !in done
    requires forall p :: p in done ==> IsFile(t, p)
    requires forall p :: IsFile(t, p) ==> p in done || p in PathSet(fl)
    ensures var r := PlaceFiles(host, hash, packed, base, Stage(host, t, done), fl);
            if Clear(host, t, done, fl) then r == Ok(Restored(host, t)) else !Complete(r, t)
    decreases |fl|
  {
    hide SafePath, PlaceFile, Matches, FileOpen;
    if fl == [] {
      assert Stage(host, t, done) == Restored(host, t);
    } else {
      var e, tmp := fl[0], TempName(fl[0].path);
      assert Matches(hash, t, packed, base, e);
      PlaceFileStep(host, hash, t, packed, base, done, e);
      MatchesFile(hash, t, packed, base, e);
      if FileOpen(host, t, e.path) && !IsDir(t, tmp) {
        if tmp in done {
          LostIsIncomplete(host, hash, t, packed, base, done, fl);
        } else {
          PathSetFront(fl);
          forall i | 0 <= i < |fl[1..]|
            ensures fl[1..][i].path !in done + {e.path}
          {
            assert fl[1..][i] == fl[i + 1];
          }
          PlaceFilesExact(host, hash, t, packed, base, done + {e.path}, fl[1..]);
        }
      }
    }
  }

  /** The first file is written over one that was done: that one is missing at the end. */
  lemma {:induction false} LostIsIncomplete(host: Host, hash: seq<byte> -> Digest, t: FileTree, packed: seq<byte>,
                                            base: nat, done: set<Path>, fl: seq<Entry>)
    requires ValidTree(t) && fl != []
    requires forall i :: 0 <= i < |fl| ==> fl[i].kind == File && Matches(hash, t, packed, base, fl[i])
    requires forall i :: 0 <= i < |fl| ==> fl[i].path !in done
    requires TempName(fl[0].path) in done && IsFile(t, TempName(fl[0].path)) && FileOpen(host, t, fl[0].path)
    ensures !Complete(PlaceFiles(host, hash, packed, base, Stage(host, t, done), fl), t)
  {
    hide SafePath, PlaceFile, Matches, FileOpen;
    var e, tmp := fl[0], TempName(fl[0].path);
    assert Matches(hash, t, packed, base, e);
    PlaceFileStep(host, hash, t, packed, base, done, e);
    var r := PlaceFiles(host, hash, packed, base, Stage(host, t, done), fl);
    if r.Ok? {
      TempsApart(hash, t, packed, base, tmp, done, fl[1..]);
      LostStaysLost(host, hash, packed, base, PlaceFile(host, hash, packed, base, Stage(host, t, done), e).value,
                    fl[1..], tmp);
    }
  }

  lemma MatchesFile(hash: seq<byte> -> Digest, t: FileTree, packed: seq<byte>, base: nat, e: Entry)
    requires Matches(hash, t, packed, base, e) && e.kind == File
    ensures IsFile(t, e.path)
  {
  }

  lemma TempsApart(hash: seq<byte> -> Digest, t: FileTree, packed: seq<byte>, base: nat, q: Path, done: set<Path>,
                   es: seq<Entry>)
    requires ValidTree(t) && IsFile(t, q) && q in done
    requires forall i :: 0 <= i < |es| ==> es[i].kind == File && Matches(hash, t, packed, base, es[i])
    requires forall i :: 0 <= i < |es| ==> es[i].path !in done
    ensures forall i :: 0 <= i < |es| ==> es[i].path != q && !Above(q, es[i].path)
  {
    hide SafePath, Above;
  }

  lemma {:induction false} PlaceableNext(host: Host, t: FileTree, done: set<Path>, fl: seq<Entry>, i: nat)
    requires 0 < i < |fl|
    ensures Placeable(host, t, done, fl, i) <==>
              Placeable(host, t, done + {fl[0].path}, fl[1..], i - 1) && TempName(fl[i].path) !in done
  {
    hide FileOpen;
    PathSetFront(fl[..i]);
    assert fl[..i][1..] == fl[1..][..i - 1];
  }

  lemma {:induction false} ClearMeans(host: Host, t: FileTree, done: set<Path>, fl: seq<Entry>)
    ensures Clear(host, t, done, fl) <==> forall i :: 0 <= i < |fl| ==> Placeable(host, t, done, fl, i)
    decreases |fl|
  {
    hide Placeable, FileOpen;
    if fl != [] {
      var done', rest := done + {fl[0].path}, fl[1..];
      ClearMeans(host, t, done', rest);
      PlaceableFirst(host, t, done, fl);
      forall i | 0 < i < |fl|
        ensures Placeable(host, t, done, fl, i) <==> Placeable(host, t, done', rest, i - 1)
      {
        PlaceableNext(host, t, done, fl, i);
        PlaceableApart(host, t, done, fl, i);
      }
      if Clear(host, t, done, fl) {
        forall i | 0 <= i < |fl|
          ensures Placeable(host, t, done, fl, i)
        {
          assert i > 0 ==> Placeable(host, t, done', rest, i - 1);
        }
      }
      if forall i :: 0 <= i < |fl| ==> Placeable(host, t, done, fl, i) {
        forall k | 0 <= k < |rest|
          ensures Placeable(host, t, done', rest, k)
        {
          assert Placeable(host, t, done, fl, k + 1);
        }
        assert Placeable(host, t, done, fl, 0);
      }
    }
  }

  lemma {:induction false} PlaceableFirst(host: Host, t: FileTree, done: set<Path>, fl: seq<Entry>)
    requires fl != []
    ensures Placeable(host, t, done, fl, 0) <==>
              FileOpen(host, t, fl[0].path) && !IsDir(t, TempName(fl[0].path)) && TempName(fl[0].path) !in done
  {
    hide FileOpen;
  }

  lemma {:induction false} PlaceableApart(host: Host, t: FileTree, done: set<Path>, fl: seq<Entry>, i: nat)
    requires 0 < i < |fl|
    ensures Placeable(host, t, done + {fl[0].path}, fl[1..], i - 1) ==> TempName(fl[i].path) !in done
  {
    hide FileOpen;
  }

  /** Making the directories fails, or leaves exactly those of the tree and the files to
      place. */
  lemma {:induction false} UnpackIsPlacing(host: Host, hash: seq<byte> -> Digest, t: FileTree, packed: seq<byte>,
                                           base: nat, m: Manifest)
    requires ValidTree(t) && Describes(hash, t, packed, base, m)
    ensures var ds, r := OfKind(m.entries, Dir), Unpacked(host, hash, packed, m, base, map[]);
            if DirsOpen(host, t, ds) then
              r == PlaceFiles(host, hash, packed, base, Stage(host, t, {}), OfKind(m.entries, File))
            else r.Err?
  {
    hide SafePath, MakeDirs, PlaceFiles, MayMake, Made, Stage, Describes;
    var ds := OfKind(m.entries, Dir);
    DescribedDirs(host, hash, t, packed, base, m);
    assert ds[..0] == [] && ds[0..] == ds;
    MakeDirsAll(host, t, ds, 0);
  }

  lemma {:induction false} DescribedDirs(host: Host, hash: seq<byte> -> Digest, t: FileTree, packed: seq<byte>,
                                         base: nat, m: Manifest)
    requires ValidTree(t) && Describes(hash, t, packed, base, m)
    ensures var ds := OfKind(m.entries, Dir);
            && (forall i :: 0 <= i < |ds| ==> IsDir(t, ds[i].path) && ds[i].mode == t[ds[i].path].mode)
            && Made(host, t, PathSet([])) == map[] && Made(host, t, PathSet(ds)) == Stage(host, t, {})
  {
    hide SafePath, OfKind;
    var ds := OfKind(m.entries, Dir);
    assert forall i :: 0 <= i < |ds| ==> Matches(hash, t, packed, base, ds[i]);
    assert PathSet([]) == {};
  }

  /** Unpacking a manifest that describes the tree, in any order of its entries, into an
      empty destination restores the tree exactly when each directory can be made and each
      file placed after the ones before it: no temporary name is that of a directory or of
      an earlier file, and no mode applied earlier is in the way. Otherwise something of
      the tree is missing. */
  lemma {:induction false} UnpackExact(host: Host, hash: seq<byte> -> Digest, t: FileTree, packed: seq<byte>, base: nat,
                                       m: Manifest)
    requires ValidTree(t) && Describes(hash, t, packed, base, m)
    ensures var r, fl := Unpacked(host, hash, packed, m, base, map[]), OfKind(m.entries, File);
            if DirsOpen(host, t, OfKind(m.entries, Dir)) && forall i :: 0 <= i < |fl| ==> Placeable(host, t, {}, fl, i)
            then r == Ok(Restored(host, t)) else !Complete(r, t)
  {
    hide SafePath, Unpacked, PlaceFiles, Clear, DirsOpen, Matches, Placeable;
    var fl := OfKind(m.entries, File);
    UnpackIsPlacing(host, hash, t, packed, base, m);
    PlaceFilesExact(host, hash, t, packed, base, {}, fl);
    ClearMeans(host, t, {}, fl);
  }
}
